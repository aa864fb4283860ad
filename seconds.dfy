/**
 * Converting scaled time to seconds.
 *
 * A position in scaled time counts microsecond-ticks per quarter note;
 * with `ppq` ticks per quarter note it is `pos / (1_000_000 * ppq)` seconds.
 * The program accumulates seconds directly, adding for each event
 * `delta * ((tempo / 1_000_000) / ppq)`; `AdvanceInSeconds` shows that the
 * scaled position, converted, is exactly that running sum.
 */
module Seconds {
  import opened MidiInput
  import opened NoteExtractor
  import opened ScanProperties

  function ToSeconds(scaled: int, ppq: U15): real
    requires ppq > 0
  {
    scaled as real / (1_000_000.0 * ppq as real)
  }

  /** A note as the renderer reads it, with start and duration in seconds. */
  datatype SecondsNote = SecondsNote(pitch: U7, startTime: real, duration: real, track: nat)

  function NoteInSeconds(n: VisualizerNote, ppq: U15): (r: SecondsNote)
    requires ppq > 0
    ensures r.pitch == n.pitch && r.track == n.track
    ensures r.startTime == ToSeconds(n.start, ppq)
    ensures n.start >= 0 ==> r.startTime >= 0.0
    ensures n.duration >= 0 ==> r.duration >= 0.0
    ensures r.startTime + r.duration == ToSeconds(End(n), ppq)
  {
    SecondsNote(n.pitch, ToSeconds(n.start, ppq), ToSeconds(n.duration, ppq), n.track)
  }

  /**
   * One step of the program's running clock: converting the scaled position
   * after an event gives the seconds before it plus the event's delta times
   * the seconds per tick at the tempo in effect before it.
   */
  lemma AdvanceInSeconds(pos: int, delta: U28, tempo: U24, ppq: U15)
    requires ppq > 0
    ensures ToSeconds(pos + delta * tempo, ppq)
      == ToSeconds(pos, ppq) + delta as real * ((tempo as real / 1_000_000.0) / ppq as real)
  {
  }

  function On(delta: U28, key: U7): TrackEvent {
    TrackEvent(delta, NoteOn(0, key, 100))
  }

  function Off(delta: U28, key: U7): TrackEvent {
    TrackEvent(delta, NoteOff(0, key, 64))
  }

  /** At the default tempo (120 beats per minute) a quarter note lasts half a second. */
  lemma QuarterNoteAtDefaultTempo()
    ensures var notes := TrackNotes([On(0, 60), Off(480, 60)], 0);
      && notes == [VisualizerNote(60, 0, 480 * 500_000, 0)]
      && NoteInSeconds(notes[0], 480).duration == 0.5
  {
    NoteOnThenOffPairs([], On(0, 60), Off(480, 60), 0);
    assert [] + [On(0, 60), Off(480, 60)] == [On(0, 60), Off(480, 60)];
  }

  /**
   * A tempo change in the middle of a note (to 1,000,000 microseconds per
   * quarter note after 480 ticks) only slows the ticks after it: the note
   * lasts 0.5 s for the first 480 ticks plus 1.0 s for the next 480.
   */
  lemma TempoChangeInsideNote()
    ensures var notes := TrackNotes([On(0, 60), TrackEvent(480, Tempo(1_000_000)), Off(480, 60)], 0);
      && |notes| == 1
      && NoteInSeconds(notes[0], 480).duration == 1.5
  {
    var events := [On(0, 60), TrackEvent(480, Tempo(1_000_000)), Off(480, 60)];
    TempoChangeDuringNote([], On(0, 60), TrackEvent(480, Tempo(1_000_000)), Off(480, 60), 0);
    assert [] + events == events;
    var note := VisualizerNote(60, 0, 480 * 500_000 + 480 * 1_000_000, 0);
    assert TrackNotes(events, 0) == [note];
  }
}
