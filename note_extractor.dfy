/**
 * The note extractor: pairs note-on and note-off events of each track into
 * note records.
 *
 * Time is kept exact. The position of an event is the sum, over the events
 * up to and including it, of `delta * tempo`, where `tempo` is the tempo in
 * effect before that event (microseconds per quarter note). Its unit is
 * microsecond-ticks per quarter note; dividing by `1_000_000 * ppq` gives
 * seconds (module Seconds).
 *
 * `ScanTrack` is the reference definition of one track's scan, a left fold
 * of `Step` over the events; `CollectNotes` concatenates the tracks' notes;
 * `Extract` adds the two failure cases. `ExtractNotes` is the imperative
 * extractor, proved equal to `Extract`.
 */
module NoteExtractor {
  import opened MidiInput

  /** The tempo every track starts with: 500,000 microseconds per quarter note. */
  const DefaultTempo: U24 := 500_000

  /**
   * One reconstructed note: its key, when it started, how long it lasted
   * (both in scaled time) and the index of the track that produced it.
   */
  datatype VisualizerNote = VisualizerNote(pitch: U7, start: int, duration: int, track: nat)

  datatype ExtractError =
    | MalformedStream     // the parser could not decode the file
    | UnsupportedTiming   // the header uses timecode instead of ticks per quarter note

  datatype Result<T> = Ok(value: T) | Err(error: ExtractError)

  /**
   * The state of one track's scan: the absolute position, the running tempo,
   * the pending start of every sounding key, and the notes emitted so far.
   */
  datatype TrackScan = TrackScan(pos: int, tempo: U24, active: map<U7, int>, emitted: seq<VisualizerNote>)

  const TrackStart: TrackScan := TrackScan(0, DefaultTempo, map[], [])

  /** True when `e` ends a note of `key`: a note-off, or a note-on of velocity 0. */
  predicate ClosesKey(e: TrackEvent, key: U7) {
    match e.kind
    case NoteOn(_, k, vel) => vel == 0 && k == key
    case NoteOff(_, k, _) => k == key
    case _ => false
  }

  /** True when `e` is a note-on that starts a note (velocity above 0). */
  predicate StartsNote(e: TrackEvent) {
    e.kind.NoteOn? && e.kind.vel > 0
  }

  /** Ends the pending note of `key`, if there is one, at the current position. */
  function Close(s: TrackScan, key: U7, track: nat): TrackScan {
    if key in s.active then
      var start := s.active[key];
      s.(active := s.active - {key},
         emitted := s.emitted + [VisualizerNote(key, start, s.pos - start, track)])
    else
      s
  }

  /**
   * Scans one event: the delta is converted with the tempo in effect before
   * the event, then the event itself is applied.
   */
  function Step(s: TrackScan, e: TrackEvent, track: nat): TrackScan {
    var t := s.(pos := s.pos + e.delta * s.tempo);
    match e.kind
    case Tempo(us) => t.(tempo := us)
    case NoteOn(_, key, vel) =>
      if vel > 0 then t.(active := t.active[key := t.pos]) else Close(t, key, track)
    case NoteOff(_, key, _) => Close(t, key, track)
    case Other => t
  }

  /** The state after scanning `events` from the start of track number `track`. */
  function ScanTrack(events: Track, track: nat): TrackScan
    decreases |events|
  {
    if events == [] then TrackStart
    else Step(ScanTrack(events[..|events| - 1], track), events[|events| - 1], track)
  }

  /** The notes one track contributes; whatever is still pending at its end is dropped. */
  function TrackNotes(events: Track, track: nat): seq<VisualizerNote> {
    ScanTrack(events, track).emitted
  }

  /** The notes of all tracks, track by track in file order. */
  function CollectNotes(tracks: seq<Track>): seq<VisualizerNote>
    decreases |tracks|
  {
    if tracks == [] then []
    else CollectNotes(tracks[..|tracks| - 1]) + TrackNotes(tracks[|tracks| - 1], |tracks| - 1)
  }

  /** The extractor's result for a parser outcome. */
  function Extract(parsed: ParseOutcome): Result<seq<VisualizerNote>> {
    match parsed
    case ParseError => Err(MalformedStream)
    case Parsed(smf) =>
      if smf.timing.Metrical? then Ok(CollectNotes(smf.tracks)) else Err(UnsupportedTiming)
  }

  /**
   * The extractor as the program runs it: one pass per track with a running
   * position, a running tempo and a table of pending starts.
   */
  method ExtractNotes(parsed: ParseOutcome) returns (r: Result<seq<VisualizerNote>>)
    ensures r == Extract(parsed)
    ensures parsed.ParseError? ==> r == Err(MalformedStream)
    ensures parsed.Parsed? && parsed.smf.timing.Timecode? ==> r == Err(UnsupportedTiming)
    ensures parsed.Parsed? && parsed.smf.timing.Metrical? ==> r == Ok(CollectNotes(parsed.smf.tracks))
  {
    if parsed.ParseError? {
      return Err(MalformedStream);
    }
    var smf := parsed.smf;
    if !smf.timing.Metrical? {
      return Err(UnsupportedTiming);
    }
    var tracks := smf.tracks;
    var allNotes: seq<VisualizerNote> := [];
    for trackIdx := 0 to |tracks|
      invariant allNotes == CollectNotes(tracks[..trackIdx])
    {
      var track := tracks[trackIdx];
      var absolute: int := 0;
      var currentTempo: U24 := DefaultTempo;
      var activeNotes: map<U7, int> := map[];
      ghost var earlier := allNotes;
      for j := 0 to |track|
        invariant ScanTrack(track[..j], trackIdx).pos == absolute
        invariant ScanTrack(track[..j], trackIdx).tempo == currentTempo
        invariant ScanTrack(track[..j], trackIdx).active == activeNotes
        invariant allNotes == earlier + ScanTrack(track[..j], trackIdx).emitted
      {
        var event := track[j];
        absolute := absolute + event.delta * currentTempo;
        match event.kind {
          case Tempo(us) =>
            currentTempo := us;
          case NoteOn(_, key, vel) =>
            if vel > 0 {
              activeNotes := activeNotes[key := absolute];
            } else if key in activeNotes {
              var start := activeNotes[key];
              activeNotes := activeNotes - {key};
              allNotes := allNotes + [VisualizerNote(key, start, absolute - start, trackIdx)];
            }
          case NoteOff(_, key, _) =>
            if key in activeNotes {
              var start := activeNotes[key];
              activeNotes := activeNotes - {key};
              allNotes := allNotes + [VisualizerNote(key, start, absolute - start, trackIdx)];
            }
          case Other =>
        }
        assert track[..j + 1][..j] == track[..j];
      }
      assert track[..|track|] == track;
      assert tracks[..trackIdx + 1][..trackIdx] == tracks[..trackIdx];
    }
    assert tracks[..|tracks|] == tracks;
    r := Ok(allNotes);
  }
}
