/**
 * Properties of the whole extraction: tracks are scanned independently,
 * each note carries the index of its track, the output lists the tracks in
 * file order, and the failure cases.
 */
module TrackProperties {
  import opened MidiInput
  import opened NoteExtractor
  import opened ScanProperties

  /** `notes` with every track index replaced by `track`. */
  function Retag(notes: seq<VisualizerNote>, track: nat): seq<VisualizerNote> {
    seq(|notes|, m requires 0 <= m < |notes| => notes[m].(track := track))
  }

  lemma StepIgnoresTrackIndex(s: TrackScan, e: TrackEvent, i: nat, j: nat)
    ensures var t := Step(s, e, i);
      Step(s.(emitted := Retag(s.emitted, j)), e, j) == t.(emitted := Retag(t.emitted, j))
  {
  }

  /**
   * A track's scan does not depend on where the track stands in the file:
   * scanned as track `j` instead of track `i`, it reaches the same position,
   * tempo and pending starts, and emits the same notes tagged `j`.
   */
  lemma {:induction false} ScanIgnoresTrackIndex(events: Track, i: nat, j: nat)
    ensures var a := ScanTrack(events, i);
      ScanTrack(events, j) == a.(emitted := Retag(a.emitted, j))
    decreases |events|
  {
    if events == [] {
      assert Retag([], j) == [];
    } else {
      var init := events[..|events| - 1];
      ScanIgnoresTrackIndex(init, i, j);
      StepIgnoresTrackIndex(ScanTrack(init, i), events[|events| - 1], i, j);
    }
  }

  /** The notes of `notes` that carry track index `track`, in order. */
  function NotesOfTrack(notes: seq<VisualizerNote>, track: nat): seq<VisualizerNote>
    decreases |notes|
  {
    if notes == [] then []
    else
      var last := notes[|notes| - 1];
      NotesOfTrack(notes[..|notes| - 1], track) + (if last.track == track then [last] else [])
  }

  lemma {:induction false} NotesOfTrackAppend(a: seq<VisualizerNote>, b: seq<VisualizerNote>, track: nat)
    ensures NotesOfTrack(a + b, track) == NotesOfTrack(a, track) + NotesOfTrack(b, track)
    decreases |b|
  {
    if b != [] {
      var init := b[..|b| - 1];
      assert (a + b)[..|a + b| - 1] == a + init;
      NotesOfTrackAppend(a, init, track);
    } else {
      assert a + b == a;
    }
  }

  lemma {:induction false} NotesOfTrackAllTagged(notes: seq<VisualizerNote>, tagged: nat, track: nat)
    requires forall n :: n in notes ==> n.track == tagged
    ensures NotesOfTrack(notes, track) == if track == tagged then notes else []
    decreases |notes|
  {
    if notes != [] {
      var init := notes[..|notes| - 1];
      assert notes[|notes| - 1] in notes;
      assert forall n :: n in init ==> n in notes;
      NotesOfTrackAllTagged(init, tagged, track);
      assert init + [notes[|notes| - 1]] == notes;
    }
  }

  /**
   * No state crosses between tracks: the notes tagged with a track's index
   * in the whole output are exactly that track's own notes, in the order
   * it emitted them; no note is tagged with an index past the last track.
   */
  lemma {:induction false} TracksAreIsolated(tracks: seq<Track>, track: nat)
    ensures NotesOfTrack(CollectNotes(tracks), track)
      == if track < |tracks| then TrackNotes(tracks[track], track) else []
    decreases |tracks|
  {
    if tracks == [] {
    } else {
      var n := |tracks| - 1;
      var init := tracks[..n];
      TracksAreIsolated(init, track);
      NotesOfTrackAppend(CollectNotes(init), TrackNotes(tracks[n], n), track);
      DurationsNotNegative(tracks[n], n);
      NotesOfTrackAllTagged(TrackNotes(tracks[n], n), n, track);
      if track < n {
        assert init[track] == tracks[track];
      }
    }
  }

  /**
   * The output lists the tracks in file order: track indices never decrease
   * along it, and every index is that of a track of the file.
   */
  lemma {:induction false} OutputGroupedByTrack(tracks: seq<Track>)
    ensures var out := CollectNotes(tracks);
      && (forall n :: n in out ==> n.track < |tracks|)
      && (forall a, b :: 0 <= a < b < |out| ==> out[a].track <= out[b].track)
    decreases |tracks|
  {
    if tracks != [] {
      var n := |tracks| - 1;
      var init := tracks[..n];
      OutputGroupedByTrack(init);
      DurationsNotNegative(tracks[n], n);
      var prev := CollectNotes(init);
      var own := TrackNotes(tracks[n], n);
      var out := prev + own;
      forall a | 0 <= a < |out|
        ensures out[a].track < |tracks|
        ensures |prev| <= a ==> out[a].track == n
      {
        if a < |prev| {
          assert out[a] in prev;
        } else {
          assert out[a] == own[a - |prev|];
          assert own[a - |prev|] in own;
        }
      }
      forall x | x in out
        ensures x.track < |tracks|
      {
        var a :| 0 <= a < |out| && out[a] == x;
      }
    }
  }

  /** The number of note-ons with a velocity above 0 over all tracks. */
  function TotalNoteOns(tracks: seq<Track>): nat
    decreases |tracks|
  {
    if tracks == [] then 0
    else TotalNoteOns(tracks[..|tracks| - 1]) + NoteOnCount(tracks[|tracks| - 1])
  }

  /** Hanging and retriggered notes are lost, so there are never more notes than note-ons. */
  lemma {:induction false} AtMostOneNotePerNoteOnOverall(tracks: seq<Track>)
    ensures |CollectNotes(tracks)| <= TotalNoteOns(tracks)
    decreases |tracks|
  {
    if tracks != [] {
      var n := |tracks| - 1;
      AtMostOneNotePerNoteOnOverall(tracks[..n]);
      AtMostOneNotePerNoteOn(tracks[n], n);
    }
  }

  /**
   * What a successful extraction promises: every note starts at or after 0,
   * lasts at least 0, belongs to a track of the file, the tracks appear in
   * file order, and there are at most as many notes as sounding note-ons.
   * It fails only on a decoding failure or on timecode timing.
   */
  lemma ExtractionOutcome(parsed: ParseOutcome)
    ensures Extract(parsed).Err? <==> parsed.ParseError? || parsed.smf.timing.Timecode?
    ensures Extract(parsed).Ok? ==>
      var out := Extract(parsed).value;
      var tracks := parsed.smf.tracks;
      && (forall n :: n in out ==> 0 <= n.start && 0 <= n.duration && n.track < |tracks|)
      && (forall a, b :: 0 <= a < b < |out| ==> out[a].track <= out[b].track)
      && |out| <= TotalNoteOns(tracks)
  {
    if Extract(parsed).Ok? {
      var tracks := parsed.smf.tracks;
      var out := CollectNotes(tracks);
      OutputGroupedByTrack(tracks);
      AtMostOneNotePerNoteOnOverall(tracks);
      forall x | x in out
        ensures 0 <= x.start && 0 <= x.duration
      {
        NotesOfTrackMember(out, x);
        TracksAreIsolated(tracks, x.track);
        DurationsNotNegative(tracks[x.track], x.track);
      }
    }
  }

  lemma {:induction false} NotesOfTrackMember(notes: seq<VisualizerNote>, x: VisualizerNote)
    requires x in notes
    ensures x in NotesOfTrack(notes, x.track)
    decreases |notes|
  {
    var init := notes[..|notes| - 1];
    if x != notes[|notes| - 1] {
      assert init + [notes[|notes| - 1]] == notes;
      assert x in init;
      NotesOfTrackMember(init, x);
    }
  }
}
