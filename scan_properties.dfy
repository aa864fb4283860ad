/**
 * Properties of one track's scan: how each kind of event changes the state,
 * what the running position means, and which notes are (not) emitted.
 */
module ScanProperties {
  import opened MidiInput
  import opened NoteExtractor

  function End(n: VisualizerNote): int {
    n.start + n.duration
  }

  /**
   * The timing invariant of a scan of track `track`: the position is not
   * negative, every pending start lies between 0 and the position, and every
   * emitted note carries the track's index, starts at or after 0, has a
   * duration of at least 0 and ends no later than the position.
   */
  ghost predicate WellTimed(s: TrackScan, track: nat) {
    && 0 <= s.pos
    && (forall k :: k in s.active ==> 0 <= s.active[k] <= s.pos)
    && (forall n :: n in s.emitted ==>
          n.track == track && 0 <= n.start && 0 <= n.duration && End(n) <= s.pos)
  }

  /** Emitted notes are listed in the order they ended. */
  ghost predicate EndsOrdered(notes: seq<VisualizerNote>) {
    forall a, b :: 0 <= a < b < |notes| ==> End(notes[a]) <= End(notes[b])
  }

  // ---------------------------------------------------------------------
  // One event at a time

  /** The position never moves back: deltas and tempos are not negative. */
  lemma StepAdvances(s: TrackScan, e: TrackEvent, track: nat)
    ensures Step(s, e, track).pos == s.pos + e.delta * s.tempo >= s.pos
    ensures s.emitted <= Step(s, e, track).emitted
  {
  }

  lemma StepKeepsWellTimed(s: TrackScan, e: TrackEvent, track: nat)
    requires WellTimed(s, track)
    ensures WellTimed(Step(s, e, track), track)
  {
    StepAdvances(s, e, track);
  }

  /**
   * A note-on with a velocity above 0 records the current position as the
   * key's pending start, replacing any earlier one; it emits nothing and
   * leaves every other key alone.
   */
  lemma NoteOnRecordsStart(s: TrackScan, e: TrackEvent, track: nat)
    requires StartsNote(e)
    ensures var t := Step(s, e, track);
      && t.pos == s.pos + e.delta * s.tempo
      && e.kind.key in t.active && t.active[e.kind.key] == t.pos
      && (forall k :: k != e.kind.key ==> (k in t.active <==> k in s.active))
      && (forall k :: k != e.kind.key && k in s.active ==> t.active[k] == s.active[k])
      && t.emitted == s.emitted && t.tempo == s.tempo
  {
  }

  /**
   * A closing event of `key` (a note-off, or a note-on of velocity 0) leaves
   * no pending start for `key`. If one was pending, exactly one note is
   * emitted, from the recorded start up to the current position; otherwise
   * nothing is emitted and the table is unchanged.
   */
  lemma ClosingEventEndsNote(s: TrackScan, e: TrackEvent, key: U7, track: nat)
    requires ClosesKey(e, key)
    ensures var t := Step(s, e, track);
      && t.pos == s.pos + e.delta * s.tempo
      && t.tempo == s.tempo
      && key !in t.active
      && (forall k :: k != key ==> (k in t.active <==> k in s.active))
      && (forall k :: k != key && k in s.active ==> t.active[k] == s.active[k])
      && (key in s.active ==>
            t.emitted == s.emitted + [VisualizerNote(key, s.active[key], t.pos - s.active[key], track)])
      && (key !in s.active ==> t.emitted == s.emitted && t.active == s.active)
  {
  }

  /**
   * A tempo event changes the running tempo and nothing else: its own delta
   * is still converted with the tempo in effect before it.
   */
  lemma TempoEventChangesOnlyTempo(s: TrackScan, e: TrackEvent, track: nat)
    requires e.kind.Tempo?
    ensures Step(s, e, track) == s.(pos := s.pos + e.delta * s.tempo, tempo := e.kind.usPerQuarter)
  {
  }

  /** Any other event only moves the position forward. */
  lemma OtherOnlyAdvances(s: TrackScan, e: TrackEvent, track: nat)
    requires e.kind.Other?
    ensures Step(s, e, track) == s.(pos := s.pos + e.delta * s.tempo)
  {
  }

  // ---------------------------------------------------------------------
  // Whole tracks

  lemma {:induction false} ScanWellTimed(events: Track, track: nat)
    ensures WellTimed(ScanTrack(events, track), track)
  {
    if events != [] {
      ScanWellTimed(events[..|events| - 1], track);
      StepKeepsWellTimed(ScanTrack(events[..|events| - 1], track), events[|events| - 1], track);
    }
  }

  /** Every emitted note has a duration of at least 0 and starts at or after 0. */
  lemma DurationsNotNegative(events: Track, track: nat)
    ensures forall n :: n in TrackNotes(events, track) ==>
      n.track == track && 0 <= n.start && 0 <= n.duration
  {
    ScanWellTimed(events, track);
  }

  /** Scanning more events only appends notes. */
  lemma {:induction false} EmittedOnlyGrows(events: Track, j: nat, track: nat)
    requires j <= |events|
    ensures ScanTrack(events[..j], track).emitted <= ScanTrack(events, track).emitted
    ensures ScanTrack(events[..j], track).pos <= ScanTrack(events, track).pos
    decreases |events|
  {
    if j < |events| {
      var init := events[..|events| - 1];
      assert events[..j] == init[..j];
      EmittedOnlyGrows(init, j, track);
      StepAdvances(ScanTrack(init, track), events[|events| - 1], track);
    } else {
      assert events[..j] == events;
    }
  }

  /**
   * Notes come out in the order their closing events occur, so their end
   * positions never decrease along the list.
   */
  lemma {:induction false} NotesInClosingOrder(events: Track, track: nat)
    ensures EndsOrdered(TrackNotes(events, track))
  {
    if events != [] {
      var init := events[..|events| - 1];
      var s := ScanTrack(init, track);
      NotesInClosingOrder(init, track);
      ScanWellTimed(init, track);
      var t := Step(s, events[|events| - 1], track);
      StepAdvances(s, events[|events| - 1], track);
      if |t.emitted| > |s.emitted| {
        assert |t.emitted| == |s.emitted| + 1;
        assert End(t.emitted[|s.emitted|]) == t.pos;
        forall a | 0 <= a < |s.emitted|
          ensures End(t.emitted[a]) <= t.pos
        {
          assert t.emitted[a] == s.emitted[a];
          assert s.emitted[a] in s.emitted;
        }
      }
    }
  }

  /**
   * Notes still pending when the track ends are dropped: if no event from
   * index `j` on closes `key`, those events emit no note of `key`.
   */
  lemma {:induction false} HangingNoteNeverEmitted(events: Track, j: nat, key: U7, track: nat)
    requires j <= |events|
    requires forall i :: j <= i < |events| ==> !ClosesKey(events[i], key)
    ensures var before := TrackNotes(events[..j], track);
      var after := TrackNotes(events, track);
      && before <= after
      && forall m :: |before| <= m < |after| ==> after[m].pitch != key
    decreases |events|
  {
    EmittedOnlyGrows(events, j, track);
    if j < |events| {
      var init := events[..|events| - 1];
      assert events[..j] == init[..j];
      HangingNoteNeverEmitted(init, j, key, track);
      var e := events[|events| - 1];
      var s := ScanTrack(init, track);
      assert !ClosesKey(e, key);
      StepAdvances(s, e, track);
    } else {
      assert events[..j] == events;
    }
  }

  /** The number of note-ons with a velocity above 0 in `events`. */
  function NoteOnCount(events: Track): nat
    decreases |events|
  {
    if events == [] then 0
    else NoteOnCount(events[..|events| - 1]) + (if StartsNote(events[|events| - 1]) then 1 else 0)
  }

  /**
   * Each emitted note and each pending start is owed to its own note-on, so
   * a track emits at most as many notes as it has note-ons of velocity above 0.
   */
  lemma {:induction false} AtMostOneNotePerNoteOn(events: Track, track: nat)
    ensures |TrackNotes(events, track)| + |ScanTrack(events, track).active| <= NoteOnCount(events)
  {
    if events != [] {
      var init := events[..|events| - 1];
      var e := events[|events| - 1];
      var s := ScanTrack(init, track);
      AtMostOneNotePerNoteOn(init, track);
      var t := Step(s, e, track);
      match e.kind {
        case NoteOn(_, key, vel) =>
          if vel > 0 {
            assert t.active.Keys == s.active.Keys + {key};
          } else if key in s.active {
            assert t.active.Keys == s.active.Keys - {key};
          }
        case NoteOff(_, key, _) =>
          if key in s.active {
            assert t.active.Keys == s.active.Keys - {key};
          }
        case Tempo(_) =>
        case Other =>
      }
    }
  }

  /**
   * Closing events are interchangeable: a note-on of velocity 0 and a
   * note-off, on any channel and with any velocity, have the same effect
   * when they close the same key after the same delta.
   */
  ghost predicate SameEffect(a: TrackEvent, b: TrackEvent) {
    a == b || (a.delta == b.delta && exists key: U7 :: ClosesKey(a, key) && ClosesKey(b, key))
  }

  lemma {:induction false} ClosingEventsInterchangeable(events: Track, others: Track, track: nat)
    requires |events| == |others|
    requires forall i :: 0 <= i < |events| ==> SameEffect(events[i], others[i])
    ensures ScanTrack(events, track) == ScanTrack(others, track)
    decreases |events|
  {
    if events != [] {
      var n := |events| - 1;
      ClosingEventsInterchangeable(events[..n], others[..n], track);
      if events[n] != others[n] {
        var key: U7 :| ClosesKey(events[n], key) && ClosesKey(others[n], key);
        var s := ScanTrack(events[..n], track);
        ClosingEventEndsNote(s, events[n], key, track);
        ClosingEventEndsNote(s, others[n], key, track);
      }
    }
  }

  // ---------------------------------------------------------------------
  // Position and tempo

  /** The tempo in effect after `e`, given the tempo `tempo` before it. */
  function TempoAfter(e: TrackEvent, tempo: U24): U24 {
    if e.kind.Tempo? then e.kind.usPerQuarter else tempo
  }

  /** The tempo in effect after all of `events`, starting from `tempo`. */
  function FinalTempo(events: Track, tempo: U24): U24
    decreases |events|
  {
    if events == [] then tempo else FinalTempo(events[1..], TempoAfter(events[0], tempo))
  }

  /**
   * The sum of `delta * tempo` over `events`, read front to back, where each
   * delta is weighted with the tempo in effect before its event.
   */
  function WeightedTicks(events: Track, tempo: U24): int
    decreases |events|
  {
    if events == [] then 0
    else events[0].delta * tempo + WeightedTicks(events[1..], TempoAfter(events[0], tempo))
  }

  lemma {:induction false} WeightedTicksAppend(events: Track, e: TrackEvent, tempo: U24)
    ensures WeightedTicks(events + [e], tempo) == WeightedTicks(events, tempo) + e.delta * FinalTempo(events, tempo)
    ensures FinalTempo(events + [e], tempo) == TempoAfter(e, FinalTempo(events, tempo))
    decreases |events|
  {
    if events != [] {
      assert (events + [e])[1..] == events[1..] + [e];
      WeightedTicksAppend(events[1..], e, TempoAfter(events[0], tempo));
    }
  }

  /**
   * The running position of a scan is the tempo-weighted sum of the deltas,
   * each weighted with the tempo in effect before its event, and the running
   * tempo is the last tempo event's value (or the default).
   */
  lemma {:induction false} PositionIsTempoWeightedTicks(events: Track, track: nat)
    ensures ScanTrack(events, track).pos == WeightedTicks(events, DefaultTempo)
    ensures ScanTrack(events, track).tempo == FinalTempo(events, DefaultTempo)
    decreases |events|
  {
    if events != [] {
      var init := events[..|events| - 1];
      var e := events[|events| - 1];
      PositionIsTempoWeightedTicks(init, track);
      WeightedTicksAppend(init, e, DefaultTempo);
      assert init + [e] == events;
    }
  }

  /** The sum of the deltas of `events`. */
  function Ticks(events: Track): nat
    decreases |events|
  {
    if events == [] then 0 else events[0].delta + Ticks(events[1..])
  }

  predicate NoTempoEvents(events: Track) {
    forall i :: 0 <= i < |events| ==> !events[i].kind.Tempo?
  }

  lemma {:induction false} WeightedTicksAtFixedTempo(events: Track, tempo: U24)
    requires NoTempoEvents(events)
    ensures WeightedTicks(events, tempo) == tempo * Ticks(events)
    decreases |events|
  {
    if events != [] {
      assert !events[0].kind.Tempo?;
      WeightedTicksAtFixedTempo(events[1..], tempo);
    }
  }

  /**
   * Without tempo events the position is the absolute tick count scaled by
   * the default tempo: tick time and wall-clock time then agree.
   */
  lemma WithoutTempoEventsPositionIsTicks(events: Track, track: nat)
    requires NoTempoEvents(events)
    ensures ScanTrack(events, track).pos == DefaultTempo * Ticks(events)
  {
    PositionIsTempoWeightedTicks(events, track);
    WeightedTicksAtFixedTempo(events, DefaultTempo);
  }

  /**
   * A tempo event only changes the conversion of later deltas: changing its
   * value changes neither the position it is scanned at nor anything before.
   */
  lemma TempoOnlyAffectsLaterDeltas(events: Track, j: nat, us: U24, track: nat)
    requires j < |events| && events[j].kind.Tempo?
    ensures var changed := events[j := TrackEvent(events[j].delta, Tempo(us))];
      && ScanTrack(changed[..j], track) == ScanTrack(events[..j], track)
      && ScanTrack(changed[..j + 1], track) == ScanTrack(events[..j + 1], track).(tempo := us)
  {
  }

  // ---------------------------------------------------------------------
  // Pairing scenarios

  /**
   * A note-on followed by a closing event of the same key yields exactly
   * one note, from the note-on's position, lasting the closing event's delta
   * at the running tempo (0 when the two share a tick).
   */
  lemma NoteOnThenOffPairs(events: Track, on: TrackEvent, off: TrackEvent, track: nat)
    requires StartsNote(on) && ClosesKey(off, on.kind.key)
    ensures var s := ScanTrack(events, track);
      var start := s.pos + on.delta * s.tempo;
      TrackNotes(events + [on, off], track)
        == s.emitted + [VisualizerNote(on.kind.key, start, off.delta * s.tempo, track)]
  {
    var s := ScanTrack(events, track);
    var all := events + [on, off];
    assert (events + [on])[..|events|] == events;
    assert ScanTrack(events + [on], track) == Step(s, on, track);
    assert all[..|all| - 1] == events + [on];
    NoteOnRecordsStart(s, on, track);
    ClosingEventEndsNote(Step(s, on, track), off, on.kind.key, track);
  }

  /**
   * A second note-on for a key that is already sounding overwrites the
   * pending start: note-on, note-on, note-off yields one note from the
   * second note-on, and the interval from the first is lost.
   */
  lemma RetriggerLosesFirstInterval(events: Track, first: TrackEvent, second: TrackEvent, off: TrackEvent, track: nat)
    requires StartsNote(first) && StartsNote(second) && second.kind.key == first.kind.key
    requires ClosesKey(off, first.kind.key)
    ensures var s := ScanTrack(events, track);
      var start := s.pos + first.delta * s.tempo + second.delta * s.tempo;
      TrackNotes(events + [first, second, off], track)
        == s.emitted + [VisualizerNote(first.kind.key, start, off.delta * s.tempo, track)]
  {
    var s := ScanTrack(events, track);
    var s1 := Step(s, first, track);
    var s2 := Step(s1, second, track);
    var all := events + [first, second, off];
    assert (events + [first])[..|events|] == events;
    assert ScanTrack(events + [first], track) == s1;
    assert (events + [first, second])[..|events| + 1] == events + [first];
    assert ScanTrack(events + [first, second], track) == s2;
    assert all[..|all| - 1] == events + [first, second];
    NoteOnRecordsStart(s, first, track);
    NoteOnRecordsStart(s1, second, track);
    ClosingEventEndsNote(s2, off, first.kind.key, track);
  }

  /**
   * A tempo change while a note sounds splits its duration: the ticks before
   * the change count at the old tempo, the ticks after it at the new one.
   */
  lemma TempoChangeDuringNote(events: Track, on: TrackEvent, change: TrackEvent, off: TrackEvent, track: nat)
    requires StartsNote(on) && change.kind.Tempo? && ClosesKey(off, on.kind.key)
    ensures var s := ScanTrack(events, track);
      var start := s.pos + on.delta * s.tempo;
      var duration := change.delta * s.tempo + off.delta * change.kind.usPerQuarter;
      TrackNotes(events + [on, change, off], track)
        == s.emitted + [VisualizerNote(on.kind.key, start, duration, track)]
  {
    var s := ScanTrack(events, track);
    var s1 := Step(s, on, track);
    var s2 := Step(s1, change, track);
    var all := events + [on, change, off];
    assert (events + [on])[..|events|] == events;
    assert ScanTrack(events + [on], track) == s1;
    assert (events + [on, change])[..|events| + 1] == events + [on];
    assert ScanTrack(events + [on, change], track) == s2;
    assert all[..|all| - 1] == events + [on, change];
    NoteOnRecordsStart(s, on, track);
    TempoEventChangesOnlyTempo(s1, change, track);
    ClosingEventEndsNote(s2, off, on.kind.key, track);
  }

  /** A closing event for a key with no pending start emits nothing and fails nothing. */
  lemma OrphanCloseIgnored(events: Track, off: TrackEvent, key: U7, track: nat)
    requires ClosesKey(off, key) && key !in ScanTrack(events, track).active
    ensures var s := ScanTrack(events, track);
      ScanTrack(events + [off], track) == s.(pos := s.pos + off.delta * s.tempo)
  {
  }

  /** True when `e` is a note-on or a note-off of `key`, whatever its velocity. */
  predicate TouchesKey(e: TrackEvent, key: U7) {
    (e.kind.NoteOn? || e.kind.NoteOff?) && e.kind.key == key
  }

  lemma ScanPrefixStep(events: Track, k: nat, track: nat)
    requires k < |events|
    ensures ScanTrack(events[..k + 1], track) == Step(ScanTrack(events[..k], track), events[k], track)
  {
    assert events[..k + 1][..k] == events[..k];
  }

  /**
   * Events that neither start nor end a note of `key` (other keys, tempo
   * changes, anything else) leave its pending start where it is.
   */
  lemma {:induction false} UntouchedKeyStays(events: Track, i: nat, m: nat, key: U7, track: nat)
    requires i <= m <= |events|
    requires forall j :: i <= j < m ==> !TouchesKey(events[j], key)
    ensures var before := ScanTrack(events[..i], track).active;
      var after := ScanTrack(events[..m], track).active;
      && (key in after <==> key in before)
      && (key in before ==> after[key] == before[key])
    decreases m - i
  {
    if i < m {
      UntouchedKeyStays(events, i, m - 1, key, track);
      ScanPrefixStep(events, m - 1, track);
      assert !TouchesKey(events[m - 1], key);
    }
  }

  /**
   * Pairing across interleaved notes: a note-on of `key` at index `i` and
   * the first closing event of `key` after it, at index `m`, produce exactly
   * one note, from the position of `i` to the position of `m`, whatever other
   * keys, tempo changes and other events lie between them.
   */
  lemma Pairing(events: Track, i: nat, m: nat, track: nat)
    requires i < m < |events|
    requires StartsNote(events[i]) && ClosesKey(events[m], events[i].kind.key)
    requires forall j :: i < j < m ==> !TouchesKey(events[j], events[i].kind.key)
    ensures var key := events[i].kind.key;
      var start := ScanTrack(events[..i + 1], track).pos;
      var done := ScanTrack(events[..m + 1], track);
      done.emitted == ScanTrack(events[..m], track).emitted
        + [VisualizerNote(key, start, done.pos - start, track)]
  {
    var key := events[i].kind.key;
    ScanPrefixStep(events, i, track);
    NoteOnRecordsStart(ScanTrack(events[..i], track), events[i], track);
    UntouchedKeyStays(events, i + 1, m, key, track);
    ScanPrefixStep(events, m, track);
    ClosingEventEndsNote(ScanTrack(events[..m], track), events[m], key, track);
  }
}
