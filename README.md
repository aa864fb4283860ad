# MIDI note extraction, modelled in Dafny

This project models the note extractor of `midi-visualizer`, the function
`extract_notes` and its output record `VisualizerNote`. The extractor takes a
decoded Standard MIDI File and rebuilds the notes that were played. For each
track it scans the events in order. It accumulates absolute time from the
delta ticks, using a running tempo that starts at 500,000 microseconds per
quarter note and changes on Set Tempo meta events (FF 51 03). Each note-off,
or note-on of velocity 0, closes the most recent pending note-on of its key;
a second note-on overwrites the pending start. The result is a list of
notes, each with a pitch, a start, a duration and the index of its track.

Files:

- `midi_input.dfy` (module `MidiInput`): what the external MIDI parser
  delivers. This is the header timing, and per track the `(delta, kind)`
  events with the file format's integer widths. Parsing can also fail
  (`ParseError`).
- `note_extractor.dfy` (module `NoteExtractor`): the reference definition
  and the imperative extractor.
  - `Step` scans one event and `ScanTrack` scans a track (a left fold of
    `Step`).
  - `CollectNotes` joins the notes of all tracks and `Extract` adds the two
    failure cases.
  - `ExtractNotes` is the imperative extractor. It has the source's nested
    loops, a running position, a running tempo and a `map` of pending starts,
    and it is proved equal to `Extract`.
- `scan_properties.dfy` (module `ScanProperties`): what one event and one
  track do. This covers pairing, retriggering, orphan and hanging notes,
  monotone time, closing order, the count bound and the meaning of the
  running position.
- `track_properties.dfy` (module `TrackProperties`): what holds across
  tracks. This covers track isolation, track tagging, file order and the
  overall outcome.
- `seconds.dfy` (module `Seconds`): conversion of scaled time to seconds,
  with the program's per-event formula and two worked examples.

Time is exact. The position is a scaled integer: the sum of
`delta * tempo` over the events scanned so far, where each delta uses the
tempo in effect before its own event. The unit is microsecond-ticks per
quarter note. Dividing by `1_000_000 * ppq` gives the program's seconds
(`Seconds.ToSeconds`). `Seconds.AdvanceInSeconds` shows that this is the
program's running sum `delta * (tempo / 1e6) / ppq`. The extraction itself
does not need `ppq`.

The two panics of the program are error results. A decoding failure gives
`Err(MalformedStream)` and timecode timing gives `Err(UnsupportedTiming)`.

500,000 µs per quarter note is 120 beats per minute, so 480 ticks at 480
ticks per quarter note last 0.5 s (`Seconds.QuarterNoteAtDefaultTempo`).

## Model

| member | source | states |
|---|---|---|
| NoteExtractor.ExtractNotes | src/main.rs:18-83 | The result equals `Extract(parsed)` for every input. A decoding failure gives `Err(MalformedStream)` and timecode timing gives `Err(UnsupportedTiming)`. Otherwise the result is the notes of every track in file order, as the reference scan `CollectNotes` defines them. The loop invariants keep the running position, tempo and pending-start table equal to `ScanTrack` of the events scanned so far. |
| TrackProperties.ExtractionOutcome | src/main.rs:18-83 | Extraction fails exactly on a decoding failure or timecode timing. On success every note starts at or after 0, lasts at least 0 and belongs to a track of the file. Track indices never decrease along the output, and there are at most as many notes as note-ons of velocity above 0. |
| ScanProperties.StepAdvances | src/main.rs:35-39 | Each event moves the position forward by its delta times the tempo in effect before it, never backwards. The list of emitted notes only grows. |
| ScanProperties.StepKeepsWellTimed | src/main.rs:35-78 | One event keeps the timing invariant: every pending start lies in [0, position], and every emitted note carries this track's index, starts at or after 0, has a duration of at least 0 and ends no later than the position. |
| ScanProperties.NoteOnRecordsStart | src/main.rs:47-50 | A note-on of velocity above 0 records the current position as its key's pending start and overwrites any earlier start. It emits nothing and leaves the other keys and the tempo unchanged. |
| ScanProperties.ClosingEventEndsNote | src/main.rs:51-73 | After a note-off or a note-on of velocity 0, the key has no pending start. If a start was pending, exactly one note is emitted, from that start to the current position. Otherwise nothing is emitted and the table is unchanged. |
| ScanProperties.TempoEventChangesOnlyTempo | src/main.rs:36-44 | A tempo event sets the running tempo. Its own delta is still converted with the previous tempo, and nothing else changes. |
| ScanProperties.ScanWellTimed | src/main.rs:28-79 | The timing invariant holds after any number of events of a track that starts at position 0 with an empty table. |
| ScanProperties.DurationsNotNegative | src/main.rs:54-72 | Every note a track emits has a start of at least 0, a duration of at least 0 and that track's index. |
| ScanProperties.EmittedOnlyGrows | src/main.rs:35-79 | Scanning more events of a track only appends notes and never lowers the position. |
| ScanProperties.NotesInClosingOrder | src/main.rs:54-72 | A track's notes come out in the order of their closing events, so their end times never decrease along the list. |
| ScanProperties.HangingNoteNeverEmitted | src/main.rs:33-80 | If no event from index j on closes a key, those events emit no note of that key. A note still sounding at the end of the track is dropped. |
| ScanProperties.AtMostOneNotePerNoteOn | src/main.rs:47-73 | In a track, the emitted notes plus the pending starts are at most the number of note-ons of velocity above 0. |
| ScanProperties.ClosingEventsInterchangeable | src/main.rs:47-73 | Two tracks give the same scan if each pair of events is equal or closes the same key after the same delta. So a note-on of velocity 0 acts exactly like a note-off, and channel and release velocity do not matter. |
| ScanProperties.PositionIsTempoWeightedTicks | src/main.rs:29-43 | The running position equals the sum, read front to back, of each delta times the tempo in effect before its event. The running tempo is the last tempo event's value, or 500,000. |
| ScanProperties.WithoutTempoEventsPositionIsTicks | src/main.rs:31-39 | A track without tempo events has its position equal to 500,000 times its absolute tick count. |
| ScanProperties.TempoOnlyAffectsLaterDeltas | src/main.rs:36-44 | Changing the value of the tempo event at index j leaves the scan of the events before it unchanged. After index j the whole scan state (position, pending starts, emitted notes) is the same, except that the running tempo is the new value. |
| ScanProperties.NoteOnThenOffPairs | src/main.rs:47-73 | A note-on followed by a closing event of the same key emits exactly one note. It starts at the note-on's position and lasts the closing delta times the running tempo, which is 0 on the same tick. |
| ScanProperties.OtherOnlyAdvances | src/main.rs:75-77 | Any event other than a note-on, note-off or tempo change only moves the position forward by its delta times the running tempo. |
| ScanProperties.UntouchedKeyStays | src/main.rs:41-78 | Events that are neither a note-on nor a note-off of a key leave that key's pending start exactly as it was: present with the same start, or absent. |
| ScanProperties.Pairing | src/main.rs:47-73 | A note-on of a key at index i and the next note-on or note-off of that key at index m, when that event closes the key, emit exactly one note. It runs from the position after event i to the position after event m, whatever other keys, tempo changes and other events lie between them. |
| ScanProperties.RetriggerLosesFirstInterval | src/main.rs:47-50 | Note-on, note-on, note-off on one key emits a single note that starts at the second note-on. The first interval is lost. |
| ScanProperties.TempoChangeDuringNote | src/main.rs:36-44 | A tempo change while a note sounds splits its duration: the ticks before the change count at the old tempo and the ticks after it at the new tempo. |
| ScanProperties.OrphanCloseIgnored | src/main.rs:64-73 | A closing event for a key with no pending start only advances the position. It emits nothing, and the table and tempo are unchanged. |
| TrackProperties.ScanIgnoresTrackIndex | src/main.rs:28-33 | A track scanned under another index reaches the same position, tempo and pending starts. It emits the same notes, tagged with the new index. |
| TrackProperties.TracksAreIsolated | src/main.rs:28-80 | The notes tagged with track i in the whole output are exactly track i's own notes, in its own order. No note carries an index past the last track. |
| TrackProperties.OutputGroupedByTrack | src/main.rs:26-82 | Every output note belongs to a track of the file, and track indices never decrease along the output. |
| TrackProperties.AtMostOneNotePerNoteOnOverall | src/main.rs:26-82 | The output has at most as many notes as the file has note-ons of velocity above 0. |
| Seconds.NoteInSeconds | src/main.rs:7-12 | The record in seconds keeps pitch and track. Its start is the note-on position in seconds, and its start plus duration is the closing position in seconds, so the duration is the closing position minus the start in seconds. A non-negative start or duration stays non-negative. |
| Seconds.AdvanceInSeconds | src/main.rs:36-39 | Converting the scaled position after an event gives the seconds before it plus `delta * ((tempo / 1e6) / ppq)`. This is the program's per-event update, computed exactly. |
| Seconds.QuarterNoteAtDefaultTempo | src/main.rs:29-39 | With 480 ticks per quarter note, a note-on at tick 0 and a note-off at tick 480 give one note of 0.5 s. |
| Seconds.TempoChangeInsideNote | src/main.rs:36-43 | With 480 ticks per quarter note, a tempo change to 1,000,000 µs at tick 480 inside a note that ends at tick 960 gives 0.5 s + 1.0 s = 1.5 s. |

## Left out

- The byte-level parse (`Smf::parse` from the midly crate) is a foreign library. Its result is the input datatype `ParseOutcome`. midly's event kinds other than note-on, note-off and Set Tempo become `Other`, and the timecode fields are not kept.
- The two panics (decoding failure and non-metrical timing) are modelled as `Err` results, not as crashes.
- `f32` arithmetic and rounding are not modelled. Time is an exact scaled integer and seconds are exact `real`s. The program's float sum may differ by rounding.
- Seconds.ToSeconds requires ppq > 0. The program divides by ppq as a float, so a header with 0 ticks per quarter note gives non-finite times there. The model does not cover that case.
- The `HashMap` of pending starts is a Dafny `map` keyed by the 7-bit key. Its iteration order and hashing play no role, because the program only inserts, removes and looks up.
- `view` (rendering, layout math, colour palette, window culling), `model`, `update`, `main` and `Args` (command line, file reading, app loop) are not part of this model.
