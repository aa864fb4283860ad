/**
 * The decoded Standard MIDI File that the note extractor consumes.
 *
 * Decoding the bytes of a file is done by an external parser (midly's
 * `Smf::parse`); this module only describes what that parser hands over:
 * the header's timing mode and, per track, the ordered list of events, each
 * with the number of ticks elapsed since the previous event of its track.
 * The integer widths are those of the file format: 4-bit channels, 7-bit
 * keys and velocities, 15-bit ticks per quarter note, 24-bit tempos and
 * 28-bit delta times.
 */
module MidiInput {

  type U4 = x: int | 0 <= x < 0x10
  type U7 = x: int | 0 <= x < 0x80
  type U15 = x: int | 0 <= x < 0x8000
  type U24 = x: int | 0 <= x < 0x100_0000
  type U28 = x: int | 0 <= x < 0x1000_0000

  /** The header's time division: ticks per quarter note, or SMPTE timecode. */
  datatype Timing =
    | Metrical(ppq: U15)
    | Timecode

  /**
   * The kinds of track events the extractor distinguishes. `Tempo` is the
   * Set Tempo meta event (FF 51 03), in microseconds per quarter note; every
   * other channel message, meta event or system-exclusive message is `Other`.
   */
  datatype EventKind =
    | NoteOn(channel: U4, key: U7, vel: U7)
    | NoteOff(channel: U4, key: U7, vel: U7)
    | Tempo(usPerQuarter: U24)
    | Other

  datatype TrackEvent = TrackEvent(delta: U28, kind: EventKind)

  type Track = seq<TrackEvent>

  datatype Smf = Smf(timing: Timing, tracks: seq<Track>)

  /** What the external parser returns: a decoded file, or a decoding failure. */
  datatype ParseOutcome =
    | Parsed(smf: Smf)
    | ParseError
}
