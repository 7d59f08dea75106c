/** Values shared by the MIDI 1.0 byte-stream parser: bytes, the bit masks used
    to classify them, the message-type enumeration and the event record the
    parser fills in.  The masks and enumerations are declared with their
    standard MIDI 1.0 values. */
module MidiTypes {

  /** One 8-bit value of the serial stream (uint8_t). */
  newtype Byte = x: int | 0 <= x < 256

  /** Bit 7 is set on status bytes and clear on data bytes. */
  const kStatusByteMask: Byte := 0x80
  /** The channel of a channel-voice status byte is its low nibble. */
  const kChannelMask: Byte := 0x0F
  /** Bits 4..6 of a status byte select the message type. */
  const kMessageMask: Byte := 0x70
  /** A data byte carries seven bits of payload. */
  const kDataByteMask: Byte := 0x7F
  /** The low three bits of a System Real-Time byte select its sub-type. */
  const kSystemRealTimeMask: Byte := 0x07

  /* The parser only ever ANDs a byte with the masks above.  Each such AND is
     written below in arithmetic form; module Bits proves every one of them
     equal to the bitwise AND with its mask. */

  /** `byte & kStatusByteMask` is non-zero. */
  predicate IsStatus(b: Byte)
  {
    b >= 0x80
  }

  /** `byte & kChannelMask`. */
  function ChannelOf(b: Byte): Byte
  {
    b % 16
  }

  /** `(byte & kMessageMask) >> 4`. */
  function MessageCode(b: Byte): Byte
  {
    (b % 128) / 16
  }

  /** `byte & kDataByteMask`. */
  function DataOf(b: Byte): Byte
  {
    b % 128
  }

  /** `byte & kSystemRealTimeMask`, which is also `byte & 0x07`. */
  function SubTypeOf(b: Byte): Byte
  {
    b % 8
  }

  /** Capacity of the System Exclusive buffer inside every event. */
  const SYSEX_BUFFER_LEN: nat := 128

  /** System Common sub-type code (status byte & 0x07) of System Exclusive, 0xF0. */
  const SystemExclusive: Byte := 0

  /** The end-of-exclusive status byte. */
  const SysExEndByte: Byte := 0xF7

  datatype Option<+T> = None | Some(value: T)

  /** Message types, in the order of their codes: code k of a status byte
      (bits 4..6) is the k-th constructor. */
  datatype MidiMessageType =
    | NoteOff
    | NoteOn
    | PolyphonicKeyPressure
    | ControlChange
    | ProgramChange
    | ChannelPressure
    | PitchBend
    | SystemCommon
    | SystemRealTime
    | ChannelMode
    | MessageLast

  /** The seven channel-voice kinds, NoteOff through PitchBend. */
  predicate IsChannelVoice(t: MidiMessageType)
  {
    t.NoteOff? || t.NoteOn? || t.PolyphonicKeyPressure? || t.ControlChange?
    || t.ProgramChange? || t.ChannelPressure? || t.PitchBend?
  }

  /** ProgramChange and ChannelPressure carry one data byte; every other
      channel-voice kind carries two. */
  predicate TakesOneDataByte(t: MidiMessageType)
  {
    t == ChannelPressure || t == ProgramChange
  }

  /** static_cast<MidiMessageType>(code) for a three-bit code. */
  function MessageTypeOf(code: Byte): (t: MidiMessageType)
    requires code <= 7
    ensures IsChannelVoice(t) <==> code < 7
    ensures t == SystemCommon <==> code == 7
    ensures TakesOneDataByte(t) <==> code == 4 || code == 5
    ensures t == NoteOn <==> code == 1
  {
    if code == 0 then NoteOff
    else if code == 1 then NoteOn
    else if code == 2 then PolyphonicKeyPressure
    else if code == 3 then ControlChange
    else if code == 4 then ProgramChange
    else if code == 5 then ChannelPressure
    else if code == 6 then PitchBend
    else SystemCommon
  }

  /** The event record.  `srtType` and `scType` hold the three-bit sub-type
      codes of System Real-Time and System Common messages; `sysexData` is the
      whole fixed-size buffer, of which the first `sysexLen` bytes are meant. */
  datatype MidiEvent = MidiEvent(
    msgType: MidiMessageType,
    channel: Byte,
    data0: Byte,
    data1: Byte,
    srtType: Byte,
    scType: Byte,
    sysexData: seq<Byte>,
    sysexLen: nat)
  {
    /** The SysEx buffer has its fixed capacity and the length stays inside it. */
    predicate Valid()
    {
      |sysexData| == SYSEX_BUFFER_LEN && sysexLen <= SYSEX_BUFFER_LEN
    }

    /** The bytes of a System Exclusive message accumulated so far. */
    function Payload(): (p: seq<Byte>)
      requires Valid()
      ensures |p| == sysexLen
    {
      sysexData[..sysexLen]
    }
  }
}
