# MIDI 1.0 byte-stream parser, modelled in Dafny

This project models `MidiParser::Parse` and `MidiParser::Reset` of libDaisy
(`src/hid/midi_parser.cpp`) and proves what they do. The parser is a
persistent state machine: each call of `Parse` takes one byte of a serial
MIDI stream and returns whether a complete event was produced, writing that
event through `event_out` when the pointer is not null. Its state is three
fields:

- `pstate_`, the phase: empty, status seen, first data byte seen, or inside
  System Exclusive;
- `running_status_`, the last Channel Voice kind;
- `incoming_message_`, the event under construction, including its
  fixed-size SysEx buffer.

The files:

- `midi_types.dfy` (module `MidiTypes`) holds bytes, the five bit masks, the
  message-type enumeration and the event record. Every `byte & mask` of the
  source is written in arithmetic form (`b % 16`, `(b % 128) / 16`, …).
- `bits.dfy` (module `Bits`) defines bitwise AND on bytes nibble by nibble. It
  proves that each arithmetic form in `MidiTypes` equals the AND with its mask.
- `midi_parser.dfy` (module `MidiParsing`) holds the transition function
  `Step`/`Dispatch`. It is written branch for branch after `Parse`, keeping
  its dead branches and its dead recursive re-parse. The module also holds
  the invariant every reachable state keeps, and the class `MidiParser`. The
  class has the source's fields and an `array` for the SysEx buffer. Its
  `Parse` and `Reset` methods update them in place and are proved to
  perform exactly `Step` and `ResetMachine`.
- `midi_reference.dfy` (module `MidiReference`) restates the behaviour by
  MIDI byte class, with every byte classified once. It proves `Step` equal
  to this restatement, which is how the dead branches are shown dead.
- `midi_properties.dfy` (module `MidiProperties`) defines `Run`, which feeds
  a whole stream. It proves the protocol rules the parser implements:
  - real-time bytes are transparent;
  - a status byte aborts the message in progress;
  - running status, including after System Common;
  - one and two data bytes;
  - a NoteOn of velocity 0 is reported as NoteOff;
  - the bounded SysEx buffer, with its round trip and its overflow;
  - exactly when `Parse` returns true, and what a reported event holds.

`event_out` is written `Option<MidiEvent>`. `None` is a null pointer, and
`Some(e)` is a pointer to an event that holds `e`. The outcome of each call
gives the value that event holds afterwards. On the real-time path only
`type` and `srt_type` of that event are written (`midi_parser.cpp:14-15`),
and the model does the same.

The masks and enumerations come from `midi_parser.h`, which is not part of
this model. They are declared with their standard MIDI 1.0 values, listed
under "Left out".

Some points where the code is followed rather than the protocol description
it implements:

- After a SysEx overflow the parser only returns to `ParserEmpty`
  (`midi_parser.cpp:163-167`). The rest of the exclusive message is not
  skipped: its later data bytes are taken under running status
  (`SysExOverflowThenData`).
- After an overflow, a closing 0xF7 is reported as a System Common message of
  its own with sub-type 7, not as a SystemExclusive message. Because the
  whole of `incoming_message_` is copied out (`midi_parser.cpp:61-64`), that
  event still carries a full buffer (`sysex_message_len` equal to the
  capacity) holding the bytes stored before the overflow (`SysExOverflow`).
- Inside SysEx every byte except 0xF7 and the real-time bytes is stored
  verbatim, status bytes included (`SysExByte`).

## Model

| member | source | states |
|---|---|---|
| `MidiTypes.MessageTypeOf` | src/hid/midi_parser.cpp:34 | the cast of a three-bit message code: a Channel Voice kind exactly for codes 0..6, SystemCommon exactly for 7, a one-data-byte kind exactly for 4 and 5, NoteOn exactly for 1 |
| `MidiParsing.StatusType` | src/hid/midi_parser.cpp:34 | the message type decoded from a status byte is never SystemRealTime |
| `MidiParsing.Emit` | src/hid/midi_parser.cpp:61-64 | `*event_out = ev` writes `ev` exactly when the pointer is present |
| `MidiParsing.Aborted` | src/hid/midi_parser.cpp:21-25 | a status byte outside SysEx forces ParserEmpty; running status and the message under construction are untouched |
| `MidiParsing.Step` | src/hid/midi_parser.cpp:5-175 | one call of Parse: the SysEx buffer keeps its capacity and length bound, a null output stays null, and a call that reports nothing leaves the output event unchanged |
| `MidiParsing.Dispatch` | src/hid/midi_parser.cpp:27-172 | the switch over the phase, with the same guarantees as Step |
| `MidiParsing.ResetMachine` | src/hid/midi_parser.cpp:177-182 | Reset: phase ParserEmpty, running status and message type MessageLast, every other field of the message kept |
| `MidiParsing.StepKeepsInv` | src/hid/midi_parser.cpp:5-175 | every call keeps the invariant: channel at most 15, data bytes at most 0x7F, SysEx length within the buffer, running status a voice kind or MessageLast, the message kind equal to the running status while data bytes are awaited, and a SysEx message typed SystemExclusive with channel 0 while inside SysEx |
| `MidiParsing.DispatchKeepsInv` | src/hid/midi_parser.cpp:27-172 | the switch keeps the invariant, including on the recursive re-parse |
| `MidiParsing.EmptyStatusKeepsInv` | src/hid/midi_parser.cpp:30-74 | a status byte in ParserEmpty keeps the invariant |
| `MidiParsing.EmptyDataKeepsInv` | src/hid/midi_parser.cpp:75-97 | a data byte in ParserEmpty keeps the invariant |
| `MidiParsing.HasStatusKeepsInv` | src/hid/midi_parser.cpp:100-118 | a data byte in ParserHasStatus keeps the invariant |
| `MidiParsing.HasData0KeepsInv` | src/hid/midi_parser.cpp:127-145 | any byte in ParserHasData0 keeps the invariant |
| `MidiParsing.SysExKeepsInv` | src/hid/midi_parser.cpp:147-168 | any byte inside SysEx keeps the invariant, so the buffer write at the stored length is always in bounds |
| `MidiParsing.MidiParser.Parse` | src/hid/midi_parser.cpp:5-175 | the in-place update of the fields and the SysEx array, the return value and the output event are exactly those of Step on the old state; the invariant is kept |
| `MidiParsing.MidiParser.ParseInEmpty` | src/hid/midi_parser.cpp:29-98 | the ParserEmpty arm performs the ParserEmpty case of the switch |
| `MidiParsing.MidiParser.ParseInHasStatus` | src/hid/midi_parser.cpp:100-125 | the ParserHasStatus arm performs the ParserHasStatus case of the switch for the data bytes that can reach it |
| `MidiParsing.MidiParser.ParseInHasData0` | src/hid/midi_parser.cpp:127-145 | the ParserHasData0 arm performs the ParserHasData0 case of the switch |
| `MidiParsing.MidiParser.ParseInSysEx` | src/hid/midi_parser.cpp:147-168 | the ParserSysEx arm performs the ParserSysEx case, writing the array at the stored length only when there is room |
| `MidiParsing.MidiParser.Reset` | src/hid/midi_parser.cpp:177-182 | the fields become ResetMachine of the old state, the SysEx array is untouched and the invariant is kept |
| `Bits.StatusMaskAgrees` | src/hid/midi_parser.cpp:30 | `byte & 0x80` is non-zero exactly when the byte is at least 0x80 |
| `Bits.ChannelMaskAgrees` | src/hid/midi_parser.cpp:33 | `byte & 0x0F` is the byte modulo 16 |
| `Bits.MessageMaskAgrees` | src/hid/midi_parser.cpp:34 | `(byte & 0x70) >> 4` is the byte's bits 4..6 |
| `Bits.DataMaskAgrees` | src/hid/midi_parser.cpp:81 | `byte & 0x7F` is the byte modulo 128 |
| `Bits.SubTypeMaskAgrees` | src/hid/midi_parser.cpp:15 | `byte & 0x07` is the byte modulo 8 |
| `MidiReference.RealTimeMatches` | src/hid/midi_parser.cpp:9-19 | on 0xF8..0xFF Parse behaves as the byte-class description: state kept, real-time event reported only to a present output |
| `MidiReference.SysExMatches` | src/hid/midi_parser.cpp:147-168 | inside SysEx Parse behaves as the byte-class description |
| `MidiReference.StatusMatches` | src/hid/midi_parser.cpp:21-74 | outside SysEx a status byte below 0xF8 behaves as the byte-class description, whatever the phase |
| `MidiReference.DataMatches` | src/hid/midi_parser.cpp:75-145 | outside SysEx a data byte behaves as the byte-class description in every phase |
| `MidiReference.StepMatchesReference` | src/hid/midi_parser.cpp:5-175 | Parse equals the byte-class description on every state and byte |
| `MidiProperties.Run` | src/hid/midi_parser.cpp:5-175 | Parse called once per byte of a stream: the state stays well formed, a null output stays null and reports no events |
| `MidiProperties.RunAppend` | src/hid/midi_parser.cpp:5-175 | feeding two streams one after the other is feeding their concatenation |
| `MidiProperties.RunKeepsInv` | src/hid/midi_parser.cpp:5-175 | every state a stream reaches satisfies the invariant |
| `MidiProperties.RealTimeLeavesStateAlone` | src/hid/midi_parser.cpp:10-19 | a byte in 0xF8..0xFF leaves phase, running status and message unchanged; it returns true exactly when the output is present, which then becomes a SystemRealTime event with sub-type byte & 0x07 |
| `MidiProperties.NextIgnoresOutput` | src/hid/midi_parser.cpp:5-175 | the new state never depends on the output event, nor does the return value outside real time |
| `MidiProperties.NullOutputStillReports` | src/hid/midi_parser.cpp:12-18 | with a null output a real-time byte returns false, while every other byte returns what it returns with an output |
| `MidiProperties.RunFinalIgnoresOutput` | src/hid/midi_parser.cpp:5-175 | the state a stream leaves behind does not depend on the output event |
| `MidiProperties.RealTimeInterleaving` | src/hid/midi_parser.cpp:9-19 | a real-time byte inserted anywhere in a stream leaves the final state of the stream unchanged |
| `MidiProperties.DeadBranches` | src/hid/midi_parser.cpp:22-46 | after the abort a status byte is handled only in ParserEmpty or ParserSysEx, and in ParserEmpty its type is never SystemRealTime: the two facts that make the status branches of ParserHasStatus (with the re-parse) and ParserHasData0, and the SystemRealTime branch, dead (the `assert false` in the class's arms is the proof) |
| `MidiProperties.StatusByteForgetsPhase` | src/hid/midi_parser.cpp:21-25 | outside SysEx a status byte does the same whatever phase the parser was in |
| `MidiProperties.PartialMessage` | src/hid/midi_parser.cpp:100-118 | a voice status and one data byte of a two-data-byte kind report nothing and leave ParserHasData0 with the kind, channel and data0 set |
| `MidiProperties.MessageOverwritesFields` | src/hid/midi_parser.cpp:68-145 | a complete two-data-byte message reports the same from any phase outside SysEx and any running status, whatever the kind, channel and data0 it overwrites held |
| `MidiProperties.AbandonedMessageLeavesNoTrace` | src/hid/midi_parser.cpp:21-25 | a message abandoned after one data byte by a new voice status changes nothing: the stream reports and ends as the new message alone does |
| `MidiProperties.RunSkipsSilentPrefix` | src/hid/midi_parser.cpp:5-175 | a prefix of a stream that reports nothing only passes its final state on |
| `MidiProperties.AbortAndRestartExample` | src/hid/midi_parser.cpp:21-25 | 0x90 0x40 then 0x80 0x30 0x00 reports only the NoteOff on channel 0 with data 0x30 0x00, leaving running status NoteOff |
| `MidiProperties.VoiceStatusKind` | src/hid/midi_parser.cpp:33-34 | a status byte in 0x80..0xEF decodes to a Channel Voice kind and a channel at most 15 |
| `MidiProperties.RunningStatusChanges` | src/hid/midi_parser.cpp:68-73 | a voice status byte outside SysEx sets running status to its kind and moves to ParserHasStatus without reporting; no other byte changes running status |
| `MidiProperties.ResetClearsRunningStatus` | src/hid/midi_parser.cpp:177-182 | Reset clears running status and keeps the invariant; no call of Parse ever clears it |
| `MidiProperties.RunningStatusReuse` | src/hid/midi_parser.cpp:77-96 | in ParserEmpty a data byte under a running status takes that kind, keeps the channel and is reported at once exactly when the kind takes one data byte |
| `MidiProperties.OrphanDataByteDropped` | src/hid/midi_parser.cpp:78-97 | with no running status a data byte in ParserEmpty changes nothing and reports nothing |
| `MidiProperties.ResetThenDataByte` | src/hid/midi_parser.cpp:177-182 | a data byte right after Reset changes nothing and reports nothing |
| `MidiProperties.OneDataByteMessage` | src/hid/midi_parser.cpp:100-113 | ProgramChange and ChannelPressure are reported after their single data byte, which becomes data0, leaving ParserEmpty |
| `MidiProperties.VoiceStatusStep` | src/hid/midi_parser.cpp:68-73 | a voice status byte outside SysEx, as one exact transition |
| `MidiProperties.FirstDataStep` | src/hid/midi_parser.cpp:114-117 | the first data byte of a two-data-byte kind, as one exact transition to ParserHasData0 |
| `MidiProperties.SecondDataStep` | src/hid/midi_parser.cpp:127-145 | the second data byte, as one exact transition that reports the message and returns to ParserEmpty |
| `MidiProperties.TwoDataByteMessage` | src/hid/midi_parser.cpp:105-145 | the other voice kinds report nothing on their first data byte and report the whole message on the second, a NoteOn of velocity 0 as NoteOff |
| `MidiProperties.SecondDataByteEmpties` | src/hid/midi_parser.cpp:127-145 | in ParserHasData0 a data byte always reports and returns to ParserEmpty |
| `MidiProperties.NoteOnVelocityZero` | src/hid/midi_parser.cpp:133-136 | velocity 0 under NoteOn reports NoteOff but keeps running status NoteOn, so the next running-status message is a NoteOn |
| `MidiProperties.VelocityZeroExample` | src/hid/midi_parser.cpp:133-136 | 0x90 0x40 0x00 reports one NoteOff on channel 0 with data0 0x40 |
| `MidiProperties.RunningStatusMessage` | src/hid/midi_parser.cpp:77-96 | two data bytes under a two-data-byte running status make one message of that kind |
| `MidiProperties.NoteOnExample` | src/hid/midi_parser.cpp:127-145 | 0x90 0x40 0x7F reports one NoteOn on channel 0 and leaves running status NoteOn |
| `MidiProperties.RunningStatusContinues` | src/hid/midi_parser.cpp:77-96 | a complete two-data-byte message followed by two more data bytes reports exactly two events: the first with the status byte's kind (NoteOff for velocity 0) and channel and the first two data bytes, the second the same message with the next two data bytes and its own NoteOff rewrite |
| `MidiProperties.ContinueUnderRunningStatus` | src/hid/midi_parser.cpp:77-96 | after a stream that has just reported the message left in incoming_message_, two data bytes under a two-data-byte running status report that message again with the new data bytes, same channel |
| `MidiProperties.FirstMessage` | src/hid/midi_parser.cpp:68-145 | a voice status and two data bytes of a two-data-byte kind report exactly the message left in incoming_message_: that kind (NoteOff for velocity 0), the status byte's channel and both data bytes, in ParserEmpty with the kind as running status |
| `MidiProperties.RunningStatusExample` | src/hid/midi_parser.cpp:77-96 | 0x90 0x40 0x7F 0x41 0x7F reports two NoteOn events on channel 0, the first with data 0x40 0x7F and the second with data 0x41 0x7F |
| `MidiProperties.SystemCommonMessage` | src/hid/midi_parser.cpp:47-67 | a System Common status byte other than 0xF0 is reported at once with channel 0 and sub-type byte & 0x07; 0xF0 opens SysEx with length 0; running status is kept |
| `MidiProperties.RunningStatusAfterSystemCommon` | src/hid/midi_parser.cpp:50 | running status survives a System Common message, but a later running-status message carries its channel 0 |
| `MidiProperties.RunningStatusAfterSysEx` | src/hid/midi_parser.cpp:147-157 | running status survives a complete SysEx message: after its 0xF7, a data byte takes the running-status kind and channel 0 |
| `MidiProperties.SysExByte` | src/hid/midi_parser.cpp:158-167 | inside SysEx a byte other than 0xF7 is stored at the stored length while there is room; on a full buffer it is dropped and the parser returns to ParserEmpty; nothing is reported |
| `MidiProperties.SysExEnd` | src/hid/midi_parser.cpp:148-157 | 0xF7 inside SysEx reports the accumulated message and returns to ParserEmpty |
| `MidiProperties.WrittenPrefix` | src/hid/midi_parser.cpp:161 | bytes written one by one from index i leave exactly those bytes after the first i |
| `MidiProperties.FilledPayload` | src/hid/midi_parser.cpp:161 | appending bytes to the buffer extends the visible payload by exactly those bytes |
| `MidiProperties.SysExStore` | src/hid/midi_parser.cpp:158-162 | one byte that fits is appended, as one exact transition |
| `MidiProperties.SysExFill` | src/hid/midi_parser.cpp:158-162 | bytes below 0xF7 that fit are appended in order without reporting |
| `MidiProperties.SysExBody` | src/hid/midi_parser.cpp:158-162 | the same, field by field: length grows by the count, payload is extended by the bytes, phase and running status are kept |
| `MidiProperties.SysExStart` | src/hid/midi_parser.cpp:53-57 | 0xF0 outside SysEx starts an empty SystemExclusive message with channel 0, without reporting |
| `MidiProperties.SysExRoundTrip` | src/hid/midi_parser.cpp:147-168 | 0xF0, at most the buffer's capacity of bytes below 0xF7, and 0xF7 report exactly one SystemExclusive event, channel 0, whose payload is those bytes; running status is kept |
| `MidiProperties.SysExClose` | src/hid/midi_parser.cpp:148-157 | a SysEx body followed by 0xF7 reports the accumulated message |
| `MidiProperties.SysExExample` | src/hid/midi_parser.cpp:147-168 | 0xF0 0x01 0x02 0xF7 reports one SystemExclusive event with payload 0x01 0x02 |
| `MidiProperties.SysExOverflow` | src/hid/midi_parser.cpp:163-167 | one byte more than the buffer holds reports nothing and returns to ParserEmpty with the buffer full and running status kept; a later 0xF7 is reported as a System Common message of sub-type 7, not SystemExclusive, whose buffer is still full and holds the bytes stored before the overflow |
| `MidiProperties.SysExSpill` | src/hid/midi_parser.cpp:163-167 | a byte arriving at a full buffer ends the SysEx silently |
| `MidiProperties.SysExOverflowThenData` | src/hid/midi_parser.cpp:166 | after an overflow a data byte is taken under the running status |
| `MidiProperties.ReportsExactly` | src/hid/midi_parser.cpp:5-175 | Parse returns true exactly on a real-time byte with a present output, on 0xF7 inside SysEx, on a System Common byte 0xF1..0xF7, on the second data byte, and on the one data byte of ProgramChange and ChannelPressure (with or without output) |
| `MidiProperties.ReportedEventWellFormed` | src/hid/midi_parser.cpp:5-175 | a message reported on a byte below 0xF8 is the parser's own message, channel at most 15, data bytes at most 0x7F, a System Common (channel 0) or Channel Voice kind, that kind the running status or NoteOff from a NoteOn of velocity 0 |

## Left out

- The contents of `midi_parser.h` are not part of this model. The masks are
  declared with their standard MIDI 1.0 values (0x80, 0x0F, 0x70, 0x7F,
  0x07). The message types are in the order NoteOff..PitchBend,
  SystemCommon (7), SystemRealTime, ChannelMode, MessageLast.
  `SYSEX_BUFFER_LEN` is 128.
- The System Common and System Real-Time sub-type enumerations are kept as
  their three-bit codes. SystemExclusive is code 0.
- The constructor `MidiParser()` and anything else declared only in the
  header. The class's constructor assumes the header's start state: phase
  empty, no running status, an empty SysEx buffer.
- `event_out` as a pointer beyond present or absent. Aliasing between the
  output event and the parser's own message cannot arise in the model,
  since events are values.
- `Parse` as a single method body: its `switch` is split into one method
  per arm, so that each arm is proved on its own. Each arm's code is
  unchanged except in its two unreachable branches. These are the
  SystemRealTime branch of ParserEmpty (`midi_parser.cpp:36-46`) and the
  status-byte re-parse of ParserHasStatus (`midi_parser.cpp:119-124`). The
  class has `assert false` in their place, which the verifier proves cannot
  be reached, and `ParseInHasStatus` takes only data bytes, which at its one
  call site the abort guarantees. `Step`/`Dispatch` keep both branches as
  written.
- The `default:` arm of the switch (`midi_parser.cpp:170-171`): the phase
  is a four-valued datatype, so no other value exists.
- `examples/MIDI_USBH_Input/MIDI_USBH_Input.cpp`: USB host I/O, timing,
  logging and outbound MIDI, outside the parser.
- Aborting a SysEx message on a stray status byte is not modelled. The
  code stores such bytes, and so does the model.
