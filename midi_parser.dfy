/** The MIDI 1.0 byte-stream parser of src/hid/midi_parser.cpp: a persistent
    state machine that consumes one byte per call of Parse and reports whether
    a complete event was produced.

    `Step` is the transition function, written branch for branch after
    MidiParser::Parse (the dead branches and the dead recursive re-parse
    included); the class `MidiParser` below holds the same state in mutable
    fields and a fixed array, and its `Parse` method is proved to perform
    exactly `Step`. */
module MidiParsing {
  import opened MidiTypes

  /** The phase of the parser (pstate_). */
  datatype ParserState = ParserEmpty | ParserHasStatus | ParserHasData0 | ParserSysEx

  /** The whole persistent state: pstate_, running_status_ and incoming_message_. */
  datatype Machine = Machine(pstate: ParserState, runningStatus: MidiMessageType, incoming: MidiEvent)
  {
    predicate Valid()
    {
      incoming.Valid()
    }
  }

  /** What one call of Parse produces: the new state, its return value and what
      the event that event_out points to holds afterwards (None: a null event_out). */
  datatype Outcome = Outcome(next: Machine, didParse: bool, target: Option<MidiEvent>)

  /** Bytes 0xF8..0xFF: System Real-Time. */
  predicate IsRealTime(b: Byte)
  {
    b >= 0xF8
  }

  /** The message type named by bits 4..6 of a byte. */
  function StatusType(b: Byte): (t: MidiMessageType)
    ensures t != SystemRealTime
  {
    MessageTypeOf(MessageCode(b))
  }

  /** `if (event_out != nullptr) *event_out = ev;` */
  function Emit(ev: MidiEvent, target: Option<MidiEvent>): (r: Option<MidiEvent>)
    ensures r.Some? <==> target.Some?
    ensures r.Some? ==> r.value == ev
  {
    if target.Some? then Some(ev) else None
  }

  /** A status byte outside SysEx aborts the message in progress. */
  function Aborted(m: Machine, b: Byte): (m': Machine)
    ensures m'.runningStatus == m.runningStatus && m'.incoming == m.incoming
    ensures m'.pstate == (if IsStatus(b) && m.pstate != ParserSysEx then ParserEmpty else m.pstate)
  {
    if IsStatus(b) && m.pstate != ParserSysEx then m.(pstate := ParserEmpty) else m
  }

  function Rank(p: ParserState): nat
  {
    if p == ParserHasStatus then 1 else 0
  }

  /** One call of MidiParser::Parse(b, event_out) on state m. */
  function Step(m: Machine, b: Byte, target: Option<MidiEvent>): (r: Outcome)
    requires m.Valid()
    ensures r.next.Valid()
    ensures r.target.Some? <==> target.Some?
    ensures !r.didParse ==> r.target == target
    decreases Rank(m.pstate), 1
  {
    if IsRealTime(b) then
      match target
      case None => Outcome(m, false, None)
      case Some(e) => Outcome(m, true, Some(e.(msgType := SystemRealTime, srtType := SubTypeOf(b))))
    else
      Dispatch(Aborted(m, b), b, target)
  }

  /** The switch over pstate_ that follows the abort. */
  function Dispatch(m: Machine, b: Byte, target: Option<MidiEvent>): (r: Outcome)
    requires m.Valid() && !IsRealTime(b)
    ensures r.next.Valid()
    ensures r.target.Some? <==> target.Some?
    ensures !r.didParse ==> r.target == target
    decreases Rank(m.pstate), 0
  {
    var msg := m.incoming;
    match m.pstate
    case ParserEmpty =>
      if IsStatus(b) then
        var typed := msg.(channel := ChannelOf(b), msgType := StatusType(b));
        if typed.msgType == SystemRealTime then
          var rt := typed.(srtType := SubTypeOf(b));
          Outcome(m.(pstate := ParserEmpty, incoming := rt), true, Emit(rt, target))
        else if typed.msgType == SystemCommon then
          var sc := typed.(channel := 0, scType := SubTypeOf(b));
          if sc.scType == SystemExclusive then
            Outcome(m.(pstate := ParserSysEx, incoming := sc.(sysexLen := 0)), false, target)
          else
            Outcome(m.(pstate := ParserEmpty, incoming := sc), true, Emit(sc, target))
        else
          Outcome(m.(pstate := ParserHasStatus, runningStatus := typed.msgType, incoming := typed), false, target)
      else if m.runningStatus != MessageLast then
        var first := msg.(msgType := m.runningStatus, data0 := DataOf(b));
        if TakesOneDataByte(m.runningStatus) then
          Outcome(m.(pstate := ParserEmpty, incoming := first), true, Emit(first, target))
        else
          Outcome(m.(pstate := ParserHasData0, incoming := first), false, target)
      else
        Outcome(m, false, target)
    case ParserHasStatus =>
      if !IsStatus(b) then
        var first := msg.(data0 := DataOf(b));
        if TakesOneDataByte(m.runningStatus) then
          Outcome(m.(pstate := ParserEmpty, incoming := first), true, Emit(first, target))
        else
          Outcome(m.(pstate := ParserHasData0, incoming := first), false, target)
      else
        // reprocess the byte as a new status
        Step(m.(pstate := ParserEmpty), b, target)
    case ParserHasData0 =>
      if !IsStatus(b) then
        var second := msg.(data1 := DataOf(b));
        var done := if m.runningStatus == NoteOn && second.data1 == 0 then second.(msgType := NoteOff) else second;
        Outcome(m.(pstate := ParserEmpty, incoming := done), true, Emit(done, target))
      else
        Outcome(m.(pstate := ParserEmpty), false, target)
    case ParserSysEx =>
      if b == SysExEndByte then
        Outcome(m.(pstate := ParserEmpty), true, Emit(msg, target))
      else if msg.sysexLen < SYSEX_BUFFER_LEN then
        var stored := msg.(sysexData := msg.sysexData[msg.sysexLen := b], sysexLen := msg.sysexLen + 1);
        Outcome(m.(incoming := stored), false, target)
      else
        Outcome(m.(pstate := ParserEmpty), false, target)
  }

  /** MidiParser::Reset. */
  function ResetMachine(m: Machine): (m': Machine)
    ensures m'.pstate == ParserEmpty && m'.runningStatus == MessageLast && m'.incoming.msgType == MessageLast
    ensures m'.incoming == m.incoming.(msgType := MessageLast)
  {
    Machine(ParserEmpty, MessageLast, m.incoming.(msgType := MessageLast))
  }

  /** The facts every state the parser can reach satisfies. */
  predicate Inv(m: Machine)
  {
    && m.Valid()
    && m.incoming.channel <= kChannelMask
    && m.incoming.data0 <= kDataByteMask
    && m.incoming.data1 <= kDataByteMask
    && (IsChannelVoice(m.runningStatus) || m.runningStatus == MessageLast)
    && (m.pstate == ParserHasStatus || m.pstate == ParserHasData0 ==>
          IsChannelVoice(m.runningStatus) && m.incoming.msgType == m.runningStatus)
    && (m.pstate == ParserSysEx ==>
          m.incoming.msgType == SystemCommon && m.incoming.scType == SystemExclusive && m.incoming.channel == 0)
  }

  /** Every transition keeps the invariant. */
  lemma StepKeepsInv(m: Machine, b: Byte, target: Option<MidiEvent>)
    requires Inv(m)
    ensures Inv(Step(m, b, target).next)
    decreases Rank(m.pstate), 1
  {
    if !IsRealTime(b) {
      DispatchKeepsInv(Aborted(m, b), b, target);
    }
  }

  lemma DispatchKeepsInv(m: Machine, b: Byte, target: Option<MidiEvent>)
    requires Inv(m) && !IsRealTime(b)
    ensures Inv(Dispatch(m, b, target).next)
    decreases Rank(m.pstate), 0
  {
    match m.pstate
    case ParserEmpty =>
      if IsStatus(b) {
        EmptyStatusKeepsInv(m, b, target);
      } else {
        EmptyDataKeepsInv(m, b, target);
      }
    case ParserHasStatus =>
      if IsStatus(b) {
        StepKeepsInv(m.(pstate := ParserEmpty), b, target);
      } else {
        HasStatusKeepsInv(m, b, target);
      }
    case ParserHasData0 => HasData0KeepsInv(m, b, target);
    case ParserSysEx => SysExKeepsInv(m, b, target);
  }

  lemma EmptyStatusKeepsInv(m: Machine, b: Byte, target: Option<MidiEvent>)
    requires Inv(m) && !IsRealTime(b) && m.pstate == ParserEmpty && IsStatus(b)
    ensures Inv(Dispatch(m, b, target).next)
  {
  }

  lemma EmptyDataKeepsInv(m: Machine, b: Byte, target: Option<MidiEvent>)
    requires Inv(m) && !IsRealTime(b) && m.pstate == ParserEmpty && !IsStatus(b)
    ensures Inv(Dispatch(m, b, target).next)
  {
  }

  lemma HasStatusKeepsInv(m: Machine, b: Byte, target: Option<MidiEvent>)
    requires Inv(m) && !IsRealTime(b) && m.pstate == ParserHasStatus && !IsStatus(b)
    ensures Inv(Dispatch(m, b, target).next)
  {
  }

  lemma HasData0KeepsInv(m: Machine, b: Byte, target: Option<MidiEvent>)
    requires Inv(m) && !IsRealTime(b) && m.pstate == ParserHasData0
    ensures Inv(Dispatch(m, b, target).next)
  {
  }

  lemma SysExKeepsInv(m: Machine, b: Byte, target: Option<MidiEvent>)
    requires Inv(m) && !IsRealTime(b) && m.pstate == ParserSysEx
    ensures Inv(Dispatch(m, b, target).next)
  {
  }

  /** The state of a freshly constructed parser. */
  function Initial(): (m: Machine)
    ensures Inv(m) && m.pstate == ParserEmpty && m.runningStatus == MessageLast
  {
    Machine(ParserEmpty, MessageLast,
            MidiEvent(MessageLast, 0, 0, 0, 0, 0, seq(SYSEX_BUFFER_LEN, _ => 0), 0))
  }

  class MidiParser {
    var pstate: ParserState
    var runningStatus: MidiMessageType
    // the fields of incoming_message_
    var msgType: MidiMessageType
    var channel: Byte
    var data0: Byte
    var data1: Byte
    var srtType: Byte
    var scType: Byte
    const sysexData: array<Byte>
    var sysexLen: nat

    /** incoming_message_, as a value. */
    function Incoming(): MidiEvent
      reads this, sysexData
    {
      MidiEvent(msgType, channel, data0, data1, srtType, scType, sysexData[..], sysexLen)
    }

    ghost function State(): Machine
      reads this, sysexData
    {
      Machine(pstate, runningStatus, Incoming())
    }

    ghost predicate Valid()
      reads this, sysexData
    {
      Inv(State())
    }

    constructor ()
      ensures Valid() && State() == Initial() && fresh(sysexData)
    {
      pstate, runningStatus := ParserEmpty, MessageLast;
      msgType, channel, data0, data1, srtType, scType := MessageLast, 0, 0, 0, 0, 0;
      sysexData := new Byte[SYSEX_BUFFER_LEN](_ => 0);
      sysexLen := 0;
      new;
      assert sysexData[..] == seq(SYSEX_BUFFER_LEN, _ => 0);
    }

    /** Consumes one byte; `eventOut` is None for a null event_out, otherwise
        the current value of the event it points to, and `eventOut'` is that
        event's value afterwards. */
    method Parse(byte: Byte, eventOut: Option<MidiEvent>) returns (didParse: bool, eventOut': Option<MidiEvent>)
      requires Valid()
      modifies this, sysexData
      ensures Valid()
      ensures Outcome(State(), didParse, eventOut') == Step(old(State()), byte, eventOut)
    {
      ghost var m0 := State();
      StepKeepsInv(m0, byte, eventOut);
      didParse := false;
      eventOut' := eventOut;

      // real-time messages leave the parser state alone
      if byte >= 0xF8 {
        if eventOut.Some? {
          eventOut' := Some(eventOut.value.(msgType := SystemRealTime, srtType := SubTypeOf(byte)));
          didParse := true;
        }
        return;
      }

      // a status byte aborts the message in progress, except during SysEx
      if IsStatus(byte) && pstate != ParserSysEx {
        pstate := ParserEmpty;
      }
      ghost var m1 := State();
      assert m1 == Aborted(m0, byte);
      assert Step(m0, byte, eventOut) == Dispatch(m1, byte, eventOut);

      match pstate {
        case ParserEmpty =>
          didParse, eventOut' := ParseInEmpty(byte, eventOut);
        case ParserHasStatus =>
          didParse, eventOut' := ParseInHasStatus(byte, eventOut);
        case ParserHasData0 =>
          didParse, eventOut' := ParseInHasData0(byte, eventOut);
        case ParserSysEx =>
          didParse, eventOut' := ParseInSysEx(byte, eventOut);
      }
    }

    /** The ParserEmpty arm of the switch in Parse. */
    method ParseInEmpty(byte: Byte, eventOut: Option<MidiEvent>) returns (didParse: bool, eventOut': Option<MidiEvent>)
      requires State().Valid() && pstate == ParserEmpty && !IsRealTime(byte)
      modifies this
      ensures Outcome(State(), didParse, eventOut') == Dispatch(old(State()), byte, eventOut)
    {
      didParse := false;
      eventOut' := eventOut;
      if IsStatus(byte) {
        channel := ChannelOf(byte);
        msgType := MessageTypeOf(MessageCode(byte));
        if msgType == SystemRealTime {
          // no three-bit message code names SystemRealTime
          assert false;
        } else if msgType == SystemCommon {
          channel := 0;
          scType := SubTypeOf(byte);
          if scType == SystemExclusive {
            pstate := ParserSysEx;
            sysexLen := 0;
          } else {
            pstate := ParserEmpty;
            eventOut' := Emit(Incoming(), eventOut);
            didParse := true;
          }
        } else {
          pstate := ParserHasStatus;
          runningStatus := msgType;
        }
      } else if runningStatus != MessageLast {
        msgType := runningStatus;
        data0 := DataOf(byte);
        if runningStatus == ChannelPressure || runningStatus == ProgramChange {
          pstate := ParserEmpty;
          eventOut' := Emit(Incoming(), eventOut);
          didParse := true;
        } else {
          pstate := ParserHasData0;
        }
      }
    }

    /** The ParserHasStatus arm of the switch in Parse. */
    method ParseInHasStatus(byte: Byte, eventOut: Option<MidiEvent>) returns (didParse: bool, eventOut': Option<MidiEvent>)
      requires State().Valid() && pstate == ParserHasStatus && !IsRealTime(byte)
      requires !IsStatus(byte)  // the abort in Parse has already left ParserHasStatus
      modifies this
      ensures Outcome(State(), didParse, eventOut') == Dispatch(old(State()), byte, eventOut)
    {
      didParse := false;
      eventOut' := eventOut;
      if !IsStatus(byte) {
        data0 := DataOf(byte);
        if runningStatus == ChannelPressure || runningStatus == ProgramChange {
          pstate := ParserEmpty;
          eventOut' := Emit(Incoming(), eventOut);
          didParse := true;
        } else {
          pstate := ParserHasData0;
        }
      } else {
        // unreachable: see the precondition
        assert false;
      }
    }

    /** The ParserHasData0 arm of the switch in Parse. */
    method ParseInHasData0(byte: Byte, eventOut: Option<MidiEvent>) returns (didParse: bool, eventOut': Option<MidiEvent>)
      requires State().Valid() && pstate == ParserHasData0 && !IsRealTime(byte)
      modifies this
      ensures Outcome(State(), didParse, eventOut') == Dispatch(old(State()), byte, eventOut)
    {
      didParse := false;
      eventOut' := eventOut;
      if !IsStatus(byte) {
        data1 := DataOf(byte);
        if runningStatus == NoteOn && data1 == 0 {
          msgType := NoteOff;
        }
        eventOut' := Emit(Incoming(), eventOut);
        didParse := true;
      }
      pstate := ParserEmpty;
    }

    /** The ParserSysEx arm of the switch in Parse. */
    method ParseInSysEx(byte: Byte, eventOut: Option<MidiEvent>) returns (didParse: bool, eventOut': Option<MidiEvent>)
      requires State().Valid() && pstate == ParserSysEx && !IsRealTime(byte)
      modifies this, sysexData
      ensures Outcome(State(), didParse, eventOut') == Dispatch(old(State()), byte, eventOut)
    {
      didParse := false;
      eventOut' := eventOut;
      if byte == SysExEndByte {
        pstate := ParserEmpty;
        eventOut' := Emit(Incoming(), eventOut);
        didParse := true;
      } else if sysexLen < SYSEX_BUFFER_LEN {
        sysexData[sysexLen] := byte;
        sysexLen := sysexLen + 1;
      } else {
        pstate := ParserEmpty;
      }
    }

    /** Returns the machine to its start state; the rest of incoming_message_ is kept. */
    method Reset()
      requires Valid()
      modifies this
      ensures Valid()
      ensures State() == ResetMachine(old(State()))
      ensures unchanged(sysexData)
    {
      pstate := ParserEmpty;
      msgType := MessageLast;
      runningStatus := MessageLast;
    }
  }
}
