/** The parser's behaviour restated by MIDI byte ranges: every byte is
    classified once and dispatched once, with no recursion and none of the
    unreachable branches of the transition function.  `StepMatchesReference`
    proves that the transition function computes exactly this, which is how the
    dead branches of MidiParser::Parse are shown to be dead. */
module MidiReference {
  import opened MidiTypes
  import opened MidiParsing

  /** A first data byte `b` for the message `msg` under construction. */
  function FirstData(m: Machine, msg: MidiEvent, b: Byte, t: Option<MidiEvent>): Outcome
  {
    var first := msg.(data0 := b);
    if TakesOneDataByte(m.runningStatus) then Outcome(Machine(ParserEmpty, m.runningStatus, first), true, Emit(first, t))
    else Outcome(Machine(ParserHasData0, m.runningStatus, first), false, t)
  }

  function Reference(m: Machine, b: Byte, t: Option<MidiEvent>): (r: Outcome)
    requires m.Valid()
  {
    var msg := m.incoming;
    if b >= 0xF8 then
      // System Real-Time: the state is left alone
      if t.Some? then Outcome(m, true, Some(t.value.(msgType := SystemRealTime, srtType := b - 0xF8)))
      else Outcome(m, false, None)
    else if m.pstate == ParserSysEx then
      // inside SysEx every byte but 0xF7 is payload
      if b == 0xF7 then Outcome(m.(pstate := ParserEmpty), true, Emit(msg, t))
      else if msg.sysexLen < SYSEX_BUFFER_LEN then
        Outcome(m.(incoming := msg.(sysexData := msg.sysexData[msg.sysexLen := b], sysexLen := msg.sysexLen + 1)), false, t)
      else Outcome(m.(pstate := ParserEmpty), false, t)
    else if b >= 0xF0 then
      // System Common: a new message with channel 0; running status survives
      var sc := msg.(msgType := SystemCommon, channel := 0, scType := b - 0xF0);
      if b == 0xF0 then Outcome(Machine(ParserSysEx, m.runningStatus, sc.(sysexLen := 0)), false, t)
      else Outcome(Machine(ParserEmpty, m.runningStatus, sc), true, Emit(sc, t))
    else if b >= 0x80 then
      // Channel Voice status: becomes the running status
      var kind := MessageTypeOf((b - 0x80) / 16);
      Outcome(Machine(ParserHasStatus, kind, msg.(msgType := kind, channel := b % 16)), false, t)
    else
      // a data byte
      match m.pstate
      case ParserEmpty =>
        if m.runningStatus == MessageLast then Outcome(m, false, t)
        else FirstData(m, msg.(msgType := m.runningStatus), b, t)
      case ParserHasStatus => FirstData(m, msg, b, t)
      case ParserHasData0 =>
        var second := msg.(data1 := b);
        var done := if m.runningStatus == NoteOn && b == 0 then second.(msgType := NoteOff) else second;
        Outcome(Machine(ParserEmpty, m.runningStatus, done), true, Emit(done, t))
  }

  lemma RealTimeMatches(m: Machine, b: Byte, t: Option<MidiEvent>)
    requires m.Valid() && IsRealTime(b)
    ensures Step(m, b, t) == Reference(m, b, t)
  {
  }

  lemma SysExMatches(m: Machine, b: Byte, t: Option<MidiEvent>)
    requires m.Valid() && !IsRealTime(b) && m.pstate == ParserSysEx
    ensures Step(m, b, t) == Reference(m, b, t)
  {
  }

  lemma StatusMatches(m: Machine, b: Byte, t: Option<MidiEvent>)
    requires m.Valid() && !IsRealTime(b) && IsStatus(b) && m.pstate != ParserSysEx
    ensures Step(m, b, t) == Reference(m, b, t)
  {
    var m0 := m.(pstate := ParserEmpty);
    assert Aborted(m, b) == m0;
    assert Step(m, b, t) == Dispatch(m0, b, t);
    if b >= 0xF0 {
      assert MessageCode(b) == 7 && SubTypeOf(b) == b - 0xF0;
    } else {
      assert MessageCode(b) == (b - 0x80) / 16;
    }
  }

  lemma DataMatches(m: Machine, b: Byte, t: Option<MidiEvent>)
    requires m.Valid() && !IsStatus(b) && m.pstate != ParserSysEx
    ensures Step(m, b, t) == Reference(m, b, t)
  {
    assert DataOf(b) == b;
  }

  /** Parse computes exactly the reference behaviour, for every state and byte. */
  lemma StepMatchesReference(m: Machine, b: Byte, t: Option<MidiEvent>)
    requires m.Valid()
    ensures Step(m, b, t) == Reference(m, b, t)
  {
    if IsRealTime(b) {
      RealTimeMatches(m, b, t);
    } else if m.pstate == ParserSysEx {
      SysExMatches(m, b, t);
    } else if IsStatus(b) {
      StatusMatches(m, b, t);
    } else {
      DataMatches(m, b, t);
    }
  }
}
