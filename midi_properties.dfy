/** What MidiParser::Parse and MidiParser::Reset promise, stated about the
    transition function one byte at a time and about whole byte streams. */
module MidiProperties {
  import opened MidiTypes
  import opened MidiParsing
  import opened MidiReference

  /** The result of feeding a stream: the final state, the final value of the
      output event and every event reported while an output event was given. */
  datatype Trace = Trace(final: Machine, target: Option<MidiEvent>, events: seq<MidiEvent>)

  /** Calls Parse once per byte of `bs`, in order. */
  function Run(m: Machine, bs: seq<Byte>, t: Option<MidiEvent>): (r: Trace)
    requires m.Valid()
    ensures r.final.Valid()
    ensures r.target.Some? <==> t.Some?
    ensures t.None? ==> r.events == []
    decreases |bs|
  {
    if bs == [] then Trace(m, t, [])
    else
      var o := Step(m, bs[0], t);
      var rest := Run(o.next, bs[1..], o.target);
      Trace(rest.final, rest.target, Reported(o) + rest.events)
  }

  /** The event one call reports, if an output event was given. */
  function Reported(o: Outcome): seq<MidiEvent>
  {
    if o.didParse && o.target.Some? then [o.target.value] else []
  }

  /** Feeding b and then bs. */
  lemma RunCons(m: Machine, b: Byte, bs: seq<Byte>, t: Option<MidiEvent>)
    requires m.Valid()
    ensures var o := Step(m, b, t);
            var rest := Run(o.next, bs, o.target);
            Run(m, [b] + bs, t) == Trace(rest.final, rest.target, Reported(o) + rest.events)
  {
    assert ([b] + bs)[0] == b && ([b] + bs)[1..] == bs;
  }

  /** A run of one byte. */
  lemma RunOne(m: Machine, b: Byte, t: Option<MidiEvent>)
    requires m.Valid()
    ensures var o := Step(m, b, t);
            Run(m, [b], t) == Trace(o.next, o.target, Reported(o))
  {
    var o := Step(m, b, t);
    RunCons(m, b, [], t);
    assert [b] + [] == [b];
    assert Reported(o) + [] == Reported(o);
  }

  /** A run of two bytes. */
  lemma RunTwo(m: Machine, b0: Byte, b1: Byte, t: Option<MidiEvent>)
    requires m.Valid()
    ensures var o1 := Step(m, b0, t);
            var o2 := Step(o1.next, b1, o1.target);
            Run(m, [b0, b1], t) == Trace(o2.next, o2.target, Reported(o1) + Reported(o2))
  {
    var o1 := Step(m, b0, t);
    RunOne(o1.next, b1, o1.target);
    RunCons(m, b0, [b1], t);
    assert [b0] + [b1] == [b0, b1];
  }

  /** A run of three bytes. */
  lemma RunThree(m: Machine, b0: Byte, b1: Byte, b2: Byte, t: Option<MidiEvent>)
    requires m.Valid()
    ensures var o1 := Step(m, b0, t);
            var o2 := Step(o1.next, b1, o1.target);
            var o3 := Step(o2.next, b2, o2.target);
            Run(m, [b0, b1, b2], t) == Trace(o3.next, o3.target, Reported(o1) + Reported(o2) + Reported(o3))
  {
    var o1 := Step(m, b0, t);
    RunTwo(o1.next, b1, b2, o1.target);
    RunCons(m, b0, [b1, b2], t);
    assert [b0] + [b1, b2] == [b0, b1, b2];
  }

  /** Feeding a + c is feeding a, then c. */
  lemma {:induction false} RunAppend(m: Machine, a: seq<Byte>, c: seq<Byte>, t: Option<MidiEvent>)
    requires m.Valid()
    ensures var r1 := Run(m, a, t);
            var r2 := Run(r1.final, c, r1.target);
            Run(m, a + c, t) == Trace(r2.final, r2.target, r1.events + r2.events)
    decreases |a|
  {
    if a == [] {
      assert a + c == c;
    } else {
      var o := Step(m, a[0], t);
      assert (a + c)[0] == a[0] && (a + c)[1..] == a[1..] + c;
      RunAppend(o.next, a[1..], c, o.target);
      var r1 := Run(o.next, a[1..], o.target);
      var r2 := Run(r1.final, c, r1.target);
      assert Reported(o) + (r1.events + r2.events) == (Reported(o) + r1.events) + r2.events;
    }
  }

  /** Every state a run reaches satisfies the invariant. */
  lemma {:induction false} RunKeepsInv(m: Machine, bs: seq<Byte>, t: Option<MidiEvent>)
    requires Inv(m)
    ensures Inv(Run(m, bs, t).final)
    decreases |bs|
  {
    if bs != [] {
      StepKeepsInv(m, bs[0], t);
      RunKeepsInv(Step(m, bs[0], t).next, bs[1..], Step(m, bs[0], t).target);
    }
  }

  // ---------------------------------------------------------------------
  // System Real-Time bytes

  /** A byte in 0xF8..0xFF leaves the whole state alone; with an output event
      it reports a SystemRealTime event of sub-type byte & 0x07, with a null
      output it reports nothing. */
  lemma RealTimeLeavesStateAlone(m: Machine, b: Byte, t: Option<MidiEvent>)
    requires m.Valid() && IsRealTime(b)
    ensures Step(m, b, t).next == m
    ensures Step(m, b, t).didParse <==> t.Some?
    ensures t.Some? ==> Step(m, b, t).target == Some(t.value.(msgType := SystemRealTime, srtType := b - 0xF8))
  {
    StepMatchesReference(m, b, t);
  }

  /** The new state does not depend on the output event. */
  lemma NextIgnoresOutput(m: Machine, b: Byte, t1: Option<MidiEvent>, t2: Option<MidiEvent>)
    requires m.Valid()
    ensures Step(m, b, t1).next == Step(m, b, t2).next
    ensures !IsRealTime(b) ==> Step(m, b, t1).didParse == Step(m, b, t2).didParse
  {
    if IsRealTime(b) {
    } else if m.pstate == ParserSysEx {
      SysExMatches(m, b, t1);
      SysExMatches(m, b, t2);
    } else if IsStatus(b) {
      StatusMatches(m, b, t1);
      StatusMatches(m, b, t2);
    } else {
      DataMatches(m, b, t1);
      DataMatches(m, b, t2);
    }
  }

  /** A null output changes neither the new state nor, outside real time,
      the reported result. */
  lemma NullOutputStillReports(m: Machine, b: Byte, e: MidiEvent)
    requires m.Valid()
    ensures Step(m, b, None).next == Step(m, b, Some(e)).next
    ensures !IsRealTime(b) ==> Step(m, b, None).didParse == Step(m, b, Some(e)).didParse
    ensures IsRealTime(b) ==> !Step(m, b, None).didParse && Step(m, b, Some(e)).didParse
  {
    NextIgnoresOutput(m, b, None, Some(e));
  }

  /** The final state of a run does not depend on the output event. */
  lemma {:induction false} RunFinalIgnoresOutput(m: Machine, bs: seq<Byte>, t1: Option<MidiEvent>, t2: Option<MidiEvent>)
    requires m.Valid()
    ensures Run(m, bs, t1).final == Run(m, bs, t2).final
    decreases |bs|
  {
    if bs != [] {
      var o1, o2 := Step(m, bs[0], t1), Step(m, bs[0], t2);
      NextIgnoresOutput(m, bs[0], t1, t2);
      RunFinalIgnoresOutput(o1.next, bs[1..], o1.target, o2.target);
    }
  }

  /** A real-time byte slipped anywhere into a stream does not change the
      state the stream leaves behind. */
  lemma RealTimeInterleaving(m: Machine, a: seq<Byte>, rt: Byte, c: seq<Byte>, t: Option<MidiEvent>)
    requires m.Valid() && IsRealTime(rt)
    ensures Run(m, a + [rt] + c, t).final == Run(m, a + c, t).final
  {
    var r1 := Run(m, a, t);
    RunAppend(m, a, [rt] + c, t);
    RunAppend(m, a, c, t);
    assert a + [rt] + c == a + ([rt] + c);
    var o := Step(r1.final, rt, r1.target);
    RealTimeLeavesStateAlone(r1.final, rt, r1.target);
    assert ([rt] + c)[0] == rt && ([rt] + c)[1..] == c;
    RunFinalIgnoresOutput(r1.final, c, o.target, r1.target);
  }

  // ---------------------------------------------------------------------
  // Status bytes outside SysEx; the unreachable branches

  /** Outside SysEx a status byte forces ParserEmpty before the switch, and a
      decoded status type is never SystemRealTime.  These two facts are why
      the status-byte branches of ParserHasStatus (with its re-parse) and of
      ParserHasData0, and the SystemRealTime branch of ParserEmpty, are never
      taken; both follow from the contracts of Aborted and StatusType.  The
      proofs that those branches are dead are the `assert false` statements
      in MidiParser.ParseInEmpty and MidiParser.ParseInHasStatus, which
      verify, and StepMatchesReference, which equates Step with a
      description that has no such branches. */
  lemma DeadBranches(m: Machine, b: Byte)
    requires m.Valid() && !IsRealTime(b) && IsStatus(b)
    ensures Aborted(m, b).pstate == ParserEmpty || Aborted(m, b).pstate == ParserSysEx
    ensures Aborted(m, b).pstate == ParserEmpty ==> StatusType(b) != SystemRealTime
  {
  }

  /** A partial message: a Channel Voice status and one data byte of a
      two-data-byte kind report nothing and leave ParserHasData0. */
  lemma PartialMessage(m: Machine, s: Byte, d: Byte, t: Option<MidiEvent>)
    requires m.Valid() && m.pstate != ParserSysEx && IsVoiceStatus(s) && !TakesOneDataByte(StatusType(s)) && !IsStatus(d)
    ensures var kind := StatusType(s);
            Run(m, [s, d], t) == Trace(Machine(ParserHasData0, kind, m.incoming.(msgType := kind, channel := s % 16, data0 := d)), t, [])
  {
    VoiceStatusStep(m, s, t);
    FirstDataStep(Step(m, s, t).next, d, t);
    RunTwo(m, s, d, t);
  }

  /** What a complete two-data-byte message reports does not depend on the
      running status, the phase or the message fields it overwrites. */
  lemma MessageOverwritesFields(m: Machine, f: Machine, s: Byte, x0: Byte, x1: Byte, e: MidiEvent)
    requires Inv(m) && Inv(f) && m.pstate != ParserSysEx && f.pstate != ParserSysEx
    requires IsVoiceStatus(s) && !TakesOneDataByte(StatusType(s)) && !IsStatus(x0) && !IsStatus(x1)
    requires f.incoming.(msgType := m.incoming.msgType, channel := m.incoming.channel, data0 := m.incoming.data0) == m.incoming
    ensures Run(f, [s, x0, x1], Some(e)) == Run(m, [s, x0, x1], Some(e))
  {
    TwoDataByteMessage(f, s, x0, x1, e);
    TwoDataByteMessage(m, s, x0, x1, e);
  }

  /** A message abandoned after its first data byte by a new Channel Voice
      status leaves no trace: the stream reports and ends exactly as the new
      message alone would. */
  lemma AbandonedMessageLeavesNoTrace(m: Machine, s: Byte, d: Byte, s2: Byte, x0: Byte, x1: Byte, e: MidiEvent)
    requires Inv(m) && m.pstate != ParserSysEx && IsVoiceStatus(s) && !TakesOneDataByte(StatusType(s)) && !IsStatus(d)
    requires IsVoiceStatus(s2) && !TakesOneDataByte(StatusType(s2)) && !IsStatus(x0) && !IsStatus(x1)
    ensures Run(m, [s, d] + [s2, x0, x1], Some(e)) == Run(m, [s2, x0, x1], Some(e))
  {
    var t := Some(e);
    VoiceStatusKind(s);
    PartialMessage(m, s, d, t);
    var f := Run(m, [s, d], t).final;
    assert Inv(f);
    RunSkipsSilentPrefix(m, [s, d], [s2, x0, x1], t, f);
    MessageOverwritesFields(m, f, s2, x0, x1, e);
  }

  /** A prefix that reports nothing only hands its final state on. */
  lemma RunSkipsSilentPrefix(m: Machine, a: seq<Byte>, c: seq<Byte>, t: Option<MidiEvent>, f: Machine)
    requires m.Valid() && Run(m, a, t) == Trace(f, t, [])
    ensures f.Valid() && Run(m, a + c, t) == Run(f, c, t)
  {
    RunAppend(m, a, c, t);
    assert [] + Run(f, c, t).events == Run(f, c, t).events;
  }

  /** A status byte mid-message starts a new message: 0x90 0x40 followed by
      0x80 0x30 0x00 reports only the NoteOff of the second message. */
  lemma AbortAndRestartExample(m: Machine, e: MidiEvent)
    requires Inv(m) && m.pstate != ParserSysEx
    ensures var r := Run(m, [0x90, 0x40] + [0x80, 0x30, 0x00], Some(e));
            |r.events| == 1 && r.events[0].msgType == NoteOff && r.events[0].channel == 0
            && r.events[0].data0 == 0x30 && r.events[0].data1 == 0
            && r.final.pstate == ParserEmpty && r.final.runningStatus == NoteOff
  {
    var s: Byte := 0x80;
    assert StatusType(0x90) == NoteOn && StatusType(s) == NoteOff && s % 16 == 0;
    AbandonedMessageLeavesNoTrace(m, 0x90, 0x40, s, 0x30, 0x00, e);
    TwoDataByteMessage(m, s, 0x30, 0x00, e);
  }

  /** Outside SysEx a status byte does the same whatever message was in
      progress: the earlier message is abandoned. */
  lemma StatusByteForgetsPhase(m: Machine, b: Byte, t: Option<MidiEvent>)
    requires m.Valid() && !IsRealTime(b) && IsStatus(b) && m.pstate != ParserSysEx
    ensures Step(m, b, t) == Step(m.(pstate := ParserEmpty), b, t)
  {
    StepMatchesReference(m, b, t);
    StepMatchesReference(m.(pstate := ParserEmpty), b, t);
  }

  // ---------------------------------------------------------------------
  // Running status

  /** A Channel Voice status byte outside SysEx. */
  predicate IsVoiceStatus(b: Byte)
  {
    0x80 <= b < 0xF0
  }

  /** The kind and channel of a Channel Voice status byte. */
  lemma VoiceStatusKind(s: Byte)
    requires IsVoiceStatus(s)
    ensures IsChannelVoice(StatusType(s)) && s % 16 <= kChannelMask
  {
    assert MessageCode(s) == (s - 0x80) / 16 < 7;
  }

  /** Such a byte sets the running status to its kind and awaits data, without
      reporting; running status changes on no other byte. */
  lemma RunningStatusChanges(m: Machine, b: Byte, t: Option<MidiEvent>)
    requires Inv(m)
    ensures var r := Step(m, b, t);
            IsVoiceStatus(b) && m.pstate != ParserSysEx ==>
              && r.next.runningStatus == StatusType(b) && IsChannelVoice(r.next.runningStatus)
              && r.next.pstate == ParserHasStatus && !r.didParse
              && r.next.incoming.msgType == StatusType(b) && r.next.incoming.channel == b % 16
    ensures var r := Step(m, b, t);
            r.next.runningStatus != m.runningStatus ==> IsVoiceStatus(b) && m.pstate != ParserSysEx
  {
    if IsVoiceStatus(b) && m.pstate != ParserSysEx {
      VoiceStatusStep(m, b, t);
      VoiceStatusKind(b);
    } else {
      StepMatchesReference(m, b, t);
    }
  }

  /** Reset clears the running status; nothing else does. */
  lemma ResetClearsRunningStatus(m: Machine, b: Byte, t: Option<MidiEvent>)
    requires Inv(m)
    ensures ResetMachine(m).runningStatus == MessageLast && Inv(ResetMachine(m))
    ensures Step(m, b, t).next.runningStatus == MessageLast ==> m.runningStatus == MessageLast
  {
    StepMatchesReference(m, b, t);
  }

  /** From ParserEmpty a data byte reuses the running status: the message
      takes its kind, keeps the channel of incoming_message_, and is reported
      at once exactly when the kind takes one data byte. */
  lemma RunningStatusReuse(m: Machine, b: Byte, t: Option<MidiEvent>)
    requires Inv(m) && m.pstate == ParserEmpty && !IsStatus(b) && m.runningStatus != MessageLast
    ensures var r := Step(m, b, t);
            && r.next.runningStatus == m.runningStatus
            && r.next.incoming == m.incoming.(msgType := m.runningStatus, data0 := b)
            && (r.didParse <==> TakesOneDataByte(m.runningStatus))
            && r.next.pstate == (if TakesOneDataByte(m.runningStatus) then ParserEmpty else ParserHasData0)
  {
    StepMatchesReference(m, b, t);
  }

  /** With no running status (after Reset, say) a data byte in ParserEmpty is
      dropped: nothing is reported and nothing changes. */
  lemma OrphanDataByteDropped(m: Machine, b: Byte, t: Option<MidiEvent>)
    requires m.Valid() && m.pstate == ParserEmpty && m.runningStatus == MessageLast && !IsStatus(b)
    ensures Step(m, b, t) == Outcome(m, false, t)
  {
    StepMatchesReference(m, b, t);
  }

  /** Reset followed by a lone data byte reports nothing. */
  lemma ResetThenDataByte(m: Machine, b: Byte, t: Option<MidiEvent>)
    requires m.Valid() && !IsStatus(b)
    ensures Step(ResetMachine(m), b, t) == Outcome(ResetMachine(m), false, t)
  {
    OrphanDataByteDropped(ResetMachine(m), b, t);
  }

  // ---------------------------------------------------------------------
  // One and two data bytes

  /** ProgramChange and ChannelPressure are reported after their one data
      byte, with that byte as data0. */
  lemma OneDataByteMessage(m: Machine, s: Byte, d: Byte, e: MidiEvent)
    requires Inv(m) && m.pstate != ParserSysEx && IsVoiceStatus(s) && TakesOneDataByte(StatusType(s)) && !IsStatus(d)
    ensures var r := Run(m, [s, d], Some(e));
            && r.events == [m.incoming.(msgType := StatusType(s), channel := s % 16, data0 := d)]
            && r.final.pstate == ParserEmpty && r.final.runningStatus == StatusType(s) && r.final.incoming == r.events[0]
  {
    var t := Some(e);
    RunningStatusChanges(m, s, t);
    var o1 := Step(m, s, t);
    StepMatchesReference(o1.next, d, t);
    var o2 := Step(o1.next, d, t);
    RunCons(m, s, [d], t);
    RunCons(o1.next, d, [], t);
    assert [s] + [d] == [s, d];
    assert [d] + [] == [d];
  }

  /** A Channel Voice status byte outside SysEx, as one transition. */
  lemma VoiceStatusStep(m: Machine, s: Byte, t: Option<MidiEvent>)
    requires m.Valid() && m.pstate != ParserSysEx && IsVoiceStatus(s)
    ensures Step(m, s, t) == Outcome(Machine(ParserHasStatus, StatusType(s),
                                             m.incoming.(msgType := StatusType(s), channel := s % 16)), false, t)
  {
    StatusMatches(m, s, t);
    assert MessageCode(s) == (s - 0x80) / 16;
  }

  /** The first data byte of a two-data-byte kind, as one transition. */
  lemma FirstDataStep(m: Machine, d: Byte, t: Option<MidiEvent>)
    requires m.Valid() && m.pstate == ParserHasStatus && !TakesOneDataByte(m.runningStatus) && !IsStatus(d)
    ensures Step(m, d, t) == Outcome(m.(pstate := ParserHasData0, incoming := m.incoming.(data0 := d)), false, t)
  {
    DataMatches(m, d, t);
  }

  /** The second data byte, as one transition. */
  lemma SecondDataStep(m: Machine, d: Byte, t: Option<MidiEvent>)
    requires m.Valid() && m.pstate == ParserHasData0 && !IsStatus(d)
    ensures var msg := m.incoming.(data1 := d);
            var done := if m.runningStatus == NoteOn && d == 0 then msg.(msgType := NoteOff) else msg;
            Step(m, d, t) == Outcome(m.(pstate := ParserEmpty, incoming := done), true, Emit(done, t))
  {
    DataMatches(m, d, t);
  }

  /** Every other Channel Voice kind reports nothing on its first data byte and
      is reported on the second, NoteOn with velocity 0 as NoteOff. */
  lemma TwoDataByteMessage(m: Machine, s: Byte, d0: Byte, d1: Byte, e: MidiEvent)
    requires Inv(m) && m.pstate != ParserSysEx && IsVoiceStatus(s) && !TakesOneDataByte(StatusType(s))
    requires !IsStatus(d0) && !IsStatus(d1)
    ensures var kind := StatusType(s);
            Run(m, [s, d0], Some(e))
              == Trace(Machine(ParserHasData0, kind, m.incoming.(msgType := kind, channel := s % 16, data0 := d0)), Some(e), [])
    ensures var kind := StatusType(s);
            var ev := m.incoming.(msgType := if kind == NoteOn && d1 == 0 then NoteOff else kind,
                                  channel := s % 16, data0 := d0, data1 := d1);
            Run(m, [s, d0, d1], Some(e)) == Trace(Machine(ParserEmpty, kind, ev), Some(ev), [ev])
  {
    var t := Some(e);
    VoiceStatusStep(m, s, t);
    var m1 := Step(m, s, t).next;
    FirstDataStep(m1, d0, t);
    var m2 := Step(m1, d0, t).next;
    SecondDataStep(m2, d1, t);
    RunTwo(m, s, d0, t);
    RunThree(m, s, d0, d1, t);
  }

  /** From ParserHasData0 a data byte always completes the message. */
  lemma SecondDataByteEmpties(m: Machine, b: Byte, t: Option<MidiEvent>)
    requires Inv(m) && m.pstate == ParserHasData0 && !IsStatus(b)
    ensures Step(m, b, t).next.pstate == ParserEmpty && Step(m, b, t).didParse
  {
    StepMatchesReference(m, b, t);
  }

  // ---------------------------------------------------------------------
  // NoteOn with velocity 0

  /** A NoteOn whose second data byte is 0 is reported as NoteOff, but the
      running status stays NoteOn, so the next running-status message is a
      NoteOn again. */
  lemma NoteOnVelocityZero(m: Machine, d0: Byte, t: Option<MidiEvent>)
    requires Inv(m) && m.pstate == ParserHasData0 && m.runningStatus == NoteOn && !IsStatus(d0)
    ensures var r := Step(m, 0, t);
            && r.didParse && r.next.incoming.msgType == NoteOff && r.next.incoming.data1 == 0
            && r.next.runningStatus == NoteOn && r.next.pstate == ParserEmpty
            && Step(r.next, d0, t).next.incoming.msgType == NoteOn
  {
    StepMatchesReference(m, 0, t);
    var r := Step(m, 0, t);
    StepMatchesReference(r.next, d0, t);
  }

  /** 0x90 0x40 0x00 reports a NoteOff on channel 0 with data0 0x40. */
  lemma VelocityZeroExample(m: Machine, e: MidiEvent)
    requires Inv(m) && m.pstate != ParserSysEx
    ensures var r := Run(m, [0x90, 0x40, 0x00], Some(e));
            |r.events| == 1 && r.events[0].msgType == NoteOff && r.events[0].channel == 0 && r.events[0].data0 == 0x40
  {
    assert StatusType(0x90) == NoteOn;
    TwoDataByteMessage(m, 0x90, 0x40, 0x00, e);
  }

  /** Under a two-data-byte running status, two data bytes from ParserEmpty
      make one message of that kind (NoteOff for a NoteOn of velocity 0). */
  lemma RunningStatusMessage(m: Machine, d0: Byte, d1: Byte, e: MidiEvent)
    requires Inv(m) && m.pstate == ParserEmpty && m.runningStatus != MessageLast
    requires !TakesOneDataByte(m.runningStatus) && !IsStatus(d0) && !IsStatus(d1)
    ensures var r := Run(m, [d0, d1], Some(e));
            var kind := m.runningStatus;
            && r.events == [m.incoming.(msgType := if kind == NoteOn && d1 == 0 then NoteOff else kind,
                                        data0 := d0, data1 := d1)]
            && r.final.pstate == ParserEmpty && r.final.runningStatus == kind && r.final.incoming == r.events[0]
  {
    var t := Some(e);
    RunningStatusReuse(m, d0, t);
    SecondDataStep(Step(m, d0, t).next, d1, t);
    RunTwo(m, d0, d1, t);
  }

  /** 0x90 0x40 0x7F: one NoteOn on channel 0, leaving running status NoteOn. */
  lemma NoteOnExample(m: Machine, e: MidiEvent)
    requires Inv(m) && m.pstate != ParserSysEx
    ensures var r := Run(m, [0x90, 0x40, 0x7F], Some(e));
            && r.events == [r.final.incoming] && r.final.incoming.msgType == NoteOn
            && r.final.incoming.data0 == 0x40 && r.final.incoming.data1 == 0x7F && r.final.incoming.channel == 0
            && r.final.pstate == ParserEmpty && r.final.runningStatus == NoteOn
  {
    assert StatusType(0x90) == NoteOn;
    TwoDataByteMessage(m, 0x90, 0x40, 0x7F, e);
  }

  /** A complete two-data-byte message followed by two more data bytes: the
      second message repeats the first one's kind and channel. */
  lemma RunningStatusContinues(m: Machine, s: Byte, d0: Byte, d1: Byte, d2: Byte, d3: Byte, e: MidiEvent)
    requires Inv(m) && m.pstate != ParserSysEx && IsVoiceStatus(s) && !TakesOneDataByte(StatusType(s))
    requires !IsStatus(d0) && !IsStatus(d1) && !IsStatus(d2) && !IsStatus(d3)
    ensures var r := Run(m, [s, d0, d1] + [d2, d3], Some(e));
            var kind := StatusType(s);
            && |r.events| == 2
            && r.events[0].msgType == (if kind == NoteOn && d1 == 0 then NoteOff else kind)
            && r.events[0].channel == s % 16 && r.events[0].data0 == d0 && r.events[0].data1 == d1
            && r.events[1] == r.events[0].(msgType := if kind == NoteOn && d3 == 0 then NoteOff else kind,
                                           data0 := d2, data1 := d3)
            && r.events[1].channel == s % 16
  {
    var t := Some(e);
    var f := FirstMessage(m, s, d0, d1, e);
    ContinueUnderRunningStatus(m, [s, d0, d1], d2, d3, t, f, StatusType(s), s % 16);
    assert Run(m, [s, d0, d1] + [d2, d3], t).events[0] == f.incoming;
  }

  /** The state a complete two-data-byte message leaves behind, with only the
      facts RunningStatusContinues needs about it. */
  lemma FirstMessage(m: Machine, s: Byte, d0: Byte, d1: Byte, e: MidiEvent) returns (f: Machine)
    requires Inv(m) && m.pstate != ParserSysEx && IsVoiceStatus(s) && !TakesOneDataByte(StatusType(s))
    requires !IsStatus(d0) && !IsStatus(d1)
    ensures Run(m, [s, d0, d1], Some(e)) == Trace(f, Some(f.incoming), [f.incoming])
    ensures Inv(f) && f.pstate == ParserEmpty && f.runningStatus == StatusType(s) && f.incoming.channel == s % 16
    ensures IsChannelVoice(f.runningStatus)
    ensures var kind := StatusType(s);
            && f.incoming.msgType == (if kind == NoteOn && d1 == 0 then NoteOff else kind)
            && f.incoming.data0 == d0 && f.incoming.data1 == d1
  {
    VoiceStatusKind(s);
    var t := Some(e);
    var kind := StatusType(s);
    var ev := m.incoming.(msgType := if kind == NoteOn && d1 == 0 then NoteOff else kind,
                          channel := s % 16, data0 := d0, data1 := d1);
    f := Machine(ParserEmpty, kind, ev);
    TwoDataByteMessage(m, s, d0, d1, e);
    RunKeepsInv(m, [s, d0, d1], t);
  }

  /** The step of RunningStatusContinues after the first message. */
  lemma ContinueUnderRunningStatus(m: Machine, a: seq<Byte>, x0: Byte, x1: Byte, t: Option<MidiEvent>,
                                   f: Machine, kind: MidiMessageType, ch: Byte)
    requires m.Valid() && Run(m, a, t) == Trace(f, Some(f.incoming), [f.incoming])
    requires Inv(f) && f.pstate == ParserEmpty && f.runningStatus == kind && f.incoming.channel == ch
    requires kind != MessageLast && !TakesOneDataByte(kind) && !IsStatus(x0) && !IsStatus(x1)
    ensures var r := Run(m, a + [x0, x1], t);
            && |r.events| == 2 && r.events[0] == f.incoming
            && r.events[1] == r.events[0].(msgType := if kind == NoteOn && x1 == 0 then NoteOff else kind,
                                           data0 := x0, data1 := x1)
            && r.events[1].channel == ch
  {
    RunningStatusMessage(f, x0, x1, f.incoming);
    RunAppend(m, a, [x0, x1], t);
  }

  /** 0x90 0x40 0x7F and then 0x41 0x7F reports two NoteOn events on
      channel 0, the second one taken under running status with data0 0x41. */
  lemma RunningStatusExample(m: Machine, e: MidiEvent)
    requires Inv(m) && m.pstate != ParserSysEx
    ensures var r := Run(m, [0x90, 0x40, 0x7F] + [0x41, 0x7F], Some(e));
            && |r.events| == 2
            && r.events[0].msgType == NoteOn && r.events[0].data0 == 0x40 && r.events[0].data1 == 0x7F
            && r.events[0].channel == 0
            && r.events[1].msgType == NoteOn && r.events[1].data0 == 0x41 && r.events[1].data1 == 0x7F
            && r.events[1].channel == 0
  {
    assert StatusType(0x90) == NoteOn;
    RunningStatusContinues(m, 0x90, 0x40, 0x7F, 0x41, 0x7F, e);
  }

  // ---------------------------------------------------------------------
  // System Common

  /** Outside SysEx a System Common status byte other than 0xF0 is reported
      at once, with channel 0 and sub-type byte & 0x07, and leaves running
      status alone; 0xF0 opens a SysEx message of length 0. */
  lemma SystemCommonMessage(m: Machine, b: Byte, t: Option<MidiEvent>)
    requires Inv(m) && m.pstate != ParserSysEx && 0xF0 <= b < 0xF8
    ensures var r := Step(m, b, t);
            && r.next.runningStatus == m.runningStatus
            && r.next.incoming == m.incoming.(msgType := SystemCommon, channel := 0, scType := b - 0xF0,
                                              sysexLen := if b == 0xF0 then 0 else m.incoming.sysexLen)
            && (r.didParse <==> b != 0xF0)
            && (r.didParse ==> r.target == Emit(r.next.incoming, t))
            && r.next.pstate == (if b == 0xF0 then ParserSysEx else ParserEmpty)
  {
    StepMatchesReference(m, b, t);
  }

  /** Running status survives a System Common message, but its channel 0 is
      what a later running-status message carries. */
  lemma RunningStatusAfterSystemCommon(m: Machine, b: Byte, d: Byte, t: Option<MidiEvent>)
    requires Inv(m) && m.pstate != ParserSysEx && 0xF1 <= b < 0xF8 && !IsStatus(d)
    requires IsChannelVoice(m.runningStatus)
    ensures var m1 := Step(m, b, t).next;
            var r := Step(m1, d, t);
            r.next.incoming.msgType == m.runningStatus && r.next.incoming.channel == 0 && r.next.incoming.data0 == d
  {
    SystemCommonMessage(m, b, t);
    var m1 := Step(m, b, t).next;
    RunningStatusReuse(m1, d, t);
  }

  // ---------------------------------------------------------------------
  // System Exclusive

  /** Inside SysEx a byte other than 0xF7 is stored verbatim, status bytes
      included, while the buffer has room; on a full buffer it is not stored,
      nothing is reported and the parser returns to ParserEmpty. */
  lemma SysExByte(m: Machine, b: Byte, t: Option<MidiEvent>)
    requires m.Valid() && m.pstate == ParserSysEx && !IsRealTime(b) && b != SysExEndByte
    ensures var r := Step(m, b, t);
            var len := m.incoming.sysexLen;
            && !r.didParse && r.target == t
            && (len < SYSEX_BUFFER_LEN ==>
                  r.next == m.(incoming := m.incoming.(sysexData := m.incoming.sysexData[len := b], sysexLen := len + 1)))
            && (len == SYSEX_BUFFER_LEN ==> r.next == m.(pstate := ParserEmpty))
  {
    StepMatchesReference(m, b, t);
  }

  /** 0xF7 inside SysEx reports the message accumulated so far. */
  lemma SysExEnd(m: Machine, t: Option<MidiEvent>)
    requires m.Valid() && m.pstate == ParserSysEx
    ensures Step(m, SysExEndByte, t) == Outcome(m.(pstate := ParserEmpty), true, Emit(m.incoming, t))
  {
    StepMatchesReference(m, SysExEndByte, t);
  }

  /** Running status also survives a SysEx message: after its closing 0xF7
      a data byte is taken under the running status, with channel 0. */
  lemma RunningStatusAfterSysEx(m: Machine, d: Byte, t: Option<MidiEvent>)
    requires Inv(m) && m.pstate == ParserSysEx && !IsStatus(d)
    requires IsChannelVoice(m.runningStatus)
    ensures var m1 := Step(m, SysExEndByte, t).next;
            var r := Step(m1, d, t);
            r.next.incoming.msgType == m.runningStatus && r.next.incoming.channel == 0 && r.next.incoming.data0 == d
  {
    SysExEnd(m, t);
    StepKeepsInv(m, SysExEndByte, t);
    var m1 := Step(m, SysExEndByte, t).next;
    RunningStatusReuse(m1, d, t);
  }

  /** `data` with the bytes of `p` written one at a time from index `i` on. */
  function Written(data: seq<Byte>, i: nat, p: seq<Byte>): (r: seq<Byte>)
    requires i + |p| <= |data|
    ensures |r| == |data|
    decreases |p|
  {
    if p == [] then data else Written(data[i := p[0]], i + 1, p[1..])
  }

  /** Writing `p` at `i` leaves `p` right after the first `i` bytes. */
  lemma {:induction false} WrittenPrefix(data: seq<Byte>, i: nat, p: seq<Byte>)
    requires i + |p| <= |data|
    ensures Written(data, i, p)[..i + |p|] == data[..i] + p
    decreases |p|
  {
    if p == [] {
      assert data[..i] + p == data[..i];
    } else {
      var d1 := data[i := p[0]];
      WrittenPrefix(d1, i + 1, p[1..]);
      assert d1[..i + 1] == data[..i] + [p[0]];
      assert data[..i] + [p[0]] + p[1..] == data[..i] + p;
    }
  }

  /** The machine once `p` has been appended to its SysEx buffer. */
  function Filled(m: Machine, p: seq<Byte>): (f: Machine)
    requires m.Valid() && m.incoming.sysexLen + |p| <= SYSEX_BUFFER_LEN
    ensures f.Valid()
  {
    var len := m.incoming.sysexLen;
    m.(incoming := m.incoming.(sysexData := Written(m.incoming.sysexData, len, p), sysexLen := len + |p|))
  }

  /** Appending to the buffer extends the payload by exactly those bytes. */
  lemma FilledPayload(m: Machine, p: seq<Byte>)
    requires m.Valid() && m.incoming.sysexLen + |p| <= SYSEX_BUFFER_LEN
    ensures Filled(m, p).incoming.Payload() == m.incoming.Payload() + p
  {
    WrittenPrefix(m.incoming.sysexData, m.incoming.sysexLen, p);
  }

  /** Appending b and then the tail is appending [b] + tail. */
  lemma FilledCons(m: Machine, b: Byte, tail: seq<Byte>)
    requires m.Valid() && m.incoming.sysexLen + 1 + |tail| <= SYSEX_BUFFER_LEN
    ensures Filled(Filled(m, [b]), tail) == Filled(m, [b] + tail)
  {
    var data, len := m.incoming.sysexData, m.incoming.sysexLen;
    assert ([b] + tail)[0] == b && ([b] + tail)[1..] == tail;
    assert [b][1..] == [];
    assert Written(data, len, [b]) == data[len := b];
  }

  /** One payload byte that fits, as one transition. */
  lemma SysExStore(m: Machine, b: Byte, t: Option<MidiEvent>)
    requires m.Valid() && m.pstate == ParserSysEx && m.incoming.sysexLen < SYSEX_BUFFER_LEN && b < SysExEndByte
    ensures Step(m, b, t) == Outcome(Filled(m, [b]), false, t)
  {
    var data, len := m.incoming.sysexData, m.incoming.sysexLen;
    assert [b][1..] == [];
    assert Written(data, len, [b]) == data[len := b];
    SysExByte(m, b, t);
  }

  /** Payload bytes that fit are stored in order, and nothing is reported. */
  lemma {:induction false} SysExFill(m: Machine, payload: seq<Byte>, t: Option<MidiEvent>)
    requires m.Valid() && m.pstate == ParserSysEx && m.incoming.sysexLen + |payload| <= SYSEX_BUFFER_LEN
    requires forall i :: 0 <= i < |payload| ==> payload[i] < SysExEndByte
    ensures Run(m, payload, t) == Trace(Filled(m, payload), t, [])
    decreases |payload|
  {
    if payload == [] {
      assert Filled(m, payload) == m;
    } else {
      var b, tail := payload[0], payload[1..];
      assert [b] + tail == payload;
      SysExStore(m, b, t);
      FilledCons(m, b, tail);
      SysExFill(Filled(m, [b]), tail, t);
      RunCons(m, b, tail, t);
    }
  }

  /** The body of a System Exclusive message, stated field by field. */
  lemma SysExBody(m: Machine, payload: seq<Byte>, t: Option<MidiEvent>)
    requires m.Valid() && m.pstate == ParserSysEx && m.incoming.sysexLen + |payload| <= SYSEX_BUFFER_LEN
    requires forall i :: 0 <= i < |payload| ==> payload[i] < SysExEndByte
    ensures var r := Run(m, payload, t);
            && r.events == [] && r.target == t
            && r.final.pstate == ParserSysEx && r.final.runningStatus == m.runningStatus
            && r.final.incoming.sysexLen == m.incoming.sysexLen + |payload|
            && r.final.incoming.Payload() == m.incoming.Payload() + payload
            && r.final.incoming == m.incoming.(sysexData := r.final.incoming.sysexData,
                                               sysexLen := r.final.incoming.sysexLen)
  {
    SysExFill(m, payload, t);
    FilledPayload(m, payload);
  }

  /** 0xF0 outside SysEx starts an empty exclusive message and reports nothing. */
  lemma SysExStart(m: Machine, t: Option<MidiEvent>)
    requires Inv(m) && m.pstate != ParserSysEx
    ensures var o := Step(m, 0xF0, t);
            && !o.didParse && o.target == t
            && o.next == Machine(ParserSysEx, m.runningStatus,
                                 m.incoming.(msgType := SystemCommon, channel := 0, scType := SystemExclusive, sysexLen := 0))
  {
    StepMatchesReference(m, 0xF0, t);
  }

  /** 0xF0, at most SYSEX_BUFFER_LEN payload bytes below 0xF7, and 0xF7 report
      exactly one SystemExclusive event carrying that payload; running status
      is kept. */
  lemma SysExRoundTrip(m: Machine, payload: seq<Byte>, e: MidiEvent)
    requires Inv(m) && m.pstate != ParserSysEx && |payload| <= SYSEX_BUFFER_LEN
    requires forall i :: 0 <= i < |payload| ==> payload[i] < SysExEndByte
    ensures var r := Run(m, [0xF0] + payload + [SysExEndByte], Some(e));
            && r.events == [r.final.incoming]
            && r.final.incoming.msgType == SystemCommon && r.final.incoming.scType == SystemExclusive
            && r.final.incoming.channel == 0 && r.final.incoming.Payload() == payload
            && r.final.pstate == ParserEmpty && r.final.runningStatus == m.runningStatus
  {
    var t := Some(e);
    SysExStart(m, t);
    var m1 := Step(m, 0xF0, t).next;
    assert m1.incoming.Payload() == [];
    SysExBody(m1, payload, t);
    var m2 := Run(m1, payload, t).final;
    assert m2.incoming.Payload() == payload;
    var m3 := SysExClose(m1, m2, payload, t);
    RunCons(m, 0xF0, payload + [SysExEndByte], t);
    assert [0xF0] + payload + [SysExEndByte] == [0xF0] + (payload + [SysExEndByte]);
    assert Run(m, [0xF0] + payload + [SysExEndByte], t) == Trace(m3, Some(m2.incoming), [m2.incoming]);
  }

  /** The last step of the round trip: the body followed by 0xF7. */
  lemma SysExClose(m1: Machine, m2: Machine, payload: seq<Byte>, t: Option<MidiEvent>) returns (m3: Machine)
    requires m1.Valid() && t.Some?
    requires Run(m1, payload, t) == Trace(m2, t, []) && m2.pstate == ParserSysEx
    ensures m3 == m2.(pstate := ParserEmpty)
    ensures Run(m1, payload + [SysExEndByte], t) == Trace(m3, Some(m2.incoming), [m2.incoming])
  {
    m3 := m2.(pstate := ParserEmpty);
    SysExEnd(m2, t);
    RunCons(m2, SysExEndByte, [], t);
    assert [SysExEndByte] + [] == [SysExEndByte];
    RunAppend(m1, payload, [SysExEndByte], t);
  }

  /** 0xF0 0x01 0x02 0xF7 reports one SystemExclusive event with payload 0x01 0x02. */
  lemma SysExExample(m: Machine, e: MidiEvent)
    requires Inv(m) && m.pstate != ParserSysEx
    ensures var r := Run(m, [0xF0] + [0x01, 0x02] + [0xF7], Some(e));
            |r.events| == 1 && r.events[0].scType == SystemExclusive && r.events[0].Valid()
            && r.events[0].Payload() == [0x01, 0x02]
  {
    SysExRoundTrip(m, [0x01, 0x02], e);
  }

  /** One payload byte too many: nothing is reported, the parser is back in
      ParserEmpty with running status kept, so a later 0xF7 is an End of
      Exclusive System Common message of its own, not a SystemExclusive one.
      That message is the whole of incoming_message_, so it still carries
      the full buffer of bytes that were stored before the overflow. */
  lemma SysExOverflow(m: Machine, payload: seq<Byte>, e: MidiEvent)
    requires Inv(m) && m.pstate != ParserSysEx && |payload| == SYSEX_BUFFER_LEN + 1
    requires forall i :: 0 <= i < |payload| ==> payload[i] < SysExEndByte
    ensures var r := Run(m, [0xF0] + payload, Some(e));
            && r.events == [] && r.final.pstate == ParserEmpty && r.final.runningStatus == m.runningStatus
            && r.final.incoming.sysexLen == SYSEX_BUFFER_LEN
            && var end := Step(r.final, SysExEndByte, r.target);
               && end.didParse && end.target.value.msgType == SystemCommon
               && end.target.value.scType == 7 && end.target.value.scType != SystemExclusive
               && end.target.value.Valid() && end.target.value.sysexLen == SYSEX_BUFFER_LEN
               && end.target.value.Payload() == payload[..SYSEX_BUFFER_LEN]
  {
    var t := Some(e);
    SysExStart(m, t);
    var m1 := Step(m, 0xF0, t).next;
    var fit, last := payload[..SYSEX_BUFFER_LEN], payload[SYSEX_BUFFER_LEN];
    assert fit + [last] == payload;
    SysExBody(m1, fit, t);
    var m2 := Run(m1, fit, t).final;
    assert m2.incoming.Payload() == fit;
    var m3 := SysExSpill(m1, m2, fit, last, t);
    RunCons(m, 0xF0, payload, t);
    assert Run(m, [0xF0] + payload, t) == Trace(m3, t, []);
    RunKeepsInv(m, [0xF0] + payload, t);
    SystemCommonMessage(m3, SysExEndByte, t);
  }

  /** The last step of the overflow: a byte that no longer fits. */
  lemma SysExSpill(m1: Machine, m2: Machine, fit: seq<Byte>, last: Byte, t: Option<MidiEvent>) returns (m3: Machine)
    requires m1.Valid()
    requires Run(m1, fit, t) == Trace(m2, t, []) && m2.pstate == ParserSysEx
    requires m2.incoming.sysexLen == SYSEX_BUFFER_LEN && last < SysExEndByte
    ensures m3 == m2.(pstate := ParserEmpty)
    ensures Run(m1, fit + [last], t) == Trace(m3, t, [])
  {
    m3 := m2.(pstate := ParserEmpty);
    SysExByte(m2, last, t);
    RunCons(m2, last, [], t);
    assert [last] + [] == [last];
    RunAppend(m1, fit, [last], t);
  }

  /** After an overflow the rest of the exclusive message is not skipped: a
      data byte is taken under the running status. */
  lemma SysExOverflowThenData(m: Machine, payload: seq<Byte>, d: Byte, e: MidiEvent)
    requires Inv(m) && m.pstate != ParserSysEx && |payload| == SYSEX_BUFFER_LEN + 1
    requires forall i :: 0 <= i < |payload| ==> payload[i] < SysExEndByte
    requires IsChannelVoice(m.runningStatus) && !IsStatus(d)
    ensures var r := Run(m, [0xF0] + payload, Some(e));
            var o := Step(r.final, d, r.target);
            o.next.incoming.msgType == m.runningStatus && o.next.incoming.data0 == d
  {
    SysExOverflow(m, payload, e);
    var r := Run(m, [0xF0] + payload, Some(e));
    RunKeepsInv(m, [0xF0] + payload, Some(e));
    RunningStatusReuse(r.final, d, r.target);
  }

  // ---------------------------------------------------------------------
  // When an event is reported, and what it holds

  /** The bytes on which Parse completes a message, by MIDI byte class. */
  predicate Completes(m: Machine, b: Byte)
    requires !IsRealTime(b)
  {
    if m.pstate == ParserSysEx then b == SysExEndByte
    else if IsStatus(b) then b >= 0xF1
    else match m.pstate
      case ParserEmpty => m.runningStatus != MessageLast && TakesOneDataByte(m.runningStatus)
      case ParserHasStatus => TakesOneDataByte(m.runningStatus)
      case ParserHasData0 => true
  }

  /** Parse returns true exactly on real-time bytes with an output event and
      on the bytes that complete a message. */
  lemma ReportsExactly(m: Machine, b: Byte, t: Option<MidiEvent>)
    requires m.Valid()
    ensures Step(m, b, t).didParse <==> if IsRealTime(b) then t.Some? else Completes(m, b)
  {
    StepMatchesReference(m, b, t);
  }

  /** A message reported on a byte below 0xF8 is the parser's own incoming
      message: channel at most 15, data bytes at most 0x7F, SysEx length
      within the buffer, and a Channel Voice kind that is the running status
      (or NoteOff for a NoteOn of velocity 0).  On a real-time byte the
      reported event is instead the caller's event with only its type and
      sub-type overwritten (RealTimeLeavesStateAlone). */
  lemma ReportedEventWellFormed(m: Machine, b: Byte, t: Option<MidiEvent>)
    requires Inv(m) && !IsRealTime(b) && t.Some? && Step(m, b, t).didParse
    ensures var r := Step(m, b, t);
            var ev := r.target.value;
            && ev == r.next.incoming && ev.Valid()
            && ev.channel <= kChannelMask && ev.data0 <= kDataByteMask && ev.data1 <= kDataByteMask
            && (ev.msgType == SystemCommon || IsChannelVoice(ev.msgType))
            && (IsChannelVoice(ev.msgType) ==>
                  ev.msgType == m.runningStatus || (ev.msgType == NoteOff && m.runningStatus == NoteOn && ev.data1 == 0))
            && (ev.msgType == SystemCommon ==> ev.channel == 0)
  {
    StepMatchesReference(m, b, t);
    StepKeepsInv(m, b, t);
  }
}
