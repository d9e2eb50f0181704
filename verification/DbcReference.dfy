/** A direct interpreter of a DBC database, and the proof that the compiled engine
    (module DbcDecoder) is that interpreter.

    The interpreter keeps no plans: it scans the messages for the frame's identifier, looks at
    the definition bit by bit, and spells every signal out of single payload bits. */
module DbcReference {
  import opened Wrappers
  import opened BitArithmetic
  import opened CanFrame
  import opened DbcModel
  import opened SignalLayout
  import opened SignalPlan
  import opened DbcDecoder

  // ----- the interpreter ----------------------------------------------------

  function FindMessage(messages: seq<Message>, frameId: nat, isExtended: bool): Option<Message> {
    if messages == [] then None
    else if messages[0].frameId == frameId && messages[0].isExtended == isExtended then Some(messages[0])
    else FindMessage(messages[1..], frameId, isExtended)
  }

  predicate IsSwitch(m: Message, i: nat) {
    i < |m.signals| && m.signals[i].isMultiplexer
  }

  /** At most one switch, and every multiplexed signal names a switch of its message. */
  predicate Unambiguous(m: Message) {
    && (forall i, j :: 0 <= i < |m.signals| && 0 <= j < |m.signals| && IsSwitch(m, i) && IsSwitch(m, j) ==> i == j)
    && (forall i :: 0 <= i < |m.signals| && m.signals[i].multiplexerSignal.Some? ==>
          exists j :: 0 <= j < |m.signals| && IsSwitch(m, j)
            && m.signals[j].name == m.signals[i].multiplexerSignal.value)
  }

  predicate Readable(s: Signal, byteCount: nat) {
    !s.isFloat && Fits(s, byteCount)
  }

  /** Why a definition cannot be decoded: its topology, else its first unreadable signal. */
  function DefinitionProblem(m: Message): Option<string> {
    if !Unambiguous(m) then Some("ambiguous_multiplexing") else FirstUnreadable(m.signals, m.length)
  }

  function FirstUnreadable(signals: seq<Signal>, byteCount: nat): Option<string> {
    if signals == [] then None
    else if signals[0].isFloat then Some("float_signal_payload")
    else if !Fits(signals[0], byteCount) then Some("signal_outside_message_payload")
    else FirstUnreadable(signals[1..], byteCount)
  }

  ghost predicate AllReadable(signals: seq<Signal>, byteCount: nat) {
    forall i :: 0 <= i < |signals| ==> signals[i].length >= 1 && Readable(signals[i], byteCount)
  }

  lemma {:induction false} NoProblemMeansReadable(signals: seq<Signal>, byteCount: nat)
    requires forall i :: 0 <= i < |signals| ==> signals[i].length >= 1
    ensures FirstUnreadable(signals, byteCount).None? <==> AllReadable(signals, byteCount)
  {
    if signals != [] {
      NoProblemMeansReadable(signals[1..], byteCount);
      assert FirstUnreadable(signals, byteCount).None? ==> AllReadable(signals, byteCount) by {
        if FirstUnreadable(signals, byteCount).None? {
          forall i | 0 <= i < |signals| ensures signals[i].length >= 1 && Readable(signals[i], byteCount) {
            assert i > 0 ==> signals[1..][i - 1] == signals[i];
          }
        }
      }
    }
  }

  /** A multiplexed signal is active when some switch of its message currently spells one of its ids. */
  ghost predicate Active(m: Message, s: Signal, data: seq<Byte>)
    requires AllReadable(m.signals, |data|)
  {
    s.multiplexerIds.None?
    || exists j :: 0 <= j < |m.signals| && IsSwitch(m, j) && SwitchSelects(m.signals[j], data, s.multiplexerIds.value)
  }

  ghost predicate SwitchSelects(switch: Signal, data: seq<Byte>, ids: seq<nat>)
    requires switch.length >= 1 && Fits(switch, |data|)
  {
    exists i :: 0 <= i < |ids| && ids[i] == SignalValue(switch, data)
  }

  /** The active signals among the first n of the message, in document order; the first one that
      cannot be scaled fails the frame. */
  ghost function ReadSignals(m: Message, n: nat, data: seq<Byte>, scale: Scaling)
    : Result<seq<DecodedSignal>, DecodeFailure>
    requires n <= |m.signals| && AllReadable(m.signals, |data|)
  {
    if n == 0 then Success([])
    else
      var before := ReadSignals(m, n - 1, data, scale);
      var s := m.signals[n - 1];
      if before.Failure? || !Active(m, s, data) then before
      else
        var raw := SignalValue(s, data);
        match scale(s, raw)
        case Failure(reason) => Failure(SignalDecodeFailed(m.name, s.name, reason))
        case Success(physical) =>
          Success(before.value + [DecodedSignal(s.name, raw, physical, ScanChoices(s.choices, raw), s.unit)])
  }

  ghost function Interpret(db: Database, frame: Frame, scale: Scaling): Result<DecodedFrame, DecodeFailure>
    requires ValidDatabase(db)
  {
    match FindMessage(db.messages, frame.arbitrationId, frame.isExtended)
    case None => Failure(MessageNotFound)
    case Some(m) =>
      FoundIsListed(db.messages, frame.arbitrationId, frame.isExtended);
      if m.isFd != frame.isFd then Failure(FrameTypeMismatch(m.name))
      else if DefinitionProblem(m).Some? then Failure(DecodeUnsupported(m.name, DefinitionProblem(m).value))
      else if |frame.data| < m.length then Failure(PayloadTooShort(m.name, m.length, |frame.data|))
      else
        NoProblemMeansReadable(m.signals, m.length);
        ReadableInMore(m.signals, m.length, |frame.data|);
        match ReadSignals(m, |m.signals|, frame.data, scale)
        case Failure(failure) => Failure(failure)
        case Success(signals) => Success(DecodedFrame(frame, m.name, signals))
  }

  lemma {:induction false} FoundIsListed(messages: seq<Message>, frameId: nat, isExtended: bool)
    ensures FindMessage(messages, frameId, isExtended).None? <==>
              forall m :: m in messages ==> !(m.frameId == frameId && m.isExtended == isExtended)
    ensures FindMessage(messages, frameId, isExtended).Some? ==>
              var m := FindMessage(messages, frameId, isExtended).value;
              m in messages && m.frameId == frameId && m.isExtended == isExtended
  {
    if messages != [] {
      FoundIsListed(messages[1..], frameId, isExtended);
      assert forall m :: m in messages <==> m == messages[0] || m in messages[1..];
    }
  }

  lemma ReadableInMore(signals: seq<Signal>, byteCount: nat, more: nat)
    requires AllReadable(signals, byteCount) && byteCount <= more
    ensures AllReadable(signals, more)
  {
    forall i | 0 <= i < |signals| ensures Readable(signals[i], more) {
      FitsInMore(signals[i], byteCount, more);
    }
  }

  // ----- compiling is checking bit by bit -----------------------------------

  lemma {:induction false} SwitchesAreTheSwitches(signals: seq<Signal>)
    ensures forall s :: s in Switches(signals) <==> s in signals && s.isMultiplexer
  {
    if signals != [] {
      SwitchesAreTheSwitches(signals[1..]);
      assert signals == [signals[0]] + signals[1..];
    }
  }

  lemma {:induction false} TwoSwitchesAreSeen(signals: seq<Signal>, i: nat, j: nat)
    requires i < j < |signals| && signals[i].isMultiplexer && signals[j].isMultiplexer
    ensures |Switches(signals)| > 1
  {
    if i > 0 {
      TwoSwitchesAreSeen(signals[1..], i - 1, j - 1);
    } else {
      SwitchesAreTheSwitches(signals[1..]);
      assert signals[1..][j - 1] in Switches(signals[1..]);
    }
  }

  lemma {:induction false} SeenSwitchesAreTwo(signals: seq<Signal>) returns (i: nat, j: nat)
    requires |Switches(signals)| > 1
    ensures i < j < |signals| && signals[i].isMultiplexer && signals[j].isMultiplexer
  {
    if signals[0].isMultiplexer {
      SwitchesAreTheSwitches(signals[1..]);
      var other := Switches(signals[1..])[0];
      assert other in Switches(signals[1..]);
      var k :| 0 <= k < |signals| - 1 && signals[1..][k] == other;
      i, j := 0, k + 1;
    } else {
      i, j := SeenSwitchesAreTwo(signals[1..]);
      i, j := i + 1, j + 1;
    }
  }

  /** The resolver finds a topology exactly when it is unambiguous, and then the message's switch. */
  lemma ResolverFindsTheSwitch(m: Message)
    requires ValidMessage(m)
    ensures ResolveMultiplexer(m) == Failure(AMBIGUOUS_MULTIPLEXING) || ResolveMultiplexer(m).Success?
    ensures ResolveMultiplexer(m).Success? <==> Unambiguous(m)
    ensures ResolveMultiplexer(m).Success? && ResolveMultiplexer(m).value.Some? ==>
              ResolveMultiplexer(m).value.value in m.signals && ResolveMultiplexer(m).value.value.isMultiplexer
    ensures ResolveMultiplexer(m).Success? && ResolveMultiplexer(m).value.None? ==>
              forall i :: 0 <= i < |m.signals| ==> !IsSwitch(m, i)
  {
    var switches := Switches(m.signals);
    SwitchesAreTheSwitches(m.signals);
    if |switches| > 1 {
      var i, j := SeenSwitchesAreTwo(m.signals);
      assert IsSwitch(m, i) && IsSwitch(m, j);
    } else {
      forall i, j | 0 <= i < |m.signals| && 0 <= j < |m.signals| && IsSwitch(m, i) && IsSwitch(m, j)
        ensures i == j
      {
        if i < j { TwoSwitchesAreSeen(m.signals, i, j); }
        if j < i { TwoSwitchesAreSeen(m.signals, j, i); }
      }
      if switches == [] {
        forall i | 0 <= i < |m.signals| ensures !IsSwitch(m, i) {
          assert m.signals[i] !in switches;
        }
      } else {
        assert switches[0] in switches;
        var k :| 0 <= k < |m.signals| && m.signals[k] == switches[0];
        assert IsSwitch(m, k);
      }
    }
  }

  lemma {:induction false} CompiledUpTo(signals: seq<Signal>, byteCount: nat, n: nat)
    requires n <= |signals| && forall i :: 0 <= i < |signals| ==> signals[i].length >= 1
    ensures AllReadable(signals[..n], byteCount) ==>
              && CompiledSignals(signals[..n], 8 * byteCount).Success?
              && var plans := CompiledSignals(signals[..n], 8 * byteCount).value;
                && |plans| == n
                && forall i :: 0 <= i < n ==>
                     CompileSignal(signals[i], 8 * byteCount) == Some(plans[i]) && plans[i].signal == signals[i]
    ensures CompiledSignals(signals[..n], 8 * byteCount).Success? ==> AllReadable(signals[..n], byteCount)
  {
    if n > 0 {
      CompiledUpTo(signals, byteCount, n - 1);
      assert signals[..n][..n - 1] == signals[..n - 1];
      CompilesExactlyWhenItFits(signals[n - 1], byteCount);
      if AllReadable(signals[..n], byteCount) {
        assert Readable(signals[..n][n - 1], byteCount);
        forall s | s in signals[..n - 1] ensures Readable(s, byteCount) {
          assert s in signals[..n];
        }
      }
      if CompiledSignals(signals[..n], 8 * byteCount).Success? {
        forall i | 0 <= i < n ensures Readable(signals[..n][i], byteCount) {
          if i < n - 1 { assert signals[..n][i] == signals[..n - 1][i]; }
        }
      }
    }
  }

  /** Compilation stops at the first unreadable signal, with its reason. */
  lemma {:induction false} CompileReasonIsFirstProblem(signals: seq<Signal>, byteCount: nat)
    requires forall i :: 0 <= i < |signals| ==> signals[i].length >= 1
    ensures CompiledSignals(signals, 8 * byteCount).Failure? <==> FirstUnreadable(signals, byteCount).Some?
    ensures CompiledSignals(signals, 8 * byteCount).Failure? ==>
              CompiledSignals(signals, 8 * byteCount).error == FirstUnreadable(signals, byteCount).value
  {
    if signals != [] {
      var n := |signals| - 1;
      CompileReasonIsFirstProblem(signals[..n], byteCount);
      CompilesExactlyWhenItFits(signals[n], byteCount);
      FirstUnreadableOfPrefix(signals, byteCount);
    }
  }

  lemma {:induction false} FirstUnreadableOfPrefix(signals: seq<Signal>, byteCount: nat)
    requires signals != []
    ensures var n := |signals| - 1;
            FirstUnreadable(signals, byteCount)
              == if FirstUnreadable(signals[..n], byteCount).Some? then FirstUnreadable(signals[..n], byteCount)
                 else FirstUnreadable([signals[n]], byteCount)
  {
    var n := |signals| - 1;
    if n == 0 {
      assert signals == [signals[0]];
    } else {
      FirstUnreadableOfPrefix(signals[1..], byteCount);
      assert signals[1..][..n - 1] == signals[..n][1..];
    }
  }

  // ----- decoding is reading bit by bit -------------------------------------

  lemma {:induction false} FirstNamedFinds(plans: seq<Plan>, k: nat)
    requires k < |plans|
    requires forall i, j :: 0 <= i < j < |plans| ==> plans[i].signal.name != plans[j].signal.name
    ensures FirstNamed(plans, plans[k].signal.name) == Some(plans[k])
  {
    if k > 0 {
      FirstNamedFinds(plans[1..], k - 1);
    }
  }

  lemma {:induction false} LastSignalDecodesLast(plans: seq<Plan>, selected: Option<int>, data: seq<Byte>, name: string, scale: Scaling)
    requires plans != []
    ensures var n := |plans| - 1;
            DecodeSignals(plans, selected, data, name, scale)
              == Joined(DecodeSignals(plans[..n], selected, data, name, scale),
                        DecodeIfSelected(plans[n], selected, data, name, scale))
  {
    var n := |plans| - 1;
    if n == 0 {
      assert DecodeSignals(plans[1..], selected, data, name, scale) == Success([]);
      JoinedWithNothing(DecodeIfSelected(plans[0], selected, data, name, scale));
    } else {
      LastSignalDecodesLast(plans[1..], selected, data, name, scale);
      assert plans[1..][..n - 1] == plans[..n][1..];
      JoinedAssociates(
        DecodeIfSelected(plans[0], selected, data, name, scale),
        DecodeSignals(plans[..n][1..], selected, data, name, scale),
        DecodeIfSelected(plans[n], selected, data, name, scale));
    }
  }

  lemma JoinedWithNothing<T, E>(a: Result<seq<T>, E>)
    ensures Joined(a, Success([])) == a == Joined(Success([]), a)
  {
    if a.Success? { assert a.value + [] == a.value == [] + a.value; }
  }

  lemma JoinedAssociates<T, E>(a: Result<seq<T>, E>, b: Result<seq<T>, E>, c: Result<seq<T>, E>)
    ensures Joined(a, Joined(b, c)) == Joined(Joined(a, b), c)
  {
    if a.Success? && b.Success? && c.Success? {
      assert a.value + (b.value + c.value) == a.value + b.value + c.value;
    }
  }

  /** The switch value the plan computed, related to the message's own switch. */
  ghost predicate SelectsFor(m: Message, selected: Option<int>, data: seq<Byte>)
    requires AllReadable(m.signals, |data|)
  {
    && (selected.None? ==> forall i :: 0 <= i < |m.signals| ==> !IsSwitch(m, i))
    && (selected.Some? ==>
          (exists i :: 0 <= i < |m.signals| && IsSwitch(m, i) && SignalValue(m.signals[i], data) == selected.value))
  }

  /** What one signal contributes to the interpreter's reading. */
  ghost function ReadOne(m: Message, s: Signal, data: seq<Byte>, scale: Scaling): Result<seq<DecodedSignal>, DecodeFailure>
    requires AllReadable(m.signals, |data|) && s.length >= 1 && Fits(s, |data|)
  {
    if !Active(m, s, data) then Success([])
    else
      var raw := SignalValue(s, data);
      match scale(s, raw)
      case Failure(reason) => Failure(SignalDecodeFailed(m.name, s.name, reason))
      case Success(physical) =>
        Success([DecodedSignal(s.name, raw, physical, ScanChoices(s.choices, raw), s.unit)])
  }

  lemma OnePlanReadsOneSignal(m: Message, s: Signal, p: Plan, selected: Option<int>, data: seq<Byte>, scale: Scaling)
    requires Unambiguous(m) && AllReadable(m.signals, |data|)
    requires ValidSignal(s) && CompileSignal(s, 8 * m.length) == Some(p) && m.length <= |data|
    requires SelectsFor(m, selected, data)
    ensures Fits(s, |data|)
    ensures DecodeIfSelected(p, selected, data, m.name, scale) == ReadOne(m, s, data, scale)
  {
    ExtractionReadsTheSignal(s, m.length, data);
    TableMatchesScan(s.choices, SignalValue(s, data));
    ActivityAgrees(m, s, p, selected, data);
  }

  /** The interpreter's reading grows by what the next signal contributes. */
  lemma ReadingOneMore(m: Message, n: nat, data: seq<Byte>, scale: Scaling)
    requires 0 < n <= |m.signals| && AllReadable(m.signals, |data|)
    requires m.signals[n - 1].length >= 1 && Fits(m.signals[n - 1], |data|)
    ensures ReadSignals(m, n, data, scale) == Joined(ReadSignals(m, n - 1, data, scale), ReadOne(m, m.signals[n - 1], data, scale))
  {
    JoinedWithNothing(ReadSignals(m, n - 1, data, scale));
  }

  lemma {:induction false} PlansReadTheSignals(
    m: Message, plans: seq<Plan>, selected: Option<int>, data: seq<Byte>, scale: Scaling, n: nat)
    requires ValidMessage(m) && Unambiguous(m) && AllReadable(m.signals, |data|) && m.length <= |data|
    requires |plans| == |m.signals| && n <= |plans|
    requires forall i :: 0 <= i < |plans| ==> CompileSignal(m.signals[i], 8 * m.length) == Some(plans[i])
    requires SelectsFor(m, selected, data)
    ensures DecodeSignals(plans[..n], selected, data, m.name, scale) == ReadSignals(m, n, data, scale)
  {
    if n > 0 {
      PlansReadTheSignals(m, plans, selected, data, scale, n - 1);
      assert plans[..n][..n - 1] == plans[..n - 1];
      LastSignalDecodesLast(plans[..n], selected, data, m.name, scale);
      OnePlanReadsOneSignal(m, m.signals[n - 1], plans[n - 1], selected, data, scale);
      ReadingOneMore(m, n, data, scale);
    }
  }

  lemma ActivityAgrees(m: Message, s: Signal, p: Plan, selected: Option<int>, data: seq<Byte>)
    requires Unambiguous(m) && AllReadable(m.signals, |data|) && s.length >= 1
    requires CompileSignal(s, 8 * m.length) == Some(p)
    requires SelectsFor(m, selected, data)
    ensures Selected(p, selected) <==> Active(m, s, data)
  {
    if s.multiplexerIds.Some? {
      var ids := s.multiplexerIds.value;
      assert p.multiplexerIds.value == set i | i in ids;
      if selected.Some? {
        var k :| 0 <= k < |m.signals| && IsSwitch(m, k) && SignalValue(m.signals[k], data) == selected.value;
        if i :| i in p.multiplexerIds.value && i == selected.value {
          assert SwitchSelects(m.signals[k], data, ids);
        }
        if Active(m, s, data) {
          var j :| 0 <= j < |m.signals| && IsSwitch(m, j) && SwitchSelects(m.signals[j], data, ids);
          assert j == k;
          var i :| 0 <= i < |ids| && ids[i] == SignalValue(m.signals[k], data);
          assert ids[i] in p.multiplexerIds.value && ids[i] == selected.value;
        }
      }
    }
  }

  lemma SelectionIsTheSwitchValue(m: Message, data: seq<Byte>)
    requires ValidMessage(m) && Unambiguous(m) && AllReadable(m.signals, m.length)
    requires m.length <= |data| && AllReadable(m.signals, |data|)
    ensures var plan := CompiledMessage(m);
            SelectsFor(m, if plan.multiplexer.None? then None else Some(RawValue(plan.multiplexer.value, data)), data)
  {
    var plan := CompiledMessage(m);
    ResolverFindsTheSwitch(m);
    CompiledUpTo(m.signals, m.length, |m.signals|);
    assert m.signals[..|m.signals|] == m.signals;
    var plans := CompiledSignals(m.signals, m.length * 8).value;
    var resolved := ResolveMultiplexer(m).value;
    if resolved.Some? {
      var k :| 0 <= k < |m.signals| && m.signals[k] == resolved.value;
      assert IsSwitch(m, k);
      FirstNamedFinds(plans, k);
      assert plan.multiplexer == Some(plans[k]);
      ExtractionReadsTheSignal(m.signals[k], m.length, data);
    }
  }

  /** What a readable, unambiguous message compiles to: one plan per signal, and no refusal. */
  lemma ReadableMessageCompiles(m: Message)
    requires ValidMessage(m) && DefinitionProblem(m).None?
    ensures Unambiguous(m) && AllReadable(m.signals, m.length)
    ensures var plan := CompiledMessage(m);
            && plan.unsupported.None? && plan.message == m && |plan.signals| == |m.signals|
            && forall i :: 0 <= i < |m.signals| ==> CompileSignal(m.signals[i], 8 * m.length) == Some(plan.signals[i])
  {
    ResolverFindsTheSwitch(m);
    CompileReasonIsFirstProblem(m.signals, m.length);
    NoProblemMeansReadable(m.signals, m.length);
    CompiledUpTo(m.signals, m.length, |m.signals|);
    assert m.signals[..|m.signals|] == m.signals;
  }

  lemma ReadableMessageReads(m: Message, data: seq<Byte>, scale: Scaling)
    requires ValidMessage(m) && DefinitionProblem(m).None? && m.length <= |data|
    ensures AllReadable(m.signals, |data|)
    ensures var plan := CompiledMessage(m);
            var selected := if plan.multiplexer.None? then None else Some(RawValue(plan.multiplexer.value, data));
            DecodeSignals(plan.signals, selected, data, m.name, scale) == ReadSignals(m, |m.signals|, data, scale)
  {
    var plan := CompiledMessage(m);
    ReadableMessageCompiles(m);
    ReadableInMore(m.signals, m.length, |data|);
    SelectionIsTheSwitchValue(m, data);
    var selected := if plan.multiplexer.None? then None else Some(RawValue(plan.multiplexer.value, data));
    PlansReadTheSignals(m, plan.signals, selected, data, scale, |m.signals|);
    assert plan.signals[..|m.signals|] == plan.signals;
  }

  lemma ReadableMessageDecodesAsInterpreted(m: Message, frame: Frame, scale: Scaling)
    requires ValidMessage(m) && DefinitionProblem(m).None? && m.length <= |frame.data|
    ensures AllReadable(m.signals, |frame.data|)
    ensures DecodeWithPlan(CompiledMessage(m), frame, scale) ==
              match ReadSignals(m, |m.signals|, frame.data, scale)
              case Failure(failure) => Failure(failure)
              case Success(signals) => Success(DecodedFrame(frame, m.name, signals))
  {
    ReadableMessageCompiles(m);
    ReadableMessageReads(m, frame.data, scale);
  }

  /** A plan refuses exactly the definitions that have a problem, with that problem's reason. */
  lemma PlanRefusesProblems(m: Message)
    requires ValidMessage(m)
    ensures CompiledMessage(m).unsupported == DefinitionProblem(m)
    ensures CompiledMessage(m).message == m
  {
    ResolverFindsTheSwitch(m);
    CompileReasonIsFirstProblem(m.signals, m.length);
  }

  /** A lookup under the pair (frame id, is extended) finds what a scan for both fields finds. */
  lemma {:induction false} IndexFindsWhatTheScanFinds(messages: seq<Message>, frameId: nat, isExtended: bool)
    requires HasLengths(messages) && DistinctIdentifiers(messages)
    ensures FindMessage(messages, frameId, isExtended).None? <==> (frameId, isExtended) !in CompiledDatabase(messages)
    ensures FindMessage(messages, frameId, isExtended).Some? ==>
              var m := FindMessage(messages, frameId, isExtended).value;
              && m in messages && (forall i :: 0 <= i < |m.signals| ==> m.signals[i].length >= 1)
              && CompiledDatabase(messages)[(frameId, isExtended)] == CompiledMessage(m)
  {
    if messages != [] {
      var n := |messages| - 1;
      IndexFindsWhatTheScanFinds(messages[..n], frameId, isExtended);
      FindInPrefix(messages, frameId, isExtended);
      FoundIsListed(messages, frameId, isExtended);
      FoundIsListed(messages[..n], frameId, isExtended);
    }
  }

  lemma {:induction false} FindInPrefix(messages: seq<Message>, frameId: nat, isExtended: bool)
    requires messages != []
    ensures var n := |messages| - 1;
            FindMessage(messages, frameId, isExtended) ==
              if FindMessage(messages[..n], frameId, isExtended).Some? then FindMessage(messages[..n], frameId, isExtended)
              else if messages[n].frameId == frameId && messages[n].isExtended == isExtended then Some(messages[n]) else None
  {
    var n := |messages| - 1;
    if n > 0 {
      FindInPrefix(messages[1..], frameId, isExtended);
      assert messages[1..][..n - 1] == messages[..n][1..];
    }
  }

  /** The compiled engine is the interpreter: for every database, frame and scaling, the same
      decoded signals in document order, or the same failure found in the same order of checks. */
  lemma CompiledEngineIsTheInterpreter(db: Database, frame: Frame, scale: Scaling)
    requires ValidDatabase(db)
    ensures HasLengths(db.messages)
    ensures DecodeFrame(CompiledDatabase(db.messages), frame, scale) == Interpret(db, frame, scale)
  {
    assert HasLengths(db.messages) by {
      forall k, i | 0 <= k < |db.messages| && 0 <= i < |db.messages[k].signals|
        ensures db.messages[k].signals[i].length >= 1
      {
        assert ValidMessage(db.messages[k]) && ValidSignal(db.messages[k].signals[i]);
      }
    }
    IndexFindsWhatTheScanFinds(db.messages, frame.arbitrationId, frame.isExtended);
    FoundIsListed(db.messages, frame.arbitrationId, frame.isExtended);
    match FindMessage(db.messages, frame.arbitrationId, frame.isExtended)
    case None =>
    case Some(m) =>
      assert ValidMessage(m);
      PlanRefusesProblems(m);
      if DefinitionProblem(m).None? && m.length <= |frame.data| {
        ReadableMessageDecodesAsInterpreted(m, frame, scale);
      }
  }

  /** The message a decoding speaks of, if it speaks of one. */
  function NamedMessage(r: Result<DecodedFrame, DecodeFailure>): Option<string> {
    match r
    case Success(decoded) => Some(decoded.messageName)
    case Failure(MessageNotFound) => None
    case Failure(FrameTypeMismatch(name)) => Some(name)
    case Failure(DecodeUnsupported(name, _)) => Some(name)
    case Failure(PayloadTooShort(name, _, _)) => Some(name)
    case Failure(SignalDecodeFailed(name, _, _)) => Some(name)
  }

  /** A frame is decoded with the message that has exactly its id and its id format, and is refused
      as unknown exactly when there is none. */
  lemma FramesMeetTheirMessage(db: Database, frame: Frame, scale: Scaling)
    requires ValidDatabase(db) && HasLengths(db.messages)
    ensures var r := DecodeFrame(CompiledDatabase(db.messages), frame, scale);
            && (r == Failure(MessageNotFound) <==>
                  forall m :: m in db.messages ==> !(m.frameId == frame.arbitrationId && m.isExtended == frame.isExtended))
            && (NamedMessage(r).None? <==> r == Failure(MessageNotFound))
            && (forall m :: m in db.messages && m.frameId == frame.arbitrationId && m.isExtended == frame.isExtended ==>
                  NamedMessage(r) == Some(m.name))
  {
    CompiledEngineIsTheInterpreter(db, frame, scale);
    FoundIsListed(db.messages, frame.arbitrationId, frame.isExtended);
    var found := FindMessage(db.messages, frame.arbitrationId, frame.isExtended);
    if found.Some? {
      InterpretationNamesItsMessage(db, frame, scale);
      forall m | m in db.messages && m.frameId == frame.arbitrationId && m.isExtended == frame.isExtended
        ensures m == found.value
      {
        var i :| 0 <= i < |db.messages| && db.messages[i] == m;
        var j :| 0 <= j < |db.messages| && db.messages[j] == found.value;
        assert Identifier(db.messages[i]) == Identifier(db.messages[j]);
      }
    }
  }

  lemma InterpretationNamesItsMessage(db: Database, frame: Frame, scale: Scaling)
    requires ValidDatabase(db) && FindMessage(db.messages, frame.arbitrationId, frame.isExtended).Some?
    ensures NamedMessage(Interpret(db, frame, scale)) == Some(FindMessage(db.messages, frame.arbitrationId, frame.isExtended).value.name)
  {
    var m := FindMessage(db.messages, frame.arbitrationId, frame.isExtended).value;
    FoundIsListed(db.messages, frame.arbitrationId, frame.isExtended);
    if DefinitionProblem(m).None? && m.isFd == frame.isFd && m.length <= |frame.data| {
      NoProblemMeansReadable(m.signals, m.length);
      ReadableInMore(m.signals, m.length, |frame.data|);
      if ReadSignals(m, |m.signals|, frame.data, scale).Failure? {
        FailuresNameTheMessage(m, |m.signals|, frame.data, scale);
      }
    }
  }

  lemma {:induction false} FailuresNameTheMessage(m: Message, n: nat, data: seq<Byte>, scale: Scaling)
    requires n <= |m.signals| && AllReadable(m.signals, |data|) && ReadSignals(m, n, data, scale).Failure?
    ensures var e := ReadSignals(m, n, data, scale).error; e.SignalDecodeFailed? && e.messageName == m.name
  {
    if ReadSignals(m, n - 1, data, scale).Failure? {
      FailuresNameTheMessage(m, n - 1, data, scale);
    }
  }

  /** Batch decoding is single decoding pointwise: one outcome per input frame, in input order. */
  method DecodeFrames(db: Database, frames: seq<Frame>, scale: Scaling) returns (outcomes: seq<Outcome>)
    requires ValidDatabase(db)
    ensures |outcomes| == |frames|
    ensures forall i :: 0 <= i < |frames| ==> outcomes[i] == Outcome(frames[i], Interpret(db, frames[i], scale))
  {
    var plans := Compile(db);
    outcomes := [];
    for n := 0 to |frames|
      invariant |outcomes| == n
      invariant forall i :: 0 <= i < n ==> outcomes[i] == Outcome(frames[i], Interpret(db, frames[i], scale))
    {
      CompiledEngineIsTheInterpreter(db, frames[n], scale);
      outcomes := outcomes + [Outcome(frames[n], DecodeFrame(plans, frames[n], scale))];
    }
  }

  // ----- what a reading depends on ------------------------------------------

  lemma ActivityIgnoresExtraBytes(m: Message, s: Signal, a: seq<Byte>, b: seq<Byte>)
    requires ValidMessage(m) && AllReadable(m.signals, m.length) && AllReadable(m.signals, |a|) && AllReadable(m.signals, |b|)
    requires m.length <= |a| && m.length <= |b| && a[..m.length] == b[..m.length]
    ensures Active(m, s, a) <==> Active(m, s, b)
  {
    if s.multiplexerIds.Some? {
      forall j | 0 <= j < |m.signals|
        ensures SwitchSelects(m.signals[j], a, s.multiplexerIds.value) <==> SwitchSelects(m.signals[j], b, s.multiplexerIds.value)
      {
        BytesPastTheLengthDoNotMatter(m.signals[j], a, b, m.length);
      }
    }
  }

  lemma {:induction false} ReadingIgnoresExtraBytes(m: Message, n: nat, a: seq<Byte>, b: seq<Byte>, scale: Scaling)
    requires ValidMessage(m) && n <= |m.signals| && AllReadable(m.signals, m.length)
    requires m.length <= |a| && m.length <= |b| && a[..m.length] == b[..m.length]
    ensures AllReadable(m.signals, |a|) && AllReadable(m.signals, |b|)
    ensures ReadSignals(m, n, a, scale) == ReadSignals(m, n, b, scale)
  {
    ReadableInMore(m.signals, m.length, |a|);
    ReadableInMore(m.signals, m.length, |b|);
    if n > 0 {
      ReadingIgnoresExtraBytes(m, n - 1, a, b, scale);
      BytesPastTheLengthDoNotMatter(m.signals[n - 1], a, b, m.length);
      ActivityIgnoresExtraBytes(m, m.signals[n - 1], a, b);
    }
  }

  /** A payload longer than the message declares decodes as its declared part does. */
  lemma ExtraPayloadIsNeverInterpreted(db: Database, frame: Frame, extra: seq<Byte>, scale: Scaling)
    requires ValidDatabase(db)
    requires var m := FindMessage(db.messages, frame.arbitrationId, frame.isExtended);
             m.Some? ==> m.value.length <= |frame.data|
    ensures var longer := frame.(data := frame.data + extra);
            match Interpret(db, frame, scale)
            case Failure(failure) => Interpret(db, longer, scale) == Failure(failure)
            case Success(decoded) => Interpret(db, longer, scale) == Success(decoded.(frame := longer))
  {
    var found := FindMessage(db.messages, frame.arbitrationId, frame.isExtended);
    if found.Some? {
      var m := found.value;
      FoundIsListed(db.messages, frame.arbitrationId, frame.isExtended);
      if DefinitionProblem(m).None? {
        NoProblemMeansReadable(m.signals, m.length);
        assert (frame.data + extra)[..m.length] == frame.data[..m.length];
        ReadingIgnoresExtraBytes(m, |m.signals|, frame.data, frame.data + extra, scale);
      }
    }
  }

  /** The decoded signal is the active signal at position i. */
  ghost predicate ReadFrom(m: Message, data: seq<Byte>, i: nat, decoded: DecodedSignal)
    requires ValidMessage(m) && AllReadable(m.signals, |data|)
  {
    && i < |m.signals| && Active(m, m.signals[i], data)
    && decoded.name == m.signals[i].name && decoded.rawValue == SignalValue(m.signals[i], data)
  }

  /** The positions of the active signals among the first n. */
  ghost function ActivePositions(m: Message, n: nat, data: seq<Byte>): seq<nat>
    requires n <= |m.signals| && AllReadable(m.signals, |data|)
  {
    if n == 0 then []
    else ActivePositions(m, n - 1, data) + if Active(m, m.signals[n - 1], data) then [n - 1] else []
  }

  /** Increasing positions below n. */
  ghost predicate IncreaseBelow(at: seq<nat>, n: nat) {
    && (forall k :: 0 <= k < |at| ==> at[k] < n)
    && (forall k, l :: 0 <= k < l < |at| ==> at[k] < at[l])
  }

  lemma {:induction false} PositionsAreTheActiveOnes(m: Message, n: nat, data: seq<Byte>)
    requires n <= |m.signals| && AllReadable(m.signals, |data|)
    ensures IncreaseBelow(ActivePositions(m, n, data), n)
    ensures forall i :: 0 <= i < n && Active(m, m.signals[i], data) ==> i in ActivePositions(m, n, data)
  {
    if n > 0 {
      PositionsAreTheActiveOnes(m, n - 1, data);
      NextPosition(ActivePositions(m, n - 1, data), n - 1);
    }
  }

  lemma NextPosition(before: seq<nat>, n: nat)
    requires IncreaseBelow(before, n)
    ensures IncreaseBelow(before + [n], n + 1) && IncreaseBelow(before + [], n + 1)
  {
    assert before + [] == before;
  }

  lemma {:induction false} EachReadingComesFromItsPosition(m: Message, n: nat, data: seq<Byte>, scale: Scaling)
    requires ValidMessage(m) && n <= |m.signals| && AllReadable(m.signals, |data|)
    requires ReadSignals(m, n, data, scale).Success?
    ensures var at, decoded := ActivePositions(m, n, data), ReadSignals(m, n, data, scale).value;
            |at| == |decoded| && forall k :: 0 <= k < |at| ==> ReadFrom(m, data, at[k], decoded[k])
  {
    if n > 0 {
      EachReadingComesFromItsPosition(m, n - 1, data, scale);
    }
  }

  /** The decoded signals are the active ones, each once, in document order: the k-th decoded
      signal comes from the signal at position at[k], and positions increase. */
  lemma ReadingKeepsDocumentOrder(m: Message, n: nat, data: seq<Byte>, scale: Scaling) returns (at: seq<nat>)
    requires ValidMessage(m) && n <= |m.signals| && AllReadable(m.signals, |data|)
    requires ReadSignals(m, n, data, scale).Success?
    ensures |at| == |ReadSignals(m, n, data, scale).value|
    ensures forall k :: 0 <= k < |at| ==> ReadFrom(m, data, at[k], ReadSignals(m, n, data, scale).value[k])
    ensures forall k :: 0 <= k < |at| ==> at[k] < n
    ensures forall k, l :: 0 <= k < l < |at| ==> at[k] < at[l]
    ensures forall i :: 0 <= i < n && Active(m, m.signals[i], data) ==> i in at
  {
    at := ActivePositions(m, n, data);
    PositionsAreTheActiveOnes(m, n, data);
    EachReadingComesFromItsPosition(m, n, data, scale);
  }
}
