/** The compiled DBC decode engine (runtime/canx/dbc/decode.py): messages compiled once into
    plans, frames decoded against the plans. Physical scaling is floating point and enters as a
    function that may fail. */
module DbcDecoder {
  import opened Wrappers
  import opened BitArithmetic
  import opened CanFrame
  import opened DbcModel
  import opened SignalLayout
  import opened SignalPlan

  const OUT_OF_BOUNDS := "signal_outside_message_payload"
  const AMBIGUOUS_MULTIPLEXING := "ambiguous_multiplexing"
  const FLOAT_PAYLOAD := "float_signal_payload"

  datatype DecodedSignal = DecodedSignal(
    name: string,
    rawValue: int,
    physicalValue: real,
    choiceLabel: Option<string>,
    unit: Option<string>)

  datatype DecodedFrame = DecodedFrame(frame: Frame, messageName: string, signals: seq<DecodedSignal>)

  datatype DecodeFailure =
    | MessageNotFound
    | FrameTypeMismatch(messageName: string)
    | DecodeUnsupported(messageName: string, reason: string)
    | PayloadTooShort(messageName: string, expectedLength: nat, actualLength: nat)
    | SignalDecodeFailed(messageName: string, signalName: string, reason: string)

  datatype Outcome = Outcome(frame: Frame, result: Result<DecodedFrame, DecodeFailure>)

  /** raw * factor + offset, or the reason it is not a finite number. */
  type Scaling = (Signal, int) -> Result<real, string>

  datatype MessagePlan = MessagePlan(
    message: Message,
    signals: seq<Plan>,
    multiplexer: Option<Plan>,
    unsupported: Option<string>)

  type Plans = map<(nat, bool), MessagePlan>

  // ----- compilation --------------------------------------------------------

  function Switches(signals: seq<Signal>): seq<Signal> {
    if signals == [] then []
    else (if signals[0].isMultiplexer then [signals[0]] else []) + Switches(signals[1..])
  }

  /** The message's single switch, or the reason there is none. */
  function ResolveMultiplexer(m: Message): Result<Option<Signal>, string> {
    var switches := Switches(m.signals);
    if |switches| > 1 then Failure(AMBIGUOUS_MULTIPLEXING)
    else
      var switch := if switches == [] then None else Some(switches[0]);
      if exists i :: 0 <= i < |m.signals| && m.signals[i].multiplexerSignal.Some?
           && (switch.None? || m.signals[i].multiplexerSignal.value != switch.value.name)
      then Failure(AMBIGUOUS_MULTIPLEXING)
      else Success(switch)
  }

  /** The plans of all signals, or the reason of the first one that has none. */
  function CompiledSignals(signals: seq<Signal>, lengthBits: nat): Result<seq<Plan>, string>
    requires forall i :: 0 <= i < |signals| ==> signals[i].length >= 1
  {
    if signals == [] then Success([])
    else
      var n := |signals| - 1;
      var before := CompiledSignals(signals[..n], lengthBits);
      if before.Failure? then before
      else if signals[n].isFloat then Failure(FLOAT_PAYLOAD)
      else
        var plan := CompileSignal(signals[n], lengthBits);
        if plan.None? then Failure(OUT_OF_BOUNDS) else Success(before.value + [plan.value])
  }

  function FirstNamed(plans: seq<Plan>, name: string): Option<Plan> {
    if plans == [] then None
    else if plans[0].signal.name == name then Some(plans[0])
    else FirstNamed(plans[1..], name)
  }

  function CompiledMessage(m: Message): MessagePlan
    requires forall i :: 0 <= i < |m.signals| ==> m.signals[i].length >= 1
  {
    var resolved := ResolveMultiplexer(m);
    if resolved.Failure? then MessagePlan(m, [], None, Some(resolved.error))
    else
      var compiled := CompiledSignals(m.signals, m.length * 8);
      if compiled.Failure? then MessagePlan(m, [], None, Some(compiled.error))
      else
        var switchPlan := if resolved.value.None? then None else FirstNamed(compiled.value, resolved.value.value.name);
        MessagePlan(m, compiled.value, switchPlan, None)
  }

  method CompileMessage(m: Message) returns (plan: MessagePlan)
    requires forall i :: 0 <= i < |m.signals| ==> m.signals[i].length >= 1
    ensures plan == CompiledMessage(m)
  {
    var resolved := ResolveMultiplexer(m);
    if resolved.Failure? {
      return MessagePlan(m, [], None, Some(resolved.error));
    }
    var unsupported: Option<string> := None;
    var plans: seq<Plan> := [];
    var i := 0;
    while i < |m.signals| && unsupported.None?
      invariant 0 <= i <= |m.signals|
      invariant CompiledSignals(m.signals[..i], m.length * 8)
             == if unsupported.Some? then Failure(unsupported.value) else Success(plans)
      decreases |m.signals| - i
    {
      assert m.signals[..i + 1][..i] == m.signals[..i];
      if m.signals[i].isFloat {
        unsupported := Some(FLOAT_PAYLOAD);
      } else {
        var compiled := CompileSignal(m.signals[i], m.length * 8);
        if compiled.None? {
          unsupported := Some(OUT_OF_BOUNDS);
        } else {
          plans := plans + [compiled.value];
        }
      }
      i := i + 1;
    }
    if unsupported.Some? {
      FailureIsFinal(m.signals, i, m.length * 8);
      return MessagePlan(m, [], None, unsupported);
    }
    assert m.signals[..i] == m.signals;
    var switchPlan := if resolved.value.None? then None else FirstNamed(plans, resolved.value.value.name);
    return MessagePlan(m, plans, switchPlan, None);
  }

  lemma {:induction false} FailureIsFinal(signals: seq<Signal>, i: nat, lengthBits: nat)
    requires forall k :: 0 <= k < |signals| ==> signals[k].length >= 1
    requires i <= |signals| && CompiledSignals(signals[..i], lengthBits).Failure?
    ensures CompiledSignals(signals, lengthBits) == CompiledSignals(signals[..i], lengthBits)
    decreases |signals|
  {
    if i == |signals| {
      assert signals[..i] == signals;
    } else {
      var n := |signals| - 1;
      assert signals[..n][..i] == signals[..i];
      FailureIsFinal(signals[..n], i, lengthBits);
    }
  }

  ghost predicate HasLengths(messages: seq<Message>) {
    forall k, i :: 0 <= k < |messages| && 0 <= i < |messages[k].signals| ==> messages[k].signals[i].length >= 1
  }

  /** The index of plans: a later message replaces an earlier one under the same identifier. */
  function CompiledDatabase(messages: seq<Message>): Plans
    requires HasLengths(messages)
  {
    if messages == [] then map[]
    else
      var n := |messages| - 1;
      assert forall i :: 0 <= i < |messages[n].signals| ==> messages[n].signals[i].length >= 1;
      CompiledDatabase(messages[..n])[Identifier(messages[n]) := CompiledMessage(messages[n])]
  }

  method Compile(db: Database) returns (plans: Plans)
    requires ValidDatabase(db)
    ensures HasLengths(db.messages) && plans == CompiledDatabase(db.messages)
  {
    plans := map[];
    for i := 0 to |db.messages|
      invariant HasLengths(db.messages[..i]) && plans == CompiledDatabase(db.messages[..i])
    {
      assert ValidMessage(db.messages[i]);
      assert db.messages[..i + 1][..i] == db.messages[..i];
      var plan := CompileMessage(db.messages[i]);
      plans := plans[Identifier(db.messages[i]) := plan];
    }
    assert db.messages[..|db.messages|] == db.messages;
  }

  // ----- decoding -----------------------------------------------------------

  function DecodeSignal(p: Plan, data: seq<Byte>, messageName: string, scale: Scaling)
    : Result<DecodedSignal, DecodeFailure>
  {
    var raw := RawValue(p, data);
    match scale(p.signal, raw)
    case Failure(reason) => Failure(SignalDecodeFailed(messageName, p.signal.name, reason))
    case Success(physical) =>
      Success(DecodedSignal(p.signal.name, raw, physical, Lookup(p.choices, raw), p.signal.unit))
  }

  predicate Selected(p: Plan, selected: Option<int>) {
    p.multiplexerIds.None?
    || (selected.Some? && exists i :: i in p.multiplexerIds.value && i == selected.value)
  }

  function DecodeIfSelected(p: Plan, selected: Option<int>, data: seq<Byte>, messageName: string, scale: Scaling)
    : Result<seq<DecodedSignal>, DecodeFailure>
  {
    if !Selected(p, selected) then Success([])
    else
      match DecodeSignal(p, data, messageName, scale)
      case Failure(failure) => Failure(failure)
      case Success(decoded) => Success([decoded])
  }

  /** The first failure, or both results in order. */
  function Joined<T, E>(a: Result<seq<T>, E>, b: Result<seq<T>, E>): Result<seq<T>, E> {
    if a.Failure? then a else if b.Failure? then b else Success(a.value + b.value)
  }

  function DecodeSignals(plans: seq<Plan>, selected: Option<int>, data: seq<Byte>, messageName: string, scale: Scaling)
    : Result<seq<DecodedSignal>, DecodeFailure>
  {
    if plans == [] then Success([])
    else
      Joined(
        DecodeIfSelected(plans[0], selected, data, messageName, scale),
        DecodeSignals(plans[1..], selected, data, messageName, scale))
  }

  function DecodeWithPlan(plan: MessagePlan, frame: Frame, scale: Scaling): Result<DecodedFrame, DecodeFailure> {
    var name := plan.message.name;
    if plan.unsupported.Some? then Failure(DecodeUnsupported(name, plan.unsupported.value))
    else if |frame.data| < plan.message.length then
      Failure(PayloadTooShort(name, plan.message.length, |frame.data|))
    else
      var selected := if plan.multiplexer.None? then None else Some(RawValue(plan.multiplexer.value, frame.data));
      match DecodeSignals(plan.signals, selected, frame.data, name, scale)
      case Failure(failure) => Failure(failure)
      case Success(signals) => Success(DecodedFrame(frame, name, signals))
  }

  function DecodeFrame(plans: Plans, frame: Frame, scale: Scaling): Result<DecodedFrame, DecodeFailure> {
    var key := (frame.arbitrationId, frame.isExtended);
    if key !in plans then Failure(MessageNotFound)
    else if plans[key].message.isFd != frame.isFd then Failure(FrameTypeMismatch(plans[key].message.name))
    else DecodeWithPlan(plans[key], frame, scale)
  }
}
