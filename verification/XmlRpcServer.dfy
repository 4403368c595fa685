/** The server: its method table, calls and multicalls, and the responses. */
module XmlRpcServer {
  import opened Text
  import opened XmlRpcUtil
  import opened ValueSyntax
  import opened XmlRpcValueObject
  import opened HttpMessage
  import opened Messages

  /** How the execution of a method ends: with a result, with an exception, or never.
      Methods are arbitrary; `S` is the state they share. */
  datatype Outcome = Returns(value: Value) | Throws(msg: string, code: Int32) | Hangs

  datatype Ran<S> = Ran(state: S, outcome: Outcome)

  type Method<!S> = (S, Value) -> Ran<S>

  const MULTICALL := "system.multicall"

  /** An unset result becomes an empty string. */
  function WithResult<S>(r: Ran<S>): Ran<S> {
    if r.outcome == Returns(VInvalid) then r.(outcome := Returns(VString(""))) else r
  }

  /** `executeMethod`; nothing when there is no such method. */
  function RunMethod<S>(methods: map<string, Method<S>>, state: S, name: string, params: Value): Option<Ran<S>> {
    if name !in methods then None
    else Some(WithResult(methods[name](state, params)))
  }

  // -------------------------------------------------------------------- multicall

  /** A struct's member, if the value is a struct that has it. */
  function MemberOf(v: Value, name: string): Option<Value> {
    if v.VStruct? then MemberNamed(v.members, name) else None
  }

  predicate IsCall(c: Value) {
    MemberOf(c, "methodName").Some? && MemberOf(c, "params").Some?
  }

  /** The method name as a string: an unset one reads as empty, any other type throws. */
  function CallName(c: Value): Option<string>
    requires IsCall(c)
  {
    match MemberOf(c, "methodName").value
    case VString(s) => Some(s)
    case VInvalid => Some("")
    case _ => None
  }

  /** A call whose method name is no string ends the whole multicall with an exception:
      the conversion stands outside the try block. */
  predicate Aborts(c: Value) {
    IsCall(c) && CallName(c).None?
  }

  /** An inner `system.multicall` is executed on the outer parameters, again and again. */
  predicate Recurses<S>(methods: map<string, Method<S>>, c: Value) {
    IsCall(c) && CallName(c) == Some(MULTICALL) && MULTICALL !in methods
  }

  const BAD_CALL := MULTICALL + ": Invalid argument (expected a struct with members methodName and params)"

  /** The slot of one call and the state after it. */
  datatype Slot<S> = Slot(state: S, outcome: Outcome)

  function RunCall<S>(methods: map<string, Method<S>>, state: S, c: Value): Slot<S> {
    if !IsCall(c) then Slot(state, Returns(FaultValue(BAD_CALL, -1)))
    else match CallName(c)
      case None => Slot(state, Throws("type error", -1))
      case Some(name) =>
        match RunMethod(methods, state, name, MemberOf(c, "params").value)
        case Some(Ran(after, Returns(v))) => Slot(after, Returns(VArray([v])))
        case Some(Ran(after, Throws(msg, code))) => Slot(after, Returns(FaultValue(msg, code)))
        case Some(Ran(after, Hangs)) => Slot(after, Hangs)
        case None =>
          if name == MULTICALL then Slot(state, Hangs)
          else Slot(state, Returns(FaultValue(name + ": unknown method name", -1)))
  }

  /** `executeMulticall`'s loop: the slots so far and how it goes on. */
  function RunCalls<S>(methods: map<string, Method<S>>, state: S, calls: seq<Value>, slots: seq<Value>): Ran<S>
    decreases calls
  {
    if calls == [] then Ran(state, Returns(VArray(slots)))
    else
      var slot := RunCall(methods, state, calls[0]);
      if slot.outcome.Returns? then RunCalls(methods, slot.state, calls[1..], slots + [slot.outcome.value])
      else Ran(slot.state, slot.outcome)
  }

  /** `executeMulticall`, for parameters as `parseRequest` delivers them. */
  function RunMulticall<S>(methods: map<string, Method<S>>, state: S, params: Value): Ran<S>
    requires params.VInvalid? || params.VArray?
  {
    if params.VInvalid? then Ran(state, Throws("type error", -1))
    else if |params.items| != 1 || !params.items[0].VArray? then
      Ran(state, Throws(MULTICALL + ": Invalid argument (expected an array)", -1))
    else RunCalls(methods, state, params.items[0].items, [])
  }

  // -------------------------------------------------------------------- responses

  function Response(lib: Library, v: Value): string {
    var body := ResponseBody(Xml(lib, v));
    ServerHeader(body) + body
  }

  function FaultResponse(lib: Library, msg: string, code: Int32): string {
    var body := FaultBody(lib, msg, code);
    ServerHeader(body) + body
  }

  /** How `executeRequest` ends: with a response, never, or in undefined behaviour. */
  datatype Answer<S> = Answer(state: S, response: string) | NoAnswer(state: S) | Crash

  /** What the call leads to, before it is put into a response. */
  function Execute<S>(methods: map<string, Method<S>>, state: S, call: Call): Ran<S>
    requires call.params.VInvalid? || call.params.VArray?
  {
    match RunMethod(methods, state, call.method_, call.params)
    case Some(r) => r
    case None =>
      if call.method_ == MULTICALL then RunMulticall(methods, state, call.params)
      else Ran(state, Throws(call.method_ + ": unknown method name", -1))
  }

  function Respond<S>(lib: Library, r: Ran<S>): Answer<S> {
    match r.outcome
    case Returns(v) => Answer(r.state, Response(lib, v))
    case Throws(msg, code) => Answer(r.state, FaultResponse(lib, msg, code))
    case Hangs => NoAnswer(r.state)
  }

  /** `executeRequest`. */
  function ExecuteRequest<S>(lib: Library, methods: map<string, Method<S>>, state: S, request: string): Answer<S> {
    match ParseRequest(lib, request)
    case None => Crash
    case Some(call) => Respond(lib, Execute(methods, state, call))
  }

  // --------------------------------------------------------- multicall is pointwise

  /** The state in which call number `i` is executed. */
  function StateBefore<S>(methods: map<string, Method<S>>, state: S, calls: seq<Value>, i: nat): S
    requires i <= |calls|
  {
    if i == 0 then state
    else RunCall(methods, StateBefore(methods, state, calls, i - 1), calls[i - 1]).state
  }

  predicate Servable<S>(methods: map<string, Method<S>>, state: S, c: Value) {
    RunCall(methods, state, c).outcome.Returns?
  }

  /** The value a served call puts into its slot. */
  function SlotValue<S>(methods: map<string, Method<S>>, state: S, c: Value): Value {
    var outcome := RunCall(methods, state, c).outcome;
    if outcome.Returns? then outcome.value else VInvalid
  }

  lemma {:induction false} StateBeforeTail<S>(methods: map<string, Method<S>>, state: S, calls: seq<Value>, i: nat)
    requires 0 < i <= |calls|
    ensures StateBefore(methods, state, calls, i)
      == StateBefore(methods, RunCall(methods, state, calls[0]).state, calls[1..], i - 1)
  {
    hide RunCall;
    if i > 1 {
      StateBeforeTail(methods, state, calls, i - 1);
    } else {
      assert StateBefore(methods, state, calls, 0) == state;
    }
  }

  predicate AllServable<S>(methods: map<string, Method<S>>, state: S, calls: seq<Value>) {
    forall i | 0 <= i < |calls| :: Servable(methods, StateBefore(methods, state, calls, i), calls[i])
  }

  lemma AllServableSplit<S>(methods: map<string, Method<S>>, state: S, calls: seq<Value>)
    requires calls != []
    ensures AllServable(methods, state, calls) <==>
      Servable(methods, state, calls[0]) && AllServable(methods, RunCall(methods, state, calls[0]).state, calls[1..])
  {
    hide RunCall, Servable, StateBefore;
    var next := RunCall(methods, state, calls[0]).state;
    StateBeforeStart(methods, state, calls);
    forall i | 0 < i < |calls|
      ensures Servable(methods, StateBefore(methods, state, calls, i), calls[i])
        <==> Servable(methods, StateBefore(methods, next, calls[1..], i - 1), calls[1..][i - 1])
    {
      StateBeforeTail(methods, state, calls, i);
    }
    if Servable(methods, state, calls[0]) && AllServable(methods, next, calls[1..]) {
      forall i | 0 <= i < |calls| ensures Servable(methods, StateBefore(methods, state, calls, i), calls[i]) {
        assert i > 0 ==> Servable(methods, StateBefore(methods, next, calls[1..], i - 1), calls[1..][i - 1]);
      }
    }
    if AllServable(methods, state, calls) {
      assert Servable(methods, StateBefore(methods, state, calls, 0), calls[0]);
      forall i | 0 <= i < |calls[1..]|
        ensures Servable(methods, StateBefore(methods, next, calls[1..], i), calls[1..][i])
      {
        assert Servable(methods, StateBefore(methods, state, calls, i + 1), calls[i + 1]);
      }
    }
  }

  lemma StateBeforeStart<S>(methods: map<string, Method<S>>, state: S, calls: seq<Value>)
    ensures StateBefore(methods, state, calls, 0) == state
  {
  }

  /** The loop on servable calls: it appends one slot for each call, in order. */
  lemma {:induction false} SlotsInOrder<S>(
      methods: map<string, Method<S>>, state: S, calls: seq<Value>, slots: seq<Value>)
      returns (added: seq<Value>)
    requires AllServable(methods, state, calls)
    ensures RunCalls(methods, state, calls, slots)
      == Ran(StateBefore(methods, state, calls, |calls|), Returns(VArray(slots + added)))
    ensures |added| == |calls|
    ensures forall i | 0 <= i < |calls| ::
      added[i] == SlotValue(methods, StateBefore(methods, state, calls, i), calls[i])
    decreases calls
  {
    hide RunCall, StateBefore, AllServable;
    StateBeforeStart(methods, state, calls);
    if calls == [] {
      added := [];
      assert slots + added == slots;
    } else {
      AllServableSplit(methods, state, calls);
      var slot := RunCall(methods, state, calls[0]);
      var rest := SlotsInOrder(methods, slot.state, calls[1..], slots + [slot.outcome.value]);
      added := [slot.outcome.value] + rest;
      assert slots + [slot.outcome.value] + rest == slots + added;
      StateBeforeTail(methods, state, calls, |calls|);
      forall i | 0 <= i < |calls|
        ensures added[i] == SlotValue(methods, StateBefore(methods, state, calls, i), calls[i])
      {
        if i > 0 {
          StateBeforeTail(methods, state, calls, i);
          assert rest[i - 1]
            == SlotValue(methods, StateBefore(methods, slot.state, calls[1..], i - 1), calls[1..][i - 1]);
        }
      }
    }
  }

  lemma {:induction false} UnservableEnds<S>(
      methods: map<string, Method<S>>, state: S, calls: seq<Value>, slots: seq<Value>)
    requires !AllServable(methods, state, calls)
    ensures !RunCalls(methods, state, calls, slots).outcome.Returns?
    decreases calls
  {
    hide RunCall, AllServable;
    if calls == [] {
      NothingToServe(methods, state);
    } else {
      AllServableSplit(methods, state, calls);
      var slot := RunCall(methods, state, calls[0]);
      if slot.outcome.Returns? {
        UnservableEnds(methods, slot.state, calls[1..], slots + [slot.outcome.value]);
      }
    }
  }

  lemma NothingToServe<S>(methods: map<string, Method<S>>, state: S)
    ensures AllServable(methods, state, [])
  {
  }

  /** A multicall returns if and only if each of its calls can be served; then it has
      one slot for each call, in order, each filled by executing that call in the
      state its predecessors left. */
  lemma MulticallPointwise<S>(methods: map<string, Method<S>>, state: S, calls: seq<Value>)
    ensures var r := RunMulticall(methods, state, VArray([VArray(calls)]));
      && (r.outcome.Returns? <==> AllServable(methods, state, calls))
      && (r.outcome.Returns? ==>
           && r.state == StateBefore(methods, state, calls, |calls|)
           && r.outcome.value.VArray? && |r.outcome.value.items| == |calls|
           && forall i | 0 <= i < |calls| ::
                r.outcome.value.items[i] == SlotValue(methods, StateBefore(methods, state, calls, i), calls[i]))
  {
    hide RunCall, StateBefore, AllServable, RunCalls;
    var none: seq<Value> := [];
    if AllServable(methods, state, calls) {
      var added := SlotsInOrder(methods, state, calls, none);
      assert none + added == added;
    } else {
      UnservableEnds(methods, state, calls, none);
    }
  }

  /** What fills a slot: the one-element array of the result, or the fault of the
      exception, of the member named, given the parameters named, in the state at that
      point; and a call cannot be served exactly if its name is no string, or it names
      an unregistered multicall, or its method does not return. */
  lemma SlotOfCall<S>(methods: map<string, Method<S>>, state: S, c: Value)
    ensures Servable(methods, state, c) <==>
      !Aborts(c) && !Recurses(methods, c) &&
      (IsCall(c) && CallName(c).Some? && CallName(c).value in methods ==>
         !methods[CallName(c).value](state, MemberOf(c, "params").value).outcome.Hangs?)
    ensures Aborts(c) ==> RunCall(methods, state, c).outcome == Throws("type error", -1)
    ensures IsCall(c) && CallName(c).Some? ==>
      match RunMethod(methods, state, CallName(c).value, MemberOf(c, "params").value)
      case Some(r) =>
        && RunCall(methods, state, c).state == r.state
        && (r.outcome.Returns? ==>
             RunCall(methods, state, c).outcome == Returns(VArray([r.outcome.value])) && r.outcome.value != VInvalid)
        && (r.outcome.Throws? ==>
             RunCall(methods, state, c).outcome == Returns(FaultValue(r.outcome.msg, r.outcome.code)))
      case None => RunCall(methods, state, c).state == state
    ensures IsCall(c) && CallName(c).Some? && CallName(c).value !in methods && CallName(c).value != MULTICALL ==>
      RunCall(methods, state, c) == Slot(state, Returns(FaultValue(CallName(c).value + ": unknown method name", -1)))
    ensures !IsCall(c) ==> RunCall(methods, state, c) == Slot(state, Returns(FaultValue(BAD_CALL, -1)))
  {
    hide MemberOf, FaultValue;
  }

  // ------------------------------------------------------------- calls as explicit structs

  /** A call as clients send it. */
  function CallStruct(name: string, params: Value): Value {
    VStruct([Member("methodName", VString(name)), Member("params", params)])
  }

  /** The struct of a fault's code and text. */
  function FaultStruct(msg: string, code: Int32): Value {
    VStruct([Member("faultCode", VInt(code)), Member("faultString", VString(msg))])
  }

  lemma FaultIsStruct(msg: string, code: Int32)
    ensures FaultValue(msg, code) == FaultStruct(msg, code)
  {
  }

  /** The slot of such a call, from its name and parameters alone. */
  lemma ExplicitSlot<S>(methods: map<string, Method<S>>, state: S, name: string, params: Value)
    ensures var slot := RunCall(methods, state, CallStruct(name, params));
      if name in methods then
        var r := methods[name](state, params);
        && slot.state == r.state
        && (r.outcome == Returns(VInvalid) ==> slot.outcome == Returns(VArray([VString("")])))
        && (r.outcome.Returns? && r.outcome != Returns(VInvalid) ==>
             slot.outcome == Returns(VArray([r.outcome.value])))
        && (r.outcome.Throws? ==> slot.outcome == Returns(FaultStruct(r.outcome.msg, r.outcome.code)))
        && (r.outcome.Hangs? ==> slot.outcome == Hangs)
      else if name == "system.multicall" then slot == Slot(state, Hangs)
      else slot == Slot(state, Returns(FaultStruct(name + ": unknown method name", -1)))
  {
    hide FaultValue;
    CallMembers(name, params);
    FaultIsStruct(name + ": unknown method name", -1);
    if name in methods && methods[name](state, params).outcome.Throws? {
      var r := methods[name](state, params);
      FaultIsStruct(r.outcome.msg, r.outcome.code);
    }
  }

  lemma CallMembers(name: string, params: Value)
    ensures MemberOf(CallStruct(name, params), "methodName") == Some(VString(name))
    ensures MemberOf(CallStruct(name, params), "params") == Some(params)
  {
    NamedCall(VString(name), params);
  }

  lemma NamedCall(name: Value, params: Value)
    ensures var c := VStruct([Member("methodName", name), Member("params", params)]);
      MemberOf(c, "methodName") == Some(name) && MemberOf(c, "params") == Some(params)
  {
    var ms := [Member("methodName", name), Member("params", params)];
    assert ms[1..] == [Member("params", params)];
    assert |ms[0].name| != |"params"|;
    assert MemberNamed(ms[1..], "params") == Some(params);
  }

  /** A value that is no struct with these two members. */
  predicate LacksMember(c: Value) {
    c.VStruct? ==>
      (forall m | m in c.members :: m.name != "methodName") || (forall m | m in c.members :: m.name != "params")
  }

  lemma LacksIsNoCall(c: Value)
    requires c.VStruct? ==> Ascending(c.members)
    ensures LacksMember(c) <==> !IsCall(c)
  {
    hide Ascending, MemberNamed;
    if c.VStruct? {
      MemberNamedExactly(c.members, "methodName", VNil);
      MemberNamedExactly(c.members, "params", VNil);
    }
  }

  lemma NoCallSlot<S>(methods: map<string, Method<S>>, state: S, c: Value)
    requires c.VStruct? ==> Ascending(c.members)
    requires LacksMember(c)
    ensures RunCall(methods, state, c) == Slot(state, Returns(FaultStruct(
      "system.multicall" + ": Invalid argument (expected a struct with members methodName and params)", -1)))
  {
    hide IsCall, LacksMember, Ascending, FaultValue, FaultStruct, RunMethod;
    LacksIsNoCall(c);
    FaultIsStruct(BAD_CALL, -1);
  }

  /** An unset method name is that of the empty method; any other value that is no string
      makes the whole multicall end with an exception. */
  lemma UnnamedSlot<S>(methods: map<string, Method<S>>, state: S, name: Value, params: Value)
    requires !name.VString?
    ensures var slot := RunCall(methods, state, VStruct([Member("methodName", name), Member("params", params)]));
      slot == if name.VInvalid? then RunCall(methods, state, CallStruct("", params))
        else Slot(state, Throws("type error", -1))
  {
    hide FaultValue, MemberNamed, RunMethod;
    NamedCall(name, params);
    NamedCall(VString(""), params);
  }

  function CallStructs(calls: seq<(string, Value)>): (r: seq<Value>)
    ensures |r| == |calls| && forall i | 0 <= i < |calls| :: r[i] == CallStruct(calls[i].0, calls[i].1)
  {
    seq(|calls|, i requires 0 <= i < |calls| => CallStruct(calls[i].0, calls[i].1))
  }

  /** The state behind the methods of the first `i` calls, run one after the other. */
  function StateAfter<S>(methods: map<string, Method<S>>, state: S, calls: seq<(string, Value)>, i: nat): S
    requires i <= |calls|
  {
    if i == 0 then state
    else
      var before, (name, params) := StateAfter(methods, state, calls, i - 1), calls[i - 1];
      if name in methods then methods[name](before, params).state else before
  }

  lemma {:induction false} StatesAgree<S>(
      methods: map<string, Method<S>>, state: S, calls: seq<(string, Value)>, i: nat)
    requires i <= |calls|
    ensures StateBefore(methods, state, CallStructs(calls), i) == StateAfter(methods, state, calls, i)
    decreases i
  {
    hide RunCall, CallStructs, CallStruct;
    if i == 0 {
    } else {
      StatesAgree(methods, state, calls, i - 1);
      ExplicitSlot(methods, StateAfter(methods, state, calls, i - 1), calls[i - 1].0, calls[i - 1].1);
    }
  }

  /** A multicall of such calls returns if and only if each names a method that returns or
      throws, or no method and not the multicall; slot `i` then holds what the method of
      call `i` gives on its parameters, in the state that the calls before have left. */
  lemma ExplicitMulticall<S>(methods: map<string, Method<S>>, state: S, calls: seq<(string, Value)>)
    ensures var r := RunMulticall(methods, state, VArray([VArray(CallStructs(calls))]));
      && (r.outcome.Returns? <==> forall i | 0 <= i < |calls| ::
           if calls[i].0 in methods then
             !methods[calls[i].0](StateAfter(methods, state, calls, i), calls[i].1).outcome.Hangs?
           else calls[i].0 != "system.multicall")
      && (r.outcome.Returns? ==>
           && r.state == StateAfter(methods, state, calls, |calls|)
           && r.outcome.value.VArray? && |r.outcome.value.items| == |calls|
           && forall i | 0 <= i < |calls| ::
                FillsSlot(methods, StateAfter(methods, state, calls, i), calls[i], r.outcome.value.items[i]))
  {
    hide RunCall, RunMulticall, CallStructs, CallStruct, StateBefore, StateAfter;
    var cs := CallStructs(calls);
    MulticallPointwise(methods, state, cs);
    forall i | 0 <= i <= |calls| ensures StateBefore(methods, state, cs, i) == StateAfter(methods, state, calls, i) {
      StatesAgree(methods, state, calls, i);
    }
    forall i | 0 <= i < |calls|
      ensures var before := StateAfter(methods, state, calls, i);
        && (Servable(methods, before, cs[i]) <==>
             if calls[i].0 in methods then !methods[calls[i].0](before, calls[i].1).outcome.Hangs?
             else calls[i].0 != "system.multicall")
        && (Servable(methods, before, cs[i]) ==>
           FillsSlot(methods, before, calls[i], SlotValue(methods, before, cs[i])))
    {
      ExplicitSlot(methods, StateAfter(methods, state, calls, i), calls[i].0, calls[i].1);
    }
  }

  predicate FillsSlot<S>(methods: map<string, Method<S>>, before: S, call: (string, Value), slot: Value) {
    if call.0 in methods then
      match methods[call.0](before, call.1).outcome
      case Returns(v) => slot == VArray([if v == VInvalid then VString("") else v])
      case Throws(msg, code) => slot == FaultStruct(msg, code)
      case Hangs => false
    else slot == FaultStruct(call.0 + ": unknown method name", -1)
  }

  // ------------------------------------------------------- a multicall in a multicall

  /** The loop as it is written, from call number `i` on: an inner multicall runs the whole
      loop again on the outer parameters, at most `depth` deep; nothing when that is not
      deep enough. */
  function RunDeep<S>(
      methods: map<string, Method<S>>, state: S, calls: seq<Value>, i: nat, slots: seq<Value>,
      depth: nat): Option<Ran<S>>
    requires i <= |calls|
    decreases depth, |calls| - i
  {
    if i == |calls| then Some(Ran(state, Returns(VArray(slots))))
    else if Recurses(methods, calls[i]) then
      if depth == 0 then None
      else match RunDeep(methods, state, calls, 0, [], depth - 1)
        case None => None
        case Some(Ran(after, Returns(v))) => RunDeep(methods, after, calls, i + 1, slots + [VArray([v])], depth)
        case Some(Ran(after, Throws(msg, code))) =>
          RunDeep(methods, after, calls, i + 1, slots + [FaultValue(msg, code)], depth)
        case Some(Ran(after, Hangs)) => Some(Ran(after, Hangs))
    else
      var slot := RunCall(methods, state, calls[i]);
      if slot.outcome.Returns? then RunDeep(methods, slot.state, calls, i + 1, slots + [slot.outcome.value], depth)
      else Some(Ran(slot.state, slot.outcome))
  }

  predicate NeverReturns<S>(r: Option<Ran<S>>) {
    r.None? || r.value.outcome.Hangs?
  }

  /** What a single call does, however deep. */
  lemma CallOutcomes<S>(methods: map<string, Method<S>>, state: S, c: Value)
    ensures RunCall(methods, state, c).outcome.Throws? ==> Aborts(c)
    ensures Recurses(methods, c) ==> RunCall(methods, state, c) == Slot(state, Hangs) && !Aborts(c)
  {
    hide MemberOf, FaultValue;
  }

  /** Behind calls that end nothing, an inner multicall exhausts every depth. */
  lemma {:induction false} InnerExhausts<S>(
      methods: map<string, Method<S>>, state: S, calls: seq<Value>, i: nat, j: nat, slots: seq<Value>, depth: nat)
    requires i <= j < |calls| && Recurses(methods, calls[j]) && forall k | 0 <= k < j :: !Aborts(calls[k])
    ensures NeverReturns(RunDeep(methods, state, calls, i, slots, depth))
    decreases depth, j - i
  {
    hide RunCall, Recurses, Aborts, FaultValue;
    if Recurses(methods, calls[i]) {
      if depth > 0 {
        InnerExhausts(methods, state, calls, 0, j, [], depth - 1);
      }
    } else {
      var slot := RunCall(methods, state, calls[i]);
      CallOutcomes(methods, state, calls[i]);
      if slot.outcome.Returns? {
        InnerExhausts(methods, slot.state, calls, i + 1, j, slots + [slot.outcome.value], depth);
      }
    }
  }

  /** That an inner multicall never returns is so of the loop as it is written: where
      `RunCalls` says that it hangs no depth brings a result, and else every depth
      brings the same one. */
  lemma {:induction false} DepthExactly<S>(
      methods: map<string, Method<S>>, state: S, calls: seq<Value>, i: nat, slots: seq<Value>, depth: nat)
    requires i <= |calls| && forall k | 0 <= k < i :: !Aborts(calls[k])
    ensures var r, d := RunCalls(methods, state, calls[i..], slots), RunDeep(methods, state, calls, i, slots, depth);
      if r.outcome.Hangs? then NeverReturns(d) else d == Some(r)
    decreases |calls| - i
  {
    hide RunCall, Recurses, Aborts, FaultValue;
    if i == |calls| {
    } else {
      assert calls[i..][0] == calls[i] && calls[i..][1..] == calls[i + 1..];
      var slot := RunCall(methods, state, calls[i]);
      CallOutcomes(methods, state, calls[i]);
      if Recurses(methods, calls[i]) {
        InnerExhausts(methods, state, calls, i, i, slots, depth);
      } else if slot.outcome.Returns? {
        ReturnsNotAborts(methods, state, calls[i]);
        DepthExactly(methods, slot.state, calls, i + 1, slots + [slot.outcome.value], depth);
      }
    }
  }

  lemma ReturnsNotAborts<S>(methods: map<string, Method<S>>, state: S, c: Value)
    requires RunCall(methods, state, c).outcome.Returns?
    ensures !Aborts(c)
  {
    hide MemberOf, FaultValue;
  }

  // ------------------------------------------------------------- the table of methods

  /** The call of the name with these parameters is read by the server as it was made. */
  predicate Arrives(lib: Library, name: string, params: Value) {
    && !Contains(name, Close("methodName")) && SendableParams(params)
    && ClientId(RequestBody(lib, name, params)).Some?
  }

  /** An added method is the one that answers the calls of its name. */
  lemma AddedMethodAnswers<S>(
      lib: Library, methods: map<string, Method<S>>, state: S, name: string, m: Method<S>, params: Value)
    requires Arrives(lib, name, params)
    ensures ExecuteRequest(lib, methods[name := m], state, RequestBody(lib, name, params))
      == Respond(lib, WithResult(m(state, Arrived(params))))
    ensures m(state, Arrived(params)).outcome == Returns(VInvalid) ==>
      ExecuteRequest(lib, methods[name := m], state, RequestBody(lib, name, params))
        == Answer(m(state, Arrived(params)).state, Response(lib, VString("")))
    ensures m(state, Arrived(params)).outcome != Returns(VInvalid) ==>
      ExecuteRequest(lib, methods[name := m], state, RequestBody(lib, name, params))
        == Respond(lib, m(state, Arrived(params)))
  {
    hide ParseRequest, Contains, RequestBody, SendableParams, Arrived, Response, FaultResponse;
    RequestRoundTrip(lib, name, params);
  }

  /** A request that calls neither the method of the name nor the multicall. */
  predicate CallsOther(lib: Library, request: string, name: string) {
    var call := ParseRequest(lib, request);
    call.Some? ==> call.value.method_ != name && call.value.method_ != MULTICALL
  }

  /** Such requests are answered as before. */
  lemma OtherMethodsAnswer<S>(
      lib: Library, methods: map<string, Method<S>>, changed: map<string, Method<S>>, state: S, name: string,
      request: string)
    requires CallsOther(lib, request, name)
    requires changed - {name} == methods - {name}
    ensures ExecuteRequest(lib, changed, state, request) == ExecuteRequest(lib, methods, state, request)
  {
    hide ParseRequest, Respond;
    var call := ParseRequest(lib, request);
    if call.Some? {
      Elsewhere(methods, changed, name, call.value.method_);
    }
  }

  lemma Elsewhere<T, U>(before: map<T, U>, after: map<T, U>, key: T, other: T)
    requires after - {key} == before - {key} && other != key
    ensures (other in after <==> other in before) && (other in before ==> after[other] == before[other])
  {
    assert other in after <==> other in after - {key};
    assert other in before <==> other in before - {key};
  }

  /** Calls of a removed method are answered with a fault, and execute nothing. */
  lemma RemovedMethodFaults<S>(lib: Library, methods: map<string, Method<S>>, state: S, name: string, params: Value)
    requires Arrives(lib, name, params) && name != MULTICALL
    ensures ExecuteRequest(lib, methods - {name}, state, RequestBody(lib, name, params))
      == Answer(state, FaultResponse(lib, name + ": unknown method name", -1))
  {
    hide ParseRequest, Contains, RequestBody, SendableParams, Arrived, FaultResponse;
    RequestRoundTrip(lib, name, params);
  }

  /** A multicall whose parameters are not one array is answered with a fault, without any
      of them: "type error" if there are none at all. */
  lemma BadArguments<S>(lib: Library, methods: map<string, Method<S>>, state: S, params: Value)
    requires Arrives(lib, "system.multicall", params) && "system.multicall" !in methods
    ensures Arrived(params).VInvalid? ==>
      ExecuteRequest(lib, methods, state, RequestBody(lib, "system.multicall", params))
        == Answer(state, FaultResponse(lib, "type error", -1))
    ensures Arrived(params).VArray? && (|Arrived(params).items| != 1 || !Arrived(params).items[0].VArray?) ==>
      ExecuteRequest(lib, methods, state, RequestBody(lib, "system.multicall", params))
        == Answer(state, FaultResponse(lib, "system.multicall" + ": Invalid argument (expected an array)", -1))
  {
    hide ParseRequest, Contains, RequestBody, SendableParams, Arrived, FaultResponse;
    RequestRoundTrip(lib, "system.multicall", params);
  }

  // ------------------------------------------------------------------- the object

  /** `class XmlRpcServer`, with the state that its methods share. */
  class Server<S> {
    var methods: map<string, Method<S>>
    var state: S
    const lib: Library

    constructor (lib: Library, state: S)
      ensures this.lib == lib && this.state == state && methods == map[]
    {
      this.lib, this.state, methods := lib, state, map[];
    }

    /** `addMethod` replaces a method of the same name: it answers the calls of that name
        from now on, and no other call is answered otherwise. */
    method AddMethod(name: string, m: Method<S>)
      modifies this
      ensures methods == old(methods)[name := m] && state == old(state)
      ensures forall params | Arrives(lib, name, params) ::
        ExecuteRequest(lib, methods, state, RequestBody(lib, name, params))
          == Respond(lib, WithResult(m(state, Arrived(params))))
      ensures forall request | CallsOther(lib, request, name) ::
        ExecuteRequest(lib, methods, state, request) == ExecuteRequest(lib, old(methods), state, request)
    {
      hide ExecuteRequest, Arrives, CallsOther, Respond, Arrived;
      ghost var before := methods;
      methods := methods[name := m];
      forall params | Arrives(lib, name, params)
        ensures ExecuteRequest(lib, methods, state, RequestBody(lib, name, params))
          == Respond(lib, WithResult(m(state, Arrived(params))))
      {
        AddedMethodAnswers(lib, before, state, name, m, params);
      }
      forall request | CallsOther(lib, request, name)
        ensures ExecuteRequest(lib, methods, state, request) == ExecuteRequest(lib, before, state, request)
      {
        OtherMethodsAnswer(lib, before, methods, state, name, request);
      }
    }

    /** `removeMethod`: calls of the name get a fault from now on, and no other call is
        answered otherwise. */
    method RemoveMethod(name: string)
      modifies this
      ensures methods == old(methods) - {name} && state == old(state)
      ensures name != MULTICALL ==> forall params | Arrives(lib, name, params) ::
        ExecuteRequest(lib, methods, state, RequestBody(lib, name, params))
          == Answer(state, FaultResponse(lib, name + ": unknown method name", -1))
      ensures forall request | CallsOther(lib, request, name) ::
        ExecuteRequest(lib, methods, state, request) == ExecuteRequest(lib, old(methods), state, request)
    {
      hide ExecuteRequest, Arrives, CallsOther, FaultResponse;
      ghost var before := methods;
      if name in methods {
        methods := methods - {name};
      }
      assert methods == before - {name};
      if name != MULTICALL {
        forall params | Arrives(lib, name, params)
          ensures ExecuteRequest(lib, methods, state, RequestBody(lib, name, params))
            == Answer(state, FaultResponse(lib, name + ": unknown method name", -1))
        {
          RemovedMethodFaults(lib, before, state, name, params);
        }
      }
      forall request | CallsOther(lib, request, name)
        ensures ExecuteRequest(lib, methods, state, request) == ExecuteRequest(lib, before, state, request)
      {
        OtherMethodsAnswer(lib, before, methods, state, name, request);
      }
    }

    /** The client's identification at the start of `parseRequest`, kept for display. */
    method ReadClientId(request: string) returns (id: Option<string>)
      ensures id == ClientId(request)
    {
      id := Some("UNKNOWN");
      var idPtr := Find(request, ID_MARK, 0);
      if idPtr.Some? {
        var start := idPtr.value + |ID_MARK|;
        var end := Find(request, "?", start);
        if end.Some? {
          var client := request[start..end.value];
          if client != "" && client[0] == '"' { client := client[1..]; }
          if client == "" {
            return None;
          }
          if client[|client| - 1] == '"' { client := client[..|client| - 1]; }
          id := Some(client);
        }
      }
    }

    /** `parseRequest`. */
    method ReadCall(request: string) returns (call: Option<Call>)
      ensures call == ParseRequest(lib, request)
    {
      hide FindElement, FindStartTag, ParseParams, ClientId;
      var id := ReadClientId(request);
      if id.None? {
        return None;
      }
      var found, offset, name := ParseTag("methodName", request, 0, "");
      var emptyTag;
      if found {
        var section;
        section, offset, emptyTag := FindTag("params", request, offset);
        if section && !emptyTag {
          var items := ReadParameters(request, offset);
          return if items.None? then None else Some(Call(name, ParamsValue(items.value)));
        }
      }
      return Some(Call(name, VInvalid));
    }

    /** The parameter loop of `parseRequest`. */
    method ReadParameters(request: string, offset: nat) returns (params: Option<seq<Value>>)
      requires offset <= |request|
      ensures params == ParseParams(lib, request, offset)
    {
      hide NextTag, NextEndTag, ParseValue, ParseParams, ParamRead;
      var items := [];
      NoneBefore(ParseParams(lib, request, offset));
      ParamsStep(lib, request, offset, items);
      var found, o, emptyTag := NextTagIs("param", request, offset);
      while found
        invariant offset <= o <= |request|
        invariant ParseParams(lib, request, offset) ==
          if found then AfterParamTag(lib, request, o, emptyTag, items) else Some(items)
        decreases Left(request, o), found
      {
        var v;
        v, o := ReadParameter(request, o, emptyTag);
        if v.None? {
          return None;
        }
        items := items + [v.value];
        ParamsStep(lib, request, o, items);
        found, o, emptyTag := NextTagIs("param", request, o);
      }
      params := Some(items);
    }

    /** Nothing where the reading is undefined. */
    method ReadParameter(request: string, inner: nat, emptyTag: bool) returns (v: Option<Value>, o: nat)
      requires inner <= |request|
      ensures inner <= o <= |request|
      ensures ParamRead(lib, request, inner, emptyTag) == if v.None? then NoParam else Param(v.value, o)
    {
      hide NextTag, NextEndTag, ParseValue;
      if emptyTag {
        return Some(VString("")), inner;
      }
      var val := new XmlRpcValue();
      var defined, ok, skipped;
      defined, ok, o := val.FromXml(lib, request, inner);
      if !defined {
        return None, inner;
      }
      v := Some(if ok then val.value else VInvalid);
      skipped, o := NextTagIsEnd("param", request, o);
    }

    method ExecuteMethod(name: string, params: Value) returns (found: bool, outcome: Outcome)
      modifies this
      ensures methods == old(methods)
      ensures found <==> RunMethod(methods, old(state), name, params).Some?
      ensures found ==> RunMethod(methods, old(state), name, params) == Some(Ran(state, outcome))
      ensures !found ==> state == old(state)
    {
      if name !in methods {
        return false, Hangs;
      }
      var r := methods[name](state, params);
      state, outcome := r.state, r.outcome;
      if outcome == Returns(VInvalid) {
        outcome := Returns(VString(""));
      }
      found := true;
    }

    /** The body of `executeMulticall`'s loop for one call. */
    method ExecuteCall(c: Value) returns (outcome: Outcome)
      modifies this
      ensures methods == old(methods)
      ensures Slot(state, outcome) == RunCall(methods, old(state), c)
    {
      hide MemberOf, FaultValue;
      if !IsCall(c) {
        return Returns(FaultValue(BAD_CALL, -1));
      }
      var name := CallName(c);
      if name.None? {
        return Throws("type error", -1);
      }
      var found, result := ExecuteMethod(name.value, MemberOf(c, "params").value);
      if !found {
        if name.value == MULTICALL {
          return Hangs;
        }
        return Returns(FaultValue(name.value + ": unknown method name", -1));
      }
      match result {
        case Returns(v) => outcome := Returns(VArray([v]));
        case Throws(msg, code) => outcome := Returns(FaultValue(msg, code));
        case Hangs => outcome := Hangs;
      }
    }

    method ExecuteMulticall(params: Value) returns (outcome: Outcome)
      requires params.VInvalid? || params.VArray?
      modifies this
      ensures methods == old(methods)
      ensures Ran(state, outcome) == RunMulticall(methods, old(state), params)
    {
      hide RunCall;
      if params.VInvalid? {
        return Throws("type error", -1);
      }
      if |params.items| != 1 || !params.items[0].VArray? {
        return Throws(MULTICALL + ": Invalid argument (expected an array)", -1);
      }
      var calls := params.items[0].items;
      var result := [];
      var i := 0;
      assert calls[0..] == calls;
      while i < |calls|
        invariant i <= |calls| && methods == old(methods)
        invariant RunCalls(methods, old(state), calls, []) == RunCalls(methods, state, calls[i..], result)
      {
        assert calls[i..][1..] == calls[i + 1..];
        var slot := ExecuteCall(calls[i]);
        if !slot.Returns? {
          return slot;
        }
        result := result + [slot.value];
        i := i + 1;
      }
      return Returns(VArray(result));
    }

    /** `executeRequest`; there is no response when a method does not return, and nothing
        is promised where the parsing is undefined. */
    method HandleRequest(request: string) returns (defined: bool, responded: bool, response: string)
      modifies this
      ensures methods == old(methods)
      ensures (if !defined then Crash else if responded then Answer(state, response) else NoAnswer(state))
        == ExecuteRequest(lib, methods, old(state), request)
    {
      hide RunMulticall, RunMethod, FaultBody, ResponseBody, ServerHeader, Xml, ParseRequest;
      response := "";
      var parsed := ReadCall(request);
      if parsed.None? {
        return false, false, "";
      }
      defined := true;
      var call := parsed.value;
      var found, outcome := ExecuteMethod(call.method_, call.params);
      if !found {
        if call.method_ == MULTICALL {
          outcome := ExecuteMulticall(call.params);
        } else {
          outcome := Throws(call.method_ + ": unknown method name", -1);
        }
      }
      match outcome {
        case Returns(v) =>
          var xml := XmlRpcValue.Print(lib, v);
          response := ServerHeader(ResponseBody(xml)) + ResponseBody(xml);
          responded := true;
        case Throws(msg, code) =>
          response := FaultResponse(lib, msg, code);
          responded := true;
        case Hangs => responded := false;
      }
    }
  }

  /** One round of `parseRequest`'s loop, from behind a `<param>` tag. */
  datatype Param = Param(value: Value, next: nat) | NoParam

  function ParamRead(lib: Library, xml: string, inner: nat, empty: bool): (r: Param)
    requires inner <= |xml|
    ensures r.Param? ==> inner <= r.next <= |xml|
  {
    if empty then Param(VString(""), inner)
    else match ParseValue(lib, xml, inner)
      case Undefined => NoParam
      case Failed => Param(VInvalid, SkipEndTag("param", xml, inner))
      case Parsed(v, end) => Param(v, SkipEndTag("param", xml, end))
  }

  /** Parameters behind others. */
  function ParamsBehind(sofar: seq<Value>, rest: Option<seq<Value>>): Option<seq<Value>> {
    match rest
    case None => None
    case Some(vs) => Some(sofar + vs)
  }

  function AfterParamTag(lib: Library, xml: string, inner: nat, empty: bool, sofar: seq<Value>): Option<seq<Value>>
    requires inner <= |xml|
  {
    match ParamRead(lib, xml, inner, empty)
    case NoParam => None
    case Param(v, next) => ParamsBehind(sofar + [v], ParseParams(lib, xml, next))
  }

  lemma NoneBefore(params: Option<seq<Value>>)
    ensures ParamsBehind([], params) == params
  {
    if params.Some? {
      assert [] + params.value == params.value;
    }
  }

  lemma ParamsStep(lib: Library, xml: string, o: nat, sofar: seq<Value>)
    requires o <= |xml|
    ensures var t := NextTag("param", xml, o);
      ParamsBehind(sofar, ParseParams(lib, xml, o))
        == if t.NoTag? then Some(sofar) else AfterParamTag(lib, xml, t.end, t.empty, sofar)
  {
    hide ParseValue, NextTag, SkipEndTag;
    var t := NextTag("param", xml, o);
    if t.NoTag? {
      assert sofar + [] == sofar;
    } else {
      var p := ParamRead(lib, xml, t.end, t.empty);
      if p.Param? && ParseParams(lib, xml, p.next).Some? {
        var vs := ParseParams(lib, xml, p.next).value;
        assert sofar + ([p.value] + vs) == sofar + [p.value] + vs;
      }
    }
  }
}
