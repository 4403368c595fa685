/** A call from the client's parameters to the server's method and back: every byte in
    between may arrive in any fragments. */
module EndToEnd {
  import opened Text
  import opened XmlRpcUtil
  import opened ValueSyntax
  import opened XmlRpcCodec
  import opened HttpHeader
  import opened HttpMessage
  import opened Messages
  import opened Framing
  import opened ServerSession
  import opened ServerHub
  import opened XmlRpcServer
  import XmlRpcClient

  // -------------------------------------------------------------- text without NUL

  /** No member name holds a NUL. */
  predicate NulFreeNames(v: Value) {
    match v
    case VArray(items) => forall i | 0 <= i < |items| :: NulFreeNames(items[i])
    case VStruct(ms) => forall i | 0 <= i < |ms| :: NulFree(ms[i].name) && NulFreeNames(ms[i].value)
    case _ => true
  }

  /** A value whose printed form survives the journey. */
  predicate Transportable(v: Value) {
    Sendable(v) && NulFreeNames(v)
  }

  lemma NulFreeConcat(a: string, b: string)
    ensures NulFree(a + b) <==> NulFree(a) && NulFree(b)
  {
  }

  lemma WrapNulFree(tag: string, body: string)
    requires NulFree(tag) && NulFree(body)
    ensures NulFree(Wrap(tag, body))
  {
  }

  lemma TagsNulFree()
    ensures NulFree("value") && NulFree("<nil/>") && NulFree("boolean") && NulFree("0") && NulFree("1") && NulFree("i4")
    ensures NulFree("array") && NulFree("data") && NulFree("struct") && NulFree("member") && NulFree("name")
    ensures NulFree("param") && NulFree("params") && NulFree("methodName")
  {
  }

  lemma DecimalNulFree(n: int)
    ensures NulFree(Decimal(n))
  {
    hide Decimal;
    forall i | 0 <= i < |Decimal(n)| ensures Decimal(n)[i] != '\0' {
      DigitsAreClean(n, i);
    }
  }

  lemma {:induction false} XmlNulFree(lib: Library, v: Value)
    requires Plain(v) && NulFreeText(v) && NulFreeNames(v)
    ensures NulFree(Xml(lib, v))
    decreases v, 0
  {
    hide NulFree, Wrap, Encode, Decimal, Ascending;
    TagsNulFree();
    match v
    case VInvalid => EmptyNulFree();
    case VNil => WrapNulFree("value", "<nil/>");
    case VBool(b) =>
      WrapNulFree("boolean", if b then "1" else "0");
      WrapNulFree("value", Wrap("boolean", if b then "1" else "0"));
    case VInt(n) =>
      DecimalNulFree(n);
      WrapNulFree("i4", Decimal(n));
      WrapNulFree("value", Wrap("i4", Decimal(n)));
    case VString(s) =>
      EncodedIsText(s);
      WrapNulFree("value", Encode(s));
    case VArray(items) =>
      ItemsNulFree(lib, items);
      WrapNulFree("data", ItemsXml(lib, items));
      WrapNulFree("array", Wrap("data", ItemsXml(lib, items)));
      WrapNulFree("value", Wrap("array", Wrap("data", ItemsXml(lib, items))));
    case VStruct(ms) =>
      MembersNulFree(lib, ms);
      WrapNulFree("struct", MembersXml(lib, ms));
      WrapNulFree("value", Wrap("struct", MembersXml(lib, ms)));
  }

  lemma EmptyNulFree()
    ensures NulFree("")
  {
  }

  lemma {:induction false} ItemsNulFree(lib: Library, items: seq<Value>)
    requires forall i | 0 <= i < |items| :: Plain(items[i]) && NulFreeText(items[i]) && NulFreeNames(items[i])
    ensures NulFree(ItemsXml(lib, items))
    decreases items, 1
  {
    hide NulFree, Plain, NulFreeText, NulFreeNames, Xml;
    if items == [] {
      EmptyNulFree();
    } else {
      XmlNulFree(lib, items[0]);
      ItemsNulFree(lib, items[1..]);
      NulFreeConcat(Xml(lib, items[0]), ItemsXml(lib, items[1..]));
    }
  }

  lemma {:induction false} MembersNulFree(lib: Library, ms: seq<Member>)
    requires forall i | 0 <= i < |ms| ::
      NulFree(ms[i].name) && Plain(ms[i].value) && NulFreeText(ms[i].value) && NulFreeNames(ms[i].value)
    ensures NulFree(MembersXml(lib, ms))
    decreases ms, 1
  {
    hide NulFree, Plain, NulFreeText, NulFreeNames, Xml, Wrap, Encode;
    if ms == [] {
      EmptyNulFree();
    } else {
      var m := ms[0];
      TagsNulFree();
      XmlNulFree(lib, m.value);
      EncodedIsText(m.name);
      WrapNulFree("name", Encode(m.name));
      NulFreeConcat(Wrap("name", Encode(m.name)), Xml(lib, m.value));
      WrapNulFree("member", Wrap("name", Encode(m.name)) + Xml(lib, m.value));
      MembersNulFree(lib, ms[1..]);
      NulFreeConcat(MemberXml(lib, m), MembersXml(lib, ms[1..]));
    }
  }

  lemma {:induction false} ParamsNulFree(lib: Library, items: seq<Value>)
    requires forall i | 0 <= i < |items| :: Transportable(items[i])
    ensures NulFree(ParamsXml(lib, items))
  {
    hide NulFree, Plain, NulFreeText, NulFreeNames, Xml, Wrap, Valued, CleanNames;
    if items == [] {
      EmptyNulFree();
    } else {
      TagsNulFree();
      XmlNulFree(lib, items[0]);
      WrapNulFree("param", Xml(lib, items[0]));
      ParamsNulFree(lib, items[1..]);
      NulFreeConcat(Wrap("param", Xml(lib, items[0])), ParamsXml(lib, items[1..]));
    }
  }

  // ------------------------------------------------------------------- the request

  /** A call as `execute` is given it. */
  predicate Callable(name: string, params: Value) {
    && NulFree(name) && !Contains(name, Close("methodName"))
    && (params.VInvalid? || forall i | 0 <= i < |Arguments(params)| :: Transportable(Arguments(params)[i]))
  }

  function RequestMessage(lib: Library, uri: string, host: string, port: Int32, name: string, params: Value): Message {
    var body := RequestBody(lib, name, params);
    Message(ClientHeader(uri, host, port, body), body)
  }

  lemma BodyNulFree(lib: Library, name: string, params: Value)
    requires Callable(name, params)
    ensures NulFree(RequestBody(lib, name, params))
  {
    hide NulFree, Wrap, ParamsXml, Transportable, Contains;
    PartsNulFree();
    TagsNulFree();
    WrapNulFree("methodName", name);
    EmptyNulFree();
    if !params.VInvalid? {
      ParamsNulFree(lib, Arguments(params));
      WrapNulFree("params", ParamsXml(lib, Arguments(params)));
    }
    var w := Wrap("methodName", name);
    var p := if params.VInvalid? then "" else Wrap("params", ParamsXml(lib, Arguments(params)));
    NulFreeConcat(PROLOG, "<methodCall>");
    NulFreeConcat(PROLOG + "<methodCall>", w);
    NulFreeConcat(PROLOG + "<methodCall>" + w, "\r\n");
    NulFreeConcat(PROLOG + "<methodCall>" + w + "\r\n", p);
    NulFreeConcat(PROLOG + "<methodCall>" + w + "\r\n" + p, "</methodCall>\r\n");
  }

  lemma PartsNulFree()
    ensures NulFree(PROLOG) && NulFree("<methodCall>") && NulFree("\r\n") && NulFree("</methodCall>\r\n")
  {
  }

  /** The request is framed for the server, if its body's length fits an `int`, and its
      body is read as the call that was made. */
  lemma RequestArrives(lib: Library, uri: string, host: string, port: Int32, name: string, params: Value)
    requires Callable(name, params) && NoLineEnd(uri) && NoLineEnd(host)
    requires ClientId(RequestBody(lib, name, params)).Some?
    ensures var q := RequestMessage(lib, uri, host, port, name, params);
      && (WellFramed(q, false) <==> |q.body| < 0x8000_0000)
      && ParseRequest(lib, q.body) == Some(Call(name, Arrived(params)))
  {
    hide NulFree, RequestBody, ClientHeader, ScanText, IsHeader, Atoi, Plain, RoundTrips, NulFreeNames, Contains,
      ParseRequest, ClientId;
    var q := RequestMessage(lib, uri, host, port, name, params);
    BodyNulFree(lib, name, params);
    BodyLayout(lib, name, params);
    ClientHeaderFrames(uri, host, port, q.body, false);
    RequestRoundTrip(lib, name, params);
  }

  // ------------------------------------------------------------------ the response

  /** A reply that can be carried: a transportable result, or an exception's text
      without NUL. */
  predicate Answerable(o: Outcome) {
    match o
    case Returns(v) => Transportable(v)
    case Throws(msg, _) => NulFree(msg)
    case Hangs => false
  }

  lemma AnswerEnds(o: Outcome)
    requires Answerable(o)
    ensures !o.Hangs?
  {
  }

  function ResponseMessage(lib: Library, o: Outcome): Message
    requires !o.Hangs?
  {
    var body := match o
      case Returns(v) => ResponseBody(Xml(lib, v))
      case Throws(msg, code) => FaultBody(lib, msg, code);
    Message(ServerHeader(body), body)
  }

  /** What `execute` is to deliver. */
  function ReplyTo(o: Outcome): Reply
    requires !o.Hangs?
  {
    match o
    case Returns(v) => Reply(true, v, false)
    case Throws(msg, code) => Reply(true, FaultValue(msg, code), true)
  }

  lemma FaultNamesNulFree(msg: string, code: Int32)
    ensures NulFreeNames(FaultValue(msg, code))
  {
    var ms := FaultValue(msg, code).members;
    assert NulFree("faultCode") && NulFree("faultString");
    assert NulFreeNames(ms[0].value) && NulFreeNames(ms[1].value);
  }

  lemma ResponseNulFree(lib: Library, o: Outcome)
    requires Answerable(o)
    ensures NulFree(ResponseMessage(lib, o).body)
  {
    hide NulFree, FaultValue, Plain, NulFreeText, NulFreeNames, Valued, CleanNames, Xml;
    ResponsePartsNulFree();
    match o
    case Returns(v) =>
      XmlNulFree(lib, v);
      Around3(PROLOG + "<methodResponse><params><param>\r\n\t", Xml(lib, v),
        "\r\n</param></params></methodResponse>\r\n");
    case Throws(msg, code) =>
      FaultSendable(msg, code);
      FaultNamesNulFree(msg, code);
      XmlNulFree(lib, FaultValue(msg, code));
      Around3(PROLOG + "<methodResponse><fault>\r\n\t", Xml(lib, FaultValue(msg, code)),
        "\r\n</fault></methodResponse>\r\n");
  }

  lemma Around3(a: string, b: string, c: string)
    ensures NulFree(a + b + c) <==> NulFree(a) && NulFree(b) && NulFree(c)
  {
  }

  lemma ResponsePartsNulFree()
    ensures NulFree(PROLOG + "<methodResponse><params><param>\r\n\t")
      && NulFree("\r\n</param></params></methodResponse>\r\n")
    ensures NulFree(PROLOG + "<methodResponse><fault>\r\n\t") && NulFree("\r\n</fault></methodResponse>\r\n")
  {
    hide NulFree;
    PartsNulFree();
    ResultHeadNulFree();
    ResultTailNulFree();
    FaultHeadNulFree();
    FaultTailNulFree();
    NulFreeConcat(PROLOG, "<methodResponse><params><param>\r\n\t");
    NulFreeConcat(PROLOG, "<methodResponse><fault>\r\n\t");
  }

  lemma ResultHeadNulFree()
    ensures NulFree("<methodResponse><params><param>\r\n\t")
  {
  }

  lemma ResultTailNulFree()
    ensures NulFree("\r\n</param></params></methodResponse>\r\n")
  {
  }

  lemma FaultHeadNulFree()
    ensures NulFree("<methodResponse><fault>\r\n\t")
  {
  }

  lemma FaultTailNulFree()
    ensures NulFree("\r\n</fault></methodResponse>\r\n")
  {
  }

  /** The response is framed for the client, if its body's length fits an `int`, and its
      body is read as the reply that was given. */
  lemma ResponseArrives(lib: Library, o: Outcome)
    requires Answerable(o)
    ensures var q := ResponseMessage(lib, o);
      && (WellFramed(q, true) <==> |q.body| < 0x8000_0000)
      && ParseResponse(lib, q.body) == Some(ReplyTo(o))
  {
    hide NulFree, ResponseBody, FaultBody, ServerHeader, ScanText, IsHeader, Atoi, Sendable, NulFreeNames,
      ParseResponse, Xml, FaultValue;
    var q := ResponseMessage(lib, o);
    ResponseNulFree(lib, o);
    ServerHeaderFrames(q.body, true);
    NonemptyResponse(lib, o);
    match o
    case Returns(v) => ResponseRoundTrip(lib, v);
    case Throws(msg, code) => FaultRoundTrip(lib, msg, code);
  }

  lemma NonemptyResponse(lib: Library, o: Outcome)
    requires !o.Hangs?
    ensures ResponseMessage(lib, o).body != ""
  {
    hide Xml;
  }

  // ------------------------------------------------------------------ one execution

  /** `executeRequest` as the connections use it. The blanks stand for answers that do not
      come, from a method that does not return or from undefined behaviour. */
  function Served<S>(state: S, a: Answer<S>): (S, string) {
    match a
    case Answer(after, response) => (after, response)
    case NoAnswer(after) => (after, " ")
    case Crash => (state, " ")
  }

  function Exec<S>(lib: Library, methods: map<string, Method<S>>): (S, string) -> (S, string) {
    (state: S, request: string) => Served(state, ExecuteRequest(lib, methods, state, request))
  }

  lemma ExecIs<S>(lib: Library, methods: map<string, Method<S>>, state: S, body: string)
    ensures Exec(lib, methods)(state, body) == Served(state, ExecuteRequest(lib, methods, state, body))
  {
    hide ExecuteRequest;
  }

  lemma ExecAnswers<S(!new)>(lib: Library, methods: map<string, Method<S>>)
    ensures Answers(Exec(lib, methods))
  {
    hide ExecuteRequest, Exec;
    forall state: S, body ensures Exec(lib, methods)(state, body).1 != "" {
      ResponseNotEmpty(lib, methods, state, body);
      ExecIs(lib, methods, state, body);
    }
  }

  lemma ResponseNotEmpty<S>(lib: Library, methods: map<string, Method<S>>, state: S, body: string)
    ensures var a := ExecuteRequest(lib, methods, state, body); a.Answer? ==> a.response != ""
  {
    hide Execute, ParseRequest, ServerHeader, Xml;
  }

  /** A call as `execute` makes it. */
  datatype Target = Target(uri: string, host: string, port: Int32, name: string, params: Value)

  function MessageOf(lib: Library, t: Target): Message {
    RequestMessage(lib, t.uri, t.host, t.port, t.name, t.params)
  }

  function TextOf(lib: Library, t: Target): string {
    XmlRpcClient.RequestText(lib, t.uri, t.host, t.port, t.name, t.params)
  }

  /** The call's text can be framed and read, and its connection is kept. */
  predicate CallFits(lib: Library, t: Target) {
    && Callable(t.name, t.params) && NoLineEnd(t.uri) && NoLineEnd(t.host)
    && ClientId(RequestBody(lib, t.name, t.params)).Some? && |RequestBody(lib, t.name, t.params)| < 0x8000_0000
    && KeptAlive(MessageOf(lib, t))
  }

  /** What the call leads to in a state of the server. */
  function RanIn<S>(methods: map<string, Method<S>>, state: S, t: Target): Ran<S> {
    Execute(methods, state, Call(t.name, Arrived(t.params)))
  }

  /** The answer to it can be carried. */
  predicate AnswerFits(lib: Library, o: Outcome) {
    Answerable(o) && |ResponseMessage(lib, o).body| < 0x8000_0000
  }

  lemma AnswerEndsWell(lib: Library, o: Outcome)
    requires AnswerFits(lib, o)
    ensures Answerable(o) && !o.Hangs? && ReplyTo(o).ok
  {
    hide ResponseMessage;
  }

  /** Executing the request's body is executing the call, and its answer is the response. */
  lemma BodyExecuted<S>(lib: Library, methods: map<string, Method<S>>, state: S, t: Target)
    requires CallFits(lib, t) && AnswerFits(lib, RanIn(methods, state, t).outcome)
    ensures !RanIn(methods, state, t).outcome.Hangs?
    ensures var ran := RanIn(methods, state, t); var q := ResponseMessage(lib, ran.outcome);
      && Exec(lib, methods)(state, MessageOf(lib, t).body) == (ran.state, q.Bytes())
      && WellFramed(q, true) && ParseResponse(lib, q.body) == Some(ReplyTo(ran.outcome))
  {
    hide RequestMessage, ParseRequest, ParseResponse, Execute, Judged, WellFramed, Callable, Answerable, Exec,
      ServerHeader, Xml, RequestBody, ReplyTo;
    var ran := RanIn(methods, state, t);
    AnswerEnds(ran.outcome);
    RequestArrives(lib, t.uri, t.host, t.port, t.name, t.params);
    ResponseArrives(lib, ran.outcome);
    ExecIs(lib, methods, state, MessageOf(lib, t).body);
  }

  lemma CallFramed(lib: Library, t: Target)
    requires CallFits(lib, t)
    ensures WellFramed(MessageOf(lib, t), false) && KeptAlive(MessageOf(lib, t))
  {
    hide ParseRequest, Judged, WellFramed, Callable, RequestBody, ClientHeader;
    RequestArrives(lib, t.uri, t.host, t.port, t.name, t.params);
  }

  lemma TextIsMessage(lib: Library, t: Target)
    ensures TextOf(lib, t) == MessageOf(lib, t).Bytes() && TextOf(lib, t) != ""
  {
    hide RequestBody, ClientHeader;
    TextBegins(lib, t.name, t.params);
  }

  lemma TextBegins(lib: Library, name: string, params: Value)
    ensures |RequestBody(lib, name, params)| > 0
  {
    hide Wrap, ParamsXml;
  }
}
