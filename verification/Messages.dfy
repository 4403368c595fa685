/** The bodies of calls and responses: what each side writes and how the other side
    takes it apart. */
module Messages {
  import opened Text
  import opened XmlRpcUtil
  import opened ValueSyntax
  import opened Spellings
  import opened XmlRpcCodec

  // --------------------------------------------------------------------- the call

  const PROLOG := "<?xml version=\"1.0\"?>\r\n"

  function ParamsXml(lib: Library, items: seq<Value>): string {
    if items == [] then "" else Wrap("param", Xml(lib, items[0])) + ParamsXml(lib, items[1..])
  }

  /** The values that `generateRequest` prints for a parameter value: the elements of
      an array, or the value itself. */
  function Arguments(params: Value): seq<Value> {
    if params.VArray? then params.items else [params]
  }

  /** `XmlRpcClient::generateRequest`, the body. */
  function RequestBody(lib: Library, method_: string, params: Value): string {
    PROLOG + "<methodCall>" + Wrap("methodName", method_) + "\r\n"
      + (if params.VInvalid? then "" else Wrap("params", ParamsXml(lib, Arguments(params))))
      + "</methodCall>\r\n"
  }

  datatype Call = Call(method_: string, params: Value)

  function Joined(v: Value, rest: Option<seq<Value>>): Option<seq<Value>> {
    match rest
    case None => None
    case Some(vs) => Some([v] + vs)
  }

  /** The `<param>` elements from `o` on. A parameter that cannot be read is unset; one
      whose reading is undefined leaves everything undefined. */
  function ParseParams(lib: Library, xml: string, o: nat): Option<seq<Value>>
    requires o <= |xml|
    decreases Left(xml, o)
  {
    match NextTag("param", xml, o)
    case NoTag => Some([])
    case Tag(inner, empty) =>
      if empty then Joined(VString(""), ParseParams(lib, xml, inner))
      else match ParseValue(lib, xml, inner)
        case Undefined => None
        case Failed => Joined(VInvalid, ParseParams(lib, xml, SkipEndTag("param", xml, inner)))
        case Parsed(v, end) => Joined(v, ParseParams(lib, xml, SkipEndTag("param", xml, end)))
  }

  function ParamsValue(items: seq<Value>): Value {
    if items == [] then VInvalid else VArray(items)
  }

  const ID_MARK := "<?clientid="

  /** The client's identification in a request, at the start of `parseRequest`: what stands
      between its mark and the next question mark, without quotation marks around it.
      Nothing where the code then looks at the last character of an empty text. */
  function ClientId(request: string): Option<string> {
    match Find(request, ID_MARK, 0)
    case None => Some("UNKNOWN")
    case Some(p) =>
      match Find(request, "?", p + |ID_MARK|)
      case None => Some("UNKNOWN")
      case Some(end) =>
        var id := request[p + |ID_MARK|..end];
        var inner := if id != "" && id[0] == '"' then id[1..] else id;
        if inner == "" then None
        else Some(if inner[|inner| - 1] == '"' then inner[..|inner| - 1] else inner)
  }

  /** `XmlRpcServer::parseRequest`; nothing where its behaviour is undefined. */
  function ParseRequest(lib: Library, xml: string): (r: Option<Call>)
    ensures r.Some? ==> r.value.params.VInvalid? || r.value.params.VArray?
  {
    if ClientId(xml).None? then None
    else match FindElement("methodName", xml, 0)
    case NoElement => Some(Call("", VInvalid))
    case Element(o, name) =>
      match FindStartTag("params", xml, o)
      case NoTag => Some(Call(name, VInvalid))
      case Tag(inner, empty) =>
        if empty then Some(Call(name, VInvalid))
        else match ParseParams(lib, xml, inner)
          case None => None
          case Some(items) => Some(Call(name, ParamsValue(items)))
  }

  /** What arrives for what was sent: an array stays one unless it is empty, a single
      value becomes an array of one. */
  function Arrived(params: Value): Value {
    if params.VInvalid? then VInvalid else ParamsValue(Arguments(params))
  }

  predicate Sendable(v: Value) {
    Plain(v) && RoundTrips(v)
  }

  predicate SendableParams(params: Value) {
    params.VInvalid? || forall i | 0 <= i < |Arguments(params)| :: Sendable(Arguments(params)[i])
  }

  // ---------------------------------------------------------------- searching text

  /** A search may start at any point before the first occurrence. */
  lemma {:induction false} FindLater(s: string, t: string, from: nat, i: nat)
    requires from <= i && i + |t| <= |s| && forall j | from <= j < i :: !At(s, j, t)
    ensures Find(s, t, from) == Find(s, t, i)
    decreases i - from
  {
    hide At;
    if from == i {
    } else {
      FindLater(s, t, from + 1, i);
    }
  }

  lemma FindElementLater(tag: string, xml: string, from: nat, i: nat)
    requires from <= i && i + |tag| + 1 <= |xml| && forall j | from <= j < i :: !At(xml, j, "<" + tag)
    ensures FindStartTag(tag, xml, from) == FindStartTag(tag, xml, i)
    ensures FindElement(tag, xml, from) == FindElement(tag, xml, i)
  {
    hide At, Find;
    FindLater(xml, "<" + tag, from, i);
  }

  /** No tag starts inside text without '<'. */
  lemma NoTagInside(s: string, o: nat, t: string, tag: string)
    requires At(s, o, t) && '<' !in t
    ensures o + |t| <= |s| && forall j | o <= j < o + |t| :: !At(s, j, "<" + tag)
  {
    hide At;
    AtBound(s, o, t);
    forall j | o <= j < o + |t| ensures !At(s, j, "<" + tag) {
      AtIndex(s, o, t, j - o);
      assert t[j - o] in t;
      AtOpen(s, j, tag);
    }
  }

  /** No tag starts at a '<' that is followed by something else. */
  lemma NoTagAt(s: string, o: nat, t: string, tag: string, k: nat)
    requires At(s, o, "<" + t) && k < |t| && k < |tag| && t[k] != tag[k]
    ensures !At(s, o, "<" + tag)
  {
    hide At;
    if At(s, o, "<" + tag) {
      AtIndex(s, o, "<" + tag, k + 1);
      AtIndex(s, o, "<" + t, k + 1);
    }
  }

  /** Nothing but the prolog's and one further '<' precede `o`: no `<tag` does. */
  lemma NoTagInProlog(s: string, tag: string)
    requires At(s, 0, PROLOG) && tag != "" && tag[0] != '?'
    ensures |PROLOG| == 23 <= |s| && forall j | 0 <= j < 23 :: !At(s, j, "<" + tag)
  {
    hide At;
    var rest := "?xml version=\"1.0\"?>\r\n";
    assert PROLOG == "<" + rest;
    AtConcat(s, 0, "<", rest);
    NoTagAt(s, 0, rest, tag, 0);
    assert '<' !in rest;
    NoTagInside(s, 1, rest, tag);
  }

  lemma NameStart(s: string)
    requires At(s, 0, PROLOG) && At(s, 23, "<methodCall>") && At(s, 35, Open("methodName"))
    ensures FindStartTag("methodName", s, 0) == Tag(47, false)
  {
    hide At, FindStartTag;
    NoTagInProlog(s, "methodName");
    var call := "methodCall>";
    assert "<methodCall>" == "<" + call;
    NoTagAt(s, 23, call, "methodName", 6);
    AtConcat(s, 23, "<", call);
    assert '<' !in call;
    NoTagInside(s, 24, call, "methodName");
    AtBound(s, 35, Open("methodName"));
    FindElementLater("methodName", s, 0, 35);
    FindStartTagAt("methodName", s, 35);
  }

  /** `FindElement` from the start of a call finds the method name. */
  lemma MethodNameFound(s: string, name: string)
    requires At(s, 0, PROLOG) && At(s, 23, "<methodCall>") && At(s, 35, Wrap("methodName", name))
    requires !Contains(name, Close("methodName"))
    ensures FindElement("methodName", s, 0) == Element(|name| + 60, name)
  {
    hide At, FindStartTag, Wrap, Find;
    AtWrap(s, 35, "methodName", name);
    NameStart(s);
    NameEndsFirst(s, 47, name);
    FindIs(s, Close("methodName"), 47, 47 + |name|);
    AtText(s, 47, name);
  }

  /** The end tag cannot straddle the end of the name: it starts with its only '<'. */
  lemma NameEndsFirst(s: string, o: nat, name: string)
    requires At(s, o, name) && At(s, o + |name|, Close("methodName"))
    requires !Contains(name, Close("methodName"))
    ensures forall j | o <= j < o + |name| :: !At(s, j, Close("methodName"))
  {
    hide At;
    var e := Close("methodName");
    AtBound(s, o, name);
    forall j | o <= j < o + |name| ensures !At(s, j, e) {
      if At(s, j, e) {
        if j + |e| <= o + |name| {
          AtInner(s, o, name, j - o, e);
        } else {
          var k := o + |name| - j;
          AtIndex(s, j, e, k);
          AtIndex(s, o + |name|, e, 0);
          CloseHasOneLt(k);
        }
      }
    }
  }

  lemma CloseHasOneLt(k: nat)
    requires 0 < k < |Close("methodName")|
    ensures Close("methodName")[k] != '<'
  {
    var tail := "/methodName>";
    assert Close("methodName") == "<" + tail;
    assert '<' !in tail;
    assert Close("methodName")[k] == tail[k - 1];
  }

  // ----------------------------------------------------------- reading a call back

  lemma {:induction false} ReadParams(lib: Library, items: seq<Value>, s: string, o: nat)
    requires forall i | 0 <= i < |items| :: Sendable(items[i])
    requires At(s, o, ParamsXml(lib, items)) && At(s, o + |ParamsXml(lib, items)|, Close("params"))
    ensures o <= |s| && ParseParams(lib, s, o) == Some(items)
    decreases items
  {
    hide At, Xml, Plain, RoundTrips, ParseValue, NextTag, NextEndTag;
    AtBound(s, o, ParamsXml(lib, items));
    if items == [] {
      AtBound(s, o, Close("params"));
      AtClose(s, o, "params");
      NextTagDiffers("param", s, o, 0);
    } else {
      var x := Xml(lib, items[0]);
      AtConcat(s, o, Wrap("param", x), ParamsXml(lib, items[1..]));
      AtWrap(s, o, "param", x);
      NextTagAtOpen("param", s, o);
      RoundTrip(lib, items[0], s, o + 7);
      NextEndTagAtClose("param", s, o + 7 + |x|);
      ReadParams(lib, items[1..], s, o + |Wrap("param", x)|);
      assert items == [items[0]] + items[1..];
    }
  }

  lemma BodyLayout(lib: Library, name: string, params: Value)
    ensures var s := RequestBody(lib, name, params); var o := |name| + 60;
      && At(s, 0, PROLOG) && At(s, 23, "<methodCall>") && At(s, 35, Wrap("methodName", name)) && At(s, o, "\r\n")
      && (params.VInvalid? ==> At(s, o + 2, "</methodCall>\r\n") && |s| == o + 17)
      && (!params.VInvalid? ==> At(s, o + 2, Wrap("params", ParamsXml(lib, Arguments(params)))))
  {
    hide At, ParamsXml, Wrap;
    var s := RequestBody(lib, name, params);
    var w := Wrap("methodName", name);
    WrapLength("methodName", name);
    var p := if params.VInvalid? then "" else Wrap("params", ParamsXml(lib, Arguments(params)));
    var e := "</methodCall>\r\n";
    AtWhole(s);
    AtConcat(s, 0, PROLOG + "<methodCall>" + w + "\r\n" + p, e);
    AtConcat(s, 0, PROLOG + "<methodCall>" + w + "\r\n", p);
    AtConcat(s, 0, PROLOG + "<methodCall>" + w, "\r\n");
    AtConcat(s, 0, PROLOG + "<methodCall>", w);
    AtConcat(s, 0, PROLOG, "<methodCall>");
  }

  lemma AtWhole(s: string)
    ensures At(s, 0, s)
  {
  }

  lemma WrapLength(tag: string, body: string)
    ensures |Wrap(tag, body)| == |body| + 2 * |tag| + 5
  {
  }

  /** The parameter section is found directly behind the method name. */
  lemma ParamsFound(lib: Library, s: string, o: nat, items: seq<Value>)
    requires At(s, o, "\r\n") && At(s, o + 2, Wrap("params", ParamsXml(lib, items)))
    requires forall i | 0 <= i < |items| :: Sendable(items[i])
    ensures FindStartTag("params", s, o) == Tag(o + 10, false)
    ensures o + 10 <= |s| && ParseParams(lib, s, o + 10) == Some(items)
  {
    hide At, ParamsXml, ParseParams, FindStartTag, Wrap;
    AtWrap(s, o + 2, "params", ParamsXml(lib, items));
    assert '<' !in "\r\n";
    NoTagInside(s, o, "\r\n", "params");
    FindElementLater("params", s, o, o + 2);
    FindStartTagAt("params", s, o + 2);
    ReadParams(lib, items, s, o + 10);
  }

  /** A call without a parameter section has no tag named "params" behind its name. */
  lemma NoParamsFound(s: string, o: nat)
    requires At(s, o, "\r\n") && At(s, o + 2, "</methodCall>\r\n") && |s| == o + 17
    ensures FindStartTag("params", s, o) == NoTag
  {
    hide At;
    var rest := "/methodCall>\r\n";
    assert "</methodCall>\r\n" == "<" + rest;
    assert '<' !in rest && '<' !in "\r\n";
    AtConcat(s, o + 2, "<", rest);
    NoTagInside(s, o, "\r\n", "params");
    NoTagAt(s, o + 2, rest, "params", 0);
    NoTagInside(s, o + 3, rest, "params");
  }

  /** What the client calls is what the server reads: the method name and every
      parameter, for every name that does not hold its own end tag. */
  lemma RequestRoundTrip(lib: Library, name: string, params: Value)
    requires !Contains(name, Close("methodName")) && SendableParams(params)
    requires ClientId(RequestBody(lib, name, params)).Some?
    ensures ParseRequest(lib, RequestBody(lib, name, params)) == Some(Call(name, Arrived(params)))
  {
    hide At, RequestBody, ParseParams, FindStartTag, FindElement, Contains, Sendable, ParamsXml, Wrap, ClientId;
    var s := RequestBody(lib, name, params);
    BodyLayout(lib, name, params);
    MethodNameFound(s, name);
    if params.VInvalid? {
      NoParamsFound(s, |name| + 60);
    } else {
      ParamsFound(lib, s, |name| + 60, Arguments(params));
    }
  }

  /** The method name arrives if and only if it does not hold its own end tag, nor an empty
      client identification; see `ClientIdentification`. */
  lemma MethodNameExactly(lib: Library, name: string, params: Value)
    requires SendableParams(params)
    ensures var r := ParseRequest(lib, RequestBody(lib, name, params));
      (r.Some? && r.value.method_ == name) <==>
      !Contains(name, Close("methodName")) && ClientId(RequestBody(lib, name, params)).Some?
  {
    hide At, RequestBody, Sendable, ParseParams, FindStartTag, ParamsXml, Wrap, ClientId;
    var e := Close("methodName");
    if Contains(name, e) {
      var s := RequestBody(lib, name, params);
      BodyLayout(lib, name, params);
      var p :| 0 <= p <= |name| && At(name, p, e);
      AtBound(name, p, e);
      AtWrap(s, 35, "methodName", name);
      AtInner(s, 47, name, p, e);
      NameStart(s);
      var end := Find(s, e, 47);
      assert end.Some? && end.value <= 47 + p;
    } else if ClientId(RequestBody(lib, name, params)).Some? {
      RequestRoundTrip(lib, name, params);
    }
  }

  // ------------------------------------------------------------------ the response

  /** `XmlRpcServer::generateResponse`, the body around a printed result. */
  function ResponseBody(resultXml: string): string {
    PROLOG + "<methodResponse><params><param>\r\n\t" + resultXml + "\r\n</param></params></methodResponse>\r\n"
  }

  function FaultValue(msg: string, code: Int32): Value {
    VStruct([Member("faultCode", VInt(code)), Member("faultString", VString(msg))])
  }

  /** `XmlRpcServer::generateFaultResponse`, the body. */
  function FaultBody(lib: Library, msg: string, code: Int32): string {
    PROLOG + "<methodResponse><fault>\r\n\t" + Xml(lib, FaultValue(msg, code)) + "\r\n</fault></methodResponse>\r\n"
  }

  /** What `parseResponse` returns, the result it sets, and whether it is a fault. */
  datatype Reply = Reply(ok: bool, value: Value, fault: bool)

  const NO_REPLY := Reply(false, VInvalid, false)

  /** `parseResponse`; nothing where its behaviour is undefined. */
  function ParseResponse(lib: Library, xml: string): Option<Reply> {
    var response := FindStartTag("methodResponse", xml, 0);
    if response.NoTag? || response.empty then Some(NO_REPLY)
    else
      var params := NextTag("params", xml, response.end);
      var param := if params.Tag? then NextTag("param", xml, params.end) else NoTag;
      if param.Tag? then
        if param.empty then Some(Reply(true, VInt(0), false))
        else match ParseValue(lib, xml, param.end)
          case Undefined => None
          case Failed => Some(NO_REPLY)
          case Parsed(v, _) => Some(Reply(true, v, false))
      else
        var fault := NextTag("fault", xml, if params.Tag? then params.end else response.end);
        if fault.NoTag? then Some(NO_REPLY)
        else if fault.empty then Some(Reply(false, VInt(0), true))
        else match ParseValue(lib, xml, fault.end)
          case Undefined => None
          case Failed => Some(Reply(false, VInt(0), true))
          case Parsed(v, _) => Some(Reply(true, v, true))
  }

  /** White space before a value changes nothing. */
  lemma SpacesSkipped(lib: Library, s: string, o: nat, w: string)
    requires At(s, o, w) && o + |w| < |s| && !IsSpace(s[o + |w|])
    requires forall i | 0 <= i < |w| :: IsSpace(w[i])
    ensures ParseValue(lib, s, o) == ParseValue(lib, s, o + |w|)
  {
    hide At, ParseTyped, NextEndTag, ParseString, Closed;
    forall i | o <= i < o + |w| ensures IsSpace(s[i]) {
      AtIndex(s, o, w, i - o);
    }
    SkipsTo(s, o, o + |w|);
    SkipsTo(s, o + |w|, o + |w|);
  }

  lemma {:induction false} SkipsTo(s: string, o: nat, end: nat)
    requires o <= end < |s| && !IsSpace(s[end])
    requires forall i | o <= i < end :: IsSpace(s[i])
    ensures SkipSpaces(s, o) == end
    decreases end - o
  {
    if o == end {
    } else {
      SkipsTo(s, o + 1, end);
    }
  }

  /** A printed value behind "\r\n\t" is read. */
  lemma ReadIndented(lib: Library, v: Value, s: string, o: nat)
    requires Sendable(v) && At(s, o, "\r\n\t") && At(s, o + 3, Xml(lib, v))
    ensures ParseValue(lib, s, o) == Parsed(v, o + 3 + |Xml(lib, v)|)
  {
    hide At, Xml, ParseValue, Plain, NulFreeText, CleanNames, Valued;
    RoundTrip(lib, v, s, o + 3);
    AtPrinted(lib, s, o + 3, v);
    AtOpen(s, o + 3, "value");
    AtBound(s, o + 3, Open("value"));
    SpacesSkipped(lib, s, o, "\r\n\t");
  }

  /** The response element is found behind the prolog. */
  lemma ResponseFound(s: string)
    requires At(s, 0, PROLOG) && At(s, 23, Open("methodResponse"))
    ensures FindStartTag("methodResponse", s, 0) == Tag(39, false)
  {
    hide At, FindStartTag;
    NoTagInProlog(s, "methodResponse");
    AtBound(s, 23, Open("methodResponse"));
    FindElementLater("methodResponse", s, 0, 23);
    FindStartTagAt("methodResponse", s, 23);
  }

  lemma BodyPieces(head: string, x: string, tail: string)
    ensures var s := PROLOG + head + x + tail;
      At(s, 0, PROLOG) && At(s, |PROLOG|, head) && At(s, |PROLOG| + |head|, x)
  {
    hide At;
    var s := PROLOG + head + x + tail;
    AtWhole(s);
    AtConcat(s, 0, PROLOG + head + x, tail);
    AtConcat(s, 0, PROLOG + head, x);
    AtConcat(s, 0, PROLOG, head);
  }

  lemma ResponseLayout(x: string)
    ensures var s := ResponseBody(x);
      && At(s, 0, PROLOG) && At(s, 23, Open("methodResponse")) && At(s, 39, Open("params"))
      && At(s, 47, Open("param")) && At(s, 54, "\r\n\t") && At(s, 57, x)
  {
    hide At;
    var s := ResponseBody(x);
    var head := "<methodResponse><params><param>\r\n\t";
    BodyPieces(head, x, "\r\n</param></params></methodResponse>\r\n");
    ResponseHead();
    AtConcat(s, 23, Open("methodResponse") + Open("params") + Open("param"), "\r\n\t");
    AtConcat3(s, 23, Open("methodResponse"), Open("params"), Open("param"));
  }

  lemma ResponseHead()
    ensures Open("methodResponse") + Open("params") + Open("param") + "\r\n\t"
      == "<methodResponse><params><param>\r\n\t"
  {
    assert Open("methodResponse") == "<methodResponse>";
    assert "<methodResponse>" + Open("params") == "<methodResponse><params>";
  }

  /** What the server returns is what the client gets. */
  lemma ResponseRoundTrip(lib: Library, v: Value)
    requires Sendable(v)
    ensures ParseResponse(lib, ResponseBody(Xml(lib, v))) == Some(Reply(true, v, false))
  {
    hide At, Xml, ParseValue, NextTag, FindStartTag, ResponseBody, Sendable;
    var s := ResponseBody(Xml(lib, v));
    ResponseLayout(Xml(lib, v));
    ResponseFound(s);
    NextTagAtOpen("params", s, 39);
    NextTagAtOpen("param", s, 47);
    ReadIndented(lib, v, s, 54);
  }

  lemma FaultLayout(lib: Library, msg: string, code: Int32)
    ensures var s := FaultBody(lib, msg, code);
      && At(s, 0, PROLOG) && At(s, 23, Open("methodResponse")) && At(s, 39, Open("fault"))
      && At(s, 46, "\r\n\t") && At(s, 49, Xml(lib, FaultValue(msg, code)))
  {
    hide At, Xml, FaultValue;
    var s := FaultBody(lib, msg, code);
    var x := Xml(lib, FaultValue(msg, code));
    var head := "<methodResponse><fault>\r\n\t";
    BodyPieces(head, x, "\r\n</fault></methodResponse>\r\n");
    assert head == Open("methodResponse") + "<fault>\r\n\t";
    AtConcat(s, 23, Open("methodResponse"), "<fault>\r\n\t");
    assert "<fault>\r\n\t" == Open("fault") + "\r\n\t";
    AtConcat(s, 39, Open("fault"), "\r\n\t");
  }

  lemma FaultSendable(msg: string, code: Int32)
    ensures Plain(FaultValue(msg, code)) && Valued(FaultValue(msg, code)) && CleanNames(FaultValue(msg, code))
    ensures RoundTrips(FaultValue(msg, code)) <==> NulFree(msg)
  {
    hide NulFree, Less, EntityFree;
    var ms := FaultValue(msg, code).members;
    FaultNames();
    assert ms[0] == Member("faultCode", VInt(code)) && ms[1] == Member("faultString", VString(msg));
    assert Ascending(ms);
    assert NulFreeText(ms[0].value);
    assert NulFreeText(ms[1].value) <==> NulFree(msg);
  }

  lemma FaultNames()
    ensures Less("faultCode", "faultString")
    ensures EntityFree("faultCode") && EntityFree("faultString")
  {
    hide EntityFree, Less;
    CodeBeforeString();
    SamePrefix("fault", "Code", "String");
    assert "faultCode" == "fault" + "Code";
    assert "faultString" == "fault" + "String";
    LettersClean("faultCode");
    LettersClean("faultString");
  }

  lemma CodeBeforeString()
    ensures Less("Code", "String")
  {
  }

  lemma LettersClean(s: string)
    requires forall i | 0 <= i < |s| :: 'A' <= s[i] <= 'z'
    ensures EntityFree(s)
  {
  }

  lemma {:induction false} SamePrefix(p: string, a: string, b: string)
    requires Less(a, b)
    ensures Less(p + a, p + b)
  {
    if p == "" {
      assert p + a == a && p + b == b;
    } else {
      SamePrefix(p[1..], a, b);
      assert (p + a)[1..] == p[1..] + a && (p + b)[1..] == p[1..] + b;
    }
  }

  /** A fault arrives as the struct of its code and text, marked as a fault, if and
      only if its text holds no NUL; with one, the client reports no reply at all. */
  lemma FaultRoundTrip(lib: Library, msg: string, code: Int32)
    ensures var r := ParseResponse(lib, FaultBody(lib, msg, code));
      && r.Some? && r.value.fault
      && (r == Some(Reply(true, FaultValue(msg, code), true)) <==> NulFree(msg))
      && (!NulFree(msg) ==> !r.value.ok)
  {
    hide At, Xml, ParseValue, NextTag, FindStartTag, FaultBody, FaultValue, Plain, RoundTrips, NulFree, CleanNames,
      Valued, Reread;
    var s := FaultBody(lib, msg, code);
    var v := FaultValue(msg, code);
    FaultLayout(lib, msg, code);
    FaultSendable(msg, code);
    ResponseFound(s);
    AtOpen(s, 39, "fault");
    AtBound(s, 39, Open("fault"));
    AtIndex(s, 40, "fault", 0);
    NextTagDiffers("params", s, 39, 0);
    NextTagAtOpen("fault", s, 39);
    AtPrinted(lib, s, 49, v);
    AtOpen(s, 49, "value");
    AtBound(s, 49, Open("value"));
    SpacesSkipped(lib, s, 46, "\r\n\t");
    FaultRead(lib, msg, code, s);
  }

  lemma FaultRead(lib: Library, msg: string, code: Int32, s: string)
    requires At(s, 49, Xml(lib, FaultValue(msg, code)))
    ensures var p := ParseValue(lib, s, 49);
      if NulFree(msg) then p.Parsed? && p.value == FaultValue(msg, code) else p == Failed
  {
    hide At, Xml, ParseValue, FaultValue, Plain, NulFree, CleanNames, Valued, Reread, NulFreeText;
    var v := FaultValue(msg, code);
    FaultSendable(msg, code);
    ReadBack(lib, v, s, 49);
    RereadSame(v);
  }
}
