/** Requests as this client writes them hold no client identification. */
module ClientIdentification {
  import opened Text
  import opened XmlRpcUtil
  import opened ValueSyntax
  import opened XmlRpcCodec
  import opened Messages

  /** Every '<' is followed by something other than '?'. */
  predicate NoMark(s: string) {
    forall i | 0 <= i < |s| && s[i] == '<' :: i + 1 < |s| && s[i + 1] != '?'
  }

  lemma NoMarkConcat(a: string, b: string)
    requires NoMark(a) && NoMark(b)
    ensures NoMark(a + b)
  {
  }

  lemma PlainNoMark(s: string)
    requires '<' !in s
    ensures NoMark(s)
  {
  }

  predicate IsTagName(tag: string) {
    tag != "" && tag[0] != '?' && '<' !in tag
  }

  lemma WrapNoMark(tag: string, body: string)
    requires IsTagName(tag) && NoMark(body)
    ensures NoMark(Wrap(tag, body))
  {
    OpenNoMark(tag);
    NoMarkConcat(Open(tag), body);
    NoMarkConcat(Open(tag) + body, Close(tag));
  }

  lemma OpenNoMark(tag: string)
    requires IsTagName(tag)
    ensures NoMark(Open(tag)) && NoMark(Close(tag))
  {
  }

  lemma TagNames()
    ensures IsTagName("value") && IsTagName("boolean") && IsTagName("i4") && IsTagName("array") && IsTagName("data")
    ensures IsTagName("struct") && IsTagName("member") && IsTagName("name") && IsTagName("param") && IsTagName("params")
    ensures IsTagName("methodName") && NoMark("<nil/>") && NoMark("") && NoMark("0") && NoMark("1")
  {
  }

  lemma DecimalNoMark(n: int)
    ensures NoMark(Decimal(n))
  {
  }

  lemma {:induction false} XmlNoMark(lib: Library, v: Value)
    requires Plain(v)
    ensures NoMark(Xml(lib, v))
    decreases v, 0
  {
    hide NoMark, IsTagName, Wrap, Encode, Decimal, Ascending;
    TagNames();
    match v
    case VInvalid =>
    case VNil => WrapNoMark("value", "<nil/>");
    case VBool(b) =>
      WrapNoMark("boolean", if b then "1" else "0");
      WrapNoMark("value", Wrap("boolean", if b then "1" else "0"));
    case VInt(n) =>
      DecimalNoMark(n);
      WrapNoMark("i4", Decimal(n));
      WrapNoMark("value", Wrap("i4", Decimal(n)));
    case VString(s) =>
      EncodedIsText(s);
      PlainNoMark(Encode(s));
      WrapNoMark("value", Encode(s));
    case VArray(items) =>
      ItemsNoMark(lib, items);
      WrapNoMark("data", ItemsXml(lib, items));
      WrapNoMark("array", Wrap("data", ItemsXml(lib, items)));
      WrapNoMark("value", Wrap("array", Wrap("data", ItemsXml(lib, items))));
    case VStruct(ms) =>
      MembersNoMark(lib, ms);
      WrapNoMark("struct", MembersXml(lib, ms));
      WrapNoMark("value", Wrap("struct", MembersXml(lib, ms)));
  }

  lemma {:induction false} ItemsNoMark(lib: Library, items: seq<Value>)
    requires forall i | 0 <= i < |items| :: Plain(items[i])
    ensures NoMark(ItemsXml(lib, items))
    decreases items, 1
  {
    hide NoMark, Plain, Xml;
    if items == [] {
      TagNames();
    } else {
      XmlNoMark(lib, items[0]);
      ItemsNoMark(lib, items[1..]);
      NoMarkConcat(Xml(lib, items[0]), ItemsXml(lib, items[1..]));
    }
  }

  lemma {:induction false} MembersNoMark(lib: Library, ms: seq<Member>)
    requires forall i | 0 <= i < |ms| :: Plain(ms[i].value)
    ensures NoMark(MembersXml(lib, ms))
    decreases ms, 1
  {
    hide NoMark, IsTagName, Plain, Xml, Wrap, Encode;
    TagNames();
    if ms == [] {
    } else {
      var m := ms[0];
      XmlNoMark(lib, m.value);
      EncodedIsText(m.name);
      PlainNoMark(Encode(m.name));
      WrapNoMark("name", Encode(m.name));
      NoMarkConcat(Wrap("name", Encode(m.name)), Xml(lib, m.value));
      WrapNoMark("member", Wrap("name", Encode(m.name)) + Xml(lib, m.value));
      MembersNoMark(lib, ms[1..]);
      NoMarkConcat(MemberXml(lib, m), MembersXml(lib, ms[1..]));
    }
  }

  lemma {:induction false} ParamsNoMark(lib: Library, items: seq<Value>)
    requires forall i | 0 <= i < |items| :: Sendable(items[i])
    ensures NoMark(ParamsXml(lib, items))
  {
    hide NoMark, IsTagName, Plain, Xml, Wrap, RoundTrips;
    TagNames();
    if items == [] {
    } else {
      XmlNoMark(lib, items[0]);
      WrapNoMark("param", Xml(lib, items[0]));
      ParamsNoMark(lib, items[1..]);
      NoMarkConcat(Wrap("param", Xml(lib, items[0])), ParamsXml(lib, items[1..]));
    }
  }

  /** The parts of a request around its name and parameters. */
  lemma FrameNoMark()
    ensures NoMark("<methodCall>") && NoMark("\r\n") && NoMark("</methodCall>\r\n")
  {
  }

  lemma PrologBegins(i: nat)
    requires i < |PROLOG|
    ensures PROLOG[2] == 'x' && (PROLOG[i] == '<' ==> i == 0)
  {
  }

  lemma MarkBegins()
    ensures |ID_MARK| == 11 && ID_MARK[0] == '<' && ID_MARK[1] == '?' && ID_MARK[2] == 'c'
  {
  }

  lemma NoMarkAt(rest: string, j: nat)
    requires NoMark(rest)
    ensures !At(PROLOG + rest, j, ID_MARK)
  {
    hide At;
    var s := PROLOG + rest;
    if At(s, j, ID_MARK) {
      MarkBegins();
      AtBound(s, j, ID_MARK);
      AtIndex(s, j, ID_MARK, 0);
      AtIndex(s, j, ID_MARK, 1);
      AtIndex(s, j, ID_MARK, 2);
      if j < |PROLOG| { PrologBegins(j); }
    }
  }

  /** Behind the prolog no mark begins, and the prolog is none. */
  lemma NoIdIn(rest: string)
    requires NoMark(rest)
    ensures ClientId(PROLOG + rest) == Some("UNKNOWN")
  {
    hide At, NoMark, Find;
    forall j: nat ensures !At(PROLOG + rest, j, ID_MARK) {
      NoMarkAt(rest, j);
    }
  }

  /** So the identification of a request for a method without '<' in its name is the
      default one. */
  lemma RequestHasNone(lib: Library, name: string, params: Value)
    requires '<' !in name && SendableParams(params)
    ensures ClientId(RequestBody(lib, name, params)) == Some("UNKNOWN")
  {
    hide NoMark, IsTagName, ClientId, Wrap, ParamsXml, Sendable;
    TagNames();
    FrameNoMark();
    PlainNoMark(name);
    var n := Wrap("methodName", name);
    WrapNoMark("methodName", name);
    if !params.VInvalid? {
      ParamsNoMark(lib, Arguments(params));
      WrapNoMark("params", ParamsXml(lib, Arguments(params)));
    }
    var ps := if params.VInvalid? then "" else Wrap("params", ParamsXml(lib, Arguments(params)));
    NoMarkConcat("<methodCall>", n);
    NoMarkConcat("<methodCall>" + n, "\r\n");
    NoMarkConcat("<methodCall>" + n + "\r\n", ps);
    NoMarkConcat("<methodCall>" + n + "\r\n" + ps, "</methodCall>\r\n");
    var rest := "<methodCall>" + n + "\r\n" + ps + "</methodCall>\r\n";
    assert RequestBody(lib, name, params) == PROLOG + rest;
    NoIdIn(rest);
  }
}
