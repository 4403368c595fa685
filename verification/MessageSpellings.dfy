/** Every way in which requests and responses can be written, and what the server and the
    client read from them. */
module MessageSpellings {
  import opened Text
  import opened XmlRpcUtil
  import opened ValueSyntax
  import opened Spellings
  import opened Messages

  /** A `<param>` element behind white space: an empty one, one with a value, or one with
      mere text. */
  datatype Parameter = Parameter(lead: string, form: ParameterForm)

  datatype ParameterForm = NoValue | Valued(value: Spelling, post: string) | Junk(text: string)

  function ParameterText(p: Parameter): string {
    p.lead +
    match p.form
    case NoValue => "<param/>"
    case Valued(sp, post) => Wrap("param", Spelled(sp) + post)
    case Junk(text) => Wrap("param", text)
  }

  function ParametersText(ps: seq<Parameter>): string {
    if ps == [] then "" else ParameterText(ps[0]) + ParametersText(ps[1..])
  }

  predicate WrittenParameter(p: Parameter) {
    White(p.lead) &&
    match p.form
    case NoValue => true
    case Valued(sp, post) => Written(sp) && Skippable(post)
    case Junk(text) => Skippable(text)
  }

  predicate Cut(lib: Library, p: Parameter) {
    p.form.Valued? && !Readable(lib, p.form.value)
  }

  function ParameterMeant(lib: Library, p: Parameter): Value {
    match p.form
    case NoValue => VString("")
    case Valued(sp, _) => if Readable(lib, sp) then Meant(sp) else VInvalid
    case Junk(_) => VInvalid
  }

  /** A value that cannot be read is unset, and all parameters behind it are lost. */
  function ParametersMeant(lib: Library, ps: seq<Parameter>): seq<Value> {
    if ps == [] then []
    else [ParameterMeant(lib, ps[0])] + if Cut(lib, ps[0]) then [] else ParametersMeant(lib, ps[1..])
  }

  // ------------------------------------------------------------------- one parameter

  lemma ParamTag(p: Parameter, s: string, o: nat)
    requires WrittenParameter(p) && At(s, o, ParameterText(p))
    ensures var start := o + |p.lead|;
      && start <= |s|
      && NextTag("param", s, o) == (if p.form.NoValue? then Tag(start + 8, true) else Tag(start + 7, false))
  {
    hide At, NextTag, White, Spelled, Skippable, Written, Wrap;
    var start := o + |p.lead|;
    var rest := ParameterText(p.(lead := ""));
    assert ParameterText(p) == p.lead + rest;
    AtConcat(s, o, p.lead, rest);
    match p.form {
      case NoValue =>
        assert "<param/>" == "<" + "param" + "/>" == rest;
        NextTagAtEmpty("param", s, start);
      case Valued(sp, post) =>
        assert rest == Wrap("param", Spelled(sp) + post);
        AtWrap(s, start, "param", Spelled(sp) + post);
        NextTagAtOpen("param", s, start);
      case Junk(text) =>
        assert rest == Wrap("param", text);
        AtWrap(s, start, "param", text);
        NextTagAtOpen("param", s, start);
    }
    AtBound(s, start, rest);
    ParameterNotEmpty(p.(lead := ""));
    TagBehindSpaces("param", s, o, p.lead);
  }

  lemma ParameterNotEmpty(p: Parameter)
    ensures ParameterText(p) != ""
  {
  }

  /** What is inside, and where it ends. */
  lemma ParamInside(p: Parameter, x: string, s: string, o: nat)
    requires !p.form.NoValue? && At(s, o, ParameterText(p))
    requires x == if p.form.Valued? then Spelled(p.form.value) + p.form.post else p.form.text
    ensures var inner := o + |p.lead| + 7;
      && At(s, inner, x) && At(s, inner + |x|, Close("param")) && |ParameterText(p)| == |p.lead| + |x| + 15
      && inner + |x| + 8 <= |s|
  {
    hide At, Spelled, Wrap;
    assert ParameterText(p) == p.lead + Wrap("param", x);
    AtConcat(s, o, p.lead, Wrap("param", x));
    AtWrap(s, o + |p.lead|, "param", x);
  }

  lemma SkipsParam(s: string, o: nat, t: string)
    requires At(s, o, t) && Skippable(t) && At(s, o + |t|, Close("param"))
    ensures o <= |s| && SkipEndTag("param", s, o) == o + |t| + 8
  {
    hide At, NextEndTag, Skippable;
    AtBound(s, o + |t|, Close("param"));
    EndTagBehindText("param", s, o, t);
    NextEndTagAtClose("param", s, o + |t|);
  }

  lemma ValuedParam(lib: Library, p: Parameter, s: string, o: nat)
    requires p.form.Valued? && WrittenParameter(p) && At(s, o, ParameterText(p))
    ensures var inner := o + |p.lead| + 7;
      && inner <= |s|
      && (Readable(lib, p.form.value) ==>
           && ParseValue(lib, s, inner) == Parsed(Meant(p.form.value), inner + |Spelled(p.form.value)|)
           && inner + |Spelled(p.form.value)| <= |s|
           && SkipEndTag("param", s, inner + |Spelled(p.form.value)|) == o + |ParameterText(p)|)
      && (!Readable(lib, p.form.value) ==>
           && ParseValue(lib, s, inner) == Failed
           && SkipEndTag("param", s, inner) == inner && NextTag("param", s, inner) == NoTag)
  {
    hide At, NextTag, NextEndTag, Spelled, Written, Skippable, ParseValue, SkipEndTag, Readable, Meant, ParameterText;
    var sp, post := p.form.value, p.form.post;
    var inner, n := o + |p.lead| + 7, |Spelled(sp)|;
    ParamInside(p, Spelled(sp) + post, s, o);
    AtConcat(s, inner, Spelled(sp), post);
    Reads(lib, sp, s, inner);
    if Readable(lib, sp) {
      SkipsParam(s, inner + n, post);
    } else {
      UnreadableStays(lib, sp, "param", s, inner);
      SkipStays("param", s, inner);
      NoParamAtValue(lib, sp, s, inner);
    }
  }

  lemma SkipStays(tag: string, s: string, o: nat)
    requires o <= |s| && NextEndTag(tag, s, o) == None
    ensures SkipEndTag(tag, s, o) == o
  {
  }

  lemma NoParamAtValue(lib: Library, sp: Spelling, s: string, o: nat)
    requires Written(sp) && At(s, o, Spelled(sp))
    ensures NextTag("param", s, o) == NoTag
  {
    hide At, NextTag, White, FormText, ElementText;
    AtConcat(s, o, sp.lead, FormText(sp.form));
    var start := o + |sp.lead|;
    FormBegins(sp.form, s, start);
    AtBound(s, start, "<" + "value");
    OtherTag(s, start, "value", "param", 0);
    TagBehindSpaces("param", s, o, sp.lead);
  }

  lemma FormBegins(f: Form, s: string, o: nat)
    requires At(s, o, FormText(f))
    ensures At(s, o, "<" + "value")
  {
    hide At, ElementText;
    match f
    case EmptyValue =>
      assert "<value/>" == "<" + "value" + "/>";
      AtConcat(s, o, "<" + "value", "/>");
    case _ =>
      BeginsValue(f, s, o);
      AtConcat(s, o, "<" + "value", ">");
  }

  lemma JunkParam(lib: Library, p: Parameter, s: string, o: nat)
    requires p.form.Junk? && WrittenParameter(p) && At(s, o, ParameterText(p))
    ensures var inner := o + |p.lead| + 7;
      inner <= |s| && ParseValue(lib, s, inner) == Failed && SkipEndTag("param", s, inner) == o + |ParameterText(p)|
  {
    hide At, NextTag, Skippable, SkipEndTag, ParameterText;
    var inner, text := o + |p.lead| + 7, p.form.text;
    ParamInside(p, text, s, o);
    NoTagInSkippable("value", s, inner, text, "param");
    SkipsParam(s, inner, text);
  }

  /** Text in front of an end tag holds no start tag. */
  lemma NoTagInSkippable(tag: string, s: string, o: nat, t: string, end: string)
    requires At(s, o, t) && Skippable(t) && At(s, o + |t|, Close(end)) && tag != "" && tag[0] != '/'
    ensures NextTag(tag, s, o) == NoTag
  {
    hide At;
    AtBound(s, o + |t|, Close(end));
    AtClose(s, o + |t|, end);
    var start := SkipSpaces(s, o);
    assert start <= o + |t|;
    if start < o + |t| {
      AtIndex(s, o, t, start - o);
      assert t[start - o] in t;
      AtOpen(s, start, tag);
    } else {
      if At(s, start, "<" + tag) {
        AtIndex(s, start, "<" + tag, 1);
      }
    }
  }

  // -------------------------------------------------------------------- all of them

  /** The law of the parameter loop, for every parameter section. */
  lemma {:induction false} ReadsParameters(lib: Library, ps: seq<Parameter>, s: string, o: nat)
    requires forall i | 0 <= i < |ps| :: WrittenParameter(ps[i])
    requires At(s, o, ParametersText(ps)) && At(s, o + |ParametersText(ps)|, Close("params"))
    ensures o <= |s| && ParseParams(lib, s, o) == Some(ParametersMeant(lib, ps))
    decreases ps
  {
    hide At, NextTag, NextEndTag, WrittenParameter, ParameterText, Readable, Meant, ParseValue, SkipEndTag, Spelled;
    AtBound(s, o, ParametersText(ps));
    if ps == [] {
      AtClose(s, o, "params");
      AtBound(s, o, Close("params"));
      NextTagDiffers("param", s, o, 0);
    } else {
      var p := ps[0];
      AtConcat(s, o, ParameterText(p), ParametersText(ps[1..]));
      ParamTag(p, s, o);
      if !Cut(lib, p) {
        ReadsParameters(lib, ps[1..], s, o + |ParameterText(p)|);
      }
      match p.form {
        case NoValue => EmptyParamLength(p);
        case Valued(_, _) => ValuedParam(lib, p, s, o);
        case Junk(_) => JunkParam(lib, p, s, o);
      }
    }
  }

  lemma EmptyParamLength(p: Parameter)
    requires p.form.NoValue?
    ensures |ParameterText(p)| == |p.lead| + 8
  {
  }

  // --------------------------------------------------------------------- requests

  /** The parameter section of a request: none, an empty one, or one with parameters. */
  datatype Section = NoSection | EmptySection | Section(parameters: seq<Parameter>)

  function SectionMeant(lib: Library, c: Section): Value {
    if c.Section? && c.parameters != [] then VArray(ParametersMeant(lib, c.parameters)) else VInvalid
  }

  /** The section stands at `o`. */
  ghost predicate SectionAt(c: Section, s: string, o: nat) {
    match c
    case NoSection => forall j: nat | j >= o :: !At(s, j, "<" + "params")
    case EmptySection => At(s, o, "<" + "params" + "/" + ">")
    case Section(ps) =>
      && At(s, o, "<" + "params" + "" + ">") && At(s, o + 8, ParametersText(ps))
      && At(s, o + 8 + |ParametersText(ps)|, Close("params"))
      && forall i | 0 <= i < |ps| :: WrittenParameter(ps[i])
  }

  /** Every request in which the method name is the first element of its kind, and the
      section the first behind it. */
  lemma ReadsRequest(
      lib: Library, s: string, start: nat, attributes: string, name: string, c: Section, o: nat)
    requires ClientId(s).Some?
    requires At(s, start, "<" + "methodName" + attributes + ">") && '>' !in attributes
    requires attributes != "" ==> attributes[|attributes| - 1] != '/'
    requires forall j | 0 <= j < start :: !At(s, j, "<" + "methodName")
    requires var inner := start + 12 + |attributes|; var end := inner + |name|;
      && At(s, inner, name) && At(s, end, Close("methodName"))
      && (forall j | inner <= j < end :: !At(s, j, Close("methodName")))
      && end + 13 <= o && (forall j | end + 13 <= j < o :: !At(s, j, "<" + "params"))
    requires SectionAt(c, s, o)
    ensures ParseRequest(lib, s) == Some(Call(name, SectionMeant(lib, c)))
  {
    hide At, FindStartTag, ParseParams, ClientId, ParametersText, ParametersMeant, WrittenParameter, FindElement;
    FindElementIs("methodName", s, 0, start, attributes, name);
    var from := start + 12 + |attributes| + |name| + 13;
    match c {
      case NoSection => NoTagNone("params", s, from);
      case EmptySection => FindStartTagIs("params", s, from, o, "/");
      case Section(ps) =>
        FindStartTagIs("params", s, from, o, "");
        ReadsParameters(lib, ps, s, o + 8);
        NoneMeant(lib, ps);
    }
  }

  lemma NoneMeant(lib: Library, ps: seq<Parameter>)
    ensures ParametersMeant(lib, ps) == [] <==> ps == []
  {
  }

  lemma NoTagNone(tag: string, s: string, o: nat)
    requires forall j: nat | j >= o :: !At(s, j, "<" + tag)
    ensures FindStartTag(tag, s, o) == NoTag && FindElement(tag, s, o) == NoElement
  {
    hide At;
  }

  lemma NoneThere(s: string, t: string)
    requires !Contains(s, t)
    ensures forall j: nat | j >= 0 :: !At(s, j, t)
  {
    forall j: nat | j >= 0 ensures !At(s, j, t) {
      assert At(s, j, t) ==> 0 <= j <= |s|;
    }
  }

  /** A request without a method name calls the method of the empty name. */
  lemma NamelessRequest(lib: Library, s: string)
    requires ClientId(s).Some? && !Contains(s, "<" + "methodName")
    ensures ParseRequest(lib, s) == Some(Call("", VInvalid))
  {
    hide ClientId, Contains, At;
    NoneThere(s, "<" + "methodName");
    NoTagNone("methodName", s, 0);
  }

  // --------------------------------------------------------------------- responses

  /** What stands in a response: a result, a fault, or an empty fault. */
  datatype Answer = Result(parameter: Parameter) | Fault(value: Spelling) | EmptyFault

  function AnswerText(a: Answer): string {
    match a
    case Result(p) => "<params>" + ParameterText(p)
    case Fault(sp) => "<fault>" + Spelled(sp)
    case EmptyFault => "<fault/>"
  }

  predicate WrittenAnswer(a: Answer) {
    match a
    case Result(p) => WrittenParameter(p)
    case Fault(sp) => Written(sp)
    case EmptyFault => true
  }

  /** A result that is empty counts as 0, and one that cannot be read is no reply; a fault
      that is empty or cannot be read counts as the fault 0 and as a failure. */
  function AnswerMeant(lib: Library, a: Answer): Reply {
    match a
    case Result(p) =>
      if p.form.NoValue? then Reply(true, VInt(0), false)
      else if p.form.Valued? && Readable(lib, p.form.value) then Reply(true, Meant(p.form.value), false)
      else NO_REPLY
    case Fault(sp) => if Readable(lib, sp) then Reply(true, Meant(sp), true) else Reply(false, VInt(0), true)
    case EmptyFault => Reply(false, VInt(0), true)
  }

  lemma ReadsResult(lib: Library, p: Parameter, s: string, o: nat)
    requires WrittenParameter(p) && At(s, o, "<params>" + ParameterText(p))
    ensures NextTag("params", s, o) == Tag(o + 8, false) && NextTag("param", s, o + 8).Tag?
    ensures var param := NextTag("param", s, o + 8);
      && param.empty == p.form.NoValue?
      && (p.form.Valued? && Readable(lib, p.form.value) ==>
           ParseValue(lib, s, param.end).Parsed? && ParseValue(lib, s, param.end).value == Meant(p.form.value))
      && (p.form.Junk? || Cut(lib, p) ==> ParseValue(lib, s, param.end) == Failed)
  {
    hide At, NextTag, WrittenParameter, ParameterText, ParseValue, Meant, Readable, Spelled, SkipEndTag;
    AtConcat(s, o, "<params>", ParameterText(p));
    assert Open("params") == "<params>";
    NextTagAtOpen("params", s, o);
    ParamTag(p, s, o + 8);
    match p.form
    case NoValue =>
    case Valued(_, _) => ValuedParam(lib, p, s, o + 8);
    case Junk(_) => JunkParam(lib, p, s, o + 8);
  }

  lemma FaultTags(s: string, o: nat, x: string)
    requires At(s, o, "<fault" + x)
    ensures NextTag("params", s, o) == NoTag
  {
    hide At, NextTag;
    assert "<fault" == "<" + "fault";
    AtConcat(s, o, "<" + "fault", x);
    OtherTag(s, o, "fault", "params", 0);
  }

  lemma ReadsFault(lib: Library, a: Answer, s: string, o: nat)
    requires !a.Result? && WrittenAnswer(a) && At(s, o, AnswerText(a))
    ensures NextTag("params", s, o) == NoTag && NextTag("fault", s, o).Tag?
    ensures var fault := NextTag("fault", s, o);
      && fault.empty == a.EmptyFault?
      && (a.Fault? && Readable(lib, a.value) ==>
           ParseValue(lib, s, fault.end).Parsed? && ParseValue(lib, s, fault.end).value == Meant(a.value))
      && (a.Fault? && !Readable(lib, a.value) ==> ParseValue(lib, s, fault.end) == Failed)
  {
    hide At, NextTag, Written, ParseValue, Meant, Readable, Spelled;
    match a
    case EmptyFault =>
      assert AnswerText(a) == "<" + "fault" + "/>" == "<fault" + "/>";
      NextTagAtEmpty("fault", s, o);
      FaultTags(s, o, "/>");
    case Fault(sp) =>
      assert AnswerText(a) == Open("fault") + Spelled(sp);
      assert AnswerText(a) == "<fault" + (">" + Spelled(sp));
      AtConcat(s, o, Open("fault"), Spelled(sp));
      NextTagAtOpen("fault", s, o);
      FaultTags(s, o, ">" + Spelled(sp));
      Reads(lib, sp, s, o + 7);
  }

  /** Every response in which the answer follows its first start tag. */
  lemma ReadsResponse(lib: Library, s: string, start: nat, attributes: string, a: Answer)
    requires At(s, start, "<" + "methodResponse" + attributes + ">") && '>' !in attributes
    requires attributes != "" ==> attributes[|attributes| - 1] != '/'
    requires forall j | 0 <= j < start :: !At(s, j, "<" + "methodResponse")
    requires WrittenAnswer(a) && At(s, start + 16 + |attributes|, AnswerText(a))
    ensures ParseResponse(lib, s) == Some(AnswerMeant(lib, a))
  {
    hide At, FindStartTag, NextTag, ParseValue, AnswerText, WrittenAnswer, Readable, Meant;
    FindStartTagIs("methodResponse", s, 0, start, attributes);
    var o := start + 16 + |attributes|;
    if a.Result? {
      AnswerIsResult(a);
      ReadsResult(lib, a.parameter, s, o);
    } else {
      ReadsFault(lib, a, s, o);
    }
  }

  lemma AnswerIsResult(a: Answer)
    requires a.Result?
    ensures AnswerText(a) == "<params>" + ParameterText(a.parameter)
    ensures WrittenAnswer(a) <==> WrittenParameter(a.parameter)
  {
  }

  /** A text without a response, or with an empty one, is no reply. */
  lemma NoResponse(lib: Library, s: string)
    requires !Contains(s, "<" + "methodResponse")
    ensures ParseResponse(lib, s) == Some(Reply(false, VInvalid, false))
  {
    hide Contains, At;
    NoneThere(s, "<" + "methodResponse");
    NoTagNone("methodResponse", s, 0);
  }

  lemma EmptyResponse(lib: Library, s: string, start: nat, attributes: string)
    requires At(s, start, "<" + "methodResponse" + attributes + ">") && '>' !in attributes
    requires attributes != "" && attributes[|attributes| - 1] == '/'
    requires forall j | 0 <= j < start :: !At(s, j, "<" + "methodResponse")
    ensures ParseResponse(lib, s) == Some(Reply(false, VInvalid, false))
  {
    hide At, FindStartTag;
    FindStartTagIs("methodResponse", s, 0, start, attributes);
  }

  // ------------------------------------------------------- the client's identification

  /** The identification is the text between its first mark and the next question mark,
      less a quotation mark in front and one behind it. */
  lemma ReadsClientId(s: string, start: nat, front: bool, id: string, behind: bool)
    requires At(s, start, "<?clientid=" + Quoted(front, id, behind) + "?")
    requires forall j | 0 <= j < start :: !At(s, j, "<?clientid=")
    requires id != "" && '?' !in id && id[0] != '"' && id[|id| - 1] != '"'
    ensures ClientId(s) == Some(id)
  {
    hide At, Find, Quoted;
    Unquoted(front, id, behind);
    IdFound(s, start, Quoted(front, id, behind));
  }

  function Quoted(front: bool, id: string, behind: bool): string {
    (if front then "\"" else "") + id + if behind then "\"" else ""
  }

  lemma Unquoted(front: bool, id: string, behind: bool)
    requires id != "" && '?' !in id && id[0] != '"' && id[|id| - 1] != '"'
    ensures var all := Quoted(front, id, behind);
      && all != "" && '?' !in all
      && var inner := if all[0] == '"' then all[1..] else all;
         inner != "" && (if inner[|inner| - 1] == '"' then inner[..|inner| - 1] else inner) == id
  {
    if front { assert ("\"" + id)[1..] == id; }
    if behind { assert (id + "\"")[..|id|] == id; }
  }

  lemma IdFound(s: string, start: nat, all: string)
    requires At(s, start, "<?clientid=" + all + "?") && '?' !in all
    requires forall j | 0 <= j < start :: !At(s, j, "<?clientid=")
    ensures Find(s, ID_MARK, 0) == Some(start) && Find(s, "?", start + 11) == Some(start + 11 + |all|)
    ensures start + 11 + |all| <= |s| && s[start + 11..start + 11 + |all|] == all
  {
    hide At, Find;
    AtConcat3(s, start, ID_MARK, all, "?");
    FindIs(s, ID_MARK, 0, start);
    AtBound(s, start + 11, all);
    forall j | start + 11 <= j < start + 11 + |all| ensures !At(s, j, "?") {
      AtIndex(s, start + 11, all, j - start - 11);
      assert all[j - start - 11] in all;
      AtOne(s, j, '?');
    }
    FindIs(s, "?", start + 11, start + 11 + |all|);
    AtText(s, start + 11, all);
  }

  /** With nothing in it the code looks in front of the text's first character, unless two
      quotation marks stand there; and a request without one comes from "UNKNOWN". */
  lemma NoClientId(s: string, start: nat, all: string)
    requires At(s, start, "<?clientid=" + all + "?")
    requires forall j | 0 <= j < start :: !At(s, j, "<?clientid=")
    ensures all == "" || all == "\"" ==> ClientId(s) == None
    ensures all == "\"\"" ==> ClientId(s) == Some("")
  {
    hide At, Find;
    if all == "" || all == "\"" || all == "\"\"" {
      IdFound(s, start, all);
    }
  }

  lemma Unmarked(s: string)
    requires !Contains(s, "<?clientid=")
    ensures ClientId(s) == Some("UNKNOWN")
  {
    hide At;
    NoneThere(s, "<?clientid=");
  }

  lemma NotEnded(s: string, start: nat)
    requires At(s, start, "<?clientid=") && (forall j | 0 <= j < start :: !At(s, j, "<?clientid="))
    requires '?' !in s[start + 11..]
    ensures ClientId(s) == Some("UNKNOWN")
  {
    hide At, Find;
    AtBound(s, start, "<?clientid=");
    FindIs(s, ID_MARK, 0, start);
    var end := Find(s, "?", start + 11);
    if end.Some? {
      AtOne(s, end.value, '?');
      InTail(s, start + 11, end.value);
    }
  }

  lemma InTail(s: string, from: nat, i: nat)
    requires from <= i < |s|
    ensures s[i] in s[from..]
  {
    assert s[from..][i - from] == s[i];
  }
}
