/** Every way in which a value can be written: all type tags of XML-RPC and the empty ones,
    untyped text, nested values, and white space and text where the reader skips them.
    `fromXml` reads each of them as what it means, wherever it stands in a text. */
module Spellings {
  import opened Text
  import opened XmlRpcUtil
  import opened ValueSyntax

  /** A `<value>` element behind white space. */
  datatype Spelling = Spelling(lead: string, form: Form)

  /** `<value/>`, a value without a type tag, or one with a type element, white space in
      front of it and text behind it. */
  datatype Form = EmptyValue | Untyped(raw: string) | Typed(pre: string, element: TypeElement, post: string)

  /** The type elements: `<nil>` or `<nil/>`, any text under `<boolean>`, `<i4>` or
      `<int>`, `<string>`, a date, binary data, an empty element with a gap in front of
      its slash, and arrays and structs. */
  datatype TypeElement =
    | Nil(empty: bool, gap: string)
    | Number(tag: string, raw: string)
    | Chars(raw: string)
    | Date(raw: string)
    | Binary(raw: string)
    | Empty(tag: string, gap: string)
    | List(items: seq<Spelling>)
    | EmptyList
    | Fields(fields: seq<Field>)

  datatype Field = Field(name: string, value: Spelling)

  const EMPTY_TYPES := ["boolean", "i4", "int", "double", "string"]

  // ------------------------------------------------------------------ how it is written

  function Spelled(sp: Spelling): string {
    sp.lead + FormText(sp.form)
  }

  function FormText(f: Form): string {
    match f
    case EmptyValue => "<value/>"
    case Untyped(raw) => Wrap("value", raw)
    case Typed(pre, e, post) => Wrap("value", pre + (ElementText(e) + post))
  }

  function ElementText(e: TypeElement): string {
    match e
    case Nil(empty, gap) => if empty then "<" + "nil" + (gap + "/>") else "<nil>"
    case Number(tag, raw) => Wrap(tag, raw)
    case Chars(raw) => Wrap("string", raw)
    case Date(raw) => Wrap("dateTime.iso8601", raw)
    case Binary(raw) => Wrap("base64", raw)
    case Empty(tag, gap) => "<" + tag + (gap + "/>")
    case List(items) => Wrap("array", Wrap("data", ListText(items)))
    case EmptyList => Wrap("array", "<data/>")
    case Fields(fields) => Wrap("struct", FieldsText(fields))
  }

  function ListText(items: seq<Spelling>): string {
    if items == [] then "" else Spelled(items[0]) + ListText(items[1..])
  }

  function FieldText(f: Field): string {
    Wrap("member", Wrap("name", f.name) + Spelled(f.value))
  }

  function FieldsText(fields: seq<Field>): string {
    if fields == [] then "" else FieldText(fields[0]) + FieldsText(fields[1..])
  }

  predicate White(s: string) {
    forall i | 0 <= i < |s| :: IsSpace(s[i])
  }

  /** Text that an end tag may stand behind. */
  predicate Skippable(s: string) {
    '<' !in s && NulFree(s)
  }

  /** What may stand in the places of a spelling. */
  predicate Written(sp: Spelling) {
    White(sp.lead) &&
    match sp.form
    case EmptyValue => true
    case Untyped(raw) => '<' !in raw
    case Typed(pre, e, post) => White(pre) && WrittenElement(e) && Skippable(post)
  }

  predicate WrittenElement(e: TypeElement) {
    match e
    case Nil(_, gap) => White(gap)
    case Number(tag, raw) => (tag == "boolean" || tag == "i4" || tag == "int") && '<' !in raw
    case Chars(raw) => '<' !in raw
    case Date(raw) => '<' !in raw
    case Binary(raw) => '<' !in raw
    case Empty(tag, gap) =>
      && (tag in EMPTY_TYPES || tag == "dateTime.iso8601" || tag == "array" || tag == "struct")
      && White(gap)
    case List(items) => forall i | 0 <= i < |items| :: Written(items[i])
    case Fields(fields) => forall i | 0 <= i < |fields| :: '<' !in fields[i].name && Written(fields[i].value)
    case _ => true
  }

  // --------------------------------------------------------------------- what it means

  function Meant(sp: Spelling): Value {
    match sp.form
    case EmptyValue => VString("")
    case Untyped(raw) => VString(Decode(raw))
    case Typed(_, e, _) => ElementMeant(e)
  }

  function ElementMeant(e: TypeElement): Value {
    match e
    case Nil(_, _) => VNil
    case Number(tag, raw) =>
      var n := ParseLong(raw, 0).value; if tag == "boolean" then VBool(n == 1) else VInt(ToInt32(n))
    case Chars(raw) => VString(Decode(raw))
    case Date(raw) => VLexeme(DateTime, raw)
    case Binary(raw) => VLexeme(Base64, raw)
    case Empty(tag, _) =>
      if tag == "boolean" then VBool(false)
      else if tag == "i4" || tag == "int" then VInt(0)
      else if tag == "double" then VLexeme(Double, "0")
      else VString("")
    case List(items) => VArray(ListMeant(items))
    case EmptyList => VArray([])
    case Fields(fields) => VStruct(FieldsMeant(fields, []))
  }

  function ListMeant(items: seq<Spelling>): (r: seq<Value>)
    ensures |r| == |items|
  {
    if items == [] then [] else [Meant(items[0])] + ListMeant(items[1..])
  }

  /** Of several fields of one name the first one counts. */
  function FieldsMeant(fields: seq<Field>, acc: seq<Member>): seq<Member>
    decreases fields
  {
    if fields == [] then acc else FieldsMeant(fields[1..], Insert(acc, fields[0].name, Meant(fields[0].value)))
  }

  /** Can it be read? A NUL hides the end tag behind untyped text. A number goes as far as
      `strtol` does, whatever stands behind it, and behind `<string>` the reader goes on
      from as many characters as the decoded text has: so there only the rest of the text
      must hold none. */
  predicate Readable(lib: Library, sp: Spelling) {
    match sp.form
    case EmptyValue => true
    case Untyped(raw) => NulFree(raw)
    case Typed(_, e, _) => ReadableElement(lib, e)
  }

  predicate ReadableElement(lib: Library, e: TypeElement) {
    match e
    case Number(tag, raw) =>
      var n := ParseLong(raw, 0);
      n.end > 0 && (tag == "boolean" ==> n.value == 0 || n.value == 1) && NulFree(raw[n.end..])
    case Chars(raw) => NulFree(raw[|Decode(raw)|..])
    case Date(raw) => lib.isDate(raw)
    case Empty(tag, _) => tag in EMPTY_TYPES
    case List(items) => forall i | 0 <= i < |items| :: Readable(lib, items[i])
    case Fields(fields) => forall i | 0 <= i < |fields| :: Readable(lib, fields[i].value)
    case _ => true
  }

  // ------------------------------------------------------------- tags in their places

  lemma AtWrap(s: string, o: nat, tag: string, body: string)
    requires At(s, o, Wrap(tag, body))
    ensures At(s, o, Open(tag))
    ensures At(s, o + |tag| + 2, body)
    ensures At(s, o + |tag| + 2 + |body|, Close(tag))
    ensures |Wrap(tag, body)| == |body| + 2 * |tag| + 5
    ensures o + |tag| + 2 + |body| + |tag| + 3 <= |s|
  {
    hide At;
    AtConcat3(s, o, Open(tag), body, Close(tag));
    AtBound(s, o + |tag| + 2 + |body|, Close(tag));
  }

  lemma ClosedAt(tag: string, s: string, p: Parsed)
    requires p.Parsed? && At(s, p.end, Close(tag))
    ensures Closed(tag, s, p) == Parsed(p.value, p.end + |tag| + 3)
  {
    hide At, NextEndTag;
    NextEndTagAtClose(tag, s, p.end);
  }

  /** The tag that names the type at `o` is none of those tried before it. */
  lemma OtherTag(s: string, o: nat, there: string, tag: string, k: nat)
    requires At(s, o, "<" + there)
    requires k < |there| && k < |tag| && there[k] != tag[k]
    ensures NextTag(tag, s, o) == NoTag
  {
    hide At, NextTag;
    AtBound(s, o, "<" + there);
    AtIndex(s, o, "<" + there, 0);
    AtIndex(s, o, "<" + there, k + 1);
    NextTagDiffers(tag, s, o, k);
  }

  lemma NextTagAtEmpty(tag: string, s: string, o: nat)
    requires At(s, o, "<" + tag + "/>")
    ensures NextTag(tag, s, o) == Tag(o + |tag| + 3, true)
  {
    assert "" + "/>" == "/>";
    NextTagAtGap(tag, s, o, "");
  }

  /** White space may stand in front of the slash. */
  lemma NextTagAtGap(tag: string, s: string, o: nat, gap: string)
    requires At(s, o, "<" + tag + (gap + "/>")) && White(gap)
    ensures NextTag(tag, s, o) == Tag(o + |tag| + |gap| + 3, true)
  {
    hide At;
    AtConcat(s, o, "<" + tag, gap + "/>");
    AtConcat(s, o + 1 + |tag|, gap, "/>");
    AtTwo(s, o + 1 + |tag| + |gap|, '/', '>');
    AtOpen(s, o, tag);
    AtBound(s, o + 1 + |tag| + |gap|, "/>");
    if gap != "" { AtIndex(s, o + 1 + |tag|, gap, 0); }
    SpacesSkipped(s, o + 1 + |tag|, gap);
  }

  lemma SpacesSkipped(s: string, o: nat, w: string)
    requires At(s, o, w) && White(w)
    ensures o + |w| <= |s| && SkipSpaces(s, o) == SkipSpaces(s, o + |w|)
    decreases w
  {
    AtBound(s, o, w);
    if w == "" {
    } else {
      AtIndex(s, o, w, 0);
      assert w == [w[0]] + w[1..];
      AtConcat(s, o, [w[0]], w[1..]);
      SpacesSkipped(s, o + 1, w[1..]);
    }
  }

  /** White space in front of a tag is skipped. */
  lemma TagBehindSpaces(tag: string, s: string, o: nat, w: string)
    requires At(s, o, w) && White(w) && o + |w| < |s|
    ensures NextTag(tag, s, o) == NextTag(tag, s, o + |w|)
  {
    hide At, SkipSpaces;
    SpacesSkipped(s, o, w);
  }

  lemma TextSkipped(s: string, o: nat, t: string)
    requires At(s, o, t) && Skippable(t)
    ensures o + |t| <= |s| && TextEnd(s, o) == TextEnd(s, o + |t|)
    decreases t
  {
    AtBound(s, o, t);
    if t == "" {
    } else {
      AtIndex(s, o, t, 0);
      assert t == [t[0]] + t[1..];
      AtConcat(s, o, [t[0]], t[1..]);
      TextSkipped(s, o + 1, t[1..]);
    }
  }

  /** Text in front of an end tag is skipped. */
  lemma EndTagBehindText(tag: string, s: string, o: nat, t: string)
    requires At(s, o, t) && Skippable(t) && o + |t| < |s|
    ensures NextEndTag(tag, s, o) == NextEndTag(tag, s, o + |t|)
  {
    hide At, TextEnd;
    TextSkipped(s, o, t);
  }

  lemma WhiteIsSkippable(w: string)
    requires White(w)
    ensures Skippable(w)
  {
  }

  // --------------------------------------------------------------- the chain of types

  /** The element begins with a '<' that begins no end tag. */
  predicate Begins(e: TypeElement, s: string, o: nat) {
    o < |s| && s[o] == '<' && CharAt(s, o + 1) != '/'
  }

  /** No element text begins like an end tag. */
  lemma ElementBegins(e: TypeElement, s: string, o: nat)
    requires WrittenElement(e) && At(s, o, ElementText(e))
    ensures Begins(e, s, o)
  {
    hide At, Decimal;
    AtBound(s, o, ElementText(e));
    AtIndex(s, o, ElementText(e), 0);
    AtIndex(s, o, ElementText(e), 1);
  }

  /** A value element around a type element is read by its type. */
  lemma AroundElement(lib: Library, pre: string, e: TypeElement, post: string, s: string, o: nat)
    requires White(pre) && WrittenElement(e) && Skippable(post) && At(s, o, FormText(Typed(pre, e, post)))
    ensures var start := o + 7 + |pre|; var end := start + |ElementText(e)|;
      && start <= |s| && At(s, start, ElementText(e)) && At(s, end, post) && At(s, end + |post|, Close("value"))
      && |FormText(Typed(pre, e, post))| == 15 + |pre| + |ElementText(e)| + |post|
      && ParseValue(lib, s, o) == Closed("value", s, ParseTyped(lib, s, start))
  {
    hide At, NextTag, NextEndTag, ParseTyped, Closed, ElementText, White, Skippable, WrittenElement;
    var x := ElementText(e);
    AtWrap(s, o, "value", pre + (x + post));
    AtConcat(s, o + 7, pre, x + post);
    AtConcat(s, o + 7 + |pre|, x, post);
    ElementBegins(e, s, o + 7 + |pre|);
    AtBound(s, o + 7 + |pre| + |x| + |post|, Close("value"));
    NextTagAtOpen("value", s, o);
    WhiteIsSkippable(pre);
    EndTagBehindText("value", s, o + 7, pre);
    NextEndTagAtStart("value", s, o + 7 + |pre|);
    TypedBehindSpaces(lib, s, o + 7, pre);
  }

  lemma TypedBehindSpaces(lib: Library, s: string, o: nat, w: string)
    requires At(s, o, w) && White(w) && o + |w| < |s|
    ensures ParseTyped(lib, s, o) == ParseTyped(lib, s, o + |w|)
  {
    hide At, NextTag, Closed, White, ParseArray, ParseMembers, ParseBool, ParseInt, ParseString, ParseDouble,
      ParseLexeme;
    TagBehindSpaces("nil", s, o, w);
    TagBehindSpaces("boolean", s, o, w);
    TagBehindSpaces("i4", s, o, w);
    TagBehindSpaces("int", s, o, w);
    TagBehindSpaces("double", s, o, w);
    TagBehindSpaces("string", s, o, w);
    TagBehindSpaces("dateTime.iso8601", s, o, w);
    TagBehindSpaces("base64", s, o, w);
    TagBehindSpaces("array", s, o, w);
    TagBehindSpaces("struct", s, o, w);
  }

  /** Behind the element's end comes the end of the value. */
  lemma ValueEnds(s: string, v: Value, end: nat, post: string)
    requires Skippable(post) && At(s, end, post) && At(s, end + |post|, Close("value"))
    ensures Closed("value", s, Parsed(v, end)) == Parsed(v, end + |post| + 8)
  {
    hide At, NextEndTag, Skippable;
    AtBound(s, end + |post|, Close("value"));
    EndTagBehindText("value", s, end, post);
    NextEndTagAtClose("value", s, end + |post|);
  }

  lemma TypedNil(lib: Library, s: string, o: nat)
    requires At(s, o, "<" + "nil") && NextTag("nil", s, o).Tag?
    ensures o <= |s|
    ensures var t := NextTag("nil", s, o); ParseTyped(lib, s, o) == Parsed(VNil, t.end)
  {
    hide At, NextTag, Closed, ParseBool, ParseInt, ParseString, ParseDouble, ParseLexeme, ParseArray, ParseMembers;
  }

  lemma TypedFlag(lib: Library, s: string, o: nat)
    requires At(s, o, "<" + "boolean") && NextTag("boolean", s, o).Tag?
    ensures o <= |s|
    ensures var t := NextTag("boolean", s, o);
      ParseTyped(lib, s, o) == if t.empty then Parsed(VBool(false), t.end)
        else Closed("boolean", s, ParseBool(s, t.end))
  {
    hide At, NextTag, Closed, ParseBool, ParseInt, ParseString, ParseDouble, ParseLexeme, ParseArray, ParseMembers;
    OtherTag(s, o, "boolean", "nil", 0);
  }

  lemma TypedI4(lib: Library, s: string, o: nat)
    requires At(s, o, "<" + "i4") && NextTag("i4", s, o).Tag?
    ensures o <= |s|
    ensures var t := NextTag("i4", s, o);
      ParseTyped(lib, s, o) == if t.empty then Parsed(VInt(0), t.end) else Closed("i4", s, ParseInt(s, t.end))
  {
    hide At, NextTag, Closed, ParseBool, ParseInt, ParseString, ParseDouble, ParseLexeme, ParseArray, ParseMembers;
    OtherTag(s, o, "i4", "nil", 0);
    OtherTag(s, o, "i4", "boolean", 0);
  }

  lemma TypedInt(lib: Library, s: string, o: nat)
    requires At(s, o, "<" + "int") && NextTag("int", s, o).Tag?
    ensures o <= |s|
    ensures var t := NextTag("int", s, o);
      ParseTyped(lib, s, o) == if t.empty then Parsed(VInt(0), t.end) else Closed("int", s, ParseInt(s, t.end))
  {
    hide At, NextTag, Closed, ParseBool, ParseInt, ParseString, ParseDouble, ParseLexeme, ParseArray, ParseMembers;
    OtherTag(s, o, "int", "nil", 0);
    OtherTag(s, o, "int", "boolean", 0);
    OtherTag(s, o, "int", "i4", 1);
  }

  lemma TypedDouble(lib: Library, s: string, o: nat)
    requires At(s, o, "<" + "double") && NextTag("double", s, o).Tag?
    ensures o <= |s|
    ensures var t := NextTag("double", s, o);
      ParseTyped(lib, s, o) == if t.empty then Parsed(VLexeme(Double, "0"), t.end)
        else Closed("double", s, ParseDouble(lib, s, t.end))
  {
    hide At, NextTag, Closed, ParseBool, ParseInt, ParseString, ParseDouble, ParseLexeme, ParseArray, ParseMembers;
    OtherTag(s, o, "double", "nil", 0);
    OtherTag(s, o, "double", "boolean", 0);
    OtherTag(s, o, "double", "i4", 0);
    OtherTag(s, o, "double", "int", 0);
  }

  lemma TypedString(lib: Library, s: string, o: nat)
    requires At(s, o, "<" + "string") && NextTag("string", s, o).Tag?
    ensures o <= |s|
    ensures var t := NextTag("string", s, o);
      ParseTyped(lib, s, o) == if t.empty then Parsed(VString(""), t.end)
        else Closed("string", s, ParseString(s, t.end))
  {
    hide At, NextTag, Closed, ParseBool, ParseInt, ParseString, ParseDouble, ParseLexeme, ParseArray, ParseMembers;
    OtherTag(s, o, "string", "nil", 0);
    OtherTag(s, o, "string", "boolean", 0);
    OtherTag(s, o, "string", "i4", 0);
    OtherTag(s, o, "string", "int", 0);
    OtherTag(s, o, "string", "double", 0);
  }

  lemma TypedDate(lib: Library, s: string, o: nat)
    requires At(s, o, "<" + "dateTime.iso8601") && NextTag("dateTime.iso8601", s, o).Tag?
    ensures o <= |s|
    ensures var t := NextTag("dateTime.iso8601", s, o);
      ParseTyped(lib, s, o) == if t.empty then Failed
        else Closed("dateTime.iso8601", s, ParseLexeme(lib, DateTime, s, t.end))
  {
    hide At, NextTag, Closed, ParseBool, ParseInt, ParseString, ParseDouble, ParseLexeme, ParseArray, ParseMembers;
    OtherTag(s, o, "dateTime.iso8601", "nil", 0);
    OtherTag(s, o, "dateTime.iso8601", "boolean", 0);
    OtherTag(s, o, "dateTime.iso8601", "i4", 0);
    OtherTag(s, o, "dateTime.iso8601", "int", 0);
    OtherTag(s, o, "dateTime.iso8601", "double", 1);
    OtherTag(s, o, "dateTime.iso8601", "string", 0);
  }

  lemma TypedBinary(lib: Library, s: string, o: nat)
    requires At(s, o, "<" + "base64") && NextTag("base64", s, o).Tag?
    ensures o <= |s|
    ensures var t := NextTag("base64", s, o);
      ParseTyped(lib, s, o) == if t.empty then Undefined else Closed("base64", s, ParseLexeme(lib, Base64, s, t.end))
  {
    hide At, NextTag, Closed, ParseBool, ParseInt, ParseString, ParseDouble, ParseLexeme, ParseArray, ParseMembers;
    OtherTag(s, o, "base64", "nil", 0);
    OtherTag(s, o, "base64", "boolean", 1);
    OtherTag(s, o, "base64", "i4", 0);
    OtherTag(s, o, "base64", "int", 0);
    OtherTag(s, o, "base64", "double", 0);
    OtherTag(s, o, "base64", "string", 0);
    OtherTag(s, o, "base64", "dateTime.iso8601", 0);
  }

  lemma TypedArray(lib: Library, s: string, o: nat)
    requires At(s, o, "<" + "array") && NextTag("array", s, o).Tag?
    ensures o <= |s|
    ensures var t := NextTag("array", s, o);
      ParseTyped(lib, s, o) == if t.empty then Failed else Closed("array", s, ParseArray(lib, s, t.end))
  {
    hide At, NextTag, Closed, ParseBool, ParseInt, ParseString, ParseDouble, ParseLexeme, ParseArray, ParseMembers;
    OtherTag(s, o, "array", "nil", 0);
    OtherTag(s, o, "array", "boolean", 0);
    OtherTag(s, o, "array", "i4", 0);
    OtherTag(s, o, "array", "int", 0);
    OtherTag(s, o, "array", "double", 0);
    OtherTag(s, o, "array", "string", 0);
    OtherTag(s, o, "array", "dateTime.iso8601", 0);
    OtherTag(s, o, "array", "base64", 0);
  }

  lemma TypedStruct(lib: Library, s: string, o: nat)
    requires At(s, o, "<" + "struct") && NextTag("struct", s, o).Tag?
    ensures o <= |s|
    ensures var t := NextTag("struct", s, o);
      ParseTyped(lib, s, o) == if t.empty then Failed else Closed("struct", s, ParseMembers(lib, s, t.end, []))
  {
    hide At, NextTag, Closed, ParseBool, ParseInt, ParseString, ParseDouble, ParseLexeme, ParseArray, ParseMembers;
    OtherTag(s, o, "struct", "nil", 0);
    OtherTag(s, o, "struct", "boolean", 0);
    OtherTag(s, o, "struct", "i4", 0);
    OtherTag(s, o, "struct", "int", 0);
    OtherTag(s, o, "struct", "double", 0);
    OtherTag(s, o, "struct", "string", 3);
    OtherTag(s, o, "struct", "dateTime.iso8601", 0);
    OtherTag(s, o, "struct", "base64", 0);
    OtherTag(s, o, "struct", "array", 0);
  }

  // --------------------------------------------------------------------- scalar types

  lemma {:induction false} SpacesInside(s: string, o: nat, raw: string, k: nat)
    requires At(s, o, raw) && CharAt(s, o + |raw|) == '<' && k <= |raw|
    ensures o + k <= |s| && SkipSpaces(s, o + k) == o + SkipSpaces(raw, k)
    decreases |raw| - k
  {
    hide At;
    AtBound(s, o, raw);
    if k == |raw| {
    } else {
      AtIndex(s, o, raw, k);
      SpacesInside(s, o, raw, k + 1);
    }
  }

  lemma {:induction false} DigitsInside(s: string, o: nat, raw: string, k: nat)
    requires At(s, o, raw) && CharAt(s, o + |raw|) == '<' && k <= |raw|
    ensures o + k <= |s| && DigitsEnd(s, o + k) == o + DigitsEnd(raw, k)
    decreases |raw| - k
  {
    hide At;
    AtBound(s, o, raw);
    if k == |raw| {
    } else {
      AtIndex(s, o, raw, k);
      DigitsInside(s, o, raw, k + 1);
    }
  }

  predicate SignedAt(s: string, k: nat) {
    k < |s| && (s[k] == '-' || s[k] == '+')
  }

  lemma SignInside(s: string, o: nat, raw: string, k: nat)
    requires At(s, o, raw) && CharAt(s, o + |raw|) == '<' && k <= |raw|
    ensures SignedAt(s, o + k) <==> SignedAt(raw, k)
    ensures SignedAt(raw, k) ==> s[o + k] == raw[k]
  {
    if k < |raw| { AtIndex(s, o, raw, k); }
  }

  /** `strtol` does not look behind the next tag. */
  lemma LongInside(s: string, o: nat, raw: string)
    requires At(s, o, raw) && CharAt(s, o + |raw|) == '<'
    ensures o <= |s| && ParseLong(s, o) == Strtol(ParseLong(raw, 0).value, o + ParseLong(raw, 0).end)
  {
    hide At, SkipSpaces, DigitsEnd, DigitsValue, ClampLong;
    AtBound(s, o, raw);
    SpacesInside(s, o, raw, 0);
    var start := SkipSpaces(raw, 0);
    SignInside(s, o, raw, start);
    var first := if SignedAt(raw, start) then start + 1 else start;
    DigitsInside(s, o, raw, first);
    SliceInside(s, o, raw, first, DigitsEnd(raw, first));
  }

  lemma SliceInside(s: string, o: nat, t: string, i: nat, j: nat)
    requires At(s, o, t) && i <= j <= |t|
    ensures o + j <= |s| && s[o + i..o + j] == t[i..j]
  {
    forall k | i <= k < j ensures s[o + k] == t[k] {
      AtIndex(s, o, t, k);
    }
  }

  /** What stands between a place in the text and its end tag may be anything but a NUL. */
  lemma RestDecides(tag: string, s: string, o: nat, raw: string, n: nat, v: Value)
    requires '<' !in raw && n <= |raw| && At(s, o, raw) && At(s, o + |raw|, Close(tag))
    ensures Closed(tag, s, Parsed(v, o + n))
      == if NulFree(raw[n..]) then Parsed(v, o + |raw| + |tag| + 3) else Failed
  {
    hide At, NextEndTag, NulFree;
    assert raw == raw[..n] + raw[n..];
    AtConcat(s, o, raw[..n], raw[n..]);
    assert '<' !in raw[n..];
    if NulFree(raw[n..]) {
      AtBound(s, o + |raw|, Close(tag));
      EndTagBehindText(tag, s, o + n, raw[n..]);
      NextEndTagAtClose(tag, s, o + |raw|);
    } else {
      NextEndTagBehindNul(tag, s, o + n, raw[n..]);
    }
  }

  lemma StringAt(s: string, o: nat, e: string, tag: string)
    requires At(s, o, e) && At(s, o + |e|, Close(tag)) && '<' !in e
    ensures ParseString(s, o) == Parsed(VString(Decode(e)), o + |Decode(e)|)
  {
    hide At, Decode;
    AtClose(s, o + |e|, tag);
    AtOne(s, o + |e|, '<');
    forall j | o <= j < o + |e| ensures !At(s, j, "<") {
      AtIndex(s, o, e, j - o);
      AtBound(s, o, e);
      assert e[j - o] in e;
      AtOne(s, j, '<');
    }
    FindIs(s, "<", o, o + |e|);
    AtText(s, o, e);
  }

  lemma ReadNumber(lib: Library, tag: string, raw: string, s: string, o: nat)
    requires WrittenElement(Number(tag, raw)) && At(s, o, Wrap(tag, raw))
    ensures ReadableElement(lib, Number(tag, raw)) ==>
      ParseTyped(lib, s, o) == Parsed(ElementMeant(Number(tag, raw)), o + |Wrap(tag, raw)|)
    ensures !ReadableElement(lib, Number(tag, raw)) ==> ParseTyped(lib, s, o) == Failed
  {
    hide At, ParseTyped, Closed, ParseLong, NextTag, NulFree, ToInt32;
    AtWrap(s, o, tag, raw);
    AtOpen(s, o, tag);
    NextTagAtOpen(tag, s, o);
    if tag == "boolean" { TypedFlag(lib, s, o); }
    else if tag == "i4" { TypedI4(lib, s, o); }
    else { TypedInt(lib, s, o); }
    var inner := o + |tag| + 2;
    AtClose(s, inner + |raw|, tag);
    LongInside(s, inner, raw);
    RestDecides(tag, s, inner, raw, ParseLong(raw, 0).end, ElementMeant(Number(tag, raw)));
    NotClosedFailed(tag, s);
  }

  /** The rest of the text, from where the reader goes on, decides. */
  lemma ReadChars(lib: Library, raw: string, s: string, o: nat)
    requires '<' !in raw && At(s, o, ElementText(Chars(raw)))
    ensures NulFree(raw[|Decode(raw)|..]) ==> ParseTyped(lib, s, o) == Parsed(VString(Decode(raw)), o + |raw| + 17)
    ensures !NulFree(raw[|Decode(raw)|..]) ==> ParseTyped(lib, s, o) == Failed
  {
    hide At, ParseTyped, NextTag, NextEndTag, Decode, NulFree;
    AtWrap(s, o, "string", raw);
    AtOpen(s, o, "string");
    NextTagAtOpen("string", s, o);
    TypedString(lib, s, o);
    StringAt(s, o + 8, raw, "string");
    RestDecides("string", s, o + 8, raw, |Decode(raw)|, VString(Decode(raw)));
  }

  lemma LexemeAt(lib: Library, kind: Lexical, s: string, o: nat, raw: string, tag: string)
    requires At(s, o, raw) && At(s, o + |raw|, Close(tag)) && '<' !in raw
    ensures ParseLexeme(lib, kind, s, o)
      == if kind == DateTime && !lib.isDate(raw) then Failed else Parsed(VLexeme(kind, raw), o + |raw|)
  {
    hide At;
    TextBeforeClose(s, o, raw, tag);
    AtText(s, o, raw);
  }

  lemma TextBeforeClose(s: string, o: nat, e: string, tag: string)
    requires At(s, o, e) && At(s, o + |e|, Close(tag)) && '<' !in e
    ensures Find(s, "<", o) == Some(o + |e|)
  {
    hide At;
    AtClose(s, o + |e|, tag);
    AtOne(s, o + |e|, '<');
    forall j | o <= j < o + |e| ensures !At(s, j, "<") {
      AtIndex(s, o, e, j - o);
      AtBound(s, o, e);
      assert e[j - o] in e;
      AtOne(s, j, '<');
    }
    FindIs(s, "<", o, o + |e|);
  }

  lemma ReadDate(lib: Library, raw: string, s: string, o: nat)
    requires '<' !in raw && At(s, o, ElementText(Date(raw)))
    ensures lib.isDate(raw) ==>
      ParseTyped(lib, s, o) == Parsed(VLexeme(DateTime, raw), o + |ElementText(Date(raw))|)
    ensures !lib.isDate(raw) ==> ParseTyped(lib, s, o) == Failed
  {
    hide At, ParseTyped, Closed, ParseLexeme, NextTag;
    AtWrap(s, o, "dateTime.iso8601", raw);
    AtOpen(s, o, "dateTime.iso8601");
    NextTagAtOpen("dateTime.iso8601", s, o);
    TypedDate(lib, s, o);
    LexemeAt(lib, DateTime, s, o + 18, raw, "dateTime.iso8601");
    NotClosedFailed("dateTime.iso8601", s);
    ClosedAt("dateTime.iso8601", s, Parsed(VLexeme(DateTime, raw), o + 18 + |raw|));
  }

  lemma ReadBinary(lib: Library, raw: string, s: string, o: nat)
    requires '<' !in raw && At(s, o, ElementText(Binary(raw)))
    ensures ParseTyped(lib, s, o) == Parsed(VLexeme(Base64, raw), o + |ElementText(Binary(raw))|)
  {
    hide At, ParseTyped, Closed, ParseLexeme, NextTag;
    AtWrap(s, o, "base64", raw);
    AtOpen(s, o, "base64");
    NextTagAtOpen("base64", s, o);
    TypedBinary(lib, s, o);
    LexemeAt(lib, Base64, s, o + 8, raw, "base64");
    ClosedAt("base64", s, Parsed(VLexeme(Base64, raw), o + 8 + |raw|));
  }

  lemma ReadEmpty(lib: Library, tag: string, gap: string, s: string, o: nat)
    requires WrittenElement(Empty(tag, gap)) && At(s, o, "<" + tag + (gap + "/>"))
    ensures tag in EMPTY_TYPES ==>
      ParseTyped(lib, s, o) == Parsed(ElementMeant(Empty(tag, gap)), o + |tag| + |gap| + 3)
    ensures tag !in EMPTY_TYPES ==> ParseTyped(lib, s, o) == Failed
  {
    hide At, NextTag, ParseTyped, Closed, ParseBool, ParseInt, ParseString, ParseDouble, ParseLexeme, ParseArray,
      ParseMembers;
    NextTagAtGap(tag, s, o, gap);
    AtConcat(s, o, "<" + tag, gap + "/>");
    if tag == "boolean" { TypedFlag(lib, s, o); }
    else if tag == "i4" { TypedI4(lib, s, o); }
    else if tag == "int" { TypedInt(lib, s, o); }
    else if tag == "double" { TypedDouble(lib, s, o); }
    else if tag == "string" { TypedString(lib, s, o); }
    else if tag == "dateTime.iso8601" { TypedDate(lib, s, o); }
    else if tag == "array" { TypedArray(lib, s, o); }
    else { TypedStruct(lib, s, o); }
  }

  lemma ReadNil(lib: Library, empty: bool, gap: string, s: string, o: nat)
    requires White(gap) && At(s, o, ElementText(Nil(empty, gap)))
    ensures ParseTyped(lib, s, o) == Parsed(VNil, o + |ElementText(Nil(empty, gap))|)
  {
    hide At, NextTag, ParseTyped, White;
    if empty {
      NextTagAtGap("nil", s, o, gap);
      AtConcat(s, o, "<" + "nil", gap + "/>");
    } else {
      assert "<nil>" == Open("nil") == "<" + "nil" + ">";
      NextTagAtOpen("nil", s, o);
      AtConcat(s, o, "<" + "nil", ">");
    }
    TypedNil(lib, s, o);
  }

  // ---------------------------------------------------------------------- untyped text

  /** Text that runs into a NUL before any tag has no type and is refused. */
  lemma TextIsUntyped(lib: Library, s: string, o: nat, e: string, t: string)
    requires At(s, o, e) && '<' !in e && !NulFree(e)
    ensures o <= |s| && ParseTyped(lib, s, o) == Failed
  {
    hide At, NextTag;
    AtBound(s, o, e);
    NoTagInText("nil", s, o, e);
    NoTagInText("boolean", s, o, e);
    NoTagInText("i4", s, o, e);
    NoTagInText("int", s, o, e);
    NoTagInText("double", s, o, e);
    NoTagInText("string", s, o, e);
    NoTagInText("dateTime.iso8601", s, o, e);
    NoTagInText("base64", s, o, e);
    NoTagInText("array", s, o, e);
    NoTagInText("struct", s, o, e);
  }

  lemma NoTagInText(tag: string, s: string, o: nat, e: string)
    requires At(s, o, e) && '<' !in e && !NulFree(e)
    ensures NextTag(tag, s, o) == NoTag
  {
    hide At;
    AtBound(s, o, e);
    var start := SkipSpaces(s, o);
    var k :| 0 <= k < |e| && e[k] == '\0';
    AtIndex(s, o, e, k);
    assert start <= o + k;
    AtIndex(s, o, e, start - o);
    assert e[start - o] in e;
    AtOpen(s, start, tag);
  }

  lemma ReadUntyped(lib: Library, raw: string, s: string, o: nat)
    requires '<' !in raw && At(s, o, Wrap("value", raw))
    ensures NulFree(raw) ==> ParseValue(lib, s, o) == Parsed(VString(Decode(raw)), o + |raw| + 15)
    ensures !NulFree(raw) ==> ParseValue(lib, s, o) == Failed
  {
    hide At, NextTag, NextEndTag, Decode, NulFree, Closed, ParseTyped;
    AtWrap(s, o, "value", raw);
    NextTagAtOpen("value", s, o);
    if NulFree(raw) {
      NextEndTagAfterText("value", s, o + 7, raw);
      StringAt(s, o + 7, raw, "value");
    } else {
      NextEndTagBehindNul("value", s, o + 7, raw);
      TextIsUntyped(lib, s, o + 7, raw, raw);
      NotClosedFailed("value", s);
    }
  }

  lemma ReadEmptyValue(lib: Library, s: string, o: nat)
    requires At(s, o, "<value/>")
    ensures ParseValue(lib, s, o) == Parsed(VString(""), o + 8)
  {
    hide At, NextTag;
    assert "<value/>" == "<" + "value" + "/>";
    NextTagAtEmpty("value", s, o);
  }

  lemma NotClosed(tag: string, s: string, v: Value, o: nat)
    requires NextEndTag(tag, s, o) == None
    ensures Closed(tag, s, Parsed(v, o)) == Failed
  {
  }

  lemma NotClosedFailed(tag: string, s: string)
    ensures Closed(tag, s, Failed) == Failed
  {
  }

  // --------------------------------------------------------------------------- arrays

  lemma NoValueAtClose(lib: Library, tag: string, s: string, o: nat)
    requires At(s, o, Close(tag))
    ensures ParseValue(lib, s, o) == Failed
  {
    hide At, NextTag;
    AtClose(s, o, tag);
    NextTagDiffers("value", s, o, 0);
  }

  /** Neither end tag can be read here. */
  predicate Blocked(s: string, o: nat) {
    NextEndTag("data", s, o) == None && NextEndTag("array", s, o) == None
  }

  lemma UnreadableBlocks(lib: Library, sp: Spelling, s: string, o: nat)
    requires Written(sp) && !Readable(lib, sp) && At(s, o, Spelled(sp))
    ensures Blocked(s, o)
  {
    hide At, NextEndTag, Written, Readable, Spelled;
    UnreadableStays(lib, sp, "data", s, o);
    UnreadableStays(lib, sp, "array", s, o);
  }

  /** No end tag is found at a value that is not read. */
  lemma UnreadableStays(lib: Library, sp: Spelling, tag: string, s: string, o: nat)
    requires Written(sp) && !Readable(lib, sp) && At(s, o, Spelled(sp))
    ensures NextEndTag(tag, s, o) == None
  {
    hide At, NextEndTag, White, Wrap, ReadableElement, WrittenElement, ElementText, Skippable;
    var start := o + |sp.lead|;
    AtConcat(s, o, sp.lead, FormText(sp.form));
    BeginsValue(sp.form, s, start);
    AtOpen(s, start, "value");
    AtIndex(s, start + 1, "value", 0);
    AtBound(s, start, Open("value"));
    WhiteIsSkippable(sp.lead);
    EndTagBehindText(tag, s, o, sp.lead);
    NextEndTagAtStart(tag, s, start);
  }

  lemma BeginsValue(f: Form, s: string, o: nat)
    requires !f.EmptyValue? && At(s, o, FormText(f))
    ensures At(s, o, Open("value"))
  {
    hide At, ElementText;
    match f
    case Untyped(raw) => AtWrap(s, o, "value", raw);
    case Typed(pre, e, post) => AtWrap(s, o, "value", pre + (ElementText(e) + post));
  }

  lemma LeadSkipped(lib: Library, sp: Spelling, s: string, o: nat)
    requires White(sp.lead) && At(s, o, Spelled(sp))
    ensures At(s, o + |sp.lead|, FormText(sp.form))
    ensures ParseValue(lib, s, o) == ParseValue(lib, s, o + |sp.lead|)
  {
    hide At, NextTag, NextEndTag, White, ParseTyped, Closed, ParseString, FormText;
    AtConcat(s, o, sp.lead, FormText(sp.form));
    AtBound(s, o + |sp.lead|, FormText(sp.form));
    FormNotEmpty(sp.form);
    TagBehindSpaces("value", s, o, sp.lead);
  }

  lemma FormNotEmpty(f: Form)
    ensures FormText(f) != ""
  {
    hide ElementText;
  }

  /** The law of the reader: every spelling is read as what it means, with the offset right
      behind it, in every text and at every place; or it is refused. */
  lemma {:induction false} Reads(lib: Library, sp: Spelling, s: string, o: nat)
    requires Written(sp) && At(s, o, Spelled(sp))
    ensures Readable(lib, sp) ==> ParseValue(lib, s, o) == Parsed(Meant(sp), o + |Spelled(sp)|)
    ensures !Readable(lib, sp) ==> ParseValue(lib, s, o) == Failed
    decreases sp, 0
  {
    hide At, ParseValue, ParseTyped, Closed, NulFree, White, Decode, ElementText, WrittenElement, ReadableElement,
      ElementMeant, Skippable;
    LeadSkipped(lib, sp, s, o);
    var start := o + |sp.lead|;
    match sp.form
    case EmptyValue => ReadEmptyValue(lib, s, start);
    case Untyped(raw) => ReadUntyped(lib, raw, s, start);
    case Typed(pre, e, post) =>
      AroundElement(lib, pre, e, post, s, start);
      ReadsElement(lib, e, s, start + 7 + |pre|);
      ValueEnds(s, ElementMeant(e), start + 7 + |pre| + |ElementText(e)|, post);
      NotClosedFailed("value", s);
  }

  lemma {:induction false} ReadsElement(lib: Library, e: TypeElement, s: string, o: nat)
    requires WrittenElement(e) && At(s, o, ElementText(e))
    ensures ReadableElement(lib, e) ==> ParseTyped(lib, s, o) == Parsed(ElementMeant(e), o + |ElementText(e)|)
    ensures !ReadableElement(lib, e) ==> ParseTyped(lib, s, o) == Failed
    decreases e, 0
  {
    hide At, ParseValue, ParseTyped, NulFree, Decode, Decimal, Spelled, ListText, FieldsText, ListMeant, FieldsMeant;
    match e
    case Nil(empty, gap) => ReadNil(lib, empty, gap, s, o);
    case Number(tag, raw) => ReadNumber(lib, tag, raw, s, o);
    case Chars(raw) => ReadChars(lib, raw, s, o);
    case Date(raw) => ReadDate(lib, raw, s, o);
    case Binary(raw) => ReadBinary(lib, raw, s, o);
    case Empty(tag, gap) => ReadEmpty(lib, tag, gap, s, o);
    case EmptyList => ReadEmptyList(lib, s, o);
    case List(items) =>
      ListAround(items, s, o);
      ReadItems(lib, items, s, o + 13);
      ReadList(lib, items, s, o);
    case Fields(fields) =>
      FieldsAround(fields, s, o);
      ReadFields(lib, fields, s, o + 8, []);
      ReadStruct(lib, fields, s, o);
  }

  lemma ListAround(items: seq<Spelling>, s: string, o: nat)
    requires At(s, o, Wrap("array", Wrap("data", ListText(items))))
    ensures var n := |ListText(items)|;
      && |Wrap("array", Wrap("data", ListText(items)))| == n + 28
      && At(s, o, Open("array")) && At(s, o + 7, Open("data")) && At(s, o + 13, ListText(items))
      && At(s, o + 13 + n, Close("data")) && At(s, o + 20 + n, Close("array"))
  {
    hide At, ListText;
    var x := ListText(items);
    AtWrap(s, o, "array", Wrap("data", x));
    AtWrap(s, o + 7, "data", x);
  }

  predicate AllReadable(lib: Library, items: seq<Spelling>) {
    forall i | 0 <= i < |items| :: Readable(lib, items[i])
  }

  /** A list of spelled values is read up to its end, or up to the first one refused. */
  lemma {:induction false} ReadItems(lib: Library, items: seq<Spelling>, s: string, o: nat)
    requires forall i | 0 <= i < |items| :: Written(items[i])
    requires At(s, o, ListText(items)) && At(s, o + |ListText(items)|, Close("data"))
    ensures o <= |s|
    ensures AllReadable(lib, items) ==> ParseItems(lib, s, o) == Items(ListMeant(items), o + |ListText(items)|)
    ensures !AllReadable(lib, items) ==> ParseItems(lib, s, o).Items? && Blocked(s, ParseItems(lib, s, o).end)
    decreases items, 1
  {
    hide At, ParseValue, Written, Readable, Meant, Spelled, Blocked;
    AtBound(s, o, ListText(items));
    if items == [] {
      NoValueAtClose(lib, "data", s, o);
    } else {
      var x := Spelled(items[0]);
      assert AllReadable(lib, items) <==> Readable(lib, items[0]) && AllReadable(lib, items[1..]) by {
        assert items == [items[0]] + items[1..];
      }
      AtConcat(s, o, x, ListText(items[1..]));
      Reads(lib, items[0], s, o);
      if Readable(lib, items[0]) {
        ReadItems(lib, items[1..], s, o + |x|);
      } else {
        UnreadableBlocks(lib, items[0], s, o);
      }
    }
  }

  lemma ReadList(lib: Library, items: seq<Spelling>, s: string, o: nat)
    requires At(s, o, Wrap("array", Wrap("data", ListText(items)))) && o + 13 <= |s|
    requires AllReadable(lib, items) ==>
      ParseItems(lib, s, o + 13) == Items(ListMeant(items), o + 13 + |ListText(items)|)
    requires !AllReadable(lib, items) ==>
      ParseItems(lib, s, o + 13).Items? && Blocked(s, ParseItems(lib, s, o + 13).end)
    ensures AllReadable(lib, items) ==>
      ParseTyped(lib, s, o) == Parsed(VArray(ListMeant(items)), o + |ListText(items)| + 28)
    ensures !AllReadable(lib, items) ==> ParseTyped(lib, s, o) == Failed
  {
    hide At, ListText, ListMeant, ParseTyped, Closed, NextTag, NextEndTag, ParseItems, AllReadable, Wrap;
    ListAround(items, s, o);
    AtOpen(s, o, "array");
    NextTagAtOpen("array", s, o);
    TypedArray(lib, s, o);
    NextTagAtOpen("data", s, o + 7);
    var r, n := ParseItems(lib, s, o + 13), |ListText(items)|;
    if AllReadable(lib, items) {
      NextEndTagAtClose("data", s, o + 13 + n);
      ClosedAt("array", s, Parsed(VArray(ListMeant(items)), o + 20 + n));
    } else {
      NotClosed("array", s, VArray(r.items), r.end);
    }
  }

  lemma ReadEmptyList(lib: Library, s: string, o: nat)
    requires At(s, o, Wrap("array", "<data/>"))
    ensures ParseTyped(lib, s, o) == Parsed(VArray([]), o + |Wrap("array", "<data/>")|)
  {
    hide At, ParseTyped, Closed, NextTag;
    AtWrap(s, o, "array", "<data/>");
    AtOpen(s, o, "array");
    NextTagAtOpen("array", s, o);
    TypedArray(lib, s, o);
    assert "<data/>" == "<" + "data" + "/>";
    NextTagAtEmpty("data", s, o + 7);
    ClosedAt("array", s, Parsed(VArray([]), o + 14));
  }

  // -------------------------------------------------------------------------- structs

  /** The name of a printed member is found whatever it holds: its text has no '<'. */
  lemma NameAt(s: string, o: nat, e: string)
    requires At(s, o, Open("name")) && At(s, o + 6, e) && At(s, o + 6 + |e|, Close("name"))
    requires '<' !in e
    ensures FindElement("name", s, o) == Element(o + 13 + |e|, e)
  {
    hide At, FindElement;
    forall j | o + 6 <= j < o + 6 + |e| ensures !At(s, j, Close("name")) {
      AtIndex(s, o + 6, e, j - o - 6);
      AtBound(s, o + 6, e);
      assert e[j - o - 6] in e;
      AtClose(s, j, "name");
    }
    FindElementAt("name", s, o, e);
  }

  lemma NoMemberAtClose(lib: Library, s: string, o: nat, acc: seq<Member>)
    requires At(s, o, Close("struct"))
    ensures o <= |s| && ParseMembers(lib, s, o, acc) == Parsed(VStruct(acc), o)
  {
    hide At, NextTag;
    AtBound(s, o, Close("struct"));
    AtClose(s, o, "struct");
    NextTagDiffers("member", s, o, 0);
  }

  lemma FieldsAround(fields: seq<Field>, s: string, o: nat)
    requires At(s, o, Wrap("struct", FieldsText(fields)))
    ensures var n := |FieldsText(fields)|;
      && |Wrap("struct", FieldsText(fields))| == n + 17
      && At(s, o, Open("struct")) && At(s, o + 8, FieldsText(fields)) && At(s, o + 8 + n, Close("struct"))
  {
    hide At, FieldsText;
    AtWrap(s, o, "struct", FieldsText(fields));
  }

  predicate AllFieldsReadable(lib: Library, fields: seq<Field>) {
    forall i | 0 <= i < |fields| :: Readable(lib, fields[i].value)
  }

  lemma FieldAround(f: Field, s: string, o: nat)
    requires At(s, o, FieldText(f))
    ensures var n, x := |f.name|, Spelled(f.value);
      && |FieldText(f)| == n + |x| + 30
      && At(s, o, Open("member")) && At(s, o + 8, Open("name")) && At(s, o + 14, f.name)
      && At(s, o + 14 + n, Close("name")) && At(s, o + 21 + n, x) && At(s, o + 21 + n + |x|, Close("member"))
  {
    hide At, Spelled;
    var name := Wrap("name", f.name);
    AtWrap(s, o, "member", name + Spelled(f.value));
    AtConcat(s, o + 8, name, Spelled(f.value));
    AtWrap(s, o + 8, "name", f.name);
  }

  /** One round of `structFromXml`'s loop. */
  lemma FieldStep(lib: Library, f: Field, s: string, o: nat, acc: seq<Member>)
    requires '<' !in f.name && At(s, o, FieldText(f))
    requires var value := o + 21 + |f.name|;
      var p := ParseValue(lib, s, value); p == Failed || p == Parsed(Meant(f.value), value + |Spelled(f.value)|)
    ensures o + |FieldText(f)| <= |s|
    ensures var p := ParseValue(lib, s, o + 21 + |f.name|);
      ParseMembers(lib, s, o, acc) ==
        if p.Failed? then Failed
        else ParseMembers(lib, s, o + |FieldText(f)|, Insert(acc, f.name, Meant(f.value)))
  {
    hide At, ParseValue, NextTag, NextEndTag, FieldText, FindElement, Meant, Insert, Spelled;
    AtBound(s, o, FieldText(f));
    FieldAround(f, s, o);
    NextTagAtOpen("member", s, o);
    NameAt(s, o + 8, f.name);
    NextEndTagAtClose("member", s, o + 21 + |f.name| + |Spelled(f.value)|);
  }

  lemma {:induction false} ReadFields(lib: Library, fields: seq<Field>, s: string, o: nat, acc: seq<Member>)
    requires forall i | 0 <= i < |fields| :: '<' !in fields[i].name && Written(fields[i].value)
    requires At(s, o, FieldsText(fields)) && At(s, o + |FieldsText(fields)|, Close("struct"))
    ensures o <= |s|
    ensures AllFieldsReadable(lib, fields) ==>
      ParseMembers(lib, s, o, acc) == Parsed(VStruct(FieldsMeant(fields, acc)), o + |FieldsText(fields)|)
    ensures !AllFieldsReadable(lib, fields) ==> ParseMembers(lib, s, o, acc) == Failed
    decreases fields, 1
  {
    hide At, ParseValue, Written, Readable, FieldText, Meant, Insert, Spelled, ParseMembers;
    AtBound(s, o, FieldsText(fields));
    if fields == [] {
      NoMemberAtClose(lib, s, o, acc);
    } else {
      var f := fields[0];
      var x := FieldText(f);
      assert AllFieldsReadable(lib, fields) <==> Readable(lib, f.value) && AllFieldsReadable(lib, fields[1..]) by {
        assert fields == [f] + fields[1..];
      }
      AtConcat(s, o, x, FieldsText(fields[1..]));
      FieldAround(f, s, o);
      Reads(lib, f.value, s, o + 21 + |f.name|);
      FieldStep(lib, f, s, o, acc);
      if Readable(lib, f.value) {
        ReadFields(lib, fields[1..], s, o + |x|, Insert(acc, f.name, Meant(f.value)));
      }
    }
  }

  lemma ReadStruct(lib: Library, fields: seq<Field>, s: string, o: nat)
    requires At(s, o, Wrap("struct", FieldsText(fields))) && o + 8 <= |s|
    requires AllFieldsReadable(lib, fields) ==>
      ParseMembers(lib, s, o + 8, []) == Parsed(VStruct(FieldsMeant(fields, [])), o + 8 + |FieldsText(fields)|)
    requires !AllFieldsReadable(lib, fields) ==> ParseMembers(lib, s, o + 8, []) == Failed
    ensures AllFieldsReadable(lib, fields) ==>
      ParseTyped(lib, s, o) == Parsed(VStruct(FieldsMeant(fields, [])), o + |FieldsText(fields)| + 17)
    ensures !AllFieldsReadable(lib, fields) ==> ParseTyped(lib, s, o) == Failed
  {
    hide At, FieldsText, FieldsMeant, ParseTyped, Closed, NextTag, ParseMembers, AllFieldsReadable, Wrap;
    FieldsAround(fields, s, o);
    AtOpen(s, o, "struct");
    NextTagAtOpen("struct", s, o);
    TypedStruct(lib, s, o);
    if AllFieldsReadable(lib, fields) {
      ClosedAt("struct", s, Parsed(VStruct(FieldsMeant(fields, [])), o + 8 + |FieldsText(fields)|));
    } else {
      NotClosedFailed("struct", s);
    }
  }

  // ------------------------------------------------- the tags other writers choose

  function Plainly(e: TypeElement): Spelling {
    Spelling("", Typed("", e, ""))
  }

  lemma PlainlySpelled(e: TypeElement)
    ensures Spelled(Plainly(e)) == Wrap("value", ElementText(e))
    ensures Written(Plainly(e)) <==> WrittenElement(e)
  {
    hide ElementText, Wrap;
    assert "" + (ElementText(e) + "") == ElementText(e);
    assert "" + Wrap("value", ElementText(e)) == Wrap("value", ElementText(e));
  }

  /** A printed number is read by `strtol` as itself. */
  lemma DecimalAlone(n: Int32)
    ensures ParseLong(Decimal(n), 0) == Strtol(n, |Decimal(n)|) && '<' !in Decimal(n)
  {
    hide Decimal, ParseLong;
    AtWhole(Decimal(n));
    ParseDecimal(Decimal(n), 0, n);
    DecimalIsText(n);
  }

  lemma AtWhole(s: string)
    ensures At(s, 0, s)
  {
  }

  lemma DecimalIsText(n: int)
    ensures '<' !in Decimal(n)
  {
  }

  /** Numbers under either tag. */
  lemma NumberElement(lib: Library, tag: string, n: Int32, s: string, o: nat)
    requires (tag == "i4" || tag == "int") && At(s, o, Wrap("value", Wrap(tag, Decimal(n))))
    ensures ParseValue(lib, s, o) == Parsed(VInt(n), o + |Wrap("value", Wrap(tag, Decimal(n)))|)
  {
    hide At, ParseValue, Wrap, Decimal, ParseLong;
    var e, sp := Number(tag, Decimal(n)), Plainly(Number(tag, Decimal(n)));
    DecimalAlone(n);
    PlainlySpelled(e);
    assert ElementText(e) == Wrap(tag, Decimal(n));
    assert Meant(sp) == ElementMeant(e) == VInt(n) && Readable(lib, sp) == ReadableElement(lib, e);
    Reads(lib, sp, s, o);
  }

  /** Text under `<double>` is read as far as the library's conversion goes. */
  lemma DoubleElement(lib: Library, raw: string, s: string, o: nat)
    requires '<' !in raw && At(s, o, Wrap("double", raw))
    requires o + 8 <= |s| && DoubleEnd(lib, s, o + 8) <= o + 8 + |raw|
    ensures var n := DoubleEnd(lib, s, o + 8) - (o + 8);
      ParseTyped(lib, s, o) == if n > 0 && NulFree(raw[n..]) then Parsed(VLexeme(Double, raw[..n]), o + 17 + |raw|)
        else Failed
  {
    hide At, ParseTyped, Closed, NextTag, NulFree, DoubleEnd;
    AtWrap(s, o, "double", raw);
    AtOpen(s, o, "double");
    NextTagAtOpen("double", s, o);
    TypedDouble(lib, s, o);
    var end := DoubleEnd(lib, s, o + 8);
    SliceInside(s, o + 8, raw, 0, end - o - 8);
    RestDecides("double", s, o + 8, raw, end - o - 8, VLexeme(Double, raw[..end - o - 8]));
    NotClosedFailed("double", s);
  }

  /** Of the numbers 1 is true and 0 is false, and the others are refused. */
  lemma FlagElement(lib: Library, n: Int32, s: string, o: nat)
    requires At(s, o, Wrap("value", Wrap("boolean", Decimal(n))))
    ensures n == 0 || n == 1 ==>
      ParseValue(lib, s, o) == Parsed(VBool(n == 1), o + |Wrap("value", Wrap("boolean", Decimal(n)))|)
    ensures n != 0 && n != 1 ==> ParseValue(lib, s, o) == Failed
  {
    hide At, ParseValue, Wrap, Decimal, ParseLong;
    var e, sp := Number("boolean", Decimal(n)), Plainly(Number("boolean", Decimal(n)));
    DecimalAlone(n);
    PlainlySpelled(e);
    assert ElementText(e) == Wrap("boolean", Decimal(n));
    assert Meant(sp) == ElementMeant(e) == VBool(n == 1) && Readable(lib, sp) == ReadableElement(lib, e);
    Reads(lib, sp, s, o);
  }

  /** Encoded strings under their tag come back exactly if there is no NUL in the encoded
      text behind as many characters as the string has. So a string without NUL always
      does, and one with a NUL can. */
  lemma StringElement(lib: Library, t: string, s: string, o: nat)
    requires At(s, o, Wrap("value", Wrap("string", Encode(t))))
    ensures |t| <= |Encode(t)|
    ensures ParseValue(lib, s, o) == Parsed(VString(t), o + |Wrap("value", Wrap("string", Encode(t)))|) <==>
      NulFree(Encode(t)[|t|..])
    ensures NulFree(t) ==> NulFree(Encode(t)[|t|..])
  {
    hide At, ParseValue, Wrap, Encode, Decode;
    EncodedIsText(t);
    EncodeLength(t);
    DecodeEncode(t);
    var e, sp := Chars(Encode(t)), Plainly(Chars(Encode(t)));
    PlainlySpelled(e);
    assert ElementText(e) == Wrap("string", Encode(t));
    assert Meant(sp) == ElementMeant(e) && Readable(lib, sp) == ReadableElement(lib, e);
    Reads(lib, sp, s, o);
  }
}
