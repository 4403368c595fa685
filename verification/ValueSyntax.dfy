/** The recursive codec of `XmlRpcValue`: what `toXml` prints and `fromXml` reads. */
module ValueSyntax {
  import opened Text
  import opened XmlRpcUtil

  /** The kinds whose conversions belong to other code: `strtod`, `sscanf`, Base64. */
  datatype Lexical = Double | DateTime | Base64

  /** A value; doubles, dates and binary data are kept as the text they were read
      from. A struct is the ascending list of its members, the order in which
      `std::map` holds them. */
  datatype Value =
    | VInvalid
    | VNil
    | VBool(b: bool)
    | VInt(n: Int32)
    | VString(s: string)
    | VLexeme(kind: Lexical, text: string)
    | VArray(items: seq<Value>)
    | VStruct(members: seq<Member>)

  datatype Member = Member(name: string, value: Value)

  /** Conversions that are not part of this code: where `strtod` stops, which texts
      `sscanf` accepts as a date, and how the three kinds are printed. */
  datatype Library = Library(strtod: (string, nat) -> nat, isDate: string -> bool, printed: Value -> string)

  /** Where a number read by `strtod` from `o` ends; `o` if there is none. */
  function DoubleEnd(lib: Library, xml: string, o: nat): (r: nat)
    requires o <= |xml|
    ensures o <= r <= |xml|
  {
    var end := lib.strtod(xml, o);
    if o <= end <= |xml| then end else o
  }

  // ------------------------------------------------------------ member names

  /** `std::string::operator<`. */
  predicate Less(a: string, b: string) {
    if b == "" then false
    else if a == "" then true
    else if a[0] != b[0] then a[0] < b[0]
    else Less(a[1..], b[1..])
  }

  lemma {:induction false} LessAsymmetric(a: string, b: string)
    requires Less(a, b)
    ensures !Less(b, a) && a != b
  {
    if a != "" && a[0] == b[0] {
      LessAsymmetric(a[1..], b[1..]);
    }
  }

  lemma {:induction false} LessTransitive(a: string, b: string, c: string)
    requires Less(a, b) && Less(b, c)
    ensures Less(a, c)
  {
    if a != "" && a[0] == b[0] == c[0] {
      LessTransitive(a[1..], b[1..], c[1..]);
    }
  }

  lemma {:induction false} LessTotal(a: string, b: string)
    ensures Less(a, b) || Less(b, a) || a == b
  {
    if a != "" && b != "" && a[0] == b[0] {
      LessTotal(a[1..], b[1..]);
      assert a == [a[0]] + a[1..] && b == [b[0]] + b[1..];
    }
  }

  predicate Ascending(ms: seq<Member>) {
    forall i, j | 0 <= i < j < |ms| :: Less(ms[i].name, ms[j].name)
  }

  /** `std::map::insert`, which leaves an existing entry alone. */
  function Insert(ms: seq<Member>, name: string, v: Value): seq<Member> {
    if ms == [] then [Member(name, v)]
    else if name == ms[0].name then ms
    else if Less(name, ms[0].name) then [Member(name, v)] + ms
    else [ms[0]] + Insert(ms[1..], name, v)
  }

  /** The first member of a name. */
  function MemberNamed(ms: seq<Member>, name: string): Option<Value> {
    if ms == [] then None else if ms[0].name == name then Some(ms[0].value) else MemberNamed(ms[1..], name)
  }

  /** In a struct as the parser delivers it, the member of a name is the one it holds. */
  lemma {:induction false} MemberNamedExactly(ms: seq<Member>, name: string, v: Value)
    requires Ascending(ms)
    ensures MemberNamed(ms, name) == Some(v) <==> Member(name, v) in ms
    ensures MemberNamed(ms, name) == None <==> forall m | m in ms :: m.name != name
    decreases ms
  {
    hide Less;
    if ms == [] {
    } else {
      assert ms == [ms[0]] + ms[1..];
      MemberNamedExactly(ms[1..], name, v);
      if ms[0].name == name {
        forall m | m in ms[1..] ensures m.name != name {
          var k :| 0 <= k < |ms[1..]| && ms[1..][k] == m;
          assert ms[k + 1] == m;
          LessAsymmetric(ms[0].name, ms[k + 1].name);
        }
      }
    }
  }

  /** Inserting a member of a new name adds it, and one of a name that is there does nothing;
      no other name is touched. */
  lemma {:induction false} InsertKeepsFirst(ms: seq<Member>, name: string, v: Value, other: string)
    requires Ascending(ms)
    ensures MemberNamed(Insert(ms, name, v), other)
      == if other == name && MemberNamed(ms, name) == None then Some(v) else MemberNamed(ms, other)
    decreases ms
  {
    hide Less, Ascending;
    if ms == [] {
      NamedInOne(name, v, other);
    } else if name == ms[0].name {
    } else if Less(name, ms[0].name) {
      NotNamedBefore(ms, name);
      assert ([Member(name, v)] + ms)[1..] == ms;
    } else {
      TailAscends(ms);
      InsertKeepsFirst(ms[1..], name, v, other);
      assert ([ms[0]] + Insert(ms[1..], name, v))[1..] == Insert(ms[1..], name, v);
    }
  }

  lemma TailAscends(ms: seq<Member>)
    requires ms != [] && Ascending(ms)
    ensures Ascending(ms[1..])
  {
  }

  lemma NamedInOne(name: string, v: Value, other: string)
    ensures MemberNamed([Member(name, v)], other) == if other == name then Some(v) else None
  {
    assert [Member(name, v)][1..] == [];
  }

  lemma NotNamedBefore(ms: seq<Member>, name: string)
    requires ms != [] && Ascending(ms) && Less(name, ms[0].name)
    ensures MemberNamed(ms, name) == None
  {
    hide Less;
    MemberNamedExactly(ms, name, VNil);
    forall m | m in ms ensures m.name != name {
      var k :| 0 <= k < |ms| && ms[k] == m;
      if k > 0 { LessTransitive(name, ms[0].name, ms[k].name); }
      LessAsymmetric(name, m.name);
    }
  }

  // ----------------------------------------------------------------- printing

  function Wrap(tag: string, body: string): string {
    Open(tag) + body + Close(tag)
  }

  /** What `toXml` returns. */
  function Xml(lib: Library, v: Value): string {
    match v
    case VInvalid => ""
    case VNil => Wrap("value", "<nil/>")
    case VBool(b) => Wrap("value", Wrap("boolean", if b then "1" else "0"))
    case VInt(n) => Wrap("value", Wrap("i4", Decimal(n)))
    case VString(s) => Wrap("value", Encode(s))
    case VLexeme(_, _) => lib.printed(v)
    case VArray(items) => Wrap("value", Wrap("array", Wrap("data", ItemsXml(lib, items))))
    case VStruct(members) => Wrap("value", Wrap("struct", MembersXml(lib, members)))
  }

  function ItemsXml(lib: Library, items: seq<Value>): string {
    if items == [] then "" else Xml(lib, items[0]) + ItemsXml(lib, items[1..])
  }

  function MemberXml(lib: Library, m: Member): string {
    Wrap("member", Wrap("name", Encode(m.name)) + Xml(lib, m.value))
  }

  function MembersXml(lib: Library, ms: seq<Member>): string {
    if ms == [] then "" else MemberXml(lib, ms[0]) + MembersXml(lib, ms[1..])
  }

  /** An unset value prints nothing, so it is lost from an array. */
  lemma UnsetPrintsNothing(lib: Library, items: seq<Value>)
    ensures Xml(lib, VInvalid) == "" && ItemsXml(lib, [VInvalid] + items) == ItemsXml(lib, items)
  {
    assert ([VInvalid] + items)[1..] == items;
  }

  // ------------------------------------------------------------------ parsing

  /** Success yields a value and the offset behind it; failure leaves the offset alone;
      where the code reads through a null offset, nothing is defined any more. */
  datatype Parsed = Failed | Parsed(value: Value, end: nat) | Undefined

  datatype Items = Items(items: seq<Value>, end: nat) | UndefinedItems

  /** The measure of the parser's recursion. */
  function Left(xml: string, o: nat): nat {
    if o < |xml| then |xml| - o else 0
  }

  /** The end tag must follow what was read. */
  function Closed(tag: string, xml: string, p: Parsed): (r: Parsed)
    ensures r.Parsed? ==> p.Parsed? && r.value == p.value && p.end < r.end <= |xml|
    ensures r.Undefined? <==> p.Undefined?
  {
    if !p.Parsed? then p
    else match NextEndTag(tag, xml, p.end)
      case None => Failed
      case Some(end) => Parsed(p.value, end)
  }

  /** An end tag that is skipped if it is there. */
  function SkipEndTag(tag: string, xml: string, o: nat): (r: nat)
    requires o <= |xml|
    ensures o <= r <= |xml|
  {
    match NextEndTag(tag, xml, o)
    case None => o
    case Some(end) => end
  }

  function ParseBool(xml: string, o: nat): (r: Parsed)
    requires o <= |xml|
    ensures r.Parsed? ==> o <= r.end <= |xml| && r.value.VBool?
    ensures !r.Undefined?
  {
    var n := ParseLong(xml, o);
    if n.end == o || (n.value != 0 && n.value != 1) then Failed
    else Parsed(VBool(n.value == 1), n.end)
  }

  function ParseInt(xml: string, o: nat): (r: Parsed)
    requires o <= |xml|
    ensures r.Parsed? ==> o <= r.end <= |xml| && r.value.VInt?
    ensures !r.Undefined?
  {
    var n := ParseLong(xml, o);
    if n.end == o then Failed else Parsed(VInt(ToInt32(n.value)), n.end)
  }

  function ParseDouble(lib: Library, xml: string, o: nat): (r: Parsed)
    requires o <= |xml|
    ensures r.Parsed? ==> o <= r.end <= |xml| && r.value.VLexeme?
    ensures !r.Undefined?
  {
    var end := DoubleEnd(lib, xml, o);
    if end == o then Failed else Parsed(VLexeme(Double, xml[o..end]), end)
  }

  /** The offset advances by the length of the decoded text, not of the text read. */
  function ParseString(xml: string, o: nat): (r: Parsed)
    ensures r.Parsed? ==> o <= r.end <= |xml| && r.value.VString?
    ensures !r.Undefined?
  {
    match Find(xml, "<", o)
    case None => Failed
    case Some(end) =>
      var s := Decode(xml[o..end]);
      Parsed(VString(s), o + |s|)
  }

  function ParseLexeme(lib: Library, kind: Lexical, xml: string, o: nat): (r: Parsed)
    ensures r.Parsed? ==> o <= r.end <= |xml| && r.value.VLexeme?
    ensures !r.Undefined?
  {
    match Find(xml, "<", o)
    case None => Failed
    case Some(end) =>
      if kind == DateTime && !lib.isDate(xml[o..end]) then Failed
      else Parsed(VLexeme(kind, xml[o..end]), end)
  }

  /** What `fromXml` does at offset `o`: it reads a `<value>` element. */
  function ParseValue(lib: Library, xml: string, o: nat): (r: Parsed)
    ensures r.Parsed? ==> o < r.end <= |xml|
    decreases Left(xml, o), 1
  {
    match NextTag("value", xml, o)
    case NoTag => Failed
    case Tag(inner, empty) =>
      if empty then Parsed(VString(""), inner)
      else match NextEndTag("value", xml, inner)
        case Some(end) =>
          var text := ParseString(xml, inner);
          if text.Parsed? then Parsed(text.value, end) else text
        case None => Closed("value", xml, ParseTyped(lib, xml, inner))
  }

  /** The typed contents of a `<value>` element: one element naming the type. */
  function ParseTyped(lib: Library, xml: string, o: nat): (r: Parsed)
    requires o <= |xml|
    ensures r.Parsed? ==> o < r.end <= |xml|
    decreases Left(xml, o), 1
  {
    var t := NextTag("nil", xml, o);
    if t.Tag? then Parsed(VNil, t.end) else
    var t := NextTag("boolean", xml, o);
    if t.Tag? then (if t.empty then Parsed(VBool(false), t.end) else Closed("boolean", xml, ParseBool(xml, t.end))) else
    var t := NextTag("i4", xml, o);
    if t.Tag? then (if t.empty then Parsed(VInt(0), t.end) else Closed("i4", xml, ParseInt(xml, t.end))) else
    var t := NextTag("int", xml, o);
    if t.Tag? then (if t.empty then Parsed(VInt(0), t.end) else Closed("int", xml, ParseInt(xml, t.end))) else
    var t := NextTag("double", xml, o);
    if t.Tag? then (
      if t.empty then Parsed(VLexeme(Double, "0"), t.end)
      else Closed("double", xml, ParseDouble(lib, xml, t.end))) else
    var t := NextTag("string", xml, o);
    if t.Tag? then (if t.empty then Parsed(VString(""), t.end) else Closed("string", xml, ParseString(xml, t.end))) else
    var t := NextTag("dateTime.iso8601", xml, o);
    if t.Tag? then (
      if t.empty then Failed
      else Closed("dateTime.iso8601", xml, ParseLexeme(lib, DateTime, xml, t.end))) else
    var t := NextTag("base64", xml, o);
    if t.Tag? then (if t.empty then Undefined else Closed("base64", xml, ParseLexeme(lib, Base64, xml, t.end))) else
    ParseNested(lib, xml, o)
  }

  /** The last two links of the chain of types, those with values inside. */
  function ParseNested(lib: Library, xml: string, o: nat): (r: Parsed)
    requires o <= |xml|
    ensures r.Parsed? ==> o < r.end <= |xml|
    decreases Left(xml, o), 0
  {
    var t := NextTag("array", xml, o);
    if t.Tag? then (if t.empty then Failed else Closed("array", xml, ParseArray(lib, xml, t.end))) else
    var t := NextTag("struct", xml, o);
    if t.Tag? then (if t.empty then Failed else Closed("struct", xml, ParseMembers(lib, xml, t.end, []))) else
    Failed
  }

  function ParseArray(lib: Library, xml: string, o: nat): (r: Parsed)
    requires o <= |xml|
    ensures r.Parsed? ==> o <= r.end <= |xml|
    decreases Left(xml, o), 0
  {
    match NextTag("data", xml, o)
    case NoTag => Failed
    case Tag(inner, empty) =>
      if empty then Parsed(VArray([]), inner)
      else
        match ParseItems(lib, xml, inner)
        case UndefinedItems => Undefined
        case Items(items, end) => Parsed(VArray(items), SkipEndTag("data", xml, end))
  }

  function Prepended(v: Value, rest: Items): Items {
    match rest
    case UndefinedItems => UndefinedItems
    case Items(items, end) => Items([v] + items, end)
  }

  /** The values that follow each other from `o` on, as many as there are. */
  function ParseItems(lib: Library, xml: string, o: nat): (r: Items)
    requires o <= |xml|
    ensures r.Items? ==> o <= r.end <= |xml|
    decreases Left(xml, o), 2
  {
    match ParseValue(lib, xml, o)
    case Undefined => UndefinedItems
    case Failed => Items([], o)
    case Parsed(v, end) => Prepended(v, ParseItems(lib, xml, end))
  }

  /** The `<member>` elements from `o` on, added to the members read so far. */
  function ParseMembers(lib: Library, xml: string, o: nat, ms: seq<Member>): (r: Parsed)
    requires o <= |xml|
    ensures r.Parsed? ==> o <= r.end <= |xml| && r.value.VStruct?
    decreases Left(xml, o), 1
  {
    match NextTag("member", xml, o)
    case NoTag => Parsed(VStruct(ms), o)
    case Tag(inner, empty) =>
      if empty then ParseMembers(lib, xml, inner, ms)
      else match FindElement("name", xml, inner)
        case NoElement => ParseMembers(lib, xml, inner, ms)
        case Element(value, name) =>
          match ParseValue(lib, xml, value)
          case Undefined => Undefined
          case Failed => Failed
          case Parsed(v, end) =>
            ParseMembers(lib, xml, SkipEndTag("member", xml, end), Insert(ms, name, v))
  }
}
