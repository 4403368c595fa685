/** The codec's law: `fromXml` reads back what `toXml` printed, wherever it stands
    in a text, exactly for the values described by `RoundTrips`. */
module XmlRpcCodec {
  import opened Text
  import opened XmlRpcUtil
  import opened ValueSyntax
  import opened Spellings

  /** The values that can be printed by this code alone: no double, date or binary
      data, and each struct in the order of a `std::map`. */
  predicate Plain(v: Value) {
    match v
    case VLexeme(_, _) => false
    case VArray(items) => forall i | 0 <= i < |items| :: Plain(items[i])
    case VStruct(ms) => Ascending(ms) && forall i | 0 <= i < |ms| :: Plain(ms[i].value)
    case _ => true
  }

  /** No part of the value is unset. */
  predicate Valued(v: Value) {
    match v
    case VInvalid => false
    case VArray(items) => forall i | 0 <= i < |items| :: Valued(items[i])
    case VStruct(ms) => forall i | 0 <= i < |ms| :: Valued(ms[i].value)
    case _ => true
  }

  /** No string in the value holds a NUL. */
  predicate NulFreeText(v: Value) {
    match v
    case VString(s) => NulFree(s)
    case VArray(items) => forall i | 0 <= i < |items| :: NulFreeText(items[i])
    case VStruct(ms) => forall i | 0 <= i < |ms| :: NulFreeText(ms[i].value)
    case _ => true
  }

  /** No member name holds one of the five entity characters. */
  predicate CleanNames(v: Value) {
    match v
    case VArray(items) => forall i | 0 <= i < |items| :: CleanNames(items[i])
    case VStruct(ms) => forall i | 0 <= i < |ms| :: EntityFree(ms[i].name) && CleanNames(ms[i].value)
    case _ => true
  }

  predicate RoundTrips(v: Value) {
    Valued(v) && NulFreeText(v) && CleanNames(v)
  }

  /** What is read back: member names come back encoded, because `structFromXml`
      does not decode the names that `structToXml` encodes. */
  function Reread(v: Value): Value {
    match v
    case VArray(items) => VArray(RereadItems(items))
    case VStruct(ms) => VStruct(RereadMembers(ms, []))
    case _ => v
  }

  function RereadItems(items: seq<Value>): (r: seq<Value>)
    ensures |r| == |items|
  {
    if items == [] then [] else [Reread(items[0])] + RereadItems(items[1..])
  }

  function RereadMembers(ms: seq<Member>, acc: seq<Member>): seq<Member>
    decreases ms
  {
    if ms == [] then acc
    else RereadMembers(ms[1..], Insert(acc, Encode(ms[0].name), Reread(ms[0].value)))
  }

  // ----------------------------------------------------- reading a printed value

  /** How `toXml` spells a value. */
  function Canonical(v: Value): Spelling {
    match v
    case VInvalid => Spelling("", EmptyValue)
    case VNil => Element(Nil(true, ""))
    case VBool(b) => Element(Number("boolean", Decimal(if b then 1 else 0)))
    case VInt(n) => Element(Number("i4", Decimal(n)))
    case VString(s) => Spelling("", Untyped(Encode(s)))
    case VLexeme(_, _) => Spelling("", EmptyValue)
    case VArray(items) => Element(List(CanonicalItems(items)))
    case VStruct(ms) => Element(Fields(CanonicalMembers(ms)))
  }

  function Element(e: TypeElement): Spelling {
    Spelling("", Typed("", e, ""))
  }

  function CanonicalItems(items: seq<Value>): seq<Spelling> {
    if items == [] then [] else [Canonical(items[0])] + CanonicalItems(items[1..])
  }

  function CanonicalMembers(ms: seq<Member>): seq<Field> {
    if ms == [] then [] else [Field(Encode(ms[0].name), Canonical(ms[0].value))] + CanonicalMembers(ms[1..])
  }

  /** The spelling has the printed text, means the value with its names encoded, and can be
      read exactly if no string holds a NUL. */
  ghost predicate Prints(lib: Library, v: Value, sp: Spelling) {
    && Written(sp) && Spelled(sp) == Xml(lib, v) && Meant(sp) == Reread(v)
    && (Readable(lib, sp) <==> NulFreeText(v))
  }

  lemma {:induction false} CanonicalPrints(lib: Library, v: Value)
    requires Plain(v) && Valued(v)
    ensures Prints(lib, v, Canonical(v))
    decreases v, 0
  {
    hide Encode, Decode, NulFree, Ascending, Wrap, Decimal, Prints;
    match v
    case VString(t) =>
      StringPrints(lib, t);
    case VArray(items) =>
      ItemsPrint(lib, items);
      ArrayPrints(lib, items);
    case VStruct(ms) =>
      MembersPrint(lib, ms, []);
      StructPrints(lib, ms);
    case VNil => ScalarPrints(lib, v, Nil(true, ""));
    case VBool(b) => ScalarPrints(lib, v, Number("boolean", Decimal(if b then 1 else 0)));
    case VInt(n) => ScalarPrints(lib, v, Number("i4", Decimal(n)));
  }

  lemma StringPrints(lib: Library, t: string)
    ensures Prints(lib, VString(t), Canonical(VString(t)))
  {
    hide Encode, Decode, NulFree, Wrap;
    var sp := Canonical(VString(t));
    EncodedIsText(t);
    DecodeEncode(t);
    assert "" + Wrap("value", Encode(t)) == Wrap("value", Encode(t));
    assert sp == Spelling("", Untyped(Encode(t)));
    assert Written(sp);
    assert Spelled(sp) == Xml(lib, VString(t));
    assert Meant(sp) == Reread(VString(t));
    assert Readable(lib, sp) == NulFree(Encode(t));
  }

  lemma ScalarPrints(lib: Library, v: Value, e: TypeElement)
    requires v.VNil? || v.VBool? || v.VInt?
    requires e == if v.VNil? then Nil(true, "") else
      if v.VBool? then Number("boolean", Decimal(if v.b then 1 else 0)) else Number("i4", Decimal(v.n))
    ensures Prints(lib, v, Canonical(v))
  {
    hide Wrap, Decimal, ParseLong;
    var sp := Canonical(v);
    OneDigit();
    assert "<" + "nil" + ("" + "/>") == "<nil/>";
    if !v.VNil? { DecimalAlone(if v.VInt? then v.n else if v.b then 1 else 0); }
    ElementSpelled(e);
    assert sp == Element(e);
    assert Written(sp);
    assert Spelled(sp) == Xml(lib, v);
    assert Meant(sp) == ElementMeant(e) == Reread(v);
    assert ReadableElement(lib, e) && NulFreeText(v);
    assert Readable(lib, sp) == ReadableElement(lib, e);
  }

  lemma OneDigit()
    ensures Decimal(0) == "0" && Decimal(1) == "1"
  {
  }

  lemma ArrayPrints(lib: Library, items: seq<Value>)
    requires var sps := CanonicalItems(items);
      && (forall i | 0 <= i < |sps| :: Written(sps[i]))
      && ListText(sps) == ItemsXml(lib, items) && ListMeant(sps) == RereadItems(items)
      && ((forall i | 0 <= i < |sps| :: Readable(lib, sps[i])) <==>
           forall i | 0 <= i < |items| :: NulFreeText(items[i]))
    ensures Prints(lib, VArray(items), Canonical(VArray(items)))
  {
    hide CanonicalItems, ListText, ItemsXml, ListMeant, RereadItems, Wrap;
    var e, sp := List(CanonicalItems(items)), Canonical(VArray(items));
    ElementSpelled(e);
    assert sp == Element(e);
    assert Written(sp);
    assert ElementText(e) == Wrap("array", Wrap("data", ListText(CanonicalItems(items))));
    assert Spelled(sp) == Xml(lib, VArray(items));
    assert ElementMeant(e) == VArray(ListMeant(CanonicalItems(items)));
    assert Meant(sp) == Reread(VArray(items));
    assert ReadableElement(lib, e) <==> NulFreeText(VArray(items));
  }

  lemma StructPrints(lib: Library, ms: seq<Member>)
    requires var fs := CanonicalMembers(ms);
      && (forall i | 0 <= i < |fs| :: '<' !in fs[i].name && Written(fs[i].value))
      && FieldsText(fs) == MembersXml(lib, ms) && FieldsMeant(fs, []) == RereadMembers(ms, [])
      && ((forall i | 0 <= i < |fs| :: Readable(lib, fs[i].value)) <==>
           forall i | 0 <= i < |ms| :: NulFreeText(ms[i].value))
    ensures Prints(lib, VStruct(ms), Canonical(VStruct(ms)))
  {
    hide CanonicalMembers, FieldsText, MembersXml, FieldsMeant, RereadMembers, Wrap;
    var e, sp := Fields(CanonicalMembers(ms)), Canonical(VStruct(ms));
    ElementSpelled(e);
    assert sp == Element(e);
    assert Written(sp);
    assert ElementText(e) == Wrap("struct", FieldsText(CanonicalMembers(ms)));
    assert Spelled(sp) == Xml(lib, VStruct(ms));
    assert ElementMeant(e) == VStruct(FieldsMeant(CanonicalMembers(ms), []));
    assert Meant(sp) == Reread(VStruct(ms));
    assert ReadableElement(lib, e) <==> NulFreeText(VStruct(ms));
  }

  lemma ElementSpelled(e: TypeElement)
    ensures Spelled(Element(e)) == Wrap("value", ElementText(e))
    ensures Written(Element(e)) <==> WrittenElement(e)
  {
    hide ElementText, Wrap;
    assert "" + (ElementText(e) + "") == ElementText(e);
    assert "" + Wrap("value", ElementText(e)) == Wrap("value", ElementText(e));
  }

  lemma {:induction false} ItemsPrint(lib: Library, items: seq<Value>)
    requires forall i | 0 <= i < |items| :: Plain(items[i]) && Valued(items[i])
    ensures var sps := CanonicalItems(items);
      && |sps| == |items| && (forall i | 0 <= i < |sps| :: Written(sps[i]))
      && ListText(sps) == ItemsXml(lib, items) && ListMeant(sps) == RereadItems(items)
      && ((forall i | 0 <= i < |sps| :: Readable(lib, sps[i])) <==>
           forall i | 0 <= i < |items| :: NulFreeText(items[i]))
    decreases items, 1
  {
    hide Canonical, Written, Readable, Meant, Spelled, Xml, Reread, NulFreeText, Plain, Valued;
    if items == [] {
    } else {
      CanonicalPrints(lib, items[0]);
      ItemsPrint(lib, items[1..]);
      var sps := CanonicalItems(items);
      assert sps[1..] == CanonicalItems(items[1..]);
      assert items == [items[0]] + items[1..] && sps == [sps[0]] + sps[1..];
    }
  }

  lemma {:induction false} MembersPrint(lib: Library, ms: seq<Member>, acc: seq<Member>)
    requires forall i | 0 <= i < |ms| :: Plain(ms[i].value) && Valued(ms[i].value)
    ensures var fs := CanonicalMembers(ms);
      && |fs| == |ms| && (forall i | 0 <= i < |fs| :: '<' !in fs[i].name && Written(fs[i].value))
      && FieldsText(fs) == MembersXml(lib, ms) && FieldsMeant(fs, acc) == RereadMembers(ms, acc)
      && ((forall i | 0 <= i < |fs| :: Readable(lib, fs[i].value)) <==>
           forall i | 0 <= i < |ms| :: NulFreeText(ms[i].value))
    decreases ms, 1
  {
    hide Canonical, Written, Readable, Meant, Spelled, Xml, Reread, NulFreeText, Plain, Valued, Encode, Insert, Wrap;
    if ms == [] {
    } else {
      CanonicalPrints(lib, ms[0].value);
      EncodedIsText(ms[0].name);
      MembersPrint(lib, ms[1..], Insert(acc, Encode(ms[0].name), Reread(ms[0].value)));
      var fs := CanonicalMembers(ms);
      assert fs[1..] == CanonicalMembers(ms[1..]);
      assert ms == [ms[0]] + ms[1..] && fs == [fs[0]] + fs[1..];
    }
  }

  lemma AtPrinted(lib: Library, s: string, o: nat, v: Value)
    requires Plain(v) && Valued(v) && At(s, o, Xml(lib, v))
    ensures At(s, o, Open("value"))
  {
    PrintedTag(lib, v);
    var x := Xml(lib, v);
    assert x == x[..7] + x[7..];
    AtConcat(s, o, x[..7], x[7..]);
  }

  lemma PrintedTag(lib: Library, v: Value)
    requires Plain(v) && Valued(v)
    ensures |Xml(lib, v)| >= 7 && Xml(lib, v)[..7] == Open("value")
  {
  }

  /** The codec's law, in any context: what `toXml` printed is read back in full, up
      to the encoding of member names, or refused if it holds a NUL. */
  lemma ReadBack(lib: Library, v: Value, s: string, o: nat)
    requires Plain(v) && Valued(v) && At(s, o, Xml(lib, v))
    ensures NulFreeText(v) ==> ParseValue(lib, s, o) == Parsed(Reread(v), o + |Xml(lib, v)|)
    ensures !NulFreeText(v) ==> ParseValue(lib, s, o) == Failed
  {
    hide At, Xml, ParseValue, Plain, Valued, NulFreeText, Canonical, Spelled, Written, Readable, Meant, Reread;
    CanonicalPrints(lib, v);
    Reads(lib, Canonical(v), s, o);
  }

  // ------------------------------------------------------ when the value is the same

  /** A name greater than all others goes to the end. */
  lemma {:induction false} InsertLast(ms: seq<Member>, name: string, v: Value)
    requires forall i | 0 <= i < |ms| :: Less(ms[i].name, name)
    ensures Insert(ms, name, v) == ms + [Member(name, v)]
  {
    hide Less;
    if ms == [] {
    } else {
      LessAsymmetric(ms[0].name, name);
      InsertLast(ms[1..], name, v);
    }
  }

  lemma {:induction false} RereadItemsPointwise(items: seq<Value>)
    ensures forall i | 0 <= i < |items| :: RereadItems(items)[i] == Reread(items[i])
  {
    hide Reread;
    if items == [] {
    } else {
      RereadItemsPointwise(items[1..]);
    }
  }

  /** Members with clean names keep their order. */
  lemma {:induction false} RereadMembersPointwise(ms: seq<Member>, acc: seq<Member>)
    requires Ascending(acc + ms)
    requires forall i | 0 <= i < |ms| :: EntityFree(ms[i].name)
    ensures var r := RereadMembers(ms, acc);
      && |r| == |acc| + |ms|
      && r[..|acc|] == acc
      && forall i | 0 <= i < |ms| :: r[|acc| + i] == Member(ms[i].name, Reread(ms[i].value))
    decreases ms
  {
    hide Less, EntityFree, Reread, Encode, Insert;
    if ms == [] {
    } else {
      var m := ms[0];
      EncodeLength(m.name);
      AscendingUpTo(acc, ms);
      InsertLast(acc, m.name, Reread(m.value));
      var acc' := acc + [Member(m.name, Reread(m.value))];
      AscendingByName(acc + ms, acc' + ms[1..]);
      RereadMembersPointwise(ms[1..], acc');
      var r := RereadMembers(ms, acc);
      assert r == RereadMembers(ms[1..], acc');
      assert r[..|acc|] == r[..|acc'|][..|acc|];
      forall i | 0 <= i < |ms| ensures r[|acc| + i] == Member(ms[i].name, Reread(ms[i].value)) {
        if i == 0 {
          assert r[..|acc'|][|acc|] == acc'[|acc|];
        } else {
          assert r[|acc'| + (i - 1)] == Member(ms[1..][i - 1].name, Reread(ms[1..][i - 1].value));
        }
      }
    }
  }

  lemma AscendingUpTo(acc: seq<Member>, ms: seq<Member>)
    requires ms != [] && Ascending(acc + ms)
    ensures forall i | 0 <= i < |acc| :: Less(acc[i].name, ms[0].name)
  {
    forall i | 0 <= i < |acc| ensures Less(acc[i].name, ms[0].name) {
      assert (acc + ms)[i] == acc[i] && (acc + ms)[|acc|] == ms[0];
    }
  }

  lemma AscendingByName(a: seq<Member>, b: seq<Member>)
    requires Ascending(a) && |a| == |b| && forall i | 0 <= i < |a| :: a[i].name == b[i].name
    ensures Ascending(b)
  {
  }

  /** A value comes back as itself exactly if its member names are clean. */
  lemma {:induction false} RereadSame(v: Value)
    requires Plain(v)
    ensures Reread(v) == v <==> CleanNames(v)
  {
    hide Ascending, EntityFree;
    match v
    case VArray(items) =>
      RereadItemsPointwise(items);
      forall i | 0 <= i < |items| ensures Reread(items[i]) == items[i] <==> CleanNames(items[i]) {
        RereadSame(items[i]);
      }
    case VStruct(ms) =>
      forall i | 0 <= i < |ms| ensures Reread(ms[i].value) == ms[i].value <==> CleanNames(ms[i].value) {
        RereadSame(ms[i].value);
      }
      RereadStructSame(ms);
    case _ =>
  }

  lemma RereadStructSame(ms: seq<Member>)
    requires Ascending(ms)
    requires forall i | 0 <= i < |ms| :: Reread(ms[i].value) == ms[i].value <==> CleanNames(ms[i].value)
    ensures RereadMembers(ms, []) == ms <==>
      forall i | 0 <= i < |ms| :: EntityFree(ms[i].name) && CleanNames(ms[i].value)
  {
    hide Ascending, EntityFree, CleanNames, Reread, RereadMembers;
    var r := RereadMembers(ms, []);
    if forall i | 0 <= i < |ms| :: EntityFree(ms[i].name) {
      var none: seq<Member> := [];
      assert none + ms == ms;
      RereadMembersPointwise(ms, none);
      forall i | 0 <= i < |ms| ensures r[i] == Member(ms[i].name, Reread(ms[i].value)) {
        assert r[|none| + i] == r[i];
      }
    } else if r == ms {
      var i :| 0 <= i < |ms| && !EntityFree(ms[i].name);
      RereadHasNames(ms, [], "");
      UncleanNamesGrow(ms, i, LongestName(ms));
    }
  }

  predicate HasName(ms: seq<Member>, name: string) {
    exists i | 0 <= i < |ms| :: ms[i].name == name
  }

  lemma {:induction false} InsertHas(ms: seq<Member>, name: string, v: Value, other: string)
    ensures HasName(Insert(ms, name, v), name)
    ensures HasName(ms, other) ==> HasName(Insert(ms, name, v), other)
  {
    hide Less;
    if ms == [] {
      assert Insert(ms, name, v)[0].name == name;
    } else if name == ms[0].name {
    } else if Less(name, ms[0].name) {
      assert Insert(ms, name, v)[0].name == name;
      if HasName(ms, other) {
        var i :| 0 <= i < |ms| && ms[i].name == other;
        assert Insert(ms, name, v)[i + 1].name == other;
      }
    } else {
      InsertHas(ms[1..], name, v, other);
      InsertHasTail(ms, name, v, name);
      InsertHasTail(ms, name, v, other);
    }
  }

  lemma InsertHasTail(ms: seq<Member>, name: string, v: Value, other: string)
    requires ms != [] && Insert(ms, name, v) == [ms[0]] + Insert(ms[1..], name, v)
    ensures HasName(Insert(ms[1..], name, v), other) ==> HasName(Insert(ms, name, v), other)
    ensures HasName(ms, other) && !HasName(ms[1..], other) ==> HasName(Insert(ms, name, v), other)
  {
    hide Insert;
    var tail := Insert(ms[1..], name, v);
    var whole := [ms[0]] + tail;
    if HasName(tail, other) {
      var i :| 0 <= i < |tail| && tail[i].name == other;
      assert whole[i + 1].name == other;
    }
    HasNameSplit(ms, other);
    if ms[0].name == other {
      assert whole[0].name == other;
    }
  }

  lemma HasNameSplit(ms: seq<Member>, other: string)
    requires ms != []
    ensures HasName(ms, other) <==> ms[0].name == other || HasName(ms[1..], other)
  {
    if HasName(ms, other) {
      var i :| 0 <= i < |ms| && ms[i].name == other;
      if i > 0 {
        assert ms[1..][i - 1].name == other;
      }
    }
  }

  lemma {:induction false} RereadHasNames(ms: seq<Member>, acc: seq<Member>, other: string)
    ensures HasName(acc, other) ==> HasName(RereadMembers(ms, acc), other)
    ensures forall i | 0 <= i < |ms| :: HasName(RereadMembers(ms, acc), Encode(ms[i].name))
    decreases ms
  {
    hide Insert, Encode, Reread, HasName;
    if ms == [] {
    } else {
      var acc' := Insert(acc, Encode(ms[0].name), Reread(ms[0].value));
      InsertHas(acc, Encode(ms[0].name), Reread(ms[0].value), other);
      RereadHasNames(ms[1..], acc', other);
      RereadHasNames(ms[1..], acc', Encode(ms[0].name));
    }
  }

  /** No finite set of names holds an unclean name and, with each name, its encoding:
      the encodings of an unclean name grow without end. */
  lemma {:induction false} UncleanNamesGrow(ms: seq<Member>, i: nat, bound: nat)
    requires i < |ms| && !EntityFree(ms[i].name)
    requires forall k | 0 <= k < |ms| :: |ms[k].name| <= bound && HasName(ms, Encode(ms[k].name))
    ensures false
    decreases bound - |ms[i].name|
  {
    hide Encode, EntityFree;
    EncodeLength(ms[i].name);
    var k :| 0 <= k < |ms| && ms[k].name == Encode(ms[i].name);
    EncodedStaysUnclean(ms[i].name);
    UncleanNamesGrow(ms, k, bound);
  }

  lemma {:induction false} EncodedStaysUnclean(s: string)
    requires !EntityFree(s)
    ensures !EntityFree(Encode(s))
  {
    EntityFreeSplit(s);
    var e := Encode(s);
    if IsEntityChar(s[0]) {
      assert e[0] == '&';
    } else {
      EncodedStaysUnclean(s[1..]);
      var k :| 0 <= k < |Encode(s[1..])| && IsEntityChar(Encode(s[1..])[k]);
      assert e[k + 1] == Encode(s[1..])[k];
    }
  }

  function LongestName(ms: seq<Member>): (r: nat)
    ensures forall k | 0 <= k < |ms| :: |ms[k].name| <= r
  {
    if ms == [] then 0
    else
      var rest := LongestName(ms[1..]);
      if |ms[0].name| > rest then |ms[0].name| else rest
  }

  // --------------------------------------------------- what the parser can return

  /** Each struct in the value lists its members as a `std::map` does. */
  predicate MapOrdered(v: Value) {
    match v
    case VArray(items) => forall i | 0 <= i < |items| :: MapOrdered(items[i])
    case VStruct(ms) => Ascending(ms) && forall i | 0 <= i < |ms| :: MapOrdered(ms[i].value)
    case _ => true
  }

  lemma {:induction false} InsertAscending(ms: seq<Member>, name: string, v: Value)
    requires Ascending(ms)
    ensures Ascending(Insert(ms, name, v))
    ensures forall i | 0 <= i < |Insert(ms, name, v)| ::
      Insert(ms, name, v)[i] == Member(name, v) || Insert(ms, name, v)[i] in ms
  {
    hide Less;
    if ms != [] && name != ms[0].name {
      if Less(name, ms[0].name) {
        forall j | 0 <= j < |ms| ensures Less(name, ms[j].name) {
          if j > 0 { LessTransitive(name, ms[0].name, ms[j].name); }
        }
      } else {
        LessTotal(name, ms[0].name);
        InsertAscending(ms[1..], name, v);
        var r := Insert(ms[1..], name, v);
        forall j | 0 <= j < |r| ensures Less(ms[0].name, r[j].name) && (r[j] == Member(name, v) || r[j] in ms) {
          if r[j] in ms[1..] {
            var k :| 0 <= k < |ms[1..]| && ms[1..][k] == r[j];
            assert ms[k + 1] == r[j];
          }
        }
      }
    }
  }

  predicate SoundItems(items: seq<Value>) {
    forall i | 0 <= i < |items| :: Valued(items[i]) && MapOrdered(items[i])
  }

  ghost predicate SoundMembers(ms: seq<Member>) {
    Ascending(ms) && forall m | m in ms :: Valued(m.value) && MapOrdered(m.value)
  }

  /** Whatever the text, a value that was read has no unset part and its structs are
      proper maps. */
  lemma {:induction false} ParsedIsSound(lib: Library, xml: string, o: nat)
    ensures var p := ParseValue(lib, xml, o); p.Parsed? ==> Valued(p.value) && MapOrdered(p.value)
    decreases Left(xml, o), 2
  {
    hide NextEndTag, Closed, ParseTyped, NextTag;
    var t := NextTag("value", xml, o);
    if t.Tag? && !t.empty && NextEndTag("value", xml, t.end).None? {
      TypedIsSound(lib, xml, t.end);
    }
  }

  lemma {:induction false} TypedIsSound(lib: Library, xml: string, o: nat)
    requires o <= |xml|
    ensures var p := ParseTyped(lib, xml, o); p.Parsed? ==> Valued(p.value) && MapOrdered(p.value)
    decreases Left(xml, o), 2
  {
    hide NextEndTag, Closed, ParseArray, ParseMembers, NextTag, ParseBool, ParseInt, ParseString, ParseLexeme,
      ParseDouble;
    var t := NextTag("array", xml, o);
    if t.Tag? {
      ArrayIsSound(lib, xml, t.end);
    }
    var u := NextTag("struct", xml, o);
    if u.Tag? {
      MembersAreSound(lib, xml, u.end, []);
    }
  }

  lemma {:induction false} ArrayIsSound(lib: Library, xml: string, o: nat)
    requires o <= |xml|
    ensures var p := ParseArray(lib, xml, o); p.Parsed? ==> Valued(p.value) && MapOrdered(p.value)
    decreases Left(xml, o), 2
  {
    hide NextTag, ParseItems, SkipEndTag;
    var t := NextTag("data", xml, o);
    if t.Tag? && !t.empty {
      ItemsAreSound(lib, xml, t.end);
    }
  }

  lemma {:induction false} ItemsAreSound(lib: Library, xml: string, o: nat)
    requires o <= |xml|
    ensures var r := ParseItems(lib, xml, o); r.Items? ==> SoundItems(r.items)
    decreases Left(xml, o), 3
  {
    hide ParseValue, Valued, MapOrdered;
    ParsedIsSound(lib, xml, o);
    var p := ParseValue(lib, xml, o);
    if p.Parsed? {
      ItemsAreSound(lib, xml, p.end);
    }
  }

  lemma {:induction false} MembersAreSound(lib: Library, xml: string, o: nat, ms: seq<Member>)
    requires o <= |xml| && SoundMembers(ms)
    ensures var p := ParseMembers(lib, xml, o, ms); p.Parsed? ==> SoundMembers(p.value.members)
    decreases Left(xml, o), 3
  {
    hide ParseValue, Valued, MapOrdered, NextTag, FindElement, Insert, Ascending, SkipEndTag;
    var t := NextTag("member", xml, o);
    if t.Tag? {
      var name := FindElement("name", xml, t.end);
      if t.empty || name.NoElement? {
        MembersAreSound(lib, xml, t.end, ms);
      } else {
        ParsedIsSound(lib, xml, name.end);
        var p := ParseValue(lib, xml, name.end);
        if p.Parsed? {
          InsertAscending(ms, name.text, p.value);
          MembersAreSound(lib, xml, SkipEndTag("member", xml, p.end), Insert(ms, name.text, p.value));
        }
      }
    }
  }

  /** The round trip, for every value this code prints by itself and in every context:
      the value comes back as it was, and the offset stands exactly behind its text,
      if and only if it has no unset part, no NUL in a string and no entity
      character in a member name. */
  lemma RoundTrip(lib: Library, v: Value, s: string, o: nat)
    requires Plain(v) && At(s, o, Xml(lib, v))
    ensures ParseValue(lib, s, o) == Parsed(v, o + |Xml(lib, v)|) <==> RoundTrips(v)
  {
    hide Plain, ParseValue, Xml, CleanNames, NulFreeText, Valued, Reread;
    if !Valued(v) {
      ParsedIsSound(lib, s, o);
    } else {
      ReadBack(lib, v, s, o);
      RereadSame(v);
    }
  }
}
