/** `class XmlRpcValue`: reading sets the object's value and advances an offset in
    loops, printing accumulates a string; both are proved against the functions of
    module `ValueSyntax`. Elements of arrays and structs are held by value. */
module XmlRpcValueObject {
  import opened Text
  import opened XmlRpcUtil
  import opened ValueSyntax

  /** `<tag>` text ends in a '<', so the untyped string before `</value>` is always read. */
  lemma TextBeforeEndTag(tag: string, xml: string, o: nat)
    requires NextEndTag(tag, xml, o).Some?
    ensures ParseString(xml, o).Parsed?
  {
    hide Decode;
    var end := TextEnd(xml, o);
    AtClose(xml, end, tag);
    AtOne(xml, end, '<');
  }

  class XmlRpcValue {
    var value: Value

    constructor ()
      ensures value == VInvalid
    {
      value := VInvalid;
    }

    method BoolFromXml(xml: string, offset: nat) returns (ok: bool, offset': nat)
      requires offset <= |xml|
      modifies this
      ensures ok ==> ParseBool(xml, offset) == Parsed(value, offset')
      ensures !ok ==> ParseBool(xml, offset) == Failed && offset' == offset
    {
      var n := ParseLong(xml, offset);
      if n.end == offset || (n.value != 0 && n.value != 1) {
        return false, offset;
      }
      value := VBool(n.value == 1);
      return true, n.end;
    }

    method IntFromXml(xml: string, offset: nat) returns (ok: bool, offset': nat)
      requires offset <= |xml|
      modifies this
      ensures ok ==> ParseInt(xml, offset) == Parsed(value, offset')
      ensures !ok ==> ParseInt(xml, offset) == Failed && offset' == offset
    {
      var n := ParseLong(xml, offset);
      if n.end == offset {
        return false, offset;
      }
      value := VInt(ToInt32(n.value));
      return true, n.end;
    }

    method StringFromXml(xml: string, offset: nat) returns (ok: bool, offset': nat)
      modifies this
      ensures ok ==> ParseString(xml, offset) == Parsed(value, offset')
      ensures !ok ==> ParseString(xml, offset) == Failed && offset' == offset
    {
      var valueEnd := Find(xml, "<", offset);
      if valueEnd.None? {
        return false, offset;
      }
      var s := XmlDecode(xml[offset..valueEnd.value]);
      value := VString(s);
      return true, offset + |s|;
    }

    /** `doubleFromXml`, `timeFromXml` and `binaryFromXml`. */
    method LexemeFromXml(lib: Library, kind: Lexical, xml: string, offset: nat) returns (ok: bool, offset': nat)
      requires offset <= |xml|
      modifies this
      ensures var p := if kind == Double then ParseDouble(lib, xml, offset) else ParseLexeme(lib, kind, xml, offset);
        (ok ==> p == Parsed(value, offset')) && (!ok ==> p == Failed && offset' == offset)
    {
      ok, offset' := false, offset;
      if kind == Double {
        var end := DoubleEnd(lib, xml, offset);
        if end != offset {
          value := VLexeme(Double, xml[offset..end]);
          return true, end;
        }
      } else {
        var valueEnd := Find(xml, "<", offset);
        if valueEnd.None? {
          return;
        }
        var text := xml[offset..valueEnd.value];
        if kind == DateTime && !lib.isDate(text) {
          return;
        }
        value := VLexeme(kind, text);
        return true, valueEnd.value;
      }
    }

    /** `fromXml`. Where the original reads through a null offset, `defined` is false and
        nothing else is promised. */
    method FromXml(lib: Library, xml: string, offset: nat) returns (defined: bool, ok: bool, offset': nat)
      modifies this
      ensures defined <==> ParseValue(lib, xml, offset) != Undefined
      ensures defined && ok ==> ParseValue(lib, xml, offset) == Parsed(value, offset')
      ensures defined && !ok ==> ParseValue(lib, xml, offset) == Failed && offset' == offset
      decreases Left(xml, offset), 1
    {
      hide NextTag, NextEndTag, ParseTyped, ParseString;
      value := VInvalid;
      var found, inner, emptyTag := NextTagIs("value", xml, offset);
      if !found {
        return true, false, offset;
      }
      if emptyTag {
        value := VString("");
        return true, true, inner;
      }
      var o;
      found, o := NextTagIsEnd("value", xml, inner);
      if found {
        TextBeforeEndTag("value", xml, inner);
        var valueOffset;
        ok, valueOffset := StringFromXml(xml, inner);
        return true, ok, o;
      }
      var result;
      defined, result, o := TypedFromXml(lib, xml, inner);
      if !defined {
        return false, false, offset;
      }
      if result {
        result, o := NextTagIsEnd("value", xml, o);
      }
      if !result {
        return true, false, offset;
      }
      return true, true, o;
    }

    /** The chain of type tags in `fromXml`. */
    method TypedFromXml(lib: Library, xml: string, offset: nat) returns (defined: bool, result: bool, o: nat)
      requires offset <= |xml|
      modifies this
      ensures defined <==> ParseTyped(lib, xml, offset) != Undefined
      ensures defined && result ==> ParseTyped(lib, xml, offset) == Parsed(value, o)
      ensures defined && !result ==> ParseTyped(lib, xml, offset) == Failed
      decreases Left(xml, offset), 1
    {
      hide NextTag, NextEndTag, ParseBool, ParseInt, ParseString, ParseDouble, ParseLexeme, ParseArray, ParseMembers;
      defined := true;
      var found, emptyTag;
      found, o, emptyTag := NextTagIs("nil", xml, offset);
      if found {
        value := VNil;
        return true, true, o;
      }
      found, o, emptyTag := NextTagIs("boolean", xml, offset);
      if found {
        if emptyTag {
          value := VBool(false);
          return true, true, o;
        }
        result, o := BoolFromXml(xml, o);
        if result {
          result, o := NextTagIsEnd("boolean", xml, o);
        }
        return;
      }
      found, o, emptyTag := NextTagIs("i4", xml, offset);
      if found {
        if emptyTag {
          value := VInt(0);
          return true, true, o;
        }
        result, o := IntFromXml(xml, o);
        if result {
          result, o := NextTagIsEnd("i4", xml, o);
        }
        return;
      }
      found, o, emptyTag := NextTagIs("int", xml, offset);
      if found {
        if emptyTag {
          value := VInt(0);
          return true, true, o;
        }
        result, o := IntFromXml(xml, o);
        if result {
          result, o := NextTagIsEnd("int", xml, o);
        }
        return;
      }
      found, o, emptyTag := NextTagIs("double", xml, offset);
      if found {
        if emptyTag {
          value := VLexeme(Double, "0");
          return true, true, o;
        }
        result, o := LexemeFromXml(lib, Double, xml, o);
        if result {
          result, o := NextTagIsEnd("double", xml, o);
        }
        return;
      }
      found, o, emptyTag := NextTagIs("string", xml, offset);
      if found {
        if emptyTag {
          value := VString("");
          return true, true, o;
        }
        result, o := StringFromXml(xml, o);
        if result {
          result, o := NextTagIsEnd("string", xml, o);
        }
        return;
      }
      found, o, emptyTag := NextTagIs("dateTime.iso8601", xml, offset);
      if found {
        if emptyTag {
          return true, false, o;
        }
        result, o := LexemeFromXml(lib, DateTime, xml, o);
        if result {
          result, o := NextTagIsEnd("dateTime.iso8601", xml, o);
        }
        return;
      }
      found, o, emptyTag := NextTagIs("base64", xml, offset);
      if found {
        if emptyTag {
          return false, false, o;
        }
        result, o := LexemeFromXml(lib, Base64, xml, o);
        if result {
          result, o := NextTagIsEnd("base64", xml, o);
        }
        return;
      }
      defined, result, o := NestedFromXml(lib, xml, offset);
    }

    method NestedFromXml(lib: Library, xml: string, offset: nat) returns (defined: bool, result: bool, o: nat)
      requires offset <= |xml|
      modifies this
      ensures defined <==> ParseNested(lib, xml, offset) != Undefined
      ensures defined && result ==> ParseNested(lib, xml, offset) == Parsed(value, o)
      ensures defined && !result ==> ParseNested(lib, xml, offset) == Failed
      decreases Left(xml, offset), 0
    {
      hide NextTag, NextEndTag, ParseArray, ParseMembers;
      var found, emptyTag;
      found, o, emptyTag := NextTagIs("array", xml, offset);
      if found {
        if emptyTag {
          return true, false, o;
        }
        defined, result, o := ArrayFromXml(lib, xml, o);
        if defined && result {
          result, o := NextTagIsEnd("array", xml, o);
        }
        return;
      }
      found, o, emptyTag := NextTagIs("struct", xml, offset);
      if found {
        if emptyTag {
          return true, false, o;
        }
        defined, result, o := StructFromXml(lib, xml, o);
        if defined && result {
          result, o := NextTagIsEnd("struct", xml, o);
        }
        return;
      }
      return true, false, offset;
    }

    method ArrayFromXml(lib: Library, xml: string, offset: nat) returns (defined: bool, ok: bool, offset': nat)
      requires offset <= |xml|
      modifies this
      ensures defined <==> ParseArray(lib, xml, offset) != Undefined
      ensures defined && ok ==> ParseArray(lib, xml, offset) == Parsed(value, offset')
      ensures defined && !ok ==> ParseArray(lib, xml, offset) == Failed
      decreases Left(xml, offset), 0
    {
      hide NextTag, NextEndTag, ParseValue, ParseItems;
      var found, inner, emptyTag := NextTagIs("data", xml, offset);
      if !found {
        return true, false, offset;
      }
      value := VArray([]);
      offset' := inner;
      if !emptyTag {
        var v := new XmlRpcValue();
        var more := true;
        while more
          invariant value.VArray? && inner <= offset' <= |xml|
          invariant ParseItems(lib, xml, inner) ==
            if more then Behind(value.items, ParseItems(lib, xml, offset')) else Items(value.items, offset')
          decreases Left(xml, offset'), more
        {
          ItemsStep(lib, xml, offset', value.items);
          defined, more, offset' := v.FromXml(lib, xml, offset');
          if !defined {
            return false, false, offset;
          }
          if more {
            value := VArray(value.items + [v.value]);
          }
        }
        found, offset' := NextTagIsEnd("data", xml, offset');
      }
      defined, ok := true, true;
    }

    method StructFromXml(lib: Library, xml: string, offset: nat) returns (defined: bool, ok: bool, offset': nat)
      requires offset <= |xml|
      modifies this
      ensures defined <==> ParseMembers(lib, xml, offset, []) != Undefined
      ensures defined && ok ==> ParseMembers(lib, xml, offset, []) == Parsed(value, offset')
      ensures defined && !ok ==> ParseMembers(lib, xml, offset, []) == Failed
      decreases Left(xml, offset), 1
    {
      hide NextTag, NextEndTag, ParseValue, FindElement, Insert;
      value := VStruct([]);
      var found, emptyTag;
      found, offset', emptyTag := NextTagIs("member", xml, offset);
      while found
        invariant value.VStruct? && offset <= offset' <= |xml|
        invariant found ==> offset < offset'
        invariant ParseMembers(lib, xml, offset, []) ==
          if found then AfterMemberTag(lib, xml, offset', emptyTag, value.members) else Parsed(value, offset')
        decreases Left(xml, offset'), found
      {
        ghost var inner := offset';
        if !emptyTag {
          var named, name;
          named, offset', name := ParseTag("name", xml, offset', "");
          if named {
            var val := new XmlRpcValue();
            var valid;
            defined, valid, offset' := val.FromXml(lib, xml, offset');
            if !defined {
              return false, false, offset;
            }
            if !valid {
              value := VInvalid;
              return true, false, offset';
            }
            value := VStruct(Insert(value.members, name, val.value));
            var skipped;
            skipped, offset' := NextTagIsEnd("member", xml, offset');
          }
        }
        found, offset', emptyTag := NextTagIs("member", xml, offset');
      }
      defined, ok := true, true;
    }

    method ToXml(lib: Library) returns (xml: string)
      ensures xml == Xml(lib, value)
    {
      xml := Print(lib, value);
    }

    static method Print(lib: Library, v: Value) returns (xml: string)
      ensures xml == Xml(lib, v)
      decreases v, 1
    {
      hide Xml;
      match v {
        case VInvalid =>
          xml := "";
          InvalidText(lib);
        case VNil =>
          xml := "<value><nil/></value>";
          NilText(lib);
        case VBool(b) =>
          xml := if b then "<value><boolean>1</boolean></value>" else "<value><boolean>0</boolean></value>";
          BoolText(lib, b);
        case VInt(n) =>
          xml := "<value><i4>" + Decimal(n) + "</i4></value>";
          IntText(lib, n);
        case VString(s) =>
          var encoded := XmlEncode(s);
          xml := "<value>" + encoded + "</value>";
          StringText(lib, s);
        case VLexeme(_, _) =>
          xml := lib.printed(v);
          LexemeText(lib, v);
        case VArray(items) => xml := ArrayToXml(lib, items);
        case VStruct(members) => xml := StructToXml(lib, members);
      }
    }

    static method ArrayToXml(lib: Library, items: seq<Value>) returns (xml: string)
      ensures xml == Xml(lib, VArray(items))
      decreases items, 0
    {
      hide Xml;
      xml := "<value><array><data>";
      var i := 0;
      while i < |items|
        invariant i <= |items|
        invariant xml + ItemsXml(lib, items[i..]) == "<value><array><data>" + ItemsXml(lib, items)
      {
        var item := Print(lib, items[i]);
        Regroup(xml, item, ItemsXml(lib, items[i + 1..]));
        assert items[i..][1..] == items[i + 1..];
        xml := xml + item;
        i := i + 1;
      }
      assert xml == "<value><array><data>" + ItemsXml(lib, items);
      xml := xml + "</data></array></value>";
      ArrayText(lib, items);
    }

    static method StructToXml(lib: Library, members: seq<Member>) returns (xml: string)
      ensures xml == Xml(lib, VStruct(members))
      decreases members, 0
    {
      hide Xml;
      xml := "<value><struct>";
      var i := 0;
      while i < |members|
        invariant i <= |members|
        invariant xml + MembersXml(lib, members[i..]) == "<value><struct>" + MembersXml(lib, members)
      {
        var name := XmlEncode(members[i].name);
        var val := Print(lib, members[i].value);
        var member := "<member><name>" + name + "</name>" + val + "</member>";
        MemberText(lib, members[i]);
        Regroup(xml, member, MembersXml(lib, members[i + 1..]));
        assert members[i..][1..] == members[i + 1..];
        xml := xml + member;
        i := i + 1;
      }
      assert xml == "<value><struct>" + MembersXml(lib, members);
      xml := xml + "</struct></value>";
      StructText(lib, members);
    }
  }

  /** Items that were read before others. */
  function Behind(sofar: seq<Value>, r: Items): Items {
    match r
    case UndefinedItems => UndefinedItems
    case Items(items, end) => Items(sofar + items, end)
  }

  lemma ItemsStep(lib: Library, xml: string, o: nat, sofar: seq<Value>)
    requires o <= |xml|
    ensures var p := ParseValue(lib, xml, o);
      Behind(sofar, ParseItems(lib, xml, o)) ==
        if p.Undefined? then UndefinedItems
        else if p.Failed? then Items(sofar, o)
        else Behind(sofar + [p.value], ParseItems(lib, xml, p.end))
  {
    hide ParseValue;
    var p := ParseValue(lib, xml, o);
    if p.Parsed? && ParseItems(lib, xml, p.end).Items? {
      assert sofar + ([p.value] + ParseItems(lib, xml, p.end).items)
        == sofar + [p.value] + ParseItems(lib, xml, p.end).items;
    }
  }

  /** `structFromXml`'s loop body, from behind a `<member>` tag. */
  function AfterMemberTag(lib: Library, xml: string, inner: nat, emptyTag: bool, ms: seq<Member>): Parsed
    requires inner <= |xml|
  {
    if emptyTag then ParseMembers(lib, xml, inner, ms)
    else match FindElement("name", xml, inner)
      case NoElement => ParseMembers(lib, xml, inner, ms)
      case Element(value, name) =>
        match ParseValue(lib, xml, value)
        case Undefined => Undefined
        case Failed => Failed
        case Parsed(v, end) => ParseMembers(lib, xml, SkipEndTag("member", xml, end), Insert(ms, name, v))
  }

  lemma Nested(a: string, b: string, x: string)
    ensures Wrap(a, Wrap(b, x)) == (Open(a) + Open(b)) + x + (Close(b) + Close(a))
  {
    hide Open, Close;
  }

  lemma InvalidText(lib: Library)
    ensures Xml(lib, VInvalid) == ""
  {
  }

  lemma LexemeText(lib: Library, v: Value)
    requires v.VLexeme?
    ensures Xml(lib, v) == lib.printed(v)
  {
  }

  lemma NilText(lib: Library)
    ensures Xml(lib, VNil) == "<value><nil/></value>"
  {
  }

  lemma BoolText(lib: Library, b: bool)
    ensures Xml(lib, VBool(b)) ==
      if b then "<value><boolean>1</boolean></value>" else "<value><boolean>0</boolean></value>"
  {
    var d := if b then "1" else "0";
    BooleanTags();
    BooleanAround(d);
    if b {
      assert "<value><boolean>" + "1" + "</boolean></value>" == "<value><boolean>1</boolean></value>";
    } else {
      assert "<value><boolean>" + "0" + "</boolean></value>" == "<value><boolean>0</boolean></value>";
    }
  }

  lemma BooleanAround(d: string)
    ensures Wrap("value", Wrap("boolean", d))
      == (Open("value") + Open("boolean")) + d + (Close("boolean") + Close("value"))
  {
    Nested("value", "boolean", d);
  }

  lemma BooleanTags()
    ensures Open("value") + Open("boolean") == "<value><boolean>"
    ensures Close("boolean") + Close("value") == "</boolean></value>"
  {
  }

  lemma IntText(lib: Library, n: Int32)
    ensures Xml(lib, VInt(n)) == "<value><i4>" + Decimal(n) + "</i4></value>"
  {
    hide Decimal;
    Nested("value", "i4", Decimal(n));
    assert Open("value") + Open("i4") == "<value><i4>";
    assert Close("i4") + Close("value") == "</i4></value>";
  }

  lemma StringText(lib: Library, s: string)
    ensures Xml(lib, VString(s)) == "<value>" + Encode(s) + "</value>"
  {
    hide Encode;
  }

  lemma ArrayText(lib: Library, items: seq<Value>)
    ensures Xml(lib, VArray(items)) == "<value><array><data>" + ItemsXml(lib, items) + "</data></array></value>"
  {
    hide ItemsXml, Open, Close, Wrap;
    var x := ItemsXml(lib, items);
    ArrayTags();
    assert Wrap("value", Wrap("array", Wrap("data", x)))
      == (Open("value") + Open("array") + Open("data")) + x + (Close("data") + Close("array") + Close("value")) by {
      Nested3("value", "array", "data", x);
    }
  }

  lemma Nested3(a: string, b: string, c: string, x: string)
    ensures Wrap(a, Wrap(b, Wrap(c, x))) == (Open(a) + Open(b) + Open(c)) + x + (Close(c) + Close(b) + Close(a))
  {
    hide Open, Close;
  }

  lemma ArrayTags()
    ensures Open("value") + Open("array") + Open("data") == "<value><array><data>"
    ensures Close("data") + Close("array") + Close("value") == "</data></array></value>"
  {
    assert Open("value") + Open("array") == "<value><array>";
    assert Close("data") + Close("array") == "</data></array>";
  }

  lemma StructText(lib: Library, ms: seq<Member>)
    ensures Xml(lib, VStruct(ms)) == "<value><struct>" + MembersXml(lib, ms) + "</struct></value>"
  {
    hide MembersXml;
    Nested("value", "struct", MembersXml(lib, ms));
    assert Open("value") + Open("struct") == "<value><struct>";
    assert Close("struct") + Close("value") == "</struct></value>";
  }

  lemma MemberText(lib: Library, m: Member)
    ensures MemberXml(lib, m) == "<member><name>" + Encode(m.name) + "</name>" + Xml(lib, m.value) + "</member>"
  {
    hide Encode, Xml;
    var e, x := Encode(m.name), Xml(lib, m.value);
    assert Wrap("name", e) == "<name>" + e + "</name>";
  }
}
