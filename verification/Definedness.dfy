/** Where reading a value is undefined: for an empty `<base64/>` the code looks for the end
    of the data from behind a null offset. */
module Definedness {
  import opened Text
  import opened XmlRpcUtil
  import opened ValueSyntax
  import opened Messages

  /** A `<value>` whose first element is an empty `<base64/>` begins at `o`, white space aside. */
  predicate BadValueAt(xml: string, o: nat) {
    var t := NextTag("value", xml, o);
    t.Tag? && !t.empty && NextTag("base64", xml, t.end).Tag? && NextTag("base64", xml, t.end).empty
  }

  predicate HasBadValue(xml: string) {
    exists o | 0 <= o < |xml| :: BadValueAt(xml, o)
  }

  /** On a text without such a value, reading one is defined at every offset. */
  lemma {:induction false} ValueDefined(lib: Library, xml: string, o: nat)
    requires !HasBadValue(xml)
    ensures ParseValue(lib, xml, o) != Undefined
    decreases Left(xml, o), 2
  {
    hide NextTag, NextEndTag, ParseTyped, ParseString, HasBadValue;
    var t := NextTag("value", xml, o);
    if t.Tag? && !t.empty {
      NotBadHere(xml, o);
      TypedDefined(lib, xml, t.end);
    }
  }

  lemma NotBadHere(xml: string, o: nat)
    requires !HasBadValue(xml)
    ensures !BadValueAt(xml, o)
  {
    hide SkipSpaces;
  }

  lemma {:induction false} TypedDefined(lib: Library, xml: string, o: nat)
    requires o <= |xml| && !HasBadValue(xml)
    requires !(NextTag("base64", xml, o).Tag? && NextTag("base64", xml, o).empty)
    ensures ParseTyped(lib, xml, o) != Undefined
    decreases Left(xml, o), 2
  {
    hide NextTag, NextEndTag, ParseBool, ParseInt, ParseString, ParseDouble, ParseLexeme, ParseNested, Closed,
      HasBadValue;
    NestedDefined(lib, xml, o);
  }

  lemma {:induction false} NestedDefined(lib: Library, xml: string, o: nat)
    requires o <= |xml| && !HasBadValue(xml)
    ensures ParseNested(lib, xml, o) != Undefined
    decreases Left(xml, o), 1
  {
    hide NextTag, NextEndTag, ParseArray, ParseMembers, HasBadValue;
    var t := NextTag("array", xml, o);
    if t.Tag? {
      ArrayDefined(lib, xml, t.end);
    } else if NextTag("struct", xml, o).Tag? {
      MembersDefined(lib, xml, NextTag("struct", xml, o).end, []);
    }
  }

  lemma {:induction false} ArrayDefined(lib: Library, xml: string, o: nat)
    requires o <= |xml| && !HasBadValue(xml)
    ensures ParseArray(lib, xml, o) != Undefined
    decreases Left(xml, o), 1
  {
    hide NextTag, NextEndTag, ParseItems, HasBadValue;
    var t := NextTag("data", xml, o);
    if t.Tag? && !t.empty {
      ItemsDefined(lib, xml, t.end);
    }
  }

  lemma {:induction false} ItemsDefined(lib: Library, xml: string, o: nat)
    requires o <= |xml| && !HasBadValue(xml)
    ensures ParseItems(lib, xml, o) != UndefinedItems
    decreases Left(xml, o), 3
  {
    hide ParseValue, HasBadValue;
    ValueDefined(lib, xml, o);
    var p := ParseValue(lib, xml, o);
    if p.Parsed? {
      ItemsDefined(lib, xml, p.end);
    }
  }

  lemma {:induction false} MembersDefined(lib: Library, xml: string, o: nat, ms: seq<Member>)
    requires o <= |xml| && !HasBadValue(xml)
    ensures ParseMembers(lib, xml, o, ms) != Undefined
    decreases Left(xml, o), 1
  {
    hide NextTag, NextEndTag, ParseValue, FindElement, Insert, HasBadValue;
    var t := NextTag("member", xml, o);
    if t.Tag? {
      var name := FindElement("name", xml, t.end);
      if t.empty || name.NoElement? {
        MembersDefined(lib, xml, t.end, ms);
      } else {
        ValueDefined(lib, xml, name.end);
        var p := ParseValue(lib, xml, name.end);
        if p.Parsed? {
          MembersDefined(lib, xml, SkipEndTag("member", xml, p.end), Insert(ms, name.text, p.value));
        }
      }
    }
  }

  lemma {:induction false} ParamsDefined(lib: Library, xml: string, o: nat)
    requires o <= |xml| && !HasBadValue(xml)
    ensures ParseParams(lib, xml, o).Some?
    decreases Left(xml, o)
  {
    hide NextTag, NextEndTag, ParseValue, HasBadValue;
    var t := NextTag("param", xml, o);
    if t.Tag? {
      ValueDefined(lib, xml, t.end);
      var p := ParseValue(lib, xml, t.end);
      ParamsDefined(lib, xml,
        if t.empty then t.end else SkipEndTag("param", xml, if p.Parsed? then p.end else t.end));
    }
  }

  /** So are the parsing of responses, and of requests that hold no empty identification. */
  lemma MessagesDefined(lib: Library, xml: string)
    requires !HasBadValue(xml)
    ensures ParseRequest(lib, xml).Some? <==> ClientId(xml).Some?
    ensures ParseResponse(lib, xml).Some?
  {
    hide ClientId, NextTag, FindElement, FindStartTag, ParseValue, ParseParams, HasBadValue;
    forall o: nat | o <= |xml| ensures ParseParams(lib, xml, o).Some? { ParamsDefined(lib, xml, o); }
    forall o: nat ensures ParseValue(lib, xml, o) != Undefined { ValueDefined(lib, xml, o); }
  }

  /** No two of the types' tags stand at one place, if they differ at a character both have. */
  lemma OneTag(tag: string, there: string, xml: string, o: nat, k: nat)
    requires NextTag(there, xml, o).Tag? && k < |tag| && k < |there| && tag[k] != there[k]
    ensures NextTag(tag, xml, o) == NoTag
  {
    hide At;
    var start := SkipSpaces(xml, o);
    AtIndex(xml, start, "<" + there, k + 1);
    if At(xml, start, "<" + tag) {
      AtIndex(xml, start, "<" + tag, k + 1);
    }
  }

  /** In front of a tag stands no end tag, white space aside. */
  lemma NoEndTagHere(tag: string, there: string, xml: string, o: nat)
    requires NextTag(there, xml, o).Tag? && there != "" && there[0] != '/'
    ensures NextEndTag(tag, xml, o) == None
  {
    hide At;
    var start := SkipSpaces(xml, o);
    AtIndex(xml, start, "<" + there, 0);
    AtIndex(xml, start, "<" + there, 1);
    AtBound(xml, start, "<" + there);
    TextEndIs(xml, o, start);
    AtClose(xml, start, tag);
    AtOne(xml, start + 1, '/');
  }

  /** A `<value>` that holds an empty `<base64/>` is always read in undefined behaviour. */
  lemma EmptyBase64Undefined(lib: Library, xml: string, o: nat)
    requires BadValueAt(xml, o)
    ensures ParseValue(lib, xml, o) == Undefined
  {
    hide NextTag, NextEndTag, ParseBool, ParseInt, ParseString, ParseDouble, ParseLexeme, ParseNested;
    var inner := NextTag("value", xml, o).end;
    NoEndTagHere("value", "base64", xml, inner);
    OneTag("nil", "base64", xml, inner, 0);
    OneTag("boolean", "base64", xml, inner, 1);
    OneTag("i4", "base64", xml, inner, 0);
    OneTag("int", "base64", xml, inner, 0);
    OneTag("double", "base64", xml, inner, 0);
    OneTag("string", "base64", xml, inner, 0);
    OneTag("dateTime.iso8601", "base64", xml, inner, 0);
  }

  /** Reading values is defined at all offsets of exactly the texts without such a value. */
  lemma DefinedExactly(lib: Library, xml: string)
    ensures (forall o: nat :: ParseValue(lib, xml, o) != Undefined) <==> !HasBadValue(xml)
  {
    hide ParseValue, NextTag;
    if HasBadValue(xml) {
      var o: nat :| o < |xml| && BadValueAt(xml, o);
      EmptyBase64Undefined(lib, xml, o);
    } else {
      forall o: nat ensures ParseValue(lib, xml, o) != Undefined { ValueDefined(lib, xml, o); }
    }
  }

  /** The shortest such text. */
  lemma ShortestUndefined(lib: Library)
    ensures ParseValue(lib, "<value><base64/></value>", 0) == Undefined
  {
    hide ParseValue, NextTag;
    var xml := "<value>" + "<base64/>" + "</value>";
    assert xml == "<value><base64/></value>";
    ValueTagHere(xml);
    EmptyTagHere(xml, 7);
    EmptyBase64Undefined(lib, xml, 0);
  }

  lemma ValueTagHere(xml: string)
    requires |xml| >= 7 && xml[..7] == "<value>"
    ensures NextTag("value", xml, 0) == Tag(7, false)
  {
    hide SkipSpaces;
    assert xml[..7][0] == '<';
    assert At(xml, 0, Open("value"));
    NextTagAtOpen("value", xml, 0);
  }

  lemma EmptyTagHere(xml: string, o: nat)
    requires o + 9 <= |xml| && xml[o..o + 9] == "<base64/>"
    ensures NextTag("base64", xml, o) == Tag(o + 9, true)
  {
    assert xml[o..o + 9][0] == '<' && xml[o..o + 9][7] == '/';
    assert xml[o..o + 7] == xml[o..o + 9][..7] == "<base64";
    assert xml[o + 7..o + 9] == xml[o..o + 9][7..] == "/>";
  }
}
