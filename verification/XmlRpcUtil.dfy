/** The tag scanners and the entity coding of `XmlRpcUtil`. Each scanning loop is a
    method; the function it is proved against says what the scan finds. */
module XmlRpcUtil {
  import opened Text

  /** The start and end tags of an element. */
  function Open(tag: string): string { "<" + tag + ">" }

  function Close(tag: string): string { "</" + tag + ">" }

  // ------------------------------------------------------------ tag scanners

  datatype Tag = NoTag | Tag(end: nat, empty: bool)

  /** `<tag>` or `<tag/>` stands at `o`, white space aside; `end` follows its '>'. */
  function NextTag(tag: string, xml: string, o: nat): (r: Tag)
    ensures r.Tag? ==> o < r.end <= |xml|
  {
    if o >= |xml| then NoTag
    else
      var start := SkipSpaces(xml, o);
      var stop := start + 1 + |tag|;
      if !At(xml, start, "<" + tag) then NoTag
      else if CharAt(xml, stop) == '>' then Tag(stop + 1, false)
      else
        var slash := SkipSpaces(xml, stop);
        if At(xml, slash, "/>") then Tag(slash + 2, true) else NoTag
  }

  /** Where a scan for '<' from `o` stops: at a '<', at a NUL, or at the end. */
  function TextEnd(xml: string, o: nat): (r: nat)
    requires o <= |xml|
    ensures o <= r <= |xml|
    ensures forall i | o <= i < r :: xml[i] != '<' && xml[i] != '\0'
    ensures r < |xml| ==> xml[r] == '<' || xml[r] == '\0'
    decreases |xml| - o
  {
    if o < |xml| && xml[o] != '<' && xml[o] != '\0' then TextEnd(xml, o + 1) else o
  }

  /** The first tag after `o`, whatever text precedes it, is `</tag>`. */
  function NextEndTag(tag: string, xml: string, o: nat): (r: Option<nat>)
    ensures r.Some? ==> o < r.value <= |xml|
  {
    if o >= |xml| then None
    else
      var start := TextEnd(xml, o);
      if At(xml, start, Close(tag)) then Some(start + |tag| + 3) else None
  }

  /** `<tag ...>` occurs somewhere after `o`; its attributes are skipped. */
  function FindStartTag(tag: string, xml: string, o: nat): (r: Tag)
    ensures r.Tag? ==> o < r.end <= |xml|
  {
    if o >= |xml| then NoTag
    else match Find(xml, "<" + tag, o)
      case None => NoTag
      case Some(start) =>
        var attributes := start + 1 + |tag|;
        match Find(xml, ">", attributes)
        case None => NoTag
        case Some(gt) => Tag(gt + 1, gt > attributes && xml[gt - 1] == '/')
  }

  datatype Element = NoElement | Element(end: nat, text: string)

  /** The contents of the first `<tag>...</tag>` after `o`. */
  function FindElement(tag: string, xml: string, o: nat): (r: Element)
    ensures r.Element? ==> o < r.end <= |xml|
  {
    match FindStartTag(tag, xml, o)
    case NoTag => NoElement
    case Tag(inner, empty) =>
      if empty then Element(inner, "")
      else match Find(xml, Close(tag), inner)
        case None => NoElement
        case Some(end) => Element(end + |tag| + 3, xml[inner..end])
  }

  method NextTagIs(tag: string, xml: string, offset: nat)
      returns (found: bool, offset': nat, emptyTag: bool)
    ensures found ==> NextTag(tag, xml, offset) == Tag(offset', emptyTag)
    ensures !found ==> NextTag(tag, xml, offset) == NoTag && offset' == offset
  {
    hide At, SkipSpaces;
    found, offset', emptyTag := false, offset, false;
    if offset >= |xml| {
      return;
    }
    var cp, nc := offset, 0;
    while CharAt(xml, cp) != '\0' && IsSpace(CharAt(xml, cp))
      invariant cp == offset + nc <= |xml|
      invariant SkipSpaces(xml, offset) == SkipSpaces(xml, cp)
      decreases |xml| - cp
    {
      SkipSpacesStep(xml, cp);
      cp, nc := cp + 1, nc + 1;
    }
    SkipSpacesStep(xml, cp);
    var len := |tag|;
    AtOpen(xml, cp, tag);
    if CharAt(xml, cp) == '<' && At(xml, cp + 1, tag) {
      AtBound(xml, cp + 1, tag);
      cp := cp + len + 1;
      if CharAt(xml, cp) == '>' {
        return true, offset + nc + len + 2, false;
      }
      ghost var stop := cp;
      while CharAt(xml, cp) != '\0' && IsSpace(CharAt(xml, cp))
        invariant stop <= cp <= |xml| && cp == offset + nc + len + 1
        invariant SkipSpaces(xml, stop) == SkipSpaces(xml, cp)
        decreases |xml| - cp
      {
        SkipSpacesStep(xml, cp);
        cp, nc := cp + 1, nc + 1;
      }
      SkipSpacesStep(xml, cp);
      AtTwo(xml, cp, '/', '>');
      if CharAt(xml, cp) == '/' && CharAt(xml, cp + 1) == '>' {
        return true, offset + nc + len + 3, true;
      }
    }
  }

  lemma SkipSpacesStep(s: string, o: nat)
    requires o <= |s|
    ensures SkipSpaces(s, o) == if o < |s| && IsSpace(s[o]) then SkipSpaces(s, o + 1) else o
  {
  }

  method NextTagIsEnd(tag: string, xml: string, offset: nat)
      returns (found: bool, offset': nat)
    ensures found ==> NextEndTag(tag, xml, offset) == Some(offset')
    ensures !found ==> NextEndTag(tag, xml, offset) == None && offset' == offset
  {
    found, offset' := false, offset;
    if offset >= |xml| {
      return;
    }
    var cp, nc := offset, 0;
    while CharAt(xml, cp) != '\0' && CharAt(xml, cp) != '<'
      invariant cp == offset + nc <= |xml|
      invariant TextEnd(xml, offset) == TextEnd(xml, cp)
      decreases |xml| - cp
    {
      cp, nc := cp + 1, nc + 1;
    }
    var len := |tag|;
    AtClose(xml, cp, tag);
    if CharAt(xml, cp) == '<' && CharAt(xml, cp + 1) == '/' && At(xml, cp + 2, tag)
       && CharAt(xml, cp + len + 2) == '>' {
      return true, offset + nc + len + 3;
    }
  }

  /** The loop shared by `findTag` and `parseTag` that skips attributes up to '>'. */
  method SkipAttributes(xml: string, start: nat) returns (istart: nat, lastSlash: bool)
    requires start <= |xml|
    ensures start <= istart <= |xml|
    ensures istart == |xml| <==> Find(xml, ">", start).None?
    ensures istart < |xml| ==> Find(xml, ">", start) == Some(istart)
    ensures istart < |xml| ==> lastSlash == (istart > start && xml[istart - 1] == '/')
  {
    istart, lastSlash := start, false;
    while istart < |xml| && xml[istart] != '>'
      invariant start <= istart <= |xml|
      invariant Find(xml, ">", start) == Find(xml, ">", istart)
      invariant lastSlash == (istart > start && xml[istart - 1] == '/')
    {
      AtOne(xml, istart, '>');
      lastSlash := xml[istart] == '/';
      istart := istart + 1;
    }
    AtOne(xml, istart, '>');
  }

  method FindTag(tag: string, xml: string, offset: nat)
      returns (found: bool, offset': nat, emptyTag: bool)
    ensures found ==> FindStartTag(tag, xml, offset) == Tag(offset', emptyTag)
    ensures !found ==> FindStartTag(tag, xml, offset) == NoTag && offset' == offset
  {
    found, offset', emptyTag := false, offset, false;
    if offset >= |xml| {
      return;
    }
    var start := Find(xml, "<" + tag, offset);
    if start.None? {
      return;
    }
    var istart, lastSlash := SkipAttributes(xml, start.value + 1 + |tag|);
    if istart == |xml| {
      return;
    }
    return true, istart + 1, lastSlash;
  }

  /** `parseTag` writes to the caller's string, `val` before the call and `val'` after it:
      a start tag without its end tag leaves it empty. */
  method ParseTag(tag: string, xml: string, offset: nat, val: string)
      returns (found: bool, offset': nat, val': string)
    ensures found ==> FindElement(tag, xml, offset) == Element(offset', val')
    ensures !found ==> FindElement(tag, xml, offset) == NoElement && offset' == offset
    ensures !found ==> val' == if FindStartTag(tag, xml, offset).Tag? then "" else val
  {
    hide Find, At, Close;
    found, offset', val' := false, offset, val;
    if offset >= |xml| {
      return;
    }
    var start := Find(xml, "<" + tag, offset);
    if start.None? {
      return;
    }
    var istart, lastSlash := SkipAttributes(xml, start.value + 1 + |tag|);
    if istart == |xml| {
      return;
    }
    assert FindStartTag(tag, xml, offset) == Tag(istart + 1, lastSlash);
    val' := "";
    if lastSlash {
      return true, istart + 1, val';
    }
    AtOne(xml, istart, '>');
    var iend := Find(xml, Close(tag), istart);
    CloseNotAtGt(tag, xml, istart);
    if iend.None? {
      return;
    }
    return true, iend.value + |tag| + 3, xml[istart + 1..iend.value];
  }

  /** `parseTag` looks for the end tag from the '>' of the start tag on. */
  lemma CloseNotAtGt(tag: string, xml: string, gt: nat)
    requires At(xml, gt, ">")
    ensures Find(xml, Close(tag), gt) == Find(xml, Close(tag), gt + 1)
  {
    AtOne(xml, gt, '>');
    AtClose(xml, gt, tag);
  }

  lemma AtOne(s: string, o: nat, c: char)
    requires c != '\0'
    ensures At(s, o, [c]) <==> CharAt(s, o) == c
  {
    if o < |s| {
      assert s[o..o + 1] == [s[o]];
    }
  }

  lemma AtTwo(s: string, o: nat, c: char, d: char)
    requires c != '\0' && d != '\0'
    ensures At(s, o, [c, d]) <==> CharAt(s, o) == c && CharAt(s, o + 1) == d
  {
    AtOne(s, o, c);
    AtOne(s, o + 1, d);
    AtConcat(s, o, [c], [d]);
  }

  lemma AtClose(s: string, o: nat, tag: string)
    ensures At(s, o, Close(tag)) <==>
      CharAt(s, o) == '<' && CharAt(s, o + 1) == '/' && At(s, o + 2, tag) && CharAt(s, o + |tag| + 2) == '>'
  {
    AtTwo(s, o, '<', '/');
    AtOne(s, o + 2 + |tag|, '>');
    AtConcat(s, o, "</", tag);
    AtConcat(s, o, "</" + tag, ">");
  }

  lemma AtOpen(s: string, o: nat, tag: string)
    ensures At(s, o, Open(tag)) <==> At(s, o, "<" + tag) && CharAt(s, o + |tag| + 1) == '>'
    ensures At(s, o, "<" + tag) <==> CharAt(s, o) == '<' && At(s, o + 1, tag)
  {
    AtOne(s, o, '<');
    AtOne(s, o + 1 + |tag|, '>');
    AtConcat(s, o, "<", tag);
    AtConcat(s, o, "<" + tag, ">");
  }

  // ------------------------------------------- what the scanners do on printed text

  /** A start tag is recognised where it stands. */
  lemma NextTagAtOpen(tag: string, xml: string, o: nat)
    requires At(xml, o, Open(tag))
    ensures NextTag(tag, xml, o) == Tag(o + |tag| + 2, false)
  {
    AtOpen(xml, o, tag);
  }

  /** A tag is not taken for another one that differs at character `k`. */
  lemma NextTagDiffers(tag: string, xml: string, o: nat, k: nat)
    requires o < |xml| && xml[o] == '<'
    requires k < |tag| && CharAt(xml, o + 1 + k) != tag[k]
    ensures NextTag(tag, xml, o) == NoTag
  {
    AtOpen(xml, o, tag);
    if At(xml, o + 1, tag) {
      AtIndex(xml, o + 1, tag, k);
    }
  }

  /** No end tag follows directly where some start tag stands. */
  lemma NextEndTagAtStart(tag: string, xml: string, o: nat)
    requires o < |xml| && xml[o] == '<' && CharAt(xml, o + 1) != '/'
    ensures NextEndTag(tag, xml, o) == None
  {
    AtClose(xml, o, tag);
  }

  lemma {:induction false} TextEndIs(xml: string, o: nat, end: nat)
    requires o <= end < |xml|
    requires forall i | o <= i < end :: xml[i] != '<' && xml[i] != '\0'
    requires xml[end] == '<' || xml[end] == '\0'
    ensures TextEnd(xml, o) == end
    decreases end - o
  {
    if o == end {
    } else {
      TextEndIs(xml, o + 1, end);
    }
  }

  /** An end tag is recognised behind any text without '<' and NUL. */
  lemma NextEndTagAfterText(tag: string, xml: string, o: nat, text: string)
    requires At(xml, o, text) && At(xml, o + |text|, Close(tag))
    requires '<' !in text && NulFree(text)
    ensures NextEndTag(tag, xml, o) == Some(o + |text| + |tag| + 3)
  {
    AtIndex(xml, o + |text|, Close(tag), 0);
    forall i | o <= i < o + |text| ensures xml[i] != '<' && xml[i] != '\0' {
      AtIndex(xml, o, text, i - o);
      assert text[i - o] in text;
    }
    TextEndIs(xml, o, o + |text|);
  }

  lemma NextEndTagAtClose(tag: string, xml: string, o: nat)
    requires At(xml, o, Close(tag))
    ensures NextEndTag(tag, xml, o) == Some(o + |tag| + 3)
  {
    NextEndTagAfterText(tag, xml, o, "");
  }

  /** A NUL in the text hides the end tag behind it. */
  lemma NextEndTagBehindNul(tag: string, xml: string, o: nat, text: string)
    requires At(xml, o, text) && '<' !in text && !NulFree(text)
    ensures NextEndTag(tag, xml, o) == None
  {
    var end := TextEnd(xml, o);
    var k :| 0 <= k < |text| && text[k] == '\0';
    AtIndex(xml, o, text, k);
    assert end <= o + k;
    AtIndex(xml, o, text, end - o);
    assert text[end - o] in text;
    AtClose(xml, end, tag);
  }

  lemma {:induction false} FindIs(s: string, t: string, from: nat, i: nat)
    requires from <= i && At(s, i, t)
    requires forall j | from <= j < i :: !At(s, j, t)
    ensures Find(s, t, from) == Some(i)
    decreases i - from
  {
    if from == i {
    } else {
      FindIs(s, t, from + 1, i);
    }
  }

  /** `<tag>text</tag>` is taken apart where it stands, if the end tag does not
      occur earlier than where the text ends. */
  lemma FindElementAt(tag: string, xml: string, o: nat, text: string)
    requires tag != "" && '>' !in tag
    requires At(xml, o, Open(tag)) && At(xml, o + |tag| + 2, text) && At(xml, o + |tag| + 2 + |text|, Close(tag))
    requires forall j | o + |tag| + 2 <= j < o + |tag| + 2 + |text| :: !At(xml, j, Close(tag))
    ensures FindElement(tag, xml, o) == Element(o + |tag| + 2 + |text| + |tag| + 3, text)
  {
    hide Find, At, FindStartTag;
    var inner := o + |tag| + 2;
    var end := inner + |text|;
    FindStartTagAt(tag, xml, o);
    FindIs(xml, Close(tag), inner, end);
    AtText(xml, inner, text);
  }

  lemma FindStartTagAt(tag: string, xml: string, o: nat)
    requires At(xml, o, Open(tag))
    ensures FindStartTag(tag, xml, o) == Tag(o + |tag| + 2, false)
  {
    AtOpen(xml, o, tag);
    AtOne(xml, o + |tag| + 1, '>');
    FindIs(xml, "<" + tag, o, o);
    FindIs(xml, ">", o + |tag| + 1, o + |tag| + 1);
  }

  /** The first start tag, with whatever stands between its name and the next '>', and
      empty exactly if that ends in a slash. */
  lemma FindStartTagIs(tag: string, xml: string, o: nat, start: nat, attributes: string)
    requires o <= start && At(xml, start, "<" + tag + attributes + ">") && '>' !in attributes
    requires forall j | o <= j < start :: !At(xml, j, "<" + tag)
    ensures FindStartTag(tag, xml, o) == Tag(
      start + |tag| + |attributes| + 2, attributes != "" && attributes[|attributes| - 1] == '/')
  {
    hide At, Find;
    AtBound(xml, start, "<" + tag + attributes + ">");
    AtConcat3(xml, start, "<" + tag, attributes, ">");
    var from := start + 1 + |tag|;
    FindIs(xml, "<" + tag, o, start);
    forall j | from <= j < from + |attributes| ensures !At(xml, j, ">") {
      AtIndex(xml, from, attributes, j - from);
      AtOne(xml, j, '>');
    }
    FindIs(xml, ">", from, from + |attributes|);
    if attributes != "" { AtIndex(xml, from, attributes, |attributes| - 1); }
  }

  /** The first element of the name: empty, or the text up to the first end tag. */
  lemma FindElementIs(tag: string, xml: string, o: nat, start: nat, attributes: string, text: string)
    requires o <= start && At(xml, start, "<" + tag + attributes + ">") && '>' !in attributes
    requires forall j | o <= j < start :: !At(xml, j, "<" + tag)
    requires var inner := start + |tag| + |attributes| + 2;
      && At(xml, inner, text) && At(xml, inner + |text|, Close(tag))
      && forall j | inner <= j < inner + |text| :: !At(xml, j, Close(tag))
    ensures var inner := start + |tag| + |attributes| + 2;
      FindElement(tag, xml, o) == if attributes != "" && attributes[|attributes| - 1] == '/' then Element(inner, "")
        else Element(inner + |text| + |tag| + 3, text)
  {
    hide At, Find, FindStartTag;
    var inner := start + |tag| + |attributes| + 2;
    FindStartTagIs(tag, xml, o, start, attributes);
    FindIs(xml, Close(tag), inner, inner + |text|);
    AtText(xml, inner, text);
  }

  // ------------------------------------------------------------- entity coding

  /** The five characters with an entity, and the entities' names. */
  function RawEntity(k: nat): char
    requires k < 5
  {
    if k == 0 then '<' else if k == 1 then '>' else if k == 2 then '&' else if k == 3 then '\'' else '"'
  }

  function XmlEntity(k: nat): string
    requires k < 5
  {
    if k == 0 then "lt;" else if k == 1 then "gt;" else if k == 2 then "amp;" else if k == 3 then "apos;" else "quot;"
  }

  /** The number of a character's entity, 5 for a character without one. */
  function EntityOf(c: char): (k: nat)
    ensures k <= 5
    ensures k < 5 ==> RawEntity(k) == c
    ensures k == 5 ==> forall j | 0 <= j < 5 :: RawEntity(j) != c
  {
    if c == '<' then 0 else if c == '>' then 1 else if c == '&' then 2
    else if c == '\'' then 3 else if c == '"' then 4 else 5
  }

  predicate IsEntityChar(c: char) { EntityOf(c) < 5 }

  predicate EntityFree(s: string) {
    forall i | 0 <= i < |s| :: !IsEntityChar(s[i])
  }

  function EncodeChar(c: char): (e: string) {
    if IsEntityChar(c) then "&" + XmlEntity(EntityOf(c)) else [c]
  }

  lemma EncodedChar(c: char)
    ensures EncodeChar(c) == [c] <==> !IsEntityChar(c)
    ensures |EncodeChar(c)| >= 1 && (|EncodeChar(c)| == 1 <==> !IsEntityChar(c))
    ensures '<' !in EncodeChar(c) && (NulFree(EncodeChar(c)) <==> c != '\0')
  {
  }

  function Encode(s: string): string {
    if s == "" then "" else EncodeChar(s[0]) + Encode(s[1..])
  }

  /** The number of the first entity, from the `k`-th on, whose name stands behind
      the '&' at `e[0]`; 5 when there is none. */
  function EntityAt(e: string, k: nat): (r: nat)
    requires k <= 5
    ensures k <= r <= 5
    ensures r < 5 ==> At(e, 1, XmlEntity(r))
    decreases 5 - k
  {
    if k == 5 || At(e, 1, XmlEntity(k)) then k else EntityAt(e, k + 1)
  }

  function Decode(e: string): (s: string)
    ensures |s| <= |e|
  {
    if e == "" then ""
    else if e[0] == '&' && EntityAt(e, 0) < 5 then
      var k := EntityAt(e, 0);
      [RawEntity(k)] + Decode(e[1 + |XmlEntity(k)|..])
    else [e[0]] + Decode(e[1..])
  }

  /** The five entities. */
  lemma FiveEntities()
    ensures Encode("<") == "&lt;" && Encode(">") == "&gt;" && Encode("&") == "&amp;"
    ensures Encode("'") == "&apos;" && Encode("\"") == "&quot;"
  {
  }

  /** Every other character, a '&' that begins none of them included, is kept. */
  lemma DecodeKeeps(e: string)
    requires e != ""
    requires !At(e, 0, "&lt;") && !At(e, 0, "&gt;") && !At(e, 0, "&amp;") && !At(e, 0, "&apos;") && !At(e, 0, "&quot;")
    ensures Decode(e) == [e[0]] + Decode(e[1..])
  {
    hide At;
    assert "&" + "lt;" == "&lt;" && "&" + "gt;" == "&gt;" && "&" + "amp;" == "&amp;";
    assert "&" + "apos;" == "&apos;" && "&" + "quot;" == "&quot;";
    if e[0] == '&' && EntityAt(e, 0) < 5 {
      var k := EntityAt(e, 0);
      AtOne(e, 0, '&');
      AtConcat(e, 0, "&", XmlEntity(k));
    }
  }

  /** No entity name is a prefix of another one. */
  lemma {:induction false} EntityAtIs(e: string, k: nat, r: nat)
    requires k <= r < 5 && At(e, 1, XmlEntity(r))
    ensures EntityAt(e, k) == r
    decreases r - k
  {
    if k == r {
    } else {
      AtIndex(e, 1, XmlEntity(r), 0);
      AtIndex(e, 1, XmlEntity(r), 1);
      if At(e, 1, XmlEntity(k)) {
        AtIndex(e, 1, XmlEntity(k), 0);
        AtIndex(e, 1, XmlEntity(k), 1);
      }
      EntityAtIs(e, k + 1, r);
    }
  }

  lemma DecodeEncodedChar(c: char, rest: string)
    ensures Decode(EncodeChar(c) + rest) == [c] + Decode(rest)
  {
    var e := EncodeChar(c) + rest;
    if IsEntityChar(c) {
      var k := EntityOf(c);
      var name := XmlEntity(k);
      assert e[1..1 + |name|] == name;
      EntityAtIs(e, 0, k);
      assert e[1 + |name|..] == rest;
    } else {
      assert e[1..] == rest;
    }
  }

  /** Decoding undoes encoding, on every text. */
  lemma {:induction false} DecodeEncode(s: string)
    ensures Decode(Encode(s)) == s
  {
    if s == "" {
    } else {
      DecodeEncodedChar(s[0], Encode(s[1..]));
      DecodeEncode(s[1..]);
    }
  }

  /** The encoded form can stand between tags: it holds no '<', and no NUL that the
      text does not hold. */
  lemma {:induction false} EncodedIsText(s: string)
    ensures '<' !in Encode(s)
    ensures NulFree(Encode(s)) <==> NulFree(s)
  {
    if s == "" {
    } else {
      EncodedIsText(s[1..]);
      EncodedChar(s[0]);
      assert s == [s[0]] + s[1..];
    }
  }

  lemma {:induction false} EncodeLength(s: string)
    ensures |Encode(s)| >= |s|
    ensures |Encode(s)| == |s| <==> EntityFree(s)
    ensures EntityFree(s) <==> Encode(s) == s
  {
    if s == "" {
    } else {
      EncodeLength(s[1..]);
      EncodedChar(s[0]);
      EntityFreeSplit(s);
    }
  }

  lemma EntityFreeSplit(s: string)
    requires s != ""
    ensures EntityFree(s) <==> !IsEntityChar(s[0]) && EntityFree(s[1..])
  {
    if !IsEntityChar(s[0]) && EntityFree(s[1..]) {
      forall i | 0 <= i < |s| ensures !IsEntityChar(s[i]) {
        assert i > 0 ==> s[i] == s[1..][i - 1];
      }
    }
  }

  /** `find_first_of(rawEntity)`, the length of the text when there is none. */
  function FirstEntityChar(s: string, from: nat): (r: nat)
    requires from <= |s|
    ensures from <= r <= |s|
    decreases |s| - from
  {
    if from == |s| || IsEntityChar(s[from]) then from else FirstEntityChar(s, from + 1)
  }

  lemma {:induction false} EncodeSkips(s: string, from: nat)
    requires from <= |s|
    ensures var r := FirstEntityChar(s, from); Encode(s[from..]) == s[from..r] + Encode(s[r..])
    decreases |s| - from
  {
    hide Encode, IsEntityChar;
    var r := FirstEntityChar(s, from);
    if from == r {
    } else {
      EncodeSkips(s, from + 1);
      EncodeOne(s, from);
      assert s[from..r] == [s[from]] + s[from + 1..r];
      Regroup([s[from]], s[from + 1..r], Encode(s[r..]));
    }
  }

  lemma EncodeOne(s: string, from: nat)
    requires from < |s| && !IsEntityChar(s[from])
    ensures Encode(s[from..]) == [s[from]] + Encode(s[from + 1..])
  {
    EncodedChar(s[from]);
    assert s[from..][1..] == s[from + 1..];
  }

  lemma {:induction false} DecodeSkips(s: string, from: nat, r: nat)
    requires from <= r <= |s| && forall i | from <= i < r :: s[i] != '&'
    ensures Decode(s[from..]) == s[from..r] + Decode(s[r..])
    decreases r - from
  {
    hide Decode;
    if from == r {
    } else {
      DecodeSkips(s, from + 1, r);
      DecodeAtPlain(s[from..]);
      assert s[from..][1..] == s[from + 1..];
      assert s[from..r] == [s[from]] + s[from + 1..r];
      Regroup([s[from]], s[from + 1..r], Decode(s[r..]));
    }
  }

  lemma DecodeUpToAmp(e: string, n: nat)
    requires n <= |e| && forall j | 0 <= j < n :: !At(e, j, "&")
    ensures Decode(e) == e[..n] + Decode(e[n..])
  {
    forall i | 0 <= i < n ensures e[i] != '&' {
      AtOne(e, i, '&');
    }
    DecodeSkips(e, 0, n);
    assert e[0..] == e;
  }

  lemma EncodeStep(raw: string, i: nat, sofar: string)
    requires i < |raw| && sofar + Encode(raw[i..]) == Encode(raw)
    ensures sofar + EncodeChar(raw[i]) + Encode(raw[i + 1..]) == Encode(raw)
  {
    assert raw[i..][1..] == raw[i + 1..];
    Regroup(sofar, EncodeChar(raw[i]), Encode(raw[i + 1..]));
  }

  lemma DecodeAtEntity(e: string, k: nat)
    requires e != "" && e[0] == '&' && k < 5 && k == EntityAt(e, 0)
    ensures 1 + |XmlEntity(k)| <= |e|
    ensures Decode(e) == [RawEntity(k)] + Decode(e[1 + |XmlEntity(k)|..])
  {
  }

  lemma DecodeAtPlain(e: string)
    requires e != "" && (e[0] == '&' ==> EntityAt(e, 0) == 5)
    ensures Decode(e) == [e[0]] + Decode(e[1..])
  {
  }

  lemma LoneAmp(e: string)
    requires |e| == 1
    ensures EntityAt(e, 0) == 5
  {
    assert forall k | 0 <= k < 5 :: !At(e, 1, XmlEntity(k));
  }

  lemma DecodeEntityStep(e: string, i: nat, sofar: string, k: nat, end: nat)
    requires i < |e| && sofar + Decode(e[i..]) == Decode(e)
    requires e[i] == '&' && k < 5 && k == EntityAt(e[i..], 0) && end == i + |XmlEntity(k)| + 1
    ensures end <= |e| && sofar + [RawEntity(k)] + Decode(e[end..]) == Decode(e)
  {
    hide Decode, EntityAt, XmlEntity, RawEntity;
    DecodeAtEntity(e[i..], k);
    assert e[i..][end - i..] == e[end..];
    Regroup(sofar, [RawEntity(k)], Decode(e[end..]));
  }

  lemma DecodePlainStep(e: string, i: nat, sofar: string)
    requires i < |e| && sofar + Decode(e[i..]) == Decode(e)
    requires e[i] == '&' ==> EntityAt(e[i..], 0) == 5
    ensures sofar + [e[i]] + Decode(e[i + 1..]) == Decode(e)
  {
    DecodeAtPlain(e[i..]);
    assert e[i..][1..] == e[i + 1..];
    Regroup(sofar, [e[i]], Decode(e[i + 1..]));
  }

  method XmlEncode(raw: string) returns (encoded: string)
    ensures encoded == Encode(raw)
  {
    var iRep := FirstEntityChar(raw, 0);
    EncodeSkips(raw, 0);
    if iRep == |raw| {
      return raw;
    }
    encoded := raw[..iRep];
    while iRep != |raw|
      invariant iRep <= |raw|
      invariant encoded + Encode(raw[iRep..]) == Encode(raw)
      decreases |raw| - iRep
    {
      EncodeStep(raw, iRep, encoded);
      var iEntity := EntityIndex(raw[iRep]);
      if iEntity < 5 {
        encoded := encoded + ("&" + XmlEntity(iEntity));
      } else {
        encoded := encoded + [raw[iRep]];
      }
      iRep := iRep + 1;
    }
  }

  /** The inner loop of `xmlEncode`, comparing with each raw character in turn. */
  method EntityIndex(c: char) returns (iEntity: nat)
    ensures iEntity == EntityOf(c)
  {
    iEntity := 0;
    while iEntity < 5 && c != RawEntity(iEntity)
      invariant iEntity <= 5
      invariant forall j | 0 <= j < iEntity :: c != RawEntity(j)
    {
      iEntity := iEntity + 1;
    }
  }

  method XmlDecode(encoded: string) returns (decoded: string)
    ensures decoded == Decode(encoded)
  {
    hide Decode, Find, At, EntityAt;
    var first := Find(encoded, "&", 0);
    if first.None? {
      DecodeUpToAmp(encoded, |encoded|);
      return encoded;
    }
    var iAmp := first.value;
    DecodeUpToAmp(encoded, iAmp);
    decoded := encoded[..iAmp];
    while iAmp != |encoded|
      invariant iAmp <= |encoded|
      invariant decoded + Decode(encoded[iAmp..]) == Decode(encoded)
      decreases |encoded| - iAmp
    {
      var iEntity := 5;
      if iAmp + 1 == |encoded| {
        LoneAmp(encoded[iAmp..]);
      }
      if encoded[iAmp] == '&' && iAmp + 1 < |encoded| {
        iEntity := MatchEntity(encoded, iAmp);
      }
      if iEntity < 5 {
        DecodeEntityStep(encoded, iAmp, decoded, iEntity, iAmp + |XmlEntity(iEntity)| + 1);
        decoded := decoded + [RawEntity(iEntity)];
        iAmp := iAmp + |XmlEntity(iEntity)| + 1;
      } else {
        DecodePlainStep(encoded, iAmp, decoded);
        decoded := decoded + [encoded[iAmp]];
        iAmp := iAmp + 1;
      }
    }
  }

  /** The inner loop of `xmlDecode`, comparing with each entity name in turn. */
  method MatchEntity(encoded: string, iAmp: nat) returns (iEntity: nat)
    requires iAmp < |encoded|
    ensures iEntity == EntityAt(encoded[iAmp..], 0)
  {
    iEntity := 0;
    while iEntity < 5 && !At(encoded, iAmp + 1, XmlEntity(iEntity))
      invariant iEntity <= 5
      invariant EntityAt(encoded[iAmp..], 0) == EntityAt(encoded[iAmp..], iEntity)
    {
      AtSuffix(encoded, iAmp, XmlEntity(iEntity));
      iEntity := iEntity + 1;
    }
    if iEntity < 5 {
      AtSuffix(encoded, iAmp, XmlEntity(iEntity));
    }
  }

  lemma AtSuffix(s: string, o: nat, t: string)
    requires o < |s|
    ensures At(s[o..], 1, t) <==> At(s, o + 1, t)
  {
    if o + 1 + |t| <= |s| {
      assert s[o..][1..1 + |t|] == s[o + 1..o + 1 + |t|];
    }
  }
}
