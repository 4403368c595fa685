/** `expand_msg`: the tags of a keyer message are replaced by find and replace, one kind
    of tag after the other, until none of the kind is left. */
module Macros {
  import opened Text

  // ---------------------------------------------------------------- find and replace

  /** How often a character occurs. */
  function Count(s: string, c: char): nat {
    if s == "" then 0 else Count(s[..|s| - 1], c) + (if s[|s| - 1] == c then 1 else 0)
  }

  lemma {:induction false} CountConcat(a: string, b: string, c: char)
    ensures Count(a + b, c) == Count(a, c) + Count(b, c)
    decreases b
  {
    if b == "" {
      assert a + b == a;
    } else {
      assert (a + b)[..|a + b| - 1] == a + b[..|b| - 1];
      CountConcat(a, b[..|b| - 1], c);
    }
  }

  function TagText(name: string): string { "<" + name + ">" }

  predicate IsName(name: string) {
    '<' !in name && '>' !in name
  }

  /** A text that brings no opening, or no closing, bracket. */
  predicate Tame(text: string) {
    '<' !in text || '>' !in text
  }

  /** The bracket every replacement by `text` uses up. */
  function Spent(text: string): char {
    if '<' !in text then '<' else '>'
  }

  function Replaced(msg: string, p: nat, n: nat, text: string): string
    requires p + n <= |msg|
  {
    msg[..p] + text + msg[p + n..]
  }

  lemma {:induction false} CountNone(s: string, c: char)
    requires c !in s
    ensures Count(s, c) == 0
  {
    if s == "" {
    } else {
      CountNone(s[..|s| - 1], c);
    }
  }

  lemma CountTag(name: string)
    requires IsName(name)
    ensures Count(TagText(name), '<') == 1 && Count(TagText(name), '>') == 1
  {
    CountConcat("<" + name, ">", '<');
    CountConcat("<", name, '<');
    CountConcat("<" + name, ">", '>');
    CountConcat("<", name, '>');
    CountNone(name, '<');
    CountNone(name, '>');
    CountSingle('<');
    CountSingle('>');
  }

  lemma CountSingle(c: char)
    ensures forall d :: Count([c], d) == if c == d then 1 else 0
  {
    forall d ensures Count([c], d) == if c == d then 1 else 0 {
      assert [c][..0] == "";
    }
  }

  /** One replacement changes the count of a bracket by what the text has of it, less the
      tag's one. */
  lemma CountReplaced(msg: string, name: string, text: string, p: nat, c: char)
    requires IsName(name) && At(msg, p, TagText(name)) && (c == '<' || c == '>')
    ensures p + |TagText(name)| <= |msg|
    ensures Count(Replaced(msg, p, |TagText(name)|, text), c) == Count(msg, c) - 1 + Count(text, c)
  {
    hide Count;
    var tag := TagText(name);
    var q := p + |tag|;
    assert msg == msg[..p] + tag + msg[q..];
    CountConcat(msg[..p] + tag, msg[q..], c);
    CountConcat(msg[..p], tag, c);
    CountConcat(msg[..p] + text, msg[q..], c);
    CountConcat(msg[..p], text, c);
    CountTag(name);
  }

  /** The message after `k` turns of the loop
      `while ((ptr = msg.find(tag)) != npos) msg.replace(ptr, |tag|, text)`;
      it stays when the loop has ended. */
  function Turned(msg: string, name: string, text: string, k: nat): string
    decreases k
  {
    if k == 0 then msg
    else match Find(msg, TagText(name), 0)
      case None => msg
      case Some(p) => Turned(Replaced(msg, p, |TagText(name)|, text), name, text, k - 1)
  }

  predicate Stopped(msg: string, name: string, text: string, k: nat) {
    Find(Turned(msg, name, text, k), TagText(name), 0).None?
  }

  /** The loop ends. */
  ghost predicate Ends(msg: string, name: string, text: string) {
    exists k: nat :: Stopped(msg, name, text, k)
  }

  ghost function Least(msg: string, name: string, text: string, k: nat): nat
    requires Stopped(msg, name, text, k)
    decreases k
  {
    match Find(msg, TagText(name), 0)
    case None => 0
    case Some(p) => 1 + Least(Replaced(msg, p, |TagText(name)|, text), name, text, k - 1)
  }

  lemma {:induction false} LeastIsOne(msg: string, name: string, text: string, k: nat, k': nat)
    requires Stopped(msg, name, text, k) && Stopped(msg, name, text, k')
    ensures Least(msg, name, text, k) == Least(msg, name, text, k')
    decreases k
  {
    hide Find, Replaced;
    var ptr := Find(msg, TagText(name), 0);
    if ptr.None? {
    } else {
      LeastIsOne(Replaced(msg, ptr.value, |TagText(name)|, text), name, text, k - 1, k' - 1);
    }
  }

  /** The number of turns to come. */
  ghost function TurnsLeft(msg: string, name: string, text: string): nat
    requires Ends(msg, name, text)
  {
    var k: nat :| Stopped(msg, name, text, k);
    Least(msg, name, text, k)
  }

  lemma EndsStep(msg: string, name: string, text: string, p: nat)
    requires Find(msg, TagText(name), 0) == Some(p)
    ensures Ends(msg, name, text) <==> Ends(Replaced(msg, p, |TagText(name)|, text), name, text)
    ensures Ends(msg, name, text) ==>
      TurnsLeft(msg, name, text) == 1 + TurnsLeft(Replaced(msg, p, |TagText(name)|, text), name, text)
  {
    hide Find, Replaced;
    var next := Replaced(msg, p, |TagText(name)|, text);
    if Ends(msg, name, text) {
      var k: nat :| Stopped(msg, name, text, k) && TurnsLeft(msg, name, text) == Least(msg, name, text, k);
      assert Stopped(next, name, text, k - 1) && Least(msg, name, text, k) == 1 + Least(next, name, text, k - 1);
      var l: nat :| Stopped(next, name, text, l) && TurnsLeft(next, name, text) == Least(next, name, text, l);
      LeastIsOne(next, name, text, k - 1, l);
    }
    if Ends(next, name, text) {
      var l: nat :| Stopped(next, name, text, l);
      assert Stopped(msg, name, text, l + 1);
    }
  }

  lemma EndsNow(msg: string, name: string, text: string)
    requires Find(msg, TagText(name), 0).None?
    ensures Ends(msg, name, text)
  {
    hide Find;
    assert Stopped(msg, name, text, 0);
  }

  /** What the loop makes of a message, and how often it turns, whenever it ends. */
  function ReplaceAll(msg: string, name: string, text: string): (string, nat)
    requires Ends(msg, name, text)
    decreases TurnsLeft(msg, name, text)
  {
    match Find(msg, TagText(name), 0)
    case None => (msg, 0)
    case Some(p) =>
      EndsStep(msg, name, text, p);
      var (r, turns) := ReplaceAll(Replaced(msg, p, |TagText(name)|, text), name, text);
      (r, turns + 1)
  }

  /** These are its turns, and behind them no such tag is left. */
  lemma {:induction false} ReplaceAllTurns(msg: string, name: string, text: string)
    requires Ends(msg, name, text)
    ensures var (r, turns) := ReplaceAll(msg, name, text);
      Turned(msg, name, text, turns) == r && !Contains(r, TagText(name))
    decreases TurnsLeft(msg, name, text)
  {
    hide At, Replaced, TagText, Ends, TurnsLeft;
    match Find(msg, TagText(name), 0)
    case None =>
    case Some(p) =>
      EndsStep(msg, name, text, p);
      ReplaceAllTurns(Replaced(msg, p, |TagText(name)|, text), name, text);
  }

  method ReplaceLoop(msg0: string, name: string, text: string) returns (msg: string, turns: nat)
    requires Ends(msg0, name, text)
    ensures (msg, turns) == ReplaceAll(msg0, name, text)
    ensures !Contains(msg, TagText(name))
  {
    hide At, Replaced, TagText, Ends, TurnsLeft;
    ReplaceAllTurns(msg0, name, text);
    msg, turns := msg0, 0;
    var ptr := Find(msg, TagText(name), 0);
    while ptr.Some?
      invariant ptr == Find(msg, TagText(name), 0) && Ends(msg, name, text)
      invariant ReplaceAll(msg0, name, text).0 == ReplaceAll(msg, name, text).0
      invariant ReplaceAll(msg0, name, text).1 == turns + ReplaceAll(msg, name, text).1
      decreases TurnsLeft(msg, name, text)
    {
      EndsStep(msg, name, text, ptr.value);
      msg := Replaced(msg, ptr.value, |TagText(name)|, text);
      turns := turns + 1;
      ptr := Find(msg, TagText(name), 0);
    }
  }

  // ------------------------------------------------------------- for which texts it ends

  lemma {:induction false} TameEnds(msg: string, name: string, text: string)
    requires IsName(name) && Tame(text)
    ensures Ends(msg, name, text)
    decreases Count(msg, Spent(text))
  {
    hide At, Count, Replaced, TagText, Ends;
    match Find(msg, TagText(name), 0)
    case None => EndsNow(msg, name, text);
    case Some(p) =>
      CountReplaced(msg, name, text, p, Spent(text));
      CountNone(text, Spent(text));
      TameEnds(Replaced(msg, p, |TagText(name)|, text), name, text);
      EndsStep(msg, name, text, p);
  }

  /** With a text that brings no opening or no closing bracket the loop ends; it turns once
      for every bracket that goes away, so at most as often as the message had brackets. */
  lemma {:induction false} ReplaceAllEnds(msg: string, name: string, text: string)
    requires IsName(name) && Tame(text)
    ensures Ends(msg, name, text)
    ensures var (r, turns) := ReplaceAll(msg, name, text);
      !Contains(r, TagText(name)) && Count(r, Spent(text)) + turns == Count(msg, Spent(text))
    decreases Count(msg, Spent(text))
  {
    hide At, Count, Replaced, TagText, Ends;
    TameEnds(msg, name, text);
    match Find(msg, TagText(name), 0)
    case None =>
    case Some(p) =>
      CountReplaced(msg, name, text, p, Spent(text));
      CountNone(text, Spent(text));
      EndsStep(msg, name, text, p);
      ReplaceAllEnds(Replaced(msg, p, |TagText(name)|, text), name, text);
  }

  /** A text that holds its own tag keeps the loop turning: after every replacement the
      tag is there again. */
  lemma OwnTagStays(msg: string, name: string, text: string, p: nat)
    requires At(msg, p, TagText(name)) && Contains(text, TagText(name))
    ensures p + |TagText(name)| <= |msg|
    ensures Contains(Replaced(msg, p, |TagText(name)|, text), TagText(name))
  {
    var tag := TagText(name);
    var k :| 0 <= k <= |text| && At(text, k, tag);
    var r := Replaced(msg, p, |tag|, text);
    assert r[p..p + |text|] == text;
    assert At(r, p, text);
    AtInner(r, p, text, k, tag);
    assert At(r, p + k, tag);
  }

  lemma {:induction false} OwnTagForever(msg: string, name: string, text: string, k: nat)
    requires Contains(text, TagText(name))
    ensures Contains(Turned(msg, name, text, k), TagText(name)) <==> Contains(msg, TagText(name))
    decreases k
  {
    hide At, Replaced, TagText;
    var ptr := Find(msg, TagText(name), 0);
    if k == 0 || ptr.None? {
    } else {
      OwnTagStays(msg, name, text, ptr.value);
      OwnTagForever(Replaced(msg, ptr.value, |TagText(name)|, text), name, text, k - 1);
    }
  }

  /** With a text that holds its own tag the loop ends only if it never turns. */
  lemma OwnTagEnds(msg: string, name: string, text: string)
    requires Contains(text, TagText(name))
    ensures Ends(msg, name, text) <==> !Contains(msg, TagText(name))
  {
    hide At, TagText, Turned;
    if Ends(msg, name, text) {
      var k: nat :| Stopped(msg, name, text, k);
      OwnTagForever(msg, name, text, k);
    }
    if !Contains(msg, TagText(name)) {
      EndsNow(msg, name, text);
    }
  }

  // --------------------------------------------------------------- messages as tokens

  datatype Token = Lit(text: string) | Tag(name: string)

  function Show(t: Token): string {
    match t
    case Lit(text) => text
    case Tag(name) => TagText(name)
  }

  function Render(ts: seq<Token>): string {
    if ts == [] then "" else Show(ts[0]) + Render(ts[1..])
  }

  /** Literals without an opening bracket, and tags. */
  predicate Proper(ts: seq<Token>) {
    forall i | 0 <= i < |ts| :: if ts[i].Lit? then '<' !in ts[i].text else IsName(ts[i].name)
  }

  lemma {:induction false} RenderConcat(a: seq<Token>, b: seq<Token>)
    ensures Render(a + b) == Render(a) + Render(b)
    decreases a
  {
    hide Show;
    if a == [] {
      assert a + b == b;
    } else {
      assert (a + b)[1..] == a[1..] + b;
      RenderConcat(a[1..], b);
      Regroup(Show(a[0]), Render(a[1..]), Render(b));
    }
  }

  /** The number of tags of a name. */
  function Tags(ts: seq<Token>, name: string): nat {
    if ts == [] then 0 else Tags(ts[1..], name) + (if ts[0] == Tag(name) then 1 else 0)
  }

  /** A tag's text occurs at the offset of a token exactly if it is this tag, and inside
      of a token nowhere. */
  lemma AtToken(t: Token, rest: string, name: string, k: nat)
    requires IsName(name) && Proper([t]) && k < |Show(t)|
    ensures At(Show(t) + rest, k, TagText(name)) <==> t == Tag(name) && k == 0
  {
    var tag, s := TagText(name), Show(t) + rest;
    assert [t][0] == t;
    if At(s, k, tag) {
      AtIndex(s, k, tag, 0);
      assert Show(t)[k] == '<';
      assert t.Tag? && k == 0;
      SameTag(name, t.name, rest);
    }
    TagStarts(name, rest);
  }

  lemma TagChars(name: string, m: nat)
    requires m <= |name|
    ensures |TagText(name)| == |name| + 2
    ensures TagText(name)[m + 1] == if m == |name| then '>' else name[m]
  {
  }

  lemma TagStarts(name: string, rest: string)
    ensures At(TagText(name) + rest, 0, TagText(name))
  {
    assert (TagText(name) + rest)[..|TagText(name)|] == TagText(name);
  }

  /** One tag at the beginning of another is the same tag: names hold no bracket. */
  lemma SameTag(name: string, other: string, rest: string)
    requires IsName(name) && IsName(other) && At(TagText(other) + rest, 0, TagText(name))
    ensures name == other
  {
    var s := TagText(other) + rest;
    var m := if |name| <= |other| then |name| else |other|;
    AtIndex(s, 0, TagText(name), m + 1);
    TagChars(name, m);
    TagChars(other, m);
    forall i | 0 <= i < |name| ensures name[i] == other[i] {
      AtIndex(s, 0, TagText(name), i + 1);
    }
  }

  /** The first tag of a name. */
  function IndexOf(ts: seq<Token>, name: string): (n: nat)
    requires Tags(ts, name) > 0
    ensures n < |ts| && ts[n] == Tag(name) && Tags(ts[..n], name) == 0
  {
    if ts[0] == Tag(name) then 0
    else
      var n := IndexOf(ts[1..], name);
      assert ts[..n + 1][1..] == ts[1..][..n];
      n + 1
  }

  /** The first occurrence of a tag's text is where the first such tag is printed. */
  lemma {:induction false} FirstTag(ts: seq<Token>, name: string)
    requires Proper(ts) && IsName(name)
    ensures Find(Render(ts), TagText(name), 0)
      == if Tags(ts, name) == 0 then None else Some(|Render(ts[..IndexOf(ts, name)])|)
    decreases ts
  {
    hide At, Find, TagText, IsName, Proper;
    if ts == [] {
      NotInEmpty(name);
    } else {
      var rest := ts[1..];
      assert ts == [ts[0]] + rest;
      ProperParts([ts[0]], rest);
      FirstTag(rest, name);
      if ts[0] == Tag(name) {
        TagStarts(name, Render(rest));
        FindHere(TagText(name) + Render(rest), TagText(name), 0);
        assert ts[..0] == [];
      } else {
        NotInFirst(ts[0], Render(rest), name);
        if Tags(rest, name) > 0 {
          var n := IndexOf(rest, name);
          assert ts[..n + 1] == [ts[0]] + rest[..n];
          assert ts[..n + 1][1..] == rest[..n];
        }
      }
    }
  }

  lemma NotInFirst(t: Token, s: string, name: string)
    requires Proper([t]) && IsName(name) && t != Tag(name)
    ensures Find(Show(t) + s, TagText(name), 0)
      == match Find(s, TagText(name), 0) case None => None case Some(p) => Some(|Show(t)| + p)
  {
    hide At, Find, TagText, IsName, Proper;
    forall k | 0 <= k < |Show(t)| ensures !At(Show(t) + s, k, TagText(name)) {
      AtToken(t, s, name, k);
    }
    FindShifted(Show(t), s, TagText(name));
  }

  lemma NotInEmpty(name: string)
    ensures Find("", TagText(name), 0).None?
  {
  }

  lemma FindHere(s: string, t: string, k: nat)
    requires At(s, k, t)
    ensures Find(s, t, k) == Some(k)
  {
    AtBound(s, k, t);
  }

  lemma {:induction false} FindFrom(a: string, s: string, t: string, k: nat)
    ensures Find(a + s, t, |a| + k) == match Find(s, t, k) case None => None case Some(p) => Some(|a| + p)
    decreases |s| - k
  {
    hide At;
    AtShift(a, s, k, t);
    if k + |t| <= |s| && !At(s, k, t) {
      FindFrom(a, s, t, k + 1);
    }
  }

  /** Behind a piece in which `t` does not begin, `t` is found where it is in the rest. */
  lemma FindShifted(a: string, s: string, t: string)
    requires forall k | 0 <= k < |a| :: !At(a + s, k, t)
    ensures Find(a + s, t, 0) == match Find(s, t, 0) case None => None case Some(p) => Some(|a| + p)
  {
    hide At, Find;
    FindFrom(a, s, t, 0);
    SkipTo(a + s, t, 0, |a|);
  }

  lemma {:induction false} SkipTo(s: string, t: string, k: nat, n: nat)
    requires k <= n <= |s| && forall j | k <= j < n :: !At(s, j, t)
    ensures Find(s, t, k) == Find(s, t, n)
    decreases n - k
  {
    hide At;
    if k == n {
    } else {
      SkipTo(s, t, k + 1, n);
    }
  }

  // -------------------------------------------------- a text without its own tag

  /** A text that does not hold its own tag, and that keeps the loop turning: two turns
      bring back the tags that were there before, with more around them. */
  const GROWING := ">><X<X"

  /** No `<X>` begins before the end of `a`, whatever tag follows. */
  predicate NoneBegins(a: string) {
    forall i | 0 <= i < |a| :: a[i] == '<' ==> i + 2 < |a + "<"| && (a + "<")[i + 2] != '>'
  }

  lemma NotAtX(a: string, s: string, k: nat)
    requires NoneBegins(a) && k < |a|
    ensures !At(a + ("<X>" + s), k, "<X>")
  {
    hide At;
    var all := a + ("<X>" + s);
    assert all[k] == a[k];
    assert a[k] == '<' ==> all[k + 2] == (a + "<")[k + 2];
    if At(all, k, "<X>") {
      AtIndex(all, k, "<X>", 0);
      AtIndex(all, k, "<X>", 2);
    }
  }

  lemma FirstX(a: string, s: string)
    requires NoneBegins(a)
    ensures Find(a + ("<X>" + s), "<X>", 0) == Some(|a|)
  {
    hide At, Find, NoneBegins;
    forall k | 0 <= k < |a| ensures !At(a + ("<X>" + s), k, "<X>") { NotAtX(a, s, k); }
    FindShifted(a, "<X>" + s, "<X>");
    TagStarts("X", s);
    assert TagText("X") == "<X>";
    FindHere("<X>" + s, "<X>", 0);
  }

  lemma TurnX(a: string, s: string, k: nat)
    requires NoneBegins(a)
    ensures Turned(a + ("<X>" + s), "X", GROWING, k + 1) == Turned(a + (GROWING + s), "X", GROWING, k)
    ensures Contains(a + ("<X>" + s), "<X>")
  {
    hide At, Find;
    FirstX(a, s);
    assert TagText("X") == "<X>";
    ReplaceMiddle(a, "<X>", s, GROWING);
  }

  lemma {:induction false} GrowsForever(pre: string, rest: string, k: nat)
    requires '<' !in pre
    ensures Contains(Turned(pre + "<X" + ("<X>" + rest), "X", GROWING, k), "<X>")
    decreases k
  {
    hide At, Find, Replaced, Turned, Contains;
    var next := "<X<X" + rest;
    if k == 0 {
      TurnX(pre + "<X", rest, 0);
      NoTurn(pre + "<X" + ("<X>" + rest));
    } else {
      TurnX(pre + "<X", rest, k - 1);
      assert pre + "<X" + (GROWING + rest) == pre + ("<X>" + ("><X<X" + rest));
      if k == 1 {
        TurnX(pre, "><X<X" + rest, 0);
        NoTurn(pre + ("<X>" + ("><X<X" + rest)));
      } else {
        TurnX(pre, "><X<X" + rest, k - 2);
        assert pre + (GROWING + ("><X<X" + rest)) == (pre + ">>") + "<X" + ("<X>" + next);
        GrowsForever(pre + ">>", next, k - 2);
      }
    }
  }

  lemma NoTurn(msg: string)
    ensures Turned(msg, "X", GROWING, 0) == msg
  {
  }

  /** So that a text does not hold its own tag is not enough for the loop to end. */
  lemma GrowingNeverEnds()
    ensures !Contains(GROWING, "<X>") && !Ends("<X<X>", "X", GROWING)
  {
    hide Find, Turned;
    assert TagText("X") == "<X>" && "" + "<X" + ("<X>" + "") == "<X<X>";
    forall k: nat ensures !Stopped("<X<X>", "X", GROWING, k) {
      GrowsForever("", "", k);
    }
    forall i: nat | i <= |GROWING| ensures !At(GROWING, i, "<X>") {
      if At(GROWING, i, "<X>") {
        AtBound(GROWING, i, "<X>");
        AtIndex(GROWING, i, "<X>", 0);
        AtIndex(GROWING, i, "<X>", 2);
      }
    }
  }

  // ---------------------------------------------------- texts that touch no tag

  /** A text that holds a bracket but not the tag, begins with no end of the tag, and ends
      in no beginning of it. */
  predicate Apart(name: string, text: string) {
    var tag := TagText(name);
    && !Contains(text, tag) && ('<' in text || '>' in text)
    && (forall k | 0 < k < |tag| :: !(tag[k..] <= text))
    && (forall k | 0 < k < |tag| && k <= |text| :: text[|text| - k..] != tag[..k])
  }

  /** One pass from the left, which never looks back at what it has put in. */
  function OnePass(msg: string, name: string, text: string): (string, nat)
    decreases |msg|
  {
    match Find(msg, TagText(name), 0)
    case None => (msg, 0)
    case Some(p) =>
      var (r, n) := OnePass(msg[p + |TagText(name)|..], name, text);
      (msg[..p] + text + r, n + 1)
  }

  /** How often a tag stands in a message from an offset on. */
  function Occurrences(msg: string, tag: string, from: nat): nat
    decreases |msg| - from
  {
    if from >= |msg| then 0
    else Occurrences(msg, tag, from + 1) + if At(msg, from, tag) then 1 else 0
  }

  /** No tag begins in front of such a text, or in it. */
  lemma NoneTouches(name: string, a: string, text: string, rest: string, k: nat)
    requires IsName(name) && Apart(name, text) && k < |a| + |text|
    requires k < |a| ==> !At(a, k, TagText(name))
    ensures !At(a + text + rest, k, TagText(name))
  {
    hide IsName;
    var tag, s := TagText(name), a + text + rest;
    if At(s, k, tag) {
      AtBound(s, k, tag);
      var end := k + |tag|;
      if end <= |a| {
        AtPrefix(a, s, k, tag);
      } else if k >= |a| && end <= |a| + |text| {
        TextAt(a, text, rest);
        AtInner(s, |a|, text, k - |a|, tag);
      } else if k < |a| && end <= |a| + |text| {
        BeginsWithEnd(a, text, rest, k, tag);
      } else if k >= |a| {
        EndsInBeginning(a, text, rest, k, tag);
      } else {
        Swallowed(name, a, text, rest, k);
      }
    }
  }

  lemma BeginsWithEnd(a: string, text: string, rest: string, k: nat, tag: string)
    requires At(a + text + rest, k, tag) && k < |a| < k + |tag| <= |a| + |text|
    ensures tag[|a| - k..] <= text
  {
    assert (a + text + rest)[k..k + |tag|][|a| - k..] == text[..k + |tag| - |a|];
  }

  lemma EndsInBeginning(a: string, text: string, rest: string, k: nat, tag: string)
    requires At(a + text + rest, k, tag) && |a| <= k < |a| + |text| < k + |tag|
    ensures var m := |a| + |text| - k; text[|text| - m..] == tag[..m]
  {
    var m := |a| + |text| - k;
    assert (a + text + rest)[k..k + |tag|][..m] == text[|text| - m..];
  }

  lemma TextAt(a: string, text: string, rest: string)
    ensures At(a + text + rest, |a|, text)
  {
    assert (a + text + rest)[|a|..|a| + |text|] == text;
  }

  /** A text inside a tag, with something of the tag on both sides, holds no bracket. */
  lemma Swallowed(name: string, a: string, text: string, rest: string, k: nat)
    requires IsName(name) && k < |a| && k + |TagText(name)| > |a| + |text|
    requires At(a + text + rest, k, TagText(name))
    ensures '<' !in text && '>' !in text
  {
    var tag, s := TagText(name), a + text + rest;
    forall i | 0 <= i < |text| ensures text[i] != '<' && text[i] != '>' {
      AtIndex(s, k, tag, |a| + i - k);
      assert s[|a| + i] == text[i];
      assert tag[|a| + i - k] == name[|a| + i - k - 1];
    }
  }

  predicate NoneUpTo(s: string, n: nat, tag: string) {
    forall k | 0 <= k < n :: !At(s, k, tag)
  }

  /** The loop, with `done` behind it, does the pass over the rest. */
  lemma {:induction false} LoopPasses(name: string, text: string, done: string, rest: string)
    requires IsName(name) && Apart(name, text) && NoneUpTo(done + rest, |done|, TagText(name))
    ensures Ends(done + rest, name, text)
    ensures var (r, n) := OnePass(rest, name, text); ReplaceAll(done + rest, name, text) == (done + r, n)
    decreases |rest|
  {
    hide At, Find, TagText, Ends, IsName, Apart, Contains, Replaced, TurnsLeft;
    var tag := TagText(name);
    FindShifted(done, rest, tag);
    match Find(rest, tag, 0) {
      case None => EndsNow(done + rest, name, text);
      case Some(p) =>
        var a, behind := done + rest[..p], rest[p + |tag|..];
        TurnInPass(name, text, done, rest, p);
        TagIsLonger(name);
        LoopPasses(name, text, a + text, behind);
        EndsStep(done + rest, name, text, |a|);
        var r := OnePass(behind, name, text).0;
        assert done + (rest[..p] + text + r) == a + text + r;
    }
  }

  /** One turn of the loop moves past the text it has put in. */
  lemma TurnInPass(name: string, text: string, done: string, rest: string, p: nat)
    requires IsName(name) && Apart(name, text) && Find(rest, TagText(name), 0) == Some(p)
    requires NoneUpTo(done + rest, |done|, TagText(name))
    ensures var a, n := done + rest[..p], |TagText(name)|;
      && |a| + n <= |done + rest| && Replaced(done + rest, |a|, n, text) == a + text + rest[p + n..]
      && NoneUpTo(a + text + rest[p + n..], |a + text|, TagText(name))
  {
    hide At, Find, TagText, IsName, Apart, Contains, Replaced;
    var tag := TagText(name);
    var a, behind := done + rest[..p], rest[p + |tag|..];
    TagWhole(rest, p, tag);
    assert done + rest == a + (tag + behind);
    ReplaceMiddle(a, tag, behind, text);
    assert a + (text + behind) == a + text + behind;
    forall k | 0 <= k < |a + text| ensures !At(a + text + behind, k, tag) {
      if k < |a| { NotBefore(done, rest, p, tag, k); }
      NoneTouches(name, a, text, behind, k);
    }
  }

  lemma TagIsLonger(name: string)
    ensures |TagText(name)| > 0
  {
  }

  lemma TagWhole(rest: string, p: nat, tag: string)
    requires At(rest, p, tag)
    ensures p + |tag| <= |rest| && rest == rest[..p] + (tag + rest[p + |tag|..])
  {
  }

  lemma NotBefore(done: string, rest: string, p: nat, tag: string, k: nat)
    requires NoneUpTo(done + rest, |done|, tag)
    requires p <= |rest| && k < |done| + p && forall j | 0 <= j < p :: !At(rest, j, tag)
    ensures !At(done + rest[..p], k, tag)
  {
    hide At;
    var a := done + rest[..p];
    assert a <= done + rest;
    if At(a, k, tag) {
      AtBound(a, k, tag);
      AtPrefix(a, done + rest, k, tag);
      if k >= |done| {
        AtShift(done, rest, k - |done|, tag);
      }
    }
  }

  /** With such a text the loop ends, on any message: it does one pass, and turns once for
      each tag that was there. */
  lemma ApartEnds(msg: string, name: string, text: string)
    requires IsName(name) && Apart(name, text)
    ensures Ends(msg, name, text)
    ensures ReplaceAll(msg, name, text) == OnePass(msg, name, text)
    ensures ReplaceAll(msg, name, text).1 == Occurrences(msg, TagText(name), 0)
  {
    hide At, Ends, IsName, Apart, TagText;
    LoopPasses(name, text, "", msg);
    assert "" + msg == msg && "" + OnePass(msg, name, text).0 == OnePass(msg, name, text).0;
    PassCounts(msg, name, text);
  }

  lemma {:induction false} PassCounts(msg: string, name: string, text: string)
    requires IsName(name)
    ensures OnePass(msg, name, text).1 == Occurrences(msg, TagText(name), 0)
    decreases |msg|
  {
    hide At, Find, TagText, IsName;
    var tag := TagText(name);
    TagIsLonger(name);
    match Find(msg, tag, 0) {
      case None =>
        NoneFrom(msg, tag, 0, |msg|);
      case Some(p) =>
        var q := p + |tag|;
        NoneFrom(msg, tag, 0, p);
        forall j | p < j < q ensures !At(msg, j, tag) { NoOverlap(msg, name, p, j); }
        NoneFrom(msg, tag, p + 1, q);
        OccurrencesShift(msg[..q], msg[q..], tag, 0);
        assert msg[..q] + msg[q..] == msg;
        PassCounts(msg[q..], name, text);
    }
  }

  lemma {:induction false} NoneFrom(msg: string, tag: string, from: nat, end: nat)
    requires from <= end <= |msg| && forall j | from <= j < end :: !At(msg, j, tag)
    ensures Occurrences(msg, tag, from) == Occurrences(msg, tag, end)
    decreases end - from
  {
    hide At;
    if from == end {
    } else {
      NoneFrom(msg, tag, from + 1, end);
    }
  }

  lemma {:induction false} OccurrencesShift(a: string, s: string, tag: string, from: nat)
    ensures Occurrences(a + s, tag, |a| + from) == Occurrences(s, tag, from)
    decreases |s| - from
  {
    hide At;
    if from >= |s| {
    } else {
      AtShift(a, s, from, tag);
      OccurrencesShift(a, s, tag, from + 1);
    }
  }

  /** Tags do not overlap. */
  lemma NoOverlap(msg: string, name: string, p: nat, j: nat)
    requires IsName(name) && At(msg, p, TagText(name)) && p < j < p + |TagText(name)|
    ensures !At(msg, j, TagText(name))
  {
    hide At;
    var tag := TagText(name);
    AtIndex(msg, p, tag, j - p);
    if At(msg, j, tag) {
      AtIndex(msg, j, tag, 0);
    }
  }

  lemma ProperParts(a: seq<Token>, b: seq<Token>)
    ensures Proper(a + b) <==> Proper(a) && Proper(b)
  {
    if Proper(a + b) {
      forall i | 0 <= i < |a| ensures a[i] == (a + b)[i] {}
      forall i | 0 <= i < |b| ensures b[i] == (a + b)[|a| + i] {}
    }
  }

  // ------------------------------------------------- the loop replaces all tags at once

  /** Every tag of the name is the text. */
  function Substituted(ts: seq<Token>, name: string, text: string): (r: seq<Token>)
    ensures |r| == |ts|
    ensures forall i | 0 <= i < |ts| :: r[i] == if ts[i] == Tag(name) then Lit(text) else ts[i]
  {
    seq(|ts|, i requires 0 <= i < |ts| => if ts[i] == Tag(name) then Lit(text) else ts[i])
  }

  lemma ReplaceMiddle(a: string, tag: string, b: string, text: string)
    ensures |a| + |tag| <= |a + (tag + b)| && Replaced(a + (tag + b), |a|, |tag|, text) == a + (text + b)
  {
    var s := a + (tag + b);
    assert s[..|a|] == a;
    assert s[|a| + |tag|..] == b;
  }

  /** One turn of the loop, seen on tokens. */
  lemma ReplaceToken(ts: seq<Token>, n: nat, text: string)
    requires n < |ts| && ts[n].Tag?
    ensures var tag := TagText(ts[n].name); var p := |Render(ts[..n])|;
      p + |tag| <= |Render(ts)| && Replaced(Render(ts), p, |tag|, text) == Render(ts[n := Lit(text)])
  {
    hide TagText, Render, Replaced;
    var pre, post := ts[..n], ts[n + 1..];
    assert ts == pre + ([ts[n]] + post);
    assert ts[n := Lit(text)] == pre + ([Lit(text)] + post);
    RenderConcat(pre, [ts[n]] + post);
    RenderConcat(pre, [Lit(text)] + post);
    RenderOne(ts[n], post);
    RenderOne(Lit(text), post);
    ReplaceMiddle(Render(pre), TagText(ts[n].name), Render(post), text);
  }

  lemma RenderOne(t: Token, post: seq<Token>)
    ensures Render([t] + post) == Show(t) + Render(post)
  {
    assert ([t] + post)[1..] == post;
  }

  lemma {:induction false} TagsConcat(a: seq<Token>, b: seq<Token>, name: string)
    ensures Tags(a + b, name) == Tags(a, name) + Tags(b, name)
    decreases a
  {
    if a == [] {
      assert a + b == b;
    } else {
      assert (a + b)[1..] == a[1..] + b;
      TagsConcat(a[1..], b, name);
    }
  }

  lemma TagsUpdated(ts: seq<Token>, n: nat, text: string, name: string)
    requires n < |ts|
    ensures Tags(ts[n := Lit(text)], name) == Tags(ts, name) - (if ts[n] == Tag(name) then 1 else 0)
  {
    assert ts == ts[..n] + ([ts[n]] + ts[n + 1..]);
    assert ts[n := Lit(text)] == ts[..n] + ([Lit(text)] + ts[n + 1..]);
    TagsConcat(ts[..n], [ts[n]] + ts[n + 1..], name);
    TagsConcat(ts[..n], [Lit(text)] + ts[n + 1..], name);
    assert ([ts[n]] + ts[n + 1..])[1..] == ts[n + 1..];
    assert ([Lit(text)] + ts[n + 1..])[1..] == ts[n + 1..];
  }

  lemma {:induction false} NoTags(ts: seq<Token>, name: string)
    requires Tags(ts, name) == 0
    ensures forall i | 0 <= i < |ts| :: ts[i] != Tag(name)
    decreases ts
  {
    if ts == [] {
    } else {
      NoTags(ts[1..], name);
    }
  }

  /** Find and replace, turn by turn, is one substitution for all tags of the name. */
  lemma {:induction false} ReplaceAllTokens(ts: seq<Token>, name: string, text: string)
    requires Proper(ts) && IsName(name) && '<' !in text
    ensures Ends(Render(ts), name, text)
    ensures ReplaceAll(Render(ts), name, text) == (Render(Substituted(ts, name, text)), Tags(ts, name))
    decreases Tags(ts, name)
  {
    hide At, Count, Render, TagText, IsName, Replaced, Find, Ends;
    FirstTag(ts, name);
    TameEnds(Render(ts), name, text);
    if Tags(ts, name) == 0 {
      NoTags(ts, name);
      assert Substituted(ts, name, text) == ts;
    } else {
      var n := IndexOf(ts, name);
      var ts' := ts[n := Lit(text)];
      ReplaceToken(ts, n, text);
      TagsUpdated(ts, n, text, name);
      ReplaceAllTokens(ts', name, text);
      assert Substituted(ts', name, text) == Substituted(ts, name, text);
    }
  }

  // ---------------------------------------------------------------------- expand_msg

  /** What the fields of the program hold. */
  datatype Station = Station(
    sta: string, nam: string, cll: string, qth: string, loc: string, opr: string, xout: string,
    zeros: bool, connected: bool)

  datatype Expansion = Expansion(msg: string, serial: int, logged: bool)

  function Upper(c: char): char {
    if 'a' <= c <= 'z' then (c as int - 32) as char else c
  }

  /** `upcase`, in the C locale. */
  function Upcase(s: string): (r: string)
    ensures |r| == |s| && forall i | 0 <= i < |s| :: r[i] == Upper(s[i])
  {
    seq(|s|, i requires 0 <= i < |s| => Upper(s[i]))
  }

  function SerialText(zeros: bool, serial: int): string {
    if zeros && serial < 100 then "0" + Decimal(serial) else Decimal(serial)
  }

  /** The kinds of tags with their texts, in the order of the loops. */
  function Texts(st: Station, serial: int): seq<(string, string)> {
    [("STA", st.sta), ("NAM", st.nam), ("CLL", st.cll), ("QTH", st.qth), ("LOC", st.loc), ("OPR", st.opr),
     ("X", st.xout), ("#", SerialText(st.zeros, serial))]
  }

  /** Which field stands for which tag. */
  lemma TagsStandFor(st: Station, serial: int)
    ensures var t := Texts(st, serial); |t| == 8
    ensures forall i | 0 <= i < 8 :: Texts(st, serial)[i].0 == ["STA", "NAM", "CLL", "QTH", "LOC", "OPR", "X", "#"][i]
    ensures forall i | 0 <= i < 7 ::
      Texts(st, serial)[i].1 == [st.sta, st.nam, st.cll, st.qth, st.loc, st.opr, st.xout][i]
    ensures Texts(st, serial)[7].1 == SerialText(st.zeros, serial)
  {
  }

  /** The serial number as it is sent: a zero in front, if wanted, below 100. */
  lemma SerialTexts()
    ensures SerialText(true, 7) == "07" && SerialText(true, 99) == "099" && SerialText(true, 100) == "100"
    ensures SerialText(false, 7) == "7" && SerialText(false, 99) == "99"
  {
  }

  /** Small letters are raised and nothing else is changed. */
  lemma UpperRaises(c: char)
    ensures 97 <= c as int <= 122 ==> Upper(c) as int == c as int - 32
    ensures c as int < 97 || c as int > 122 ==> Upper(c) == c
    ensures Upper('a') == 'A' && Upper('z') == 'Z'
  {
  }

  /** The loops for these pairs, one after the other, end. */
  ghost predicate AllEnd(msg: string, pairs: seq<(string, string)>)
    decreases pairs
  {
    pairs == [] ||
    (Ends(msg, pairs[0].0, pairs[0].1) && AllEnd(ReplaceAll(msg, pairs[0].0, pairs[0].1).0, pairs[1..]))
  }

  function ReplaceEach(msg: string, pairs: seq<(string, string)>): string
    requires AllEnd(msg, pairs)
    decreases pairs
  {
    if pairs == [] then msg else ReplaceEach(ReplaceAll(msg, pairs[0].0, pairs[0].1).0, pairs[1..])
  }

  /** All tags of the name taken away, and how many turns that takes. */
  function Stripped(msg: string, name: string): (string, nat)
    requires IsName(name)
  {
    TameEnds(msg, name, "");
    ReplaceAll(msg, name, "")
  }

  /** The first `<LOG>` goes away; a connected program then writes a record. */
  function WithoutLog(msg: string): (string, bool) {
    match Find(msg, TagText("LOG"), 0)
    case None => (msg, false)
    case Some(p) => (Replaced(msg, p, |TagText("LOG")|, ""), true)
  }

  /** `expand_msg`, whenever it returns. */
  function Expand(st: Station, serial: int, msg: string): Expansion
    requires AllEnd(Upcase(msg), Texts(st, serial))
  {
    var m := ReplaceEach(Upcase(msg), Texts(st, serial));
    var (m1, logged) := WithoutLog(m);
    var (m2, plus) := Stripped(m1, "+");
    var (m3, minus) := Stripped(m2, "-");
    var n := serial + plus - minus;
    Expansion(m3, if n < 1 then 1 else n, logged && st.connected)
  }

  /** It returns for every message if each text brings no opening or no closing bracket,
      or touches no tag of its kind. */
  lemma {:induction false} HarmlessEnd(msg: string, pairs: seq<(string, string)>)
    requires forall i | 0 <= i < |pairs| ::
      IsName(pairs[i].0) && (Tame(pairs[i].1) || Apart(pairs[i].0, pairs[i].1))
    ensures AllEnd(msg, pairs)
    decreases pairs
  {
    hide Tame, Apart, IsName, ReplaceAll, Ends;
    if pairs == [] {
    } else {
      var (name, text) := pairs[0];
      if Tame(text) { TameEnds(msg, name, text); } else { ApartEnds(msg, name, text); }
      HarmlessEnd(ReplaceAll(msg, name, text).0, pairs[1..]);
    }
  }

  /** The serial number counts the loops' turns, and each turn took one bracket away. */
  lemma SerialCounts(st: Station, serial: int, msg: string)
    requires AllEnd(Upcase(msg), Texts(st, serial))
    ensures var m1 := WithoutLog(ReplaceEach(Upcase(msg), Texts(st, serial))).0;
      var m2, x := Stripped(m1, "+").0, Expand(st, serial, msg);
      var n := serial + (Count(m1, '<') - Count(m2, '<')) - (Count(m2, '<') - Count(x.msg, '<'));
      x.serial == (if n < 1 then 1 else n) && !Contains(x.msg, TagText("-"))
  {
    hide Count, ReplaceAll, ReplaceEach, Upcase, WithoutLog, Texts, TagText, AllEnd, Ends;
    var m1 := WithoutLog(ReplaceEach(Upcase(msg), Texts(st, serial))).0;
    ReplaceAllEnds(m1, "+", "");
    ReplaceAllEnds(Stripped(m1, "+").0, "-", "");
  }

  method ExpandMsg(st: Station, serial: int, msg: string) returns (x: Expansion)
    requires AllEnd(Upcase(msg), Texts(st, serial))
    ensures x == Expand(st, serial, msg)
  {
    hide ReplaceAll, ReplaceEach, Find, Texts, TagText, AllEnd, Ends;
    var m := UpcaseLoop(msg);
    m := ReplaceTexts(st, serial, m);
    var logged := false;
    var ptr := Find(m, TagText("LOG"), 0);
    if ptr.Some? {
      logged := st.connected;
      m := Replaced(m, ptr.value, |TagText("LOG")|, "");
    }
    var n, turns := serial, 0;
    TameEnds(m, "+", "");
    m, turns := ReplaceLoop(m, "+", "");
    n := n + turns;
    TameEnds(m, "-", "");
    m, turns := ReplaceLoop(m, "-", "");
    n := n - turns;
    if n < 1 { n := 1; }
    x := Expansion(m, n, logged);
  }

  /** The loops for the tags that stand for texts. */
  method ReplaceTexts(st: Station, serial: int, msg0: string) returns (msg: string)
    requires AllEnd(msg0, Texts(st, serial))
    ensures msg == ReplaceEach(msg0, Texts(st, serial))
  {
    hide ReplaceAll, ReplaceEach, SerialText, TagText, AllEnd, Ends, Contains;
    ghost var pairs := Texts(st, serial);
    var turns;
    msg := msg0;
    assert pairs[0..] == pairs;
    EachStep(msg, pairs, 0);
    msg, turns := ReplaceLoop(msg, "STA", st.sta);
    EachStep(msg, pairs, 1);
    msg, turns := ReplaceLoop(msg, "NAM", st.nam);
    EachStep(msg, pairs, 2);
    msg, turns := ReplaceLoop(msg, "CLL", st.cll);
    EachStep(msg, pairs, 3);
    msg, turns := ReplaceLoop(msg, "QTH", st.qth);
    EachStep(msg, pairs, 4);
    msg, turns := ReplaceLoop(msg, "LOC", st.loc);
    EachStep(msg, pairs, 5);
    msg, turns := ReplaceLoop(msg, "OPR", st.opr);
    EachStep(msg, pairs, 6);
    msg, turns := ReplaceLoop(msg, "X", st.xout);
    EachStep(msg, pairs, 7);
    msg, turns := ReplaceLoop(msg, "#", SerialText(st.zeros, serial));
    EachIsDone(msg, pairs);
  }

  lemma EachStep(msg: string, pairs: seq<(string, string)>, k: nat)
    requires k < |pairs| && AllEnd(msg, pairs[k..])
    ensures Ends(msg, pairs[k].0, pairs[k].1)
    ensures var next := ReplaceAll(msg, pairs[k].0, pairs[k].1).0;
      AllEnd(next, pairs[k + 1..]) && ReplaceEach(msg, pairs[k..]) == ReplaceEach(next, pairs[k + 1..])
  {
    hide ReplaceAll, Ends;
    assert pairs[k..][1..] == pairs[k + 1..];
  }

  lemma EachIsDone(msg: string, pairs: seq<(string, string)>)
    ensures AllEnd(msg, pairs[|pairs|..]) && ReplaceEach(msg, pairs[|pairs|..]) == msg
  {
  }

  method UpcaseLoop(s: string) returns (r: string)
    ensures r == Upcase(s)
  {
    r := s;
    var n := 0;
    while n < |r|
      invariant n <= |r| == |s|
      invariant forall i | 0 <= i < n :: r[i] == Upper(s[i])
      invariant forall i | n <= i < |s| :: r[i] == s[i]
    {
      r := r[n := Upper(r[n])];
      n := n + 1;
    }
  }

  // ------------------------------------------------------- all substitutions at once

  predicate AllClean(pairs: seq<(string, string)>) {
    forall i | 0 <= i < |pairs| :: IsName(pairs[i].0) && '<' !in pairs[i].1
  }

  /** What one token becomes, by the first of the pairs with its name. */
  function Meaning(t: Token, pairs: seq<(string, string)>): Token {
    if pairs == [] then t
    else if t == Tag(pairs[0].0) then Lit(pairs[0].1)
    else Meaning(t, pairs[1..])
  }

  function Meanings(ts: seq<Token>, pairs: seq<(string, string)>): (r: seq<Token>)
    ensures |r| == |ts| && forall i | 0 <= i < |ts| :: r[i] == Meaning(ts[i], pairs)
  {
    seq(|ts|, i requires 0 <= i < |ts| => Meaning(ts[i], pairs))
  }

  lemma {:induction false} LitStays(text: string, pairs: seq<(string, string)>)
    ensures Meaning(Lit(text), pairs) == Lit(text)
    decreases pairs
  {
    if pairs == [] {
    } else {
      LitStays(text, pairs[1..]);
    }
  }

  lemma SubstitutedProper(ts: seq<Token>, name: string, text: string)
    requires Proper(ts) && '<' !in text
    ensures Proper(Substituted(ts, name, text))
  {
  }

  /** One loop after the other is one substitution of all kinds of tags. */
  lemma {:induction false} ReplaceEachTokens(ts: seq<Token>, pairs: seq<(string, string)>)
    requires Proper(ts) && AllClean(pairs)
    ensures AllEnd(Render(ts), pairs) && Proper(Meanings(ts, pairs))
    ensures ReplaceEach(Render(ts), pairs) == Render(Meanings(ts, pairs))
    decreases pairs
  {
    hide Proper, ReplaceAll, Render, IsName, Ends;
    if pairs == [] {
      assert Meanings(ts, pairs) == ts;
    } else {
      var ts1 := Substituted(ts, pairs[0].0, pairs[0].1);
      assert AllClean([pairs[0]]) && AllClean(pairs[1..]);
      ReplaceAllTokens(ts, pairs[0].0, pairs[0].1);
      SubstitutedProper(ts, pairs[0].0, pairs[0].1);
      ReplaceEachTokens(ts1, pairs[1..]);
      LitStays(pairs[0].1, pairs[1..]);
      assert Meanings(ts1, pairs[1..]) == Meanings(ts, pairs);
    }
  }

  /** What the token at `i` of a message becomes: only the first `<LOG>` goes away. */
  function Final(st: Station, serial: int, ts: seq<Token>, i: nat): Token
    requires i < |ts|
  {
    if ts[i] == Tag("LOG") && Tags(ts[..i], "LOG") == 0 then Lit("")
    else Meaning(ts[i], Texts(st, serial) + [("+", ""), ("-", "")])
  }

  function Finals(st: Station, serial: int, ts: seq<Token>): (r: seq<Token>)
    ensures |r| == |ts| && forall i | 0 <= i < |ts| :: r[i] == Final(st, serial, ts, i)
  {
    seq(|ts|, i requires 0 <= i < |ts| => Final(st, serial, ts, i))
  }

  /** A kind of tag that no pair names keeps its tags. */
  lemma {:induction false} OtherTags(ts: seq<Token>, pairs: seq<(string, string)>, name: string)
    requires forall t :: Meaning(t, pairs) == Tag(name) <==> t == Tag(name)
    ensures Tags(Meanings(ts, pairs), name) == Tags(ts, name)
    decreases ts
  {
    hide Meaning;
    if ts == [] {
    } else {
      OtherTags(ts[1..], pairs, name);
      assert Meanings(ts, pairs)[1..] == Meanings(ts[1..], pairs);
    }
  }

  lemma {:induction false} NotNamed(t: Token, pairs: seq<(string, string)>, name: string)
    requires forall i | 0 <= i < |pairs| :: pairs[i].0 != name
    ensures Meaning(t, pairs) == Tag(name) <==> t == Tag(name)
    decreases pairs
  {
    if pairs == [] {
    } else {
      NotNamed(t, pairs[1..], name);
    }
  }

  lemma {:induction false} MeaningConcat(t: Token, a: seq<(string, string)>, b: seq<(string, string)>)
    ensures Meaning(t, a + b) == Meaning(Meaning(t, a), b)
    decreases a
  {
    if a == [] {
      assert a + b == b;
    } else {
      assert (a + b)[1..] == a[1..] + b;
      MeaningConcat(t, a[1..], b);
      LitStays(a[0].1, b);
    }
  }

  lemma TagAt(ts: seq<Token>, n: nat, name: string)
    requires n < |ts| && ts[n] == Tag(name)
    ensures Tags(ts, name) > 0
  {
    if Tags(ts, name) == 0 {
      NoTags(ts, name);
    }
  }

  /** No text stands for the three tags that are dealt with last. */
  lemma OtherNames(st: Station, serial: int, i: nat)
    requires i < |Texts(st, serial)|
    ensures var name := Texts(st, serial)[i].0; name != "LOG" && name != "+" && name != "-"
  {
    hide SerialText;
    var name := Texts(st, serial)[i].0;
    assert |name| == 3 ==> name[0] != 'L' || name[1] != 'O' || name[2] != 'G';
    assert |name| == 1 ==> name[0] == 'X' || name[0] == '#';
  }

  lemma NameOther(t: Token, st: Station, serial: int)
    ensures Meaning(t, Texts(st, serial)) == Tag("LOG") <==> t == Tag("LOG")
    ensures Meaning(t, Texts(st, serial)) == Tag("+") <==> t == Tag("+")
    ensures Meaning(t, Texts(st, serial)) == Tag("-") <==> t == Tag("-")
  {
    hide Texts, Meaning;
    var pairs := Texts(st, serial);
    forall i | 0 <= i < |pairs| ensures pairs[i].0 != "LOG" && pairs[i].0 != "+" && pairs[i].0 != "-" {
      OtherNames(st, serial, i);
    }
    NotNamed(t, pairs, "LOG");
    NotNamed(t, pairs, "+");
    NotNamed(t, pairs, "-");
  }

  lemma TextsKeepTags(ts: seq<Token>, st: Station, serial: int)
    ensures var ts1 := Meanings(ts, Texts(st, serial));
      Tags(ts1, "LOG") == Tags(ts, "LOG") && Tags(ts1, "+") == Tags(ts, "+") && Tags(ts1, "-") == Tags(ts, "-")
  {
    hide Texts, Meaning;
    forall t ensures (Meaning(t, Texts(st, serial)) == Tag("LOG") <==> t == Tag("LOG"))
      && (Meaning(t, Texts(st, serial)) == Tag("+") <==> t == Tag("+"))
      && (Meaning(t, Texts(st, serial)) == Tag("-") <==> t == Tag("-"))
    {
      NameOther(t, st, serial);
    }
    OtherTags(ts, Texts(st, serial), "LOG");
    OtherTags(ts, Texts(st, serial), "+");
    OtherTags(ts, Texts(st, serial), "-");
  }

  /** The first tag of the name is gone. */
  function Dropped(ts: seq<Token>, name: string): (r: seq<Token>)
    ensures |r| == |ts|
  {
    if Tags(ts, name) == 0 then ts else ts[IndexOf(ts, name) := Lit("")]
  }

  lemma DroppedAt(ts: seq<Token>, name: string, i: nat)
    requires i < |ts|
    ensures Dropped(ts, name)[i] == if ts[i] == Tag(name) && Tags(ts[..i], name) == 0 then Lit("") else ts[i]
  {
    if Tags(ts, name) == 0 {
      NoTags(ts, name);
    } else {
      var n := IndexOf(ts, name);
      if i < n && ts[i] == Tag(name) { TagAt(ts[..n], i, name); }
      if n < i { TagAt(ts[..i], n, name); }
    }
  }

  lemma DroppedKeeps(ts: seq<Token>, name: string, other: string)
    requires Proper(ts) && other != name
    ensures Proper(Dropped(ts, name)) && Tags(Dropped(ts, name), other) == Tags(ts, other)
  {
    if Tags(ts, name) > 0 {
      TagsUpdated(ts, IndexOf(ts, name), "", other);
    }
  }

  lemma {:induction false} SubstitutedTags(ts: seq<Token>, name: string, text: string, other: string)
    requires other != name
    ensures Tags(Substituted(ts, name, text), other) == Tags(ts, other)
    decreases ts
  {
    if ts == [] {
    } else {
      SubstitutedTags(ts[1..], name, text, other);
      assert Substituted(ts, name, text)[1..] == Substituted(ts[1..], name, text);
    }
  }

  lemma WithoutLogTokens(ts: seq<Token>)
    requires Proper(ts)
    ensures WithoutLog(Render(ts)) == (Render(Dropped(ts, "LOG")), Tags(ts, "LOG") > 0)
  {
    hide Find, Render, TagText, Replaced, Proper;
    FirstTag(ts, "LOG");
    if Tags(ts, "LOG") > 0 {
      ReplaceToken(ts, IndexOf(ts, "LOG"), "");
    }
  }

  /** The tokens behind the last loop are the ones of the simultaneous substitution. */
  lemma LastTokens(st: Station, serial: int, ts: seq<Token>)
    ensures var ts2 := Dropped(Meanings(ts, Texts(st, serial)), "LOG");
      Substituted(Substituted(ts2, "+", ""), "-", "") == Finals(st, serial, ts)
  {
    hide Texts, Meaning, Dropped;
    var ts1 := Meanings(ts, Texts(st, serial));
    var ts4 := Substituted(Substituted(Dropped(ts1, "LOG"), "+", ""), "-", "");
    forall i | 0 <= i < |ts| ensures ts4[i] == Final(st, serial, ts, i) {
      LastToken(st, serial, ts, i);
    }
  }

  lemma LastToken(st: Station, serial: int, ts: seq<Token>, i: nat)
    requires i < |ts|
    ensures var t := Dropped(Meanings(ts, Texts(st, serial)), "LOG")[i];
      (if t == Tag("+") || t == Tag("-") then Lit("") else t) == Final(st, serial, ts, i)
  {
    hide Texts, Dropped, Meaning;
    var ts1 := Meanings(ts, Texts(st, serial));
    DroppedAt(ts1, "LOG", i);
    NameOther(ts[i], st, serial);
    MeaningConcat(ts[i], Texts(st, serial), [("+", ""), ("-", "")]);
    MeaningOfSigns(ts1[i]);
    TextsKeepTags(ts[..i], st, serial);
    assert ts1[..i] == Meanings(ts[..i], Texts(st, serial));
  }

  lemma MeaningOfSigns(t: Token)
    ensures Meaning(t, [("+", ""), ("-", "")]) == if t == Tag("+") || t == Tag("-") then Lit("") else t
  {
    assert [("+", ""), ("-", "")][1..] == [("-", "")];
    var none: seq<(string, string)> := [];
    assert [("-", "")][1..] == none;
    assert Meaning(t, none) == t;
    assert Meaning(t, [("-", "")]) == if t == Tag("-") then Lit("") else t;
  }

  /** Tags inside of tags are another matter: a tag that goes away can leave a new one
      behind, which a later loop then finds, and an earlier one would not. */
  lemma NewTag()
    ensures Stripped("<-<+>>", "+") == ("<->", 1)
    ensures Stripped("<->", "-") == ("", 1)
  {
    hide Stripped;
    NewTagFound();
    ReplaceOnce("<-<+>>", "+", 2, "<->");
    ReplaceOnce("<->", "-", 0, "");
  }

  lemma NewTagFound()
    ensures Find("<-<+>>", TagText("+"), 0) == Some(2)
    ensures Find("<->", TagText("+"), 0) == None && Find("<->", TagText("-"), 0) == Some(0)
    ensures Find("", TagText("-"), 0) == None
  {
    var s, t := "<-<+>>", TagText("+");
    assert s[0..3][1] != t[1] && s[1..4][0] != t[0] && s[2..5] == t;
    assert Find(s, t, 2) == Some(2);
    assert Find(s, t, 1) == Some(2);
    assert "<->"[0..3] == "<->";
  }

  lemma ReplaceOnce(msg: string, name: string, p: nat, rest: string)
    requires IsName(name) && Find(msg, TagText(name), 0) == Some(p)
    requires p + |name| + 2 <= |msg| && msg[..p] + msg[p + |name| + 2..] == rest
    requires Find(rest, TagText(name), 0) == None
    ensures Stripped(msg, name) == (rest, 1)
  {
    hide Find, Ends, TurnsLeft;
    assert Replaced(msg, p, |TagText(name)|, "") == rest;
    TameEnds(msg, name, "");
    TameEnds(rest, name, "");
    assert ReplaceAll(rest, name, "") == (rest, 0);
  }

  /** On a message of tags and of literals without an opening bracket, with texts that
      bring none, the loops do one simultaneous substitution: each tag becomes its
      text, the first `<LOG>` goes away, and the serial number changes by the numbers
      of `<+>` and `<->`. */
  lemma Simultaneous(st: Station, serial: int, msg: string, ts: seq<Token>)
    requires Proper(ts) && Upcase(msg) == Render(ts) && AllClean(Texts(st, serial))
    ensures AllEnd(Upcase(msg), Texts(st, serial))
    ensures var n := serial + Tags(ts, "+") - Tags(ts, "-");
      Expand(st, serial, msg)
        == Expansion(Render(Finals(st, serial, ts)), if n < 1 then 1 else n, Tags(ts, "LOG") > 0 && st.connected)
  {
    hide Texts, Proper, Render, ReplaceEach, ReplaceAll, WithoutLog, AllClean, AllEnd, Ends, Dropped, Tags, Upcase;
    var pairs := Texts(st, serial);
    var ts1 := Meanings(ts, pairs);
    ReplaceEachTokens(ts, pairs);
    TextsKeepTags(ts, st, serial);
    WithoutLogTokens(ts1);
    var ts2 := Dropped(ts1, "LOG");
    DroppedKeeps(ts1, "LOG", "+");
    DroppedKeeps(ts1, "LOG", "-");
    var ts3 := Substituted(ts2, "+", "");
    ReplaceAllTokens(ts2, "+", "");
    SubstitutedProper(ts2, "+", "");
    SubstitutedTags(ts2, "+", "", "-");
    ReplaceAllTokens(ts3, "-", "");
    LastTokens(st, serial, ts);
  }
}
