/** Which requests keep their connection (section 6.3 of RFC 7230), said of the text of
    the request alone: its last connection field, and the version "HTTP/1.0" anywhere. */
module ConnectionField {
  import opened Text
  import opened XmlRpcUtil
  import opened ValueSyntax
  import opened HttpHeader
  import opened HttpMessage
  import opened Messages
  import opened ClientIdentification
  import opened ServerConnection
  import opened Framing
  import opened ServerSession
  import opened EndToEnd

  const VERSION10 := "HTTP/1.0"

  /** The last place in a header where the field's name stands, in any case. */
  ghost predicate IsLast(h: string, k: Option<nat>) {
    match k
    case None => forall i: nat :: !AtNoCase(h, i, CONNECTION)
    case Some(j) => AtNoCase(h, j, CONNECTION) && forall i: nat | i > j :: !AtNoCase(h, i, CONNECTION)
  }

  /** The field's value begins with the word, in any case. */
  predicate Says(h: string, k: Option<nat>, word: string) {
    k.Some? && AtNoCase(h, k.value + |CONNECTION|, word)
  }

  // ------------------------------------------------------------- the scan finds the last

  lemma {:induction false} ScanLast(h: string, k: Option<nat>, cp: nat, lp: Option<nat>, kp: Option<nat>)
    requires IsLast(h, k) && ScanFrom(h, cp, lp, kp, false).body == Some(|h|)
    ensures ScanFrom(h, cp, lp, kp, false).connection
      == if k.Some? && k.value >= cp then Some(k.value + |CONNECTION|) else kp
    decreases |h| - cp
  {
    hide At, AtNoCase;
    var m := MarkAt(h, cp, false);
    FieldNamesDiffer(h, cp);
    if m.Blank? {
      if k.Some? { NoCaseFits(h, k.value); }
    } else {
      ScanLast(h, k, cp + 1, NewLength(m, cp, lp), NewConnection(m, cp, kp));
    }
  }

  lemma NoCaseFits(h: string, o: nat)
    requires AtNoCase(h, o, CONNECTION)
    ensures o + |CONNECTION| <= |h|
  {
  }

  lemma ScanFindsLast(h: string, k: Option<nat>)
    requires IsHeader(h, false) && IsLast(h, k)
    ensures ScanText(h, false).connection == if k.Some? then Some(k.value + |CONNECTION|) else None
  {
    hide IsLast, ScanFrom;
    ScanLast(h, k, 0, None, None);
  }

  // --------------------------------------------------------------- where the version is

  lemma FindContains(s: string)
    ensures Find(s, VERSION10, 0).Some? <==> Contains(s, VERSION10)
  {
    hide At;
  }

  lemma NoLineEndInVersion(k: nat)
    requires k < |VERSION10|
    ensures VERSION10[k] != '\n' && VERSION10[k] != '\r'
  {
    assert '\n' !in VERSION10 && '\r' !in VERSION10;
  }

  /** No "HTTP/1.0" begins in a header and ends behind it. */
  lemma VersionSplits(h: string, body: string)
    requires h != "" && h[|h| - 1] == '\n'
    ensures Contains(h + body, VERSION10) <==> Contains(h, VERSION10) || Contains(body, VERSION10)
  {
    hide At;
    var all := h + body;
    if Contains(all, VERSION10) {
      var i :| 0 <= i <= |all| && At(all, i, VERSION10);
      AtBound(all, i, VERSION10);
      if i + 8 <= |h| {
        AtPrefix(h, all, i, VERSION10);
      } else if i >= |h| {
        AtShift(h, body, i - |h|, VERSION10);
      } else {
        AtIndex(all, i, VERSION10, |h| - 1 - i);
        NoLineEndInVersion(|h| - 1 - i);
      }
    }
    if Contains(h, VERSION10) {
      var i :| 0 <= i <= |h| && At(h, i, VERSION10);
      AtBound(h, i, VERSION10);
      AtPrefix(h, all, i, VERSION10);
    }
    if Contains(body, VERSION10) {
      var i :| 0 <= i <= |body| && At(body, i, VERSION10);
      AtShift(h, body, i, VERSION10);
    }
  }

  // ---------------------------------------------------------------- which are kept

  lemma WordsDiffer(h: string, o: nat)
    ensures !(AtNoCase(h, o, "close") && AtNoCase(h, o, "keep-alive"))
  {
    if AtNoCase(h, o, "close") && AtNoCase(h, o, "keep-alive") {
      NoCaseIndex(h, o, "close", 0);
      NoCaseIndex(h, o, "keep-alive", 0);
    }
  }

  /** What `readHeader` decides on any text received so far, for a field found at `k`. */
  lemma DecisionIs(received: string, h: string, k: Option<nat>)
    requires h <= received && h != "" && h[|h| - 1] == '\n' && (k.Some? ==> k.value + |CONNECTION| < |h|)
    ensures var kp := if k.Some? then Some(k.value + |CONNECTION|) else None;
      KeepAlive(received, kp) <==>
        if Contains(received, VERSION10) then Says(h, k, "keep-alive") else !Says(h, k, "close")
  {
    hide Find, Contains, AtNoCase;
    FindContains(received);
    if k.Some? {
      ValueInHeader(h, received, k.value + |CONNECTION|, "keep-alive");
      ValueInHeader(h, received, k.value + |CONNECTION|, "close");
    }
  }

  /** A field's name ends before the last byte of its header. */
  lemma FieldInside(h: string, k: nat)
    requires IsHeader(h, false) && AtNoCase(h, k, CONNECTION)
    ensures h != "" && h[|h| - 1] == '\n' && k + |CONNECTION| < |h|
  {
    hide ScanFrom;
    HeaderEndsInNewline(h, false);
    NoCaseIndex(h, k, CONNECTION, |CONNECTION| - 1);
  }

  /** A framed request is kept wherever its bytes are cut if and only if, with "HTTP/1.0"
      in its header or body, its last connection field says "keep-alive", and without it
      that field does not say "close". It is never kept, wherever they are cut, if and
      only if it says neither for a version in the header, and "close" otherwise. */
  lemma KeptByText(q: Message, k: Option<nat>)
    requires Framed(q, false) && IsLast(q.header, k)
    ensures KeptAlive(q) <==>
      if Contains(q.header, VERSION10) || Contains(q.body, VERSION10) then Says(q.header, k, "keep-alive")
      else !Says(q.header, k, "close")
    ensures Judged(q, false) <==>
      if Contains(q.header, VERSION10) then !Says(q.header, k, "keep-alive") else Says(q.header, k, "close")
  {
    hide IsLast, ScanText, Atoi, KeepAlive, Contains, AtNoCase, Judged;
    var h := q.header;
    HeaderEndsInNewline(h, false);
    ScanFindsLast(h, k);
    if k.Some? {
      LastIsThere(h, k);
      FieldInside(h, k.value);
      WordsDiffer(h, k.value + |CONNECTION|);
    }
    KeptExactly(q, true);
    KeptExactly(q, false);
    DecisionIs(h, h, k);
    DecisionIs(q.Bytes(), h, k);
    VersionSplits(h, q.body);
  }

  lemma LastIsThere(h: string, k: Option<nat>)
    requires IsLast(h, k) && k.Some?
    ensures AtNoCase(h, k.value, CONNECTION)
  {
  }

  /** The field of a line "Connection: ..." is the last if none begins behind it. */
  lemma LineIsLast(before: string, name: string, rest: string)
    requires |name| == |CONNECTION| && AtNoCase(name, 0, CONNECTION)
    requires forall i: nat :: !AtNoCase(rest, i, CONNECTION)
    ensures IsLast(before + name + rest, Some(|before|))
  {
    var h := before + name + rest;
    forall i | 0 <= i < |name| ensures h[|before| + i] == name[i] {}
    forall i: nat | i > |before| ensures !AtNoCase(h, i, CONNECTION) {
      if AtNoCase(h, i, CONNECTION) {
        BehindLine(before, name, rest, i);
      }
    }
  }

  lemma NameOnce(j: nat)
    requires 0 < j < |CONNECTION|
    ensures Lower(CONNECTION[j]) == 'c' ==> j < |CONNECTION| - 1 && Lower(CONNECTION[j + 1]) != 'o'
  {
  }

  lemma BehindLine(before: string, name: string, rest: string, i: nat)
    requires |name| == |CONNECTION| && AtNoCase(name, 0, CONNECTION) && i > |before|
    requires AtNoCase(before + name + rest, i, CONNECTION)
    ensures i >= |before + name| && AtNoCase(rest, i - |before + name|, CONNECTION)
  {
    var h := before + name + rest;
    if i < |before + name| {
      var j := i - |before|;
      assert h[i] == name[j] && (j < |name| - 1 ==> h[i + 1] == name[j + 1]);
      NoCaseIndex(name, 0, CONNECTION, j);
      if j < |name| - 1 { NoCaseIndex(name, 0, CONNECTION, j + 1); }
      NoCaseIndex(h, i, CONNECTION, 0);
      NoCaseIndex(h, i, CONNECTION, 1);
      NameOnce(j);
    } else {
      forall k | 0 <= k < |CONNECTION| ensures Lower(rest[i - |before + name| + k]) == Lower(CONNECTION[k]) {
        NoCaseIndex(h, i, CONNECTION, k);
        assert h[i + k] == rest[i - |before + name| + k];
      }
    }
  }

  // ------------------------------------------------------------ the client's requests

  lemma FieldInLine(l: string, tail: string, i: nat)
    requires AtNoCase(l + "\r\n" + tail, i, CONNECTION) && i < |l| + 2
    ensures i + |CONNECTION| <= |l| && AtNoCase(l, i, CONNECTION)
  {
    var h := l + "\r\n" + tail;
    assert h[|l|] == '\r' && h[|l| + 1] == '\n';
    if i + |CONNECTION| > |l| {
      var k := if i <= |l| then |l| - i else 0;
      NoCaseIndex(h, i, CONNECTION, k);
      NoLineEndInName(k);
    }
    forall k | 0 <= k < |CONNECTION| && i + k < |l| ensures Lower(l[i + k]) == Lower(CONNECTION[k]) {
      NoCaseIndex(h, i, CONNECTION, k);
      assert h[i + k] == l[i + k];
    }
  }

  lemma NoLineEndInName(k: nat)
    requires k < |CONNECTION|
    ensures Lower(CONNECTION[k]) != '\r' && Lower(CONNECTION[k]) != '\n'
  {
  }

  ghost predicate NoField(s: string) {
    forall i: nat :: !AtNoCase(s, i, CONNECTION)
  }

  lemma NoFieldInLine(l: string, tail: string)
    requires NoField(l) && NoField(tail)
    ensures NoField(l + "\r\n" + tail)
  {
    hide AtNoCase;
    var h := l + "\r\n" + tail;
    forall i: nat ensures !AtNoCase(h, i, CONNECTION) {
      if AtNoCase(h, i, CONNECTION) {
        if i < |l| + 2 {
          FieldInLine(l, tail, i);
        } else {
          FieldBehind(l + "\r\n", tail, i);
        }
      }
    }
  }

  lemma FieldBehind(a: string, b: string, i: nat)
    requires AtNoCase(a + b, i, CONNECTION) && i >= |a|
    ensures AtNoCase(b, i - |a|, CONNECTION)
  {
    forall k | 0 <= k < |CONNECTION| ensures Lower(b[i - |a| + k]) == Lower(CONNECTION[k]) {
      NoCaseIndex(a + b, i, CONNECTION, k);
      assert (a + b)[i + k] == b[i - |a| + k];
    }
  }

  lemma {:induction false} NoFieldInLines(ls: seq<string>, rest: string)
    requires (forall k | 0 <= k < |ls| :: NoField(ls[k])) && NoField(rest)
    ensures NoField(Lines(ls) + rest)
    decreases ls
  {
    hide NoField;
    if ls == [] {
      assert Lines(ls) + rest == rest;
    } else {
      NoFieldInLines(ls[1..], rest);
      NoFieldInLine(ls[0], Lines(ls[1..]) + rest);
      assert Lines(ls) + rest == ls[0] + "\r\n" + (Lines(ls[1..]) + rest);
    }
  }

  /** A text without one of the name's characters. */
  lemma NoFieldWithout(s: string, c: char, k: nat)
    requires k < |CONNECTION| && Lower(CONNECTION[k]) == c && forall i | 0 <= i < |s| :: Lower(s[i]) != c
    ensures NoField(s)
  {
    forall i: nat ensures !AtNoCase(s, i, CONNECTION) {
      if AtNoCase(s, i, CONNECTION) {
        NoCaseIndex(s, i, CONNECTION, k);
      }
    }
  }

  lemma LengthHasNoField(size: nat)
    ensures NoField(LENGTH + (Decimal(ToInt32(size)) + CRLF2))
  {
    hide Decimal, AtNoCase;
    var h := LENGTH + (Decimal(ToInt32(size)) + CRLF2);
    forall i: nat ensures !AtNoCase(h, i, CONNECTION) {
      LengthLineChars(size, i);
      if AtNoCase(h, i, CONNECTION) {
        NoCaseIndex(h, i, CONNECTION, 0);
        NoCaseIndex(h, i, CONNECTION, 3);
      }
    }
  }

  /** Its only 'c' is the first character, and no field name of the other kind. */
  lemma LengthLineChars(size: nat, i: nat)
    ensures var h := LENGTH + (Decimal(ToInt32(size)) + CRLF2);
      (i == 0 ==> h[3] == 't') && (0 < i < |h| ==> h[i] != 'c' && h[i] != 'C')
  {
    hide Decimal;
    var d := Decimal(ToInt32(size));
    var h := LENGTH + (d + CRLF2);
    assert h[3] == LENGTH[3];
    if 0 < i < 16 {
      FieldChars(i);
      assert h[i] == LENGTH[i];
    } else if 16 <= i < 16 + |d| {
      DigitsAreClean(ToInt32(size), i - 16);
      assert h[i] == d[i - 16];
    } else if 16 + |d| <= i < |h| {
      assert h[i] == CRLF2[i - 16 - |d|];
    }
  }

  function RequestLine(uri: string): string { "POST " + uri + " HTTP/1.1" }

  function HostLine(host: string, port: Int32): string { "Host: " + host + ":" + Decimal(port) }

  lemma OwnLinesHaveNoField()
    ensures NoField("User-Agent: " + VERSION) && NoField("Content-Type: text/xml")
  {
    var a, b := "User-Agent: " + VERSION, "Content-Type: text/xml";
    assert forall i | 0 <= i < |a| :: Lower(a[i]) != 'o';
    NoFieldWithout(a, 'o', 1);
    forall i: nat ensures !AtNoCase(b, i, CONNECTION) {
      if AtNoCase(b, i, CONNECTION) {
        NoCaseIndex(b, i, CONNECTION, 0);
        NoCaseIndex(b, i, CONNECTION, 3);
      }
    }
  }

  lemma GeneratedHasNoField(uri: string, host: string, port: Int32, body: string)
    requires NoField(RequestLine(uri)) && NoField(HostLine(host, port))
    ensures IsLast(ClientHeader(uri, host, port, body), None)
  {
    hide NoField, Lines, Decimal;
    OwnLinesHaveNoField();
    LengthHasNoField(|body|);
    var ls := ["POST " + uri + " HTTP/1.1", "User-Agent: " + VERSION, "Host: " + host + ":" + Decimal(port),
               "Content-Type: text/xml"];
    NoFieldInLines(ls, LENGTH + (Decimal(ToInt32(|body|)) + CRLF2));
    NoFieldIsNone(ClientHeader(uri, host, port, body));
  }

  lemma NoFieldIsNone(h: string)
    requires NoField(h)
    ensures IsLast(h, None)
  {
  }

  // ------------------------------------------------------- where they hold "HTTP/1.0"

  lemma VersionInLine(l: string, tail: string)
    ensures Contains(l + "\r\n" + tail, VERSION10) <==> Contains(l, VERSION10) || Contains(tail, VERSION10)
  {
    hide At, Contains;
    var a := l + "\r\n";
    VersionSplits(a, tail);
    VersionBeforeEnd(l);
  }

  lemma VersionBeforeEnd(l: string)
    ensures Contains(l + "\r\n", VERSION10) <==> Contains(l, VERSION10)
  {
    hide At;
    var a := l + "\r\n";
    if Contains(a, VERSION10) {
      var i :| 0 <= i <= |a| && At(a, i, VERSION10);
      AtBound(a, i, VERSION10);
      if i + 8 > |l| {
        AtIndex(a, i, VERSION10, |l| - i);
        NoLineEndInVersion(|l| - i);
      } else {
        AtPrefix(l, a, i, VERSION10);
      }
    }
    if Contains(l, VERSION10) {
      var i :| 0 <= i <= |l| && At(l, i, VERSION10);
      AtBound(l, i, VERSION10);
      AtPrefix(l, a, i, VERSION10);
    }
  }

  lemma {:induction false} VersionInLines(ls: seq<string>, rest: string)
    ensures Contains(Lines(ls) + rest, VERSION10) <==>
      (exists k | 0 <= k < |ls| :: Contains(ls[k], VERSION10)) || Contains(rest, VERSION10)
    decreases ls
  {
    hide Contains;
    if ls == [] {
      assert Lines(ls) + rest == rest;
    } else {
      VersionInLines(ls[1..], rest);
      VersionInLine(ls[0], Lines(ls[1..]) + rest);
      assert Lines(ls) + rest == ls[0] + "\r\n" + (Lines(ls[1..]) + rest);
      if k :| 0 <= k < |ls| && Contains(ls[k], VERSION10) {
        assert k > 0 ==> ls[1..][k - 1] == ls[k];
      }
      if k :| 0 <= k < |ls[1..]| && Contains(ls[1..][k], VERSION10) {
        assert ls[k + 1] == ls[1..][k];
      }
    }
  }

  /** Without an 'H' no "HTTP/1.0" can begin. */
  lemma NoVersionWithoutH(s: string)
    requires 'H' !in s
    ensures !Contains(s, VERSION10)
  {
    hide At;
    forall i: nat | i <= |s| ensures !At(s, i, VERSION10) {
      if At(s, i, VERSION10) {
        AtBound(s, i, VERSION10);
        AtIndex(s, i, VERSION10, 0);
      }
    }
  }

  lemma LengthHasNoVersion(size: nat)
    ensures !Contains(LENGTH + (Decimal(ToInt32(size)) + CRLF2), VERSION10)
  {
    hide Decimal, Contains;
    var d := Decimal(ToInt32(size));
    forall i | 0 <= i < |d| ensures d[i] != 'H' { DigitsAreClean(ToInt32(size), i); }
    NoVersionWithoutH(LENGTH + (d + CRLF2));
  }

  /** A generated header holds it exactly if the line of the URI or of the host does. */
  lemma GeneratedVersion(uri: string, host: string, port: Int32, body: string)
    ensures Contains(ClientHeader(uri, host, port, body), VERSION10) <==>
      Contains(RequestLine(uri), VERSION10) || Contains(HostLine(host, port), VERSION10)
  {
    hide Contains, Lines, Decimal;
    var ls := ["POST " + uri + " HTTP/1.1", "User-Agent: " + VERSION, "Host: " + host + ":" + Decimal(port),
               "Content-Type: text/xml"];
    VersionInLines(ls, LENGTH + (Decimal(ToInt32(|body|)) + CRLF2));
    LengthHasNoVersion(|body|);
    NoVersionWithoutH(ls[1]);
    NoVersionWithoutH(ls[3]);
    assert ls[0] == RequestLine(uri) && ls[2] == HostLine(host, port);
  }

  // ----------------------------------------------------------------- which calls fit

  /** The calls that the theorems about whole runs are about: with no connection field
      smuggled into the lines of the URI and of the host, those without "HTTP/1.0" in
      these lines or in the body, as long as the text can be framed and read. */
  lemma CallFitsExactly(lib: Library, t: Target)
    requires NoLineEnd(t.uri) && NoLineEnd(t.host)
    requires NoField(RequestLine(t.uri)) && NoField(HostLine(t.host, t.port))
    ensures var body := RequestBody(lib, t.name, t.params);
      CallFits(lib, t) <==>
        && Callable(t.name, t.params) && ClientId(body).Some? && |body| < 0x8000_0000
        && !Contains(RequestLine(t.uri), VERSION10) && !Contains(HostLine(t.host, t.port), VERSION10)
        && !Contains(body, VERSION10)
  {
    hide Callable, ClientId, Contains, KeptAlive, NoField, ClientHeader, RequestBody, IsLast, WellFramed, ParseRequest;
    var q := MessageOf(lib, t);
    if Callable(t.name, t.params) && ClientId(q.body).Some? && |q.body| < 0x8000_0000 {
      RequestArrives(lib, t.uri, t.host, t.port, t.name, t.params);
      WellIsFramed(q);
      GeneratedHasNoField(t.uri, t.host, t.port, q.body);
      GeneratedVersion(t.uri, t.host, t.port, q.body);
      KeptByText(q, None);
    }
  }

  lemma WellIsFramed(q: Message)
    requires WellFramed(q, false)
    ensures Framed(q, false)
  {
    hide Framed;
  }

  /** Lines without a colon of the user's and without an 'H' hold neither. */
  lemma UsualTarget(uri: string, host: string, port: Int32)
    requires ':' !in uri && ':' !in host && 'H' !in uri && 'H' !in host
    ensures NoField(RequestLine(uri)) && NoField(HostLine(host, port))
    ensures !Contains(RequestLine(uri), VERSION10) && !Contains(HostLine(host, port), VERSION10)
  {
    hide Contains, NoField, Decimal;
    NoFieldWithout(RequestLine(uri), ':', 10);
    UsualHost(host, port);
    UsualRequest(uri);
  }

  lemma UsualRequest(uri: string)
    requires 'H' !in uri
    ensures !Contains(RequestLine(uri), VERSION10)
  {
    hide At;
    var l := RequestLine(uri);
    assert l[|uri| + 13] == '1';
    forall i: nat | i <= |l| ensures !At(l, i, VERSION10) {
      if At(l, i, VERSION10) {
        AtBound(l, i, VERSION10);
        AtIndex(l, i, VERSION10, 0);
        AtIndex(l, i, VERSION10, 7);
      }
    }
  }

  lemma UsualHost(host: string, port: Int32)
    requires ':' !in host && 'H' !in host
    ensures NoField(HostLine(host, port)) && !Contains(HostLine(host, port), VERSION10)
  {
    hide At, AtNoCase, Decimal;
    var l, d := HostLine(host, port), Decimal(port);
    forall i | 0 <= i < |d| ensures d[i] != 'H' && d[i] != ':' && d[i] != ' ' { DigitsAreClean(port, i); }
    forall i: nat ensures !AtNoCase(l, i, CONNECTION) {
      if AtNoCase(l, i, CONNECTION) {
        NoCaseIndex(l, i, CONNECTION, 0);
        NoCaseIndex(l, i, CONNECTION, 10);
        NoCaseIndex(l, i, CONNECTION, 11);
      }
    }
    forall i: nat | i <= |l| ensures !At(l, i, VERSION10) {
      if At(l, i, VERSION10) {
        AtBound(l, i, VERSION10);
        AtIndex(l, i, VERSION10, 0);
        AtIndex(l, i, VERSION10, 1);
      }
    }
  }

  /** So every call without parameters of a method with a plain name fits. */
  lemma PlainCallFits(lib: Library, uri: string, host: string, port: Int32, name: string)
    requires NoLineEnd(uri) && NoLineEnd(host) && ':' !in uri && ':' !in host && 'H' !in uri && 'H' !in host
    requires NulFree(name) && '<' !in name && 'H' !in name && |name| < 0x1000_0000
    ensures CallFits(lib, Target(uri, host, port, name, VInvalid))
  {
    hide CallFits, Contains, ClientId, NoField, Callable;
    var t := Target(uri, host, port, name, VInvalid);
    UsualTarget(uri, host, port);
    PlainBody(lib, name);
    RequestHasNone(lib, name, VInvalid);
    CallFitsExactly(lib, t);
  }

  lemma PlainBody(lib: Library, name: string)
    requires NulFree(name) && '<' !in name && 'H' !in name && |name| < 0x1000_0000
    ensures var body := RequestBody(lib, name, VInvalid); |body| < 0x8000_0000 && !Contains(body, VERSION10)
    ensures Callable(name, VInvalid) && SendableParams(VInvalid)
  {
    hide At;
    NoVersionWithoutH(RequestBody(lib, name, VInvalid));
    forall i: nat | i <= |name| ensures !At(name, i, Close("methodName")) {
      if At(name, i, Close("methodName")) {
        AtBound(name, i, Close("methodName"));
        AtIndex(name, i, Close("methodName"), 0);
      }
    }
  }
}
