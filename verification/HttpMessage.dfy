/** The headers that client and server write, and that the header scan reads them. */
module HttpMessage {
  import opened Text
  import opened HttpHeader

  const VERSION := "XMLRPC++ 0.8"

  /** A nonempty line without line ends. */
  predicate CleanLine(l: string) {
    l != "" && forall i | 0 <= i < |l| :: l[i] != '\r' && l[i] != '\n'
  }

  function Lines(ls: seq<string>): string {
    if ls == [] then "" else ls[0] + "\r\n" + Lines(ls[1..])
  }

  /** The header fields `ls`, then the length of the body as `%d` prints it, then a blank line. */
  function Header(ls: seq<string>, size: nat): string {
    Lines(ls) + (LENGTH + (Decimal(ToInt32(size)) + CRLF2))
  }

  /** `XmlRpcServer::generateHeader`. */
  function ServerHeader(body: string): string {
    Header(["HTTP/1.1 200 OK", "Server: " + VERSION, "Content-Type: text/xml"], |body|)
  }

  /** `XmlRpcClient::generateHeader`, without a login. */
  function ClientHeader(uri: string, host: string, port: Int32, body: string): string {
    Header(["POST " + uri + " HTTP/1.1",
            "User-Agent: " + VERSION,
            "Host: " + host + ":" + Decimal(port),
            "Content-Type: text/xml"], |body|)
  }

  lemma FourLines(a: string, b: string, c: string, d: string)
    ensures Lines([a, b, c]) == a + "\r\n" + (b + "\r\n" + (c + "\r\n"))
    ensures Lines([a, b, c, d]) == a + "\r\n" + Lines([b, c, d])
  {
    assert [a, b, c, d][1..] == [b, c, d] && [a, b, c][1..] == [b, c] && [b, c][1..] == [c] && [c][1..] == [];
    assert Lines([c]) == c + "\r\n" + "" == c + "\r\n";
  }

  /** The server's header as it goes over the wire. */
  lemma ServerHeaderText(body: string)
    ensures ServerHeader(body) == "HTTP/1.1 200 OK" + "\r\n"
      + ("Server: " + "XMLRPC++ 0.8" + "\r\n" + ("Content-Type: text/xml" + "\r\n"))
      + ("Content-length: " + (Decimal(ToInt32(|body|)) + "\r\n\r\n"))
  {
    hide Decimal, Lines;
    FourLines("HTTP/1.1 200 OK", "Server: " + VERSION, "Content-Type: text/xml", "");
  }

  /** And the client's. */
  lemma ClientHeaderText(uri: string, host: string, port: Int32, body: string)
    ensures ClientHeader(uri, host, port, body) == "POST " + uri + " HTTP/1.1" + "\r\n"
      + ("User-Agent: " + "XMLRPC++ 0.8" + "\r\n"
         + ("Host: " + host + ":" + Decimal(port) + "\r\n" + ("Content-Type: text/xml" + "\r\n")))
      + ("Content-length: " + (Decimal(ToInt32(|body|)) + "\r\n\r\n"))
  {
    hide Decimal, Lines;
    FourLines("POST " + uri + " HTTP/1.1", "User-Agent: " + VERSION, "Host: " + host + ":" + Decimal(port),
      "Content-Type: text/xml");
    FourLines("User-Agent: " + VERSION, "Host: " + host + ":" + Decimal(port), "Content-Type: text/xml", "");
  }

  predicate NoLineEnd(s: string) {
    forall i | 0 <= i < |s| :: s[i] != '\r' && s[i] != '\n'
  }

  predicate BlankAt(h: string, i: nat) {
    At(h, i, CRLF2) || At(h, i, LF2)
  }

  /** The length field stands behind the lines; this is its position. */
  lemma LengthField(ls: seq<string>, size: nat)
    ensures var h := Header(ls, size); var p := |Lines(ls)|; var d := Decimal(ToInt32(size));
      && At(h, p, LENGTH) && At(h, p + 16, d) && At(h, p + 16 + |d|, CRLF2)
      && |h| == p + 20 + |d|
  {
    var d := Decimal(ToInt32(size));
    var h := Header(ls, size);
    hide Lines, Decimal, At;
    assert At(h, |Lines(ls)|, LENGTH + (d + CRLF2)) by { TailAt(Lines(ls), LENGTH + (d + CRLF2)); }
    AtConcat(h, |Lines(ls)|, LENGTH, d + CRLF2);
    AtConcat(h, |Lines(ls)| + 16, d, CRLF2);
  }

  lemma TailAt(a: string, b: string)
    ensures At(a + b, |a|, b)
  {
  }

  /** No blank line in or directly behind clean lines that are followed by something else. */
  lemma {:induction false} NoBlankInLines(ls: seq<string>, rest: string, i: nat)
    requires forall k | 0 <= k < |ls| :: CleanLine(ls[k])
    requires rest != "" && rest[0] != '\r' && rest[0] != '\n'
    requires i < |Lines(ls)|
    ensures !BlankAt(Lines(ls) + rest, i)
  {
    var l := ls[0];
    var tail := Lines(ls[1..]) + rest;
    var h := Lines(ls) + rest;
    assert h == l + "\r\n" + tail;
    assert tail[0] != '\r' && tail[0] != '\n' by {
      if |ls| > 1 { assert tail[0] == ls[1][0]; }
    }
    if i < |l| + 2 {
      NoBlankInLine(l, tail, i);
    } else {
      NoBlankInLines(ls[1..], rest, i - |l| - 2);
      assert h[|l| + 2..] == tail;
      BlankShift(h, |l| + 2, i - |l| - 2);
    }
  }

  lemma NoBlankInLine(l: string, tail: string, i: nat)
    requires CleanLine(l) && i < |l| + 2
    requires tail != "" && tail[0] != '\r' && tail[0] != '\n'
    ensures !BlankAt(l + "\r\n" + tail, i)
  {
    hide At;
    var h := l + "\r\n" + tail;
    assert i < |l| ==> h[i] == l[i];
    assert h[|l| + 2] == tail[0] && h[|l|] == '\r' && h[|l| + 1] == '\n';
    if At(h, i, CRLF2) {
      AtIndex(h, i, CRLF2, 0);
      AtIndex(h, i, CRLF2, 2);
    }
    if At(h, i, LF2) {
      AtIndex(h, i, LF2, 0);
      AtIndex(h, i, LF2, 1);
    }
  }

  lemma BlankShift(h: string, n: nat, i: nat)
    requires n <= |h|
    ensures BlankAt(h[n..], i) <==> BlankAt(h, n + i)
  {
    if n + i + 4 <= |h| { assert h[n..][i..i + 4] == h[n + i..n + i + 4]; }
    if n + i + 2 <= |h| { assert h[n..][i..i + 2] == h[n + i..n + i + 2]; }
  }

  /** Positions without a blank line are passed over. */
  lemma {:induction false} ScanPasses(h: string, cp: nat, end: nat, lp: Option<nat>, kp: Option<nat>, client: bool)
      returns (lp': Option<nat>, kp': Option<nat>)
    requires cp <= end <= |h| && forall i | cp <= i < end :: !BlankAt(h, i)
    ensures ScanFrom(h, cp, lp, kp, client) == ScanFrom(h, end, lp', kp', client)
    ensures (forall i | cp <= i < end :: h[i] != 'c' && h[i] != 'C') ==> lp' == lp
    decreases end - cp
  {
    hide At, AtNoCase;
    lp', kp' := lp, kp;
    if cp == end {
    } else {
      var m := MarkAt(h, cp, client);
      PassedMark(h, cp, client);
      lp', kp' := ScanPasses(h, cp + 1, end, NewLength(m, cp, lp), NewConnection(m, cp, kp), client);
    }
  }

  lemma PassedMark(h: string, cp: nat, client: bool)
    requires cp < |h| && !BlankAt(h, cp)
    ensures var m := MarkAt(h, cp, client); !m.Blank? && !m.Interim? && Width(m) == 1
    ensures h[cp] != 'c' && h[cp] != 'C' ==> !MarkAt(h, cp, client).Length?
  {
    hide At, AtNoCase;
    if AtNoCase(h, cp, LENGTH) {
      NoCaseIndex(h, cp, LENGTH, 0);
    }
  }

  /** A generated header is complete, and its length field reads as the size it was
      made for, if and only if the size fits an `int`. */
  lemma GeneratedHeader(ls: seq<string>, size: nat, client: bool)
    requires forall k | 0 <= k < |ls| :: CleanLine(ls[k])
    ensures var h := Header(ls, size); var p := |Lines(ls)| + 16;
      && IsHeader(h, client)
      && ScanText(h, client).length == Some(p) && p <= |h|
      && Atoi(h, p) == ToInt32(size)
      && (Atoi(h, p) == size <==> size < 0x8000_0000)
  {
    hide At, AtNoCase, MarkAt, Decimal, ScanFrom, Lines, ParseLong, CleanLine;
    var h := Header(ls, size);
    var p := |Lines(ls)|;
    var d := Decimal(ToInt32(size));
    var end := |h| - 4;
    LengthField(ls, size);
    AtBound(h, p, LENGTH);
    AtIndex(h, p, LENGTH, 0);
    forall i | 0 <= i < p ensures !BlankAt(h, i) {
      LengthStart(ls, size);
      NoBlankInLines(ls, LENGTH + (d + CRLF2), i);
    }
    var lp, kp := ScanPasses(h, 0, p, None, None, client);
    LengthMark(h, p, lp, kp, client);
    forall i | p < i < end ensures !BlankAt(h, i) && h[i] != 'c' && h[i] != 'C' {
      FieldTail(h, p, d, i);
    }
    var lp', kp' := ScanPasses(h, p + 1, end, Some(p + 16), kp, client);
    FinalBlank(h, p, d, lp', kp', client);
    NotDigitAfter(h, p + 16 + |d|);
    ParseDecimal(h, p + 16, ToInt32(size));
  }

  lemma LengthStart(ls: seq<string>, size: nat)
    ensures (LENGTH + (Decimal(ToInt32(size)) + CRLF2))[0] == 'C'
    ensures Header(ls, size) == Lines(ls) + (LENGTH + (Decimal(ToInt32(size)) + CRLF2))
  {
    hide Decimal, Lines;
  }

  lemma LengthMark(h: string, p: nat, lp: Option<nat>, kp: Option<nat>, client: bool)
    requires At(h, p, LENGTH)
    ensures ScanFrom(h, p, lp, kp, client) == ScanFrom(h, p + 1, Some(p + 16), kp, client)
  {
  }

  lemma DigitsAreClean(n: int, i: nat)
    requires i < |Decimal(n)|
    ensures var c := Decimal(n)[i]; IsDigit(c) || c == '-'
  {
    hide Digits;
  }

  lemma FieldTail(h: string, p: nat, d: string, i: nat)
    requires exists n: int :: d == Decimal(n)
    requires At(h, p, LENGTH) && At(h, p + 16, d) && p < i < p + 16 + |d|
    ensures !BlankAt(h, i) && h[i] != 'c' && h[i] != 'C'
  {
    hide At, Decimal;
    AtBound(h, p + 16, d);
    if i < p + 16 {
      AtIndex(h, p, LENGTH, i - p);
      FieldChars(i - p);
    } else {
      var n :| d == Decimal(n);
      AtIndex(h, p + 16, d, i - p - 16);
      DigitsAreClean(n, i - p - 16);
    }
    if At(h, i, CRLF2) { AtIndex(h, i, CRLF2, 0); }
    if At(h, i, LF2) { AtIndex(h, i, LF2, 0); }
  }

  lemma FieldChars(k: nat)
    requires 0 < k < 16
    ensures LENGTH[k] != 'c' && LENGTH[k] != 'C' && LENGTH[k] != '\r' && LENGTH[k] != '\n'
  {
    var tail := "ontent-length: ";
    assert LENGTH[k] == tail[k - 1];
    assert 'c' !in tail && 'C' !in tail && '\r' !in tail && '\n' !in tail;
  }

  lemma FinalBlank(h: string, p: nat, d: string, lp: Option<nat>, kp: Option<nat>, client: bool)
    requires exists n: int :: d == Decimal(n)
    requires |d| > 0 && |h| == p + 20 + |d| && At(h, p + 16, d) && At(h, p + 16 + |d|, CRLF2)
    ensures ScanFrom(h, |h| - 4, lp, kp, client) == Scan(Some(|h|), lp, kp)
  {
    hide At, Decimal, AtNoCase;
    var end := |h| - 4;
    var n :| d == Decimal(n);
    AtIndex(h, p + 16, d, |d| - 1);
    DigitsAreClean(n, |d| - 1);
    if EndsInterim(h, end) {
      AtIndex(h, end - 12, CONTINUE100, 11);
    }
    FieldNamesDiffer(h, end);
  }

  lemma NotDigitAfter(h: string, o: nat)
    requires At(h, o, CRLF2)
    ensures !IsDigit(CharAt(h, o))
  {
    AtIndex(h, o, CRLF2, 0);
  }

  lemma ServerHeaderLines()
    ensures CleanLine("HTTP/1.1 200 OK") && CleanLine("Server: " + VERSION) && CleanLine("Content-Type: text/xml")
  {
  }

  lemma ClientHeaderLines(uri: string, host: string, port: Int32)
    requires NoLineEnd(uri) && NoLineEnd(host)
    ensures CleanLine("POST " + uri + " HTTP/1.1")
    ensures CleanLine("Host: " + host + ":" + Decimal(port))
  {
    hide Decimal;
    CleanConcat("POST ", uri);
    CleanConcat("POST " + uri, " HTTP/1.1");
    CleanConcat("Host: ", host);
    CleanConcat("Host: " + host, ":");
    DecimalClean(port);
    CleanConcat("Host: " + host + ":", Decimal(port));
  }

  lemma DecimalClean(n: int)
    ensures NoLineEnd(Decimal(n))
  {
    hide Decimal;
    forall i | 0 <= i < |Decimal(n)| ensures Decimal(n)[i] != '\r' && Decimal(n)[i] != '\n' {
      DigitsAreClean(n, i);
    }
  }

  lemma CleanConcat(a: string, b: string)
    requires CleanLine(a) && NoLineEnd(b)
    ensures CleanLine(a + b)
  {
  }

  /** The server's responses are framed so that the client finds their length. */
  lemma ServerHeaderFrames(body: string, client: bool)
    ensures var h := ServerHeader(body); var lp := ScanText(h, client).length;
      && IsHeader(h, client) && lp.Some? && lp.value <= |h|
      && Atoi(h, lp.value) == ToInt32(|body|)
      && (Atoi(h, lp.value) == |body| <==> |body| < 0x8000_0000)
  {
    hide Header, ScanText, Atoi, CleanLine;
    ServerHeaderLines();
    GeneratedHeader(["HTTP/1.1 200 OK", "Server: " + VERSION, "Content-Type: text/xml"], |body|, client);
  }

  /** The client's requests likewise, whatever URI and host without line ends. */
  lemma ClientHeaderFrames(uri: string, host: string, port: Int32, body: string, client: bool)
    requires NoLineEnd(uri) && NoLineEnd(host)
    ensures var h := ClientHeader(uri, host, port, body); var lp := ScanText(h, client).length;
      && IsHeader(h, client) && lp.Some? && lp.value <= |h|
      && Atoi(h, lp.value) == ToInt32(|body|)
      && (Atoi(h, lp.value) == |body| <==> |body| < 0x8000_0000)
  {
    hide Header, ScanText, Atoi, CleanLine, Decimal;
    ServerHeaderLines();
    ClientHeaderLines(uri, host, port);
    UserAgentLine();
    GeneratedHeader(["POST " + uri + " HTTP/1.1",
                     "User-Agent: " + VERSION,
                     "Host: " + host + ":" + Decimal(port),
                     "Content-Type: text/xml"], |body|, client);
  }

  lemma UserAgentLine()
    ensures CleanLine("User-Agent: " + VERSION)
  {
  }
}
