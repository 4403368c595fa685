/** The header scan that `XmlRpcServerConnection::readHeader` and
    `XmlRpcClient::parseHeader` run over all bytes received so far, each time from
    the first byte on. */
module HttpHeader {
  import opened Text

  const LENGTH := "Content-length: "
  const CONNECTION := "Connection: "
  const CRLF2 := "\r\n\r\n"
  const LF2 := "\n\n"
  const CONTINUE100 := "100 Continue"

  function Lower(c: char): char {
    if 'A' <= c <= 'Z' then (c as int + 32) as char else c
  }

  /** Capitals are lowered and nothing else is changed. */
  lemma LowersCapitals(c: char)
    ensures 65 <= c as int <= 90 ==> Lower(c) as int == c as int + 32
    ensures c as int < 65 || c as int > 90 ==> Lower(c) == c
    ensures Lower('A') == 'a' && Lower('Z') == 'z'
  {
  }

  /** `strncasecmp(s + o, t, |t|) == 0`. */
  predicate AtNoCase(s: string, o: nat, t: string) {
    o + |t| <= |s| && forall k | 0 <= k < |t| :: Lower(s[o + k]) == Lower(t[k])
  }

  /** What stands at one position of a header. */
  datatype Mark = Other | Length | Connection | Blank(width: nat) | Interim(width: nat)

  /** The blank line at `cp` ends an interim "100 Continue" response. */
  predicate EndsInterim(h: string, cp: nat) {
    cp > |CONTINUE100| && At(h, cp - |CONTINUE100|, CONTINUE100)
  }

  /** The server looks for the connection field, the client for interim responses. */
  function MarkAt(h: string, cp: nat, client: bool): (m: Mark)
    ensures m.Blank? || m.Interim? ==> 2 <= m.width && cp + m.width <= |h|
  {
    if AtNoCase(h, cp, LENGTH) then Length
    else if !client && AtNoCase(h, cp, CONNECTION) then Connection
    else if At(h, cp, CRLF2) then (if client && EndsInterim(h, cp) then Interim(4) else Blank(4))
    else if At(h, cp, LF2) then (if client && EndsInterim(h, cp) then Interim(2) else Blank(2))
    else Other
  }

  /** Where the body starts, and where the last length and connection values before it do. */
  datatype Scan = Scan(body: Option<nat>, length: Option<nat>, connection: Option<nat>)

  function ScanFrom(h: string, cp: nat, lp: Option<nat>, kp: Option<nat>, client: bool): (r: Scan)
    ensures r.body.Some? ==> cp < r.body.value <= |h|
    decreases |h| - cp
  {
    if cp >= |h| then Scan(None, lp, kp)
    else
      var m := MarkAt(h, cp, client);
      if m.Blank? then Scan(Some(cp + m.width), lp, kp)
      else ScanFrom(h, cp + Width(m), NewLength(m, cp, lp), NewConnection(m, cp, kp), client)
  }

  function Width(m: Mark): (n: nat)
    ensures n > 0
  {
    if m.Interim? && m.width > 0 then m.width else 1
  }

  function NewLength(m: Mark, cp: nat, lp: Option<nat>): Option<nat> {
    if m.Length? then Some(cp + |LENGTH|) else lp
  }

  function NewConnection(m: Mark, cp: nat, kp: Option<nat>): Option<nat> {
    if m.Connection? then Some(cp + |CONNECTION|) else kp
  }

  function ScanText(h: string, client: bool): Scan {
    ScanFrom(h, 0, None, None, client)
  }

  /** A text is seen without its last byte: each comparison asks for one byte more
      than it compares, so a blank line counts only when a byte of the body is there. */
  function Seen(received: string): string {
    if received == "" then "" else received[..|received| - 1]
  }

  function Look(received: string, client: bool): Scan {
    ScanText(Seen(received), client)
  }

  /** A header is complete when its first blank line, interim ones aside, ends it. */
  predicate IsHeader(h: string, client: bool) {
    ScanText(h, client).body == Some(|h|)
  }

  lemma NoCasePrefix(p: string, f: string, o: nat, t: string)
    requires p <= f && o + |t| <= |p|
    ensures AtNoCase(p, o, t) <==> AtNoCase(f, o, t)
  {
  }

  lemma NoCaseIndex(s: string, o: nat, t: string, k: nat)
    requires AtNoCase(s, o, t) && k < |t|
    ensures o + |t| <= |s| && Lower(s[o + k]) == Lower(t[k])
  {
  }

  lemma FieldNamesDiffer(s: string, o: nat)
    ensures !(AtNoCase(s, o, LENGTH) && AtNoCase(s, o, CONNECTION))
    ensures AtNoCase(s, o, LENGTH) || AtNoCase(s, o, CONNECTION) ==> !At(s, o, CRLF2) && !At(s, o, LF2)
    ensures !(At(s, o, CRLF2) && At(s, o, LF2))
  {
    if AtNoCase(s, o, LENGTH) || AtNoCase(s, o, CONNECTION) {
      FieldStart(s, o);
    }
    if At(s, o, CRLF2) { AtIndex(s, o, CRLF2, 0); }
    if At(s, o, LF2) { AtIndex(s, o, LF2, 0); }
    FieldFourth(s, o);
  }

  lemma FieldFourth(s: string, o: nat)
    ensures AtNoCase(s, o, LENGTH) ==> o + 3 < |s| && Lower(s[o + 3]) == 't'
    ensures AtNoCase(s, o, CONNECTION) ==> o + 3 < |s| && Lower(s[o + 3]) == 'n'
  {
    if AtNoCase(s, o, LENGTH) {
      assert Lower(s[o + 3]) == Lower(LENGTH[3]);
    }
    if AtNoCase(s, o, CONNECTION) {
      assert Lower(s[o + 3]) == Lower(CONNECTION[3]);
    }
  }

  lemma FieldStart(s: string, o: nat)
    requires AtNoCase(s, o, LENGTH) || AtNoCase(s, o, CONNECTION)
    ensures o < |s| && Lower(s[o]) == 'c'
  {
    if AtNoCase(s, o, LENGTH) {
      assert Lower(s[o + 0]) == Lower(LENGTH[0]);
    } else {
      assert Lower(s[o + 0]) == Lower(CONNECTION[0]);
    }
  }

  /** What is recognised stays recognised when more text follows. */
  lemma MarkStays(p: string, f: string, cp: nat, client: bool)
    requires p <= f
    ensures MarkAt(p, cp, client) != Other ==> MarkAt(f, cp, client) == MarkAt(p, cp, client)
  {
    hide At, AtNoCase;
    if cp + |LENGTH| <= |p| { NoCasePrefix(p, f, cp, LENGTH); }
    if cp + |CONNECTION| <= |p| { NoCasePrefix(p, f, cp, CONNECTION); }
    if cp + 4 <= |p| { AtPrefix(p, f, cp, CRLF2); }
    if cp + 2 <= |p| { AtPrefix(p, f, cp, LF2); }
    if 12 < cp <= |p| { AtPrefix(p, f, cp - 12, CONTINUE100); }
    FieldNamesDiffer(f, cp);
    TooLong(p, cp);
  }

  lemma TooLong(p: string, cp: nat)
    ensures AtNoCase(p, cp, LENGTH) ==> cp + |LENGTH| <= |p|
    ensures AtNoCase(p, cp, CONNECTION) ==> cp + |CONNECTION| <= |p|
    ensures At(p, cp, CRLF2) ==> cp + 4 <= |p|
    ensures At(p, cp, LF2) ==> cp + 2 <= |p|
  {
  }

  /** The scan ends at a blank line behind its starting point. */
  lemma {:induction false} BodyFollowsBlank(h: string, cp: nat, lp: Option<nat>, kp: Option<nat>, client: bool)
    requires ScanFrom(h, cp, lp, kp, client).body.Some?
    ensures var b := ScanFrom(h, cp, lp, kp, client).body.value;
      (b >= cp + 4 && At(h, b - 4, CRLF2)) || (b >= cp + 2 && At(h, b - 2, LF2))
    decreases |h| - cp
  {
    hide At, AtNoCase, MarkAt, EndsInterim;
    var m := MarkAt(h, cp, client);
    if m.Blank? {
      BlankIsThere(h, cp, client);
    } else {
      BodyFollowsBlank(h, cp + Width(m), NewLength(m, cp, lp), NewConnection(m, cp, kp), client);
    }
  }

  lemma BlankIsThere(h: string, cp: nat, client: bool)
    requires MarkAt(h, cp, client).Blank?
    ensures var n := MarkAt(h, cp, client).width; (n == 4 && At(h, cp, CRLF2)) || (n == 2 && At(h, cp, LF2))
  {
  }

  lemma NoNewline(k: nat)
    ensures k < |LENGTH| ==> LENGTH[k] != '\n'
    ensures k < |CONNECTION| ==> CONNECTION[k] != '\n'
  {
    assert '\n' !in LENGTH && '\n' !in CONNECTION;
  }

  /** Nothing begins before a blank line and ends behind it. */
  lemma NothingAcrossBlank(p: string, f: string, cp: nat, b: nat, client: bool)
    requires p <= f && b <= |p|
    requires (b >= cp + 5 && At(p, b - 4, CRLF2)) || (b >= cp + 3 && At(p, b - 2, LF2))
    ensures MarkAt(f, cp, client) == MarkAt(p, cp, client)
  {
    hide At, AtNoCase, EndsInterim;
    MarkStays(p, f, cp, client);
    assert f[b - 1] == p[b - 1] && f[b - 2] == p[b - 2];
    BlankEnds(p, b);
    if AtNoCase(f, cp, LENGTH) {
      NotInField(f, cp, b, LENGTH);
      NoCasePrefix(p, f, cp, LENGTH);
    } else if !client && AtNoCase(f, cp, CONNECTION) {
      NotInField(f, cp, b, CONNECTION);
      NoCasePrefix(p, f, cp, CONNECTION);
      if cp + |LENGTH| <= |p| { NoCasePrefix(p, f, cp, LENGTH); }
      TooLong(p, cp);
    } else if MarkAt(f, cp, client) != Other {
      BlankWithin(p, f, cp, b, client);
    }
  }

  lemma BlankEnds(p: string, b: nat)
    requires (4 <= b <= |p| && At(p, b - 4, CRLF2)) || (2 <= b <= |p| && At(p, b - 2, LF2))
    ensures p[b - 1] == '\n'
  {
    if b >= 4 && At(p, b - 4, CRLF2) {
      AtIndex(p, b - 4, CRLF2, 3);
    } else {
      AtIndex(p, b - 2, LF2, 1);
    }
  }

  lemma NotInField(f: string, cp: nat, b: nat, t: string)
    requires t == LENGTH || t == CONNECTION
    requires AtNoCase(f, cp, t) && cp < b <= |f| && f[b - 1] == '\n'
    ensures cp + |t| < b
  {
    if b <= cp + |t| {
      var k := b - 1 - cp;
      assert Lower(f[cp + k]) == Lower(t[k]);
      NoNewline(k);
    }
  }

  lemma BlankWithin(p: string, f: string, cp: nat, b: nat, client: bool)
    requires p <= f && b <= |p|
    requires (b >= cp + 5 && At(p, b - 4, CRLF2)) || (b >= cp + 3 && At(p, b - 2, LF2))
    requires At(f, cp, CRLF2) || At(f, cp, LF2)
    requires !AtNoCase(f, cp, LENGTH) && (client || !AtNoCase(f, cp, CONNECTION))
    ensures MarkAt(f, cp, client) == MarkAt(p, cp, client)
  {
    hide At, AtNoCase;
    if cp + 4 > |p| {
      // only a line feed pair fits in front of a blank line that ends before cp + 4
      assert b == cp + 3 && At(p, cp + 1, LF2);
      AtIndex(p, cp + 1, LF2, 0);
      AtIndex(p, cp + 1, LF2, 1);
      if At(f, cp, CRLF2) { AtIndex(f, cp, CRLF2, 2); }
    } else {
      AtPrefix(p, f, cp, CRLF2);
    }
    AtPrefix(p, f, cp, LF2);
    TooLong(p, cp);
    if cp + |LENGTH| <= |p| { NoCasePrefix(p, f, cp, LENGTH); }
    if cp + |CONNECTION| <= |p| { NoCasePrefix(p, f, cp, CONNECTION); }
    if cp > 12 { AtPrefix(p, f, cp - 12, CONTINUE100); }
  }

  lemma MarkSettled(p: string, f: string, cp: nat, lp: Option<nat>, kp: Option<nat>, client: bool)
    requires p <= f && cp < |p| && ScanFrom(p, cp, lp, kp, client).body.Some?
    ensures MarkAt(f, cp, client) == MarkAt(p, cp, client)
  {
    hide At, AtNoCase, MarkAt;
    MarkStays(p, f, cp, client);
    if MarkAt(p, cp, client) == Other {
      BodyFollowsBlank(p, cp + 1, lp, kp, client);
      NothingAcrossBlank(p, f, cp, ScanFrom(p, cp + 1, lp, kp, client).body.value, client);
    }
  }

  /** Once the end of a header has been found, further text changes nothing. */
  lemma {:induction false} ScanStays(p: string, f: string, cp: nat, lp: Option<nat>, kp: Option<nat>, client: bool)
    requires p <= f && ScanFrom(p, cp, lp, kp, client).body.Some?
    ensures ScanFrom(f, cp, lp, kp, client) == ScanFrom(p, cp, lp, kp, client)
    decreases |p| - cp
  {
    hide MarkAt, Width, NewLength, NewConnection;
    MarkSettled(p, f, cp, lp, kp, client);
    var m := MarkAt(p, cp, client);
    if !m.Blank? {
      ScanStays(p, f, cp + Width(m), NewLength(m, cp, lp), NewConnection(m, cp, kp), client);
    }
  }

  /** Fragmentation: as long as no byte of the body has arrived the header is
      incomplete, and from then on the scan's result no longer changes. */
  lemma LookAtFragment(h: string, body: string, n: nat, client: bool)
    requires IsHeader(h, client) && n <= |h| + |body|
    ensures var received := (h + body)[..n];
      if n <= |h| then Look(received, client).body == None else Look(received, client) == ScanText(h, client)
  {
    hide ScanFrom;
    var received := (h + body)[..n];
    var seen := Seen(received);
    if n <= |h| {
      assert seen <= h;
      if ScanText(seen, client).body.Some? {
        ScanStays(seen, h, 0, None, None, client);
      }
    } else {
      assert h <= seen;
      ScanStays(h, seen, 0, None, None, client);
    }
  }
}
