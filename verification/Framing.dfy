/** Messages with a Content-Length, cut into fragments (sections 3.3.2 and 3.3.3 of RFC 7230). */
module Framing {
  import opened Text
  import opened HttpHeader
  import opened XmlRpcSource
  import opened ServerConnection

  datatype Message = Message(header: string, body: string) {
    function Bytes(): string { header + body }
  }

  /** A header with an exact, positive length for its body. */
  predicate Framed(q: Message, client: bool) {
    && IsHeader(q.header, client)
    && ScanText(q.header, client).length.Some?
    && ScanText(q.header, client).length.value <= |q.header|
    && Atoi(q.header, ScanText(q.header, client).length.value) == |q.body| > 0
  }

  /** Moreover no NUL in the body: see `ServerSession.WholeRequestAtOnce`. */
  predicate WellFramed(q: Message, client: bool) {
    Framed(q, client) && NulFree(q.body)
  }

  function Take(wire: string, n: nat): (r: string)
    ensures r <= wire
  {
    if n < |wire| then wire[..n] else wire
  }

  function Got(bytes: string): ReadOutcome {
    ReadOutcome(bytes, false, true)
  }

  /** A number that ends inside the header reads the same whatever follows. */
  lemma ParseLongStays(p: string, f: string, o: nat)
    requires p <= f && o <= |p|
    requires o < ParseLong(p, o).end < |p|
    ensures ParseLong(f, o) == ParseLong(p, o)
  {
    hide DigitsValue, SkipSpaces, DigitsEnd;
    var start := SkipSpaces(p, o);
    SkipSpacesIs(f, o, start);
    var first := if p[start] == '-' || p[start] == '+' then start + 1 else start;
    var end := ParseLong(p, o).end;
    DigitsEndIs(f, first, end);
    assert p[first..end] == f[first..end];
  }

  lemma {:induction false} SkipSpacesIs(s: string, o: nat, end: nat)
    requires o <= end < |s|
    requires forall i | o <= i < end :: IsSpace(s[i])
    requires !IsSpace(s[end])
    ensures SkipSpaces(s, o) == end
    decreases end - o
  {
    if o == end {
    } else {
      SkipSpacesIs(s, o + 1, end);
    }
  }

  lemma HeaderEndsInNewline(h: string, client: bool)
    requires IsHeader(h, client)
    ensures h != "" && h[|h| - 1] == '\n'
  {
    hide ScanFrom, At;
    BodyFollowsBlank(h, 0, None, None, client);
    BlankEnds(h, |h|);
  }

  lemma LengthStays(h: string, f: string, lp: nat, client: bool)
    requires IsHeader(h, client) && h <= f && lp <= |h| && Atoi(h, lp) > 0
    ensures Atoi(f, lp) == Atoi(h, lp)
  {
    hide ScanFrom, DigitsEnd, DigitsValue;
    HeaderEndsInNewline(h, client);
    NumberEndsBefore(h, lp);
    ParseLongStays(h, f, lp);
  }

  lemma NumberEndsBefore(h: string, lp: nat)
    requires lp <= |h| && h != "" && h[|h| - 1] == '\n' && ParseLong(h, lp).value != 0
    ensures lp < ParseLong(h, lp).end < |h|
  {
    var end := ParseLong(h, lp).end;
    var start := SkipSpaces(h, lp);
    assert end > lp;
    assert IsDigit(h[end - 1]);
  }

  lemma BodyPart(q: Message, n: nat)
    requires NulFree(q.body) && |q.header| < n <= |q.Bytes()|
    ensures CString(q.Bytes()[..n], |q.header|) == q.body[..n - |q.header|]
  {
    var received := q.Bytes()[..n];
    assert received[|q.header|..] == q.body[..n - |q.header|];
    CStringNulFree(received, |q.header|);
  }
}
