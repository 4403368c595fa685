/** An interim "100 Continue" response in front of the response proper (section 6.2.1
    of RFC 7231): the client's scan passes over it. */
module Interim {
  import opened Text
  import opened HttpHeader
  import opened HttpMessage
  import opened Framing

  lemma {:induction false} SkipSpacesShift(pre: string, h: string, o: nat)
    requires o <= |h|
    ensures SkipSpaces(pre + h, |pre| + o) == |pre| + SkipSpaces(h, o)
    decreases |h| - o
  {
    if o == |h| {
    } else {
      assert (pre + h)[|pre| + o] == h[o];
      SkipSpacesShift(pre, h, o + 1);
    }
  }

  lemma {:induction false} DigitsEndShift(pre: string, h: string, o: nat)
    requires o <= |h|
    ensures DigitsEnd(pre + h, |pre| + o) == |pre| + DigitsEnd(h, o)
    decreases |h| - o
  {
    if o == |h| {
    } else {
      assert (pre + h)[|pre| + o] == h[o];
      DigitsEndShift(pre, h, o + 1);
    }
  }

  lemma AtoiShift(pre: string, h: string, o: nat)
    requires o <= |h|
    ensures Atoi(pre + h, |pre| + o) == Atoi(h, o)
  {
    hide SkipSpaces, DigitsEnd, DigitsValue;
    var f := pre + h;
    var start := SkipSpaces(h, o);
    SkipSpacesShift(pre, h, o);
    assert start < |h| ==> f[|pre| + start] == h[start];
    var first := if start < |h| && (h[start] == '-' || h[start] == '+') then start + 1 else start;
    DigitsEndShift(pre, h, first);
    var end := DigitsEnd(h, first);
    assert f[|pre| + first..|pre| + end] == h[first..end];
  }

  lemma NoCaseShift(pre: string, h: string, o: nat, t: string)
    ensures AtNoCase(pre + h, |pre| + o, t) <==> AtNoCase(h, o, t)
  {
    hide AtNoCase;
    if AtNoCase(h, o, t) { NoCaseMoves(pre, h, o, t); }
    if AtNoCase(pre + h, |pre| + o, t) { NoCaseMovesBack(pre, h, o, t); }
  }

  lemma NoCaseMoves(pre: string, h: string, o: nat, t: string)
    requires AtNoCase(h, o, t)
    ensures AtNoCase(pre + h, |pre| + o, t)
  {
    forall k | 0 <= k < |t| ensures Lower((pre + h)[|pre| + o + k]) == Lower(t[k]) {
      assert (pre + h)[|pre| + o + k] == h[o + k];
      NoCaseIndex(h, o, t, k);
    }
  }

  lemma NoCaseMovesBack(pre: string, h: string, o: nat, t: string)
    requires AtNoCase(pre + h, |pre| + o, t)
    ensures AtNoCase(h, o, t)
  {
    forall k | 0 <= k < |t| ensures Lower(h[o + k]) == Lower(t[k]) {
      assert (pre + h)[|pre| + o + k] == h[o + k];
      NoCaseIndex(pre + h, |pre| + o, t, k);
    }
  }

  /** The text is more than the words of an interim response and its blank line. */
  predicate NotOnlyWords(h: string) {
    !(At(h, 0, CONTINUE100) && BlankAt(h, 12))
  }

  /** The words of an interim response end before its blank line, so they cannot
      straddle the start of the response proper. */
  lemma InterimShift(pre: string, h: string, cp: nat)
    requires pre != "" && pre[|pre| - 1] == '\n' && NotOnlyWords(h) && BlankAt(h, cp)
    ensures EndsInterim(pre + h, |pre| + cp) <==> EndsInterim(h, cp)
  {
    hide At;
    if cp >= 12 {
      AtShift(pre, h, cp - 12, CONTINUE100);
    } else if |pre| + cp >= 12 && At(pre + h, |pre| + cp - 12, CONTINUE100) {
      AtIndex(pre + h, |pre| + cp - 12, CONTINUE100, 11 - cp);
      NoNewlineInContinue(11 - cp);
    }
  }

  lemma NoNewlineInContinue(k: nat)
    requires k < 12
    ensures CONTINUE100[k] != '\n'
  {
    assert '\n' !in CONTINUE100;
  }

  lemma MarkShift(pre: string, h: string, cp: nat)
    requires pre != "" && pre[|pre| - 1] == '\n' && NotOnlyWords(h)
    ensures MarkAt(pre + h, |pre| + cp, true) == MarkAt(h, cp, true)
  {
    hide At, AtNoCase, EndsInterim;
    NoCaseShift(pre, h, cp, LENGTH);
    AtShift(pre, h, cp, CRLF2);
    AtShift(pre, h, cp, LF2);
    if BlankAt(h, cp) {
      InterimShift(pre, h, cp);
    }
  }

  lemma {:induction false} ScanShift(
      pre: string, h: string, cp: nat, lp: Option<nat>, lp': Option<nat>, kp: Option<nat>, kp': Option<nat>)
    requires pre != "" && pre[|pre| - 1] == '\n' && NotOnlyWords(h)
    requires lp.Some? ==> lp' == Some(|pre| + lp.value)
    ensures var s := ScanFrom(h, cp, lp, kp, true); var s' := ScanFrom(pre + h, |pre| + cp, lp', kp', true);
      && (s.body.Some? ==> s'.body == Some(|pre| + s.body.value))
      && (s.length.Some? ==> s'.length == Some(|pre| + s.length.value))
    decreases |h| - cp
  {
    hide At, MarkAt, Width;
    if cp >= |h| {
    } else {
      MarkShift(pre, h, cp);
      var m := MarkAt(h, cp, true);
      if !m.Blank? {
        ScanShift(pre, h, cp + Width(m), NewLength(m, cp, lp), NewLength(m, |pre| + cp, lp'),
                  NewConnection(m, cp, kp), NewConnection(m, |pre| + cp, kp'));
      }
    }
  }

  lemma {:induction false} NothingSeen(h: string, cp: nat, end: nat)
    requires cp <= end <= |h| && forall i | cp <= i < end :: MarkAt(h, i, true) == Other
    ensures ScanFrom(h, cp, None, None, true) == ScanFrom(h, end, None, None, true)
    decreases end - cp
  {
    hide MarkAt;
    if cp == end {
    } else {
      NothingSeen(h, cp + 1, end);
    }
  }

  /** A framed header has a length field, so it is not these words alone. */
  lemma FramedHasMore(q: Message)
    requires Framed(q, true)
    ensures NotOnlyWords(q.header)
  {
    hide At, AtNoCase, Atoi;
    var h := q.header;
    if !NotOnlyWords(h) {
      forall i | 0 <= i < 12 ensures !BlankAt(h, i) {
        NoNewlineInContinue(i);
        AtIndex(h, 0, CONTINUE100, i);
        if At(h, i, CRLF2) { AtIndex(h, i, CRLF2, 0); }
        if At(h, i, LF2) { AtIndex(h, i, LF2, 0); }
      }
      BlankWithin(h, 12);
      var lp, kp := ScanPasses(h, 0, 12, None, None, true);
      BlankEnds(h, 12, lp, kp);
      forall i | 0 <= i < 12 ensures MarkAt(h, i, true) == Other {
        PassedMark(h, i, true);
        if AtNoCase(h, i, LENGTH) {
          NoCaseIndex(h, i, LENGTH, 0);
          AtIndex(h, 0, CONTINUE100, 0);
        }
      }
      NothingSeen(h, 0, 12);
      BlankEnds(h, 12, None, None);
    }
  }

  lemma BlankWithin(h: string, i: nat)
    requires BlankAt(h, i)
    ensures i + 2 <= |h|
  {
  }

  /** A blank line that ends no interim response ends the header. */
  lemma BlankEnds(h: string, cp: nat, lp: Option<nat>, kp: Option<nat>)
    requires BlankAt(h, cp) && !EndsInterim(h, cp)
    ensures var s := ScanFrom(h, cp, lp, kp, true);
      && s.body == Some(cp + if At(h, cp, CRLF2) then 4 else 2) && s.length == lp
  {
    hide At, AtNoCase, EndsInterim;
    FieldNamesDiffer(h, cp);
    BlankWithin(h, cp);
  }

  lemma InterimPassed(h: string, cp: nat, lp: Option<nat>, kp: Option<nat>)
    requires BlankAt(h, cp) && EndsInterim(h, cp)
    ensures ScanFrom(h, cp, lp, kp, true) == ScanFrom(h, cp + if At(h, cp, CRLF2) then 4 else 2, lp, kp, true)
  {
    hide At, AtNoCase, EndsInterim;
    FieldNamesDiffer(h, cp);
    BlankWithin(h, cp);
  }

  /** A blank line begins in `head` only if it is in `head` and the one behind it. */
  lemma NoBlankBefore(head: string, blank: string, rest: string, i: nat)
    requires (blank == CRLF2 || blank == LF2) && i < |head| && !BlankAt(head + blank, i)
    ensures !BlankAt(head + blank + rest, i)
  {
    hide At;
    var p, f := head + blank, head + blank + rest;
    assert i == |head| - 1 ==> f[i + 2] == p[i + 2] == blank[1];
    if At(f, i, LF2) {
      AtPrefix(p, f, i, LF2);
    }
    if At(f, i, CRLF2) {
      if i + 4 <= |p| {
        AtPrefix(p, f, i, CRLF2);
      } else {
        AtIndex(f, i, CRLF2, 2);
      }
    }
  }

  /** A header of any lines in front of a framed response leaves it framed, with the same
      body, exactly if the words "100 Continue" stand directly before its blank line: a
      status line without fields, or such a field last. */
  lemma InterimExactly(head: string, blank: string, q: Message)
    requires (blank == CRLF2 || blank == LF2) && Framed(q, true)
    requires forall i | 0 <= i < |head| :: !BlankAt(head + blank, i)
    ensures Framed(Message(head + blank + q.header, q.body), true) <==> EndsInterim(head, |head|)
  {
    hide At, MarkAt, Atoi, ScanFrom;
    var h, pre := q.header, head + blank;
    var f := pre + h;
    FramedHasMore(q);
    forall i | 0 <= i < |head| ensures !BlankAt(f, i) { NoBlankBefore(head, blank, h, i); }
    var lp, kp := ScanPasses(f, 0, |head|, None, None, true);
    BlankBehind(head, blank, h);
    if EndsInterim(head, |head|) {
      InterimPassed(f, |head|, lp, kp);
      ScanShift(pre, h, 0, None, lp, None, kp);
      AtoiShift(pre, h, ScanText(h, true).length.value);
    } else {
      BlankEnds(f, |head|, lp, kp);
    }
  }

  lemma BlankBehind(head: string, blank: string, h: string)
    requires blank == CRLF2 || blank == LF2
    ensures var f := head + blank + h;
      && BlankAt(f, |head|) && (At(f, |head|, CRLF2) <==> blank == CRLF2)
      && (EndsInterim(f, |head|) <==> EndsInterim(head, |head|))
  {
    hide At;
    var f := head + blank + h;
    assert f == head + (blank + h);
    TailAt(head, blank + h);
    AtConcat(f, |head|, blank, h);
    FieldNamesDiffer(f, |head|);
    if |head| >= 12 {
      AtPrefix(head, f, |head| - 12, CONTINUE100);
    }
  }
}
