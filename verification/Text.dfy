/** Strings as the C++ code sees them: substring search, `c_str` access past the
    end, and the decimal conversions of the C library (`%d`, `strtol`, `atoi`). */
module Text {

  datatype Option<+T> = None | Some(value: T)

  /** `c_str()[i]`: the terminating NUL follows the last character. */
  function CharAt(s: string, i: nat): char {
    if i < |s| then s[i] else '\0'
  }

  /** The text `t` stands in `s` at offset `o`. */
  predicate At(s: string, o: nat, t: string) {
    o + |t| <= |s| && s[o..o + |t|] == t
  }

  predicate NulFree(s: string) {
    '\0' !in s
  }

  /** `isspace` in the C locale. */
  predicate IsSpace(c: char) {
    c == ' ' || c == '\t' || c == '\n' || c == '\r' || c as int == 11 || c as int == 12
  }

  lemma AtBound(s: string, o: nat, t: string)
    requires At(s, o, t)
    ensures o + |t| <= |s|
  {
  }

  lemma Regroup(a: string, b: string, c: string)
    ensures a + (b + c) == a + b + c
  {
  }

  lemma AtConcat(s: string, o: nat, a: string, b: string)
    ensures At(s, o, a + b) <==> At(s, o, a) && At(s, o + |a|, b)
  {
    if o + |a| + |b| <= |s| {
      var both := s[o..o + |a| + |b|];
      assert both[..|a|] == s[o..o + |a|];
      assert both[|a|..] == s[o + |a|..o + |a| + |b|];
      assert both == both[..|a|] + both[|a|..];
      assert (a + b)[..|a|] == a && (a + b)[|a|..] == b;
    }
  }

  /** Splits a text laid out as three consecutive pieces. */
  lemma AtConcat3(s: string, o: nat, a: string, b: string, c: string)
    requires At(s, o, a + b + c)
    ensures At(s, o, a) && At(s, o + |a|, b) && At(s, o + |a| + |b|, c)
  {
    AtConcat(s, o, a + b, c);
    AtConcat(s, o, a, b);
  }

  lemma AtIndex(s: string, o: nat, t: string, k: nat)
    requires At(s, o, t) && k < |t|
    ensures s[o + k] == t[k]
  {
    assert s[o..o + |t|][k] == s[o + k];
  }

  /** An occurrence inside a longer text is an occurrence in any text it is a prefix of. */
  lemma AtPrefix(p: string, s: string, o: nat, t: string)
    requires p <= s && o + |t| <= |p|
    ensures At(p, o, t) <==> At(s, o, t)
  {
    assert p[o..o + |t|] == s[o..o + |t|];
  }

  /** A text inside a piece of `s` is a text inside `s`. */
  lemma AtInner(s: string, o: nat, t: string, p: nat, e: string)
    requires At(s, o, t) && p + |e| <= |t|
    ensures At(t, p, e) <==> At(s, o + p, e)
  {
    var inner, outer := t[p..p + |e|], s[o + p..o + p + |e|];
    forall k | 0 <= k < |e| ensures inner[k] == outer[k] {
      assert s[o..o + |t|][p + k] == s[o + p + k];
    }
    assert inner == outer;
  }

  /** In front of a text, a piece shifts its occurrences. */
  lemma AtShift(a: string, s: string, k: nat, t: string)
    ensures At(a + s, |a| + k, t) <==> At(s, k, t)
  {
    if k + |t| <= |s| {
      assert (a + s)[|a| + k..|a| + k + |t|] == s[k..k + |t|];
    }
  }

  /** `std::string::find`: the first occurrence at or after `from`. */
  function Find(s: string, t: string, from: nat): (r: Option<nat>)
    ensures r.Some? ==> from <= r.value && r.value + |t| <= |s| && At(s, r.value, t)
    ensures r.Some? ==> forall j :: from <= j < r.value ==> !At(s, j, t)
    ensures r.None? ==> forall j :: from <= j ==> !At(s, j, t)
    decreases |s| - from
  {
    if from + |t| > |s| then None
    else if At(s, from, t) then Some(from)
    else Find(s, t, from + 1)
  }

  predicate Contains(s: string, t: string) {
    exists i | 0 <= i <= |s| :: At(s, i, t)
  }

  // ---------------------------------------------------------------- integers

  type Int32 = x: int | -0x8000_0000 <= x < 0x8000_0000

  const LONG_MAX := 0x7FFF_FFFF_FFFF_FFFF

  /** The conversion of a wider integer to `int`: two's complement truncation. */
  function ToInt32(x: int): Int32 {
    var m := x % 0x1_0000_0000;
    if m < 0x8000_0000 then m else m - 0x1_0000_0000
  }

  /** The result `strtol` saturates to. */
  function ClampLong(x: int): int {
    if x > LONG_MAX then LONG_MAX else if x < -LONG_MAX - 1 then -LONG_MAX - 1 else x
  }

  predicate IsDigit(c: char) {
    '0' <= c <= '9'
  }

  predicate AllDigits(s: string) {
    forall i | 0 <= i < |s| :: IsDigit(s[i])
  }

  function DigitChar(d: nat): (c: char)
    requires d < 10
    ensures IsDigit(c) && c as int - '0' as int == d
  {
    (d + '0' as int) as char
  }

  /** The decimal digits of a natural number, without leading zeros. */
  function Digits(n: nat): (s: string)
    ensures |s| > 0 && AllDigits(s)
  {
    if n < 10 then [DigitChar(n)] else Digits(n / 10) + [DigitChar(n % 10)]
  }

  /** `%d`. */
  function Decimal(n: int): (s: string)
    ensures |s| > 0
  {
    if n < 0 then "-" + Digits(-n) else Digits(n)
  }

  function DigitsValue(s: string): nat
    requires AllDigits(s)
  {
    if s == "" then 0
    else 10 * DigitsValue(s[..|s| - 1]) + (s[|s| - 1] as int - '0' as int)
  }

  lemma {:induction false} DigitsValueOfDigits(n: nat)
    ensures DigitsValue(Digits(n)) == n
  {
    if n >= 10 {
      DigitsValueOfDigits(n / 10);
      assert Digits(n)[..|Digits(n)| - 1] == Digits(n / 10);
    }
  }

  function SkipSpaces(s: string, o: nat): (r: nat)
    requires o <= |s|
    ensures o <= r <= |s|
    ensures forall i | o <= i < r :: IsSpace(s[i])
    ensures r < |s| ==> !IsSpace(s[r])
    decreases |s| - o
  {
    if o < |s| && IsSpace(s[o]) then SkipSpaces(s, o + 1) else o
  }

  /** The end of the run of digits that starts at `o`. */
  function DigitsEnd(s: string, o: nat): (r: nat)
    requires o <= |s|
    ensures o <= r <= |s|
    ensures forall i | o <= i < r :: IsDigit(s[i])
    ensures r < |s| ==> !IsDigit(s[r])
    decreases |s| - o
  {
    if o < |s| && IsDigit(s[o]) then DigitsEnd(s, o + 1) else o
  }

  /** What `strtol(s + o, &end, 10)` returns: the value and `end - s`; the end is
      `o` itself when there is no number. */
  datatype Strtol = Strtol(value: int, end: nat)

  function ParseLong(s: string, o: nat): (r: Strtol)
    requires o <= |s|
    ensures o <= r.end <= |s|
    ensures NulFree(s[o..r.end])
  {
    var start := SkipSpaces(s, o);
    var sign := start < |s| && (s[start] == '-' || s[start] == '+');
    var first := if sign then start + 1 else start;
    var end := DigitsEnd(s, first);
    if end == first then Strtol(0, o)
    else
      var magnitude: int := DigitsValue(s[first..end]);
      Strtol(ClampLong(if sign && s[start] == '-' then -magnitude else magnitude), end)
  }

  /** `atoi(s + o)`. */
  function Atoi(s: string, o: nat): Int32
    requires o <= |s|
  {
    ToInt32(ParseLong(s, o).value)
  }

  /** Reading back a printed number that is followed by something other than a digit. */
  lemma ParseDecimal(s: string, o: nat, n: int)
    requires At(s, o, Decimal(n))
    requires -LONG_MAX - 1 <= n <= LONG_MAX
    requires !IsDigit(CharAt(s, o + |Decimal(n)|))
    ensures ParseLong(s, o) == Strtol(n, o + |Decimal(n)|)
  {
    hide At, DigitsEnd, Digits, DigitsValue, SkipSpaces;
    AtBound(s, o, Decimal(n));
    AtIndex(s, o, Decimal(n), 0);
    NoSpaces(s, o);
    if n < 0 {
      AtConcat(s, o, "-", Digits(-n));
      DigitsAt(s, o + 1, -n);
    } else {
      DigitsAt(s, o, n);
    }
  }

  lemma NoSpaces(s: string, o: nat)
    requires o < |s| && !IsSpace(s[o])
    ensures SkipSpaces(s, o) == o
  {
  }

  lemma DigitsAt(s: string, o: nat, n: nat)
    requires At(s, o, Digits(n)) && !IsDigit(CharAt(s, o + |Digits(n)|))
    ensures o <= |s| && DigitsEnd(s, o) == o + |Digits(n)|
    ensures DigitsValue(s[o..o + |Digits(n)|]) == n
  {
    hide Digits, DigitsValue;
    forall i | o <= i < o + |Digits(n)| ensures IsDigit(s[i]) {
      AtIndex(s, o, Digits(n), i - o);
    }
    DigitsEndIs(s, o, o + |Digits(n)|);
    DigitsValueOfDigits(n);
  }

  lemma {:induction false} DigitsEndIs(s: string, o: nat, end: nat)
    requires o <= end <= |s|
    requires forall i | o <= i < end :: IsDigit(s[i])
    requires !IsDigit(CharAt(s, end))
    ensures DigitsEnd(s, o) == end
    decreases end - o
  {
    if o == end {
    } else {
      DigitsEndIs(s, o + 1, end);
    }
  }

  // ------------------------------------------------------------ the C library's view

  /** The character classes by their codes, and NUL as the end of a text. */
  lemma CharCodes(c: char, s: string, i: nat)
    ensures IsSpace(c) <==> c as int == 32 || 9 <= c as int <= 13
    ensures IsDigit(c) <==> 48 <= c as int <= 57
    ensures i >= |s| ==> CharAt(s, i) as int == 0
    ensures NulFree(s) <==> forall k | 0 <= k < |s| :: s[k] as int != 0
  {
    assert IsDigit(c) <==> '0' as int <= c as int <= '9' as int;
    if !NulFree(s) {
      var k :| 0 <= k < |s| && s[k] == '\0';
      assert s[k] as int == 0;
    }
  }

  /** The nearest value that 64 bits hold. */
  lemma ClampNearest(x: int)
    ensures -0x8000_0000_0000_0000 <= ClampLong(x) < 0x8000_0000_0000_0000
    ensures -0x8000_0000_0000_0000 <= x < 0x8000_0000_0000_0000 ==> ClampLong(x) == x
    ensures x >= 0x8000_0000_0000_0000 ==> ClampLong(x) == 0x7FFF_FFFF_FFFF_FFFF
    ensures x < -0x8000_0000_0000_0000 ==> ClampLong(x) == -0x8000_0000_0000_0000
  {
  }

  lemma {:induction false} SpacesTo(s: string, o: nat, w: string)
    requires At(s, o, w) && (forall i | 0 <= i < |w| :: IsSpace(w[i])) && !IsSpace(CharAt(s, o + |w|))
    ensures o <= |s| && SkipSpaces(s, o) == o + |w|
    decreases w
  {
    AtBound(s, o, w);
    if w == "" {
    } else {
      AtIndex(s, o, w, 0);
      assert w == [w[0]] + w[1..];
      AtConcat(s, o, [w[0]], w[1..]);
      SpacesTo(s, o + 1, w[1..]);
    }
  }

  lemma DigitsTo(s: string, o: nat, digits: string)
    requires At(s, o, digits) && AllDigits(digits) && !IsDigit(CharAt(s, o + |digits|))
    ensures o <= |s| && DigitsEnd(s, o) == o + |digits| && s[o..o + |digits|] == digits
    ensures digits == "" ==> !IsDigit(CharAt(s, o))
    ensures digits != "" ==> IsDigit(CharAt(s, o))
  {
    hide At;
    AtText(s, o, digits);
    forall i | o <= i < o + |digits| ensures IsDigit(s[i]) {
      AtIndex(s, o, digits, i - o);
    }
    DigitsEndIs(s, o, o + |digits|);
  }

  lemma SignAt(s: string, o: nat, sign: string)
    requires (sign == "" || sign == "+" || sign == "-") && At(s, o, sign)
    requires sign == "" ==> CharAt(s, o) != '+' && CharAt(s, o) != '-'
    ensures o + |sign| <= |s|
    ensures sign != "" ==> s[o] == sign[0]
    ensures (o < |s| && (s[o] == '-' || s[o] == '+')) <==> sign != ""
  {
    if sign != "" { AtIndex(s, o, sign, 0); }
  }

  /** `strtol` on white space, a sign or none, and what follows: with digits their value,
      negated by a '-', saturated, and the end behind them; without any, 0 and no
      progress. */
  lemma StrtolReads(s: string, o: nat, w: string, sign: string, digits: string)
    requires At(s, o, w + sign + digits) && forall i | 0 <= i < |w| :: IsSpace(w[i])
    requires (sign == "" || sign == "+" || sign == "-") && AllDigits(digits)
    requires !IsDigit(CharAt(s, o + |w + sign + digits|))
    requires sign == "" && digits == "" ==> var c := CharAt(s, o + |w|); !IsSpace(c) && c != '+' && c != '-'
    ensures o <= |s|
    ensures var n: int := DigitsValue(digits);
      ParseLong(s, o) == if digits == "" then Strtol(0, o)
        else Strtol(ClampLong(if sign == "-" then -n else n), o + |w + sign + digits|)
  {
    hide At, DigitsEnd, DigitsValue, SkipSpaces, AllDigits;
    AtConcat3(s, o, w, sign, digits);
    var start, first := o + |w|, o + |w| + |sign|;
    DigitsTo(s, first, digits);
    SignAt(s, start, sign);
    SpacesTo(s, o, w);
  }

  lemma AtText(s: string, o: nat, t: string)
    requires At(s, o, t)
    ensures o + |t| <= |s| && s[o..o + |t|] == t
  {
  }
}
