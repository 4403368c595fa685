/** Sliding windows over past readings: the peak of the signal bar and the mean of the
    temperature display. */
module Meters {

  /** The greatest value of a window. */
  predicate IsMaximum(m: real, w: seq<real>) {
    m in w && forall x | x in w :: x <= m
  }

  lemma MaximumNext(m: real, w: seq<real>, x: real)
    requires IsMaximum(m, w)
    ensures IsMaximum(if m < x then x else m, w + [x])
  {
    assert (w + [x])[|w|] == x;
  }

  lemma LastSlides(h: seq<real>, v: real, n: nat)
    requires 0 < n <= |h|
    ensures Slide(h[|h| - n..], v) == (h + [v])[|h| + 1 - n..]
  {
  }

  /** A window moves on by one reading, or by many. */
  function Slide(w: seq<real>, v: real): seq<real>
    requires w != []
  {
    w[1..] + [v]
  }

  function Slides(w: seq<real>, vs: seq<real>): (r: seq<real>)
    requires w != []
    ensures |r| == |w|
    decreases vs
  {
    if vs == [] then w else Slides(Slide(w, vs[0]), vs[1..])
  }

  /** Whatever stood in the window at first counts as the readings before: after any run
      the window holds the last of all of them. */
  lemma {:induction false} SlidesAreLast(w: seq<real>, vs: seq<real>)
    requires w != []
    ensures Slides(w, vs) == (w + vs)[|vs|..]
    decreases vs
  {
    if vs == [] {
      assert w + vs == w;
    } else {
      var w1 := Slide(w, vs[0]);
      SlidesAreLast(w1, vs[1..]);
      assert (w1 + vs[1..])[|vs| - 1..] == (w + vs)[|vs|..] by {
        assert [w[0]] + (w1 + vs[1..]) == w + vs;
      }
    }
  }

  /** After as many readings as it is long, nothing older is left in a window. */
  lemma SlidesForget(w: seq<real>, vs: seq<real>)
    requires w != [] && |vs| >= |w|
    ensures Slides(w, vs) == vs[|vs| - |w|..]
  {
    SlidesAreLast(w, vs);
  }

  class SigBar {
    const peaks: array<real>
    var peakValue: real
    var aging: nat
    /** All readings shown since the aging was last set, behind the window of then. */
    ghost var history: seq<real>

    ghost predicate Valid()
      reads this, peaks
    {
      && peaks.Length == 11 && aging <= 10
      && |history| > aging
      && (aging > 1 ==> Window() == history[|history| - aging - 1..])
    }

    ghost function Window(): seq<real>
      requires peaks.Length == 11 && aging <= 10
      reads this, peaks
    {
      peaks[..aging + 1]
    }

    constructor ()
      ensures Valid() && fresh(peaks) && aging == 4 && history == [0.0, 0.0, 0.0, 0.0, 0.0]
    {
      peaks := new real[11](_ => 0.0);
      aging := 4;
      peakValue := 0.0;
      history := [0.0, 0.0, 0.0, 0.0, 0.0];
    }

    /** `aging(n)`. */
    method SetAging(n: int)
      requires Valid()
      modifies this`aging, this`history
      ensures Valid() && aging == (if 0 < n <= 10 then n - 1 else 10) && history == Window()
    {
      if n <= 10 && n > 0 { aging := n - 1; } else { aging := 10; }
      history := Window();
    }

    /** `peak(v)`: shows the greatest of the last `aging + 1` readings, `v` among them; a
        bar that does not age shows `v`. */
    method Peak(v: real)
      requires Valid()
      modifies this`peakValue, this`history, peaks
      ensures Valid()
      ensures history == old(history) + [v]
      ensures if aging > 1 then IsMaximum(peakValue, history[|history| - aging - 1..]) else peakValue == v
      ensures aging > 1 ==> Window() == Slide(old(Window()), v)
    {
      hide IsMaximum, Slide;
      peakValue := v;
      if aging > 1 {
        LastSlides(history, v, aging + 1);
        Shift(v);
      }
      history := history + [v];
    }

    /** The loop of `peak`, for a bar that ages. */
    method Shift(v: real)
      requires peaks.Length == 11 && 1 < aging <= 10 && peakValue == v
      modifies this`peakValue, peaks
      ensures Window() == Slide(old(Window()), v) && IsMaximum(peakValue, Window())
    {
      hide IsMaximum;
      ghost var before := peaks[..];
      OneMaximum(v, before);
      var i := 1;
      while i <= aging
        invariant 1 <= i <= aging + 1
        invariant forall k | 0 <= k < i - 1 :: peaks[k] == before[k + 1]
        invariant forall k | i - 1 <= k < 11 :: peaks[k] == before[k]
        invariant IsMaximum(peakValue, [v] + before[1..i])
      {
        MaximumGrows(peakValue, v, before, i);
        peaks[i - 1] := peaks[i];
        if peakValue < peaks[i - 1] { peakValue := peaks[i - 1]; }
        i := i + 1;
      }
      MaximumNext(peakValue, [v] + before[1..i], v);
      assert peaks[..aging] == before[1..i];
      peaks[aging] := v;
      if peakValue < v { peakValue := v; }
      assert Window() == before[1..i] + [v];
      MaximumAgain(peakValue, v, before[1..i]);
    }
  }

  lemma OneMaximum(v: real, w: seq<real>)
    requires |w| > 0
    ensures IsMaximum(v, [v] + w[1..1])
  {
  }

  lemma MaximumGrows(m: real, v: real, w: seq<real>, i: nat)
    requires 1 <= i < |w| && IsMaximum(m, [v] + w[1..i])
    ensures IsMaximum(if m < w[i] then w[i] else m, [v] + w[1..i + 1])
  {
    MaximumNext(m, [v] + w[1..i], w[i]);
    assert [v] + w[1..i] + [w[i]] == [v] + w[1..i + 1];
  }

  lemma MaximumAgain(m: real, v: real, w: seq<real>)
    requires IsMaximum(m, [v] + w + [v])
    ensures IsMaximum(m, w + [v])
  {
    assert (w + [v])[|w|] == v;
    forall x | x in w + [v] ensures x <= m {
      assert x in [v] + w + [v];
    }
  }

  // --------------------------------------------------------------------- temperatures

  const NTEMPS := 50

  function Centigrade(data: int): real {
    (data - 220) as real * 2.5 + 17.5
  }

  /** The radio's scale: 213 counts are the freezing point and 253 are that of boiling. */
  lemma CentigradeScale(data: int)
    ensures Centigrade(213) == 0.0 && Centigrade(253) == 100.0
    ensures Centigrade(data + 1) == Centigrade(data) + 2.5
  {
  }

  function Sum(s: seq<real>): real {
    if s == [] then 0.0 else Sum(s[..|s| - 1]) + s[|s| - 1]
  }

  /** Every reading counts once. */
  lemma SumAdds(s: seq<real>, x: real)
    ensures Sum([]) == 0.0 && Sum(s + [x]) == Sum(s) + x
  {
    assert (s + [x])[..|s|] == s;
  }

  lemma {:induction false} SumConcat(a: seq<real>, b: seq<real>)
    ensures Sum(a + b) == Sum(a) + Sum(b)
    decreases b
  {
    if b == [] {
      assert a + b == a;
    } else {
      assert (a + b)[..|a + b| - 1] == a + b[..|b| - 1];
      SumConcat(a, b[..|b| - 1]);
    }
  }

  /** The last `NTEMPS` readings, or all of them. */
  function Recent(h: seq<real>): seq<real> {
    if |h| <= NTEMPS then h else h[|h| - NTEMPS..]
  }

  /** `ring` holds the last readings of `h`, each at its number's place. */
  predicate Holds(ring: seq<real>, h: seq<real>)
    requires |ring| == NTEMPS
  {
    forall i | 0 <= i < |h| && |h| - NTEMPS <= i :: ring[i % NTEMPS] == h[i]
  }

  lemma HoldsNext(ring: seq<real>, h: seq<real>, t: real)
    requires |ring| == NTEMPS && Holds(ring, h)
    ensures Holds(ring[|h| % NTEMPS := t], h + [t])
  {
  }

  lemma RecentNext(h: seq<real>, t: real)
    ensures 0 < |Recent(h + [t])| <= NTEMPS && |Recent(h)| <= NTEMPS
    ensures |Recent(h + [t])| == if |Recent(h)| < NTEMPS then |Recent(h)| + 1 else NTEMPS
    ensures |h + [t]| % NTEMPS == (|h| % NTEMPS + 1) % NTEMPS
  {
  }

  /** The ring's part in use has the sum of the last readings: it is a rotation of them. */
  lemma RingSum(ring: seq<real>, h: seq<real>)
    requires |ring| == NTEMPS && Holds(ring, h)
    ensures Sum(ring[..|Recent(h)|]) == Sum(Recent(h))
  {
    hide Holds, Sum;
    if |h| <= NTEMPS {
      NotYetFull(ring, h);
    } else {
      var r := |h| % NTEMPS;
      var older, newer := h[|h| - NTEMPS..|h| - r], h[|h| - r..];
      Rotated(ring, h);
      assert Recent(h) == older + newer;
      SumConcat(older, newer);
      SumConcat(newer, older);
      assert ring[..NTEMPS] == ring;
    }
  }

  lemma NotYetFull(ring: seq<real>, h: seq<real>)
    requires |h| <= |ring| == NTEMPS && Holds(ring, h)
    ensures ring[..|h|] == h
  {
    forall i | 0 <= i < |h| ensures ring[i] == h[i] {
      assert ring[i % NTEMPS] == h[i];
    }
  }

  lemma Rotated(ring: seq<real>, h: seq<real>)
    requires |ring| == NTEMPS < |h| && Holds(ring, h)
    ensures var r := |h| % NTEMPS; ring == h[|h| - r..] + h[|h| - NTEMPS..|h| - r]
  {
    var n, r := |h|, |h| % NTEMPS;
    var t := h[n - r..] + h[n - NTEMPS..n - r];
    forall k | 0 <= k < NTEMPS ensures ring[k] == t[k] {
      var i := if k < r then n - r + k else n - NTEMPS - r + k;
      assert i % NTEMPS == k;
      assert ring[i % NTEMPS] == h[i];
    }
  }

  class TemperatureDisplay {
    const temps: array<real>
    var count: nat
    var next: nat
    var inCentigrade: bool
    /** All readings so far. */
    ghost var history: seq<real>

    ghost predicate Valid()
      reads this, temps
    {
      && temps.Length == NTEMPS
      && count == |Recent(history)| && next == |history| % NTEMPS
      && Holds(temps[..], history)
    }

    constructor ()
      ensures Valid() && fresh(temps) && history == [] && inCentigrade
    {
      temps := new real[NTEMPS](_ => 0.0);
      count, next, inCentigrade := 0, 0, true;
      history := [];
    }

    /** `updateTempDisplay`, up to the printing: the value is the mean of the last 50
        readings, or of all as long as there are fewer. */
    method Update(data: int) returns (shown: real)
      requires Valid()
      modifies this, temps
      ensures Valid()
      ensures history == old(history) + [Centigrade(data)] && inCentigrade == old(inCentigrade)
      ensures var mean := Sum(Recent(history)) / |Recent(history)| as real;
        shown == if inCentigrade then mean else mean * 9.0 / 5.0 + 32.0
    {
      hide Holds, Sum, Recent, Centigrade;
      var temp := Centigrade(data);
      HoldsNext(temps[..], history, temp);
      RecentNext(history, temp);
      Store(temp);
      shown := Total();
      RingSum(temps[..], history);
      shown := shown / count as real;
      if !inCentigrade {
        shown := shown * 9.0 / 5.0 + 32.0;
      }
    }

    /** The reading goes into the ring. */
    method Store(temp: real)
      requires temps.Length == NTEMPS && next < NTEMPS && count <= NTEMPS
      modifies this`count, this`next, this`history, temps
      ensures temps[..] == old(temps[..])[old(next) := temp]
      ensures next == (old(next) + 1) % NTEMPS
      ensures count == if old(count) < NTEMPS then old(count) + 1 else NTEMPS
      ensures history == old(history) + [temp]
    {
      temps[next] := temp;
      next := next + 1;
      next := next % NTEMPS;
      count := count + 1;
      if count > NTEMPS { count := NTEMPS; }
      history := history + [temp];
    }

    method Total() returns (sum: real)
      requires temps.Length == NTEMPS && count <= NTEMPS
      ensures sum == Sum(temps[..count])
    {
      sum := 0.0;
      var i := 0;
      while i < count
        invariant i <= count && sum == Sum(temps[..i])
      {
        assert temps[..i + 1][..i] == temps[..i];
        sum := sum + temps[i];
        i := i + 1;
      }
    }
  }
}
