/** The table of antenna ranges: a sorted, zero-padded array that stands for a map from
    start frequencies to antennas, and the choice of an antenna for a frequency. */
module AntennaTable {
  import opened CArithmetic
  import opened Text
  import opened TuningWord

  const LISTSIZE := 200

  /** The value of an antenna button. */
  type Button = b: int | 0 <= b <= 1

  datatype Port = Port(freq: int, rcv: Button, xmt: Button)

  const NONE := Port(0, 0, 0)

  /** Antennas AA, AB, BA and BB. */
  const APORTS: seq<int> := [0x40, 0xC0, 0x00, 0x80]

  /** The rows the program starts with: the amateur bands, in kilohertz. */
  const BANDS: seq<Port> := [
    Port(1800, 0, 0), Port(3500, 0, 0), Port(7000, 0, 0), Port(10100, 0, 0), Port(14000, 0, 0),
    Port(18068, 0, 0), Port(21000, 0, 0), Port(24890, 0, 0), Port(28000, 0, 0)]

  // ------------------------------------------------------------------ the table's rows

  predicate Sorted(s: seq<Port>) {
    forall i, j | 0 <= i < j < |s| :: s[i].freq <= s[j].freq
  }

  predicate Ascending(s: seq<Port>) {
    forall i, j | 0 <= i < j < |s| :: s[i].freq < s[j].freq
  }

  predicate Distinct(s: seq<Port>) {
    forall i, j | 0 <= i < |s| && 0 <= j < |s| && i != j :: s[i].freq != s[j].freq
  }

  /** A slot of frequency 0 is free. */
  predicate Nonzero(s: seq<Port>) {
    forall i | 0 <= i < |s| :: s[i].freq != 0
  }

  /** The map a table stands for, as the set of its rows. */
  function Rows(s: seq<Port>): set<Port> {
    set p | p in s
  }

  predicate HasFreq(s: seq<Port>, freq: int) {
    exists i | 0 <= i < |s| :: s[i].freq == freq
  }

  /** The map with `row` put in, in place of the row with its frequency if there is one. */
  function Updated(rows: set<Port>, row: Port): set<Port> {
    (set p | p in rows && p.freq != row.freq) + {row}
  }

  /** A map has one row for a frequency. */
  predicate Functional(rows: set<Port>) {
    forall p, q | p in rows && q in rows && p.freq == q.freq :: p == q
  }

  lemma DistinctIsFunctional(s: seq<Port>)
    requires Distinct(s)
    ensures Functional(Rows(s))
  {
    forall p, q | p in Rows(s) && q in Rows(s) && p.freq == q.freq ensures p == q {
      var i :| 0 <= i < |s| && s[i] == p;
      var j :| 0 <= j < |s| && s[j] == q;
    }
  }

  lemma SameRows(s: seq<Port>, t: seq<Port>)
    requires multiset(s) == multiset(t)
    ensures Rows(s) == Rows(t) && |s| == |t|
  {
    forall p ensures p in s <==> p in t {
      assert p in s <==> p in multiset(s);
    }
    assert |s| == |multiset(s)| && |t| == |multiset(t)|;
  }

  lemma OnceIn(s: seq<Port>, p: Port)
    requires Distinct(s)
    ensures multiset(s)[p] <= 1
  {
    if p in s {
      var a :| 0 <= a < |s| && s[a] == p;
      assert s == s[..a] + [p] + s[a + 1..];
      assert p !in s[..a] && p !in s[a + 1..];
    }
  }

  lemma TwiceIn(t: seq<Port>, i: nat, j: nat)
    requires i < j < |t| && t[i] == t[j]
    ensures multiset(t)[t[i]] >= 2
  {
    assert t == t[..j] + [t[j]] + t[j + 1..];
    assert t[i] in t[..j];
  }

  /** A permutation of rows with distinct frequencies, once sorted, is ascending. */
  lemma SortedIsAscending(s: seq<Port>, t: seq<Port>)
    requires Distinct(s) && multiset(s) == multiset(t) && Sorted(t)
    ensures Ascending(t)
  {
    SameRows(s, t);
    DistinctIsFunctional(s);
    forall i, j | 0 <= i < j < |t| ensures t[i].freq < t[j].freq {
      OnceIn(s, t[i]);
      assert t[i] in Rows(t) && t[j] in Rows(t);
      if t[i] == t[j] {
        TwiceIn(t, i, j);
      }
    }
  }

  // ------------------------------------------------------------------ exchange sorting

  /** The first `n` rows are in their final places. */
  predicate Placed(s: seq<Port>, n: int) {
    forall i, j | 0 <= i < j < |s| && i < n :: s[i].freq <= s[j].freq
  }

  /** Row `i` is the least of the rows from there up to `j`. */
  predicate LeastTo(s: seq<Port>, i: nat, j: nat) {
    forall k | i < k < j && k < |s| :: s[i].freq <= s[k].freq
  }

  function Exchanged(s: seq<Port>, i: nat, j: nat): seq<Port>
    requires i < j < |s|
  {
    s[i := s[j]][j := s[i]]
  }

  lemma ExchangeKeeps(s: seq<Port>, i: nat, j: nat)
    requires i < j < |s| && Placed(s, i) && LeastTo(s, i, j) && s[i].freq > s[j].freq
    ensures multiset(Exchanged(s, i, j)) == multiset(s)
    ensures Placed(Exchanged(s, i, j), i) && LeastTo(Exchanged(s, i, j), i, j + 1)
  {
  }

  // -------------------------------------------------------------- putting in a new row

  lemma AppendIsUpdate(s: seq<Port>, row: Port)
    requires Distinct(s) && !HasFreq(s, row.freq)
    ensures Distinct(s + [row]) && Rows(s + [row]) == Updated(Rows(s), row)
  {
  }

  lemma ReplaceIsUpdate(s: seq<Port>, n: nat, row: Port)
    requires Distinct(s) && n < |s| && s[n].freq == row.freq
    ensures Distinct(s[n := row]) && Rows(s[n := row]) == Updated(Rows(s), row)
  {
    var t := s[n := row];
    forall p ensures p in Rows(t) <==> p in Updated(Rows(s), row) {
      if p in Updated(Rows(s), row) {
        if p == row {
          assert t[n] == p;
        } else {
          var i :| 0 <= i < |s| && s[i] == p;
          assert t[i] == p;
        }
      }
    }
  }

  lemma RemoveIsRemoval(s: seq<Port>, n: nat)
    requires Ascending(s) && n < |s|
    ensures Ascending(s[..n] + s[n + 1..]) && Rows(s[..n] + s[n + 1..]) == Rows(s) - {s[n]}
  {
    var t := s[..n] + s[n + 1..];
    forall p ensures p in Rows(t) <==> p in Rows(s) - {s[n]} {
      if p in Rows(s) && p != s[n] {
        var i :| 0 <= i < |s| && s[i] == p;
        assert i < n ==> t[i] == p;
        assert i > n ==> t[i - 1] == p;
      }
    }
  }

  // ----------------------------------------------------------------------- the choice

  function BitsOf(p: Port): int {
    APORTS[p.rcv + 2 * p.xmt]
  }

  /** What the radio makes of the antenna bits: the top one chooses the receiving antenna,
      the one below it the transmitting one, inverted. */
  predicate Chooses(bits: int, rcv: Button, xmt: Button) {
    bits / 128 == rcv && bits / 64 % 2 == 1 - xmt && bits % 64 == 0
  }

  /** The choices by hand are AA, AB, BA and BB: transmitting antenna first. */
  predicate ChosenByHand(bits: int, iAntSel: nat) {
    1 <= iAntSel <= 4 && Chooses(bits, (iAntSel - 1) % 2, (iAntSel - 1) / 2)
  }

  lemma BitsChoose(p: Port, iAntSel: nat)
    ensures Chooses(BitsOf(p), p.rcv, p.xmt)
    ensures 1 <= iAntSel <= 4 ==> ChosenByHand(APORTS[iAntSel - 1], iAntSel)
  {
  }

  /** The bits tell the pairs of antennas apart. */
  lemma BitsTellAntennas(p: Port, q: Port)
    ensures IsPort(BitsOf(p))
    ensures BitsOf(p) == BitsOf(q) <==> p.rcv == q.rcv && p.xmt == q.xmt
  {
    assert p.rcv + 2 * p.xmt == q.rcv + 2 * q.xmt <==> p.rcv == q.rcv && p.xmt == q.xmt;
  }

  /** `row` starts the range that `f` lies in. */
  predicate Covers(rows: set<Port>, row: Port, f: int) {
    row in rows && row.freq <= f && forall p | p in rows && p.freq <= f :: p.freq <= row.freq
  }

  // ------------------------------------------------------------------------ the class

  class Table {
    const antports: array<Port>
    var numantports: int

    ghost predicate Valid()
      reads this, antports
    {
      && antports.Length == LISTSIZE
      && 0 <= numantports < LISTSIZE
      && Ascending(antports[..numantports])
      && Nonzero(antports[..numantports])
      && (forall i | numantports <= i < LISTSIZE - 1 :: antports[i].freq == 0)
    }

    /** The map the table stands for. */
    ghost function Map(): set<Port>
      requires Valid()
      reads this, antports
    {
      Rows(antports[..numantports])
    }

    constructor ()
      ensures Valid() && fresh(antports)
      ensures Map() == Rows(BANDS) && numantports == |BANDS| && antports[LISTSIZE - 1] == NONE
    {
      antports := new Port[LISTSIZE](i => if 0 <= i < |BANDS| then BANDS[i] else NONE);
      numantports := |BANDS|;
      new;
      assert antports[..|BANDS|] == BANDS;
    }

    /** `sortAntPortList`: an exchange sort of the rows in use. */
    method Sort()
      requires antports.Length == LISTSIZE && 0 <= numantports <= LISTSIZE
      modifies antports
      ensures Sorted(antports[..numantports])
      ensures multiset(antports[..numantports]) == multiset(old(antports[..numantports]))
      ensures antports[numantports..] == old(antports[numantports..])
    {
      hide Sorted, Placed, LeastTo, Exchanged;
      var i := 0;
      PlacedBegins(antports[..numantports]);
      while i < numantports - 1
        invariant 0 <= i && (i < numantports || i == 0)
        invariant Placed(antports[..numantports], i)
        invariant multiset(antports[..numantports]) == multiset(old(antports[..numantports]))
        invariant antports[numantports..] == old(antports[numantports..])
      {
        var j := i + 1;
        LeastBegins(antports[..numantports], i);
        while j < numantports
          invariant i < j <= numantports
          invariant Placed(antports[..numantports], i) && LeastTo(antports[..numantports], i, j)
          invariant multiset(antports[..numantports]) == multiset(old(antports[..numantports]))
          invariant antports[numantports..] == old(antports[numantports..])
        {
          ghost var s := antports[..numantports];
          if antports[i].freq > antports[j].freq {
            ExchangeKeeps(s, i, j);
            Exchange(i, j);
          } else {
            LeastGoesOn(s, i, j);
          }
          j := j + 1;
        }
        PlacedGoesOn(antports[..numantports], i);
        i := i + 1;
      }
      PlacedEnds(antports[..numantports], i);
    }

    /** `clearAntPortList`. */
    method Clear()
      requires Valid()
      modifies this`numantports, antports
      ensures Valid() && Map() == {}
    {
      if numantports == 0 {
        return;
      }
      var i := 0;
      while i < LISTSIZE
        invariant 0 <= i <= LISTSIZE
        invariant forall k | 0 <= k < i :: antports[k] == NONE
      {
        antports[i] := NONE;
        i := i + 1;
      }
      numantports := 0;
    }

    /** The table is full, its last slot holds a row that was dropped, and `freq` is new:
        the search for a slot runs off the array. */
    ghost predicate NoSlot(freq: int)
      requires Valid()
      reads this, antports
    {
      && freq != 0 && numantports == LISTSIZE - 1 && !HasFreq(antports[..numantports], freq)
      && antports[LISTSIZE - 1].freq != 0 && antports[LISTSIZE - 1].freq != freq
    }

    /** Where a row for `freq` goes: the loop of `cbAddAntRange`. */
    method Slot(freq: int) returns (n: nat)
      requires Valid() && freq != 0
      ensures n < numantports ==> antports[n].freq == freq
      ensures n >= numantports ==> !HasFreq(antports[..numantports], freq)
      ensures n <= numantports || n == LISTSIZE
      ensures n == LISTSIZE <==> NoSlot(freq)
    {
      n := 0;
      while n < LISTSIZE
        invariant n <= numantports || n == LISTSIZE == numantports + 1
        invariant forall k | 0 <= k < n :: antports[k].freq != freq && antports[k].freq != 0
      {
        if freq == antports[n].freq { break; }
        if antports[n].freq == 0 { break; }
        n := n + 1;
      }
    }

    /** `cbAddAntRange`, on every table. Where the search finds no slot the original writes
        to `antports[LISTSIZE]`, behind the array; `inBounds` is then false, and what is
        said of the table holds up to that write. Else it is a map update, exactly as
        long as the table is not full or the frequency is in it; a new row for a full
        table is dropped, and stays behind in the last slot. */
    method Add(freq: int, rcv: Button, xmt: Button) returns (inBounds: bool)
      requires Valid()
      modifies this`numantports, antports
      ensures Valid()
      ensures inBounds <==> !old(NoSlot(freq))
      ensures !inBounds || freq == 0 ==> antports[..] == old(antports[..]) && numantports == old(numantports)
      ensures inBounds && freq != 0 ==> (
        Map() == Updated(old(Map()), Port(freq, rcv, xmt)) <==>
        old(numantports) < LISTSIZE - 1 || old(HasFreq(antports[..numantports], freq)))
      ensures Map() == old(Map()) || Map() == Updated(old(Map()), Port(freq, rcv, xmt))
      ensures inBounds && freq != 0 && !old(HasFreq(antports[..numantports], freq)) ==> (
        if old(numantports) < LISTSIZE - 1 then
          numantports == old(numantports) + 1 && antports[LISTSIZE - 1] == old(antports[LISTSIZE - 1])
        else
          numantports == LISTSIZE - 1 && antports[LISTSIZE - 1] == Port(freq, rcv, xmt)
          && forall other | other != 0 && other != freq && !HasFreq(antports[..numantports], other) :: NoSlot(other))
      ensures inBounds && freq != 0 && old(HasFreq(antports[..numantports], freq)) ==> (
        numantports == old(numantports) && antports[LISTSIZE - 1] == old(antports[LISTSIZE - 1]))
    {
      hide Ascending, Distinct, HasFreq, Updated, Rows;
      if freq == 0 {
        return true;
      }
      var n := Slot(freq);
      if n == LISTSIZE {
        return false;
      }
      ghost var s := antports[..numantports];
      if n < numantports {
        FoundAt(s, n, freq);
      } else {
        UpdateIsNew(s, Port(freq, rcv, xmt));
      }
      Store(n, Port(freq, rcv, xmt));
      Resort();
      return true;
    }

    /** The row goes into its slot, and the count follows. */
    method Store(n: nat, row: Port)
      requires Valid() && row.freq != 0 && n <= numantports
      requires if n < numantports then antports[n].freq == row.freq else !HasFreq(antports[..numantports], row.freq)
      modifies this`numantports, antports
      ensures Unsorted()
      ensures Rows(antports[..numantports]) ==
        if old(numantports) < LISTSIZE - 1 || n < old(numantports) then Updated(old(Map()), row) else old(Map())
      ensures numantports == if n == old(numantports) < LISTSIZE - 1 then old(numantports) + 1 else old(numantports)
      ensures antports[LISTSIZE - 1] == if n == LISTSIZE - 1 then row else old(antports[LISTSIZE - 1])
    {
      hide Ascending, Distinct, HasFreq, Updated, Rows;
      ghost var s := antports[..numantports];
      AscendingIsDistinct(s);
      antports[n] := row;
      if n < numantports {
        ReplaceIsUpdate(s, n, row);
        assert antports[..numantports] == s[n := row];
      } else {
        AppendIsUpdate(s, row);
        assert antports[..n] == s && antports[..n + 1] == s + [row];
      }
      if n == numantports { numantports := numantports + 1; }
      if numantports == LISTSIZE { numantports := numantports - 1; }
    }

    /** As `Valid`, but for the order of the rows. */
    ghost predicate Unsorted()
      reads this, antports
    {
      && antports.Length == LISTSIZE
      && 0 <= numantports < LISTSIZE
      && Distinct(antports[..numantports])
      && Nonzero(antports[..numantports])
      && (forall i | numantports <= i < LISTSIZE - 1 :: antports[i].freq == 0)
    }

    method Resort()
      requires Unsorted()
      modifies antports
      ensures Valid() && Map() == Rows(old(antports[..numantports]))
      ensures antports[LISTSIZE - 1] == old(antports[LISTSIZE - 1])
    {
      hide Ascending, Distinct, Sorted, Rows, Nonzero;
      ghost var s, padding := antports[..numantports], antports[numantports..];
      Sort();
      ghost var t := antports[..numantports];
      SortedIsAscending(s, t);
      SameRows(s, t);
      StaysNonzero(s, t);
      assert antports[LISTSIZE - 1] == padding[LISTSIZE - 1 - numantports];
      forall i | numantports <= i < LISTSIZE - 1 ensures antports[i].freq == 0 {
        assert antports[i] == padding[i - numantports];
      }
    }

    /** `cbDeleteAntRange` for the chosen line of the list; 0 is no line. */
    method Delete(line: nat)
      requires Valid() && line <= numantports
      modifies this`numantports, antports
      ensures Valid()
      ensures Map() == if line == 0 then old(Map()) else old(Map()) - {old(antports[line - 1])}
    {
      if line == 0 {
        return;
      }
      hide Ascending, Rows, Nonzero;
      ghost var s := antports[..numantports];
      RemoveIsRemoval(s, line - 1);
      RemoveKeepsNonzero(s, line - 1);
      ShiftDown(line - 1);
      antports[numantports - 1] := NONE;
      numantports := numantports - 1;
      assert antports[..numantports] == s[..line - 1] + s[line..];
    }

    /** The loop of `cbDeleteAntRange`. */
    method ShiftDown(n: nat)
      requires antports.Length == LISTSIZE && n < numantports < LISTSIZE
      modifies antports
      ensures antports[..numantports - 1] == old(antports[..n]) + old(antports[n + 1..numantports])
      ensures forall k | numantports <= k < LISTSIZE :: antports[k] == old(antports[k])
    {
      var i := n;
      while i < numantports
        invariant n <= i <= numantports
        invariant forall k | 0 <= k < n :: antports[k] == old(antports[k])
        invariant forall k | n <= k < i :: antports[k] == old(antports[k + 1])
        invariant forall k | i <= k < LISTSIZE :: antports[k] == old(antports[k])
      {
        antports[i] := antports[i + 1];
        i := i + 1;
      }
    }

    /** `antPort`: the antenna chosen by hand, or the one of the range the frequency lies
        in, or the first. */
    method AntPort(freq: int, iAntSel: nat) returns (aport: int)
      requires Valid() && iAntSel <= |APORTS|
      ensures IsPort(aport)
      ensures iAntSel > 0 ==> ChosenByHand(aport, iAntSel)
      ensures iAntSel == 0 ==>
        forall row | Covers(Map(), row, ToInt32(Quot(freq, 1000))) :: Chooses(aport, row.rcv, row.xmt)
      ensures iAntSel == 0 && (forall row | row in Map() :: row.freq > ToInt32(Quot(freq, 1000))) ==>
        Chooses(aport, 0, 0)
    {
      hide Quot, Chooses, ChosenByHand, BitsOf;
      BitsChoose(NONE, iAntSel);
      BitsChoose(NONE, 1);
      aport := APORTS[0];
      if iAntSel > 0 {
        aport := APORTS[iAntSel - 1];
      } else if numantports > 0 {
        var f := ToInt32(Quot(freq, 1000));
        var i := numantports - 1;
        while i > -1
          invariant -1 <= i < numantports
          invariant forall k | i < k < numantports :: antports[k].freq > f
          invariant aport == APORTS[0]
        {
          if f >= antports[i].freq {
            aport := BitsOf(antports[i]);
            BitsTellAntennas(antports[i], antports[i]);
            BitsChoose(antports[i], iAntSel);
            CoversOnly(antports[..numantports], i, f);
            break;
          }
          i := i - 1;
        }
      }
    }

    /** `setvfo`: the command gets the word of the frequency and the bits of its antenna. */
    method SetVfo(cmd: array<Byte>, freq: int, adjust: real, offset: real, iAntSel: nat)
      requires Valid() && iAntSel <= |APORTS| && cmd.Length >= 6 && Word(freq, adjust, offset) >= 0
      modifies cmd
      ensures Valid() && Map() == old(Map())
      ensures WordOf(cmd[..]) == Word(freq, adjust, offset) % 0x4000_0000
      ensures iAntSel > 0 ==> ChosenByHand(PortOf(cmd[..]), iAntSel)
      ensures iAntSel == 0 ==>
        forall row | Covers(Map(), row, ToInt32(Quot(freq, 1000))) :: Chooses(PortOf(cmd[..]), row.rcv, row.xmt)
      ensures iAntSel == 0 && (forall row | row in Map() :: row.freq > ToInt32(Quot(freq, 1000))) ==>
        Chooses(PortOf(cmd[..]), 0, 0)
      ensures forall i | 0 <= i < cmd.Length && !(2 <= i <= 5) :: cmd[i] == old(cmd[i])
    {
      hide Quot, Word, WordOf, PortOf, Covers, Chooses, ChosenByHand, Overlaid, Rows, Ascending, Nonzero;
      var port := AntPort(freq, iAntSel);
      BytesDecode(cmd[..], Word(freq, adjust, offset), port);
      ghost var before := cmd[..];
      Overlay(cmd, freq, adjust, offset, port);
      forall i | 0 <= i < cmd.Length && !(2 <= i <= 5) ensures cmd[i] == before[i] {
        assert cmd[..][i] == before[i];
      }
    }

    method Exchange(i: nat, j: nat)
      requires i < j < numantports <= antports.Length
      modifies antports
      ensures antports[..numantports] == Exchanged(old(antports[..numantports]), i, j)
      ensures antports[numantports..] == old(antports[numantports..])
    {
      var temp := antports[i];
      antports[i] := antports[j];
      antports[j] := temp;
    }
  }

  /** In an ascending table one row at most starts the range of a frequency. */
  lemma CoversOnly(s: seq<Port>, i: nat, f: int)
    requires Ascending(s) && i < |s| && s[i].freq <= f
    requires forall k | i < k < |s| :: s[k].freq > f
    ensures forall row :: Covers(Rows(s), row, f) <==> row == s[i]
  {
    forall row ensures Covers(Rows(s), row, f) <==> row == s[i] {
      assert s[i] in Rows(s);
      if Covers(Rows(s), row, f) {
        var j :| 0 <= j < |s| && s[j] == row;
      }
      forall p | p in Rows(s) && p.freq <= f ensures p.freq <= s[i].freq {
        var j :| 0 <= j < |s| && s[j] == p;
      }
    }
  }

  /** And some row does, unless all ranges start above it. */
  lemma {:induction false} CoverExists(s: seq<Port>, f: int) returns (row: Port)
    requires Ascending(s) && exists i | 0 <= i < |s| :: s[i].freq <= f
    ensures Covers(Rows(s), row, f)
    decreases |s|
  {
    var last := |s| - 1;
    if s[last].freq <= f {
      row := s[last];
      CoversOnly(s, last, f);
    } else {
      row := CoverExists(s[..last], f);
      assert forall p | p in Rows(s) && p.freq <= f :: p in Rows(s[..last]) by {
        assert s == s[..last] + [s[last]];
      }
    }
  }

  lemma AscendingIsDistinct(s: seq<Port>)
    requires Ascending(s)
    ensures Distinct(s)
  {
  }

  lemma FoundAt(s: seq<Port>, n: nat, freq: int)
    requires n < |s| && s[n].freq == freq
    ensures HasFreq(s, freq)
  {
  }

  lemma UpdateIsNew(s: seq<Port>, row: Port)
    requires !HasFreq(s, row.freq)
    ensures Updated(Rows(s), row) != Rows(s)
  {
    assert row in Updated(Rows(s), row);
  }

  lemma RemoveKeepsNonzero(s: seq<Port>, n: nat)
    requires Nonzero(s) && n < |s|
    ensures Nonzero(s[..n] + s[n + 1..])
  {
  }

  lemma StaysNonzero(s: seq<Port>, t: seq<Port>)
    requires multiset(s) == multiset(t) && Nonzero(s)
    ensures |s| == |t| && Nonzero(t)
  {
    SameRows(s, t);
    forall i | 0 <= i < |t| ensures t[i].freq != 0 {
      assert t[i] in Rows(t);
    }
  }

  /** The amateur bands and the frequencies up to `k`. */
  predicate BandsAndUpTo(rows: set<Port>, k: int) {
    forall p | p in rows :: p.freq >= 1800 || 1 <= p.freq <= k
  }

  lemma NotYetThere(s: seq<Port>, k: nat)
    requires BandsAndUpTo(Rows(s), k) && k + 1 < 1800
    ensures !HasFreq(s, k + 1)
  {
    forall i | 0 <= i < |s| ensures s[i].freq != k + 1 {
      assert s[i] in Rows(s);
    }
  }

  lemma OneFreqMore(rows: set<Port>, row: Port)
    requires BandsAndUpTo(rows, row.freq - 1) && row.freq >= 1
    ensures BandsAndUpTo(rows, row.freq) && BandsAndUpTo(Updated(rows, row), row.freq)
  {
  }

  /** The write behind the array is within reach of a user: with the table the program
      starts with, 191 additions of new frequencies fill it and leave a dropped row
      behind, and the next one finds no slot. */
  method WritesBehind() returns (t: Table)
    ensures fresh(t) && t.Valid() && t.NoSlot(192)
  {
    hide BandsAndUpTo, Updated, HasFreq, Rows, Ascending;
    t := new Table();
    StartsWithBands();
    var k := 0;
    while k < 191
      invariant 0 <= k <= 191 && t.Valid() && fresh(t) && fresh(t.antports)
      invariant BandsAndUpTo(t.Map(), k)
      invariant t.numantports == (if k < 190 then |BANDS| + k else LISTSIZE - 1)
      invariant t.antports[LISTSIZE - 1].freq == if k <= 190 then 0 else k
    {
      NotYetThere(t.antports[..t.numantports], k);
      OneFreqMore(t.Map(), Port(k + 1, 0, 0));
      var inBounds := t.Add(k + 1, 0, 0);
      k := k + 1;
    }
    NotYetThere(t.antports[..t.numantports], 191);
  }

  lemma StartsWithBands()
    ensures BandsAndUpTo(Rows(BANDS), 0)
  {
  }

  lemma PlacedBegins(s: seq<Port>)
    ensures Placed(s, 0)
  {
  }

  lemma LeastBegins(s: seq<Port>, i: nat)
    ensures LeastTo(s, i, i + 1)
  {
  }

  lemma LeastGoesOn(s: seq<Port>, i: nat, j: nat)
    requires i < j < |s| && LeastTo(s, i, j) && s[i].freq <= s[j].freq
    ensures LeastTo(s, i, j + 1)
  {
  }

  lemma PlacedGoesOn(s: seq<Port>, i: nat)
    requires Placed(s, i) && LeastTo(s, i, |s|)
    ensures Placed(s, i + 1)
  {
  }

  lemma PlacedEnds(s: seq<Port>, i: nat)
    requires Placed(s, i) && i >= |s| - 1
    ensures Sorted(s)
  {
  }
}
