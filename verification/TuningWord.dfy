/** The frequency word for the radio's synthesizer, and how it is read back. */
module TuningWord {
  import opened CArithmetic

  /** Counts of the synthesizer per hertz. */
  const K := 2.2369621333
  const IF_HZ := 75000000

  // ------------------------------------------------------------------ the word, exact

  /** What `setvfo` rounds down: the exact word with the user's correction, and a half. */
  function Exact(freq: int, adjust: real, offset: real): real {
    K * (IF_HZ + freq) as real + (freq as real * adjust * 0.000001 + offset)
  }

  function Word(freq: int, adjust: real, offset: real): int {
    (0.5 + Exact(freq, adjust, offset)).Floor
  }

  /** A whole number to the nearest of which `x` is rounded, halves upwards. */
  predicate Rounds(x: real, n: int) {
    n as real - 0.5 <= x < n as real + 0.5
  }

  lemma WordRounds(freq: int, adjust: real, offset: real)
    ensures Rounds(Exact(freq, adjust, offset), Word(freq, adjust, offset))
  {
  }

  /** What the synthesizer is tuned to: nothing at 75 MHz below zero, 2.2369621333 counts
      for every hertz above, a millionth of a count per hertz for each unit of
      adjustment, and each count of offset one more. */
  lemma Calibration(freq: int, adjust: real, offset: real, d: real)
    ensures Exact(-75_000_000, 0.0, 0.0) == 0.0
    ensures Exact(freq + 1, 0.0, offset) == Exact(freq, 0.0, offset) + 2.2369621333
    ensures Exact(freq, adjust, offset + d) == Exact(freq, adjust, offset) + d
    ensures Exact(1_000_000, adjust + d, offset) == Exact(1_000_000, adjust, offset) + d
    ensures Exact(0, adjust, offset) == Exact(0, 0.0, offset)
  {
    assert freq as real * 0.0 * 0.000001 == 0.0 && (freq + 1) as real * 0.0 * 0.000001 == 0.0;
    assert (freq + 1) as real == freq as real + 1.0;
    assert (IF_HZ + (freq + 1)) as real == (IF_HZ + freq) as real + 1.0;
  }

  /** Rounded to the nearest: at 7 MHz 183430894.93 counts are 183430895. */
  lemma WordAtSevenMegahertz()
    ensures Word(7_000_000, 0.0, 0.0) == 183_430_895
  {
  }

  /** Without correction, rounding the inverse formula gives the frequency back. */
  lemma FrequencyBack(freq: int)
    ensures Rounds(Word(freq, 0.0, 0.0) as real / K - IF_HZ as real, freq)
  {
    hide Exact, Word;
    WordRounds(freq, 0.0, 0.0);
    Uncorrected(freq);
  }

  lemma Uncorrected(freq: int)
    ensures Exact(freq, 0.0, 0.0) == K * (IF_HZ + freq) as real
  {
    assert freq as real * 0.0 * 0.000001 == 0.0;
  }

  /** So distinct frequencies have distinct words, in the same order. */
  lemma WordsOrdered(f: int, g: int)
    ensures f < g <==> Word(f, 0.0, 0.0) < Word(g, 0.0, 0.0)
  {
    hide Exact, Word;
    FrequencyBack(f);
    FrequencyBack(g);
  }

  // ---------------------------------------------------------------- with a correction

  /** Counts per hertz under the correction. */
  function Slope(adjust: real): real {
    K + adjust * 0.000001
  }

  lemma ExactStep(freq: int, adjust: real, offset: real)
    ensures Exact(freq + 1, adjust, offset) == Exact(freq, adjust, offset) + Slope(adjust)
  {
    var x, c := freq as real, adjust * 0.000001;
    Spread(x, adjust);
    Spread(x + 1.0, adjust);
    assert (freq + 1) as real == x + 1.0;
    assert (x + 1.0) * c == x * c + c;
  }

  lemma Spread(x: real, adjust: real)
    ensures x * adjust * 0.000001 == x * (adjust * 0.000001)
  {
  }

  lemma {:induction false} ExactLine(n: nat, adjust: real, offset: real)
    ensures Exact(n, adjust, offset) == Exact(0, adjust, offset) + n as real * Slope(adjust)
    decreases n
  {
    hide Exact, Slope;
    if n == 0 {
    } else {
      ExactLine(n - 1, adjust, offset);
      ExactStep(n - 1, adjust, offset);
      assert n as real == (n - 1) as real + 1.0;
      assert n as real * Slope(adjust) == (n - 1) as real * Slope(adjust) + Slope(adjust);
    }
  }

  lemma {:induction false} RisesBy(n: nat, adjust: real, offset: real)
    requires forall f | 0 <= f < n :: Word(f, adjust, offset) < Word(f + 1, adjust, offset)
    ensures Word(n, adjust, offset) >= Word(0, adjust, offset) + n
    decreases n
  {
    hide Word;
    if n == 0 {
    } else {
      RisesBy(n - 1, adjust, offset);
      assert Word(n - 1, adjust, offset) < Word(n - 1 + 1, adjust, offset);
    }
  }

  /** A line that rises by less than one per step falls behind after enough steps. */
  lemma FallsBehind(slope: real) returns (n: nat)
    requires slope < 1.0
    ensures n as real * slope + 1.0 < n as real
  {
    var q := 1.0 / (1.0 - slope);
    n := if q < 0.0 then 1 else q.Floor + 1;
    Behind(n as real, slope);
  }

  lemma Behind(x: real, slope: real)
    requires slope < 1.0 && x > 1.0 / (1.0 - slope)
    ensures x * slope + 1.0 < x
  {
    var d := 1.0 - slope;
    var q := 1.0 / d;
    assert q * d == 1.0;
    Positive(x - q, d);
    Differences(x, q, d);
    Differences(1.0, slope, x);
  }

  lemma Positive(a: real, b: real)
    requires a > 0.0 && b > 0.0
    ensures a * b > 0.0
  {
  }

  lemma Differences(a: real, b: real, c: real)
    ensures (a - b) * c == a * c - b * c && c * (a - b) == c * a - c * b
  {
  }

  ghost predicate Increasing(adjust: real, offset: real) {
    forall f: int :: Word(f, adjust, offset) < Word(f + 1, adjust, offset)
  }

  /** Under any correction every hertz has a larger word than the one below it exactly
      if the slope is at least one count per hertz. */
  lemma IncreasingExactly(adjust: real, offset: real)
    ensures Increasing(adjust, offset) <==> Slope(adjust) >= 1.0
  {
    hide Exact, Slope, Word;
    if Slope(adjust) >= 1.0 {
      forall f: int ensures Word(f, adjust, offset) < Word(f + 1, adjust, offset) {
        ExactStep(f, adjust, offset);
        WordRounds(f, adjust, offset);
        WordRounds(f + 1, adjust, offset);
      }
    } else if Increasing(adjust, offset) {
      var n := FallsBehind(Slope(adjust));
      RisesBy(n, adjust, offset);
      ExactLine(n, adjust, offset);
      WordRounds(0, adjust, offset);
      WordRounds(n, adjust, offset);
    }
  }

  // ------------------------------------------------------------------------ the bytes

  /** The antenna bits of a command, as `antPort` chooses them. */
  predicate IsPort(port: int) {
    port == 0x40 || port == 0xC0 || port == 0x00 || port == 0x80
  }

  /** What the radio makes of the four bytes: antenna bits and frequency word. */
  function PortOf(cmd: seq<Byte>): int
    requires |cmd| >= 6
  {
    var top: int := cmd[2];
    top / 64 * 64
  }

  function WordOf(cmd: seq<Byte>): int
    requires |cmd| >= 6
  {
    var b2: int, b3: int, b4: int, b5: int := cmd[2], cmd[3], cmd[4], cmd[5];
    ((b2 % 64 * 256 + b3) * 256 + b4) * 256 + b5
  }

  /** The bytes `setvfo` writes; the antenna bits lie above the six bits they join, so
      that `|` is a sum. */
  function Overlaid(cmd: seq<Byte>, word: int, port: int): (r: seq<Byte>)
    requires |cmd| >= 6 && IsPort(port)
  {
    cmd[2 := word / 0x100_0000 % 64 + port][3 := word / 0x1_0000 % 256][4 := word / 256 % 256][5 := word % 256]
  }

  /** The antenna bits and the word do not disturb each other, whatever was in the
      command before, and the rest of it stays; the word comes through whole exactly if
      it fits 30 bits. */
  lemma BytesDecode(cmd: seq<Byte>, word: int, port: int)
    requires |cmd| >= 6 && IsPort(port) && word >= 0
    ensures var r := Overlaid(cmd, word, port);
      && |r| == |cmd| && (forall i | 0 <= i < |cmd| && !(2 <= i <= 5) :: r[i] == cmd[i])
      && PortOf(r) == port
      && WordOf(r) == word % 0x4000_0000
      && (WordOf(r) == word <==> word < 0x4000_0000)
  {
    WordParts(word);
    PortAbove(word / 0x100_0000 % 64, port);
  }

  lemma PortAbove(low: int, port: int)
    requires 0 <= low < 64 && IsPort(port)
    ensures (low + port) / 64 * 64 == port && (low + port) % 64 == low
  {
  }

  lemma WordParts(word: int)
    requires word >= 0
    ensures word / 256 / 256 == word / 0x1_0000 && word / 0x1_0000 / 256 == word / 0x100_0000
    ensures word / 0x100_0000 / 64 == word / 0x4000_0000
    ensures ((word / 0x100_0000 % 64 * 256 + word / 0x1_0000 % 256) * 256 + word / 256 % 256) * 256 + word % 256
      == word % 0x4000_0000
  {
  }

  /** The overlay of `setvfo`: the four bytes are taken off the word from the low end. */
  method Overlay(cmd: array<Byte>, freq: int, adjust: real, offset: real, port: int)
    requires cmd.Length >= 6 && IsPort(port) && Word(freq, adjust, offset) >= 0
    modifies cmd
    ensures cmd[..] == Overlaid(old(cmd[..]), Word(freq, adjust, offset), port)
    ensures PortOf(cmd[..]) == port
    ensures WordOf(cmd[..]) == Word(freq, adjust, offset) <==> Word(freq, adjust, offset) < 0x4000_0000
  {
    hide Word, PortOf, WordOf;
    ghost var before := cmd[..];
    var val := Word(freq, adjust, offset);
    WordParts(val);
    BytesDecode(before, val, port);
    cmd[5] := val % 256;
    val := val / 256;
    cmd[4] := val % 256;
    val := val / 256;
    cmd[3] := val % 256;
    val := val / 256;
    cmd[2] := val % 64 + port;
  }

  // --------------------------------------------------------- the antenna tuner's table

  /** The first two bytes of the four, as the table's entries hold them: low byte first. */
  function TopBytes(cmd: seq<Byte>): nat
    requires |cmd| >= 6
  {
    var low: int, high: int := cmd[2], cmd[3];
    high * 256 + low
  }

  function IntFreq(a: nat): nat {
    a % 64 * 256 + a / 256
  }

  function AntImpFreq(a: nat): real {
    var f := (IntFreq(a) * 0x1_0000) as real;
    if f == 0.0 then f else f / K - IF_HZ as real
  }

  lemma TopOfWord(cmd: seq<Byte>)
    requires |cmd| >= 6
    ensures IntFreq(TopBytes(cmd)) == WordOf(cmd) / 0x1_0000
  {
    var b2: int, b3: int := cmd[2], cmd[3];
    assert TopBytes(cmd) / 256 == b3;
    assert TopBytes(cmd) % 64 == b2 % 64 by {
      LowSix(b3, b2);
    }
  }

  lemma LowSix(high: int, low: int)
    ensures (high * 256 + low) % 64 == low % 64
  {
  }

  /** Read back from the top two bytes, the frequency is short by less than 65535.5
      counts and long by at most half a count, exactly if the top bits are not zero: a
      word of zero top bits reads as no frequency at all. */
  lemma TopBytesError(cmd: seq<Byte>, freq: int, port: int)
    requires |cmd| >= 6 && IsPort(port) && 0 <= Word(freq, 0.0, 0.0) < 0x4000_0000
    ensures var short := freq as real - AntImpFreq(TopBytes(Overlaid(cmd, Word(freq, 0.0, 0.0), port)));
      -0.5 / K <= short < 65535.5 / K <==> Word(freq, 0.0, 0.0) >= 0x1_0000
  {
    hide Exact, Word, Overlaid, TopBytes, PortOf, WordOf, IntFreq;
    var word := Word(freq, 0.0, 0.0);
    var r := Overlaid(cmd, word, port);
    BytesDecode(cmd, word, port);
    TopOfWord(r);
    WordRounds(freq, 0.0, 0.0);
    Uncorrected(freq);
    assert word % 0x1_0000 == word - word / 0x1_0000 * 0x1_0000;
  }
}
