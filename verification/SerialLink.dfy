/** `sendCmd`: a command is written, and the bytes that come back are read until one of
    them acknowledges it. */
module SerialLink {
  import opened CArithmetic
  import opened ByteStack

  const MAXTRIES := 2
  const LOOPS := 50
  const STX: Byte := 0x02
  const ETX: Byte := 0x03
  const ACCEPTED: Byte := 0xFF
  const REJECTED: Byte := 0xFE

  datatype Verdict = OK | REJ | FAIL

  /** Where the loops of `sendCmd` stand. */
  datatype Phase = Writing(tries: nat) | Reading(tries: nat, loops: nat) | Done(verdict: Verdict)

  predicate IsAck(b: Byte) { b == ACCEPTED || b == REJECTED }

  function VerdictOf(b: Byte): Verdict
    requires IsAck(b)
  {
    if b == ACCEPTED then OK else REJ
  }

  predicate InLoops(p: Phase) {
    match p
    case Writing(t) => t < MAXTRIES
    case Reading(t, l) => t < MAXTRIES && l < LOOPS
    case Done(_) => true
  }

  function NextTry(tries: nat): Phase {
    if tries + 1 < MAXTRIES then Writing(tries + 1) else Done(FAIL)
  }

  function AfterWrite(p: Phase, full: bool): Phase
    requires p.Writing?
  {
    if full then Reading(p.tries, 0) else NextTry(p.tries)
  }

  function AfterRead(p: Phase, b: Byte): Phase
    requires p.Reading?
  {
    if IsAck(b) then Done(VerdictOf(b))
    else if p.loops + 1 < LOOPS then Reading(p.tries, p.loops + 1)
    else NextTry(p.tries)
  }

  /** How much of the loops is left: writes, and reads. */
  function WritesLeft(p: Phase): nat
    requires InLoops(p)
  {
    match p
    case Writing(t) => MAXTRIES - t
    case Reading(t, l) => MAXTRIES - 1 - t
    case Done(_) => 0
  }

  function ReadsLeft(p: Phase): nat
    requires InLoops(p)
  {
    match p
    case Writing(t) => (MAXTRIES - t) * LOOPS
    case Reading(t, l) => (MAXTRIES - 1 - t) * LOOPS + LOOPS - l
    case Done(_) => 0
  }

  /** The outcome: the verdict, the next write and read to come on the line, and what
      goes onto the telemetry stack. */
  datatype Sent = Sent(verdict: Verdict, wrote: nat, got: nat, pushes: seq<Byte>)

  /** `sendCmd` from a phase on. `goes(i)` tells if write number `i` on the line is
      complete, and `line(i)` is the byte of read number `i`, 0 after a timeout. */
  function Send(p: Phase, goes: nat -> bool, line: nat -> Byte, w: nat, r: nat): Sent
    requires InLoops(p)
    decreases WritesLeft(p), ReadsLeft(p)
  {
    match p
    case Done(v) => Sent(v, w, r, [])
    case Writing(_) => Send(AfterWrite(p, goes(w)), goes, line, w + 1, r)
    case Reading(_, _) =>
      var rest := Send(AfterRead(p, line(r)), goes, line, w, r + 1);
      if IsAck(line(r)) then rest else rest.(pushes := [line(r)] + rest.pushes)
  }

  /** Every byte read, from number `r` on, is either the acknowledgement, which comes last
      and is the verdict, or is pushed, in order. */
  predicate Accounted(s: Sent, line: nat -> Byte, r: nat) {
    && s.got == r + |s.pushes| + (if s.verdict == FAIL then 0 else 1)
    && (forall k | 0 <= k < |s.pushes| :: s.pushes[k] == line(r + k) && !IsAck(s.pushes[k]))
    && (s.verdict != FAIL ==> IsAck(line(s.got - 1)) && s.verdict == VerdictOf(line(s.got - 1)))
  }

  lemma AccountedNext(s: Sent, line: nat -> Byte, r: nat)
    requires Accounted(s, line, r + 1) && !IsAck(line(r))
    ensures Accounted(Continued([line(r)], s), line, r)
  {
    hide IsAck, VerdictOf;
    var s' := Continued([line(r)], s);
    forall k | 0 <= k < |s'.pushes| ensures s'.pushes[k] == line(r + k) && !IsAck(s'.pushes[k]) {
      if k > 0 {
        assert s'.pushes[k] == s.pushes[k - 1] == line(r + 1 + (k - 1));
      }
    }
  }

  /** Whatever the line does, at most 2 writes and 100 reads are made, and every byte read
      is accounted for. */
  lemma {:induction false} SendBounds(p: Phase, goes: nat -> bool, line: nat -> Byte, w: nat, r: nat)
    requires InLoops(p) && (p.Done? ==> p.verdict == FAIL)
    ensures var s := Send(p, goes, line, w, r);
      && w <= s.wrote <= w + WritesLeft(p) && r <= s.got <= r + ReadsLeft(p)
      && Accounted(s, line, r)
    decreases WritesLeft(p), ReadsLeft(p)
  {
    hide VerdictOf, IsAck, Accounted;
    match p
    case Done(_) =>
      Nothing(line, w, r);
    case Writing(t) =>
      SendBounds(AfterWrite(p, goes(w)), goes, line, w + 1, r);
    case Reading(t, l) =>
      UnfoldRead(p, goes, line, w, r);
      var p' := AfterRead(p, line(r));
      if IsAck(line(r)) {
        AckOnly(line, w, r);
        SendDone(VerdictOf(line(r)), goes, line, w, r + 1);
      } else {
        SendBounds(p', goes, line, w, r + 1);
        AccountedNext(Send(p', goes, line, w, r + 1), line, r);
      }
  }

  lemma Nothing(line: nat -> Byte, w: nat, r: nat)
    ensures Accounted(Sent(FAIL, w, r, []), line, r)
  {
  }

  lemma AckOnly(line: nat -> Byte, w: nat, r: nat)
    requires IsAck(line(r))
    ensures Accounted(Sent(VerdictOf(line(r)), w, r + 1, []), line, r)
  {
  }

  predicate Full(goes: nat -> bool, w: nat) {
    forall i | w <= i < w + MAXTRIES :: goes(i)
  }

  /** If the writes are complete, the verdict is exactly that of the first acknowledgement on
      the line, if one comes among the next 100 bytes; the command is written a second
      time exactly if none is among the next 50. */
  lemma SendExactly(goes: nat -> bool, line: nat -> Byte, w: nat, r: nat, k: nat)
    requires Full(goes, w)
    requires forall j | r <= j < r + k :: !IsAck(line(j))
    requires k < MAXTRIES * LOOPS ==> IsAck(line(r + k))
    ensures var s := Send(Writing(0), goes, line, w, r);
      if k < MAXTRIES * LOOPS then
        s.verdict == VerdictOf(line(r + k)) && s.got == r + k + 1 && s.wrote == (if k < LOOPS then w + 1 else w + 2)
      else
        s.verdict == FAIL && s.got == r + MAXTRIES * LOOPS && s.wrote == w + 2
  {
    hide VerdictOf, IsAck, Send;
    UnfoldWrite(Writing(0), goes, line, w, r);
    SendReads(0, 0, goes, line, w + 1, r, if k < LOOPS then k else LOOPS);
    if k >= LOOPS {
      UnfoldWrite(Writing(1), goes, line, w + 1, r + LOOPS);
      SendReads(1, 0, goes, line, w + 2, r + LOOPS, if k < 2 * LOOPS then k - LOOPS else LOOPS);
      SendDone(FAIL, goes, line, w + 2, r + 2 * LOOPS);
    }
  }

  lemma UnfoldWrite(p: Phase, goes: nat -> bool, line: nat -> Byte, w: nat, r: nat)
    requires InLoops(p) && p.Writing?
    ensures InLoops(AfterWrite(p, goes(w)))
    ensures Send(p, goes, line, w, r) == Send(AfterWrite(p, goes(w)), goes, line, w + 1, r)
  {
  }

  lemma SendDone(v: Verdict, goes: nat -> bool, line: nat -> Byte, w: nat, r: nat)
    ensures Send(Done(v), goes, line, w, r) == Sent(v, w, r, [])
  {
  }

  /** The inner loop over `n` bytes that acknowledge nothing, and the next one if it does. */
  lemma {:induction false} SendReads(t: nat, l: nat, goes: nat -> bool, line: nat -> Byte, w: nat, r: nat, n: nat)
    requires t < MAXTRIES && l < LOOPS && l + n <= LOOPS
    requires forall j | r <= j < r + n :: !IsAck(line(j))
    requires l + n < LOOPS ==> IsAck(line(r + n))
    ensures InLoops(NextTry(t))
    ensures var s := Send(Reading(t, l), goes, line, w, r);
      if l + n < LOOPS then s.verdict == VerdictOf(line(r + n)) && s.got == r + n + 1 && s.wrote == w
      else
        var s' := Send(NextTry(t), goes, line, w, r + n);
        s.verdict == s'.verdict && s.got == s'.got && s.wrote == s'.wrote
    decreases n
  {
    hide VerdictOf, IsAck;
    if n > 0 && l + 1 < LOOPS {
      SendReads(t, l + 1, goes, line, w, r + 1, n - 1);
    }
  }

  function Named(v: Verdict): string {
    match v case OK => "OK" case REJ => "REJ" case FAIL => "FAIL"
  }

  /** A command's bytes behind their count, as they go out. */
  function Framed(str: seq<Byte>): seq<Byte>
    requires str != [] && str[0] < |str|
  {
    [STX] + str[1..str[0] + 1] + [ETX]
  }

  /** Commands of two bytes and of one on the wire, and the texts of the three verdicts. */
  lemma FrameAndTexts(a: Byte, b: Byte)
    ensures Framed([2, a, b]) == [0x02, a, b, 0x03] && Framed([1, a, b]) == [0x02, a, 0x03]
    ensures Named(OK) == "OK" && Named(REJ) == "REJ" && Named(FAIL) == "FAIL"
    ensures VerdictOf(0xFF) == OK && VerdictOf(0xFE) == REJ
  {
  }

  function Repeated(frame: seq<Byte>, n: nat): seq<seq<Byte>> {
    if n == 0 then [] else Repeated(frame, n - 1) + [frame]
  }

  class Link {
    const testing: bool
    const commstack: CStack
    const goes: nat -> bool
    const line: nat -> Byte
    var frames: seq<seq<Byte>>
    var written: nat
    var got: nat
    var retval: string
    var watchdog: int

    constructor (testing: bool, commstack: CStack, goes: nat -> bool, line: nat -> Byte)
      ensures this.testing == testing && this.commstack == commstack && this.goes == goes && this.line == line
      ensures written == got == 0 && frames == []
    {
      this.testing, this.commstack, this.goes, this.line := testing, commstack, goes, line;
      frames, written, got, retval, watchdog := [], 0, 0, "", 150;
    }

    method WriteBuffer(sendbuff: array<Byte>) returns (full: bool)
      modifies this`written, this`frames
      ensures full == goes(old(written)) && written == old(written) + 1 && frames == old(frames) + [sendbuff[..]]
    {
      full := goes(written);
      frames := frames + [sendbuff[..]];
      written := written + 1;
    }

    /** A timeout leaves the 0 that was in the buffer. */
    method ReadBuffer() returns (b: Byte)
      modifies this`got
      ensures b == line(old(got)) && got == old(got) + 1
    {
      b := line(got);
      got := got + 1;
    }

    /** `sendCmd` of a string that begins with its length. */
    method SendCmd(str: seq<Byte>) returns (ret: bool)
      requires commstack.Valid() && str != [] && str[0] < |str|
      modifies this`frames, this`written, this`got, this`retval, this`watchdog, commstack`top, commstack.stackPtr
      ensures commstack.Valid()
      ensures testing ==> ret && retval == "TESTING" && written == old(written) && got == old(got)
      ensures testing ==> commstack.Contents() == old(commstack.Contents())
      ensures testing ==> frames == old(frames) && watchdog == old(watchdog)
      ensures !testing ==>
        var s := Send(Writing(0), goes, line, old(written), old(got));
        && ret == (s.verdict == OK) && retval == Named(s.verdict) && written == s.wrote && got == s.got
        && s.wrote >= old(written) && frames == old(frames) + Repeated(Framed(str), s.wrote - old(written))
        && watchdog == 1500
        && commstack.Contents() == PushedAll(old(commstack.Contents()), commstack.size, s.pushes)
    {
      hide PushedAll, Named, Send, Framed, Repeated, InLoops, WritesLeft, ReadsLeft, Accounted;
      if testing {
        retval := "TESTING";
        return true;
      }
      var sendbuff := CommandString(str);
      var verdict := Tries(sendbuff);
      retval := Named(verdict);
      ret := verdict == OK;
      watchdog := 1500;
    }

    /** The command between its framing bytes. */
    method CommandString(str: seq<Byte>) returns (sendbuff: array<Byte>)
      requires str != [] && str[0] < |str|
      ensures fresh(sendbuff) && sendbuff[..] == Framed(str)
    {
      var len: int := str[0];
      sendbuff := new Byte[len + 2](_ => 0);
      sendbuff[0] := STX;
      for n := 1 to len + 1
        invariant sendbuff[0] == STX && forall k | 1 <= k < n :: sendbuff[k] == str[k]
      {
        sendbuff[n] := str[n];
      }
      sendbuff[len + 1] := ETX;
    }

    /** The outer loop. */
    method Tries(sendbuff: array<Byte>) returns (verdict: Verdict)
      requires commstack.Valid() && sendbuff != commstack.stackPtr
      modifies this`frames, this`written, this`got, commstack`top, commstack.stackPtr
      ensures commstack.Valid() && written >= old(written)
      ensures frames == old(frames) + Repeated(old(sendbuff[..]), written - old(written))
      ensures var s := Send(Writing(0), goes, line, old(written), old(got));
        && verdict == s.verdict && written == s.wrote && got == s.got
        && commstack.Contents() == PushedAll(old(commstack.Contents()), commstack.size, s.pushes)
    {
      hide PushedAll, Pushed, IsAck, VerdictOf, Send;
      ghost var all := Send(Writing(0), goes, line, written, got);
      ghost var pushed: seq<Byte> := [];
      ghost var p := Writing(0);
      NothingPushed(commstack.Contents(), commstack.size);
      assert all == Continued(pushed, Send(p, goes, line, written, got));
      var i := 0;
      while i < MAXTRIES
        invariant i <= MAXTRIES && p == (if i < MAXTRIES then Writing(i) else Done(FAIL)) && commstack.Valid()
        invariant all == Continued(pushed, Send(p, goes, line, written, got))
        invariant written >= old(written) && frames == old(frames) + Repeated(sendbuff[..], written - old(written))
        invariant commstack.Contents() == PushedAll(old(commstack.Contents()), commstack.size, pushed)
      {
        UnfoldWrite(p, goes, line, written, got);
        var full := WriteBuffer(sendbuff);
        if full {
          ghost var more;
          more, p, verdict := Loops(i, old(commstack.Contents()), pushed);
          assert all == Continued(pushed + more, Send(p, goes, line, written, got)) by {
            ContinuedTwice(pushed, more, Send(p, goes, line, written, got));
          }
          pushed := pushed + more;
          if verdict != FAIL {
            assert pushed + [] == pushed;
            SendDone(verdict, goes, line, written, got);
            return;
          }
        } else {
          p := NextTry(i);
        }
        i := i + 1;
      }
      assert pushed + [] == pushed;
      SendDone(FAIL, goes, line, written, got);
      verdict := FAIL;
    }

    /** The inner loop; the ghost results are what it pushed and where it leads. */
    method Loops(i: nat, ghost before: seq<Byte>, ghost pushed: seq<Byte>)
      returns (ghost more: seq<Byte>, ghost p: Phase, verdict: Verdict)
      requires commstack.Valid() && i < MAXTRIES
      requires commstack.Contents() == PushedAll(before, commstack.size, pushed)
      modifies this`got, commstack`top, commstack.stackPtr
      ensures commstack.Valid() && commstack.Contents() == PushedAll(before, commstack.size, pushed + more)
      ensures p == (if verdict == FAIL then NextTry(i) else Done(verdict))
      ensures Send(Reading(i, 0), goes, line, written, old(got)) == Continued(more, Send(p, goes, line, written, got))
    {
      hide PushedAll, Pushed, IsAck, VerdictOf, Send;
      ghost var all := Send(Reading(i, 0), goes, line, written, got);
      more, p := [], Reading(i, 0);
      var loopcnt := 0;
      assert pushed + more == pushed;
      while true
        invariant loopcnt < LOOPS && p == Reading(i, loopcnt) && commstack.Valid()
        invariant all == Continued(more, Send(p, goes, line, written, got))
        invariant commstack.Contents() == PushedAll(before, commstack.size, pushed + more)
        decreases LOOPS - loopcnt
      {
        UnfoldRead(p, goes, line, written, got);
        var b := ReadBuffer();
        p := AfterRead(p, b);
        if b == 0xFF || b == 0xFE {
          AckEnds(b);
          verdict := if b == 0xFF then OK else REJ;
          return;
        }
        NoAck(b);
        var ok := commstack.Push(b);
        PushedNext(before, commstack.size, pushed, more, b);
        ContinuedTwice(more, [b], Send(p, goes, line, written, got));
        more := more + [b];
        loopcnt := loopcnt + 1;
        if loopcnt >= LOOPS { break; }
      }
      verdict := FAIL;
    }
  }

  /** An outcome with pushes that came before. */
  function Continued(pushed: seq<Byte>, s: Sent): Sent {
    s.(pushes := pushed + s.pushes)
  }

  lemma ContinuedTwice(a: seq<Byte>, b: seq<Byte>, s: Sent)
    ensures Continued(a, Continued(b, s)) == Continued(a + b, s)
  {
    assert a + (b + s.pushes) == a + b + s.pushes;
  }

  lemma UnfoldRead(p: Phase, goes: nat -> bool, line: nat -> Byte, w: nat, r: nat)
    requires InLoops(p) && p.Reading?
    ensures InLoops(AfterRead(p, line(r)))
    ensures var s' := Send(AfterRead(p, line(r)), goes, line, w, r + 1);
      Send(p, goes, line, w, r) == if IsAck(line(r)) then s' else Continued([line(r)], s')
  {
  }

  lemma AckEnds(b: Byte)
    requires b == 0xFF || b == 0xFE
    ensures IsAck(b) && VerdictOf(b) == if b == 0xFF then OK else REJ
  {
  }

  lemma NoAck(b: Byte)
    requires b != 0xFF && b != 0xFE
    ensures !IsAck(b)
  {
  }

  lemma NothingPushed(s: seq<Byte>, size: nat)
    ensures PushedAll(s, size, []) == s
  {
  }

  lemma PushedNext(before: seq<Byte>, size: nat, pushed: seq<Byte>, more: seq<Byte>, b: Byte)
    ensures PushedAll(before, size, pushed + (more + [b])) == Pushed(PushedAll(before, size, pushed + more), size, b)
  {
    var all := pushed + (more + [b]);
    assert all[..|all| - 1] == pushed + more;
  }
}
