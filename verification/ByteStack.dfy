/** `class cStack`: the bounded stack on which telemetry waits for the display. */
module ByteStack {
  import opened CArithmetic

  /** A push onto a full stack does nothing. */
  function Pushed(s: seq<Byte>, size: nat, val: Byte): seq<Byte> {
    if |s| < size then s + [val] else s
  }

  function PushedAll(s: seq<Byte>, size: nat, vals: seq<Byte>): seq<Byte> {
    if vals == [] then s else Pushed(PushedAll(s, size, vals[..|vals| - 1]), size, vals[|vals| - 1])
  }

  /** A run of pushes keeps the stack below and adds, in order, as many as there is room for. */
  lemma {:induction false} PushedAllFits(s: seq<Byte>, size: nat, vals: seq<Byte>)
    requires |s| <= size
    ensures PushedAll(s, size, vals) == s + (if |s| + |vals| <= size then vals else vals[..size - |s|])
    decreases vals
  {
    if vals == [] {
    } else {
      PushedAllFits(s, size, vals[..|vals| - 1]);
    }
  }

  class CStack {
    const size: nat
    const stackPtr: array<Byte>
    var top: int

    ghost predicate Valid()
      reads this
    {
      0 < size == stackPtr.Length && -1 <= top < size
    }

    function Contents(): (s: seq<Byte>)
      requires Valid()
      reads this, stackPtr
      ensures |s| <= size
    {
      stackPtr[..top + 1]
    }

    constructor (s: int)
      ensures Valid() && fresh(stackPtr) && Contents() == [] && size == if s > 0 then s else 50
    {
      size := if s > 0 then s else 50;
      top := -1;
      stackPtr := new Byte[if s > 0 then s else 50](_ => 0);
    }

    method Push(val: Byte) returns (ok: bool)
      requires Valid()
      modifies this`top, stackPtr
      ensures Valid() && Contents() == Pushed(old(Contents()), size, val)
      ensures ok <==> |old(Contents())| < size
    {
      if top != size - 1 {
        top := top + 1;
        stackPtr[top] := val;
        return true;
      }
      return false;
    }

    method Pop() returns (ok: bool, val: Byte)
      requires Valid()
      modifies this`top
      ensures Valid() && (ok <==> old(Contents()) != [])
      ensures if ok then old(Contents()) == Contents() + [val] else Contents() == []
    {
      val := 0;
      if top != -1 {
        val := stackPtr[top];
        top := top - 1;
        return true, val;
      }
      return false, val;
    }
  }
}
