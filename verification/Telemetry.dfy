/** `parseTelemetry`: the display empties the telemetry stack, newest byte first. */
module Telemetry {
  import opened CArithmetic
  import opened ByteStack

  /** What the display is told to show; the last two blank the idle meters. */
  datatype Shown = Signal(v: int) | Squelch(v: int) | Alc(v: int) | Power(v: int) | Swr(v: int)
    | Alarm | Temperature(v: int) | BlankTransmit | BlankSignal

  datatype Meters = Meters(smeter: bool, power: bool, shown: seq<Shown>)

  predicate IsReceive(b: Byte) { b < 128 }

  predicate IsTransmit(b: Byte) { 130 <= b < 215 }

  function Value(b: Byte): seq<Shown> {
    if b < 128 then [Signal(b)]
    else if b < 130 then [Squelch(b)]
    else if b < 140 then [Alc(b - 130)]
    else if b < 190 then [Power(b - 140)]
    else if b < 215 then [Swr(b - 190)]
    else if b == 215 then [Alarm]
    else if 219 < b < 250 then [Temperature(b)]
    else []
  }

  /** The byte by which the radio sends a reading to its meter. */
  function Sent(s: Shown): int {
    match s
    case Signal(v) => v
    case Squelch(v) => v
    case Alc(v) => 130 + v
    case Power(v) => 140 + v
    case Swr(v) => 190 + v
    case Alarm => 215
    case Temperature(v) => v
    case BlankTransmit => -1
    case BlankSignal => -1
  }

  /** The readings a meter can be sent. */
  predicate OnScale(s: Shown) {
    match s
    case Signal(v) => 0 <= v < 128
    case Squelch(v) => 128 <= v < 130
    case Alc(v) => 0 <= v < 10
    case Power(v) => 0 <= v < 50
    case Swr(v) => 0 <= v < 25
    case Alarm => true
    case Temperature(v) => 220 <= v < 250
    case BlankTransmit => false
    case BlankSignal => false
  }

  /** A byte shows the one reading that was sent by it, or nothing if none was. */
  lemma ValueIsSent(b: Byte, s: Shown)
    ensures Value(b) == [s] <==> OnScale(s) && Sent(s) == b
    ensures |Value(b)| <= 1
    ensures Value(b) == [] <==> 216 <= b < 220 || 250 <= b
  {
  }

  function ShowByte(m: Meters, b: Byte): Meters {
    if IsReceive(b) then Meters(true, false, m.shown + Value(b) + if m.power then [BlankTransmit] else [])
    else if IsTransmit(b) && m.smeter then Meters(false, true, m.shown + Value(b) + [BlankSignal])
    else m.(shown := m.shown + Value(b))
  }

  /** The bytes of the stack, from the top down. */
  function ShowAll(m: Meters, stack: seq<Byte>): Meters
    decreases stack
  {
    if stack == [] then m else ShowAll(ShowByte(m, stack[|stack| - 1]), stack[..|stack| - 1])
  }

  /** One of the two meters is active, always. */
  predicate OneActive(m: Meters) {
    m.smeter != m.power
  }

  lemma {:induction false} ShowKeepsOne(m: Meters, stack: seq<Byte>)
    requires OneActive(m)
    ensures OneActive(ShowAll(m, stack)) && m.shown <= ShowAll(m, stack).shown
    decreases stack
  {
    hide Value;
    if stack == [] {
    } else {
      ShowKeepsOne(ShowByte(m, stack[|stack| - 1]), stack[..|stack| - 1]);
    }
  }

  /** The bytes are shown in the order of the stack, so what is left on display in the
      end belongs to the oldest of them: its meter is the active one. */
  lemma {:induction false} OldestDecides(m: Meters, stack: seq<Byte>, k: nat)
    requires OneActive(m) && k < |stack| && (IsReceive(stack[k]) || IsTransmit(stack[k]))
    requires forall i | 0 <= i < k :: !IsReceive(stack[i]) && !IsTransmit(stack[i])
    ensures ShowAll(m, stack).smeter <==> IsReceive(stack[k])
    decreases stack
  {
    hide Value;
    var m', rest := ShowByte(m, stack[|stack| - 1]), stack[..|stack| - 1];
    if k < |rest| {
      OldestDecides(m', rest, k);
    } else {
      NoMeters(m', rest);
    }
  }

  lemma {:induction false} NoMeters(m: Meters, stack: seq<Byte>)
    requires forall i | 0 <= i < |stack| :: !IsReceive(stack[i]) && !IsTransmit(stack[i])
    ensures ShowAll(m, stack).smeter == m.smeter && ShowAll(m, stack).power == m.power
    decreases stack
  {
    hide Value;
    if stack == [] {
    } else {
      NoMeters(ShowByte(m, stack[|stack| - 1]), stack[..|stack| - 1]);
    }
  }

  predicate IsReading(s: Shown) {
    s != BlankTransmit && s != BlankSignal
  }

  /** What was shown, less the blanking of idle meters. */
  function Readings(shown: seq<Shown>): seq<Shown> {
    if shown == [] then []
    else Readings(shown[..|shown| - 1]) + if IsReading(shown[|shown| - 1]) then [shown[|shown| - 1]] else []
  }

  lemma {:induction false} ReadingsConcat(a: seq<Shown>, b: seq<Shown>)
    ensures Readings(a + b) == Readings(a) + Readings(b)
    decreases b
  {
    if b == [] {
      assert a + b == a;
    } else {
      assert (a + b)[..|a + b| - 1] == a + b[..|b| - 1];
      ReadingsConcat(a, b[..|b| - 1]);
    }
  }

  function ReadingsOf(stack: seq<Byte>): seq<Shown>
    decreases stack
  {
    if stack == [] then [] else Value(stack[|stack| - 1]) + ReadingsOf(stack[..|stack| - 1])
  }

  lemma OneReading(x: Shown)
    ensures Readings([x]) == if IsReading(x) then [x] else []
  {
    assert [x][..0] == [];
  }

  lemma ValueReadings(b: Byte)
    ensures Readings(Value(b)) == Value(b)
  {
    hide Readings;
    if Value(b) == [] {
      NoReadings();
    } else {
      assert Value(b) == [Value(b)[0]];
      OneReading(Value(b)[0]);
    }
  }

  lemma NoReadings()
    ensures Readings([]) == []
  {
  }

  lemma ByteReadings(m: Meters, b: Byte)
    ensures Readings(ShowByte(m, b).shown) == Readings(m.shown) + Value(b)
  {
    hide Readings, Value;
    var blank := if IsReceive(b) && m.power then [BlankTransmit]
      else if IsTransmit(b) && m.smeter then [BlankSignal] else [];
    assert ShowByte(m, b).shown == m.shown + Value(b) + blank;
    ReadingsConcat(m.shown + Value(b), blank);
    ReadingsConcat(m.shown, Value(b));
    OneReading(BlankTransmit);
    OneReading(BlankSignal);
    NoReadings();
    ValueReadings(b);
  }

  /** The readings shown are those of all bytes of the stack, from the top down. */
  lemma {:induction false} ShowsReadings(m: Meters, stack: seq<Byte>)
    ensures Readings(ShowAll(m, stack).shown) == Readings(m.shown) + ReadingsOf(stack)
    decreases stack
  {
    hide ShowByte, Value, Readings;
    if stack == [] {
    } else {
      ByteReadings(m, stack[|stack| - 1]);
      ShowsReadings(ShowByte(m, stack[|stack| - 1]), stack[..|stack| - 1]);
    }
  }

  /** A meter is blanked exactly when it goes idle, behind the reading that makes it so. */
  lemma BlanksIdle(m: Meters, b: Byte)
    requires OneActive(m)
    ensures var m' := ShowByte(m, b);
      && m'.smeter == (b < 128 || (m.smeter && !(130 <= b < 215)))
      && m'.shown == m.shown + Value(b) + (if m.power && !m'.power then [BlankTransmit]
                                           else if m.smeter && !m'.smeter then [BlankSignal] else [])
  {
    hide Value;
  }

  class Display {
    var smeterActive: bool
    var pwrmtrActive: bool
    /** Everything shown so far. */
    var shown: seq<Shown>

    function View(): Meters
      reads this
    {
      Meters(smeterActive, pwrmtrActive, shown)
    }

    constructor ()
      ensures View() == Meters(true, false, []) && OneActive(View())
    {
      smeterActive, pwrmtrActive, shown := true, false, [];
    }

    method Parse(commstack: CStack)
      requires commstack.Valid() && OneActive(View())
      modifies this, commstack`top
      ensures commstack.Valid() && commstack.Contents() == []
      ensures View() == ShowAll(old(View()), old(commstack.Contents())) && OneActive(View())
    {
      hide Value, ShowByte;
      ShowKeepsOne(View(), commstack.Contents());
      ghost var m, s := View(), commstack.Contents();
      var found, data := commstack.Pop();
      while found
        invariant commstack.Valid()
        invariant ShowAll(m, s) == ShowAll(View(), if found then commstack.Contents() + [data] else [])
        invariant !found ==> commstack.Contents() == []
        decreases |commstack.Contents()|, found
      {
        assert (commstack.Contents() + [data])[..|commstack.Contents()|] == commstack.Contents();
        ParseByte(data);
        found, data := commstack.Pop();
      }
    }

    method ParseByte(data: Byte)
      modifies this
      ensures View() == ShowByte(old(View()), data)
    {
      if data < 130 {
        shown := shown + Value(data);
        if data < 128 {
          smeterActive := true;
          if pwrmtrActive {
            pwrmtrActive := false;
            shown := shown + [BlankTransmit];
          }
        }
      } else {
        shown := shown + Value(data);
      }
      if data > 129 && data < 215 {
        if smeterActive {
          shown := shown + [BlankSignal];
          smeterActive := false;
          pwrmtrActive := true;
        }
      }
    }
  }
}
