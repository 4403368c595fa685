/** The threads that share the serial line with the radio: commands wait for their
    acknowledgement among unasked telemetry, under one mutex. */
module RadioThreads {
  import opened CArithmetic
  import opened ByteStack
  import opened SerialLink

  datatype Holder = Free | Telemetry | Command

  /** The telemetry thread between its steps: it may still hold a byte to be pushed. */
  datatype Local = Waiting | Locked | Has(b: Byte)

  const STACK := 1000

  /** An acknowledgement that the radio owes: how many other reads may still come before
      it, and what it will say. */
  datatype Due = Due(left: nat, accepts: bool)

  /** The mutex's holder, what each thread is at, and the radio: `owed` holds an
      acknowledgement for every write it has not yet answered, the oldest first.
      `ledger` records for each finished command what the radio's answer was and what
      `sendCmd` made of it. `arrived` collects the telemetry bytes read, and a 0 for every
      timeout of a command; `popped` and `dropped` what left the stack or found no room.
      `wrote` and `bytes` are the writes and reads of the command that holds the mutex. */
  datatype World = World(
    holder: Holder,
    accepts: bool,
    phase: Phase,
    owed: seq<Due>,
    local: Local,
    stack: seq<Byte>,
    ledger: seq<(bool, Verdict)>,
    arrived: multiset<Byte>,
    popped: multiset<Byte>,
    dropped: multiset<Byte>,
    wrote: nat,
    bytes: seq<Byte>)

  const START := World(Free, false, Done(FAIL), [], Waiting, [], [], multiset{}, multiset{}, multiset{}, 0, [])

  /** What one read brings. */
  datatype Heard = Silence | Data(b: Byte) | Ack

  /** The steps of the threads. `CommandLock` begins a `sendCmd`, whose answer the radio
      decides; `CommandWrite` is a complete write, which the radio answers, behind what it
      owes already, with at most `within` other reads before. */
  datatype Step =
    | TelemetryLock | TelemetryRead(h: Heard) | TelemetryPush
    | CommandLock(accepts: bool) | CommandWrite(within: nat) | CommandRead(h: Heard) | CommandUnlock
    | DisplayPop

  function AnswerOf(accepts: bool): Byte { if accepts then ACCEPTED else REJECTED }

  /** The byte a read leaves in the buffer. */
  function ByteOf(w: World, h: Heard): Byte
    requires h == Ack ==> w.owed != []
  {
    match h
    case Silence => 0
    case Data(b) => b
    case Ack => AnswerOf(w.owed[0].accepts)
  }

  /** No acknowledgement is overdue. */
  predicate InTime(owed: seq<Due>) {
    forall i | 0 <= i < |owed| :: owed[i].left > 0
  }

  /** The radio sends its acknowledgements in time, and no telemetry that looks like one. */
  predicate Honest(w: World, h: Heard) {
    match h
    case Ack => true
    case Silence => InTime(w.owed)
    case Data(b) => !IsAck(b) && InTime(w.owed)
  }

  function Later(owed: seq<Due>): seq<Due> {
    seq(|owed|, i requires 0 <= i < |owed| => owed[i].(left := if owed[i].left > 0 then owed[i].left - 1 else 0))
  }

  /** One read, as far as the radio goes. */
  function Owed(w: World, h: Heard): seq<Due>
    requires h == Ack ==> w.owed != []
  {
    if h == Ack then w.owed[1..] else Later(w.owed)
  }

  function Push(w: World, b: Byte): World {
    w.(stack := Pushed(w.stack, STACK, b), dropped := if |w.stack| < STACK then w.dropped else w.dropped + multiset{b})
  }

  /** The telemetry thread's read; it unlocks behind it. */
  function Listened(w: World, h: Heard): World
    requires h == Ack ==> w.owed != []
  {
    var w1 := w.(holder := Free, owed := Owed(w, h));
    if h == Silence then w1.(local := Waiting)
    else w1.(local := Has(ByteOf(w, h)), arrived := w.arrived + multiset{ByteOf(w, h)})
  }

  /** A command's read, up to the push. */
  function Looped(w: World, h: Heard): World
    requires w.phase.Reading? && (h == Ack ==> w.owed != [])
  {
    var w1 := w.(phase := AfterRead(w.phase, ByteOf(w, h)), owed := Owed(w, h), bytes := w.bytes + [ByteOf(w, h)]);
    if IsAck(ByteOf(w, h)) then w1 else w1.(arrived := w.arrived + multiset{ByteOf(w, h)})
  }

  /** Is the step one that its thread can take? What is not owed cannot be read as an
      acknowledgement of the radio. */
  predicate Enabled(w: World, e: Step) {
    match e
    case TelemetryLock => w.holder == Free && w.local == Waiting
    case TelemetryRead(h) => w.holder == Telemetry && w.local == Locked && (h == Ack ==> w.owed != [])
    case TelemetryPush => w.local.Has?
    case CommandLock(_) => w.holder == Free
    case CommandWrite(_) => w.holder == Command && w.phase.Writing?
    case CommandRead(h) => w.holder == Command && w.phase.Reading? && (h == Ack ==> w.owed != [])
    case CommandUnlock => w.holder == Command && w.phase.Done?
    case DisplayPop => w.stack != []
  }

  /** The assumptions on the line and the radio: fewer than `limit` other reads come
      before an acknowledgement. */
  predicate Fair(w: World, e: Step, limit: nat) {
    match e
    case CommandWrite(within) => within < limit
    case TelemetryRead(h) => Honest(w, h)
    case CommandRead(h) => Honest(w, h)
    case _ => true
  }

  function Next(w: World, e: Step): World
    requires Enabled(w, e)
  {
    match e
    case TelemetryLock => w.(holder := Telemetry, local := Locked)
    case TelemetryRead(h) => Listened(w, h)
    case TelemetryPush => Push(w, w.local.b).(local := Waiting)
    case CommandLock(accepts) => w.(holder := Command, accepts := accepts, phase := Writing(0), wrote := 0, bytes := [])
    case CommandWrite(within) =>
      w.(phase := AfterWrite(w.phase, true), owed := w.owed + [Due(within, w.accepts)], wrote := w.wrote + 1)
    case CommandRead(h) => if IsAck(ByteOf(w, h)) then Looped(w, h) else Push(Looped(w, h), ByteOf(w, h))
    case CommandUnlock => w.(holder := Free, ledger := w.ledger + [(w.accepts, w.phase.verdict)])
    case DisplayPop =>
      w.(stack := w.stack[..|w.stack| - 1], popped := w.popped + multiset{w.stack[|w.stack| - 1]})
  }

  /** A run: steps that are taken as their threads can. */
  predicate Possible(w: World, es: seq<Step>)
    decreases es
  {
    es == [] || (Enabled(w, es[0]) && Possible(Next(w, es[0]), es[1..]))
  }

  predicate FairAlong(w: World, es: seq<Step>, limit: nat)
    requires Possible(w, es)
    decreases es
  {
    es == [] || (Fair(w, es[0], limit) && FairAlong(Next(w, es[0]), es[1..], limit))
  }

  function Run(w: World, es: seq<Step>): World
    requires Possible(w, es)
    decreases es
  {
    if es == [] then w else Run(Next(w, es[0]), es[1..])
  }

  // ------------------------------------------------------ acknowledgements keep their order

  function Answers(owed: seq<Due>): seq<bool> {
    seq(|owed|, i requires 0 <= i < |owed| => owed[i].accepts)
  }

  /** The acknowledgement a step reads, on either thread, and the one its write brings. */
  function HeededBy(w: World, e: Step): seq<bool>
    requires Enabled(w, e)
  {
    if (e.TelemetryRead? || e.CommandRead?) && e.h == Ack then [w.owed[0].accepts] else []
  }

  function AskedBy(w: World, e: Step): seq<bool> {
    if e.CommandWrite? then [w.accepts] else []
  }

  function Heeded(w: World, es: seq<Step>): seq<bool>
    requires Possible(w, es)
    decreases es
  {
    if es == [] then [] else HeededBy(w, es[0]) + Heeded(Next(w, es[0]), es[1..])
  }

  function Asked(w: World, es: seq<Step>): seq<bool>
    requires Possible(w, es)
    decreases es
  {
    if es == [] then [] else AskedBy(w, es[0]) + Asked(Next(w, es[0]), es[1..])
  }

  lemma AnswersAppend(owed: seq<Due>, d: Due)
    ensures Answers(owed + [d]) == Answers(owed) + [d.accepts]
  {
  }

  lemma AnswersFirst(owed: seq<Due>)
    requires owed != []
    ensures Answers(owed) == [owed[0].accepts] + Answers(owed[1..])
  {
  }

  lemma AnswersLater(owed: seq<Due>)
    ensures Answers(Later(owed)) == Answers(owed)
  {
  }

  /** Over every run, whoever reads: the radio's answers are read in the order of the
      writes, each once, and those not yet read are owed. */
  lemma {:induction false} AnswersInOrder(w: World, es: seq<Step>)
    requires Possible(w, es)
    ensures Heeded(w, es) + Answers(Run(w, es).owed) == Answers(w.owed) + Asked(w, es)
    decreases es
  {
    hide Answers, Enabled, Next, HeededBy, AskedBy;
    if es == [] {
    } else {
      var w' := Next(w, es[0]);
      AnswersInOrder(w', es[1..]);
      AnswersStep(w, es[0]);
      Chains(HeededBy(w, es[0]), Heeded(w', es[1..]), Answers(Run(w, es).owed), Answers(w'.owed), Answers(w.owed),
        AskedBy(w, es[0]), Asked(w', es[1..]));
    }
  }

  lemma Chains<T>(g: seq<T>, gs: seq<T>, last: seq<T>, mid: seq<T>, first: seq<T>, a: seq<T>, more: seq<T>)
    requires g + mid == first + a && gs + last == mid + more
    ensures g + gs + last == first + (a + more)
  {
    assert g + gs + last == g + (gs + last);
    assert g + (mid + more) == (g + mid) + more;
  }

  lemma AnswersStep(w: World, e: Step)
    requires Enabled(w, e)
    ensures HeededBy(w, e) + Answers(Next(w, e).owed) == Answers(w.owed) + AskedBy(w, e)
  {
    hide Answers, Later, IsAck;
    AnswersLater(w.owed);
    if w.owed != [] { AnswersFirst(w.owed); }
    if e.CommandWrite? { AnswersAppend(w.owed, Due(e.within, w.accepts)); }
  }

  // -------------------------------------------------------------------- the invariant

  /** An acknowledgement is on its way only to the command that waits for it, and arrives
      before that command gives up. */
  predicate Paired(w: World) {
    match w.holder
    case Free => w.owed == [] && w.local != Locked
    case Telemetry => w.owed == [] && w.local == Locked
    case Command =>
      && w.local != Locked
      && match w.phase
         case Writing(t) => t == 0 && w.owed == []
         case Reading(t, l) => t == 0 && exists n: nat :: w.owed == [Due(n, w.accepts)] && l + n < LOOPS
         case Done(v) => w.owed == [] && v == VerdictOf(AnswerOf(w.accepts))
  }

  /** Every finished command was told the radio's answer to it. */
  predicate Truthful(ledger: seq<(bool, Verdict)>) {
    forall i | 0 <= i < |ledger| :: ledger[i].1 == (if ledger[i].0 then OK else REJ)
  }

  /** No acknowledgement among the telemetry. */
  predicate Clean(w: World) {
    (w.local.Has? ==> !IsAck(w.local.b)) && forall i | 0 <= i < |w.stack| :: !IsAck(w.stack[i])
  }

  function InHand(w: World): multiset<Byte> {
    if w.local.Has? then multiset{w.local.b} else multiset{}
  }

  /** Every byte that arrived is in the telemetry thread's hand, on the stack, or was
      popped or dropped: each exactly once. */
  predicate Conserved(w: World) {
    InHand(w) + Pushes(w) == w.arrived
  }

  /** What was pushed, and is on the stack or has left it or found no room. */
  function Pushes(w: World): multiset<Byte> {
    multiset(w.stack) + w.popped + w.dropped
  }

  predicate Invariant(w: World) {
    Paired(w) && Truthful(w.ledger) && Clean(w) && Conserved(w) && |w.stack| <= STACK
  }

  lemma PushKeeps(w: World, b: Byte)
    requires |w.stack| <= STACK
    ensures var w' := Push(w, b);
      w' == w.(stack := w'.stack, dropped := w'.dropped) && |w'.stack| <= STACK && Pushes(w') == Pushes(w) + multiset{b}
    ensures !IsAck(b) && Clean(w) ==> Clean(Push(w, b))
  {
    hide IsAck;
  }

  /** While the telemetry thread holds the mutex it cannot catch an acknowledgement. */
  lemma TelemetryReadKeeps(w: World, h: Heard)
    requires Invariant(w) && Enabled(w, TelemetryRead(h)) && Honest(w, h)
    ensures Invariant(Next(w, TelemetryRead(h)))
  {
    hide IsAck, Pushes;
    var w' := Next(w, TelemetryRead(h));
    SamePushes(w, w');
    assert h != Ack;
  }

  lemma SamePushes(w: World, w': World)
    requires w'.stack == w.stack && w'.popped == w.popped && w'.dropped == w.dropped
    ensures Pushes(w') == Pushes(w)
  {
  }

  lemma TelemetryPushKeeps(w: World)
    requires Invariant(w) && Enabled(w, TelemetryPush)
    ensures Invariant(Next(w, TelemetryPush))
  {
    hide IsAck, Push, Pushes;
    var w1 := Push(w, w.local.b);
    PushKeeps(w, w.local.b);
    SamePushes(w1, w1.(local := Waiting));
  }

  /** One read of a waiting command: the acknowledgement ends it with its verdict, and
      without one there is still time for it. */
  lemma LoopedPaired(w: World, h: Heard)
    requires Paired(w) && Enabled(w, CommandRead(h)) && Honest(w, h)
    ensures Paired(Looped(w, h))
    ensures IsAck(ByteOf(w, h)) <==> h == Ack
  {
    var n: nat :| w.owed == [Due(n, w.accepts)] && w.phase.loops + n < LOOPS;
    assert w.owed[0] == Due(n, w.accepts);
    if h != Ack {
      assert Later(w.owed) == [Due(n - 1, w.accepts)];
    }
  }

  lemma LoopedChanges(w: World, h: Heard)
    requires w.phase.Reading? && (h == Ack ==> w.owed != [])
    ensures var w', b := Looped(w, h), ByteOf(w, h);
      w' == w.(phase := w'.phase, owed := w'.owed, bytes := w'.bytes,
        arrived := if IsAck(b) then w.arrived else w.arrived + multiset{b})
  {
    hide AfterRead, ByteOf, IsAck;
  }

  lemma CommandReadKeeps(w: World, h: Heard)
    requires Invariant(w) && Enabled(w, CommandRead(h)) && Honest(w, h)
    ensures Invariant(Next(w, CommandRead(h)))
  {
    hide IsAck, Push, Pushes, ByteOf, Honest, AfterRead, Paired, Looped;
    var b, w1 := ByteOf(w, h), Looped(w, h);
    LoopedChanges(w, h);
    LoopedPaired(w, h);
    SamePushes(w, w1);
    if h == Ack {
      assert Next(w, CommandRead(h)) == w1;
    } else {
      PushKeeps(w1, b);
      SamePaired(w1, Push(w1, b));
    }
  }

  lemma PopMoves(w: World)
    requires w.stack != []
    ensures Pushes(Next(w, DisplayPop)) == Pushes(w)
  {
    var rest, top := w.stack[..|w.stack| - 1], w.stack[|w.stack| - 1];
    assert w.stack == rest + [top];
    assert multiset(w.stack) == multiset(rest) + multiset{top};
  }

  lemma DisplayPopKeeps(w: World)
    requires Invariant(w) && Enabled(w, DisplayPop)
    ensures Invariant(Next(w, DisplayPop))
  {
    hide IsAck, Paired, Truthful, Pushes;
    PopMoves(w);
    SamePaired(w, Next(w, DisplayPop));
  }

  lemma SamePaired(w: World, w': World)
    requires Paired(w) && w'.holder == w.holder && w'.local == w.local && w'.owed == w.owed
    requires w'.phase == w.phase && w'.accepts == w.accepts
    ensures Paired(w')
  {
  }

  lemma OtherKeeps(w: World, e: Step)
    requires Invariant(w) && Enabled(w, e) && Fair(w, e, LOOPS)
    requires e.TelemetryLock? || e.CommandLock? || e.CommandWrite? || e.CommandUnlock?
    ensures Invariant(Next(w, e))
  {
    hide IsAck, Pushes;
    SamePushes(w, Next(w, e));
  }

  lemma NextKeeps(w: World, e: Step)
    requires Invariant(w) && Enabled(w, e) && Fair(w, e, LOOPS)
    ensures Invariant(Next(w, e))
  {
    hide Invariant, Next, Honest;
    match e
    case TelemetryRead(h) => TelemetryReadKeeps(w, h);
    case TelemetryPush => TelemetryPushKeeps(w);
    case CommandRead(h) => CommandReadKeeps(w, h);
    case DisplayPop => DisplayPopKeeps(w);
    case _ => OtherKeeps(w, e);
  }

  /** In every run, at any time: whenever the mutex is free no acknowledgement is
      outstanding, every command that has returned got the verdict on itself, and was
      written once; no acknowledgement is among the telemetry, and no byte of that is
      lost or doubled. */
  lemma {:induction false} RunSafe(w: World, es: seq<Step>)
    requires Invariant(w) && Possible(w, es) && FairAlong(w, es, LOOPS)
    ensures Invariant(Run(w, es))
    decreases es
  {
    hide Invariant, Next, Enabled, Fair;
    if es == [] {
    } else {
      NextKeeps(w, es[0]);
      RunSafe(Next(w, es[0]), es[1..]);
    }
  }

  lemma Starts()
    ensures Invariant(START)
  {
  }

  /** From the start: what the invariant says to a caller. */
  lemma Pairing(es: seq<Step>)
    requires Possible(START, es) && FairAlong(START, es, LOOPS)
    ensures var w := Run(START, es);
      && (w.holder == Free ==> w.owed == [])
      && (forall i | 0 <= i < |w.ledger| :: w.ledger[i].1 == (if w.ledger[i].0 then OK else REJ))
      && (forall i | 0 <= i < |w.stack| :: !IsAck(w.stack[i]))
      && (w.holder == Command && w.phase.Writing? ==> w.phase.tries == 0)
      && InHand(w) + (multiset(w.stack) + w.popped + w.dropped) == w.arrived
  {
    hide Run, Possible, FairAlong, IsAck;
    Starts();
    RunSafe(START, es);
  }

  // ------------------------------------------------------------- a radio that is too late

  lemma {:induction false} FairWithin(w: World, es: seq<Step>, less: nat, limit: nat)
    requires Possible(w, es) && FairAlong(w, es, less) && less <= limit
    ensures FairAlong(w, es, limit)
    decreases es
  {
    hide Enabled, Next, Honest;
    if es == [] {
    } else {
      FairWithin(Next(w, es[0]), es[1..], less, limit);
    }
  }

  lemma {:induction false} RunOn(w: World, es: seq<Step>, fs: seq<Step>, limit: nat)
    requires Possible(w, es) && FairAlong(w, es, limit)
    requires Possible(Run(w, es), fs) && FairAlong(Run(w, es), fs, limit)
    ensures Possible(w, es + fs) && FairAlong(w, es + fs, limit) && Run(w, es + fs) == Run(Run(w, es), fs)
    decreases es
  {
    hide Enabled, Fair, Next;
    if es == [] {
      assert es + fs == fs;
    } else {
      RunOn(Next(w, es[0]), es[1..], fs, limit);
      assert (es + fs)[0] == es[0] && (es + fs)[1..] == es[1..] + fs;
    }
  }

  function Silences(n: nat): seq<Step> {
    if n == 0 then [] else [CommandRead(Silence)] + Silences(n - 1)
  }

  /** What a run is at, as far as commands go. */
  predicate Stands(
      w: World, holder: Holder, accepts: bool, phase: Phase, owed: seq<Due>, ledger: seq<(bool, Verdict)>) {
    w.holder == holder && w.accepts == accepts && w.phase == phase && w.owed == owed && w.ledger == ledger
  }

  lemma SilentRead(w: World, accepts: bool, phase: Phase, left: nat)
    requires Stands(w, Command, accepts, phase, [Due(left + 1, accepts)], []) && phase.Reading?
    ensures Enabled(w, CommandRead(Silence)) && Honest(w, Silence)
    ensures Stands(Next(w, CommandRead(Silence)), Command, accepts, AfterRead(phase, 0), [Due(left, accepts)], [])
  {
    hide AfterRead;
    assert Later([Due(left + 1, accepts)]) == [Due(left, accepts)];
  }

  /** Timeouts until the loop ends: the command gives up this try. */
  lemma {:induction false} SilentLoop(w: World, accepts: bool, n: nat, limit: nat)
    requires n < LOOPS && Stands(w, Command, accepts, Reading(0, n), [Due(LOOPS - n, accepts)], [])
    ensures Possible(w, Silences(LOOPS - n)) && FairAlong(w, Silences(LOOPS - n), limit)
    ensures Stands(Run(w, Silences(LOOPS - n)), Command, accepts, Writing(1), [Due(0, accepts)], [])
    decreases LOOPS - n
  {
    hide Stands, Honest, Next, Enabled;
    var es := Silences(LOOPS - n);
    assert es[0] == CommandRead(Silence) && es[1..] == Silences(LOOPS - n - 1);
    SilentRead(w, accepts, Reading(0, n), LOOPS - n - 1);
    var w' := Next(w, CommandRead(Silence));
    if n + 1 == LOOPS {
      assert es[1..] == [];
    } else {
      SilentLoop(w', accepts, n + 1, limit);
    }
  }

  lemma ThenStep(w: World, es: seq<Step>, e: Step, limit: nat)
    requires Possible(w, es) && FairAlong(w, es, limit) && Enabled(Run(w, es), e) && Fair(Run(w, es), e, limit)
    ensures Possible(w, es + [e]) && FairAlong(w, es + [e], limit) && Run(w, es + [e]) == Next(Run(w, es), e)
  {
    hide Enabled, Fair, Next, Run, Possible, FairAlong;
    OneStep(Run(w, es), e, limit);
    RunOn(w, es, [e], limit);
  }

  lemma OneStep(w: World, e: Step, limit: nat)
    requires Enabled(w, e) && Fair(w, e, limit)
    ensures Possible(w, [e]) && FairAlong(w, [e], limit) && Run(w, [e]) == Next(w, e)
  {
    hide Enabled, Fair, Next;
    assert [e][1..] == [];
  }

  /** A command whose acknowledgement is due at the 51st read is written twice, reads the
      first acknowledgement and leaves the second one behind. */
  lemma LateCommand(limit: nat) returns (es: seq<Step>)
    requires limit > LOOPS
    ensures Possible(START, es) && FairAlong(START, es, limit)
    ensures Stands(Run(START, es), Free, true, Done(OK), [Due(LOOPS, true)], [(true, OK)])
  {
    hide Run, Possible, FairAlong, Silences;
    OneStep(START, CommandLock(true), limit);
    es := [CommandLock(true)];
    ThenStep(START, es, CommandWrite(LOOPS), limit);
    es := es + [CommandWrite(LOOPS)];
    SilentLoop(Run(START, es), true, 0, limit);
    RunOn(START, es, Silences(LOOPS), limit);
    es := es + Silences(LOOPS);
    ThenStep(START, es, CommandWrite(LOOPS), limit);
    es := es + [CommandWrite(LOOPS)];
    ThenStep(START, es, CommandRead(Ack), limit);
    es := es + [CommandRead(Ack)];
    ThenStep(START, es, CommandUnlock, limit);
    es := es + [CommandUnlock];
  }

  /** The next command, which the radio rejects, reads it and is told it was accepted. */
  lemma StaleRun(limit: nat) returns (es: seq<Step>)
    requires limit > LOOPS
    ensures Possible(START, es) && FairAlong(START, es, limit)
    ensures Run(START, es).holder == Free && Run(START, es).ledger == [(true, OK), (false, OK)]
  {
    hide Run, Possible, FairAlong;
    es := LateCommand(limit);
    ThenStep(START, es, CommandLock(false), limit);
    es := es + [CommandLock(false)];
    ThenStep(START, es, CommandWrite(LOOPS), limit);
    es := es + [CommandWrite(LOOPS)];
    ThenStep(START, es, CommandRead(Ack), limit);
    es := es + [CommandRead(Ack)];
    ThenStep(START, es, CommandUnlock, limit);
    es := es + [CommandUnlock];
  }

  /** With the mutex free no acknowledgement is outstanding, and every command was told
      the radio's answer. */
  predicate Settled(w: World) {
    (w.holder == Free ==> w.owed == []) && Truthful(w.ledger)
  }

  /** Commands and acknowledgements stay paired in all runs exactly if the radio answers
      within the 50 reads of a try. If it may take one read more, some run tells a
      rejected command that it was accepted. */
  lemma PairingExactly(limit: nat)
    ensures (forall es | Possible(START, es) && FairAlong(START, es, limit) :: Settled(Run(START, es))) <==>
      limit <= LOOPS
  {
    hide Run, Possible, FairAlong, IsAck;
    if limit <= LOOPS {
      forall es | Possible(START, es) && FairAlong(START, es, limit) ensures Settled(Run(START, es)) {
        FairWithin(START, es, limit, LOOPS);
        Pairing(es);
      }
    } else {
      var es := StaleRun(limit);
      var ledger := Run(START, es).ledger;
      assert ledger[1] == (false, OK);
      assert !Settled(Run(START, es));
    }
  }

  // ------------------------------------------------------------------ while there is room

  predicate RoomAlong(w: World, es: seq<Step>)
    requires Possible(w, es)
    decreases es
  {
    |w.stack| < STACK && (es == [] || RoomAlong(Next(w, es[0]), es[1..]))
  }

  lemma DropsNothing(w: World, e: Step)
    requires Enabled(w, e) && |w.stack| < STACK
    ensures Next(w, e).dropped == w.dropped
  {
    hide IsAck, VerdictOf, Pushed;
  }

  /** Nothing is dropped as long as the stack is never full. */
  lemma {:induction false} NothingDropped(w: World, es: seq<Step>)
    requires Possible(w, es) && RoomAlong(w, es)
    ensures Run(w, es).dropped == w.dropped
    decreases es
  {
    hide Enabled, Fair, Next;
    if es == [] {
    } else {
      DropsNothing(w, es[0]);
      NothingDropped(Next(w, es[0]), es[1..]);
    }
  }

  // ------------------------------------------------- the steps are those of `sendCmd`

  /** A line on which the command's writes so far are complete and its reads are its bytes. */
  predicate Agrees(w: World, goes: nat -> bool, line: nat -> Byte) {
    (forall i | 0 <= i < w.wrote :: goes(i)) && (forall k | 0 <= k < |w.bytes| :: line(k) == w.bytes[k])
  }

  function Telemetric(bytes: seq<Byte>): seq<Byte> {
    if bytes == [] then []
    else
      var last := bytes[|bytes| - 1];
      Telemetric(bytes[..|bytes| - 1]) + if IsAck(last) then [] else [last]
  }

  /** `sendCmd` on such a line does what the command has done, and goes on from there. */
  ghost predicate Follows(w: World) {
    w.holder == Command ==>
      InLoops(w.phase) && forall goes, line | Agrees(w, goes, line) ::
        Send(Writing(0), goes, line, 0, 0)
          == Continued(Telemetric(w.bytes), Send(w.phase, goes, line, w.wrote, |w.bytes|))
  }

  lemma AgreesWritten(w: World, within: nat, goes: nat -> bool, line: nat -> Byte)
    requires Enabled(w, CommandWrite(within)) && Agrees(Next(w, CommandWrite(within)), goes, line)
    ensures Agrees(w, goes, line) && goes(w.wrote)
  {
    var w' := Next(w, CommandWrite(within));
    assert w'.wrote == w.wrote + 1 && w'.bytes == w.bytes;
    var i: nat := w.wrote;
    assert 0 <= i < w'.wrote ==> goes(i);
  }

  lemma FollowsWrite(w: World, within: nat)
    requires Follows(w) && Enabled(w, CommandWrite(within))
    ensures Follows(Next(w, CommandWrite(within)))
  {
    hide Send, Telemetric, Continued;
    var w' := Next(w, CommandWrite(within));
    forall goes, line | Agrees(w', goes, line)
      ensures Send(Writing(0), goes, line, 0, 0)
        == Continued(Telemetric(w'.bytes), Send(w'.phase, goes, line, w'.wrote, |w'.bytes|))
    {
      AgreesWritten(w, within, goes, line);
      UnfoldWrite(w.phase, goes, line, w.wrote, |w.bytes|);
    }
  }

  lemma AgreesBefore(w: World, h: Heard, goes: nat -> bool, line: nat -> Byte)
    requires Enabled(w, CommandRead(h)) && Agrees(Next(w, CommandRead(h)), goes, line)
    ensures Agrees(w, goes, line) && line(|w.bytes|) == ByteOf(w, h)
  {
    hide IsAck, AfterRead;
    var bytes := w.bytes + [ByteOf(w, h)];
    assert Next(w, CommandRead(h)).bytes == bytes;
    forall k | 0 <= k < |w.bytes| ensures line(k) == w.bytes[k] {
      assert line(k) == bytes[k];
    }
    assert line(|w.bytes|) == bytes[|w.bytes|];
  }

  lemma TelemetricNext(bytes: seq<Byte>, b: Byte)
    ensures Telemetric(bytes + [b]) == Telemetric(bytes) + if IsAck(b) then [] else [b]
  {
    assert (bytes + [b])[..|bytes|] == bytes;
  }

  lemma ReadChanges(w: World, h: Heard)
    requires Enabled(w, CommandRead(h))
    ensures var w' := Next(w, CommandRead(h));
      w'.holder == Command && w'.phase == AfterRead(w.phase, ByteOf(w, h)) && w'.wrote == w.wrote
        && w'.bytes == w.bytes + [ByteOf(w, h)]
  {
    hide IsAck, AfterRead;
  }

  lemma FollowsRead(w: World, h: Heard)
    requires Follows(w) && Enabled(w, CommandRead(h))
    ensures Follows(Next(w, CommandRead(h)))
  {
    hide Send, Telemetric, Continued, Agrees, Next, AfterRead, IsAck;
    var w', b := Next(w, CommandRead(h)), ByteOf(w, h);
    ReadChanges(w, h);
    TelemetricNext(w.bytes, b);
    AfterReadInLoops(w.phase, b);
    forall goes, line | Agrees(w', goes, line)
      ensures Send(Writing(0), goes, line, 0, 0)
        == Continued(Telemetric(w'.bytes), Send(w'.phase, goes, line, w'.wrote, |w'.bytes|))
    {
      AgreesBefore(w, h, goes, line);
      UnfoldRead(w.phase, goes, line, w.wrote, |w.bytes|);
      var rest := Send(w'.phase, goes, line, w.wrote, |w.bytes| + 1);
      ContinuedTwice(Telemetric(w.bytes), [b], rest);
      assert Telemetric(w.bytes) + [] == Telemetric(w.bytes);
    }
  }

  lemma AfterReadInLoops(p: Phase, b: Byte)
    requires InLoops(p) && p.Reading?
    ensures InLoops(AfterRead(p, b))
  {
  }

  lemma FollowsNext(w: World, e: Step)
    requires Follows(w) && Enabled(w, e)
    ensures Follows(Next(w, e))
  {
    match e
    case CommandLock(accepts) => FollowsFromStart(Next(w, e));
    case CommandWrite(within) => FollowsWrite(w, within);
    case CommandRead(h) => FollowsRead(w, h);
    case _ => FollowsSame(w, e);
  }

  lemma FollowsFromStart(w: World)
    requires w.holder == Command && w.phase == Writing(0) && w.wrote == 0 && w.bytes == []
    ensures Follows(w)
  {
    hide Send;
  }

  lemma FollowsSame(w: World, e: Step)
    requires Follows(w) && Enabled(w, e) && !e.CommandLock? && !e.CommandWrite? && !e.CommandRead?
    ensures Follows(Next(w, e))
  {
    hide Send, Telemetric, Continued;
    var w' := Next(w, e);
    if w'.holder == Command {
      forall goes, line | Agrees(w', goes, line)
        ensures Send(Writing(0), goes, line, 0, 0)
          == Continued(Telemetric(w'.bytes), Send(w'.phase, goes, line, w'.wrote, |w'.bytes|))
      {
        assert Agrees(w, goes, line);
      }
    }
  }

  lemma {:induction false} RunFollows(w: World, es: seq<Step>)
    requires Follows(w) && Possible(w, es)
    ensures Follows(Run(w, es))
    decreases es
  {
    hide Follows, Next, Enabled, Fair;
    if es == [] {
    } else {
      FollowsNext(w, es[0]);
      RunFollows(Next(w, es[0]), es[1..]);
    }
  }

  /** In every interleaving a command that is about to return has done exactly what
      `sendCmd` does on a line with its bytes: the same verdict, writes, reads and pushes. */
  lemma RefinesSendCmd(es: seq<Step>, goes: nat -> bool, line: nat -> Byte)
    requires Possible(START, es)
    requires var w := Run(START, es); w.holder == Command && w.phase.Done? && Agrees(w, goes, line)
    ensures var w := Run(START, es);
      Send(Writing(0), goes, line, 0, 0) == Sent(w.phase.verdict, w.wrote, |w.bytes|, Telemetric(w.bytes))
  {
    hide Run, Possible, Agrees, Telemetric;
    RunFollows(START, es);
    var w := Run(START, es);
    SendDone(w.phase.verdict, goes, line, w.wrote, |w.bytes|);
    assert Telemetric(w.bytes) + [] == Telemetric(w.bytes);
  }
}
