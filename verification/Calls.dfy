/** Calls over the whole system: `execute` on the client's side with all connections it
    uses, the server with all its connections on the other. */
module Calls {
  import opened Text
  import opened ValueSyntax
  import opened Messages
  import opened XmlRpcSource
  import opened Framing
  import opened ServerSession
  import opened ServerHub
  import opened ClientMachine
  import opened ConnectionUse
  import opened ClientProgress
  import opened XmlRpcServer
  import opened EndToEnd
  import XmlRpcClient

  /** How often connection `i` has been served between `h0` and `h`. */
  function Executions<S>(h0: Hub<S>, h: Hub<S>, i: nat): int {
    |Of(h.shared.log, i)| - |Of(h0.shared.log, i)|
  }

  /** What the server has written on it. */
  function NewOut<S>(h0: Hub<S>, h: Hub<S>, i: nat): string
    requires i < |h0.links| && i < |h.links|
  {
    var n := |h0.links[i].out|;
    if n <= |h.links[i].out| then h.links[i].out[n..] else ""
  }

  function Once(q: Message, used: bool): seq<Message> {
    if used then [q] else []
  }

  /** All requests on the connection are answered, and the answers written; the server may
      have closed it then. */
  predicate AtRest<S>(l: Link, es: seq<Entry<S>>) {
    |es| == |l.sent| && l.out == Written(es) && (l.open ==> Waiting(l, es))
  }

  /** While the client went through one `execute`, with `c` behind it, the server went from
      `h0` to `h`: `a` is the connection the client began on and `b` the one it turned
      to, if it had to; both were at rest before, and the client sent its request at
      most once on each that it used. Nothing is said of other connections, nor of how
      the bytes fare. */
  predicate Carried<S>(h0: Hub<S>, h: Hub<S>, a: nat, b: nat, c: Client, q: Message) {
    && a != b && a < |h0.links| && b < |h0.links| <= |h.links|
    && AtRest(h0.links[a], Of(h0.shared.log, a)) && AtRest(h0.links[b], Of(h0.shared.log, b))
    && h.links[a].sent <= h0.links[a].sent + Once(q, c.connects >= 1)
    && h.links[b].sent <= h0.links[b].sent + Once(q, c.connects >= 2)
  }

  function LastLink(c: Client, a: nat, b: nat): nat {
    if c.connects <= 1 then a else b
  }

  /** What a run leaves of a closed connection: everything as it was. */
  predicate ClosedStays<S(==)>(h0: Hub<S>, h: Hub<S>, i: nat)
    requires i < |h0.links| <= |h.links|
  {
    !h0.links[i].open ==> h.links[i] == h0.links[i] && Of(h.shared.log, i) == Of(h0.shared.log, i)
  }

  /** One connection at rest before, on which `q` was sent at most once. */
  lemma LinkExecutes<S>(
      h0: Hub<S>, h: Hub<S>, i: nat, q: Message, used: bool, good: set<nat>, server0: S,
      exec: (S, string) -> (S, string))
    requires HubOk(h0, good, server0, exec) && HubOk(h, good, server0, exec) && Extends(h0, h)
    requires i < |h0.links| && i in good
    requires AtRest(h0.links[i], Of(h0.shared.log, i)) && h.links[i].sent <= h0.links[i].sent + Once(q, used)
    requires ClosedStays(h0, h, i)
    ensures 0 <= Executions(h0, h, i) <= if used then 1 else 0
    ensures Executions(h0, h, i) == 0 ==> NewOut(h0, h, i) == ""
    ensures Executions(h0, h, i) == 1 ==>
      var e := Of(h.shared.log, i)[|Of(h0.shared.log, i)|];
      e.body == q.body && e.answer == exec(e.before, e.body).1 && NewOut(h0, h, i) <= e.answer
  {
    hide Of, Written, Chained, ServerHub.Receiving, ServerHub.Responding;
    var es0, es := Of(h0.shared.log, i), Of(h.shared.log, i);
    OfExtends(h0.shared.log, h.shared.log, i);
    assert LinkOk(h.links[i], es);
    OpenIsPrefix(h.links[i], es);
    if |es| == |es0| {
      assert es == es0;
    } else {
      var e := es[|es0|];
      assert es == es0 + [e];
      WrittenAppended(es0, e);
      AnswersTrue(h.shared, server0, exec, i, |es0|);
      var out, all := h.links[i].out, Written(es0) + e.answer;
      if |Written(es0)| <= |out| {
        assert out == all[..|out|];
        assert out[|Written(es0)|..] == e.answer[..|out| - |Written(es0)|];
      }
    }
  }

  /** What a call comes to: the server executes it at most once for each connection the
      client used, on one and the same body. If `execute` ends with a response complete
      by its length, out of bytes the server wrote on the last connection, then the
      request was sent whole and executed exactly once there, and `execute` delivers
      the outcome of this execution. */
  ghost predicate Settled<S>(
      lib: Library, methods: map<string, Method<S>>, t: Target,
      h0: Hub<S>, h: Hub<S>, a: nat, b: nat, x: XmlRpcClient.Executed)
    requires a < |h0.links| && a < |h.links| && b < |h0.links| && b < |h.links|
  {
    var last := LastLink(x.client, a, b);
    && 0 <= Executions(h0, h, a) && 0 <= Executions(h0, h, b)
    && Executions(h0, h, a) + Executions(h0, h, b) <= x.client.connects <= 2
    && (x.client.sendAttempts == 0 || !x.client.keepOpen ==> x.client.connects <= 1)
    && (x.client.state == IDLE && x.client.arrived <= NewOut(h0, h, last) ==>
         && x.client.sent == MessageOf(lib, t).Bytes()
         && Executions(h0, h, last) == 1
         && (x.client.connects == 1 ==> Executions(h0, h, a) + Executions(h0, h, b) == 1)
         && var e := Of(h.shared.log, last)[|Of(h0.shared.log, last)|];
            && e.body == MessageOf(lib, t).body
            && (AnswerFits(lib, RanIn(methods, e.before, t).outcome) ==>
                 && x.client.arrived == NewOut(h0, h, last) == e.answer
                 && Answerable(RanIn(methods, e.before, t).outcome)
                 && x.ok && x.reply == Some(ReplyTo(RanIn(methods, e.before, t).outcome))))
  }

  /** For every call, method table and reachable server, every run of the server with all
      its connections and every run of `execute`, whatever the sockets on both sides do
      and whatever comes in on other connections: the call is settled as `Settled` says.
      A client that has not had to connect anew has been served exactly once when its
      reply is complete; one that had may have been served twice. */
  lemma CallAndReply<S(!new)>(
      lib: Library, methods: map<string, Method<S>>, server0: S, t: Target,
      h0: Hub<S>, moves: seq<Move>, a: nat, b: nat, c: Client, connect: Connect, ticks: seq<Tick>)
    requires HubOk(h0, {a, b}, server0, Exec(lib, methods)) && CallFits(lib, t) && WatchedOnce(c.sources)
    requires forall k | 0 <= k < |moves| :: Sound(moves[k], {a, b})
    requires Carried(h0, RunHub(h0, moves, Exec(lib, methods)), a, b,
      XmlRpcClient.Execute(lib, c, TextOf(lib, t), connect, ticks).client, MessageOf(lib, t))
    ensures Settled(lib, methods, t, h0, RunHub(h0, moves, Exec(lib, methods)), a, b,
      XmlRpcClient.Execute(lib, c, TextOf(lib, t), connect, ticks))
  {
    hide HubOk, RunHub, Sound, Exec, CallFits, AnswerFits, Answerable, MessageOf, TextOf, XmlRpcClient.Execute,
      WatchedOnce, AtRest, Of, Executions, NewOut, WellFramed, RanIn, ReplyTo, ParseResponse, ResponseMessage, Answers;
    var exec, q := Exec(lib, methods), MessageOf(lib, t);
    var x := XmlRpcClient.Execute(lib, c, TextOf(lib, t), connect, ticks);
    var h := RunHub(h0, moves, exec);
    ExecAnswers(lib, methods);
    HubRun(h0, moves, {a, b}, server0, exec);
    RunExtends(h0, moves, exec);
    if !h0.links[a].open { ClosedRun(h0, moves, a, exec); }
    if !h0.links[b].open { ClosedRun(h0, moves, b, exec); }
    LinkExecutes(h0, h, a, q, x.client.connects >= 1, {a, b}, server0, exec);
    LinkExecutes(h0, h, b, q, x.client.connects >= 2, {a, b}, server0, exec);
    TextIsMessage(lib, t);
    XmlRpcClient.ExecuteSafe(lib, c, TextOf(lib, t), connect, ticks);
    var last := LastLink(x.client, a, b);
    if x.client.state == IDLE && x.client.arrived <= NewOut(h0, h, last) {
      ExecutedOnLast(h0, h, last, x.client);
      var e := Of(h.shared.log, last)[|Of(h0.shared.log, last)|];
      var ran := RanIn(methods, e.before, t);
      if AnswerFits(lib, ran.outcome) {
        BodyExecuted(lib, methods, e.before, t);
        AnswerEndsWell(lib, ran.outcome);
      }
    }
  }

  lemma ExecutedOnLast<S>(h0: Hub<S>, h: Hub<S>, i: nat, c: Client)
    requires i < |h0.links| && i < |h.links|
    requires 0 <= Executions(h0, h, i) <= 1 && (Executions(h0, h, i) == 0 ==> NewOut(h0, h, i) == "")
    requires c.arrived <= NewOut(h0, h, i) && 0 < c.contentLength <= |c.arrived|
    ensures Executions(h0, h, i) == 1 && |Of(h0.shared.log, i)| < |Of(h.shared.log, i)|
  {
  }

  // --------------------------------------------------------------------- twice

  lemma TwoLogged<S>(e0: Entry<S>, e1: Entry<S>)
    requires e0.link == 0 && e1.link == 1
    ensures Of([e0, e1], 0) == [e0] && Of([e0, e1], 1) == [e1]
  {
    var none: seq<Entry<S>> := [];
    assert [e0, e1][..1] == [e0] && [e0][..0] == none;
    assert Of(none, 0) == none && Of([e0], 0) == [e0] && Of([e0], 1) == none;
  }

  lemma FreshHub<S>(server0: S, exec: (S, string) -> (S, string))
    ensures HubOk(Hub([FRESH, FRESH], Shared(server0, [])), {0, 1}, server0, exec)
    ensures Waiting(FRESH, Of<S>([], 0)) && Waiting(FRESH, Of<S>([], 1))
  {
    var none: seq<Entry<S>> := [];
    assert Of(none, 0) == none && Of(none, 1) == none;
    assert Waiting(FRESH, none);
  }

  /** Request and turn on the first connection, whose answer is not written; request and
      turn on the second one, whose answer is. */
  function TwiceMoves(q: Message, answer: string): seq<Move>
    requires answer != ""
  {
    var n := |q.Bytes()|;
    [Request(0, q), Turn(0, n, n, Going, Going, []), Request(1, q), Turn(1, n, n, Going, Going, [Wrote(|answer|)])]
  }

  lemma RunFour<S>(h: Hub<S>, ms: seq<Move>, exec: (S, string) -> (S, string))
    requires |ms| == 4
    ensures RunHub(h, ms, exec) == Step(Step(Step(Step(h, ms[0], exec), ms[1], exec), ms[2], exec), ms[3], exec)
  {
    hide Step;
    var h1 := Step(h, ms[0], exec);
    var h2 := Step(h1, ms[1], exec);
    var h3 := Step(h2, ms[2], exec);
    assert RunHub(h, ms, exec) == RunHub(h1, ms[1..], exec);
    assert RunHub(h1, ms[1..], exec) == RunHub(h2, ms[2..], exec) by { assert ms[1..][1..] == ms[2..]; }
    assert RunHub(h2, ms[2..], exec) == RunHub(h3, ms[3..], exec) by { assert ms[2..][1..] == ms[3..]; }
    assert RunHub(h3, ms[3..], exec) == Step(h3, ms[3], exec) by { assert ms[3..][1..] == []; }
  }

  lemma TwiceRun<S>(server0: S, exec: (S, string) -> (S, string), q: Message)
    requires WellFramed(q, false) && KeptAlive(q)
    requires exec(server0, q.body).1 != "" && exec(exec(server0, q.body).0, q.body).1 != ""
    ensures var (s1, first) := exec(server0, q.body); var (s2, second) := exec(s1, q.body);
      var h := RunHub(Hub([FRESH, FRESH], Shared(server0, [])), TwiceMoves(q, second), exec);
      && h.shared == Shared(s2, [Entry(0, q.body, server0, first), Entry(1, q.body, s1, second)])
      && |h.links| == 2 && h.links[0].sent == h.links[1].sent == [q]
      && h.links[0].out == "" && h.links[1].out == second
  {
    hide WellFramed, Judged, Serve, Logged;
    var (s1, first) := exec(server0, q.body);
    var (s2, second) := exec(s1, q.body);
    var ms := TwiceMoves(q, second);
    var h0 := Hub([FRESH, FRESH], Shared(server0, []));
    var sending := FRESH.(wire := q.Bytes(), sent := [q]);
    var none: seq<Message> := [];
    assert none + [q] == [q];
    var h1 := Step(h0, ms[0], exec);
    assert h1 == Hub([sending, FRESH], Shared(server0, []));
    WholeTurn(sending, h1.shared, exec, 0, ms[1], q);
    var h2 := Step(h1, ms[1], exec);
    var h3 := Step(h2, ms[2], exec);
    assert h3.links[1] == sending;
    WholeTurn(sending, h3.shared, exec, 1, ms[3], q);
    var h4 := Step(h3, ms[3], exec);
    RunFour(h0, ms, exec);
    assert h4.shared.log == [Entry(0, q.body, server0, first), Entry(1, q.body, s1, second)];
  }

  /** So it can happen, to every call: the client writes its request, the server executes
      it, the connection is lost before a byte of the answer comes back, and the client
      sends the request again. The call is executed twice, the second time in the state
      that the first has left, and the client is given the second outcome. */
  lemma ExecutedTwice<S(!new)>(lib: Library, methods: map<string, Method<S>>, server0: S, t: Target, c: Client)
      returns (moves: seq<Move>, ticks: seq<Tick>)
    requires CallFits(lib, t) && WatchedOnce(c.sources) && c.keepOpen
    requires AnswerFits(lib, RanIn(methods, server0, t).outcome)
    requires AnswerFits(lib, RanIn(methods, RanIn(methods, server0, t).state, t).outcome)
    ensures var h0 := Hub([FRESH, FRESH], Shared(server0, [])); var h := RunHub(h0, moves, Exec(lib, methods));
      var x := XmlRpcClient.Execute(lib, c, TextOf(lib, t), Connected, ticks);
      && HubOk(h0, {0, 1}, server0, Exec(lib, methods)) && (forall k | 0 <= k < |moves| :: Sound(moves[k], {0, 1}))
      && Carried(h0, h, 0, 1, x.client, MessageOf(lib, t))
      && x.client.state == IDLE && x.client.arrived == NewOut(h0, h, 1)
      && Executions(h0, h, 0) == 1 && Executions(h0, h, 1) == 1
      && Answerable(RanIn(methods, RanIn(methods, server0, t).state, t).outcome)
      && x.ok && x.reply == Some(ReplyTo(RanIn(methods, RanIn(methods, server0, t).state, t).outcome))
  {
    hide HubOk, RunHub, Exec, CallFits, AnswerFits, Answerable, MessageOf, TextOf, XmlRpcClient.Execute, WatchedOnce,
      Of, WellFramed, Judged, RanIn, ReplyTo, ParseResponse, ResponseMessage, Rounds, ProcessEntry, Begun, Delivering,
      Productive, Connects, LosingTick, Waiting;
    var exec, q, text := Exec(lib, methods), MessageOf(lib, t), TextOf(lib, t);
    var first, second := RanIn(methods, server0, t), RanIn(methods, RanIn(methods, server0, t).state, t);
    BodyExecuted(lib, methods, server0, t);
    BodyExecuted(lib, methods, first.state, t);
    AnswerEndsWell(lib, second.outcome);
    CallFramed(lib, t);
    TextIsMessage(lib, t);
    var q1, q2 := ResponseMessage(lib, first.outcome), ResponseMessage(lib, second.outcome);
    BodyNotEmpty(q1);
    BodyNotEmpty(q2);
    moves := TwiceMoves(q, q2.Bytes());
    TwiceRun(server0, exec, q);
    FreshHub(server0, exec);
    var polls := FullPolls(|text| + |q2.Bytes()| + 1, text);
    ConnectedConnects(c);
    ExecuteAfterLoss(lib, c, text, Connected, q2, polls);
    var c2 := ProcessEntry(Begun(c, text, Connected), LosingTick(text));
    ticks := [LosingTick(text)] + Rounds(c2, q2.Bytes(), polls).0;
    TwoLogged(Entry(0, q.body, server0, q1.Bytes()), Entry(1, q.body, first.state, q2.Bytes()));
    NothingLogged<S>();
    var h0 := Hub([FRESH, FRESH], Shared(server0, []));
    var h := RunHub(h0, moves, exec);
    var x := XmlRpcClient.Execute(lib, c, text, Connected, ticks);
    assert FRESH.sent + [q] == [q];
    assert q2.Bytes()[0..] == q2.Bytes();
  }

  lemma NothingLogged<S>()
    ensures Of<S>([], 0) == [] && Of<S>([], 1) == []
  {
  }

  function FullPolls(n: nat, text: string): (polls: seq<ClientProgress.Poll>)
    requires text != ""
    ensures |polls| == n && forall i | 0 <= i < n :: Delivering(polls[i]) && Productive(polls[i])
  {
    seq(n, _ => ClientProgress.Poll([Wrote(|text|)], 4095, 4095))
  }

  // --------------------------------------------------------------- one call after the other

  /** One `execute` and what the server does meanwhile. */
  datatype Round = Round(target: Target, moves: seq<Move>, connect: Connect, ticks: seq<Tick>)

  function Outcome(lib: Library, c: Client, r: Round): XmlRpcClient.Executed {
    XmlRpcClient.Execute(lib, c, TextOf(lib, r.target), r.connect, r.ticks)
  }

  /** The number, among the connections the client makes in its life, of the first one
      that the next call goes over. */
  function FirstUsed(c: Client): nat {
    if Reusable(c) then c.made else c.made + 1
  }

  /** The client and the server before round `k`. */
  function ClientBefore(lib: Library, c: Client, rounds: seq<Round>, k: nat): Client
    requires k <= |rounds|
  {
    if k == 0 then c else Outcome(lib, ClientBefore(lib, c, rounds, k - 1), rounds[k - 1]).client
  }

  function HubBefore<S>(lib: Library, methods: map<string, Method<S>>, h: Hub<S>, rounds: seq<Round>, k: nat): Hub<S>
    requires k <= |rounds|
  {
    if k == 0 then h else RunHub(HubBefore(lib, methods, h, rounds, k - 1), rounds[k - 1].moves, Exec(lib, methods))
  }

  /** What calls before have read on the last connection a call went over. */
  function TakenAfter(c: Client, taken: string, x: Client): string {
    if x.connects == 0 then taken
    else if Reusable(c) && x.connects == 1 then taken + x.arrived
    else x.arrived
  }

  function TakenBefore(lib: Library, c: Client, taken: string, rounds: seq<Round>, k: nat): string
    requires k <= |rounds|
  {
    if k == 0 then taken
    else
      var c0 := ClientBefore(lib, c, rounds, k - 1);
      TakenAfter(c0, TakenBefore(lib, c, taken, rounds, k - 1), Outcome(lib, c0, rounds[k - 1]).client)
  }

  /** No byte has gone over the connection. */
  predicate Unused<S>(h: Hub<S>, i: nat) {
    i < |h.links| && h.links[i] == FRESH && Of(h.shared.log, i) == []
  }

  /** `good` holds the connections that this client uses in any round; `route` tells where
      the server has them. */
  predicate RoundFits(lib: Library, good: set<nat>, route: nat -> nat, c: Client, r: Round) {
    && CallFits(lib, r.target) && route(FirstUsed(c)) in good && route(FirstUsed(c) + 1) in good
    && forall k | 0 <= k < |r.moves| :: Sound(r.moves[k], good)
  }

  /** What the network does to a call of the client `c`: a connection not made before is
      unused; the request is sent at most once on each connection that the call goes
      over; and all bytes that have been read on the last one, by this call and by
      those before, are bytes the server wrote on it. */
  predicate RoundCarried<S>(
      lib: Library, methods: map<string, Method<S>>, h: Hub<S>, c: Client, taken: string, route: nat -> nat, r: Round)
  {
    var a, b := route(FirstUsed(c)), route(FirstUsed(c) + 1);
    var h', x, q := RunHub(h, r.moves, Exec(lib, methods)), Outcome(lib, c, r).client, MessageOf(lib, r.target);
    && a != b && a < |h.links| && b < |h.links| <= |h'.links|
    && (!Reusable(c) ==> Unused(h, a)) && Unused(h, b)
    && h'.links[a].sent <= h.links[a].sent + Once(q, x.connects >= 1)
    && h'.links[b].sent <= h.links[b].sent + Once(q, x.connects >= 2)
    && (x.connects >= 1 ==> TakenAfter(c, taken, x) <= h'.links[LastLink(x, a, b)].out)
  }

  /** The connection kept from the call before is at rest, and all that was written on it
      has been read. */
  predicate AtHand<S>(h: Hub<S>, c: Client, taken: string, route: nat -> nat) {
    Reusable(c) ==>
      && route(c.made) < |h.links| && AtRest(h.links[route(c.made)], Of(h.shared.log, route(c.made)))
      && taken == h.links[route(c.made)].out
  }

  ghost predicate AlwaysAnswers<S(!new)>(lib: Library, methods: map<string, Method<S>>, t: Target) {
    forall state: S :: AnswerFits(lib, RanIn(methods, state, t).outcome)
  }

  lemma UnusedAtRest<S>(h: Hub<S>, i: nat)
    requires Unused(h, i)
    ensures AtRest(h.links[i], Of(h.shared.log, i)) && h.links[i].out == ""
  {
  }

  /** An answer that has been written whole leaves its connection at rest. */
  lemma RestAgain<S>(
      h0: Hub<S>, h: Hub<S>, i: nat, q: Message, good: set<nat>, server0: S, exec: (S, string) -> (S, string))
    requires HubOk(h, good, server0, exec) && Extends(h0, h) && i < |h0.links| && i in good
    requires AtRest(h0.links[i], Of(h0.shared.log, i)) && h.links[i].sent <= h0.links[i].sent + [q]
    requires Executions(h0, h, i) == 1
    requires NewOut(h0, h, i) == Of(h.shared.log, i)[|Of(h0.shared.log, i)|].answer != ""
    ensures AtRest(h.links[i], Of(h.shared.log, i)) && h.links[i].out == h0.links[i].out + NewOut(h0, h, i)
  {
    hide Of, Written, Chained, WellFramed, Judged;
    var es0, es := Of(h0.shared.log, i), Of(h.shared.log, i);
    OfExtends(h0.shared.log, h.shared.log, i);
    var e := es[|es0|];
    assert es == es0 + [e];
    WrittenAppended(es0, e);
    assert LinkOk(h.links[i], es);
    OpenIsPrefix(h.links[i], es);
    var out := h.links[i].out;
    assert out == out[..|Written(es0)|] + out[|Written(es0)|..];
    assert Written(es)[..|Written(es0)|] == Written(es0);
    assert out == Written(es);
    assert es[..|es| - 1] == es0;
  }

  /** What a round comes to: its call is settled, and what `execute` has read are bytes the
      server wrote during the round. */
  ghost predicate RoundSettled<S>(
      lib: Library, methods: map<string, Method<S>>, route: nat -> nat, h: Hub<S>, h': Hub<S>, c: Client, r: Round)
  {
    var a, b, x := route(FirstUsed(c)), route(FirstUsed(c) + 1), Outcome(lib, c, r);
    && a < |h.links| && b < |h.links| <= |h'.links|
    && Settled(lib, methods, r.target, h, h', a, b, x)
    && (x.client.connects >= 1 ==> x.client.arrived <= NewOut(h, h', LastLink(x.client, a, b)))
  }

  /** What the calls before have to leave for the next one. */
  ghost predicate Ready<S>(
      lib: Library, methods: map<string, Method<S>>, good: set<nat>, route: nat -> nat, server0: S,
      h: Hub<S>, c: Client, taken: string)
  {
    HubOk(h, good, server0, Exec(lib, methods)) && WatchedOnce(c.sources) && AtHand(h, c, taken, route)
  }

  lemma OneMore<S>(h: Hub<S>, h': Hub<S>, i: nat)
    requires Executions(h, h', i) == 1
    ensures |Of(h'.shared.log, i)| == |Of(h.shared.log, i)| + 1
  {
  }

  /** The connections of a round are such as `CallAndReply` needs them. */
  lemma RoundIsCarried<S>(
      lib: Library, methods: map<string, Method<S>>, good: set<nat>, server0: S,
      h: Hub<S>, c: Client, taken: string, route: nat -> nat, r: Round)
    requires Ready(lib, methods, good, route, server0, h, c, taken)
    requires RoundFits(lib, good, route, c, r) && RoundCarried(lib, methods, h, c, taken, route, r)
    ensures var a, b := route(FirstUsed(c)), route(FirstUsed(c) + 1);
      && Carried(h, RunHub(h, r.moves, Exec(lib, methods)), a, b, Outcome(lib, c, r).client, MessageOf(lib, r.target))
      && HubOk(h, {a, b}, server0, Exec(lib, methods)) && (forall k | 0 <= k < |r.moves| :: Sound(r.moves[k], {a, b}))
  {
    hide HubOk, RunHub, Exec, CallFits, WatchedOnce, Outcome, MessageOf, Sound, AtRest, Of, TakenAfter;
    var a, b := route(FirstUsed(c)), route(FirstUsed(c) + 1);
    if !Reusable(c) { UnusedAtRest(h, a); }
    UnusedAtRest(h, b);
    OnlyTheirs(h, r.moves, good, a, b, server0, Exec(lib, methods));
  }

  /** `execute` reads only what the server wrote during the round. */
  lemma RoundReads<S(!new)>(
      lib: Library, methods: map<string, Method<S>>, server0: S, good: set<nat>,
      h: Hub<S>, c: Client, taken: string, route: nat -> nat, r: Round)
    requires Ready(lib, methods, good, route, server0, h, c, taken)
    requires RoundFits(lib, good, route, c, r) && RoundCarried(lib, methods, h, c, taken, route, r)
    ensures RoundSettled(lib, methods, route, h, RunHub(h, r.moves, Exec(lib, methods)), c, r)
  {
    hide HubOk, RunHub, Exec, CallFits, WatchedOnce, TextOf, MessageOf, XmlRpcClient.Execute, Sound, AtRest, Of,
      Settled, NewOut, Answers, ParseResponse, WellFramed, Carried;
    var a, b := route(FirstUsed(c)), route(FirstUsed(c) + 1);
    var h', x := RunHub(h, r.moves, Exec(lib, methods)), Outcome(lib, c, r);
    RoundIsCarried(lib, methods, good, server0, h, c, taken, route, r);
    CallAndReply(lib, methods, server0, r.target, h, r.moves, a, b, c, r.connect, r.ticks);
    ExecuteUses(lib, c, TextOf(lib, r.target), r.connect, r.ticks);
    XmlRpcClient.ExecuteSafe(lib, c, TextOf(lib, r.target), r.connect, r.ticks);
    if x.client.connects >= 1 {
      NewlyRead(h, h', c, x.client, taken, route);
    }
  }

  lemma NewlyRead<S>(h: Hub<S>, h': Hub<S>, c: Client, x: Client, taken: string, route: nat -> nat)
    requires 1 <= x.connects <= 2
    requires var a, b := route(FirstUsed(c)), route(FirstUsed(c) + 1); var last := LastLink(x, a, b);
      && a < |h.links| && b < |h.links| <= |h'.links|
      && (!Reusable(c) ==> Unused(h, a)) && Unused(h, b) && AtHand(h, c, taken, route)
      && TakenAfter(c, taken, x) <= h'.links[last].out
    ensures var last := LastLink(x, route(FirstUsed(c)), route(FirstUsed(c) + 1));
      x.arrived <= NewOut(h, h', last)
  {
    hide AtRest, Of, NewOut;
    var last := LastLink(x, route(FirstUsed(c)), route(FirstUsed(c) + 1));
    var before := if Reusable(c) && x.connects == 1 then taken else "";
    assert "" + x.arrived == x.arrived;
    ReadHere(h, h', last, before, x.arrived);
  }

  /** A round that the client ends idle and without an end of file leaves its last
      connection at hand. */
  lemma HandAfter<S(!new)>(
      lib: Library, methods: map<string, Method<S>>, server0: S, good: set<nat>,
      h: Hub<S>, c: Client, taken: string, route: nat -> nat, r: Round)
    requires Ready(lib, methods, good, route, server0, h, c, taken)
    requires RoundFits(lib, good, route, c, r) && RoundCarried(lib, methods, h, c, taken, route, r)
    requires AlwaysAnswers(lib, methods, r.target)
    ensures AtHand(RunHub(h, r.moves, Exec(lib, methods)), Outcome(lib, c, r).client,
      TakenAfter(c, taken, Outcome(lib, c, r).client), route)
  {
    hide HubOk, RunHub, Exec, CallFits, WatchedOnce, TextOf, MessageOf, XmlRpcClient.Execute, Sound, AnswerFits,
      Answerable, RanIn, ReplyTo, AtRest, Of, Executions, Answers, ParseResponse, WellFramed;
    var a, b := route(FirstUsed(c)), route(FirstUsed(c) + 1);
    var exec, q := Exec(lib, methods), MessageOf(lib, r.target);
    var h', x := RunHub(h, r.moves, exec), Outcome(lib, c, r);
    RoundReads(lib, methods, server0, good, h, c, taken, route, r);
    ExecuteUses(lib, c, TextOf(lib, r.target), r.connect, r.ticks);
    XmlRpcClient.ExecuteSafe(lib, c, TextOf(lib, r.target), r.connect, r.ticks);
    if Reusable(x.client) && x.client.connects >= 1 {
      if !Reusable(c) { UnusedAtRest(h, a); }
      UnusedAtRest(h, b);
      var last := LastLink(x.client, a, b);
      ReadHere(h, h', last, if Reusable(c) && x.client.connects == 1 then taken else "", x.client.arrived);
      OneMore(h, h', last);
      ExecAnswers(lib, methods);
      HubRun(h, r.moves, good, server0, exec);
      RunExtends(h, r.moves, exec);
      var e := Of(h'.shared.log, last)[|Of(h.shared.log, last)|];
      assert AnswerFits(lib, RanIn(methods, e.before, r.target).outcome);
      ArrivedSome(x.client);
      RestAgain(h, h', last, q, good, server0, exec);
    }
  }

  lemma ArrivedSome(c: Client)
    requires 0 < c.contentLength <= |c.arrived|
    ensures c.arrived != ""
  {
  }

  /** What was read before this call was all there was, so what it reads is new. */
  lemma ReadHere<S>(h: Hub<S>, h': Hub<S>, i: nat, taken: string, arrived: string)
    requires i < |h.links| && i < |h'.links| && taken == h.links[i].out && taken + arrived <= h'.links[i].out
    ensures arrived <= NewOut(h, h', i) && |taken| <= |h'.links[i].out| && h'.links[i].out[..|taken|] == taken
  {
    var out := h'.links[i].out;
    assert (taken + arrived)[|taken|..] == arrived;
    assert out[..|taken| + |arrived|] == taken + arrived;
  }

  lemma OnlyTheirs<S>(
      h: Hub<S>, moves: seq<Move>, good: set<nat>, a: nat, b: nat, server0: S, exec: (S, string) -> (S, string))
    requires a in good && b in good && HubOk(h, good, server0, exec)
    requires forall k | 0 <= k < |moves| :: Sound(moves[k], good)
    ensures HubOk(h, {a, b}, server0, exec) && forall k | 0 <= k < |moves| :: Sound(moves[k], {a, b})
  {
    hide LinkOk, Of, Chained, WellFramed, Judged;
  }

  ghost predicate AllCarried<S>(
      lib: Library, methods: map<string, Method<S>>, good: set<nat>, route: nat -> nat,
      h: Hub<S>, c: Client, taken: string, rounds: seq<Round>)
  {
    forall i | 0 <= i < |rounds| ::
      && RoundFits(lib, good, route, ClientBefore(lib, c, rounds, i), rounds[i])
      && RoundCarried(lib, methods, HubBefore(lib, methods, h, rounds, i), ClientBefore(lib, c, rounds, i),
           TakenBefore(lib, c, taken, rounds, i), route, rounds[i])
  }

  /** One round more. */
  lemma NextRound<S(!new)>(
      lib: Library, methods: map<string, Method<S>>, good: set<nat>, route: nat -> nat, server0: S,
      h: Hub<S>, c: Client, taken: string, r: Round)
    requires Ready(lib, methods, good, route, server0, h, c, taken)
    requires RoundFits(lib, good, route, c, r) && RoundCarried(lib, methods, h, c, taken, route, r)
    requires AlwaysAnswers(lib, methods, r.target)
    ensures Ready(lib, methods, good, route, server0, RunHub(h, r.moves, Exec(lib, methods)),
      Outcome(lib, c, r).client, TakenAfter(c, taken, Outcome(lib, c, r).client))
  {
    hide HubOk, RunHub, Exec, CallFits, TextOf, XmlRpcClient.Execute, Sound, AtHand, RoundCarried, AlwaysAnswers,
      TakenAfter, Answers, ParseResponse;
    ExecAnswers(lib, methods);
    HubRun(h, r.moves, good, server0, Exec(lib, methods));
    XmlRpcClient.ExecuteSafe(lib, c, TextOf(lib, r.target), r.connect, r.ticks);
    HandAfter(lib, methods, server0, good, h, c, taken, route, r);
  }

  lemma {:induction false} BeforeRound<S(!new)>(
      lib: Library, methods: map<string, Method<S>>, good: set<nat>, route: nat -> nat, server0: S,
      h: Hub<S>, c: Client, taken: string, rounds: seq<Round>, k: nat)
    requires Ready(lib, methods, good, route, server0, h, c, taken)
    requires k <= |rounds| && AllCarried(lib, methods, good, route, h, c, taken, rounds)
    requires forall i | 0 <= i < k :: AlwaysAnswers(lib, methods, rounds[i].target)
    ensures Ready(lib, methods, good, route, server0, HubBefore(lib, methods, h, rounds, k),
      ClientBefore(lib, c, rounds, k), TakenBefore(lib, c, taken, rounds, k))
    decreases k
  {
    hide Ready, Exec, AlwaysAnswers, RoundFits, RoundCarried, Outcome, RunHub, TakenAfter;
    if k == 0 {
    } else {
      BeforeRound(lib, methods, good, route, server0, h, c, taken, rounds, k - 1);
      NextRound(lib, methods, good, route, server0, HubBefore(lib, methods, h, rounds, k - 1),
        ClientBefore(lib, c, rounds, k - 1), TakenBefore(lib, c, taken, rounds, k - 1), rounds[k - 1]);
    }
  }

  /** Any number of calls by one client, on connections it keeps or makes anew, among
      whatever else the server does and receives: each of them is settled, in the state
      of the server that its turn finds. Nothing is assumed of the connection that is
      kept: that it is at rest, and that nothing of an earlier answer is left on it to be
      read, follows from the client's keeping it only when its call was completed. */
  lemma CallsAndReplies<S(!new)>(
      lib: Library, methods: map<string, Method<S>>, good: set<nat>, route: nat -> nat, server0: S,
      h: Hub<S>, c: Client, taken: string, rounds: seq<Round>, k: nat)
    requires Ready(lib, methods, good, route, server0, h, c, taken)
    requires k < |rounds| && AllCarried(lib, methods, good, route, h, c, taken, rounds)
    requires forall i | 0 <= i < k :: AlwaysAnswers(lib, methods, rounds[i].target)
    ensures RoundSettled(lib, methods, route, HubBefore(lib, methods, h, rounds, k),
      HubBefore(lib, methods, h, rounds, k + 1), ClientBefore(lib, c, rounds, k), rounds[k])
  {
    hide Ready, Exec, AlwaysAnswers, RoundFits, RoundCarried, RoundSettled, Outcome, RunHub, TakenAfter;
    BeforeRound(lib, methods, good, route, server0, h, c, taken, rounds, k);
    RoundReads(lib, methods, server0, good, HubBefore(lib, methods, h, rounds, k), ClientBefore(lib, c, rounds, k),
      TakenBefore(lib, c, taken, rounds, k), route, rounds[k]);
  }
}
