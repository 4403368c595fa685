/** Runs of the whole server: any number of connections take turns in any order and share
    the state of the server's methods. Some of them carry requests as this program's
    client sends them, the others any bytes at any time. Connections may be lost at any
    event. */
module ServerHub {
  import opened Text
  import opened HttpHeader
  import opened XmlRpcSource
  import opened ServerConnection
  import opened Framing
  import opened ServerSession

  /** One execution: for which connection, of which body, in which state, with which answer. */
  datatype Entry<S> = Entry(link: nat, body: string, before: S, answer: string)

  /** What the connections share: the server's state, and the log of its executions, on
      which nothing depends. */
  datatype Shared<S> = Shared(server: S, log: seq<Entry<S>>)

  function Logged<S>(exec: (S, string) -> (S, string), i: nat): (Shared<S>, string) -> (Shared<S>, string) {
    (sh: Shared<S>, body: string) =>
      var r := exec(sh.server, body);
      (Shared(r.0, sh.log + [Entry(i, body, sh.server, r.1)]), r.1)
  }

  /** A connection, the bytes on their way to it, the bytes it has written, whether it is
      still open, and the requests the client has sent on it. */
  datatype Link = Link(conn: Conn, wire: string, out: string, open: bool, sent: seq<Message>)

  const FRESH := Link(Conn(READ_HEADER, "", 0, "", "", 0, true), "", "", true, [])

  datatype Hub<S> = Hub(links: seq<Link>, shared: Shared<S>)

  /** How a read ends, once it has taken what it takes. */
  datatype Ending = Going | Ended | Failing

  /** The moves: a client connects, sends a request on an idle connection, or sends any
      bytes; or the dispatcher reports an event to a connection, in which up to `n1` and
      then `n2` bytes can be read and the writes do as they do. */
  datatype Move =
    | Dial
    | Request(i: nat, q: Message)
    | Raw(i: nat, text: string)
    | Turn(i: nat, n1: nat, n2: nat, end1: Ending, end2: Ending, writes: seq<WriteResult>)

  function ReadOf(bytes: string, e: Ending): ReadOutcome {
    ReadOutcome(bytes, e == Ended, e != Failing)
  }

  function FirstBytes(l: Link, n: nat): string {
    if l.conn.state == READ_HEADER then Take(l.wire, n) else ""
  }

  function HeaderRead(l: Link, first: string, e: Ending): Conn {
    if l.conn.state == READ_HEADER then ReadHeader(l.conn, ReadOf(first, e)).0 else l.conn
  }

  function SecondBytes(c: Conn, wire: string, n: nat): string {
    if WantsMore(c) then Take(wire, n) else ""
  }

  function Serve<S>(
      l: Link, sh: Shared<S>, exec: (Shared<S>, string) -> (Shared<S>, string), m: Move): (Link, Shared<S>)
    requires m.Turn?
  {
    if !l.open then (l, sh)
    else
      var first := FirstBytes(l, m.n1);
      var wire1 := l.wire[|first|..];
      var second := SecondBytes(HeaderRead(l, first, m.end1), wire1, m.n2);
      var r := HandleEvent(l.conn, sh, exec, Event(ReadOf(first, m.end1), ReadOf(second, m.end2), m.writes));
      (Link(r.conn, wire1[|second|..], l.out + r.sent, r.ok, l.sent), r.server)
  }

  predicate CanSend(l: Link) {
    l.open && Idle(l.conn) && l.wire == ""
  }

  function Step<S>(h: Hub<S>, m: Move, exec: (S, string) -> (S, string)): Hub<S> {
    match m
    case Dial => h.(links := h.links + [FRESH])
    case Request(i, q) =>
      if i < |h.links| && CanSend(h.links[i]) then
        h.(links := h.links[i := h.links[i].(wire := q.Bytes(), sent := h.links[i].sent + [q])])
      else h
    case Raw(i, text) =>
      if i < |h.links| && h.links[i].open then h.(links := h.links[i := h.links[i].(wire := h.links[i].wire + text)])
      else h
    case Turn(i, _, _, _, _, _) =>
      if i >= |h.links| then h
      else
        var r := Serve(h.links[i], h.shared, Logged(exec, i), m);
        Hub(h.links[i := r.0], r.1)
  }

  function RunHub<S>(h: Hub<S>, moves: seq<Move>, exec: (S, string) -> (S, string)): Hub<S>
    decreases moves
  {
    if moves == [] then h else RunHub(Step(h, moves[0], exec), moves[1..], exec)
  }

  /** Nothing limits what comes in: a connection can be made at any time, and on an open
      one any bytes can arrive behind those on their way, with no other one touched. */
  lemma AnythingArrives<S>(h: Hub<S>, i: nat, text: string, exec: (S, string) -> (S, string))
    requires i < |h.links| && h.links[i].open
    ensures var h' := RunHub(h, [Dial, Raw(i, text)], exec);
      && h'.shared == h.shared && |h'.links| == |h.links| + 1 && h'.links[|h.links|] == FRESH
      && h'.links[i] == h.links[i].(wire := h.links[i].wire + text)
      && forall j | 0 <= j < |h.links| && j != i :: h'.links[j] == h.links[j]
  {
    var h1 := Step(h, Dial, exec);
    assert [Dial, Raw(i, text)][1..] == [Raw(i, text)];
    assert [Raw(i, text)][1..] == [];
    assert RunHub(h1, [Raw(i, text)], exec) == Step(h1, Raw(i, text), exec);
  }

  // ------------------------------------------------------------------ specification

  /** The executions of one connection, in order. */
  function Of<S>(log: seq<Entry<S>>, i: nat): seq<Entry<S>> {
    if log == [] then []
    else
      var last := log[|log| - 1];
      Of(log[..|log| - 1], i) + if last.link == i then [last] else []
  }

  /** Their answers, one behind the other. */
  function Written<S>(es: seq<Entry<S>>): string {
    if es == [] then "" else Written(es[..|es| - 1]) + es[|es| - 1].answer
  }

  /** The log tells how the server's state came about: each execution starts in the state
      the one before has left. */
  predicate Chained<S(==)>(sh: Shared<S>, server0: S, exec: (S, string) -> (S, string))
    decreases |sh.log|
  {
    if sh.log == [] then sh.server == server0
    else
      var last := sh.log[|sh.log| - 1];
      (sh.server, last.answer) == exec(last.before, last.body)
      && Chained(Shared(last.before, sh.log[..|sh.log| - 1]), server0, exec)
  }

  /** The executions are those of the requests, in order, at most once each. */
  predicate InOrder<S>(sent: seq<Message>, es: seq<Entry<S>>) {
    |es| <= |sent| && forall k | 0 <= k < |es| :: es[k].body == sent[k].body
  }

  predicate Waiting<S>(l: Link, es: seq<Entry<S>>) {
    && CanSend(l) && l.conn.request == l.conn.response == ""
    && |es| == |l.sent| && l.out == Written(es)
  }

  predicate Receiving<S>(l: Link, es: seq<Entry<S>>) {
    && l.open && l.sent != [] && |es| == |l.sent| - 1 && l.out == Written(es)
    && OnItsWay(l.conn, l.wire, l.sent[|l.sent| - 1])
  }

  predicate OnItsWay(c: Conn, wire: string, q: Message) {
    && WellFramed(q, false) && KeptAlive(q) && c.response == "" && wire != ""
    && |wire| <= |q.Bytes()| && wire == q.Bytes()[|q.Bytes()| - |wire|..]
    && PartOf(c, q, |q.Bytes()| - |wire|, true)
  }

  predicate Responding<S>(l: Link, es: seq<Entry<S>>) {
    && l.open && es != [] && |es| == |l.sent| && l.wire == ""
    && l.conn.state == WRITE_RESPONSE && l.conn.keepAlive
    && l.conn.response == es[|es| - 1].answer && l.conn.bytesWritten < |l.conn.response|
    && l.out == Written(es[..|es| - 1]) + l.conn.response[..l.conn.bytesWritten]
  }

  /** Where a connection stands; a closed one has written the beginning of its answers. */
  predicate LinkOk<S>(l: Link, es: seq<Entry<S>>) {
    && InOrder(l.sent, es)
    && if l.open then Waiting(l, es) || Receiving(l, es) || Responding(l, es) else l.out <= Written(es)
  }

  /** The state of the server, whatever its connections carry, and of the connections in
      `good`. */
  predicate HubOk<S(==)>(h: Hub<S>, good: set<nat>, server0: S, exec: (S, string) -> (S, string)) {
    && Chained(h.shared, server0, exec)
    && (forall k | 0 <= k < |h.shared.log| :: h.shared.log[k].link < |h.links|)
    && forall i | 0 <= i < |h.links| && i in good :: LinkOk(h.links[i], Of(h.shared.log, i))
  }

  /** On the connections in `good` requests are framed and kept; nothing is asked of the
      others, nor of the sockets. */
  predicate Sound(m: Move, good: set<nat>) {
    && (m.Request? && m.i in good ==> WellFramed(m.q, false) && KeptAlive(m.q))
    && (m.Raw? ==> m.i !in good)
  }

  ghost predicate Answers<S(!new)>(exec: (S, string) -> (S, string)) {
    forall server, body :: exec(server, body).1 != ""
  }

  // ---------------------------------------------------------------------- the log

  lemma OfAppended<S>(log: seq<Entry<S>>, e: Entry<S>, i: nat)
    ensures Of(log + [e], i) == Of(log, i) + if e.link == i then [e] else []
  {
    assert (log + [e])[..|log|] == log;
  }

  lemma {:induction false} OfNone<S>(log: seq<Entry<S>>, i: nat)
    requires forall k | 0 <= k < |log| :: log[k].link != i
    ensures Of(log, i) == []
    decreases log
  {
    if log == [] {
    } else {
      OfNone(log[..|log| - 1], i);
    }
  }

  lemma WrittenAppended<S>(es: seq<Entry<S>>, e: Entry<S>)
    ensures Written(es + [e]) == Written(es) + e.answer
  {
    assert (es + [e])[..|es|] == es;
  }

  lemma LoggedRun<S>(exec: (S, string) -> (S, string), i: nat, sh: Shared<S>, body: string)
    ensures var r := exec(sh.server, body);
      Logged(exec, i)(sh, body) == (Shared(r.0, sh.log + [Entry(i, body, sh.server, r.1)]), r.1)
  {
  }

  // ------------------------------------------------------------ events that lose a link

  lemma HeaderFault(c: Conn, bytes: string, e: Ending)
    ensures ReadHeader(c, ReadOf(bytes, e)) == ReadHeader(c, Got(bytes)) || !ReadHeader(c, ReadOf(bytes, e)).1
  {
    hide Look, Atoi, CString, KeepAlive;
    LookInside(c.header + bytes, false);
  }

  lemma RequestFault(c: Conn, bytes: string, e: Ending)
    ensures ReadRequest(c, ReadOf(bytes, e)) == ReadRequest(c, Got(bytes)) || !ReadRequest(c, ReadOf(bytes, e)).1
  {
  }

  /** An end of file or a read error changes nothing, or closes the connection without
      executing or writing anything. */
  lemma ServeFaults<S>(l: Link, sh: Shared<S>, exec: (Shared<S>, string) -> (Shared<S>, string), m: Move)
    requires m.Turn? && l.open
    ensures var r := Serve(l, sh, exec, m);
      || r == Serve(l, sh, exec, m.(end1 := Going, end2 := Going))
      || (!r.0.open && r.0.out == l.out && r.0.sent == l.sent && r.1 == sh)
  {
    hide ReadHeader, ReadRequest, WriteResponse, Take;
    var first := FirstBytes(l, m.n1);
    HeaderFault(l.conn, first, m.end1);
    var c1 := HeaderRead(l, first, m.end1);
    var second := SecondBytes(c1, l.wire[|first|..], m.n2);
    RequestFault(c1, second, m.end2);
    assert l.out + "" == l.out;
  }

  // ----------------------------------------------------------------- the link's turn

  /** What a turn leaves behind: the link with its executions as they are then. */
  ghost predicate TurnKeeps<S>(l: Link, sh: Shared<S>, exec: (S, string) -> (S, string), i: nat, r: (Link, Shared<S>)) {
    && r.0.sent == l.sent
    && LinkOk(r.0, Of(r.1.log, i))
    && (r.1 == sh || exists body :: r.1 == Logged(exec, i)(sh, body).0)
  }

  /** A turn of any connection executes at most once. */
  lemma AnyTurn<S>(l: Link, sh: Shared<S>, exec: (S, string) -> (S, string), i: nat, m: Move)
    requires m.Turn?
    ensures var r := Serve(l, sh, Logged(exec, i), m); r.1 == sh || exists body :: r.1 == Logged(exec, i)(sh, body).0
  {
    hide ReadHeader, ReadRequest, Flush, Logged, Take;
    if l.open {
      var first := FirstBytes(l, m.n1);
      var second := SecondBytes(HeaderRead(l, first, m.end1), l.wire[|first|..], m.n2);
      AnyEvent(l.conn, sh, Logged(exec, i), Event(ReadOf(first, m.end1), ReadOf(second, m.end2), m.writes));
    }
  }

  lemma AnyEvent<T>(c: Conn, sh: T, exec: (T, string) -> (T, string), e: Event)
    ensures var r := HandleEvent(c, sh, exec, e); r.server == sh || exists body :: r.server == exec(sh, body).0
  {
    hide ReadHeader, ReadRequest, WriteResponse;
    var c1 := if c.state == READ_HEADER then ReadHeader(c, e.first).0 else c;
    var c2 := if c1.state == READ_REQUEST then ReadRequest(c1, e.second).0 else c1;
    AnyWrite(c2, sh, exec, e.writes);
  }

  lemma AnyWrite<T>(c: Conn, sh: T, exec: (T, string) -> (T, string), writes: seq<WriteResult>)
    ensures WriteResponse(c, sh, exec, writes).server == if c.response == "" then exec(sh, c.request).0 else sh
  {
    hide Send;
  }

  lemma TurnWaiting<S>(l: Link, sh: Shared<S>, exec: (S, string) -> (S, string), i: nat, m: Move)
    requires m.Turn? && m.end1 == m.end2 == Going && Waiting(l, Of(sh.log, i)) && InOrder(l.sent, Of(sh.log, i))
    ensures TurnKeeps(l, sh, exec, i, Serve(l, sh, Logged(exec, i), m))
  {
    hide ReadHeader, Of, Written;
    NothingRead(l.conn);
    assert l.out + "" == l.out;
    assert Serve(l, sh, Logged(exec, i), m).0 == l;
  }

  lemma TurnResponding<S>(l: Link, sh: Shared<S>, exec: (S, string) -> (S, string), i: nat, m: Move)
    requires m.Turn? && m.end1 == m.end2 == Going && Responding(l, Of(sh.log, i)) && InOrder(l.sent, Of(sh.log, i))
    ensures TurnKeeps(l, sh, exec, i, Serve(l, sh, Logged(exec, i), m))
  {
    hide WriteResponse, Of, Written;
    var es := Of(sh.log, i);
    var c, r := l.conn, Serve(l, sh, Logged(exec, i), m);
    ContinueResponse(c, sh, Logged(exec, i), m.writes);
    var w := WriteResponse(c, sh, Logged(exec, i), m.writes);
    var end := c.bytesWritten + |w.sent|;
    assert es == es[..|es| - 1] + [es[|es| - 1]];
    WrittenAppended(es[..|es| - 1], es[|es| - 1]);
    assert c.response[..c.bytesWritten] + w.sent == c.response[..end];
    Regroup(Written(es[..|es| - 1]), c.response[..c.bytesWritten], w.sent);
    assert r.0.out == Written(es[..|es| - 1]) + c.response[..end];
    AfterPiece(l, es, r.0, end);
  }

  /** Behind a piece of the response: more is to come, or the connection waits, or is lost. */
  lemma AfterPiece<S>(l: Link, es: seq<Entry<S>>, l': Link, end: nat)
    requires es != [] && |es| == |l.sent| && l'.sent == l.sent && l'.wire == "" && InOrder(l.sent, es)
    requires Written(es) == Written(es[..|es| - 1]) + es[|es| - 1].answer
    requires end <= |es[|es| - 1].answer| && l'.out == Written(es[..|es| - 1]) + es[|es| - 1].answer[..end]
    requires l'.open ==>
      if end == |es[|es| - 1].answer| then Idle(l'.conn) && l'.conn.request == l'.conn.response == ""
      else
        && l'.conn.state == WRITE_RESPONSE && l'.conn.keepAlive
        && l'.conn.response == es[|es| - 1].answer && l'.conn.bytesWritten == end
    ensures LinkOk(l', es)
  {
    hide Written;
    var response := es[|es| - 1].answer;
    assert response[..|response|] == response;
  }

  /** A turn while a request is on its way, as far as its reads are concerned. */
  lemma ServeReads<S>(l: Link, sh: Shared<S>, exec: (Shared<S>, string) -> (Shared<S>, string), m: Move, q: Message)
      returns (c2: Conn, n: nat)
    requires m.Turn? && m.end1 == m.end2 == Going && l.open && OnItsWay(l.conn, l.wire, q)
    ensures n <= |q.Bytes()| && c2.response == ""
    ensures n < |q.Bytes()| ==> OnItsWay(c2, q.Bytes()[n..], q)
    ensures n == |q.Bytes()| ==> c2.state == WRITE_RESPONSE && c2.request == q.body && c2.keepAlive
    ensures var w := if n < |q.Bytes()| then Result(c2, sh, "", true) else WriteResponse(c2, sh, exec, m.writes);
      Serve(l, sh, exec, m) == (Link(w.conn, q.Bytes()[n..], l.out + w.sent, w.ok, l.sent), w.server)
  {
    hide ReadHeader, WriteResponse, HandleEvent, WellFramed, Judged, PartOf;
    c2, n := ReadPhase(l.conn, q, |q.Bytes()| - |l.wire|, true, m.n1, m.n2, sh, exec, m.writes);
  }

  lemma TurnReceiving<S(!new)>(l: Link, sh: Shared<S>, exec: (S, string) -> (S, string), i: nat, m: Move)
    requires m.Turn? && m.end1 == m.end2 == Going && Receiving(l, Of(sh.log, i)) && InOrder(l.sent, Of(sh.log, i))
    requires Answers(exec)
    ensures TurnKeeps(l, sh, exec, i, Serve(l, sh, Logged(exec, i), m))
  {
    hide Serve, WriteResponse, OnItsWay, Of, Written, Logged;
    var q := l.sent[|l.sent| - 1];
    var c2, n := ServeReads(l, sh, Logged(exec, i), m, q);
    if n < |q.Bytes()| {
      assert l.out + "" == l.out;
    } else {
      assert q.Bytes()[n..] == "";
      Executed(l, sh, exec, i, m, c2);
    }
  }

  /** The complete request is executed, once, in the state the server is in. */
  lemma Executed<S(!new)>(l: Link, sh: Shared<S>, exec: (S, string) -> (S, string), i: nat, m: Move, c2: Conn)
    requires m.Turn? && Answers(exec) && l.sent != [] && InOrder(l.sent, Of(sh.log, i))
    requires |Of(sh.log, i)| == |l.sent| - 1 && l.out == Written(Of(sh.log, i))
    requires c2.state == WRITE_RESPONSE && c2.request == l.sent[|l.sent| - 1].body && c2.keepAlive && c2.response == ""
    ensures var w := WriteResponse(c2, sh, Logged(exec, i), m.writes);
      TurnKeeps(l, sh, exec, i, (Link(w.conn, "", l.out + w.sent, w.ok, l.sent), w.server))
  {
    hide WriteResponse, Of, Written, Logged;
    var body := c2.request;
    var e := Entry(i, body, sh.server, exec(sh.server, body).1);
    LoggedRun(exec, i, sh, body);
    StartResponse(c2, sh, Logged(exec, i), m.writes);
    var w := WriteResponse(c2, sh, Logged(exec, i), m.writes);
    var l' := Link(w.conn, "", l.out + w.sent, w.ok, l.sent);
    var es := Of(sh.log, i);
    OfAppended(sh.log, e, i);
    WrittenAppended(es, e);
    assert (es + [e])[..|es|] == es;
    AfterPiece(l, es + [e], l', |w.sent|);
    assert w.server == Logged(exec, i)(sh, body).0;
  }

  lemma TurnKept<S(!new)>(l: Link, sh: Shared<S>, exec: (S, string) -> (S, string), i: nat, m: Move)
    requires m.Turn? && LinkOk(l, Of(sh.log, i)) && Answers(exec)
    ensures TurnKeeps(l, sh, exec, i, Serve(l, sh, Logged(exec, i), m))
  {
    hide Of, Written, Waiting, Receiving, Responding, InOrder, Logged;
    var es := Of(sh.log, i);
    if l.open {
      OpenIsPrefix(l, es);
      var m' := m.(end1 := Going, end2 := Going);
      if Waiting(l, es) { TurnWaiting(l, sh, exec, i, m'); }
      else if Receiving(l, es) { TurnReceiving(l, sh, exec, i, m'); }
      else { TurnResponding(l, sh, exec, i, m'); }
      ServeFaults(l, sh, Logged(exec, i), m);
    }
  }

  /** At any time a connection has written the beginning of its answers. */
  lemma OpenIsPrefix<S>(l: Link, es: seq<Entry<S>>)
    requires LinkOk(l, es)
    ensures l.out <= Written(es)
  {
    hide PartOf, WellFramed, Judged;
    if l.open && Responding(l, es) {
      assert es == es[..|es| - 1] + [es[|es| - 1]];
      WrittenAppended(es[..|es| - 1], es[|es| - 1]);
      var r, n := l.conn.response, l.conn.bytesWritten;
      assert Written(es) == Written(es[..|es| - 1]) + r;
      assert l.out == Written(es)[..|Written(es[..|es| - 1])| + n];
    }
  }

  // ---------------------------------------------------------------------- the hub

  lemma SameLog<S>(h: Hub<S>, h': Hub<S>, good: set<nat>, server0: S, exec: (S, string) -> (S, string))
    requires HubOk(h, good, server0, exec) && h'.shared == h.shared && |h.links| <= |h'.links|
    requires forall i | 0 <= i < |h'.links| && i in good ::
      (i < |h.links| && h'.links[i] == h.links[i]) || LinkOk(h'.links[i], Of(h.shared.log, i))
    ensures HubOk(h', good, server0, exec)
  {
    hide LinkOk, Of, Chained;
  }

  lemma DialKeeps<S>(h: Hub<S>, good: set<nat>, server0: S, exec: (S, string) -> (S, string))
    requires HubOk(h, good, server0, exec)
    ensures HubOk(Step(h, Dial, exec), good, server0, exec)
  {
    hide Chained;
    var n := |h.links|;
    OfNone(h.shared.log, n);
    var none: seq<Entry<S>> := [];
    assert Waiting(FRESH, none);
    SameLog(h, Step(h, Dial, exec), good, server0, exec);
  }

  lemma RequestKeeps<S>(h: Hub<S>, m: Move, good: set<nat>, server0: S, exec: (S, string) -> (S, string))
    requires HubOk(h, good, server0, exec) && m.Request? && Sound(m, good)
    ensures HubOk(Step(h, m, exec), good, server0, exec)
  {
    hide Chained, Of, WellFramed, Judged;
    if m.i < |h.links| && CanSend(h.links[m.i]) {
      if m.i in good {
        RequestReceived(h.links[m.i], Of(h.shared.log, m.i), m.q);
      }
      SameLog(h, Step(h, m, exec), good, server0, exec);
    }
  }

  lemma RequestReceived<S>(l: Link, es: seq<Entry<S>>, q: Message)
    requires LinkOk(l, es) && CanSend(l) && WellFramed(q, false) && KeptAlive(q)
    ensures LinkOk(l.(wire := q.Bytes(), sent := l.sent + [q]), es)
  {
    hide Written, WellFramed, Judged;
    NonemptyBody(q);
    assert q.Bytes()[..0] == "" && q.Bytes()[0..] == q.Bytes();
    var l' := l.(wire := q.Bytes(), sent := l.sent + [q]);
    assert Receiving(l', es);
  }

  lemma RawKeeps<S>(h: Hub<S>, m: Move, good: set<nat>, server0: S, exec: (S, string) -> (S, string))
    requires HubOk(h, good, server0, exec) && m.Raw? && Sound(m, good)
    ensures HubOk(Step(h, m, exec), good, server0, exec)
  {
    hide Chained, LinkOk, Of;
    SameLog(h, Step(h, m, exec), good, server0, exec);
  }

  lemma TurnStep<S(!new)>(h: Hub<S>, m: Move, good: set<nat>, server0: S, exec: (S, string) -> (S, string))
    requires HubOk(h, good, server0, exec) && m.Turn? && Answers(exec)
    ensures HubOk(Step(h, m, exec), good, server0, exec)
  {
    hide LinkOk, Of, Chained, Serve, Logged;
    if m.i < |h.links| {
      var r := Serve(h.links[m.i], h.shared, Logged(exec, m.i), m);
      AnyTurn(h.links[m.i], h.shared, exec, m.i, m);
      if m.i in good {
        TurnKept(h.links[m.i], h.shared, exec, m.i, m);
      }
      if r.1 == h.shared {
        SameLog(h, Step(h, m, exec), good, server0, exec);
      } else {
        var body :| r.1 == Logged(exec, m.i)(h.shared, body).0;
        LoggedRun(exec, m.i, h.shared, body);
        var e := Entry(m.i, body, h.shared.server, exec(h.shared.server, body).1);
        ChainedNext(h.shared, server0, exec, e);
        forall i | 0 <= i < |h.links| && i in good && i != m.i ensures LinkOk(h.links[i], Of(r.1.log, i)) {
          OfAppended(h.shared.log, e, i);
          assert LinkOk(h.links[i], Of(h.shared.log, i));
          assert Of(h.shared.log, i) + [] == Of(h.shared.log, i);
        }
      }
    }
  }

  lemma ChainedNext<S>(sh: Shared<S>, server0: S, exec: (S, string) -> (S, string), e: Entry<S>)
    requires Chained(sh, server0, exec) && e.before == sh.server && e.answer == exec(sh.server, e.body).1
    ensures Chained(Shared(exec(sh.server, e.body).0, sh.log + [e]), server0, exec)
  {
    assert (sh.log + [e])[..|sh.log|] == sh.log;
  }

  /** Every run of the server, over any connections and whatever their sockets do: the
      server's state is what the logged executions made of it, one after the other. On
      each connection in `good` the executions are those of its requests, in order and
      at most once each, and what it has written is the beginning of their answers,
      whatever comes in on the other connections. */
  lemma {:induction false} HubRun<S(!new)>(
      h: Hub<S>, moves: seq<Move>, good: set<nat>, server0: S, exec: (S, string) -> (S, string))
    requires HubOk(h, good, server0, exec) && Answers(exec)
    requires forall k | 0 <= k < |moves| :: Sound(moves[k], good)
    ensures HubOk(RunHub(h, moves, exec), good, server0, exec)
    decreases moves
  {
    hide HubOk, Step, Sound, Answers;
    if moves == [] {
    } else {
      var m := moves[0];
      match m {
        case Dial => DialKeeps(h, good, server0, exec);
        case Request(_, _) => RequestKeeps(h, m, good, server0, exec);
        case Raw(_, _) => RawKeeps(h, m, good, server0, exec);
        case Turn(_, _, _, _, _, _) => TurnStep(h, m, good, server0, exec);
      }
      HubRun(Step(h, m, exec), moves[1..], good, server0, exec);
    }
  }

  // ------------------------------------------------------------------- runs only add

  /** Connections stay, and the log goes on. */
  predicate Extends<S(==)>(h: Hub<S>, h': Hub<S>) {
    |h.links| <= |h'.links| && h.shared.log <= h'.shared.log
  }

  lemma StepExtends<S>(h: Hub<S>, m: Move, exec: (S, string) -> (S, string))
    ensures Extends(h, Step(h, m, exec))
  {
    hide Serve, Logged;
    if m.Turn? && m.i < |h.links| {
      AnyTurn(h.links[m.i], h.shared, exec, m.i, m);
      var r := Serve(h.links[m.i], h.shared, Logged(exec, m.i), m);
      if r.1 != h.shared {
        var body :| r.1 == Logged(exec, m.i)(h.shared, body).0;
        LoggedRun(exec, m.i, h.shared, body);
      }
    }
  }

  lemma {:induction false} RunExtends<S>(h: Hub<S>, moves: seq<Move>, exec: (S, string) -> (S, string))
    ensures Extends(h, RunHub(h, moves, exec))
    decreases moves
  {
    hide Step;
    if moves == [] {
    } else {
      StepExtends(h, moves[0], exec);
      RunExtends(Step(h, moves[0], exec), moves[1..], exec);
    }
  }

  lemma {:induction false} OfExtends<S>(log: seq<Entry<S>>, log': seq<Entry<S>>, i: nat)
    requires log <= log'
    ensures Of(log, i) <= Of(log', i)
    decreases log'
  {
    if log == log' {
    } else {
      assert log <= log'[..|log'| - 1];
      OfExtends(log, log'[..|log'| - 1], i);
    }
  }

  /** Each answer is what the execution gave, in the state it began in. */
  lemma {:induction false} AnswersTrue<S>(sh: Shared<S>, server0: S, exec: (S, string) -> (S, string), i: nat, k: nat)
    requires Chained(sh, server0, exec) && k < |Of(sh.log, i)|
    ensures var e := Of(sh.log, i)[k]; e.answer == exec(e.before, e.body).1
    decreases |sh.log|
  {
    var last, front := sh.log[|sh.log| - 1], sh.log[..|sh.log| - 1];
    if k < |Of(front, i)| {
      AnswersTrue(Shared(last.before, front), server0, exec, i, k);
    }
  }

  /** Nothing happens any more on a connection that is closed. */
  lemma ClosedStep<S>(h: Hub<S>, m: Move, i: nat, exec: (S, string) -> (S, string))
    requires i < |h.links| && !h.links[i].open
    ensures var h' := Step(h, m, exec);
      i < |h'.links| && h'.links[i] == h.links[i] && Of(h'.shared.log, i) == Of(h.shared.log, i)
  {
    hide Logged, Of, HandleEvent;
    if m.Turn? && m.i < |h.links| && m.i != i {
      AnyTurn(h.links[m.i], h.shared, exec, m.i, m);
      var r := Serve(h.links[m.i], h.shared, Logged(exec, m.i), m);
      if r.1 != h.shared {
        var body :| r.1 == Logged(exec, m.i)(h.shared, body).0;
        LoggedRun(exec, m.i, h.shared, body);
        OfAppended(h.shared.log, Entry(m.i, body, h.shared.server, exec(h.shared.server, body).1), i);
        assert Of(h.shared.log, i) + [] == Of(h.shared.log, i);
      }
    }
  }

  lemma {:induction false} ClosedRun<S>(h: Hub<S>, moves: seq<Move>, i: nat, exec: (S, string) -> (S, string))
    requires i < |h.links| && !h.links[i].open
    ensures var h' := RunHub(h, moves, exec);
      i < |h'.links| && h'.links[i] == h.links[i] && Of(h'.shared.log, i) == Of(h.shared.log, i)
    decreases moves
  {
    hide Step, Of;
    if moves == [] {
    } else {
      ClosedStep(h, moves[0], i, exec);
      ClosedRun(Step(h, moves[0], exec), moves[1..], i, exec);
    }
  }

  // -------------------------------------------------------------- a request at one turn

  /** When all bytes can be read, none stays on its way. */
  lemma ServeReadsAll<S>(l: Link, sh: Shared<S>, exec: (Shared<S>, string) -> (Shared<S>, string), m: Move, q: Message)
    requires m.Turn? && m.end1 == m.end2 == Going && l.open && OnItsWay(l.conn, l.wire, q)
    requires m.n1 >= |l.wire| && m.n2 >= |l.wire|
    ensures Serve(l, sh, exec, m).0.wire == ""
  {
    hide HandleEvent, ReadHeader, WellFramed, Judged;
    PartState(l.conn, q, |q.Bytes()| - |l.wire|, true);
  }

  /** A turn in which the whole of a first request can be read executes it; what is
      written of the answer is up to the socket. */
  lemma WholeTurn<S>(l: Link, sh: Shared<S>, exec: (S, string) -> (S, string), i: nat, m: Move, q: Message)
    requires m.Turn? && m.end1 == m.end2 == Going && WellFramed(q, false) && KeptAlive(q)
    requires l == FRESH.(wire := q.Bytes(), sent := [q]) && m.n1 >= |q.Bytes()| && m.n2 >= |q.Bytes()|
    requires exec(sh.server, q.body).1 != ""
    ensures var (l', sh') := Serve(l, sh, Logged(exec, i), m); var (after, answer) := exec(sh.server, q.body);
      && sh' == Shared(after, sh.log + [Entry(i, q.body, sh.server, answer)]) && l'.sent == [q]
      && (m.writes == [] ==> l'.out == "") && (m.writes == [Wrote(|answer|)] ==> l'.out == answer)
  {
    hide Serve, WriteResponse, WellFramed, Judged, Logged;
    NonemptyBody(q);
    assert q.Bytes()[..0] == "" && q.Bytes()[0..] == q.Bytes();
    assert OnItsWay(l.conn, l.wire, q);
    var c2, n := ServeReads(l, sh, Logged(exec, i), m, q);
    ServeReadsAll(l, sh, Logged(exec, i), m, q);
    assert n == |q.Bytes()|;
    LoggedRun(exec, i, sh, q.body);
    StartResponse(c2, sh, Logged(exec, i), m.writes);
    SendWhole(|exec(sh.server, q.body).1|);
  }

  lemma SendWhole(n: nat)
    requires n > 0
    ensures Send([], n).sent == 0 && Send([Wrote(n)], n).sent == n
  {
    var none: seq<WriteResult> := [];
    assert [Wrote(n)][1..] == none;
  }
}
