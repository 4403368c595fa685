/** Runs of a keep-alive connection: the bytes of each request arrive in arbitrary
    fragments, the response leaves in arbitrary pieces, and the next request is sent
    when the response to the one before it is out. */
module ServerSession {
  import opened Text
  import opened HttpHeader
  import opened XmlRpcSource
  import opened ServerConnection
  import opened Framing

  /** Whether the connection is kept comes out as `keep` wherever the bytes are cut. */
  predicate Judged(q: Message, keep: bool) {
    var kp := ScanText(q.header, false).connection;
    forall n | |q.header| < n <= |q.Bytes()| :: KeepAlive(q.Bytes()[..n], kp) == keep
  }

  /** The connection is kept: see `KeptExactly`. */
  predicate KeptAlive(q: Message) {
    Judged(q, true)
  }

  datatype Session<S> = Session(
    conn: Conn,
    server: S,
    wire: string,           // sent by the client, not yet read
    pending: seq<Message>,  // requests the client has yet to send
    out: string,            // everything written so far
    open: bool)

  /** The environment's moves: the client sends its next request, or the dispatcher
      reports an event in which up to `n1` and then `n2` bytes can be read. */
  datatype Action = Arrive | Poll(n1: nat, n2: nat, writes: seq<WriteResult>)

  predicate Idle(c: Conn) {
    c.state == READ_HEADER && c.header == ""
  }

  function Next<S>(s: Session<S>, a: Action, exec: (S, string) -> (S, string)): Session<S> {
    match a
    case Arrive =>
      if s.open && Idle(s.conn) && s.wire == "" && s.pending != [] then
        s.(wire := s.pending[0].Bytes(), pending := s.pending[1..])
      else s
    case Poll(n1, n2, writes) =>
      if !s.open then s
      else
        var first := if s.conn.state == READ_HEADER then Take(s.wire, n1) else "";
        var wire1 := s.wire[|first|..];
        var c1 := if s.conn.state == READ_HEADER then ReadHeader(s.conn, Got(first)).0 else s.conn;
        var second := if WantsMore(c1) then Take(wire1, n2) else "";
        var r := HandleEvent(s.conn, s.server, exec, Event(Got(first), Got(second), writes));
        Session(r.conn, r.server, wire1[|second|..], s.pending, s.out + r.sent, r.ok)
  }

  function Run<S>(s: Session<S>, actions: seq<Action>, exec: (S, string) -> (S, string)): Session<S>
    decreases actions
  {
    if actions == [] then s else Run(Next(s, actions[0], exec), actions[1..], exec)
  }

  // ------------------------------------------------------------- the specification

  /** The server after it has executed the bodies of `qs` in order. */
  function After<S>(server: S, qs: seq<Message>, exec: (S, string) -> (S, string)): S
    decreases qs
  {
    if qs == [] then server else exec(After(server, qs[..|qs| - 1], exec), qs[|qs| - 1].body).0
  }

  /** The response to the last of `qs`, and all responses in order. */
  function Response<S>(server: S, qs: seq<Message>, exec: (S, string) -> (S, string)): string
    requires qs != []
  {
    exec(After(server, qs[..|qs| - 1], exec), qs[|qs| - 1].body).1
  }

  function Responses<S>(server: S, qs: seq<Message>, exec: (S, string) -> (S, string)): string
    decreases qs
  {
    if qs == [] then "" else Responses(server, qs[..|qs| - 1], exec) + Response(server, qs, exec)
  }

  /** Where a session stands: nothing on its way, a request partly received, or a
      response partly written. `sent` lists the requests the client has sent. */
  ghost predicate Between<S>(s: Session<S>, server0: S, sent: seq<Message>, exec: (S, string) -> (S, string)) {
    && Idle(s.conn) && s.conn.request == s.conn.response == "" && s.wire == ""
    && s.out == Responses(server0, sent, exec)
    && s.server == After(server0, sent, exec)
  }

  ghost predicate Receiving<S>(s: Session<S>, server0: S, sent: seq<Message>, exec: (S, string) -> (S, string)) {
    && sent != [] && WellFramed(sent[|sent| - 1], false) && KeptAlive(sent[|sent| - 1])
    && s.conn.response == "" && s.wire != ""
    && s.out == Responses(server0, sent[..|sent| - 1], exec)
    && s.server == After(server0, sent[..|sent| - 1], exec)
    && var q := sent[|sent| - 1];
    && |s.wire| <= |q.Bytes()| && s.wire == q.Bytes()[|q.Bytes()| - |s.wire|..]
    && PartOf(s.conn, q, |q.Bytes()| - |s.wire|, true)
  }

  /** After `n` bytes of a request the buffers hold exactly these bytes. */
  predicate PartOf(c: Conn, q: Message, n: nat, keep: bool)
    requires n <= |q.Bytes()|
  {
    if n <= |q.header| then c.state == READ_HEADER && c.header == q.Bytes()[..n] && c.request == ""
    else
      && c.state == READ_REQUEST && c.keepAlive == keep && c.contentLength == |q.body|
      && c.request == q.body[..n - |q.header|]
  }

  ghost predicate Responding<S>(s: Session<S>, server0: S, sent: seq<Message>, exec: (S, string) -> (S, string)) {
    && sent != [] && s.conn.state == WRITE_RESPONSE && s.conn.keepAlive && s.wire == ""
    && s.conn.response == Response(server0, sent, exec)
    && s.conn.bytesWritten < |s.conn.response|
    && s.out == Responses(server0, sent[..|sent| - 1], exec) + s.conn.response[..s.conn.bytesWritten]
    && s.server == After(server0, sent, exec)
  }

  ghost predicate Invariant<S>(s: Session<S>, server0: S, sent: seq<Message>, exec: (S, string) -> (S, string)) {
    && s.open
    && (Between(s, server0, sent, exec) || Receiving(s, server0, sent, exec) || Responding(s, server0, sent, exec))
  }

  // ------------------------------------------------------------------ the fragments

  /** Bytes of a request reach `readHeader`: the header stays incomplete, or the
      request buffer starts to fill. */
  lemma HeaderFragment(c: Conn, q: Message, m: nat, n: nat, keep: bool)
    requires WellFramed(q, false) && Judged(q, keep)
    requires m <= n <= |q.Bytes()| && m <= |q.header| && PartOf(c, q, m, keep)
    ensures var (c', ok) := ReadHeader(c, Got(q.Bytes()[m..n]));
      ok && PartOf(c', q, n, keep) && c'.response == c.response
  {
    hide Look, ScanText, KeepAlive, Atoi, CString, NulFree;
    var received := q.Bytes()[..n];
    assert c.header + q.Bytes()[m..n] == received;
    LookAtFragment(q.header, q.body, n, false);
    if n > |q.header| {
      assert q.header <= received;
      LengthStays(q.header, received, ScanText(q.header, false).length.value, false);
      BodyPart(q, n);
    }
  }

  /** Bytes of a request reach `readRequest`. */
  lemma RequestFragment(c: Conn, q: Message, m: nat, n: nat, keep: bool)
    requires |q.header| < m <= n <= |q.Bytes()| && PartOf(c, q, m, keep)
    ensures var (c', ok) := ReadRequest(c, Got(q.Bytes()[m..n]));
      && ok && c'.response == c.response && c'.keepAlive == keep
      && (if n < |q.Bytes()| then PartOf(c', q, n, keep) else c'.state == WRITE_RESPONSE && c'.request == q.body)
  {
    var h := |q.header|;
    assert q.Bytes()[m..n] == q.body[m - h..n - h];
    assert q.body[..m - h] + q.body[m - h..n - h] == q.body[..n - h];
    assert q.body[..|q.body|] == q.body;
  }

  /** The reads of one event: the request stays incomplete, or it is complete and
      goes to `writeResponse`. */
  lemma ReadPhase<S>(
      c: Conn, q: Message, m: nat, keep: bool, n1: nat, n2: nat,
      server: S, exec: (S, string) -> (S, string), writes: seq<WriteResult>)
      returns (c2: Conn, n: nat)
    requires WellFramed(q, false) && Judged(q, keep) && m < |q.Bytes()| && PartOf(c, q, m, keep) && c.response == ""
    ensures m <= n <= |q.Bytes()| && c2.response == ""
    ensures n < |q.Bytes()| ==> PartOf(c2, q, n, keep)
    ensures n == |q.Bytes()| ==> c2.state == WRITE_RESPONSE && c2.request == q.body && c2.keepAlive == keep
    ensures var wire := q.Bytes()[m..];
      var first := if c.state == READ_HEADER then Take(wire, n1) else "";
      var wire1 := wire[|first|..];
      var c1 := if c.state == READ_HEADER then ReadHeader(c, Got(first)).0 else c;
      var second := if WantsMore(c1) then Take(wire1, n2) else "";
      && wire1[|second|..] == q.Bytes()[n..]
      && HandleEvent(c, server, exec, Event(Got(first), Got(second), writes)) ==
        if n < |q.Bytes()| then Result(c2, server, "", true) else WriteResponse(c2, server, exec, writes)
  {
    hide ReadHeader, ReadRequest, WriteResponse, WellFramed, Judged, PartOf;
    var all := q.Bytes();
    var wire := all[m..];
    PartState(c, q, m, keep);
    if c.state == READ_HEADER {
      var first := Take(wire, n1);
      var m1 := m + |first|;
      assert first == all[m..m1];
      assert wire[|first|..] == all[m1..];
      HeaderFragment(c, q, m, m1, keep);
      var c1 := ReadHeader(c, Got(first)).0;
      PartState(c1, q, m1, keep);
      if c1.state == READ_HEADER {
        c2, n := c1, m1;
      } else {
        c2, n := RequestPhase(c1, q, m1, keep, n2);
      }
    } else {
      assert wire[0..] == wire;
      c2, n := RequestPhase(c, q, m, keep, n2);
    }
  }

  lemma PartState(c: Conn, q: Message, n: nat, keep: bool)
    requires n <= |q.Bytes()| && PartOf(c, q, n, keep)
    ensures c.state == if n <= |q.header| then READ_HEADER else READ_REQUEST
    ensures WantsMore(c) <==> |q.header| < n < |q.Bytes()|
    ensures WellFramed(q, false) ==> |q.body| > 0
  {
    hide IsHeader, ScanText, Atoi, NulFree;
  }

  lemma RequestPhase(c: Conn, q: Message, m: nat, keep: bool, n2: nat) returns (c2: Conn, n: nat)
    requires |q.header| < m <= |q.Bytes()| && PartOf(c, q, m, keep) && c.response == ""
    ensures m <= n <= |q.Bytes()| && c2.response == ""
    ensures n < |q.Bytes()| ==> PartOf(c2, q, n, keep) && c2.state == READ_REQUEST
    ensures n == |q.Bytes()| ==> c2.state == WRITE_RESPONSE && c2.request == q.body && c2.keepAlive == keep
    ensures var second := if WantsMore(c) then Take(q.Bytes()[m..], n2) else "";
      q.Bytes()[m..][|second|..] == q.Bytes()[n..] && ReadRequest(c, Got(second)) == (c2, true)
  {
    hide ReadRequest;
    var all := q.Bytes();
    var second := if WantsMore(c) then Take(all[m..], n2) else "";
    n := m + |second|;
    PartState(c, q, m, keep);
    assert second == all[m..n];
    assert all[m..][|second|..] == all[n..];
    RequestFragment(c, q, m, n, keep);
    c2 := ReadRequest(c, Got(second)).0;
    if n < |all| {
      PartState(c2, q, n, keep);
    }
  }

  /** `writeResponse` on a complete request executes it once and writes a first piece. */
  lemma StartResponse<S>(c: Conn, server: S, exec: (S, string) -> (S, string), writes: seq<WriteResult>)
    requires c.state == WRITE_RESPONSE && c.response == "" && c.keepAlive
    requires exec(server, c.request).1 != ""
    ensures var r := WriteResponse(c, server, exec, writes); var (server', response) := exec(server, c.request);
      && r.server == server' && |r.sent| <= |response| && r.sent == response[..|r.sent|]
      && |r.sent| == Send(writes, |response|).sent
      && (r.ok ==>
        if |r.sent| == |response| then Idle(r.conn) && r.conn.request == r.conn.response == ""
        else r.conn == c.(response := response, bytesWritten := |r.sent|))
      && (r.ok <==> Send(writes, |response|).ok)
  {
    hide Send;
  }

  lemma ContinueResponse<S>(c: Conn, server: S, exec: (S, string) -> (S, string), writes: seq<WriteResult>)
    requires c.state == WRITE_RESPONSE && c.bytesWritten < |c.response| && c.keepAlive
    ensures var r := WriteResponse(c, server, exec, writes); var end := c.bytesWritten + |r.sent|;
      && r.server == server && end <= |c.response| && r.sent == c.response[c.bytesWritten..end]
      && (r.ok ==>
        if end == |c.response| then Idle(r.conn) && r.conn.request == r.conn.response == ""
        else r.conn == c.(bytesWritten := end))
      && (r.ok <==> Send(writes, |c.response| - c.bytesWritten).ok)
  {
    hide Send;
  }

  // ---------------------------------------------------------------- the invariant

  /** The requests still to be sent can be served, and no write fails. */
  predicate NoWriteError(writes: seq<WriteResult>) {
    forall i | 0 <= i < |writes| :: writes[i] != WriteError
  }

  predicate Fair(a: Action) {
    a.Poll? ==> NoWriteError(a.writes)
  }

  lemma {:induction false} SendSucceeds(writes: seq<WriteResult>, left: nat)
    requires NoWriteError(writes)
    ensures Send(writes, left).ok
    decreases |writes|
  {
    if left > 0 && writes != [] && writes[0].Wrote? {
      SendSucceeds(writes[1..], left - if writes[0].n < left then writes[0].n else left);
    }
  }

  lemma OutGrows<S>(server0: S, sent: seq<Message>, exec: (S, string) -> (S, string), out: string, piece: string)
    requires sent != [] && out == Responses(server0, sent[..|sent| - 1], exec) && piece == Response(server0, sent, exec)
    ensures out + piece == Responses(server0, sent, exec)
  {
  }

  /** A poll while a request is being received, as far as its reads are concerned. */
  lemma NextReceiving<S>(s: Session<S>, server0: S, sent: seq<Message>, exec: (S, string) -> (S, string), a: Action)
      returns (c2: Conn, n: nat)
    requires a.Poll? && s.open && Receiving(s, server0, sent, exec)
    ensures var q := sent[|sent| - 1];
      && n <= |q.Bytes()| && c2.response == ""
      && (n < |q.Bytes()| ==> PartOf(c2, q, n, true))
      && (n == |q.Bytes()| ==> c2.state == WRITE_RESPONSE && c2.request == q.body && c2.keepAlive)
      && var r := if n < |q.Bytes()| then Result(c2, s.server, "", true)
        else WriteResponse(c2, s.server, exec, a.writes);
         Next(s, a, exec) == Session(r.conn, r.server, q.Bytes()[n..], s.pending, s.out + r.sent, r.ok)
  {
    hide ReadHeader, WriteResponse, HandleEvent, WellFramed, Judged, PartOf, Responses, After;
    var q := sent[|sent| - 1];
    var m := |q.Bytes()| - |s.wire|;
    c2, n := ReadPhase(s.conn, q, m, true, a.n1, a.n2, s.server, exec, a.writes);
  }

  lemma PollReceiving<S(!new)>(
      s: Session<S>, server0: S, sent: seq<Message>, exec: (S, string) -> (S, string), a: Action)
    requires a.Poll? && Fair(a) && s.open && Receiving(s, server0, sent, exec)
    requires forall server, body :: exec(server, body).1 != ""
    ensures Invariant(Next(s, a, exec), server0, sent, exec)
  {
    hide Next, WriteResponse, WellFramed, Judged, PartOf, Responses, After;
    var q := sent[|sent| - 1];
    var c2, n := NextReceiving(s, server0, sent, exec, a);
    if n < |q.Bytes()| {
      assert Receiving(Next(s, a, exec), server0, sent, exec);
    } else {
      Completed(s, server0, sent, exec, a, c2);
    }
  }

  lemma Completed<S(!new)>(
      s: Session<S>, server0: S, sent: seq<Message>, exec: (S, string) -> (S, string), a: Action, c2: Conn)
    requires a.Poll? && Fair(a) && sent != []
    requires s.server == After(server0, sent[..|sent| - 1], exec)
      && s.out == Responses(server0, sent[..|sent| - 1], exec)
    requires c2.state == WRITE_RESPONSE && c2.request == sent[|sent| - 1].body && c2.keepAlive && c2.response == ""
    requires exec(s.server, c2.request).1 != ""
    ensures var r := WriteResponse(c2, s.server, exec, a.writes);
      var s' := Session(r.conn, r.server, "", s.pending, s.out + r.sent, r.ok);
      var length := |Response(server0, sent, exec)|;
      && Invariant(s', server0, sent, exec)
      && (Send(a.writes, length).sent == length ==> Between(s', server0, sent, exec))
  {
    hide WriteResponse, Responses, After, Response, Send;
    StartResponse(c2, s.server, exec, a.writes);
    var response := exec(s.server, c2.request).1;
    Executed(server0, sent, exec, s.server);
    SendSucceeds(a.writes, |response|);
    var r := WriteResponse(c2, s.server, exec, a.writes);
    var s' := Session(r.conn, r.server, "", s.pending, s.out + r.sent, r.ok);
    if |r.sent| == |response| {
      assert r.sent == response;
      OutGrows(server0, sent, exec, s.out, response);
      assert Between(s', server0, sent, exec);
    } else {
      assert Responding(s', server0, sent, exec);
    }
  }

  lemma Executed<S>(server0: S, sent: seq<Message>, exec: (S, string) -> (S, string), server: S)
    requires sent != [] && server == After(server0, sent[..|sent| - 1], exec)
    ensures exec(server, sent[|sent| - 1].body) == (After(server0, sent, exec), Response(server0, sent, exec))
  {
  }

  lemma PollResponding<S>(s: Session<S>, server0: S, sent: seq<Message>, exec: (S, string) -> (S, string), a: Action)
    requires a.Poll? && Fair(a) && s.open && Responding(s, server0, sent, exec)
    ensures Invariant(Next(s, a, exec), server0, sent, exec)
  {
    hide WriteResponse, Responses, Response, After;
    var s' := Next(s, a, exec);
    var c := s.conn;
    ContinueResponse(c, s.server, exec, a.writes);
    SendSucceeds(a.writes, |c.response| - c.bytesWritten);
    var r := WriteResponse(c, s.server, exec, a.writes);
    var end := c.bytesWritten + |r.sent|;
    assert c.response[..c.bytesWritten] + r.sent == c.response[..end];
    Regroup(Responses(server0, sent[..|sent| - 1], exec), c.response[..c.bytesWritten], r.sent);
    if end == |c.response| {
      assert c.response[..end] == c.response;
      OutGrows(server0, sent, exec, Responses(server0, sent[..|sent| - 1], exec), c.response);
      assert Between(s', server0, sent, exec);
    } else {
      assert Responding(s', server0, sent, exec);
    }
  }

  lemma PollBetween<S>(s: Session<S>, server0: S, sent: seq<Message>, exec: (S, string) -> (S, string), a: Action)
    requires a.Poll? && s.open && Between(s, server0, sent, exec)
    ensures Next(s, a, exec).conn == s.conn && Invariant(Next(s, a, exec), server0, sent, exec)
  {
    hide Responses, After, ReadHeader;
    NothingRead(s.conn);
    assert Between(Next(s, a, exec), server0, sent, exec);
  }

  lemma NothingRead(c: Conn)
    requires Idle(c)
    ensures ReadHeader(c, Got("")) == (c, true)
  {
    hide Atoi, KeepAlive, CString;
  }

  lemma ArriveKeeps<S>(s: Session<S>, server0: S, sent: seq<Message>, exec: (S, string) -> (S, string))
    requires s.open && Between(s, server0, sent, exec) && s.pending != []
    requires WellFramed(s.pending[0], false) && KeptAlive(s.pending[0])
    ensures Invariant(Next(s, Arrive, exec), server0, sent + [s.pending[0]], exec)
  {
    hide Responses, After, WellFramed, Judged;
    var s' := Next(s, Arrive, exec);
    var q := s.pending[0];
    var sent' := sent + [q];
    assert sent'[..|sent'| - 1] == sent;
    NonemptyBody(q);
    assert q.Bytes()[..0] == "";
    assert PartOf(s'.conn, q, 0, true);
    assert Receiving(s', server0, sent', exec);
  }

  lemma NonemptyBody(q: Message)
    requires WellFramed(q, false)
    ensures |q.body| > 0
  {
  }

  /** Every move keeps the invariant; arrivals take the next pending request. */
  lemma InvariantKept<S(!new)>(
      s: Session<S>, server0: S, sent: seq<Message>, exec: (S, string) -> (S, string), a: Action)
      returns (sent': seq<Message>)
    requires Invariant(s, server0, sent, exec) && Fair(a)
    requires forall q | q in s.pending :: WellFramed(q, false) && KeptAlive(q)
    requires forall server, body :: exec(server, body).1 != ""
    ensures Invariant(Next(s, a, exec), server0, sent', exec)
    ensures sent' + Next(s, a, exec).pending == sent + s.pending
  {
    hide WellFramed, Judged, HandleEvent, ReadHeader, After, Responses, Response, PartOf;
    sent' := sent;
    if a.Poll? {
      if Between(s, server0, sent, exec) {
        PollBetween(s, server0, sent, exec, a);
      } else if Receiving(s, server0, sent, exec) {
        PollReceiving(s, server0, sent, exec, a);
      } else {
        PollResponding(s, server0, sent, exec, a);
      }
    } else if Idle(s.conn) && s.wire == "" && s.pending != [] {
      ArriveKeeps(s, server0, sent, exec);
      sent' := sent + [s.pending[0]];
    }
  }

  function Start<S>(server: S, qs: seq<Message>): Session<S> {
    Session(Conn(READ_HEADER, "", 0, "", "", 0, true), server, "", qs, "", true)
  }

  /** The whole run, by induction over the moves. */
  lemma {:induction false} RunKeeps<S(!new)>(
      s: Session<S>, server0: S, sent: seq<Message>, actions: seq<Action>, exec: (S, string) -> (S, string))
      returns (sent': seq<Message>)
    requires Invariant(s, server0, sent, exec)
    requires forall i | 0 <= i < |actions| :: Fair(actions[i])
    requires forall q | q in s.pending :: WellFramed(q, false) && KeptAlive(q)
    requires forall server, body :: exec(server, body).1 != ""
    ensures Invariant(Run(s, actions, exec), server0, sent', exec)
    ensures sent' + Run(s, actions, exec).pending == sent + s.pending
    decreases actions
  {
    hide Invariant, Next, Fair, WellFramed, Judged;
    sent' := sent;
    if actions == [] {
    } else {
      var next := Next(s, actions[0], exec);
      var sent1 := InvariantKept(s, server0, sent, exec, actions[0]);
      PendingShrinks(s, actions[0], exec);
      sent' := RunKeeps(next, server0, sent1, actions[1..], exec);
    }
  }

  lemma PendingShrinks<S>(s: Session<S>, a: Action, exec: (S, string) -> (S, string))
    ensures forall q | q in Next(s, a, exec).pending :: q in s.pending
  {
    hide HandleEvent, ReadHeader;
  }

  /** Whatever the fragments and the pieces: the connection stays open, what has been
      written is a part, from the start, of the responses to the requests in order,
      each executed once on its exact body, and it is all of them once the last
      response is out; between two requests every buffer is empty. */
  lemma KeepAliveRun<S(!new)>(server0: S, qs: seq<Message>, actions: seq<Action>, exec: (S, string) -> (S, string))
    requires forall q | q in qs :: WellFramed(q, false) && KeptAlive(q)
    requires forall i | 0 <= i < |actions| :: Fair(actions[i])
    requires forall server, body :: exec(server, body).1 != ""
    ensures var s := Run(Start(server0, qs), actions, exec); var k := |qs| - |s.pending|;
      && s.open
      && 0 <= k && s.pending == qs[k..]
      && Invariant(s, server0, qs[..k], exec)
      && s.out <= Responses(server0, qs, exec)
      && (Idle(s.conn) && s.wire == "" ==>
           && s.conn.request == s.conn.response == ""
           && s.out == Responses(server0, qs[..k], exec)
           && s.server == After(server0, qs[..k], exec))
  {
    hide WellFramed, Judged, Next, Fair, Run, Responses, After, Invariant;
    var none: seq<Message> := [];
    var s0 := Start(server0, qs);
    NothingSent(server0, qs, exec);
    var s := Run(s0, actions, exec);
    var sent := RunKeeps(s0, server0, none, actions, exec);
    assert none + qs == qs;
    var k := |qs| - |s.pending|;
    assert qs[..k] == sent && qs[k..] == s.pending;
    OutIsPrefix(s, server0, sent, exec);
    ResponsesGrow(server0, qs, k, exec);
    if Idle(s.conn) && s.wire == "" {
      WaitingIsBetween(s, server0, sent, exec);
    }
  }

  lemma NothingSent<S>(server0: S, qs: seq<Message>, exec: (S, string) -> (S, string))
    ensures Invariant(Start(server0, qs), server0, [], exec)
  {
    var none: seq<Message> := [];
    assert Between(Start(server0, qs), server0, none, exec);
  }

  lemma OutIsPrefix<S>(s: Session<S>, server0: S, sent: seq<Message>, exec: (S, string) -> (S, string))
    requires Invariant(s, server0, sent, exec)
    ensures s.open && s.out <= Responses(server0, sent, exec)
  {
    hide After, WellFramed, Judged, PartOf, Response;
    if Responding(s, server0, sent, exec) {
      var before := Responses(server0, sent[..|sent| - 1], exec);
      var all := Responses(server0, sent, exec);
      assert all == before + s.conn.response;
      assert s.out == all[..|before| + s.conn.bytesWritten];
    }
  }

  lemma {:induction false} ResponsesGrow<S>(server0: S, qs: seq<Message>, k: nat, exec: (S, string) -> (S, string))
    requires k <= |qs|
    ensures Responses(server0, qs[..k], exec) <= Responses(server0, qs, exec)
    decreases |qs|
  {
    hide Response;
    if k < |qs| {
      var front := qs[..|qs| - 1];
      ResponsesGrow(server0, front, k, exec);
      assert front[..k] == qs[..k];
    } else {
      assert qs[..k] == qs;
    }
  }

  lemma WaitingIsBetween<S>(s: Session<S>, server0: S, sent: seq<Message>, exec: (S, string) -> (S, string))
    requires Invariant(s, server0, sent, exec) && Idle(s.conn) && s.wire == ""
    ensures Between(s, server0, sent, exec)
  {
    hide After, Responses, Response, WellFramed, Judged, PartOf;
  }

  /** Once all bytes of a request can be read and the response can be written, one
      event serves the request. */
  lemma OneEventServes<S(!new)>(
      s: Session<S>, server0: S, sent: seq<Message>, exec: (S, string) -> (S, string), a: Action)
    requires s.open && Receiving(s, server0, sent, exec)
    requires forall server, body :: exec(server, body).1 != ""
    requires a.Poll? && a.n1 >= |s.wire| && a.n2 >= |s.wire| && Fair(a)
    requires Send(a.writes, |Response(server0, sent, exec)|).sent == |Response(server0, sent, exec)|
    ensures Between(Next(s, a, exec), server0, sent, exec)
  {
    hide Next, WriteResponse, WellFramed, Judged, PartOf, Responses, After, Response, Send, Between, Invariant;
    var c2, n := NextReceiving(s, server0, sent, exec, a);
    AllRead(s, server0, sent, exec, a);
    Completed(s, server0, sent, exec, a, c2);
  }

  lemma AllRead<S>(s: Session<S>, server0: S, sent: seq<Message>, exec: (S, string) -> (S, string), a: Action)
    requires s.open && Receiving(s, server0, sent, exec)
    requires a.Poll? && a.n1 >= |s.wire| && a.n2 >= |s.wire|
    ensures Next(s, a, exec).wire == ""
  {
    hide HandleEvent, ReadHeader, WellFramed, Judged, Responses, After;
    PartState(s.conn, sent[|sent| - 1], |sent[|sent| - 1].Bytes()| - |s.wire|, true);
  }

  // ------------------------------------------------------ connections that are not kept

  /** The bytes that the socket takes before it refuses or fails. */
  function Accepted(writes: seq<WriteResult>): nat {
    if writes == [] || !writes[0].Wrote? then 0 else writes[0].n + Accepted(writes[1..])
  }

  lemma {:induction false} SendTakes(writes: seq<WriteResult>, left: nat)
    ensures Send(writes, left).sent == if left < Accepted(writes) then left else Accepted(writes)
    decreases writes
  {
    if left == 0 || writes == [] || !writes[0].Wrote? {
    } else {
      SendTakes(writes[1..], left - if writes[0].n < left then writes[0].n else left);
    }
  }

  /** A request of a connection that is not kept is on its way. */
  ghost predicate LastRequest<S>(s: Session<S>, q: Message, server: S) {
    && s.open && s.conn.response == "" && s.wire != "" && s.out == "" && s.server == server
    && |s.wire| <= |q.Bytes()| && s.wire == q.Bytes()[|q.Bytes()| - |s.wire|..]
    && PartOf(s.conn, q, |q.Bytes()| - |s.wire|, false)
  }

  /** It has been answered: executed once, with what the socket took at once of the
      response written, and the connection closed. */
  ghost predicate Answered<S>(s: Session<S>, after: S, response: string, writes: seq<WriteResult>) {
    && !s.open && s.server == after
    && s.out == response[..if |response| < Accepted(writes) then |response| else Accepted(writes)]
  }

  lemma LastWrite<S>(c: Conn, server: S, exec: (S, string) -> (S, string), writes: seq<WriteResult>)
    requires c.state == WRITE_RESPONSE && c.response == "" && !c.keepAlive && exec(server, c.request).1 != ""
    ensures var r := WriteResponse(c, server, exec, writes); var (after, response) := exec(server, c.request);
      !r.ok && r.server == after
        && r.sent == response[..if |response| < Accepted(writes) then |response| else Accepted(writes)]
  {
    hide Send;
    SendTakes(writes, |exec(server, c.request).1|);
  }

  lemma NotKeptReads<S>(s: Session<S>, q: Message, server: S, exec: (S, string) -> (S, string), a: Action)
      returns (c2: Conn, n: nat)
    requires WellFramed(q, false) && Judged(q, false) && LastRequest(s, q, server) && a.Poll?
    ensures n <= |q.Bytes()| && c2.response == ""
    ensures n < |q.Bytes()| ==> PartOf(c2, q, n, false)
    ensures n == |q.Bytes()| ==> c2.state == WRITE_RESPONSE && c2.request == q.body && !c2.keepAlive
    ensures var w :=
        if n < |q.Bytes()| then Result(c2, server, "", true)
        else WriteResponse(c2, server, exec, a.writes);
      Next(s, a, exec) == Session(w.conn, w.server, q.Bytes()[n..], s.pending, w.sent, w.ok)
  {
    hide ReadHeader, WriteResponse, HandleEvent, WellFramed, Judged, PartOf;
    c2, n := ReadPhase(s.conn, q, |q.Bytes()| - |s.wire|, false, a.n1, a.n2, s.server, exec, a.writes);
    var w := if n < |q.Bytes()| then Result(c2, server, "", true) else WriteResponse(c2, server, exec, a.writes);
    assert s.out + w.sent == w.sent;
  }

  lemma NotKeptEvent<S>(s: Session<S>, q: Message, server: S, exec: (S, string) -> (S, string), a: Action)
    requires WellFramed(q, false) && Judged(q, false) && LastRequest(s, q, server) && exec(server, q.body).1 != ""
    requires a.Poll?
    ensures var s' := Next(s, a, exec); var (after, response) := exec(server, q.body);
      LastRequest(s', q, server) || Answered(s', after, response, a.writes)
  {
    hide Next, WriteResponse, WellFramed, Judged, PartOf, Accepted;
    var c2, n := NotKeptReads(s, q, server, exec, a);
    if n == |q.Bytes()| {
      LastWrite(c2, server, exec, a.writes);
    }
  }

  /** Over every run, however the request is cut and whatever the socket takes: it is
      executed at most once, and the connection closes at the event that completes it;
      its response goes out whole if and only if the socket takes all of it then. */
  lemma {:induction false} NotKeptRun<S>(
      s: Session<S>, q: Message, server: S, exec: (S, string) -> (S, string), actions: seq<Action>)
    requires WellFramed(q, false) && Judged(q, false) && LastRequest(s, q, server) && exec(server, q.body).1 != ""
    ensures var s' := Run(s, actions, exec); var (after, response) := exec(server, q.body);
      || LastRequest(s', q, server)
      || exists k :: 0 <= k < |actions| && actions[k].Poll? && Answered(s', after, response, actions[k].writes)
          && (s'.out == response <==> |response| <= Accepted(actions[k].writes))
    decreases actions
  {
    hide WellFramed, Judged, PartOf, Accepted, Answered, HandleEvent, ReadHeader;
    if actions == [] {
    } else {
      var (after, response) := exec(server, q.body);
      var a, s1 := actions[0], Next(s, actions[0], exec);
      if a.Poll? {
        NotKeptEvent(s, q, server, exec, a);
      } else {
        assert s1 == s;
      }
      if LastRequest(s1, q, server) {
        NotKeptRun(s1, q, server, exec, actions[1..]);
        if !LastRequest(Run(s, actions, exec), q, server) {
          var k :| 0 <= k < |actions[1..]| && actions[1..][k].Poll?
            && Answered(Run(s1, actions[1..], exec), after, response, actions[1..][k].writes)
            && (Run(s1, actions[1..], exec).out == response <==> |response| <= Accepted(actions[1..][k].writes));
          assert actions[k + 1] == actions[1..][k];
        }
      } else {
        AnsweredWhole(s1, after, response, a.writes);
        ClosedStays(s1, actions[1..], exec);
        assert Run(s, actions, exec) == s1 && actions[0] == a;
      }
    }
  }

  lemma AnsweredWhole<S>(s: Session<S>, after: S, response: string, writes: seq<WriteResult>)
    requires Answered(s, after, response, writes)
    ensures !s.open && (s.out == response <==> |response| <= Accepted(writes))
  {
    hide Accepted;
    assert response[..|response|] == response;
  }

  lemma {:induction false} ClosedStays<S>(s: Session<S>, actions: seq<Action>, exec: (S, string) -> (S, string))
    requires !s.open
    ensures Run(s, actions, exec) == s
    decreases actions
  {
    if actions == [] {
    } else {
      ClosedStays(s, actions[1..], exec);
    }
  }

  // ------------------------------------------------------------- exact conditions

  /** Why bodies must be free of NUL: a request that arrives in one piece is buffered
      as it was sent if and only if its body holds none; otherwise the connection is
      left waiting for bytes it has already been given. */
  lemma WholeRequestAtOnce(c: Conn, q: Message)
    requires Framed(q, false) && Idle(c)
    ensures var (c', ok) := ReadHeader(c, Got(q.Bytes()));
      && ok && c'.state == READ_REQUEST
      && (c'.request == q.body <==> NulFree(q.body))
      && (WantsMore(c') <==> !NulFree(q.body))
  {
    hide Look, ScanText, KeepAlive, Atoi, CString, NulFree;
    var received := q.Bytes();
    assert received[..|received|] == received;
    assert c.header + received == received;
    LookAtFragment(q.header, q.body, |received|, false);
    LengthStays(q.header, received, ScanText(q.header, false).length.value, false);
    assert received[|q.header|..] == q.body;
    CStringNulFree(received, |q.header|);
  }

  /** A value of the connection field ends in the header. */
  lemma ValueInHeader(h: string, f: string, kp: nat, v: string)
    requires h <= f && h != "" && h[|h| - 1] == '\n' && kp < |h|
    requires v != "" && forall k | 0 <= k < |v| :: Lower(v[k]) != '\n'
    ensures AtNoCase(f, kp, v) <==> AtNoCase(h, kp, v)
  {
    hide AtNoCase;
    if kp + |v| <= |h| {
      NoCasePrefix(h, f, kp, v);
    } else if AtNoCase(f, kp, v) {
      NoCaseIndex(f, kp, v, |h| - 1 - kp);
    } else if AtNoCase(h, kp, v) {
      NoCaseIndex(h, kp, v, 0);
    }
  }

  lemma {:induction false} ConnectionBeforeEnd(h: string, cp: nat, lp: Option<nat>, kp: Option<nat>)
    requires h != "" && h[|h| - 1] == '\n'
    requires kp.Some? ==> kp.value < |h|
    ensures var s := ScanFrom(h, cp, lp, kp, false); s.connection.Some? ==> s.connection.value < |h|
    decreases |h| - cp
  {
    hide At, MarkAt, AtNoCase;
    if cp >= |h| {
    } else {
      var m := MarkAt(h, cp, false);
      if !m.Blank? {
        if m.Connection? {
          ConnectionFits(h, cp);
        }
        ConnectionBeforeEnd(h, cp + Width(m), NewLength(m, cp, lp), NewConnection(m, cp, kp));
      }
    }
  }

  lemma ConnectionFits(h: string, cp: nat)
    requires h != "" && h[|h| - 1] == '\n' && MarkAt(h, cp, false).Connection?
    ensures cp + |CONNECTION| < |h|
  {
    hide At, AtNoCase;
    NoCaseIndex(h, cp, CONNECTION, 11);
  }

  lemma FindGrows(p: string, f: string)
    requires p <= f && Find(p, "HTTP/1.0", 0).Some?
    ensures Find(f, "HTTP/1.0", 0).Some?
  {
    hide At, Find;
    AtPrefix(p, f, Find(p, "HTTP/1.0", 0).value, "HTTP/1.0");
  }

  /** One byte of the body cannot complete an "HTTP/1.0". */
  lemma FindWithFirstByte(h: string, f: string)
    requires h <= f && |f| == |h| + 1 && h != "" && h[|h| - 1] == '\n'
    ensures Find(f, "HTTP/1.0", 0).Some? <==> Find(h, "HTTP/1.0", 0).Some?
  {
    hide At, Find;
    var v := "HTTP/1.0";
    if Find(f, v, 0).Some? {
      var i := Find(f, v, 0).value;
      if i + 8 <= |h| {
        AtPrefix(h, f, i, v);
      } else {
        AtIndex(f, i, v, 6);
      }
    }
    if Find(h, v, 0).Some? {
      FindGrows(h, f);
    }
  }

  /** Whether the connection is kept comes out the same wherever the bytes are cut. */
  predicate CutsAgree(q: Message) {
    var kp := ScanText(q.header, false).connection;
    forall n | |q.header| < n <= |q.Bytes()| :: KeepAlive(q.Bytes()[..n], kp) == KeepAlive(q.Bytes(), kp)
  }

  /** The cuts agree if and only if judging by the header alone and judging by the header
      and the whole body do: "HTTP/1.0" in a body can change the answer. */
  lemma KeepAliveExactly(q: Message)
    requires Framed(q, false)
    ensures var kp := ScanText(q.header, false).connection;
      CutsAgree(q) <==> KeepAlive(q.header, kp) == KeepAlive(q.Bytes(), kp)
  {
    hide ScanFrom, Find, Atoi, KeepAlive;
    var h, all, kp := q.header, q.Bytes(), ScanText(q.header, false).connection;
    HeaderEndsInNewline(h, false);
    ConnectionBeforeEnd(h, 0, None, None);
    forall n | |h| < n <= |all|
      ensures KeepAlive(h, kp) == KeepAlive(all, kp) ==> KeepAlive(all[..n], kp) == KeepAlive(all, kp)
      ensures n == |h| + 1 ==> KeepAlive(all[..n], kp) == KeepAlive(h, kp)
    {
      KeepAliveBetween(h, all[..n], all, kp);
    }
    if CutsAgree(q) {
      assert KeepAlive(all[..|h| + 1], kp) == KeepAlive(all, kp);
    }
  }

  /** So the connection is kept at every cut, or not kept at every cut, if and only if it
      is so by both. */
  lemma KeptExactly(q: Message, keep: bool)
    requires Framed(q, false)
    ensures var kp := ScanText(q.header, false).connection;
      Judged(q, keep) <==> KeepAlive(q.header, kp) == keep && KeepAlive(q.Bytes(), kp) == keep
  {
    hide ScanFrom, Find, Atoi, KeepAlive;
    var h, all, kp := q.header, q.Bytes(), ScanText(q.header, false).connection;
    HeaderEndsInNewline(h, false);
    ConnectionBeforeEnd(h, 0, None, None);
    assert all[..|all|] == all;
    KeepAliveBetween(h, all[..|h| + 1], all, kp);
    KeepAliveExactly(q);
    if Judged(q, keep) {
      assert KeepAlive(all[..|h| + 1], kp) == keep && KeepAlive(all[..|all|], kp) == keep;
    }
  }

  lemma KeepAliveBetween(h: string, received: string, all: string, kp: Option<nat>)
    requires h <= received <= all && h != "" && h[|h| - 1] == '\n'
    requires kp.Some? ==> kp.value < |h|
    ensures KeepAlive(h, kp) == KeepAlive(all, kp) ==> KeepAlive(received, kp) == KeepAlive(all, kp)
    ensures |received| == |h| + 1 ==> KeepAlive(received, kp) == KeepAlive(h, kp)
  {
    hide Find, AtNoCase;
    if kp.Some? {
      ValueInHeader(h, received, kp.value, "keep-alive");
      ValueInHeader(h, all, kp.value, "keep-alive");
      ValueInHeader(h, received, kp.value, "close");
      ValueInHeader(h, all, kp.value, "close");
    }
    if Find(h, "HTTP/1.0", 0).Some? { FindGrows(h, received); }
    if Find(received, "HTTP/1.0", 0).Some? { FindGrows(received, all); }
    if |received| == |h| + 1 { FindWithFirstByte(h, received); }
  }
}
