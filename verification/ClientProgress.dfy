/** When `execute` comes to its end: as soon as its sockets deliver, for a client that keeps
    its connection open, and never for another one. */
module ClientProgress {
  import opened Text
  import opened HttpHeader
  import opened ValueSyntax
  import opened Messages
  import opened XmlRpcSource
  import opened XmlRpcDispatch
  import opened ServerConnection
  import opened Framing
  import opened ServerSession
  import opened ClientMachine
  import opened XmlRpcClient

  // --------------------------------------------------------- a client that is not kept

  /** The masks a client is watched with: never for reading and writing at once. */
  predicate OneWay(mask: Mask) {
    !(ReadableEvent in mask && WritableEvent in mask)
  }

  predicate WatchedOneWay(c: Client) {
    WatchedOnce(c.sources) && forall i | 0 <= i < |c.sources| :: OneWay(c.sources[i].mask)
  }

  /** One event asks for one way, and for none when the response is complete. */
  lemma EventMask(c: Client, kind: EventType, e: ClientEvent)
    requires c.state != IDLE
    ensures var (c', mask) := HandleClientEvent(c, kind, e);
      && (mask == {} || mask == {WritableEvent} || mask == {ReadableEvent})
      && (c'.state == IDLE ==> mask == {})
      && (kind == ExceptionEvent ==> c' == c)
  {
    hide Look, Atoi, CString, Send, Removed, WithMask;
  }

  /** What no step of an event changes. */
  predicate Keeps(c: Client, c': Client) {
    c'.keepOpen == c.keepOpen && (WatchedOneWay(c) ==> WatchedOneWay(c'))
  }

  lemma SetupKeeps(c: Client, connect: Connect)
    ensures Keeps(c, Setup(c, connect).0)
  {
    if WatchedOneWay(c) {
      EditsWatchOnce(c.sources, {});
      EditsWatchOnce([], {});
    }
  }

  lemma HeaderKeeps(c: Client, r: ReadOutcome, connect: Connect)
    ensures Keeps(c, ReadClientHeader(c, r, connect).0)
  {
    hide Look, Atoi, CString, Setup, OneWay, WatchedOnce;
    var c1 := c.(header := c.header + r.data, arrived := c.arrived + r.data, eof := r.ok && r.eof);
    SetupKeeps(c1.(sendAttempts := c1.sendAttempts + 1, state := NO_CONNECTION, eof := false), connect);
    LookInside(c1.header, true);
  }

  lemma WriteKeeps(c: Client, writes: seq<WriteResult>)
    ensures Keeps(c, WriteRequest(c, writes).0)
  {
    hide Send, OneWay, WatchedOnce;
  }

  lemma ResponseKeeps(c: Client, r: ReadOutcome)
    ensures Keeps(c, ReadResponse(c, r).0)
  {
    hide OneWay, WatchedOnce;
  }

  lemma EventKeeps(c: Client, kind: EventType, e: ClientEvent)
    ensures Keeps(c, HandleClientEvent(c, kind, e).0)
  {
    hide WriteRequest, ReadClientHeader, ReadResponse, WatchedOneWay;
    var c1 := if c.state == WRITE_REQUEST then WriteRequest(c, e.writes).0 else c;
    WriteKeeps(c, e.writes);
    HeaderKeeps(c1, e.first, e.connect);
    var c2 := if c1.state == READ_HEADER_C then ReadClientHeader(c1, e.first, e.connect).0 else c1;
    ResponseKeeps(c2, e.second);
  }

  /** The kinds reported to a client are those it is watched for. */
  lemma KindsOfEntry(c: Client, t: Tick)
    requires t.Ready? && OneWay(t.kinds) && c.state != IDLE && WatchedOneWay(c)
    ensures var (c', mask) := HandleKinds(c, t);
      && c'.keepOpen == c.keepOpen && WatchedOneWay(c')
      && OneWay(mask) && (c'.state == IDLE ==> mask == {})
  {
    hide HandleClientEvent, WatchedOneWay;
    if ReadableEvent in t.kinds {
      EventMask(c, ReadableEvent, t.onRead);
      EventKeeps(c, ReadableEvent, t.onRead);
    }
    if WritableEvent in t.kinds {
      EventMask(c, WritableEvent, t.onWrite);
      EventKeeps(c, WritableEvent, t.onWrite);
    }
    ExceptionNothing(HandleKinds(c, t.(kinds := t.kinds - {ExceptionEvent})).0, t.onException);
  }

  lemma ExceptionNothing(c: Client, e: ClientEvent)
    ensures HandleClientEvent(c, ExceptionEvent, e) == (c, {})
  {
  }

  lemma EntryNotIdle(c: Client, t: Tick)
    requires t.Ready? && OneWay(t.kinds) && !c.keepOpen && c.state != IDLE && WatchedOneWay(c)
    ensures var c' := ProcessEntry(c, t); !c'.keepOpen && c'.state != IDLE && WatchedOneWay(c')
  {
    hide HandleKinds;
    KindsOfEntry(c, t);
    var (c1, mask) := HandleKinds(c, t);
    EditsWatchOnce(c1.sources, mask);
    EditsWatchOnce([], {});
    MaskEdits(c1.sources, mask);
  }

  lemma MaskEdits(sources: seq<MonitoredSource>, mask: Mask)
    requires WatchedOnce(sources) && OneWay(mask)
    requires forall i | 0 <= i < |sources| :: OneWay(sources[i].mask)
    ensures forall i | 0 <= i < |WithMask(sources, SELF, mask)| :: OneWay(WithMask(sources, SELF, mask)[i].mask)
  {
  }

  lemma WatchedIsOneWay(sources: seq<MonitoredSource>, kinds: Mask)
    requires WatchedOnce(sources) && forall i | 0 <= i < |sources| :: OneWay(sources[i].mask)
    ensures OneWay(kinds * Watched(sources))
  {
    if sources != [] {
      assert sources[1..] == [];
    }
  }

  /** A client that does not keep its connection is closed before `execute` looks whether
      the response is complete. */
  lemma {:induction false} WorkNotIdle(c: Client, ticks: seq<Tick>)
    requires !c.keepOpen && c.state != IDLE && WatchedOneWay(c)
    ensures Work(c, ticks).state != IDLE
    decreases ticks
  {
    hide ProcessEntry, OneWay;
    if c.sources != [] && ticks != [] && ticks[0].Ready? {
      var t := ticks[0].(kinds := ticks[0].kinds * Watched(c.sources));
      WatchedIsOneWay(c.sources, ticks[0].kinds);
      EntryNotIdle(c, t);
      var c1 := ProcessEntry(c, t);
      OneEntry(c, t);
      WorkNotIdle(c1, ticks[1..]);
    }
  }

  lemma OneEntry(c: Client, t: Tick)
    requires t.Ready? && WatchedOnce(c.sources) && c.sources != []
    ensures ProcessEntries(c, |c.sources|, t) == ProcessEntry(c, t)
  {
    hide ProcessEntry;
    assert ProcessEntries(ProcessEntry(c, t), 0, t) == ProcessEntry(c, t);
  }

  /** So `execute` never returns true for it, whatever is sent and received. */
  lemma NotKeptNeverReturns(lib: Library, c: Client, request: string, connect: Connect, ticks: seq<Tick>)
    requires !c.keepOpen && WatchedOnce(c.sources)
    ensures !Execute(lib, c, request, connect, ticks).ok
  {
    hide Work, ParseResponse;
    var (c1, ok) := Setup(c.(sendAttempts := 0, connects := 0), connect);
    SetupSafe(c.(sendAttempts := 0, connects := 0), connect);
    if ok {
      EditsWatchOnce(c.sources, {});
      WorkNotIdle(c1.(request := request, stopped := false), ticks);
    }
  }

  // ------------------------------------------------------------- sockets that deliver

  /** What the sockets do at one event: the writes, and how many bytes of the response can
      be read with the first and with the second read. */
  datatype Poll = Poll(writes: seq<WriteResult>, n1: nat, n2: nat)

  predicate Delivering(p: Poll) {
    NoWriteError(p.writes)
  }

  /** Some byte can be written, and some can be read. */
  predicate Productive(p: Poll) {
    p.writes != [] && p.writes[0].Wrote? && p.n1 > 0 && p.n2 > 0
  }

  function AfterWrite(c: Client, p: Poll): Client {
    if c.state == WRITE_REQUEST then WriteRequest(c, p.writes).0 else c
  }

  function FirstRead(c: Client, wire: string, n: nat): string {
    if c.state == READ_HEADER_C then Take(wire, n) else ""
  }

  function AfterHeader(c: Client, first: string): Client {
    if c.state == READ_HEADER_C then ReadClientHeader(c, Got(first), Connected).0 else c
  }

  function SecondRead(c: Client, wire: string, n: nat): string {
    if c.state == READ_RESPONSE && |c.response| < c.contentLength then Take(wire, n) else ""
  }

  /** The event at which the sockets do so while `wire` is on its way, and what then
      still is. */
  function EventAt(c: Client, wire: string, p: Poll): (ClientEvent, string) {
    var c0 := AfterWrite(c, p);
    var first := FirstRead(c0, wire, p.n1);
    var rest := wire[|first|..];
    var second := SecondRead(AfterHeader(c0, first), rest, p.n2);
    (ClientEvent(p.writes, Got(first), Got(second), Connected), rest[|second|..])
  }

  function KindFor(c: Client): EventType {
    if c.state == WRITE_REQUEST then WritableEvent else ReadableEvent
  }

  function TickAt(c: Client, wire: string, p: Poll): Tick {
    var e := EventAt(c, wire, p).0;
    Ready({KindFor(c)}, e, e, e, false)
  }

  /** The rounds of the dispatcher in which the sockets do so, one poll after the other;
      the client behind them, and what is still on its way to it. */
  function Rounds(c: Client, wire: string, polls: seq<Poll>): (seq<Tick>, Client, string)
    decreases polls
  {
    if polls == [] || c.sources == [] then ([], c, wire)
    else
      var t := TickAt(c, wire, polls[0]);
      var r := Rounds(ProcessEntry(c, t), EventAt(c, wire, polls[0]).1, polls[1..]);
      ([t] + r.0, r.1, r.2)
  }

  /** A client on its way through one exchange, with `wire` the part of the response
      that it has not read. */
  predicate Underway(c: Client, q: Message, wire: string) {
    && c.keepOpen && !c.stopped && |wire| <= |q.Bytes()| && wire == q.Bytes()[|q.Bytes()| - |wire|..]
    && c.arrived + wire == q.Bytes()
    && if c.state == WRITE_REQUEST then
         wire == q.Bytes() && c.bytesWritten <= |c.request| && WatchedFor(c.sources, WritableEvent)
       else
         && ClientPart(c, q, |q.Bytes()| - |wire|)
         && if wire == "" then c.sources == [] else WatchedFor(c.sources, ReadableEvent)
  }

  predicate WatchedFor(sources: seq<MonitoredSource>, kind: EventType) {
    |sources| == 1 && sources[0].source == SELF && kind in sources[0].mask
  }

  /** The bytes still to be written and read, and the step in between. */
  function Missing(c: Client, wire: string): int {
    (if c.state == WRITE_REQUEST then 1 + |c.request| - c.bytesWritten else 0) + |wire|
  }

  // -------------------------------------------------------------------- reading events

  /** `p` is the part of the message's bytes that begins at `m`. */
  predicate IsPart(q: Message, m: nat, p: string)
    requires m <= |q.Bytes()|
  {
    && m + |p| <= |q.Bytes()|
    && q.Bytes()[m..][|p|..] == q.Bytes()[m + |p|..]
    && Delivers(Got(p), q, m, m + |p|)
  }

  lemma TakePart(q: Message, m: nat, n: nat)
    requires m <= |q.Bytes()|
    ensures var p := Take(q.Bytes()[m..], n); IsPart(q, m, p) && (n > 0 && m < |q.Bytes()| ==> p != "")
    ensures IsPart(q, m, "")
  {
  }

  lemma PartDelivers(q: Message, m: nat, p: string)
    requires m <= |q.Bytes()| && IsPart(q, m, p)
    ensures m + |p| <= |q.Bytes()| && q.Bytes()[m..][|p|..] == q.Bytes()[m + |p|..]
    ensures Delivers(Got(p), q, m, m + |p|)
  {
  }

  /** The first read: behind an incomplete header, or a complete response, there is no
      second one. */
  lemma FirstReadPart(c: Client, q: Message, m: nat, n: nat)
    requires WellFramed(q, true) && m < |q.Bytes()| && ClientPart(c, q, m)
    ensures var first := FirstRead(c, q.Bytes()[m..], n); var m1 := m + |first|;
      && IsPart(q, m, first) && (m > |q.header| ==> m1 == m) && (m <= |q.header| && n > 0 ==> m1 > m)
      && var c1 := AfterHeader(c, first);
         (|q.header| < m1 < |q.Bytes()| <==> c1.state == READ_RESPONSE && |c1.response| < c1.contentLength)
  {
    hide ReadClientHeader, WellFramed, Take, IsPart;
    BodyNotEmpty(q);
    TakePart(q, m, n);
    var first := FirstRead(c, q.Bytes()[m..], n);
    if m <= |q.header| {
      PartDelivers(q, m, first);
      ClientHeaderFragment(c, q, m, m + |first|, Got(first), Connected);
    }
  }

  lemma SecondReadPart(c: Client, q: Message, m: nat, n: nat)
    requires m <= |q.Bytes()|
    ensures var second := SecondRead(c, q.Bytes()[m..], n);
      && IsPart(q, m, second)
      && (c.state == READ_RESPONSE && |c.response| < c.contentLength && m < |q.Bytes()| && n > 0 ==> second != "")
      && (!(c.state == READ_RESPONSE && |c.response| < c.contentLength) ==> second == "")
  {
    hide IsPart, Take;
    TakePart(q, m, n);
  }

  /** An event while the response is on its way. */
  lemma ReadStep(c: Client, q: Message, m: nat, kind: EventType, p: Poll) returns (n: nat)
    requires WellFramed(q, true) && m < |q.Bytes()| && ClientPart(c, q, m) && kind != ExceptionEvent
    ensures m <= n <= |q.Bytes()| && (p.n1 > 0 && p.n2 > 0 ==> n > m)
    ensures var (e, rest) := EventAt(c, q.Bytes()[m..], p);
      var (c', mask) := HandleClientEvent(c, kind, e);
      && rest == q.Bytes()[n..] && ClientPart(c', q, n)
      && mask == (if n < |q.Bytes()| then {ReadableEvent} else {})
  {
    hide HandleClientEvent, WellFramed, FirstRead, SecondRead, AfterHeader, Delivers, IsPart, Got;
    NotWriting(c, q, m);
    var all := q.Bytes();
    var first := FirstRead(c, all[m..], p.n1);
    FirstReadPart(c, q, m, p.n1);
    PartDelivers(q, m, first);
    var m1 := m + |first|;
    var c1 := AfterHeader(c, first);
    var second := SecondRead(c1, all[m1..], p.n2);
    SecondReadPart(c1, q, m1, p.n2);
    PartDelivers(q, m1, second);
    n := ClientReads(c, q, m, kind, EventAt(c, all[m..], p).0, m1, m1 + |second|);
  }

  lemma NotWriting(c: Client, q: Message, m: nat)
    requires m <= |q.Bytes()| && ClientPart(c, q, m)
    ensures c.state != WRITE_REQUEST && c.state != NO_CONNECTION
  {
  }

  // ------------------------------------------------------------------ writing events

  lemma WriteStep(c: Client, p: Poll)
    requires c.state == WRITE_REQUEST && c.bytesWritten <= |c.request| && Delivering(p)
    ensures var (c0, ok) := WriteRequest(c, p.writes);
      && ok && c0.bytesWritten <= |c0.request| == |c.request| && c0.bytesWritten >= c.bytesWritten
      && (c0.state == WRITE_REQUEST || (c0.state == READ_HEADER_C && c0.header == ""))
      && (Productive(p) && c0.state == WRITE_REQUEST ==> c0.bytesWritten > c.bytesWritten)
  {
    hide Send;
    SendSucceeds(p.writes, |c.request| - c.bytesWritten);
    SendProgress(p.writes, |c.request| - c.bytesWritten);
  }

  lemma SendProgress(writes: seq<WriteResult>, left: nat)
    requires NoWriteError(writes)
    ensures left > 0 && writes != [] && writes[0].Wrote? ==> Send(writes, left).sent > 0
  {
  }

  /** The event goes on reading once the request is written. */
  lemma WriteThenRead(c: Client, kind: EventType, e: ClientEvent)
    requires c.state == WRITE_REQUEST && kind != ExceptionEvent && WriteRequest(c, e.writes).1
    ensures var c0 := WriteRequest(c, e.writes).0;
      && (c0.state == READ_HEADER_C ==> HandleClientEvent(c, kind, e) == HandleClientEvent(c0, kind, e))
      && (c0.state == WRITE_REQUEST ==> HandleClientEvent(c, kind, e) == (c0, {WritableEvent}))
  {
    hide WriteRequest, ReadClientHeader, ReadResponse;
  }

  // ------------------------------------------------------------------------ whole runs

  /** What an event changes nothing about, on a connection that delivers. */
  predicate SameCall(c: Client, c': Client) {
    && c'.keepOpen == c.keepOpen && c'.stopped == c.stopped && c'.sources == c.sources
    && c'.connects == c.connects && c'.request == c.request
  }

  predicate Went(r: ReadOutcome) {
    r.ok && !r.eof
  }

  lemma WriteSame(c: Client, writes: seq<WriteResult>)
    ensures SameCall(c, WriteRequest(c, writes).0)
  {
    hide Send;
  }

  lemma HeaderSame(c: Client, r: ReadOutcome, connect: Connect)
    requires Went(r)
    ensures SameCall(c, ReadClientHeader(c, r, connect).0)
  {
    hide Look, Atoi, CString, Setup;
    LookInside(c.header + r.data, true);
  }

  lemma ResponseSame(c: Client, r: ReadOutcome)
    ensures SameCall(c, ReadResponse(c, r).0)
  {
  }

  lemma EventSame(c: Client, kind: EventType, e: ClientEvent)
    requires Went(e.first)
    ensures SameCall(c, HandleClientEvent(c, kind, e).0)
  {
    hide WriteRequest, ReadClientHeader, ReadResponse;
    var c1 := if c.state == WRITE_REQUEST then WriteRequest(c, e.writes).0 else c;
    WriteSame(c, e.writes);
    HeaderSame(c1, e.first, e.connect);
    var c2 := if c1.state == READ_HEADER_C then ReadClientHeader(c1, e.first, e.connect).0 else c1;
    ResponseSame(c2, e.second);
  }

  /** What an event has to leave behind. */
  predicate GoesOn(c: Client, q: Message, wire: string, p: Poll, c': Client, mask: Mask, rest: string) {
    && Underway(c'.(sources := if mask == {} then [] else [MonitoredSource(SELF, mask)]), q, rest)
    && SameCall(c, c') && (mask == {} <==> c'.state == IDLE)
    && (Productive(p) ==> Missing(c', rest) < Missing(c, wire))
  }

  /** An event of a client that reads, with its connection as it was at `c`. */
  lemma GoesOnReading(c: Client, c0: Client, q: Message, m: nat, wire: string, kind: EventType, p: Poll)
    requires WellFramed(q, true) && m < |q.Bytes()| && ClientPart(c0, q, m) && kind != ExceptionEvent
    requires wire == q.Bytes()[m..] && c.keepOpen && !c.stopped
    requires c.state == WRITE_REQUEST ==> c.bytesWritten <= |c.request|
    ensures var (e, rest) := EventAt(c0, wire, p); var (c', mask) := HandleClientEvent(c0, kind, e);
      SameCall(c, c') && c'.arrived + rest == q.Bytes() && (c.state == WRITE_REQUEST || c.state == c0.state) ==>
      GoesOn(c, q, wire, p, c', mask, rest)
  {
    hide HandleClientEvent, WellFramed, ClientPart, EventAt;
    var n := ReadStep(c0, q, m, kind, p);
    var (e, rest) := EventAt(c0, wire, p);
    var (c1, mask) := HandleClientEvent(c0, kind, e);
    UnderwayReading(c1, q, n, rest);
    PartKept(c1, mask, q, n);
    NotWriting(c0, q, m);
  }

  /** One event on the way: what is left of the exchange, and whether to watch on. */
  lemma UnderwayEvent(c: Client, q: Message, wire: string, p: Poll)
    requires WellFramed(q, true) && Underway(c, q, wire) && c.state != IDLE && Delivering(p)
    ensures var (e, rest) := EventAt(c, wire, p);
      var (c', mask) := HandleClientEvent(c, KindFor(c), e); GoesOn(c, q, wire, p, c', mask, rest)
  {
    hide HandleClientEvent, WriteRequest, WellFramed, ClientPart, Delivering, EventAt, GoesOn, Productive;
    var kind := KindFor(c);
    var (e, rest) := EventAt(c, wire, p);
    BodyNotEmpty(q);
    EventWent(c, wire, p);
    EventSame(c, kind, e);
    EventArrived(c, wire, p);
    if c.state == WRITE_REQUEST {
      WriteStep(c, p);
      WriteThenRead(c, kind, e);
      var c0 := WriteRequest(c, p.writes).0;
      if c0.state == READ_HEADER_C {
        AtAfterWrite(c, wire, p);
        HeaderAwaited(c0, q);
        assert q.Bytes()[0..] == wire;
        GoesOnReading(c, c0, q, 0, wire, kind, p);
      } else {
        StillWriting(c, c0, q, wire, p);
      }
    } else {
      ReadingNotIdle(c, q, wire);
      GoesOnReading(c, c, q, |q.Bytes()| - |wire|, wire, kind, p);
    }
  }

  lemma EventWent(c: Client, wire: string, p: Poll)
    ensures Went(EventAt(c, wire, p).0.first) && EventAt(c, wire, p).0.writes == p.writes
  {
    hide AfterWrite, AfterHeader, FirstRead, SecondRead;
  }

  lemma AtAfterWrite(c: Client, wire: string, p: Poll)
    requires c.state == WRITE_REQUEST && WriteRequest(c, p.writes).0.state != WRITE_REQUEST
    ensures EventAt(c, wire, p) == EventAt(WriteRequest(c, p.writes).0, wire, p)
  {
    hide WriteRequest, FirstRead, SecondRead, AfterHeader;
  }

  lemma StillWriting(c: Client, c0: Client, q: Message, wire: string, p: Poll)
    requires Underway(c, q, wire) && c.state == c0.state == WRITE_REQUEST && c0 == WriteRequest(c, p.writes).0
    requires SameCall(c, c0) && c0.arrived + EventAt(c, wire, p).1 == q.Bytes()
    requires c0.bytesWritten <= |c0.request| && c0.bytesWritten >= c.bytesWritten
    requires Productive(p) ==> c0.bytesWritten > c.bytesWritten
    ensures GoesOn(c, q, wire, p, c0, {WritableEvent}, EventAt(c, wire, p).1)
  {
    hide WriteRequest, Productive, ClientPart, EventAt;
    NothingTaken(c, wire, p);
  }

  lemma NothingTaken(c: Client, wire: string, p: Poll)
    requires c.state == WRITE_REQUEST && WriteRequest(c, p.writes).0.state == WRITE_REQUEST
    ensures EventAt(c, wire, p).1 == wire
  {
    hide WriteRequest, FirstRead, SecondRead, AfterHeader;
    NothingReadYet(WriteRequest(c, p.writes).0, wire, p);
  }

  lemma HeaderArrived(c: Client, r: ReadOutcome, connect: Connect)
    requires Went(r)
    ensures ReadClientHeader(c, r, connect).0.arrived == c.arrived + r.data
    ensures c.state == READ_HEADER_C && !ReadClientHeader(c, r, connect).1 ==>
      ReadClientHeader(c, r, connect).0.state != READ_RESPONSE
  {
    hide Look, Atoi, CString;
    LookInside(c.header + r.data, true);
  }

  lemma WriteArrived(c: Client, writes: seq<WriteResult>)
    ensures WriteRequest(c, writes).0.arrived == c.arrived
  {
    hide Send;
  }

  lemma ResponseArrived(c: Client, r: ReadOutcome)
    ensures ReadResponse(c, r).0.arrived == c.arrived + if |c.response| < c.contentLength then r.data else ""
  {
  }

  /** The bytes that an event takes off the wire are those that have arrived. */
  lemma EventArrived(c: Client, wire: string, p: Poll)
    requires Delivering(p) && (c.state == WRITE_REQUEST ==> c.bytesWritten <= |c.request|)
    ensures var (e, rest) := EventAt(c, wire, p);
      HandleClientEvent(c, KindFor(c), e).0.arrived + rest == c.arrived + wire
  {
    hide WriteRequest, ReadClientHeader, ReadResponse, Take, Delivering;
    var (e, rest) := EventAt(c, wire, p);
    var c0 := AfterWrite(c, p);
    if c.state == WRITE_REQUEST { WriteStep(c, p); WriteArrived(c, p.writes); }
    HeaderArrived(c0, e.first, Connected);
    var c1 := AfterHeader(c0, e.first.data);
    ResponseArrived(c1, e.second);
    var h := HandleClientEvent(c, KindFor(c), e).0;
    assert h.arrived == c.arrived + e.first.data + e.second.data by {
      assert c.arrived + "" == c.arrived && c.arrived + e.first.data + "" == c.arrived + e.first.data;
    }
    TakenInTurn(c.arrived, wire, e.first.data, e.second.data);
  }

  lemma TakenInTurn(arrived: string, wire: string, first: string, second: string)
    requires first <= wire && second <= wire[|first|..]
    ensures arrived + first + second + wire[|first|..][|second|..] == arrived + wire
  {
    assert wire == first + wire[|first|..];
    assert wire[|first|..] == second + wire[|first|..][|second|..];
  }

  lemma PartKept(c: Client, mask: Mask, q: Message, n: nat)
    requires n <= |q.Bytes()| && ClientPart(c, q, n)
    ensures forall sources :: ClientPart(c.(sources := sources), q, n)
  {
  }

  lemma HeaderAwaited(c: Client, q: Message)
    requires c.state == READ_HEADER_C && c.header == ""
    ensures ClientPart(c, q, 0)
  {
    assert q.Bytes()[..0] == "";
  }

  lemma ReadingNotIdle(c: Client, q: Message, wire: string)
    requires |wire| <= |q.Bytes()| && ClientPart(c, q, |q.Bytes()| - |wire|) && c.state != IDLE && WellFramed(q, true)
    ensures wire != ""
  {
    hide WellFramed;
    BodyNotEmpty(q);
  }

  lemma UnderwayReading(c: Client, q: Message, n: nat, rest: string)
    requires n <= |q.Bytes()| && ClientPart(c, q, n) && rest == q.Bytes()[n..] && WellFramed(q, true)
    ensures c.state != WRITE_REQUEST && |q.Bytes()| - |rest| == n && (c.state == IDLE <==> rest == "")
  {
    hide WellFramed;
    BodyNotEmpty(q);
  }

  lemma NothingReadYet(c: Client, wire: string, p: Poll)
    requires c.state == WRITE_REQUEST
    ensures FirstRead(c, wire, p.n1) == "" && AfterHeader(c, "") == c && SecondRead(c, wire, p.n2) == ""
    ensures wire[|""|..] == wire
  {
  }

  /** One round of the dispatcher. */
  lemma UnderwayRound(c: Client, q: Message, wire: string, p: Poll)
    requires WellFramed(q, true) && Underway(c, q, wire) && c.state != IDLE && Delivering(p)
    ensures var c' := ProcessEntry(c, TickAt(c, wire, p)); var rest := EventAt(c, wire, p).1;
      && Underway(c', q, rest) && c'.connects == c.connects && c'.request == c.request
      && (Productive(p) ==> Missing(c', rest) < Missing(c, wire))
  {
    hide HandleClientEvent, HandleKinds, Rewatch, EventAt, WellFramed, ClientPart, Delivering, Productive;
    UnderwayEvent(c, q, wire, p);
    var e := EventAt(c, wire, p).0;
    var (c1, mask) := HandleClientEvent(c, KindFor(c), e);
    OneKind(c, TickAt(c, wire, p), e);
    if c.state != WRITE_REQUEST {
      ReadingNotIdle(c, q, wire);
    }
    Rewatched(c1, mask);
  }

  lemma OneKind(c: Client, t: Tick, e: ClientEvent)
    requires t == Ready({KindFor(c)}, e, e, e, false)
    ensures HandleKinds(c, t) == HandleClientEvent(c, KindFor(c), e)
  {
    hide HandleClientEvent;
    var mask := HandleClientEvent(c, KindFor(c), e).1;
    assert mask + {} + {} == mask && {} + mask + {} == mask;
  }

  lemma Rewatched(c: Client, mask: Mask)
    requires c.keepOpen && |c.sources| == 1 && c.sources[0].source == SELF
    ensures Rewatch(c, mask) == c.(sources := if mask == {} then [] else [MonitoredSource(SELF, mask)])
  {
    assert c.sources == [c.sources[0]];
    assert c.sources[1..] == [];
  }

  /** The run of the dispatcher over rounds in which the sockets deliver: the client is
      where its polls have brought it, and it is through with the exchange if they were
      as many, and productive, as bytes were missing. */
  lemma {:induction false} RoundsRun(c: Client, q: Message, wire: string, polls: seq<Poll>)
    requires WellFramed(q, true) && Underway(c, q, wire)
    requires forall i | 0 <= i < |polls| :: Delivering(polls[i])
    ensures var (ticks, c', rest) := Rounds(c, wire, polls);
      && Work(c, ticks) == c' && Underway(c', q, rest) && c'.connects == c.connects && c'.request == c.request
      && ((forall i | 0 <= i < |polls| :: Productive(polls[i])) && |polls| >= Missing(c, wire) ==>
           rest == "" && c'.state == IDLE)
    decreases polls
  {
    hide ProcessEntry, WellFramed, ClientPart, Delivering, Productive, EventAt;
    if polls == [] || c.sources == [] {
      UnderwayEnds(c, q, wire);
    } else {
      UnderwayEnds(c, q, wire);
      var t := TickAt(c, wire, polls[0]);
      var rest := EventAt(c, wire, polls[0]).1;
      UnderwayRound(c, q, wire, polls[0]);
      var c1 := ProcessEntry(c, t);
      RoundsRun(c1, q, rest, polls[1..]);
      FirstRound(c, q, wire, polls[0], Rounds(c1, rest, polls[1..]).0);
    }
  }

  lemma UnderwayEnds(c: Client, q: Message, wire: string)
    requires WellFramed(q, true) && Underway(c, q, wire)
    ensures c.state == IDLE <==> c.sources == []
    ensures c.state == IDLE <==> wire == "" && c.state != WRITE_REQUEST
    ensures Missing(c, wire) >= 0 && (Missing(c, wire) == 0 <==> c.state == IDLE)
  {
    hide WellFramed;
    BodyNotEmpty(q);
  }

  lemma FirstRound(c: Client, q: Message, wire: string, p: Poll, ticks: seq<Tick>)
    requires Underway(c, q, wire) && c.sources != []
    ensures Work(c, [TickAt(c, wire, p)] + ticks) ==
      var c1 := ProcessEntry(c, TickAt(c, wire, p)); if c1.stopped then c1 else Work(c1, ticks)
  {
    hide ProcessEntry, EventAt, ClientPart;
    var t := TickAt(c, wire, p);
    assert ([t] + ticks)[1..] == ticks;
    assert c.sources == [c.sources[0]] && c.sources[1..] == [];
    assert t.kinds * Watched(c.sources) == t.kinds;
    OneEntry(c, t);
  }

  // ----------------------------------------------------------------------- `execute`

  /** `execute` on its way into the dispatcher. */
  function Begun(c: Client, request: string, connect: Connect): Client {
    Setup(c.(sendAttempts := 0, connects := 0), connect).0.(request := request, stopped := false)
  }

  /** A connection is kept from the call before, or a new one is made. */
  predicate Connects(c: Client, connect: Connect) {
    Setup(c.(sendAttempts := 0, connects := 0), connect).1
  }

  lemma ConnectedConnects(c: Client)
    ensures Connects(c, Connected)
  {
    hide Prepared, Disconnected;
  }

  lemma BegunUnderway(c: Client, request: string, connect: Connect, q: Message)
    requires WatchedOnce(c.sources) && c.keepOpen && Connects(c, connect)
    ensures var c1 := Begun(c, request, connect);
      && Underway(c1, q, q.Bytes()) && c1.connects == 1 && c1.sendAttempts == 0 && c1.request == request
      && c1.state == WRITE_REQUEST && c1.bytesWritten == 0
  {
    EditsWatchOnce(c.sources, {});
    EditsWatchOnce([], {});
    assert q.Bytes()[0..] == q.Bytes();
  }

  /** As soon as everything has been delivered, `execute` returns what the response says;
      and productive polls, as many as bytes are to be written and read and one more,
      deliver everything. */
  lemma ExecuteCompletes(lib: Library, c: Client, request: string, connect: Connect, q: Message, polls: seq<Poll>)
    requires WatchedOnce(c.sources) && c.keepOpen && Connects(c, connect) && WellFramed(q, true)
    requires forall i | 0 <= i < |polls| :: Delivering(polls[i])
    ensures var (ticks, c', rest) := Rounds(Begun(c, request, connect), q.Bytes(), polls);
      var x := Execute(lib, c, request, connect, ticks);
      && (rest == "" && c'.state != WRITE_REQUEST ==>
           && x.client.state == IDLE && x.client.connects == 1 && x.client.arrived == q.Bytes()
           && x.reply == ParseResponse(lib, q.body) && (x.reply.Some? ==> x.ok == x.reply.value.ok))
      && ((forall i | 0 <= i < |polls| :: Productive(polls[i])) && |polls| > |request| + |q.Bytes()| ==>
           rest == "" && c'.state != WRITE_REQUEST)
  {
    hide Setup, Work, ParseResponse, WellFramed, Delivering, Productive, Rounds, Underway, WatchedOnce, Execute,
      Begun, Connects;
    var c1 := Begun(c, request, connect);
    BegunUnderway(c, request, connect, q);
    RoundsRun(c1, q, q.Bytes(), polls);
    var (ticks, c', rest) := Rounds(c1, q.Bytes(), polls);
    UnderwayEnds(c', q, rest);
    if rest == "" && c'.state != WRITE_REQUEST {
      AllArrived(c', q, rest);
      Completed(lib, c, request, connect, q, ticks);
    }
  }

  lemma AllArrived(c: Client, q: Message, wire: string)
    requires Underway(c, q, wire) && wire == "" && c.state != WRITE_REQUEST
    ensures c.arrived == q.Bytes() && c.state == IDLE ==> c.response == q.body
    ensures c.arrived == q.Bytes()
  {
    assert c.arrived + "" == c.arrived;
    assert q.body[..|q.body|] == q.body;
  }

  lemma Completed(lib: Library, c: Client, request: string, connect: Connect, q: Message, ticks: seq<Tick>)
    requires Connects(c, connect) && WellFramed(q, true)
    ensures var c' := Work(Begun(c, request, connect), ticks); var x := Execute(lib, c, request, connect, ticks);
      c'.state == IDLE && c'.response == q.body ==>
        x.client == c'.(response := x.client.response) && x.reply == ParseResponse(lib, q.body)
          && (x.reply.Some? ==> x.ok == x.reply.value.ok)
  {
    hide Setup, Work, ParseResponse, WellFramed;
  }

  // ---------------------------------------------------------- a connection that is lost

  /** A round in which the whole request is written and the connection is then found
      closed, before a byte has come back; a new one can be made. */
  function LosingTick(request: string): (t: Tick)
    requires request != ""
    ensures t.Ready?
  {
    var e := ClientEvent([Wrote(|request|)], ReadOutcome("", true, true), Got(""), Connected);
    Ready({WritableEvent}, e, e, e, false)
  }

  lemma WholeWrite(c: Client)
    requires c.state == WRITE_REQUEST && c.bytesWritten == 0 && c.request != ""
    ensures WriteRequest(c, [Wrote(|c.request|)])
      == (c.(bytesWritten := |c.request|, sent := c.sent + c.request, header := "", response := "",
             state := READ_HEADER_C), true)
  {
    var none: seq<WriteResult> := [];
    assert [Wrote(|c.request|)][1..] == none;
    assert Send(none, 0) == WriteOutcome(0, true);
    assert c.request[0..|c.request|] == c.request;
  }

  /** The client connects once more, and writes the request from its first byte. */
  lemma LosingRound(c: Client, q: Message)
    requires Underway(c, q, q.Bytes()) && c.state == WRITE_REQUEST && c.bytesWritten == 0 && c.request != ""
      && c.sendAttempts == 0
    ensures var c' := ProcessEntry(c, LosingTick(c.request));
      && Underway(c', q, q.Bytes()) && c'.state == WRITE_REQUEST && c'.bytesWritten == 0
      && c'.connects == c.connects + 1 && c'.request == c.request && !c'.stopped
  {
    hide WriteRequest, ParseHeader, Take, ClientPart;
    var t := LosingTick(c.request);
    var e := t.onWrite;
    WholeWrite(c);
    WriteThenRead(c, WritableEvent, e);
    var c0 := WriteRequest(c, e.writes).0;
    LosingRetry(c0);
    var c1 := HandleClientEvent(c, WritableEvent, e).0;
    OneKind(c, t, e);
    Rewatched(c1, {WritableEvent});
  }

  lemma LosingRetry(c: Client)
    requires c.state == READ_HEADER_C && c.header == "" && c.keepOpen && c.sendAttempts == 0
    requires |c.sources| == 1 && c.sources[0].source == SELF
    ensures var c' := ReadClientHeader(c, ReadOutcome("", true, true), Connected).0;
      && ReadClientHeader(c, ReadOutcome("", true, true), Connected).1
      && c'.state == WRITE_REQUEST && c'.bytesWritten == 0 && c'.arrived == "" && c'.connects == c.connects + 1
      && c'.request == c.request && c'.keepOpen && c'.stopped == c.stopped
      && c'.sources == [MonitoredSource(SELF, {WritableEvent, ExceptionEvent})]
  {
    hide ParseHeader;
    assert c.header + "" == "";
    assert c.sources == [c.sources[0]] && c.sources[1..] == [];
    assert Removed(c.sources, SELF) == [];
  }

  /** `execute` over a lost and a second connection. */
  lemma ExecuteAfterLoss(lib: Library, c: Client, request: string, connect: Connect, q: Message, polls: seq<Poll>)
    requires WatchedOnce(c.sources) && c.keepOpen && Connects(c, connect) && WellFramed(q, true) && request != ""
    requires forall i | 0 <= i < |polls| :: Delivering(polls[i]) && Productive(polls[i])
    requires |polls| > |request| + |q.Bytes()|
    ensures var c1 := Begun(c, request, connect); var c2 := ProcessEntry(c1, LosingTick(request));
      var x := Execute(lib, c, request, connect, [LosingTick(request)] + Rounds(c2, q.Bytes(), polls).0);
      && x.client.state == IDLE && x.client.connects == 2 && x.client.arrived == q.Bytes()
      && x.reply == ParseResponse(lib, q.body) && (x.reply.Some? ==> x.ok == x.reply.value.ok)
  {
    hide Setup, Work, ParseResponse, WellFramed, Delivering, Productive, Rounds, Underway, WatchedOnce, Execute,
      Begun, Connects, ProcessEntry;
    var c1 := Begun(c, request, connect);
    BegunUnderway(c, request, connect, q);
    LosingRound(c1, q);
    var c2 := ProcessEntry(c1, LosingTick(request));
    RoundsRun(c2, q, q.Bytes(), polls);
    var (ticks, c', rest) := Rounds(c2, q.Bytes(), polls);
    AllArrived(c', q, rest);
    LostFirst(c1, c2, q, request, ticks);
    Completed(lib, c, request, connect, q, [LosingTick(request)] + ticks);
  }

  lemma LostFirst(c: Client, c2: Client, q: Message, request: string, ticks: seq<Tick>)
    requires request != "" && Underway(c, q, q.Bytes()) && c.state == WRITE_REQUEST
    requires c2 == ProcessEntry(c, LosingTick(request)) && !c2.stopped
    ensures Work(c, [LosingTick(request)] + ticks) == Work(c2, ticks)
  {
    hide ProcessEntry, ClientPart;
    var t := LosingTick(request);
    assert ([t] + ticks)[1..] == ticks;
    assert c.sources == [c.sources[0]] && c.sources[1..] == [];
    assert t.kinds * Watched(c.sources) == t.kinds;
    OneEntry(c, t);
  }
}
