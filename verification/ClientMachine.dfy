/** The client's connection as functions of its state: what each event of the
    dispatcher does during `execute`, and what holds over all runs. */
module ClientMachine {
  import opened Text
  import opened HttpHeader
  import opened XmlRpcSource
  import opened XmlRpcDispatch
  import opened ServerConnection
  import opened Framing

  datatype ClientState = NO_CONNECTION | WRITE_REQUEST | READ_HEADER_C | READ_RESPONSE | IDLE

  const SELF := 0

  /** `made` counts the connections the client has made in its life, and `connects` those
      the current `execute` has used, a kept one included; `sent` holds the bytes of the
      request written on the latest of them and `arrived` the bytes read on it since. No
      branch depends on these four. */
  datatype Client = Client(
    state: ClientState,
    keepOpen: bool,
    request: string,
    header: string,
    response: string,
    sendAttempts: nat,
    bytesWritten: nat,
    eof: bool,
    contentLength: int,
    sources: seq<MonitoredSource>,
    stopped: bool,
    made: nat,
    connects: nat,
    sent: string,
    arrived: string)

  /** The ways `doConnect` ends: connected, no socket to be had, or closed after a failure. */
  datatype Connect = Connected | NoSocket | Refused

  /** `close`. */
  function Disconnected(c: Client): Client {
    c.(state := NO_CONNECTION, stopped := true, sources := Removed(c.sources, SELF))
  }

  /** The end of `setupConnection`: the request is to be written from its first byte. */
  function Prepared(c: Client): Client {
    c.(state := WRITE_REQUEST,
       bytesWritten := 0,
       connects := c.connects + 1,
       sent := "",
       arrived := "",
       sources := Removed(c.sources, SELF) + [MonitoredSource(SELF, {WritableEvent, ExceptionEvent})])
  }

  /** `setupConnection`; the flag is its result. */
  function Setup(c: Client, connect: Connect): (Client, bool) {
    var c1 := if (c.state != NO_CONNECTION && c.state != IDLE) || c.eof then Disconnected(c) else c;
    var c2 := c1.(eof := false);
    if c2.state != NO_CONNECTION then (Prepared(c2), true)
    else match connect
      case NoSocket => (c2, false)
      case Refused => (Disconnected(c2), false)
      case Connected => (Prepared(c2.(made := c2.made + 1)), true)
  }

  /** `writeRequest`. */
  function WriteRequest(c: Client, writes: seq<WriteResult>): (Client, bool) {
    if c.bytesWritten > |c.request| then (c, true)
    else
      var w := Send(writes, |c.request| - c.bytesWritten);
      var end := c.bytesWritten + w.sent;
      var c1 := c.(bytesWritten := end, sent := c.sent + c.request[c.bytesWritten..end]);
      if !w.ok then (c1, false)
      else if end == |c.request| then (c1.(header := "", response := "", state := READ_HEADER_C), true)
      else (c1, true)
  }

  /** `parseHeader`. */
  function ParseHeader(c: Client): (Client, bool) {
    var scan := Look(c.header, true);
    LookInside(c.header, true);
    if scan.body.None? then (c, !c.eof)
    else if scan.length.None? then (c, false)
    else
      var n := Atoi(c.header, scan.length.value);
      if n <= 0 then (c.(contentLength := n), false)
      else
        var response := CString(c.header, scan.body.value);
        (c.(contentLength := n, response := response, header := "", state := READ_RESPONSE), true)
  }

  /** The server may have closed a kept connection before anything came back: then
      `readHeader` connects once more. */
  function Retry(c: Client, connect: Connect): (Client, bool) {
    if c.keepOpen && c.header == "" then
      var c1 := c.(sendAttempts := c.sendAttempts + 1);
      if c.sendAttempts == 0 then Setup(c1.(state := NO_CONNECTION, eof := false), connect) else (c1, false)
    else (c, false)
  }

  /** `readHeader`. */
  function ReadClientHeader(c: Client, r: ReadOutcome, connect: Connect): (Client, bool) {
    var c1 := c.(header := c.header + r.data, arrived := c.arrived + r.data, eof := r.ok && r.eof);
    if !r.ok || (c1.eof && c1.header == "") then Retry(c1, connect) else ParseHeader(c1)
  }

  /** `readResponse`; false both on errors and when the response is complete. */
  function ReadResponse(c: Client, r: ReadOutcome): (Client, bool) {
    if |c.response| < c.contentLength then
      var c1 := c.(response := c.response + r.data, arrived := c.arrived + r.data, eof := r.ok && r.eof);
      if !r.ok then (c1, false)
      else if |c1.response| < c.contentLength then (c1, !c1.eof)
      else (c1.(state := IDLE), false)
    else (c.(state := IDLE), false)
  }

  /** What the sockets do during one event. */
  datatype ClientEvent = ClientEvent(
    writes: seq<WriteResult>, first: ReadOutcome, second: ReadOutcome, connect: Connect)

  /** `handleEvent`; the mask is empty when the source is no longer to be watched. */
  function HandleClientEvent(c: Client, kind: EventType, e: ClientEvent): (Client, Mask) {
    if kind == ExceptionEvent then (c, {})
    else
      var (c1, ok1) := if c.state == WRITE_REQUEST then WriteRequest(c, e.writes) else (c, true);
      if !ok1 then (c1, {})
      else
        var (c2, ok2) := if c1.state == READ_HEADER_C then ReadClientHeader(c1, e.first, e.connect) else (c1, true);
        if !ok2 then (c2, {})
        else
          var (c3, ok3) := if c2.state == READ_RESPONSE then ReadResponse(c2, e.second) else (c2, true);
          if !ok3 then (c3, {})
          else (c3, if c3.state == WRITE_REQUEST then {WritableEvent} else {ReadableEvent})
  }

  /** One round of the dispatcher: `select` fails, or reports some kinds of events for
      the client's descriptor, each with what the sockets then do. */
  datatype Tick =
    | SelectError
    | Ready(kinds: Mask, onRead: ClientEvent, onWrite: ClientEvent, onException: ClientEvent, timeout: bool)

  /** The handling of one entry of the copied source list: each kind of event in turn. */
  function HandleKinds(c: Client, t: Tick): (Client, Mask)
    requires t.Ready?
  {
    var (c1, m1) := if ReadableEvent in t.kinds then HandleClientEvent(c, ReadableEvent, t.onRead) else (c, {});
    var (c2, m2) := if WritableEvent in t.kinds then HandleClientEvent(c1, WritableEvent, t.onWrite) else (c1, {});
    var (c3, m3) := if ExceptionEvent in t.kinds then HandleClientEvent(c2, ExceptionEvent, t.onException)
      else (c2, {});
    (c3, m1 + m2 + m3)
  }

  /** The update of the source list behind it. */
  function Rewatch(c: Client, mask: Mask): Client {
    if mask != {} then c.(sources := WithMask(c.sources, SELF, mask))
    else
      var c1 := c.(sources := Removed(c.sources, SELF));
      if c1.keepOpen then c1 else Disconnected(c1)
  }

  function ProcessEntry(c: Client, t: Tick): Client
    requires t.Ready?
  {
    if t.kinds == {} then c else var (c1, mask) := HandleKinds(c, t); Rewatch(c1, mask)
  }

  function ProcessEntries(c: Client, n: nat, t: Tick): Client
    requires t.Ready?
    decreases n
  {
    if n == 0 then c else ProcessEntries(ProcessEntry(c, t), n - 1, t)
  }

  /** Only kinds that some entry watches for are reported. */
  function Watched(sources: seq<MonitoredSource>): Mask {
    if sources == [] then {} else sources[0].mask + Watched(sources[1..])
  }

  lemma {:induction false} WatchedKinds(sources: seq<MonitoredSource>, kind: EventType)
    ensures kind in Watched(sources) <==> exists i :: 0 <= i < |sources| && kind in sources[i].mask
  {
    if sources == [] {
    } else {
      WatchedKinds(sources[1..], kind);
      assert sources == [sources[0]] + sources[1..];
    }
  }

  /** `work`, one tick after the other; the run ends with the ticks at the latest. */
  function Work(c: Client, ticks: seq<Tick>): Client
    decreases ticks
  {
    if c.sources == [] || ticks == [] then c
    else match ticks[0]
      case SelectError => c
      case Ready(kinds, r, w, x, timeout) =>
        var t := Ready(kinds * Watched(c.sources), r, w, x, timeout);
        var c1 := ProcessEntries(c, |c.sources|, t);
        if c1.stopped || timeout then c1 else Work(c1, ticks[1..])
  }

  // ------------------------------------------------------------- safety over all runs

  /** The dispatcher watches at most this client, once. */
  predicate WatchedOnce(sources: seq<MonitoredSource>) {
    |sources| <= 1 && forall i | 0 <= i < |sources| :: sources[i].source == SELF
  }

  /** If the bytes read on the present connection are the beginning of the message `q`,
      then the response buffer holds exactly the part of its body among them. */
  predicate Follows(c: Client, q: Message) {
    (c.state == READ_RESPONSE || c.state == IDLE) && c.arrived <= q.Bytes() ==>
      && |q.header| < |c.arrived| && c.contentLength == |q.body|
      && c.response == q.body[..|c.arrived| - |q.header|]
  }

  ghost predicate Faithful(c: Client) {
    forall q | WellFramed(q, true) :: Follows(c, q)
  }

  /** What every state of a run satisfies: at most one reconnect, the bytes written on
      the present connection are the request from its first byte on, the later states
      are reached only with the whole request and, at the end, the whole response, and
      the bytes that come back are never lost, repeated or misplaced. */
  ghost predicate Safe(c: Client) {
    && Faithful(c)
    && WatchedOnce(c.sources)
    && c.connects <= (if c.sendAttempts > 0 then 2 else 1)
    && (!c.keepOpen ==> c.connects <= 1)
    && (c.state != NO_CONNECTION ==> c.connects >= 1)
    && (c.state != NO_CONNECTION ==> c.bytesWritten <= |c.request| && c.sent == c.request[..c.bytesWritten])
    && (c.state == WRITE_REQUEST ==> c.arrived == "")
    && (c.state == READ_HEADER_C ==> c.header == c.arrived)
    && (c.state == READ_HEADER_C || c.state == READ_RESPONSE || c.state == IDLE ==> c.bytesWritten == |c.request|)
    && (c.state == READ_RESPONSE || c.state == IDLE ==> 0 < c.contentLength && |c.response| <= |c.arrived|)
    && (c.state == IDLE ==> |c.response| >= c.contentLength)
  }

  lemma EditsWatchOnce(sources: seq<MonitoredSource>, mask: Mask)
    requires WatchedOnce(sources)
    ensures Removed(sources, SELF) == []
    ensures WatchedOnce(WithMask(sources, SELF, mask))
    ensures |WithMask(sources, SELF, mask)| == |sources|
  {
    if sources != [] {
      assert sources == [sources[0]];
    }
  }

  lemma SetupSafe(c: Client, connect: Connect)
    requires WatchedOnce(c.sources) && c.connects <= (if c.sendAttempts > 0 then 1 else 0)
    requires !c.keepOpen ==> c.connects == 0
    ensures var (c', ok) := Setup(c, connect);
      && Safe(c') && c'.sendAttempts == c.sendAttempts && c'.request == c.request && c'.keepOpen == c.keepOpen
      && (ok ==> c'.state == WRITE_REQUEST && c'.bytesWritten == 0 && c'.sent == "" && |c'.sources| == 1)
      && !c'.eof
      && (!ok ==> c'.state == NO_CONNECTION)
      && (!ok && (connect == Refused || c.state != NO_CONNECTION || c.eof) ==> c'.sources == [] && c'.stopped)
  {
    hide Faithful;
    EditsWatchOnce(c.sources, {});
    EditsWatchOnce([], {});
    EarlyFaithful(Setup(c, connect).0);
  }

  /** The request may be set while nothing of it has been written. */
  lemma RequestSet(c: Client, request: string)
    requires Safe(c) && c.state == WRITE_REQUEST && c.sent == "" && c.bytesWritten == 0
    ensures Safe(c.(request := request, stopped := false))
  {
    hide Faithful, WatchedOnce;
    EarlyFaithful(c.(request := request, stopped := false));
  }

  lemma WriteSafe(c: Client, writes: seq<WriteResult>)
    requires Safe(c) && c.state == WRITE_REQUEST
    ensures Safe(WriteRequest(c, writes).0) && WriteRequest(c, writes).0.request == c.request
  {
    hide Send, WatchedOnce, Faithful;
    EarlyFaithful(WriteRequest(c, writes).0);
    var w := Send(writes, |c.request| - c.bytesWritten);
    var end := c.bytesWritten + w.sent;
    WrittenPrefix(c.request, c.bytesWritten, end);
    var piece := c.request[c.bytesWritten..end];
    var c1 := c.(bytesWritten := end, sent := c.sent + piece);
    assert c1.sent == c1.request[..c1.bytesWritten];
    EarlyFaithful(c1);
    assert Safe(c1);
    if w.ok && end == |c.request| {
      var c2 := c1.(header := "", response := "", state := READ_HEADER_C);
      assert WriteRequest(c, writes) == (c2, true);
    } else {
      assert WriteRequest(c, writes).0 == c1;
    }
  }

  lemma WrittenPrefix(s: string, m: nat, n: nat)
    requires m <= n <= |s|
    ensures s[..m] + s[m..n] == s[..n]
  {
  }

  lemma EarlyFaithful(c: Client)
    requires c.state != READ_RESPONSE && c.state != IDLE
    ensures Faithful(c)
  {
  }

  lemma SameFaithful(c: Client, c': Client)
    requires Faithful(c) && (c.state == READ_RESPONSE || c'.state == c.state)
    requires c'.arrived == c.arrived && c'.response == c.response && c'.contentLength == c.contentLength
    ensures Faithful(c')
  {
    hide WellFramed;
    forall q | WellFramed(q, true) ensures Follows(c', q) {
      assert Follows(c, q);
    }
  }

  /** `parseHeader` on the first `n` bytes of a message. */
  lemma ParseHeaderPart(c: Client, q: Message, n: nat)
    requires WellFramed(q, true) && n <= |q.Bytes()| && c.header == q.Bytes()[..n]
    ensures ParseHeader(c) == if n <= |q.header| then (c, !c.eof)
      else
        var part := q.body[..n - |q.header|];
        (c.(contentLength := |q.body|, response := part, header := "", state := READ_RESPONSE), true)
  {
    hide Look, ScanText, Atoi, CString, NulFree;
    LookAtFragment(q.header, q.body, n, true);
    HeaderEndsInNewline(q.header, true);
    if n > |q.header| {
      assert q.header <= c.header;
      LengthStays(q.header, c.header, ScanText(q.header, true).length.value, true);
      BodyPart(q, n);
    }
  }

  /** Why bodies of responses must be free of NUL as well: of the body's bytes that come in
      with the end of the header, all are buffered if and only if they hold none. The
      client then waits for bytes it has already been given. */
  lemma FirstBodyBytes(c: Client, q: Message, n: nat)
    requires Framed(q, true) && |q.header| < n <= |q.Bytes()| && c.header == q.Bytes()[..n]
    ensures var (c', ok) := ParseHeader(c); var part := q.body[..n - |q.header|];
      && ok && c'.state == READ_RESPONSE && c'.contentLength == |q.body|
      && (c'.response == part <==> NulFree(part)) && (|c'.response| < |part| <==> !NulFree(part))
  {
    hide Look, ScanText, Atoi, CString, NulFree;
    LookAtFragment(q.header, q.body, n, true);
    assert q.header <= c.header;
    LengthStays(q.header, c.header, ScanText(q.header, true).length.value, true);
    var part := q.body[..n - |q.header|];
    assert c.header[|q.header|..] == part;
    CStringNulFree(c.header, |q.header|);
  }

  lemma ParseHeaderFaithful(c: Client)
    requires c.state == READ_HEADER_C && c.header == c.arrived
    ensures Faithful(ParseHeader(c).0)
  {
    hide WellFramed, Look;
    var c' := ParseHeader(c).0;
    forall q | WellFramed(q, true) ensures Follows(c', q) {
      if c.arrived <= q.Bytes() {
        ParseHeaderPart(c, q, |c.arrived|);
      }
    }
  }

  lemma ResponseFollows(c: Client, r: ReadOutcome, q: Message)
    requires c.state == READ_RESPONSE && Follows(c, q)
    ensures Follows(c.(response := c.response + r.data, arrived := c.arrived + r.data), q)
  {
    var arrived := c.arrived + r.data;
    if arrived <= q.Bytes() {
      var h, m, n := |q.header|, |c.arrived|, |arrived|;
      assert c.arrived == arrived[..m];
      assert c.arrived <= q.Bytes();
      assert r.data == q.Bytes()[m..n];
      assert q.body[..m - h] + q.body[m - h..n - h] == q.body[..n - h];
    }
  }

  lemma ResponseFaithful(c: Client, r: ReadOutcome)
    requires c.state == READ_RESPONSE && Faithful(c) && |c.response| < c.contentLength
    ensures Faithful(c.(response := c.response + r.data, arrived := c.arrived + r.data))
  {
    hide WellFramed, Follows;
    var c' := c.(response := c.response + r.data, arrived := c.arrived + r.data);
    forall q | WellFramed(q, true) ensures Follows(c', q) {
      ResponseFollows(c, r, q);
    }
  }

  lemma RetrySafe(c: Client, connect: Connect)
    requires Safe(c) && c.state == READ_HEADER_C
    ensures Safe(Retry(c, connect).0) && Retry(c, connect).0.request == c.request
  {
    hide Setup, WatchedOnce, Faithful;
    if c.keepOpen && c.header == "" && c.sendAttempts == 0 {
      SetupSafe(c.(sendAttempts := 1, state := NO_CONNECTION, eof := false), connect);
    } else {
      EarlyFaithful(Retry(c, connect).0);
    }
  }

  lemma ParseHeaderSafe(c: Client)
    requires Safe(c) && c.state == READ_HEADER_C
    ensures Safe(ParseHeader(c).0) && ParseHeader(c).0.request == c.request
  {
    hide Look, Atoi, CString, WatchedOnce, Faithful;
    LookInside(c.header, true);
    ParseHeaderFaithful(c);
  }

  lemma HeaderSafe(c: Client, r: ReadOutcome, connect: Connect)
    requires Safe(c) && c.state == READ_HEADER_C
    ensures Safe(ReadClientHeader(c, r, connect).0) && ReadClientHeader(c, r, connect).0.request == c.request
  {
    hide Retry, ParseHeader, WatchedOnce, Faithful;
    var c1 := c.(header := c.header + r.data, arrived := c.arrived + r.data, eof := r.ok && r.eof);
    EarlyFaithful(c1);
    if !r.ok || (c1.eof && c1.header == "") {
      RetrySafe(c1, connect);
    } else {
      ParseHeaderSafe(c1);
    }
  }

  lemma ResponseSafe(c: Client, r: ReadOutcome)
    requires Safe(c) && c.state == READ_RESPONSE
    ensures Safe(ReadResponse(c, r).0) && ReadResponse(c, r).0.request == c.request
  {
    hide WatchedOnce, Faithful;
    if |c.response| < c.contentLength {
      ResponseFaithful(c, r);
      var c1 := c.(response := c.response + r.data, arrived := c.arrived + r.data);
      SameFaithful(c1, c1.(eof := r.ok && r.eof));
      SameFaithful(c1, c1.(eof := r.ok && r.eof, state := IDLE));
    } else {
      SameFaithful(c, c.(state := IDLE));
    }
  }

  lemma EventSafe(c: Client, kind: EventType, e: ClientEvent)
    requires Safe(c)
    ensures Safe(HandleClientEvent(c, kind, e).0) && HandleClientEvent(c, kind, e).0.request == c.request
  {
    hide Safe, WriteRequest, ReadClientHeader, ReadResponse;
    if kind != ExceptionEvent {
      if c.state == WRITE_REQUEST { WriteSafe(c, e.writes); }
      var (c1, ok1) := if c.state == WRITE_REQUEST then WriteRequest(c, e.writes) else (c, true);
      if ok1 {
        if c1.state == READ_HEADER_C { HeaderSafe(c1, e.first, e.connect); }
        var (c2, ok2) := if c1.state == READ_HEADER_C then ReadClientHeader(c1, e.first, e.connect) else (c1, true);
        if ok2 && c2.state == READ_RESPONSE {
          ResponseSafe(c2, e.second);
        }
      }
    }
  }

  lemma KindsSafe(c: Client, t: Tick)
    requires Safe(c) && t.Ready?
    ensures Safe(HandleKinds(c, t).0) && HandleKinds(c, t).0.request == c.request
  {
    hide HandleClientEvent, Safe;
    if ReadableEvent in t.kinds { EventSafe(c, ReadableEvent, t.onRead); }
    var (c1, m1) := if ReadableEvent in t.kinds then HandleClientEvent(c, ReadableEvent, t.onRead) else (c, {});
    if WritableEvent in t.kinds { EventSafe(c1, WritableEvent, t.onWrite); }
    var (c2, m2) := if WritableEvent in t.kinds then HandleClientEvent(c1, WritableEvent, t.onWrite) else (c1, {});
    if ExceptionEvent in t.kinds { EventSafe(c2, ExceptionEvent, t.onException); }
  }

  lemma RewatchSafe(c: Client, mask: Mask)
    requires Safe(c)
    ensures Safe(Rewatch(c, mask)) && Rewatch(c, mask).request == c.request
  {
    hide WatchedOnce, Removed, WithMask, Faithful;
    EditsWatchOnce(c.sources, mask);
    NothingWatched();
    var c' := Rewatch(c, mask);
    if c'.state == c.state {
      SameFaithful(c, c');
    } else {
      EarlyFaithful(c');
    }
  }

  lemma EntrySafe(c: Client, t: Tick)
    requires Safe(c) && t.Ready?
    ensures Safe(ProcessEntry(c, t)) && ProcessEntry(c, t).request == c.request
  {
    hide HandleKinds, Rewatch, Safe;
    KindsSafe(c, t);
    RewatchSafe(HandleKinds(c, t).0, HandleKinds(c, t).1);
  }

  lemma NothingWatched()
    ensures WatchedOnce([]) && Removed([], SELF) == []
  {
  }

  lemma {:induction false} EntriesSafe(c: Client, n: nat, t: Tick)
    requires Safe(c) && t.Ready?
    ensures Safe(ProcessEntries(c, n, t)) && ProcessEntries(c, n, t).request == c.request
    decreases n
  {
    hide Safe, ProcessEntry;
    if n == 0 {
    } else {
      EntrySafe(c, t);
      EntriesSafe(ProcessEntry(c, t), n - 1, t);
    }
  }

  /** Every run of the dispatcher, whatever the sockets do, stays safe. */
  lemma {:induction false} WorkSafe(c: Client, ticks: seq<Tick>)
    requires Safe(c)
    ensures Safe(Work(c, ticks)) && Work(c, ticks).request == c.request
    decreases ticks
  {
    hide Safe, ProcessEntries;
    if c.sources != [] && ticks != [] && ticks[0].Ready? {
      var t := ticks[0].(kinds := ticks[0].kinds * Watched(c.sources));
      EntriesSafe(c, |c.sources|, t);
      WorkSafe(ProcessEntries(c, |c.sources|, t), ticks[1..]);
    }
  }

  // ------------------------------------------------- the response comes in fragments

  /** After `n` bytes of a response the buffers hold exactly these bytes; after the
      last one the client is idle with the whole body. */
  predicate ClientPart(c: Client, q: Message, n: nat)
    requires n <= |q.Bytes()|
  {
    if n <= |q.header| then c.state == READ_HEADER_C && c.header == q.Bytes()[..n]
    else
      && c.state == (if n < |q.Bytes()| then READ_RESPONSE else IDLE)
      && c.contentLength == |q.body| && c.response == q.body[..n - |q.header|]
  }

  /** A read delivers the bytes from `m` to `n`; the server may close behind the last one. */
  predicate Delivers(r: ReadOutcome, q: Message, m: nat, n: nat)
    requires m <= n <= |q.Bytes()|
  {
    r.ok && r.data == q.Bytes()[m..n] && (r.eof ==> n == |q.Bytes()|)
  }

  lemma ClientHeaderFragment(c: Client, q: Message, m: nat, n: nat, r: ReadOutcome, connect: Connect)
    requires WellFramed(q, true) && m <= |q.header| && m <= n <= |q.Bytes()| && Delivers(r, q, m, n)
    requires ClientPart(c, q, m)
    ensures var (c', ok) := ReadClientHeader(c, r, connect);
      ok && (if n <= |q.header| then ClientPart(c', q, n)
             else c'.state == READ_RESPONSE && c'.contentLength == |q.body| && c'.response == q.body[..n - |q.header|])
  {
    hide ParseHeader, Retry, WellFramed;
    var c1 := c.(header := c.header + r.data, arrived := c.arrived + r.data, eof := r.ok && r.eof);
    WrittenPrefix(q.Bytes(), m, n);
    HeaderNotEmpty(q);
    BodyNotEmpty(q);
    ParseHeaderPart(c1, q, n);
  }

  lemma ClientBodyFragment(c: Client, q: Message, m: nat, n: nat, r: ReadOutcome)
    requires |q.header| < m <= n <= |q.Bytes()| && Delivers(r, q, m, n)
    requires c.state == READ_RESPONSE && c.contentLength == |q.body| && c.response == q.body[..m - |q.header|]
    ensures var (c', ok) := ReadResponse(c, r);
      ClientPart(c', q, n) && (ok <==> n < |q.Bytes()|)
  {
    var h := |q.header|;
    assert q.Bytes()[m..n] == q.body[m - h..n - h];
    assert q.body[..m - h] + q.body[m - h..n - h] == q.body[..n - h];
  }

  /** One event while a response is on its way: `n1` bytes come with the first read
      and, if the header is then complete and the body is not, `n2` with the second.
      The event asks to be watched again exactly as long as bytes are missing. */
  lemma ClientReads(c: Client, q: Message, m: nat, kind: EventType, e: ClientEvent, n1: nat, n2: nat) returns (n: nat)
    requires WellFramed(q, true) && kind != ExceptionEvent
    requires m < |q.Bytes()| && ClientPart(c, q, m) && m <= n1 <= n2 <= |q.Bytes()|
    requires m <= |q.header| ==> Delivers(e.first, q, m, n1)
    requires m > |q.header| ==> n1 == m
    requires |q.header| < n1 < |q.Bytes()| ==> Delivers(e.second, q, n1, n2)
    ensures n == (if |q.header| < n1 then (if n1 < |q.Bytes()| then n2 else n1) else n1)
    ensures var (c', mask) := HandleClientEvent(c, kind, e);
      ClientPart(c', q, n) && mask == (if n < |q.Bytes()| then {ReadableEvent} else {})
  {
    hide ReadClientHeader, WellFramed, Delivers;
    n := if |q.header| < n1 < |q.Bytes()| then n2 else n1;
    BodyNotEmpty(q);
    var c1 := c;
    if m <= |q.header| {
      ClientHeaderFragment(c, q, m, n1, e.first, e.connect);
      c1 := ReadClientHeader(c, e.first, e.connect).0;
    }
    if |q.header| < n1 {
      if n1 < |q.Bytes()| {
        ClientBodyFragment(c1, q, n1, n2, e.second);
      } else {
        assert q.body[..|q.body|] == q.body;
      }
    }
  }

  lemma HeaderNotEmpty(q: Message)
    requires WellFramed(q, true)
    ensures |q.header| > 0
  {
    hide ScanText, NulFree, Atoi;
    HeaderEndsInNewline(q.header, true);
  }

  lemma BodyNotEmpty(q: Message)
    requires WellFramed(q, true)
    ensures |q.body| > 0 && |q.Bytes()| == |q.header| + |q.body|
  {
  }
}
