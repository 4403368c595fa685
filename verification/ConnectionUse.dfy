/** Which connection a call goes over: the one of the call before only if that call was
    completed and the server has not closed it. */
module ConnectionUse {
  import opened Text
  import opened ValueSyntax
  import opened Messages
  import opened HttpHeader
  import opened XmlRpcSource
  import opened XmlRpcDispatch
  import opened ServerConnection
  import opened ClientMachine
  import opened XmlRpcClient

  /** The call before was completed, and no end of file has been seen. */
  predicate Reusable(c: Client) {
    c.state == IDLE && !c.eof
  }

  /** Within a run every connection more that is used is one more that is made. */
  predicate Balanced(c: Client, c': Client) {
    c'.connects >= c.connects && c'.made - c'.connects == c.made - c.connects
  }

  lemma WriteBalanced(c: Client, writes: seq<WriteResult>)
    ensures Balanced(c, WriteRequest(c, writes).0)
  {
    hide Send;
  }

  lemma HeaderBalanced(c: Client, r: ReadOutcome, connect: Connect)
    ensures Balanced(c, ReadClientHeader(c, r, connect).0)
  {
    hide Look, Atoi, CString, Removed;
  }

  lemma ResponseBalanced(c: Client, r: ReadOutcome)
    ensures Balanced(c, ReadResponse(c, r).0)
  {
  }

  lemma EventBalanced(c: Client, kind: EventType, e: ClientEvent)
    ensures Balanced(c, HandleClientEvent(c, kind, e).0)
  {
    hide WriteRequest, ReadClientHeader, ReadResponse;
    var c1 := if c.state == WRITE_REQUEST then WriteRequest(c, e.writes).0 else c;
    var c2 := if c1.state == READ_HEADER_C then ReadClientHeader(c1, e.first, e.connect).0 else c1;
    WriteBalanced(c, e.writes);
    HeaderBalanced(c1, e.first, e.connect);
    ResponseBalanced(c2, e.second);
  }

  lemma EntryBalanced(c: Client, t: Tick)
    requires t.Ready?
    ensures Balanced(c, ProcessEntry(c, t))
  {
    hide HandleClientEvent, Removed, WithMask;
    var (c1, m1) := if ReadableEvent in t.kinds then HandleClientEvent(c, ReadableEvent, t.onRead) else (c, {});
    EventBalanced(c, ReadableEvent, t.onRead);
    var (c2, m2) := if WritableEvent in t.kinds then HandleClientEvent(c1, WritableEvent, t.onWrite) else (c1, {});
    EventBalanced(c1, WritableEvent, t.onWrite);
    EventBalanced(c2, ExceptionEvent, t.onException);
  }

  lemma {:induction false} EntriesBalanced(c: Client, n: nat, t: Tick)
    requires t.Ready?
    ensures Balanced(c, ProcessEntries(c, n, t))
    decreases n
  {
    hide ProcessEntry;
    if n == 0 {
    } else {
      EntryBalanced(c, t);
      EntriesBalanced(ProcessEntry(c, t), n - 1, t);
    }
  }

  lemma {:induction false} WorkBalanced(c: Client, ticks: seq<Tick>)
    ensures Balanced(c, Work(c, ticks))
    decreases ticks
  {
    hide ProcessEntries, Watched;
    if c.sources == [] || ticks == [] || !ticks[0].Ready? {
    } else {
      var t := ticks[0].(kinds := ticks[0].kinds * Watched(c.sources));
      var c1 := ProcessEntries(c, |c.sources|, t);
      EntriesBalanced(c, |c.sources|, t);
      if !c1.stopped && !t.timeout {
        WorkBalanced(c1, ticks[1..]);
      }
    }
  }

  /** `execute` begins on the connection of the call before exactly if that call left the
      client idle without an end of file. Otherwise it gives that connection up, and
      without a new one it fails, with nothing sent and nothing read. */
  lemma ExecuteUses(lib: Library, c: Client, request: string, connect: Connect, ticks: seq<Tick>)
    ensures var x := Execute(lib, c, request, connect, ticks);
      if Reusable(c) || connect == Connected then
        && x.client.connects >= 1
        && x.client.made == c.made + x.client.connects - if Reusable(c) then 1 else 0
      else
        && !x.ok && x.client.state == NO_CONNECTION && x.client.connects == 0
        && x.client.made == c.made && x.client.sent == c.sent && x.client.arrived == c.arrived
  {
    hide Work, ParseResponse, Removed;
    var (c1, ok) := Setup(c.(sendAttempts := 0, connects := 0), connect);
    if ok {
      WorkBalanced(c1.(request := request, stopped := false), ticks);
    }
  }
}
