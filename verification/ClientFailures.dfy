/** How `execute` ends when its connection fails: with no reply, at once, and with the
    connection given up or left for the next call to give up. */
module ClientFailures {
  import opened Text
  import opened HttpHeader
  import opened ValueSyntax
  import opened Messages
  import opened XmlRpcSource
  import opened XmlRpcDispatch
  import opened ServerConnection
  import opened ClientMachine
  import opened ClientProgress
  import XmlRpcClient

  /** The connection fails at this event: an error, an end of file too early, or a header
      without a length. An error or an end of file before the first byte of a response
      only counts if the client has sent the request again already, or does not keep its
      connection. */
  predicate Fails(c: Client, e: ClientEvent) {
    match c.state
    case WRITE_REQUEST => c.bytesWritten <= |c.request| && WriteBreaks(e.writes, |c.request| - c.bytesWritten)
    case READ_HEADER_C =>
      var header := c.header + e.first.data;
      if !e.first.ok || (e.first.eof && header == "") then header != "" || !c.keepOpen || c.sendAttempts > 0
      else NoLength(header, true) || (e.first.eof && Look(header, true).body.None?)
    case READ_RESPONSE =>
      |c.response| < c.contentLength &&
      (!e.second.ok || (e.second.eof && |c.response + e.second.data| < c.contentLength))
    case _ => false
  }

  /** A failed event changes neither the state nor what is watched, and asks for nothing
      more; so does an exception on the descriptor. */
  predicate Same(c: Client, c': Client) {
    && c'.state == c.state && c'.keepOpen == c.keepOpen && c'.sources == c.sources && c'.stopped == c.stopped
    && c'.connects == c.connects
  }

  lemma WriteFails(c: Client, kind: EventType, e: ClientEvent)
    requires c.state == WRITE_REQUEST && Fails(c, e) && kind != ExceptionEvent
    ensures var (c', mask) := HandleClientEvent(c, kind, e); mask == {} && Same(c, c')
  {
    hide Send, ReadClientHeader, ReadResponse;
    BreaksSend(e.writes, |c.request| - c.bytesWritten);
  }

  lemma HeaderFails(c: Client, kind: EventType, e: ClientEvent)
    requires c.state == READ_HEADER_C && Fails(c, e) && kind != ExceptionEvent
    ensures var (c', mask) := HandleClientEvent(c, kind, e);
      && mask == {} && Same(c, c')
      && var header := c.header + e.first.data;
         (e.first.ok && header != "" && NoLength(header, true) && Look(header, true).length.Some? ==>
           c'.contentLength == Atoi(header, Look(header, true).length.value))
  {
    hide Look, Atoi, CString, Setup, WriteRequest, ReadResponse;
    LookInside(c.header + e.first.data, true);
  }

  lemma ResponseFails(c: Client, kind: EventType, e: ClientEvent)
    requires c.state == READ_RESPONSE && Fails(c, e) && kind != ExceptionEvent
    ensures var (c', mask) := HandleClientEvent(c, kind, e); mask == {} && Same(c, c')
  {
    hide WriteRequest, ReadClientHeader;
  }

  lemma EventFails(c: Client, kind: EventType, e: ClientEvent)
    requires Fails(c, e) || (kind == ExceptionEvent && c.state != IDLE)
    ensures var (c', mask) := HandleClientEvent(c, kind, e); mask == {} && Same(c, c') && c.state != IDLE
  {
    hide HandleClientEvent, Fails;
    if Fails(c, e) { OnlyThree(c, e); }
    if kind == ExceptionEvent {
      ExceptionNothing(c, e);
    } else {
      match c.state {
        case WRITE_REQUEST => WriteFails(c, kind, e);
        case READ_HEADER_C => HeaderFails(c, kind, e);
        case _ => ResponseFails(c, kind, e);
      }
    }
  }

  lemma OnlyThree(c: Client, e: ClientEvent)
    requires Fails(c, e)
    ensures c.state == WRITE_REQUEST || c.state == READ_HEADER_C || c.state == READ_RESPONSE
  {
  }

  /** The round of the dispatcher with this event. */
  lemma RoundFails(c: Client, e: ClientEvent)
    requires Fails(c, e) && WatchedFor(c.sources, KindFor(c))
    ensures var c' := ProcessEntry(c, Ready({KindFor(c)}, e, e, e, false));
      && c'.sources == [] && c'.state != IDLE && c'.connects == c.connects
      && (if c.keepOpen then c'.state == c.state else c'.state == NO_CONNECTION && c'.stopped)
  {
    hide HandleClientEvent, HandleKinds, Fails;
    var t := Ready({KindFor(c)}, e, e, e, false);
    EventFails(c, KindFor(c), e);
    OneKind(c, t, e);
    var (c1, mask) := HandleKinds(c, t);
    assert c1.sources == [c1.sources[0]] && c1.sources[1..] == [];
    assert Removed(c1.sources, SELF) == [];
    assert Removed([], SELF) == [];
  }

  /** `execute` then returns false, with no reply and no registration, whatever would come
      later; the connection is closed, or in a state in which the next call gives it up. */
  lemma FailureEnds(lib: Library, c: Client, e: ClientEvent, ticks: seq<Tick>)
    requires Fails(c, e) && WatchedFor(c.sources, KindFor(c))
    ensures var x := XmlRpcClient.Finish(lib, Work(c, [Ready({KindFor(c)}, e, e, e, false)] + ticks));
      && !x.ok && x.reply == Some(Reply(false, VInvalid, false))
      && x.client.sources == [] && x.client.state != IDLE && x.client.connects == c.connects
      && (!c.keepOpen ==> x.client.state == NO_CONNECTION && x.client.stopped)
  {
    hide Fails, ProcessEntry, ParseResponse;
    var t := Ready({KindFor(c)}, e, e, e, false);
    RoundFails(c, e);
    assert ([t] + ticks)[1..] == ticks;
    assert c.sources == [c.sources[0]] && c.sources[1..] == [];
    assert t.kinds * Watched(c.sources) == t.kinds;
    OneEntry(c, t);
  }
}
