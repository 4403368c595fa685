/** How the server gives up a connection that fails: at once, with nothing executed. */
module ServerFailures {
  import opened Text
  import opened HttpHeader
  import opened XmlRpcSource
  import opened ServerConnection

  /** The connection fails at this event: an error, an end of file too early, or a header
      without a length. */
  predicate Fails(c: Conn, e: Event) {
    match c.state
    case READ_HEADER =>
      var header := c.header + e.first.data;
      !e.first.ok || NoLength(header, false) || (e.first.eof && Look(header, false).body.None?)
    case READ_REQUEST =>
      Misses(c, "") && (!e.second.ok || (e.second.eof && Misses(c, e.second.data)))
    case WRITE_RESPONSE =>
      c.bytesWritten < |c.response| && WriteBreaks(e.writes, |c.response| - c.bytesWritten)
  }

  lemma HeaderFails(c: Conn, r: ReadOutcome)
    ensures var header := c.header + r.data; var (c', ok) := ReadHeader(c, r);
      && (ok <==> r.ok && !NoLength(header, false) && !(r.eof && Look(header, false).body.None?))
      && (!ok || Look(header, false).body.None? ==>
           c'.header == header && c'.state == c.state && c'.request == c.request && c'.response == c.response)
      && (!ok && r.ok && NoLength(header, false) && Look(header, false).length.Some? ==>
           c'.contentLength == Atoi(header, Look(header, false).length.value))
      && (ok && Look(header, false).body.Some? ==> c'.state == READ_REQUEST && c'.header == "")
  {
    hide Look, Atoi, CString, KeepAlive;
    LookInside(c.header + r.data, false);
  }

  /** The request is not complete with these bytes. */
  predicate Misses(c: Conn, data: string) {
    |c.request + data| < c.contentLength
  }

  lemma RequestFails(c: Conn, r: ReadOutcome)
    requires c.state == READ_REQUEST
    ensures var (c', ok) := ReadRequest(c, r);
      && (ok <==> !Misses(c, "") || (r.ok && (!Misses(c, r.data) || !r.eof)))
      && c'.request == c.request + (if Misses(c, "") then r.data else "")
      && c'.response == c.response
      && (c'.state == WRITE_RESPONSE <==> !Misses(c, "") || (r.ok && !Misses(c, r.data)))
  {
  }

  /** A connection that fails is dropped at this event, with nothing executed; nothing is
      written behind the bytes the socket took before its error. */
  lemma FailureDrops<S>(c: Conn, server: S, exec: (S, string) -> (S, string), e: Event)
    requires Fails(c, e)
    ensures var r := HandleEvent(c, server, exec, e);
      && !r.ok && r.server == server && r.conn.response == c.response
      && (if c.state == WRITE_RESPONSE then
            && r.sent == c.response[c.bytesWritten..c.bytesWritten + Send(e.writes, |c.response| - c.bytesWritten).sent]
            && r.conn.bytesWritten == c.bytesWritten + |r.sent|
          else r.sent == "")
  {
    hide ReadHeader, ReadRequest, Send, Look, NoLength;
    match c.state
    case READ_HEADER => HeaderFails(c, e.first);
    case READ_REQUEST => RequestFails(c, e.second);
    case WRITE_RESPONSE => BreaksSend(e.writes, |c.response| - c.bytesWritten);
  }

  /** A server that answers with nothing has its connection dropped as well. */
  lemma NoResponseDrops<S>(c: Conn, server: S, exec: (S, string) -> (S, string), e: Event)
    requires c.state == WRITE_RESPONSE && c.response == "" && exec(server, c.request).1 == ""
    ensures var r := HandleEvent(c, server, exec, e); !r.ok && r.server == exec(server, c.request).0 && r.sent == ""
  {
  }
}
