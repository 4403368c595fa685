/** The server's connection: what one event does to it, as functions of its state. */
module ServerConnection {
  import opened Text
  import opened HttpHeader
  import opened XmlRpcSource

  datatype State = READ_HEADER | READ_REQUEST | WRITE_RESPONSE

  datatype Conn = Conn(
    state: State,
    header: string,
    contentLength: int,
    request: string,
    response: string,
    bytesWritten: nat,
    keepAlive: bool)

  /** A C string assigned from `s + o`: the text up to the first NUL. */
  function CString(s: string, o: nat): (r: string)
    requires o <= |s|
    ensures |r| <= |s| - o && r <= s[o..] && NulFree(r)
    ensures |r| < |s| - o ==> s[o + |r|] == '\0'
    decreases |s| - o
  {
    if o == |s| || s[o] == '\0' then "" else [s[o]] + CString(s, o + 1)
  }

  lemma {:induction false} CStringNulFree(s: string, o: nat)
    requires o <= |s|
    ensures CString(s, o) == s[o..] <==> NulFree(s[o..])
  {
    var r := CString(s, o);
    if |r| < |s| - o {
      assert s[o..][|r|] == '\0';
    }
  }

  /** Whether the connection is kept, decided on all the bytes received when the
      header is found complete; `kp` is where the connection value starts. */
  function KeepAlive(received: string, kp: Option<nat>): bool {
    if Find(received, "HTTP/1.0", 0).Some? then kp.Some? && AtNoCase(received, kp.value, "keep-alive")
    else !(kp.Some? && AtNoCase(received, kp.value, "close"))
  }

  /** `readHeader`, given what `nbRead` delivers; the flag is its result. */
  function ReadHeader(c: Conn, r: ReadOutcome): (Conn, bool) {
    var header := c.header + r.data;
    var scan := Look(header, false);
    LookInside(header, false);
    if !r.ok then (c.(header := header), false)
    else if scan.body.None? then (c.(header := header), !r.eof)
    else if scan.length.None? then (c.(header := header), false)
    else
      var n := Atoi(header, scan.length.value);
      if n <= 0 then (c.(header := header, contentLength := n), false)
      else (c.(state := READ_REQUEST,
               header := "",
               contentLength := n,
               request := CString(header, scan.body.value),
               keepAlive := KeepAlive(header, scan.connection)), true)
  }

  predicate WantsMore(c: Conn) {
    c.state == READ_REQUEST && |c.request| < c.contentLength
  }

  /** `readRequest`; nothing is read when the request is already complete. */
  function ReadRequest(c: Conn, r: ReadOutcome): (Conn, bool) {
    if !WantsMore(c) then (c.(state := WRITE_RESPONSE), true)
    else
      var request := c.request + r.data;
      if !r.ok then (c.(request := request), false)
      else if |request| < c.contentLength then (c.(request := request), !r.eof)
      else (c.(request := request, state := WRITE_RESPONSE), true)
  }

  /** A connection, the server behind it, and the bytes one call has put on the wire. */
  datatype Result<S> = Result(conn: Conn, server: S, sent: string, ok: bool)

  /** `writeResponse`. `exec` is the server's `executeRequest`. */
  function WriteResponse<S>(c: Conn, server: S, exec: (S, string) -> (S, string), writes: seq<WriteResult>): Result<S> {
    var (server', c1) :=
      if c.response == "" then
        var (after, response) := exec(server, c.request);
        (after, c.(response := response, bytesWritten := 0))
      else (server, c);
    if c1.response == "" then Result(c1, server', "", false) else Flush(c1, server', writes)
  }

  /** The writing part of `writeResponse`. */
  function Flush<S>(c: Conn, server: S, writes: seq<WriteResult>): Result<S> {
    if c.bytesWritten > |c.response| then Result(c, server, "", c.keepAlive)
    else
      var w := Send(writes, |c.response| - c.bytesWritten);
      var end := c.bytesWritten + w.sent;
      var sent := c.response[c.bytesWritten..end];
      if !w.ok then Result(c.(bytesWritten := end), server, sent, false)
      else if end == |c.response| then
        var emptied := c.(bytesWritten := end, header := "", request := "", response := "", state := READ_HEADER);
        Result(emptied, server, sent, c.keepAlive)
      else Result(c.(bytesWritten := end), server, sent, c.keepAlive)
  }

  /** What the socket does during one event: at most two reads and one write. */
  datatype Event = Event(first: ReadOutcome, second: ReadOutcome, writes: seq<WriteResult>)

  /** `handleEvent`; the flag is false when the connection is to be dropped. */
  function HandleEvent<S>(c: Conn, server: S, exec: (S, string) -> (S, string), e: Event): Result<S> {
    var (c1, ok1) := if c.state == READ_HEADER then ReadHeader(c, e.first) else (c, true);
    if !ok1 then Result(c1, server, "", false)
    else
      var (c2, ok2) := if c1.state == READ_REQUEST then ReadRequest(c1, e.second) else (c1, true);
      if !ok2 then Result(c2, server, "", false)
      else if c2.state == WRITE_RESPONSE then WriteResponse(c2, server, exec, e.writes)
      else Result(c2, server, "", true)
  }

  lemma LookInside(received: string, client: bool)
    ensures var s := Look(received, client);
      && (s.body.Some? ==> s.body.value <= |received|)
      && (s.length.Some? ==> s.length.value <= |received|)
      && (s.connection.Some? ==> s.connection.value <= |received|)
  {
    ScanInside(Seen(received), 0, None, None, client);
  }

  /** The header has come to its end, and tells no length of a body. */
  predicate NoLength(received: string, client: bool) {
    var scan := Look(received, client);
    LookInside(received, client);
    scan.body.Some? && (scan.length.None? || Atoi(received, scan.length.value) <= 0)
  }

  lemma {:induction false} ScanInside(h: string, cp: nat, lp: Option<nat>, kp: Option<nat>, client: bool)
    requires lp.Some? ==> lp.value <= |h|
    requires kp.Some? ==> kp.value <= |h|
    ensures var s := ScanFrom(h, cp, lp, kp, client);
      && (s.length.Some? ==> s.length.value <= |h|)
      && (s.connection.Some? ==> s.connection.value <= |h|)
    decreases |h| - cp
  {
    hide At, MarkAt, Width;
    var m := MarkAt(h, cp, client);
    MarkFits(h, cp, client);
    if cp < |h| && !m.Blank? {
      ScanInside(h, cp + Width(m), NewLength(m, cp, lp), NewConnection(m, cp, kp), client);
    }
  }

  lemma MarkFits(h: string, cp: nat, client: bool)
    ensures MarkAt(h, cp, client).Length? ==> cp + |LENGTH| <= |h|
    ensures MarkAt(h, cp, client).Connection? ==> cp + |CONNECTION| <= |h|
  {
  }

  // -------------------------------------------------------------------- the object

  /** `class XmlRpcServerConnection`, with the server as seen through `executeRequest`. */
  class XmlRpcServerConnection<S> {
    var connectionState: State
    var header: string
    var contentLength: int
    var request: string
    var response: string
    var bytesWritten: nat
    var keepAlive: bool
    var server: S
    const exec: (S, string) -> (S, string)

    function View(): Conn
      reads this
    {
      Conn(connectionState, header, contentLength, request, response, bytesWritten, keepAlive)
    }

    predicate Valid()
      reads this
    {
      response == "" || bytesWritten <= |response|
    }

    constructor (server: S, exec: (S, string) -> (S, string))
      ensures this.server == server && this.exec == exec
      ensures connectionState == READ_HEADER && keepAlive
      ensures header == request == response == "" && Valid()
    {
      connectionState, keepAlive := READ_HEADER, true;
      header, request, response := "", "", "";
      contentLength, bytesWritten := 0, 0;
      this.server, this.exec := server, exec;
    }

    /** The scanning loop of `readHeader`. */
    method ScanHeader() returns (scan: Scan)
      ensures scan == Look(header, false)
    {
      hide At, AtNoCase;
      var hp := header;
      ghost var seen := Seen(hp);
      var cp := 0;
      scan := Scan(None, None, None);
      while scan.body.None? && cp < |hp|
        invariant cp <= |hp| + 1
        invariant Look(hp, false) ==
          if scan.body.Some? then scan else ScanFrom(seen, cp, scan.length, scan.connection, false)
        decreases |hp| - cp, scan.body.None?
      {
        SeenMark(hp, cp, false);
        if |hp| - cp > 16 && AtNoCase(hp, cp, LENGTH) {
          scan := scan.(length := Some(cp + 16));
        } else if |hp| - cp > 12 && AtNoCase(hp, cp, CONNECTION) {
          scan := scan.(connection := Some(cp + 12));
        } else if |hp| - cp > 4 && At(hp, cp, CRLF2) {
          scan := scan.(body := Some(cp + 4));
        } else if |hp| - cp > 2 && At(hp, cp, LF2) {
          scan := scan.(body := Some(cp + 2));
        }
        cp := cp + 1;
      }
    }

    method ReadHeaderBytes(incoming: seq<ReadResult>) returns (ok: bool)
      modifies this
      ensures (View(), ok) == ReadHeader(old(View()), Gather(incoming))
      ensures server == old(server)
    {
      hide Look, Atoi, KeepAlive, Gather;
      var eof, read;
      header, eof, read := NbRead(header, incoming);
      LookInside(header, false);
      if !read {
        return false;
      }
      var scan := ScanHeader();
      if scan.body.None? {
        return !eof;
      }
      if scan.length.None? {
        return false;
      }
      var n := Atoi(header, scan.length.value);
      contentLength := n;
      if n <= 0 {
        return false;
      }
      request := CString(header, scan.body.value);
      keepAlive := KeepAlive(header, scan.connection);
      header := "";
      connectionState := READ_REQUEST;
      return true;
    }

    method ReadRequestBytes(incoming: seq<ReadResult>) returns (ok: bool)
      requires connectionState == READ_REQUEST
      modifies this
      ensures (View(), ok) == ReadRequest(old(View()), Gather(incoming))
      ensures server == old(server)
    {
      if |request| < contentLength {
        var eof, read;
        request, eof, read := NbRead(request, incoming);
        if !read {
          return false;
        }
        if |request| < contentLength {
          return !eof;
        }
      }
      connectionState := WRITE_RESPONSE;
      return true;
    }

    method WriteResponseBytes(writes: seq<WriteResult>) returns (sent: string, ok: bool)
      requires Valid()
      modifies this
      ensures Result(View(), server, sent, ok) == WriteResponse(old(View()), old(server), exec, writes)
    {
      hide Flush;
      sent := "";
      if response == "" {
        var (after, answer) := exec(server, request);
        server, response := after, answer;
        bytesWritten := 0;
        if response == "" {
          return sent, false;
        }
      }
      sent, ok := FlushBytes(writes);
    }

    method FlushBytes(writes: seq<WriteResult>) returns (sent: string, ok: bool)
      requires bytesWritten <= |response|
      modifies this
      ensures Result(View(), server, sent, ok) == Flush(old(View()), old(server), writes)
      ensures server == old(server)
    {
      hide Send;
      var written;
      bytesWritten, sent, written := NbWrite(response, bytesWritten, writes);
      if !written {
        return sent, false;
      }
      if bytesWritten == |response| {
        header, request, response := "", "", "";
        connectionState := READ_HEADER;
      }
      return sent, keepAlive;
    }

    method HandleSocketEvent(first: seq<ReadResult>, second: seq<ReadResult>, writes: seq<WriteResult>)
        returns (sent: string, ok: bool)
      requires Valid()
      modifies this
      ensures Result(View(), server, sent, ok)
        == HandleEvent(old(View()), old(server), exec, Event(Gather(first), Gather(second), writes))
      ensures Valid()
    {
      hide ReadHeader, ReadRequest, WriteResponse;
      sent, ok := "", true;
      ghost var before := View();
      HeaderKeepsOutput(before, Gather(first));
      if connectionState == READ_HEADER {
        ok := ReadHeaderBytes(first);
        if !ok { return; }
      }
      RequestKeepsOutput(View(), Gather(second));
      if connectionState == READ_REQUEST {
        ok := ReadRequestBytes(second);
        if !ok { return; }
      }
      WriteKeepsBound(View(), server, exec, writes);
      if connectionState == WRITE_RESPONSE {
        sent, ok := WriteResponseBytes(writes);
      }
    }
  }

  lemma HeaderKeepsOutput(c: Conn, r: ReadOutcome)
    ensures var c' := ReadHeader(c, r).0; c'.response == c.response && c'.bytesWritten == c.bytesWritten
  {
    hide Look, Atoi, KeepAlive, CString;
  }

  lemma RequestKeepsOutput(c: Conn, r: ReadOutcome)
    ensures var c' := ReadRequest(c, r).0; c'.response == c.response && c'.bytesWritten == c.bytesWritten
  {
  }

  lemma WriteKeepsBound<S>(c: Conn, server: S, exec: (S, string) -> (S, string), writes: seq<WriteResult>)
    requires c.bytesWritten <= |c.response| || c.response == ""
    ensures var c' := WriteResponse(c, server, exec, writes).conn; c'.bytesWritten <= |c'.response| || c'.response == ""
  {
  }

  /** The comparisons of the loop at `cp`, in terms of the text without its last byte. */
  lemma SeenMark(received: string, cp: nat, client: bool)
    requires cp < |received|
    ensures var seen := Seen(received);
      && (|received| - cp > 16 && AtNoCase(received, cp, LENGTH) <==> AtNoCase(seen, cp, LENGTH))
      && (|received| - cp > 12 && AtNoCase(received, cp, CONNECTION) <==> AtNoCase(seen, cp, CONNECTION))
      && (|received| - cp > 4 && At(received, cp, CRLF2) <==> At(seen, cp, CRLF2))
      && (|received| - cp > 2 && At(received, cp, LF2) <==> At(seen, cp, LF2))
      && (cp <= |seen| ==> (EndsInterim(received, cp) <==> EndsInterim(seen, cp)))
  {
    hide At, AtNoCase;
    var seen := Seen(received);
    if cp + 16 <= |seen| { NoCasePrefix(seen, received, cp, LENGTH); }
    if cp + 12 <= |seen| { NoCasePrefix(seen, received, cp, CONNECTION); }
    if cp + 4 <= |seen| { AtPrefix(seen, received, cp, CRLF2); }
    if cp + 2 <= |seen| { AtPrefix(seen, received, cp, LF2); }
    if 12 < cp <= |seen| { AtPrefix(seen, received, cp - 12, CONTINUE100); }
    TooLong(seen, cp);
  }
}
