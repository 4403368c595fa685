/** `class XmlRpcClient`: the methods update the object's fields as `ClientMachine`
    says, and `execute` runs the dispatcher until the call is over. */
module XmlRpcClient {
  import opened Text
  import opened XmlRpcUtil
  import opened ValueSyntax
  import opened XmlRpcValueObject
  import opened HttpHeader
  import opened HttpMessage
  import opened Messages
  import opened XmlRpcSource
  import opened XmlRpcDispatch
  import opened ServerConnection
  import opened Framing
  import opened ClientMachine

  /** An event, with what each system call returns. */
  datatype SocketEvent = SocketEvent(
    writes: seq<WriteResult>, first: seq<ReadResult>, second: seq<ReadResult>, connect: Connect)

  function EventOf(e: SocketEvent): ClientEvent {
    ClientEvent(e.writes, Gather(e.first), Gather(e.second), e.connect)
  }

  datatype SocketTick =
    | Failure
    | Round(kinds: Mask, onRead: SocketEvent, onWrite: SocketEvent, onException: SocketEvent, timeout: bool)

  function TickOf(t: SocketTick): Tick {
    match t
    case Failure => SelectError
    case Round(kinds, r, w, x, timeout) => Ready(kinds, EventOf(r), EventOf(w), EventOf(x), timeout)
  }

  function TicksOf(ts: seq<SocketTick>): (r: seq<Tick>)
    ensures |r| == |ts|
  {
    if ts == [] then [] else [TickOf(ts[0])] + TicksOf(ts[1..])
  }

  /** The request text: header and body. */
  function RequestText(lib: Library, uri: string, host: string, port: Int32, method_: string, params: Value): string {
    var body := RequestBody(lib, method_, params);
    ClientHeader(uri, host, port, body) + body
  }

  /** How `execute` ends: the client after it, its result, and the reply; there is none
      where the parsing of the response is undefined. */
  datatype Executed = Executed(client: Client, ok: bool, reply: Option<Reply>)

  /** `execute`, as a function of the client and of what the sockets do. */
  function Execute(lib: Library, c: Client, request: string, connect: Connect, ticks: seq<Tick>): Executed {
    var (c1, ok) := Setup(c.(sendAttempts := 0, connects := 0), connect);
    if !ok then Executed(c1, false, Some(NO_REPLY))
    else Finish(lib, Work(c1.(request := request, stopped := false), ticks))
  }

  /** The end of `execute`, when the dispatcher has returned. */
  function Finish(lib: Library, c: Client): Executed {
    if c.state != IDLE then Executed(c, false, Some(NO_REPLY))
    else match ParseResponse(lib, c.response)
      case None => Executed(c, false, None)
      case Some(reply) => Executed(c.(response := ""), reply.ok, Some(reply))
  }

  /** Safety of `execute`, whatever the sockets do: at most one reconnect, at most one
      registration, and a true result only after the whole request has been written
      on the last connection and at least as many bytes have been read on it as the
      response's length announces. If the bytes read are the beginning of a well
      framed message, they are all of it, and the reply is what its body says. */
  lemma ExecuteSafe(lib: Library, c: Client, request: string, connect: Connect, ticks: seq<Tick>)
    requires WatchedOnce(c.sources)
    ensures var x := Execute(lib, c, request, connect, ticks);
      && WatchedOnce(x.client.sources)
      && x.client.connects <= 2
      && (x.client.sendAttempts == 0 || !x.client.keepOpen ==> x.client.connects <= 1)
      && (x.ok ==> x.client.state == IDLE)
      && (x.client.state == IDLE ==>
           && x.client.connects >= 1 && x.client.sent == request
           && 0 < x.client.contentLength <= |x.client.arrived|)
      && (if x.client.state == IDLE then x.reply.Some? ==> x.client.response == ""
          else !x.ok && x.reply == Some(Reply(false, VInvalid, false)))
      && (x.reply.None? ==> !x.ok)
    ensures var x := Execute(lib, c, request, connect, ticks);
      forall q | WellFramed(q, true) :: x.client.state == IDLE && x.client.arrived <= q.Bytes() ==>
        && x.client.arrived == q.Bytes()
        && x.reply == ParseResponse(lib, q.body) && (x.reply.Some? ==> x.ok == x.reply.value.ok)
  {
    hide Setup, Work, WatchedOnce, ParseResponse, WellFramed;
    SetupSafe(c.(sendAttempts := 0, connects := 0), connect);
    var (c1, ok) := Setup(c.(sendAttempts := 0, connects := 0), connect);
    if ok {
      WorkSafe(c1.(request := request, stopped := false), ticks);
      var c2 := Work(c1.(request := request, stopped := false), ticks);
      forall q | WellFramed(q, true) && c2.state == IDLE && c2.arrived <= q.Bytes()
        ensures c2.arrived == q.Bytes() && c2.response == q.body
      {
        assert Follows(c2, q);
      }
    }
  }

  /** The loop of `parseHeader`; an interim response is skipped by moving `cp`. */
  method ScanClientHeader(header: string) returns (scan: Scan)
    ensures scan == Look(header, true)
  {
    hide At, AtNoCase, EndsInterim;
    ghost var seen := Seen(header);
    var cp := 0;
    scan := Scan(None, None, None);
    while scan.body.None? && cp < |header|
      invariant cp <= |header| + 1
      invariant Look(header, true) ==
        if scan.body.Some? then scan else ScanFrom(seen, cp, scan.length, None, true)
      invariant scan.connection == None
      decreases |header| - cp, scan.body.None?
    {
      SeenMark(header, cp, true);
      if |header| - cp > 16 && AtNoCase(header, cp, LENGTH) {
        scan := scan.(length := Some(cp + 16));
      } else if |header| - cp > 4 && At(header, cp, CRLF2) {
        if EndsInterim(header, cp) {
          cp := cp + 3;
        } else {
          scan := scan.(body := Some(cp + 4));
        }
      } else if |header| - cp > 2 && At(header, cp, LF2) {
        if EndsInterim(header, cp) {
          cp := cp + 1;
        } else {
          scan := scan.(body := Some(cp + 2));
        }
      }
      cp := cp + 1;
    }
  }

  class RpcClient {
    var connectionState: ClientState
    var keepOpen: bool
    var request: string
    var header: string
    var response: string
    var sendAttempts: nat
    var bytesWritten: nat
    var eof: bool
    var contentLength: int
    var executing: bool
    var isFault: bool
    const disp: Dispatch
    const host: string
    const uri: string
    const port: Int32
    const lib: Library
    var made: nat
    var connects: nat
    var sent: string
    var arrived: string

    function View(): Client
      reads this, disp
    {
      Client(connectionState, keepOpen, request, header, response, sendAttempts, bytesWritten, eof, contentLength,
             disp.sources, disp.stopped, made, connects, sent, arrived)
    }

    constructor (lib: Library, host: string, port: Int32, uri: string)
      ensures connectionState == NO_CONNECTION && keepOpen && !executing && !eof
      ensures fresh(disp) && disp.sources == []
      ensures this.host == host && this.port == port && this.lib == lib
      ensures this.uri == if uri == "" then "/RPC2" else uri
    {
      connectionState, keepOpen, executing, eof, isFault := NO_CONNECTION, true, false, false, false;
      request, header, response, sent, arrived := "", "", "", "", "";
      sendAttempts, bytesWritten, made, connects, contentLength := 0, 0, 0, 0, 0;
      this.lib, this.host, this.port := lib, host, port;
      this.uri := if uri == "" then "/RPC2" else uri;
      disp := new Dispatch();
    }

    method CloseConnection()
      modifies this, disp
      ensures View() == Disconnected(old(View()))
      ensures executing == old(executing) && isFault == old(isFault)
    {
      connectionState := NO_CONNECTION;
      disp.Exit();
      disp.RemoveSource(SELF);
    }

    method SetupConnection(connect: Connect) returns (ok: bool)
      modifies this, disp
      ensures (View(), ok) == Setup(old(View()), connect)
      ensures executing == old(executing) && isFault == old(isFault)
    {
      hide Disconnected, Prepared;
      if (connectionState != NO_CONNECTION && connectionState != IDLE) || eof {
        CloseConnection();
      }
      eof := false;
      if connectionState == NO_CONNECTION {
        match connect {
          case NoSocket => return false;
          case Refused =>
            CloseConnection();
            return false;
          case Connected => made := made + 1;
        }
      }
      Prepare();
      ok := true;
    }

    /** The end of `setupConnection`. */
    method Prepare()
      modifies this, disp
      ensures View() == Prepared(old(View()))
      ensures executing == old(executing) && isFault == old(isFault)
    {
      hide Removed;
      connectionState, bytesWritten, sent, arrived := WRITE_REQUEST, 0, "", "";
      connects := connects + 1;
      disp.RemoveSource(SELF);
      disp.AddSource(SELF, {WritableEvent, ExceptionEvent});
    }

    method WriteRequestBytes(writes: seq<WriteResult>) returns (ok: bool)
      requires bytesWritten <= |request|
      modifies this
      ensures (View(), ok) == WriteRequest(old(View()), writes)
      ensures executing == old(executing) && isFault == old(isFault)
    {
      hide Send;
      var piece;
      bytesWritten, piece, ok := NbWrite(request, bytesWritten, writes);
      sent := sent + piece;
      if ok && bytesWritten == |request| {
        header, response := "", "";
        connectionState := READ_HEADER_C;
      }
    }

    method ReadHeaderBytes(incoming: seq<ReadResult>, connect: Connect) returns (ok: bool)
      modifies this, disp
      ensures (View(), ok) == ReadClientHeader(old(View()), Gather(incoming), connect)
      ensures executing == old(executing) && isFault == old(isFault)
    {
      hide Retry, ParseHeader, Gather;
      var closed, read;
      header, closed, read := NbRead(header, incoming);
      arrived := arrived + Gather(incoming).data;
      eof := read && closed;
      if !read || (eof && header == "") {
        ok := RetryConnection(connect);
      } else {
        ok := ParseHeaderText();
      }
    }

    method RetryConnection(connect: Connect) returns (ok: bool)
      modifies this, disp
      ensures (View(), ok) == Retry(old(View()), connect)
      ensures executing == old(executing) && isFault == old(isFault)
    {
      hide Setup;
      if keepOpen && header == "" {
        sendAttempts := sendAttempts + 1;
        if sendAttempts == 1 {
          connectionState := NO_CONNECTION;
          eof := false;
          ok := SetupConnection(connect);
          return;
        }
      }
      ok := false;
    }

    method ParseHeaderText() returns (ok: bool)
      modifies this
      ensures (View(), ok) == ParseHeader(old(View()))
      ensures executing == old(executing) && isFault == old(isFault)
    {
      hide Look, Atoi, CString;
      LookInside(header, true);
      var scan := ScanClientHeader(header);
      if scan.body.None? {
        return !eof;
      }
      if scan.length.None? {
        return false;
      }
      contentLength := Atoi(header, scan.length.value);
      if contentLength <= 0 {
        return false;
      }
      response := CString(header, scan.body.value);
      header := "";
      connectionState := READ_RESPONSE;
      return true;
    }

    method ReadResponseBytes(incoming: seq<ReadResult>) returns (ok: bool)
      modifies this
      ensures (View(), ok) == ReadResponse(old(View()), Gather(incoming))
      ensures executing == old(executing) && isFault == old(isFault)
    {
      hide Gather;
      if |response| < contentLength {
        var closed, read;
        response, closed, read := NbRead(response, incoming);
        arrived := arrived + Gather(incoming).data;
        eof := read && closed;
        if !read {
          return false;
        }
        if |response| < contentLength {
          return !eof;
        }
      }
      connectionState := IDLE;
      return false;
    }

    method HandleEvent(kind: EventType, e: SocketEvent) returns (mask: Mask)
      requires Safe(View())
      modifies this, disp
      ensures (View(), mask) == HandleClientEvent(old(View()), kind, EventOf(e))
      ensures Safe(View()) && executing == old(executing) && isFault == old(isFault)
    {
      hide Setup, WriteRequest, ReadClientHeader, ReadResponse, WatchedOnce, Gather;
      EventSafe(View(), kind, EventOf(e));
      if kind == ExceptionEvent {
        return {};
      }
      var ok;
      if connectionState == WRITE_REQUEST {
        ok := WriteRequestBytes(e.writes);
        if !ok { return {}; }
      }
      if connectionState == READ_HEADER_C {
        ok := ReadHeaderBytes(e.first, e.connect);
        if !ok { return {}; }
      }
      if connectionState == READ_RESPONSE {
        ok := ReadResponseBytes(e.second);
        if !ok { return {}; }
      }
      mask := if connectionState == WRITE_REQUEST then {WritableEvent} else {ReadableEvent};
    }

    /** The part of `waitForAndProcessEvents` that serves one entry of the list. */
    method ProcessSource(t: SocketTick)
      requires Safe(View()) && t.Round?
      modifies this, disp
      ensures View() == ProcessEntry(old(View()), TickOf(t))
      ensures Safe(View()) && executing == old(executing) && isFault == old(isFault)
    {
      hide HandleKinds, Safe, Rewatch;
      EntrySafe(View(), TickOf(t));
      if t.kinds != {} {
        var newMask := HandleSignalled(t);
        UpdateSources(newMask);
      }
    }

    method HandleSignalled(t: SocketTick) returns (newMask: Mask)
      requires Safe(View()) && t.Round?
      modifies this, disp
      ensures (View(), newMask) == HandleKinds(old(View()), TickOf(t))
      ensures Safe(View()) && executing == old(executing) && isFault == old(isFault)
    {
      hide HandleClientEvent, Safe;
      var m1: Mask, m2: Mask, m3: Mask := {}, {}, {};
      if ReadableEvent in t.kinds {
        m1 := HandleEvent(ReadableEvent, t.onRead);
      }
      if WritableEvent in t.kinds {
        m2 := HandleEvent(WritableEvent, t.onWrite);
      }
      if ExceptionEvent in t.kinds {
        m3 := HandleEvent(ExceptionEvent, t.onException);
      }
      newMask := m1 + m2 + m3;
    }

    method UpdateSources(newMask: Mask)
      modifies this, disp
      ensures View() == Rewatch(old(View()), newMask)
      ensures executing == old(executing) && isFault == old(isFault)
    {
      hide Removed, WithMask;
      if newMask != {} {
        disp.SetSourceEvents(SELF, newMask);
      } else {
        disp.RemoveSource(SELF);
        if !keepOpen {
          CloseConnection();
        }
      }
    }

    /** `waitForAndProcessEvents`: the entries of a copy of the list, one after the other. */
    method ProcessSources(t: SocketTick)
      requires Safe(View()) && t.Round?
      modifies this, disp
      ensures View() == ProcessEntries(old(View()), |old(disp.sources)|, TickOf(t))
      ensures Safe(View()) && executing == old(executing) && isFault == old(isFault)
    {
      hide Safe, ProcessEntry;
      var n: nat := |disp.sources|;
      ghost var copied := View();
      while n > 0
        invariant Safe(View()) && executing == old(executing) && isFault == old(isFault)
        invariant ProcessEntries(copied, |copied.sources|, TickOf(t)) == ProcessEntries(View(), n, TickOf(t))
      {
        ProcessSource(t);
        n := n - 1;
      }
    }

    /** `work`. */
    method RunDispatcher(ticks: seq<SocketTick>)
      requires Safe(View())
      modifies this, disp
      ensures View() == Work(old(View()), TicksOf(ticks))
      ensures Safe(View()) && executing == old(executing) && isFault == old(isFault)
    {
      hide Safe, ProcessEntries, Work;
      var i := 0;
      assert ticks[0..] == ticks;
      while disp.sources != [] && i < |ticks|
        invariant i <= |ticks| && Safe(View()) && executing == old(executing) && isFault == old(isFault)
        invariant Work(old(View()), TicksOf(ticks)) == Work(View(), TicksOf(ticks[i..]))
        decreases |ticks| - i
      {
        WorkStep(View(), ticks, i);
        if ticks[i].Failure? {
          return;
        }
        ProcessSources(ticks[i].(kinds := ticks[i].kinds * Watched(disp.sources)));
        if disp.stopped || ticks[i].timeout {
          return;
        }
        i := i + 1;
      }
      WorkStops(View(), TicksOf(ticks[i..]));
    }

    /** `execute`. A call during a call is refused. Where the parsing of the response is
        undefined, `defined` is false and nothing is promised of the object. */
    method ExecuteCall(method_: string, params: Value, connect: Connect, ticks: seq<SocketTick>)
      returns (defined: bool, ok: bool, result: Value)
      requires WatchedOnce(disp.sources)
      modifies this, disp
      ensures old(executing) ==> defined && !ok && View() == old(View()) && executing
      ensures !old(executing) ==>
        var x := Execute(lib, old(View()), RequestText(lib, uri, host, port, method_, params), connect, TicksOf(ticks));
        && (defined <==> x.reply.Some?)
        && (defined ==> View() == x.client && ok == x.ok && !executing)
        && (defined && ok ==> result == x.reply.value.value && isFault == x.reply.value.fault)
      ensures defined ==> WatchedOnce(disp.sources)
    {
      hide Execute, RequestText;
      result := VInvalid;
      if executing {
        return true, false, result;
      }
      ExecuteSafe(lib, View(), RequestText(lib, uri, host, port, method_, params), connect, TicksOf(ticks));
      executing := true;
      defined, ok, result := ExecuteOnce(RequestText(lib, uri, host, port, method_, params), connect, ticks);
      executing := false;
    }

    /** `execute` behind its guard. */
    method ExecuteOnce(text: string, connect: Connect, ticks: seq<SocketTick>)
      returns (defined: bool, ok: bool, result: Value)
      requires WatchedOnce(disp.sources)
      modifies this, disp
      ensures var x := Execute(lib, old(View()), text, connect, TicksOf(ticks));
        && (defined <==> x.reply.Some?)
        && (defined ==> View() == x.client && ok == x.ok)
        && (defined && ok ==> result == x.reply.value.value && isFault == x.reply.value.fault)
      ensures executing == old(executing)
    {
      hide Setup, Work, Finish, WatchedOnce, Safe;
      result := VInvalid;
      ok := Begin(text, connect);
      defined := true;
      if ok {
        RunDispatcher(ticks);
        defined, ok, result := TakeReply();
      }
    }

    /** The start of `execute`, up to the dispatcher. */
    method Begin(text: string, connect: Connect) returns (ok: bool)
      requires WatchedOnce(disp.sources)
      modifies this, disp
      ensures var (c, up) := Setup(old(View()).(sendAttempts := 0, connects := 0), connect);
        ok == up && View() == if up then c.(request := text, stopped := false) else c
      ensures ok ==> Safe(View())
      ensures executing == old(executing)
    {
      hide Setup, WatchedOnce, Safe;
      sendAttempts, connects, isFault := 0, 0, false;
      SetupSafe(View(), connect);
      ok := SetupConnection(connect);
      if ok {
        RequestSet(View(), text);
        request := text;
        disp.stopped := false;
      }
    }

    /** The end of `execute`. */
    method TakeReply() returns (defined: bool, ok: bool, result: Value)
      modifies this
      ensures var x := Finish(lib, old(View()));
        && (defined <==> x.reply.Some?)
        && (defined ==> View() == x.client && ok == x.ok)
        && (defined && ok ==> result == x.reply.value.value && isFault == x.reply.value.fault)
      ensures executing == old(executing)
    {
      defined, ok, result := true, false, VInvalid;
      if connectionState == IDLE {
        var reply := ParseReply(response);
        response := "";
        if reply.None? {
          return false, false, result;
        }
        isFault, ok, result := reply.value.fault, reply.value.ok, reply.value.value;
      }
    }

    /** `parseResponse`. */
    method ParseReply(r: string) returns (reply: Option<Reply>)
      ensures reply == ParseResponse(lib, r)
    {
      hide FindStartTag, NextTag, ParseValue;
      var found, offset, emptyParam := FindTag("methodResponse", r, 0);
      if !found || emptyParam {
        return Some(NO_REPLY);
      }
      var val := new XmlRpcValue();
      var defined, ok, end;
      found, offset, emptyParam := NextTagIs("params", r, offset);
      if found {
        found, offset, emptyParam := NextTagIs("param", r, offset);
      }
      if found {
        if emptyParam {
          return Some(Reply(true, VInt(0), false));
        }
        defined, ok, end := val.FromXml(lib, r, offset);
        return if !defined then None else Some(if ok then Reply(true, val.value, false) else NO_REPLY);
      }
      found, offset, emptyParam := NextTagIs("fault", r, offset);
      if !found {
        return Some(NO_REPLY);
      }
      if emptyParam {
        return Some(Reply(false, VInt(0), true));
      }
      defined, ok, end := val.FromXml(lib, r, offset);
      return if !defined then None else Some(if ok then Reply(true, val.value, true) else Reply(false, VInt(0), true));
    }
  }

  lemma WorkStep(c: Client, ticks: seq<SocketTick>, i: nat)
    requires i < |ticks| && c.sources != []
    ensures Work(c, TicksOf(ticks[i..])) ==
      match ticks[i]
      case Failure => c
      case Round(kinds, _, _, _, timeout) =>
        var t := ticks[i].(kinds := kinds * Watched(c.sources));
        var c1 := ProcessEntries(c, |c.sources|, TickOf(t));
        if c1.stopped || timeout then c1 else Work(c1, TicksOf(ticks[i + 1..]))
  {
    hide ProcessEntries, Watched, EventOf;
    assert ticks[i..][1..] == ticks[i + 1..];
    assert TicksOf(ticks[i..])[0] == TickOf(ticks[i]);
    assert TicksOf(ticks[i..])[1..] == TicksOf(ticks[i + 1..]);
  }

  lemma WorkStops(c: Client, ticks: seq<Tick>)
    ensures c.sources == [] || ticks == [] ==> Work(c, ticks) == c
  {
  }
}
