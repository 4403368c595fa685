/** Non-blocking reads and writes of `XmlRpcSource`. A script lists what the system
    calls return one after the other; a script that has run out would block. */
module XmlRpcSource {

  type Chunk = s: string | 0 < |s| <= 4095 witness "x"

  datatype ReadResult = Data(bytes: Chunk) | Eof | WouldBlock | ReadError

  /** What one `nbRead` gathers. */
  datatype ReadOutcome = ReadOutcome(data: string, eof: bool, ok: bool)

  function Gather(script: seq<ReadResult>): ReadOutcome {
    if script == [] then ReadOutcome("", false, true)
    else match script[0]
      case Data(bytes) => var r := Gather(script[1..]); r.(data := bytes + r.data)
      case Eof => ReadOutcome("", true, true)
      case WouldBlock => ReadOutcome("", false, true)
      case ReadError => ReadOutcome("", false, false)
  }

  function Joined(chunks: seq<Chunk>): string {
    if chunks == [] then "" else chunks[0] + Joined(chunks[1..])
  }

  function Arrivals(chunks: seq<Chunk>): seq<ReadResult> {
    seq(|chunks|, i requires 0 <= i < |chunks| => Data(chunks[i]))
  }

  /** One `nbRead` gathers all that comes up to the first result that is no data: an end
      of file is told, a busy socket is not, and only an error fails and brings nothing
      to an end. What would come behind that is left for later. */
  lemma {:induction false} GatherIs(chunks: seq<Chunk>, script: seq<ReadResult>)
    requires script != [] ==> !script[0].Data?
    ensures Gather(Arrivals(chunks) + script)
      == ReadOutcome(Joined(chunks), script != [] && script[0].Eof?, script == [] || !script[0].ReadError?)
    decreases chunks
  {
    var all := Arrivals(chunks) + script;
    if chunks == [] {
      assert all == script;
    } else {
      assert all[0] == Data(chunks[0]) && all[1..] == Arrivals(chunks[1..]) + script;
      GatherIs(chunks[1..], script);
    }
  }

  /** `write` never accepts more than it is given, and a positive result is progress. */
  type Positive = n: nat | n > 0 witness 1

  datatype WriteResult = Wrote(n: Positive) | Busy | WriteError

  datatype WriteOutcome = WriteOutcome(sent: nat, ok: bool)

  /** What one `nbWrite` achieves with `left` bytes to write. */
  function Send(script: seq<WriteResult>, left: nat): (r: WriteOutcome)
    ensures r.sent <= left
    decreases |script|
  {
    if left == 0 || script == [] then WriteOutcome(0, true)
    else match script[0]
      case Wrote(n) =>
        var now := if n < left then n else left;
        var r := Send(script[1..], left - now);
        r.(sent := now + r.sent)
      case Busy => WriteOutcome(0, true)
      case WriteError => WriteOutcome(0, false)
  }

  /** An error comes before all that is left has been written. */
  predicate WriteBreaks(writes: seq<WriteResult>, left: nat)
    decreases writes
  {
    left > 0 && writes != [] &&
    match writes[0]
    case Wrote(n) => n < left && WriteBreaks(writes[1..], left - n)
    case Busy => false
    case WriteError => true
  }

  lemma {:induction false} BreaksSend(writes: seq<WriteResult>, left: nat)
    requires WriteBreaks(writes, left)
    ensures !Send(writes, left).ok
    decreases writes
  {
    if writes[0].WriteError? {
    } else {
      BreaksSend(writes[1..], left - writes[0].n);
    }
  }

  method NbRead(s: string, script: seq<ReadResult>) returns (s': string, eof: bool, ok: bool)
    ensures s' == s + Gather(script).data
    ensures ok == Gather(script).ok
    ensures ok ==> eof == Gather(script).eof
  {
    s', eof := s, false;
    var wouldBlock := false;
    var i := 0;
    while !wouldBlock && !eof
      invariant i <= |script|
      invariant wouldBlock || eof ==> s' == s + Gather(script).data && Gather(script).ok && eof == Gather(script).eof
      invariant !wouldBlock && !eof ==> s' + Gather(script[i..]).data == s + Gather(script).data
      invariant !wouldBlock && !eof ==> Gather(script[i..]).ok == Gather(script).ok
      invariant !wouldBlock && !eof ==> Gather(script[i..]).eof == Gather(script).eof
      decreases |script| - i, !wouldBlock && !eof
    {
      if i == |script| {
        wouldBlock := true;
      } else {
        assert script[i..][1..] == script[i + 1..];
        match script[i] {
          case Data(bytes) =>
            GatherData(script, i, s', bytes);
            s' := s' + bytes;
            i := i + 1;
          case Eof => eof := true;
          case WouldBlock => wouldBlock := true;
          case ReadError =>
            return s', false, false;
        }
      }
    }
    ok := true;
  }

  lemma GatherData(script: seq<ReadResult>, i: nat, sofar: string, bytes: Chunk)
    requires i < |script| && script[i] == Data(bytes)
    ensures sofar + Gather(script[i..]).data == sofar + bytes + Gather(script[i + 1..]).data
    ensures Gather(script[i..]).ok == Gather(script[i + 1..]).ok
      && Gather(script[i..]).eof == Gather(script[i + 1..]).eof
  {
    assert script[i..][1..] == script[i + 1..];
  }

  lemma SendStep(script: seq<WriteResult>, i: nat, left: nat)
    requires i < |script| && left > 0
    ensures Send(script[i..], left) ==
      match script[i]
      case Wrote(n) =>
        var now := if n < left then n else left;
        var r := Send(script[i + 1..], left - now);
        r.(sent := now + r.sent)
      case Busy => WriteOutcome(0, true)
      case WriteError => WriteOutcome(0, false)
  {
    assert script[i..][1..] == script[i + 1..];
  }

  method NbWrite(s: string, bytesSoFar: nat, script: seq<WriteResult>)
      returns (bytesSoFar': nat, sent: string, ok: bool)
    requires bytesSoFar <= |s|
    ensures var w := Send(script, |s| - bytesSoFar);
      bytesSoFar' == bytesSoFar + w.sent && ok == w.ok && sent == s[bytesSoFar..bytesSoFar']
  {
    hide Send;
    bytesSoFar' := bytesSoFar;
    var nToWrite := |s| - bytesSoFar;
    var wouldBlock := false;
    var i := 0;
    ok := true;
    assert script[0..] == script;
    while nToWrite > 0 && !wouldBlock && ok
      invariant i <= |script| && bytesSoFar <= bytesSoFar' <= |s| && nToWrite == |s| - bytesSoFar'
      invariant var w := Send(script, |s| - bytesSoFar);
        if wouldBlock || !ok then bytesSoFar' == bytesSoFar + w.sent && w.ok == ok
        else
          && bytesSoFar' + Send(script[i..], nToWrite).sent == bytesSoFar + w.sent
          && Send(script[i..], nToWrite).ok == w.ok
      decreases |script| - i, !wouldBlock && ok
    {
      if i == |script| {
        SendNothing(script[i..], nToWrite);
        wouldBlock := true;
      } else {
        SendStep(script, i, nToWrite);
        match script[i] {
          case Wrote(n) =>
            var now := if n < nToWrite then n else nToWrite;
            bytesSoFar' := bytesSoFar' + now;
            nToWrite := nToWrite - now;
            i := i + 1;
          case Busy => wouldBlock := true;
          case WriteError => ok := false;
        }
      }
    }
    SendNothing(script[i..], nToWrite);
    sent := s[bytesSoFar..bytesSoFar'];
  }

  lemma SendNothing(script: seq<WriteResult>, left: nat)
    ensures left == 0 || script == [] ==> Send(script, left) == WriteOutcome(0, true)
  {
  }
}
