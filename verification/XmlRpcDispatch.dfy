/** The dispatcher's list of monitored sources. */
module XmlRpcDispatch {

  datatype EventType = ReadableEvent | WritableEvent | ExceptionEvent

  type Mask = set<EventType>

  /** A monitored source, identified by a number. */
  datatype MonitoredSource = MonitoredSource(source: int, mask: Mask)

  /** The list without the first entry of `source`. */
  function Removed(sources: seq<MonitoredSource>, source: int): seq<MonitoredSource> {
    if sources == [] then []
    else if sources[0].source == source then sources[1..]
    else [sources[0]] + Removed(sources[1..], source)
  }

  /** The list with the first entry of `source` watching for `mask`. */
  function WithMask(sources: seq<MonitoredSource>, source: int, mask: Mask): seq<MonitoredSource> {
    if sources == [] then []
    else if sources[0].source == source then [MonitoredSource(source, mask)] + sources[1..]
    else [sources[0]] + WithMask(sources[1..], source, mask)
  }

  /** How often a source is registered. */
  function Registrations(sources: seq<MonitoredSource>, source: int): nat {
    if sources == [] then 0
    else (if sources[0].source == source then 1 else 0) + Registrations(sources[1..], source)
  }

  lemma {:induction false} RemovedOnce(sources: seq<MonitoredSource>, source: int, other: int)
    ensures Registrations(Removed(sources, source), other)
      == Registrations(sources, other) - if source == other && Registrations(sources, source) > 0 then 1 else 0
  {
    if sources != [] && sources[0].source != source {
      RemovedOnce(sources[1..], source, other);
    }
  }

  lemma {:induction false} MaskKeepsRegistrations(sources: seq<MonitoredSource>, source: int, mask: Mask, other: int)
    ensures Registrations(WithMask(sources, source, mask), other) == Registrations(sources, other)
  {
    if sources != [] && sources[0].source != source {
      MaskKeepsRegistrations(sources[1..], source, mask, other);
    }
  }

  lemma {:induction false} AddedOnce(sources: seq<MonitoredSource>, source: int, mask: Mask, other: int)
    ensures Registrations(sources + [MonitoredSource(source, mask)], other)
      == Registrations(sources, other) + if source == other then 1 else 0
  {
    var all := sources + [MonitoredSource(source, mask)];
    if sources == [] {
      assert all[1..] == [];
    } else {
      AddedOnce(sources[1..], source, mask, other);
      assert all[1..] == sources[1..] + [MonitoredSource(source, mask)];
    }
  }

  /** Removal and change of mask at the first entry of a source. */
  lemma {:induction false} EditAt(sources: seq<MonitoredSource>, source: int, mask: Mask, it: nat)
    requires it <= |sources| && (it < |sources| ==> sources[it].source == source)
    requires forall j | 0 <= j < it :: sources[j].source != source
    ensures it < |sources| ==> Removed(sources, source) == sources[..it] + sources[it + 1..]
    ensures it < |sources| ==> WithMask(sources, source, mask) == sources[it := MonitoredSource(source, mask)]
    ensures it == |sources| ==> Removed(sources, source) == WithMask(sources, source, mask) == sources
  {
    if it == 0 {
    } else {
      var first, rest := sources[0], sources[1..];
      EditAt(rest, source, mask, it - 1);
      if it < |sources| {
        TailEdited(sources, it, MonitoredSource(source, mask));
      } else {
        assert [first] + rest == sources;
      }
    }
  }

  lemma TailEdited(sources: seq<MonitoredSource>, it: nat, m: MonitoredSource)
    requires 0 < it < |sources|
    ensures [sources[0]] + (sources[1..][..it - 1] + sources[1..][it..]) == sources[..it] + sources[it + 1..]
    ensures [sources[0]] + sources[1..][it - 1 := m] == sources[it := m]
  {
  }

  class Dispatch {
    var sources: seq<MonitoredSource>
    var stopped: bool  // the end time has been set to 0 by `exit`

    constructor ()
      ensures sources == [] && !stopped
    {
      sources, stopped := [], false;
    }

    method AddSource(source: int, mask: Mask)
      modifies this
      ensures sources == old(sources) + [MonitoredSource(source, mask)] && stopped == old(stopped)
    {
      sources := sources + [MonitoredSource(source, mask)];
    }

    method RemoveSource(source: int)
      modifies this
      ensures sources == Removed(old(sources), source) && stopped == old(stopped)
    {
      var it := 0;
      while it < |sources| && sources[it].source != source
        invariant it <= |sources| && sources == old(sources)
        invariant forall j | 0 <= j < it :: sources[j].source != source
      {
        it := it + 1;
      }
      EditAt(sources, source, {}, it);
      if it < |sources| {
        sources := sources[..it] + sources[it + 1..];
      }
    }

    method SetSourceEvents(source: int, mask: Mask)
      modifies this
      ensures sources == WithMask(old(sources), source, mask) && stopped == old(stopped)
    {
      var it := 0;
      while it < |sources| && sources[it].source != source
        invariant it <= |sources| && sources == old(sources)
        invariant forall j | 0 <= j < it :: sources[j].source != source
      {
        it := it + 1;
      }
      EditAt(sources, source, mask, it);
      if it < |sources| {
        sources := sources[it := MonitoredSource(source, mask)];
      }
    }

    method Exit()
      modifies this
      ensures stopped && sources == old(sources)
    {
      stopped := true;
    }
  }
}
