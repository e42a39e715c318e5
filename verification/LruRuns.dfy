/** All runs of calls of the replacer: which frame each call of Victim gives up. */
module LruRuns {
  import opened LruReplacer

  datatype Call = PinCall(f: FrameId) | UnpinCall(f: FrameId) | VictimCall

  /** A call and, for Victim, what came of it. */
  datatype Event = Pinned(f: FrameId) | Unpinned(f: FrameId) | Evicted(f: FrameId) | NoVictim

  function Unpins(log: seq<Event>): nat {
    if log == [] then 0 else Unpins(log[..|log| - 1]) + (if log[|log| - 1].Unpinned? then 1 else 0)
  }

  /** The frames that may be evicted after these events, each with the number of the Unpin that made it so: an
      Unpin takes effect on a frame that is not there yet while there are fewer than max. */
  function Idle(log: seq<Event>, max: nat): map<FrameId, nat> {
    if log == [] then map[]
    else
      var before := log[..|log| - 1];
      var idle := Idle(before, max);
      match log[|log| - 1]
      case Pinned(f) => idle - {f}
      case Unpinned(f) => if f in idle || |idle| >= max then idle else idle[f := Unpins(before)]
      case Evicted(f) => idle - {f}
      case NoVictim => idle
  }

  /** The event is right after these: a victim is the frame whose effective Unpin is the earliest, and there is
      none only if no frame may be evicted. */
  ghost predicate Fair(before: seq<Event>, e: Event, max: nat) {
    var idle := Idle(before, max);
    && (e.Evicted? ==> e.f in idle && forall g :: g in idle ==> idle[e.f] <= idle[g])
    && (e.NoVictim? ==> idle == map[])
  }

  lemma Logged(log: seq<Event>, e: Event, max: nat)
    ensures (log + [e])[..|log|] == log
    ensures Unpins(log + [e]) == Unpins(log) + (if e.Unpinned? then 1 else 0)
  {
  }

  /** One call, with its event. */
  method Apply(r: LRUReplacer, call: Call, ghost log: seq<Event>) returns (e: Event)
    requires r.Valid() && r.index == Idle(log, r.maxSize) && r.clock == Unpins(log)
    modifies r
    ensures r.Valid() && r.index == Idle(log + [e], r.maxSize) && r.clock == Unpins(log + [e])
    ensures Fair(log, e, r.maxSize)
    ensures call.PinCall? ==> e == Pinned(call.f)
    ensures call.UnpinCall? ==> e == Unpinned(call.f)
    ensures call.VictimCall? ==> e.Evicted? || e.NoVictim?
  {
    match call
    case PinCall(f) =>
      r.Pin(f);
      e := Pinned(f);
    case UnpinCall(f) =>
      r.Unpin(f);
      e := Unpinned(f);
    case VictimCall =>
      var ok, f := r.Victim();
      e := if ok then Evicted(f) else NoVictim;
    Logged(log, e, r.maxSize);
  }

  /** Every run of calls on a new replacer: each victim is the frame whose last effective Unpin is the earliest. */
  method Replay(max: nat, calls: seq<Call>) returns (log: seq<Event>)
    ensures |log| == |calls| && forall i :: 0 <= i < |log| ==> Fair(log[..i], log[i], max)
    ensures forall i :: 0 <= i < |log| && calls[i].UnpinCall? ==> log[i] == Unpinned(calls[i].f)
    ensures forall i :: 0 <= i < |log| && calls[i].PinCall? ==> log[i] == Pinned(calls[i].f)
    ensures forall i :: 0 <= i < |log| && calls[i].VictimCall? ==> log[i].Evicted? || log[i].NoVictim?
  {
    var r := new LRUReplacer(max);
    log := [];
    while |log| < |calls|
      invariant |log| <= |calls| && r.Valid() && r.maxSize == max && fresh(r)
      invariant r.index == Idle(log, max) && r.clock == Unpins(log)
      invariant forall i :: 0 <= i < |log| ==> Fair(log[..i], log[i], max)
      invariant forall i :: 0 <= i < |log| && calls[i].UnpinCall? ==> log[i] == Unpinned(calls[i].f)
      invariant forall i :: 0 <= i < |log| && calls[i].PinCall? ==> log[i] == Pinned(calls[i].f)
      invariant forall i :: 0 <= i < |log| && calls[i].VictimCall? ==> log[i].Evicted? || log[i].NoVictim?
      decreases |calls| - |log|
    {
      var e := Apply(r, calls[|log|], log);
      ghost var before := log;
      log := log + [e];
      forall i | 0 <= i < |log| ensures Fair(log[..i], log[i], max) {
        assert log[..i] == if i < |before| then before[..i] else before;
      }
    }
  }
}
