/** The least-recently-used replacer: a list of unpinned frames, newest first, and a map from each frame to
    its node. A node is known by the time it was made, which the map stores in place of an iterator. */
module LruReplacer {

  type FrameId = int

  datatype Node = Node(since: nat, frame: FrameId)

  function FramesOf(list: seq<Node>): (r: seq<FrameId>)
    ensures |r| == |list| && forall i :: 0 <= i < |r| ==> r[i] == list[i].frame
  {
    seq(|list|, i requires 0 <= i < |list| => list[i].frame)
  }

  predicate NoRepeats(s: seq<FrameId>) {
    forall i, j :: 0 <= i < j < |s| ==> s[i] != s[j]
  }

  /** The list without this frame. */
  function Without(s: seq<FrameId>, f: FrameId): seq<FrameId> {
    if s == [] then [] else if s[0] == f then s[1..] else [s[0]] + Without(s[1..], f)
  }

  /** The list after Unpin. */
  function Pushed(s: seq<FrameId>, f: FrameId, max: nat): seq<FrameId> {
    if f in s || |s| >= max then s else [f] + s
  }

  lemma {:induction false} WithoutMembers(s: seq<FrameId>, f: FrameId)
    requires NoRepeats(s)
    ensures NoRepeats(Without(s, f)) && forall g :: g in Without(s, f) <==> g in s && g != f
    ensures f !in s ==> Without(s, f) == s
    ensures f in s ==> |Without(s, f)| == |s| - 1
  {
    if s != [] {
      var t := s[1..];
      assert s == [s[0]] + t;
      WithoutMembers(t, f);
      assert forall g :: g in s <==> g == s[0] || g in t;
      assert s[0] !in t;
    }
  }

  /** Erasing position k of a list of frames that has f there. */
  lemma {:induction false} WithoutAt(s: seq<FrameId>, f: FrameId, k: int)
    requires NoRepeats(s) && 0 <= k < |s| && s[k] == f
    ensures Without(s, f) == s[..k] + s[k + 1..]
  {
    if k > 0 {
      WithoutAt(s[1..], f, k - 1);
      assert s[1..][..k - 1] == s[1..k];
      assert s[1..][k - 1 + 1..] == s[k + 1..];
      assert s[..k] == [s[0]] + s[1..k];
    }
  }

  predicate NewestFirst(list: seq<Node>) {
    forall i, j :: 0 <= i < j < |list| ==> list[i].since > list[j].since
  }

  predicate Indexed(list: seq<Node>, index: map<FrameId, nat>, clock: nat) {
    forall i :: 0 <= i < |list| ==>
      list[i].since < clock && list[i].frame in index && index[list[i].frame] == list[i].since
  }

  /** Newest first, and the map finds each node. */
  ghost predicate ListOk(list: seq<Node>, index: map<FrameId, nat>, clock: nat) {
    NewestFirst(list) && Indexed(list, index, clock) && forall f :: f in index ==> f in FramesOf(list)
  }

  lemma OneNodeEach(list: seq<Node>, index: map<FrameId, nat>, clock: nat)
    requires ListOk(list, index, clock)
    ensures NoRepeats(FramesOf(list)) && index.Keys == (set f | f in FramesOf(list)) && |index| == |list|
  {
    var fs := FramesOf(list);
    forall i, j | 0 <= i < j < |fs| ensures fs[i] != fs[j] {
      assert list[i].since > list[j].since;
    }
    var held := set f | f in fs;
    forall f ensures f in index.Keys <==> f in held {
      if f in fs {
        var i :| 0 <= i < |fs| && fs[i] == f;
        assert list[i].frame in index;
      }
    }
    assert index.Keys == held;
    DistinctCount(fs);
    assert |index| == |index.Keys|;
  }

  lemma {:induction false} DistinctCount(s: seq<FrameId>)
    requires NoRepeats(s)
    ensures |set f | f in s| == |s|
  {
    if s != [] {
      var n := |s| - 1;
      DistinctCount(s[..n]);
      assert (set f | f in s) == (set f | f in s[..n]) + {s[n]};
      assert s[n] !in s[..n];
    }
  }

  function Erased<T>(s: seq<T>, k: int): (r: seq<T>)
    requires 0 <= k < |s|
    ensures |r| == |s| - 1 && forall i :: 0 <= i < |r| ==> r[i] == if i < k then s[i] else s[i + 1]
  {
    s[..k] + s[k + 1..]
  }

  lemma ErasedFrames(list: seq<Node>, k: int)
    requires 0 <= k < |list| && NoRepeats(FramesOf(list))
    ensures FramesOf(Erased(list, k)) == Without(FramesOf(list), list[k].frame)
    ensures forall f :: f in FramesOf(Erased(list, k)) <==> f in FramesOf(list) && f != list[k].frame
  {
    WithoutAt(FramesOf(list), list[k].frame, k);
    WithoutMembers(FramesOf(list), list[k].frame);
    assert FramesOf(Erased(list, k)) == Erased(FramesOf(list), k);
  }

  lemma ErasedNewestFirst(list: seq<Node>, k: int)
    requires NewestFirst(list) && 0 <= k < |list|
    ensures NewestFirst(Erased(list, k))
  {
  }

  lemma ErasedIndexed(list: seq<Node>, index: map<FrameId, nat>, clock: nat, k: int)
    requires Indexed(list, index, clock) && 0 <= k < |list| && NoRepeats(FramesOf(list))
    ensures Indexed(Erased(list, k), index - {list[k].frame}, clock)
  {
  }

  lemma EraseOk(list: seq<Node>, index: map<FrameId, nat>, clock: nat, k: int)
    requires ListOk(list, index, clock) && 0 <= k < |list|
    ensures ListOk(Erased(list, k), index - {list[k].frame}, clock)
    ensures FramesOf(Erased(list, k)) == Without(FramesOf(list), list[k].frame)
    ensures list[k].frame in index && index[list[k].frame] == list[k].since && |index - {list[k].frame}| == |index| - 1
  {
    var f := list[k].frame;
    assert (index - {f}).Keys == index.Keys - {f} && f in index;
    assert |index| == |index.Keys| && |index - {f}| == |(index - {f}).Keys|;
    OneNodeEach(list, index, clock);
    ErasedFrames(list, k);
    ErasedNewestFirst(list, k);
    ErasedIndexed(list, index, clock, k);
  }

  lemma LastIsOldest(list: seq<Node>, index: map<FrameId, nat>, clock: nat)
    requires ListOk(list, index, clock) && |list| > 0
    ensures var n := |list| - 1;
            && list[n].frame in index && (forall g :: g in index ==> index[list[n].frame] <= index[g])
            && Without(FramesOf(list), list[n].frame) == FramesOf(list)[..n]
  {
    var n := |list| - 1;
    OneNodeEach(list, index, clock);
    WithoutAt(FramesOf(list), list[n].frame, n);
    forall g | g in index ensures index[list[n].frame] <= index[g] {
      var k :| 0 <= k < |list| && FramesOf(list)[k] == g;
      assert list[k].since >= list[n].since;
    }
  }

  lemma NodeOf(list: seq<Node>, index: map<FrameId, nat>, clock: nat, f: FrameId) returns (k: int)
    requires ListOk(list, index, clock) && f in index
    ensures 0 <= k < |list| && list[k].frame == f
  {
    k :| 0 <= k < |list| && FramesOf(list)[k] == f;
  }

  lemma AbsentFrame(list: seq<Node>, index: map<FrameId, nat>, clock: nat, f: FrameId)
    requires ListOk(list, index, clock) && f !in index
    ensures Without(FramesOf(list), f) == FramesOf(list) && index - {f} == index
  {
    SameSize(list, index, clock);
    assert f !in FramesOf(list);
    WithoutAbsent(FramesOf(list), f);
    MinusAbsent(index, f);
  }

  lemma {:induction false} WithoutAbsent(s: seq<FrameId>, f: FrameId)
    requires f !in s
    ensures Without(s, f) == s
  {
    if s != [] {
      assert s[0] in s && f !in s[1..];
      WithoutAbsent(s[1..], f);
      assert s == [s[0]] + s[1..];
    }
  }

  lemma MinusAbsent(m: map<FrameId, nat>, f: FrameId)
    requires f !in m
    ensures m - {f} == m
  {
  }

  lemma SameSize(list: seq<Node>, index: map<FrameId, nat>, clock: nat)
    requires ListOk(list, index, clock)
    ensures |index| == |list| && (index == map[] <==> list == []) && forall f :: f in index <==> f in FramesOf(list)
  {
    OneNodeEach(list, index, clock);
  }

  lemma PushOk(list: seq<Node>, index: map<FrameId, nat>, clock: nat, f: FrameId)
    requires ListOk(list, index, clock) && f !in index
    ensures ListOk([Node(clock, f)] + list, index[f := clock], clock + 1)
    ensures FramesOf([Node(clock, f)] + list) == [f] + FramesOf(list)
  {
    var next := [Node(clock, f)] + list;
    assert FramesOf(next) == [f] + FramesOf(list);
    forall g | g in index[f := clock] ensures g in FramesOf(next) {
      if g != f {
        assert g in FramesOf(list);
      }
    }
  }

  class LRUReplacer {
    const maxSize: nat
    var size: nat
    var list: seq<Node>
    /** For each unpinned frame, since when: the time of the Unpin that made it so. */
    var index: map<FrameId, nat>
    /** Tells nodes apart: no two are made at the same time. */
    var clock: nat

    ghost predicate Valid()
      reads this
    {
      ListOk(list, index, clock) && size == |index| && size <= maxSize
    }

    function Frames(): seq<FrameId>
      reads this
    {
      FramesOf(list)
    }

    constructor (pages: nat)
      ensures Valid() && index == map[] && Frames() == [] && maxSize == pages && clock == 0
    {
      maxSize := pages;
      size := 0;
      list := [];
      index := map[];
      clock := 0;
    }

    /** list.erase(iterator): the node made at time `at`, which stands at position k. */
    method Erase(at: nat, ghost k: int)
      requires ListOk(list, index, clock) && 0 <= k < |list| && list[k].since == at
      modifies this`list
      ensures list == Erased(old(list), k)
    {
      var i := 0;
      while list[i].since != at
        invariant 0 <= i <= k
        decreases k - i
      {
        i := i + 1;
      }
      list := Erased(list, i);
    }

    /** Takes the frame out of the list and the map. */
    method Drop(frame: FrameId, ghost k: int)
      requires Valid() && 0 <= k < |list| && list[k].frame == frame
      modifies this
      ensures Valid() && clock == old(clock) && index == old(index) - {frame}
      ensures Frames() == Without(old(Frames()), frame)
    {
      EraseOk(list, index, clock, k);
      Erase(index[frame], k);
      index := index - {frame};
      size := size - 1;
    }

    /** Gives up the frame that has been unpinned the longest. */
    method Victim() returns (ok: bool, frame: FrameId)
      requires Valid()
      modifies this
      ensures Valid() && clock == old(clock) && (ok <==> old(index) != map[])
      ensures (ok <==> old(Frames()) != []) && (!ok ==> index == old(index) && list == old(list))
      ensures ok ==> frame in old(index) && (forall g :: g in old(index) ==> old(index)[frame] <= old(index)[g])
      ensures ok ==> index == old(index) - {frame}
      ensures ok ==>
        && |old(Frames())| > 0 && frame == old(Frames())[|old(Frames())| - 1]
        && Frames() == old(Frames())[..|old(Frames())| - 1]
    {
      SameSize(list, index, clock);
      if size == 0 {
        return false, 0;
      }
      frame := list[|list| - 1].frame;
      LastIsOldest(list, index, clock);
      Drop(frame, |list| - 1);
      ok := true;
    }

    method Pin(frame: FrameId)
      requires Valid()
      modifies this
      ensures Valid() && clock == old(clock)
      ensures index == old(index) - {frame} && Frames() == Without(old(Frames()), frame)
    {
      if frame in index {
        ghost var k := NodeOf(list, index, clock, frame);
        Drop(frame, k);
      } else {
        AbsentFrame(list, index, clock, frame);
      }
    }

    /** Starts counting a frame as unpinned, unless it is so already or the list is at its limit. */
    method Unpin(frame: FrameId)
      requires Valid()
      modifies this
      ensures Valid() && clock == old(clock) + 1
      ensures frame in old(index) || |old(index)| >= maxSize ==> index == old(index) && Frames() == old(Frames())
      ensures frame !in old(index) && |old(index)| < maxSize ==>
        index == old(index)[frame := old(clock)] && Frames() == [frame] + old(Frames())
      ensures Frames() == Pushed(old(Frames()), frame, maxSize)
    {
      SameSize(list, index, clock);
      if frame in index || size >= maxSize {
        clock := clock + 1;
        return;
      }
      PushOk(list, index, clock, frame);
      list := [Node(clock, frame)] + list;
      index := index[frame := clock];
      size := size + 1;
      clock := clock + 1;
    }

    method Size() returns (n: nat)
      requires Valid()
      ensures n == |index| == |Frames()|
    {
      OneNodeEach(list, index, clock);
      n := size;
    }
  }
}
