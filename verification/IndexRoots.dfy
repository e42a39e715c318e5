/** The index roots page: which page is the root of which index. */
module IndexRoots {
  import opened BTreePages

  datatype RootRecord = RootRecord(indexId: nat, rootId: PageId)

  ghost predicate DistinctIds(roots: seq<RootRecord>) {
    forall i, j :: 0 <= i < j < |roots| ==> roots[i].indexId != roots[j].indexId
  }

  /** The page as a map from index id to root page id. */
  function AsMap(roots: seq<RootRecord>): map<nat, PageId> {
    if roots == [] then map[]
    else AsMap(roots[..|roots| - 1])[roots[|roots| - 1].indexId := roots[|roots| - 1].rootId]
  }

  lemma {:induction false} AsMapAt(roots: seq<RootRecord>, id: nat)
    requires DistinctIds(roots)
    ensures id in AsMap(roots) <==> exists i :: 0 <= i < |roots| && roots[i].indexId == id
    ensures forall i :: 0 <= i < |roots| && roots[i].indexId == id ==>
      id in AsMap(roots) && AsMap(roots)[id] == roots[i].rootId
  {
    if roots != [] {
      var front := roots[..|roots| - 1];
      AsMapAt(front, id);
      assert forall i :: 0 <= i < |front| ==> front[i] == roots[i];
      if id in AsMap(roots) && id != roots[|roots| - 1].indexId {
        var i :| 0 <= i < |front| && front[i].indexId == id;
        assert roots[i].indexId == id;
      }
    }
  }

  method FindIndex(roots: seq<RootRecord>, id: nat) returns (r: int)
    requires DistinctIds(roots)
    ensures -1 <= r < |roots|
    ensures r == -1 <==> id !in AsMap(roots)
    ensures r >= 0 ==> roots[r].indexId == id && id in AsMap(roots) && AsMap(roots)[id] == roots[r].rootId
  {
    AsMapAt(roots, id);
    var i := 0;
    while i < |roots|
      invariant 0 <= i <= |roots|
      invariant forall j :: 0 <= j < i ==> roots[j].indexId != id
    {
      if roots[i].indexId == id {
        return i;
      }
      i := i + 1;
    }
    return -1;
  }

  method InsertRoot(roots: seq<RootRecord>, id: nat, rootId: PageId) returns (ok: bool, r: seq<RootRecord>)
    requires DistinctIds(roots)
    ensures DistinctIds(r)
    ensures ok <==> id !in AsMap(roots)
    ensures AsMap(r) == if ok then AsMap(roots)[id := rootId] else AsMap(roots)
    ensures r == if ok then roots + [RootRecord(id, rootId)] else roots
  {
    var index := FindIndex(roots, id);
    AsMapAt(roots, id);
    if index != -1 {
      return false, roots;
    }
    r := roots + [RootRecord(id, rootId)];
    assert r[..|r| - 1] == roots;
    ok := true;
  }

  method DeleteRoot(roots: seq<RootRecord>, id: nat) returns (ok: bool, r: seq<RootRecord>)
    requires DistinctIds(roots)
    ensures DistinctIds(r)
    ensures ok <==> id in AsMap(roots)
    ensures AsMap(r) == AsMap(roots) - {id}
    ensures if ok then exists i :: 0 <= i < |roots| && roots[i].indexId == id && r == roots[..i] + roots[i + 1..]
      else r == roots
  {
    var index := FindIndex(roots, id);
    if index == -1 {
      return false, roots;
    }
    r := ShiftOut(roots, index);
    ok := true;
    RemovedAsMap(roots, index);
  }

  lemma {:induction false} RemovedAsMap(roots: seq<RootRecord>, index: nat)
    requires DistinctIds(roots) && index < |roots|
    ensures DistinctIds(RemoveAt(roots, index))
    ensures AsMap(RemoveAt(roots, index)) == AsMap(roots) - {roots[index].indexId}
  {
    var front, last := roots[..|roots| - 1], roots[|roots| - 1];
    RemovedDistinct(roots, index);
    if index == |roots| - 1 {
      assert RemoveAt(roots, index) == front;
      AsMapAt(front, last.indexId);
      PutThenRemove(AsMap(front), last.indexId, last.rootId);
    } else {
      RemovedAsMap(front, index);
      var r := RemoveAt(roots, index);
      assert r[..|r| - 1] == RemoveAt(front, index) && r[|r| - 1] == last;
      assert roots[index] == front[index] && last.indexId != roots[index].indexId;
      RemoveThenPut(AsMap(front), roots[index].indexId, last.indexId, last.rootId);
    }
  }

  lemma PutThenRemove(m: map<nat, PageId>, k: nat, v: PageId)
    requires k !in m
    ensures m[k := v] - {k} == m
  {
  }

  lemma RemoveThenPut(m: map<nat, PageId>, a: nat, k: nat, v: PageId)
    requires a != k
    ensures (m - {a})[k := v] == m[k := v] - {a}
  {
  }

  lemma RemovedDistinct(roots: seq<RootRecord>, index: nat)
    requires DistinctIds(roots) && index < |roots|
    ensures DistinctIds(RemoveAt(roots, index))
  {
  }

  lemma {:induction false} UpdatedAsMap(roots: seq<RootRecord>, index: nat, rootId: PageId)
    requires DistinctIds(roots) && index < |roots|
    ensures var r := roots[index := RootRecord(roots[index].indexId, rootId)];
      DistinctIds(r) && AsMap(r) == AsMap(roots)[roots[index].indexId := rootId]
  {
    var front, last := roots[..|roots| - 1], roots[|roots| - 1];
    var r := roots[index := RootRecord(roots[index].indexId, rootId)];
    if index == |roots| - 1 {
      assert r[..|r| - 1] == front;
    } else {
      UpdatedAsMap(front, index, rootId);
      assert r[..|r| - 1] == front[index := RootRecord(front[index].indexId, rootId)];
    }
  }

  method UpdateRoot(roots: seq<RootRecord>, id: nat, rootId: PageId) returns (ok: bool, r: seq<RootRecord>)
    requires DistinctIds(roots)
    ensures DistinctIds(r)
    ensures ok <==> id in AsMap(roots)
    ensures AsMap(r) == if ok then AsMap(roots)[id := rootId] else AsMap(roots)
    ensures |r| == |roots|
    ensures forall i :: 0 <= i < |roots| ==>
      r[i] == if roots[i].indexId == id then RootRecord(id, rootId) else roots[i]
  {
    var index := FindIndex(roots, id);
    if index == -1 {
      AsMapAt(roots, id);
      return false, roots;
    }
    r := roots[index := RootRecord(id, rootId)];
    ok := true;
    UpdatedAsMap(roots, index, rootId);
  }
}
