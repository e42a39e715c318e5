/** The iterator over a table heap and what a full scan visits. */
module TableScan {
  import opened SlottedLayout
  import opened SlottedPage
  import opened BTreePages
  import opened TableHeap

  ghost predicate Listed(pages: Pages, chain: seq<PageId>) {
    forall i :: 0 <= i < |chain| ==> chain[i] in pages
  }

  /** The live rows at or after slot `k` of the page at position `i` of the chain, in chain-then-slot order. */
  ghost function LiveFrom(pages: Pages, chain: seq<PageId>, i: nat, k: nat): seq<RowId>
    requires Listed(pages, chain)
    decreases |chain| - i, (if i < |chain| then |pages[chain[i]].tuples| - k else 0)
  {
    if i >= |chain| then []
    else if k >= |pages[chain[i]].tuples| then LiveFrom(pages, chain, i + 1, 0)
    else if Live(pages[chain[i]].tuples[k]) then [RowId(chain[i], k)] + LiveFrom(pages, chain, i, k + 1)
    else LiveFrom(pages, chain, i, k + 1)
  }

  /** Slots that are not live do not matter. */
  lemma {:induction false} SkipDead(pages: Pages, chain: seq<PageId>, i: nat, k: nat, k2: nat)
    requires Listed(pages, chain) && i < |chain| && k <= k2 <= |pages[chain[i]].tuples|
    requires forall j :: k <= j < k2 ==> !LiveAt(pages[chain[i]].tuples, j)
    ensures LiveFrom(pages, chain, i, k) == LiveFrom(pages, chain, i, k2)
    decreases k2 - k
  {
    if k < k2 {
      assert !LiveAt(pages[chain[i]].tuples, k);
      SkipDead(pages, chain, i, k + 1, k2);
    }
  }

  /** The scan list names exactly the live rows at or after its start. */
  lemma {:induction false} LiveFromMembers(pages: Pages, chain: seq<PageId>, i: nat, k: nat, rid: RowId)
    requires Listed(pages, chain) && Distinct(chain)
    ensures rid in LiveFrom(pages, chain, i, k) <==>
      exists j :: i <= j < |chain| && chain[j] == rid.pageId && (j == i ==> k <= rid.slot)
        && rid.slot < |pages[chain[j]].tuples| && Live(pages[chain[j]].tuples[rid.slot])
    decreases |chain| - i, (if i < |chain| then |pages[chain[i]].tuples| - k else 0)
  {
    if i >= |chain| {
    } else if k >= |pages[chain[i]].tuples| {
      LiveFromMembers(pages, chain, i + 1, 0, rid);
    } else {
      LiveFromMembers(pages, chain, i, k + 1, rid);
    }
  }

  lemma {:induction false} LiveFromDistinct(pages: Pages, chain: seq<PageId>, i: nat, k: nat)
    requires Listed(pages, chain) && Distinct(chain)
    ensures forall a, b :: 0 <= a < b < |LiveFrom(pages, chain, i, k)| ==>
      LiveFrom(pages, chain, i, k)[a] != LiveFrom(pages, chain, i, k)[b]
    decreases |chain| - i, (if i < |chain| then |pages[chain[i]].tuples| - k else 0)
  {
    if i >= |chain| {
    } else if k >= |pages[chain[i]].tuples| {
      LiveFromDistinct(pages, chain, i + 1, 0);
    } else {
      LiveFromDistinct(pages, chain, i, k + 1);
      LiveFromMembers(pages, chain, i, k + 1, RowId(chain[i], k));
    }
  }

  lemma NextPage(pages: Pages, first: PageId, chain: seq<PageId>, j: nat)
    requires Chained(pages, first, chain) && Listed(pages, chain)
    requires j < |chain| && pages[chain[j]].next != INVALID_PAGE_ID
    ensures j + 1 < |chain| && pages[chain[j]].next == chain[j + 1]
    ensures LiveFrom(pages, chain, j, |pages[chain[j]].tuples|) == LiveFrom(pages, chain, j + 1, 0)
  {
    assert LinkOk(pages, chain, j);
  }

  lemma LastPage(pages: Pages, first: PageId, chain: seq<PageId>, j: nat)
    requires Chained(pages, first, chain) && Listed(pages, chain)
    requires j < |chain| && pages[chain[j]].next == INVALID_PAGE_ID
    ensures LiveFrom(pages, chain, j, |pages[chain[j]].tuples|) == []
  {
    assert LinkOk(pages, chain, j);
    assert j + 1 < |chain| ==> LinkOk(pages, chain, j + 1);
  }

  /** The first live slot of a page, from a position on. */
  method FindLive(pages: Pages, page: PageId, from: nat, ghost chain: seq<PageId>, ghost i: nat)
    returns (found: bool, slot: nat)
    requires Listed(pages, chain) && i < |chain| && chain[i] == page && from <= |pages[page].tuples|
    ensures slot <= |pages[page].tuples| && LiveFrom(pages, chain, i, slot) == LiveFrom(pages, chain, i, from)
    ensures found <==> slot < |pages[page].tuples|
    ensures found ==> LiveAt(pages[page].tuples, slot)
    ensures found <==> exists k :: from <= k < |pages[page].tuples| && LiveAt(pages[page].tuples, k)
  {
    slot := FirstLive(pages[page].tuples, from);
    found := slot < |pages[page].tuples|;
    SkipDead(pages, chain, i, from, slot);
  }

  lemma OnLive(pages: Pages, chain: seq<PageId>, i: nat, k: nat)
    requires Listed(pages, chain) && i < |chain| && LiveAt(pages[chain[i]].tuples, k)
    ensures var r := LiveFrom(pages, chain, i, k);
      r != [] && r[0] == RowId(chain[i], k) && r[1..] == LiveFrom(pages, chain, i, k + 1)
  {
  }

  class TableIterator {
    const heap: TableHeap
    var rid: RowId

    /** The iterator stands on a live row of the page at position `i` of the chain. */
    ghost predicate Standing(i: int)
      reads this, heap
    {
      && heap.Valid() && 0 <= i < |heap.chain| && heap.chain[i] == rid.pageId
      && rid.pageId != INVALID_PAGE_ID && rid.pageId in heap.pages
      && rid.slot < |heap.pages[rid.pageId].tuples| && Live(heap.pages[rid.pageId].tuples[rid.slot])
    }

    /** `Begin` looks at the first page of the chain only. */
    constructor Begin(heap: TableHeap)
      requires heap.Valid()
      ensures this.heap == heap
      ensures FirstPageLive(heap) ==>
        Standing(0) && LiveFrom(heap.pages, heap.chain, 0, rid.slot) == LiveFrom(heap.pages, heap.chain, 0, 0)
      ensures !FirstPageLive(heap) ==> rid == INVALID_ROWID
    {
      this.heap := heap;
      assert LinkOk(heap.pages, heap.chain, 0);
      ListedChain(heap.pages, heap.firstPageId, heap.chain);
      var found, slot := FindLive(heap.pages, heap.firstPageId, 0, heap.chain, 0);
      rid := if found then RowId(heap.firstPageId, slot) else INVALID_ROWID;
    }

    /** `operator++`: on to the next live row, skipping slots and whole pages without one, or to End. */
    method Increment(ghost i: nat) returns (ghost j: nat)
      requires Standing(i)
      modifies this
      ensures var rest := LiveFrom(heap.pages, heap.chain, i, old(rid.slot) + 1);
        if rest == [] then rid == INVALID_ROWID
        else Standing(j) && LiveFrom(heap.pages, heap.chain, j, rid.slot) == rest
    {
      ListedChain(heap.pages, heap.firstPageId, heap.chain);
      ghost var pages, chain := heap.pages, heap.chain;
      ghost var rest := LiveFrom(pages, chain, i, rid.slot + 1);
      j := i;
      var page := rid.pageId;
      var found: bool, slot: nat := FindLive(heap.pages, page, rid.slot + 1, chain, j);
      while !found && heap.pages[page].next != INVALID_PAGE_ID
        invariant j < |chain| && chain[j] == page && slot <= |pages[page].tuples|
        invariant found <==> slot < |pages[page].tuples|
        invariant found ==> LiveAt(pages[page].tuples, slot)
        invariant LiveFrom(pages, chain, j, slot) == rest
        decreases |chain| - j, !found
      {
        NextPage(pages, heap.firstPageId, chain, j);
        page := heap.pages[page].next;
        j := j + 1;
        found, slot := FindLive(heap.pages, page, 0, chain, j);
      }
      if !found {
        LastPage(pages, heap.firstPageId, chain, j);
      } else {
        OnLive(pages, chain, j, slot);
        assert LinkOk(pages, chain, j);
      }
      rid := if found then RowId(page, slot) else INVALID_ROWID;
    }
  }

  ghost predicate FirstPageLive(heap: TableHeap)
    requires heap.Valid() && heap.firstPageId in heap.pages
    reads heap
  {
    exists k :: 0 <= k < |heap.pages[heap.firstPageId].tuples| && LiveAt(heap.pages[heap.firstPageId].tuples, k)
  }

  lemma ListedChain(pages: Pages, first: PageId, chain: seq<PageId>)
    requires Chained(pages, first, chain)
    ensures Listed(pages, chain) && Distinct(chain)
  {
  }

  /** A full scan visits every live row once, in chain-then-slot order, provided the first page holds one;
      otherwise it visits nothing. */
  method ScanAll(heap: TableHeap) returns (out: seq<RowId>)
    requires heap.Valid() && heap.firstPageId in heap.pages && Listed(heap.pages, heap.chain)
    ensures out == if FirstPageLive(heap) then LiveFrom(heap.pages, heap.chain, 0, 0) else []
  {
    var it := new TableIterator.Begin(heap);
    out := [];
    ghost var i: nat := 0;
    ghost var all := if FirstPageLive(heap) then LiveFrom(heap.pages, heap.chain, 0, 0) else [];
    ghost var rest := all;
    while it.rid != INVALID_ROWID
      invariant it.heap == heap && fresh(it)
      invariant it.rid != INVALID_ROWID ==> it.Standing(i) && rest == LiveFrom(heap.pages, heap.chain, i, it.rid.slot)
      invariant it.rid == INVALID_ROWID ==> rest == []
      invariant out + rest == all
      decreases |rest|
    {
      OnLive(heap.pages, heap.chain, i, it.rid.slot);
      assert (out + [rest[0]]) + rest[1..] == out + rest;
      out := out + [it.rid];
      rest := rest[1..];
      i := it.Increment(i);
    }
  }

  /** The scan list is the table's live rows, each once. */
  lemma ScanListIsLiveRows(pages: Pages, first: PageId, chain: seq<PageId>)
    requires Chained(pages, first, chain)
    ensures Listed(pages, chain)
    ensures forall rid :: rid in LiveFrom(pages, chain, 0, 0) <==> rid in Rows(pages) && Live(Rows(pages)[rid])
    ensures var all := LiveFrom(pages, chain, 0, 0); forall a, b :: 0 <= a < b < |all| ==> all[a] != all[b]
  {
    ListedChain(pages, first, chain);
    LiveFromDistinct(pages, chain, 0, 0);
    forall rid ensures rid in LiveFrom(pages, chain, 0, 0) <==> rid in Rows(pages) && Live(Rows(pages)[rid]) {
      LiveFromMembers(pages, chain, 0, 0, rid);
      RowsAt(pages, rid);
      if rid in Rows(pages) {
        assert rid.pageId in chain;
        var j :| 0 <= j < |chain| && chain[j] == rid.pageId;
      }
    }
  }

  lemma FullPage(pages: Pages, rid: RowId)
    requires rid in Rows(pages) && Rows(pages)[rid].Stored? && |Rows(pages)[rid].bytes| == SIZE_MAX_ROW
    ensures rid.pageId in pages && FreeOf(pages[rid.pageId].tuples) <= 0
  {
    RowsAt(pages, rid);
    LargestRow(pages[rid.pageId].tuples, rid.slot);
  }

  /** Two rows that fill a page each. */
  method TwoLargeRows(bytes: seq<byte>) returns (heap: TableHeap, first: RowId, second: RowId)
    requires |bytes| == SIZE_MAX_ROW
    ensures fresh(heap) && heap.Valid() && heap.chain[0] == first.pageId != second.pageId
    ensures Rows(heap.pages) == map[first := Stored(bytes, false), second := Stored(bytes, false)]
  {
    heap := new TableHeap(5);
    var ok;
    ok, first := heap.InsertTuple(bytes);
    FullPage(heap.pages, first);
    ok, second := heap.InsertTuple(bytes);
  }

  lemma NoneLive(heap: TableHeap, rid: RowId)
    requires heap.Valid() && Rows(heap.pages).Keys == {rid} && rid.pageId != heap.chain[0]
    ensures heap.firstPageId in heap.pages && Listed(heap.pages, heap.chain) && !FirstPageLive(heap)
  {
    ListedChain(heap.pages, heap.firstPageId, heap.chain);
    var p := heap.firstPageId;
    forall k | 0 <= k < |heap.pages[p].tuples| ensures !LiveAt(heap.pages[p].tuples, k) {
      RowsAt(heap.pages, RowId(p, k));
      assert RowId(p, k) !in Rows(heap.pages).Keys;
    }
  }

  lemma OneRowLeft(rows: map<RowId, Tuple>, first: RowId, second: RowId, x: Tuple)
    requires first != second && rows == map[first := x, second := x]
    ensures first in rows && rows - {first} == map[second := x]
  {
  }

  /** When the row on the first page is deleted, a scan shows nothing of the other row. */
  method HiddenRow(bytes: seq<byte>) returns (heap: TableHeap, rid: RowId)
    requires |bytes| == SIZE_MAX_ROW
    ensures heap.Valid() && Rows(heap.pages) == map[rid := Stored(bytes, false)]
    ensures heap.firstPageId in heap.pages && Listed(heap.pages, heap.chain) && !FirstPageLive(heap)
  {
    var first;
    heap, first, rid := TwoLargeRows(bytes);
    OneRowLeft(Rows(heap.pages), first, rid, Stored(bytes, false));
    FullPage(heap.pages, first);
    heap.DeleteRow(first);
    NoneLive(heap, rid);
  }
}
