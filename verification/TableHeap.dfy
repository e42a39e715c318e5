/** The table heap: a doubly linked chain of table pages, each given by the tuples in its slots. */
module TableHeap {
  import opened SlottedLayout
  import opened SlottedPage
  import opened BTreePages

  datatype HeapPage = HeapPage(prev: PageId, next: PageId, tuples: seq<Tuple>)

  type Pages = map<PageId, HeapPage>

  const INVALID_ROWID := RowId(INVALID_PAGE_ID, 0)

  lemma {:induction false} StoredBytesUpdate(ts: seq<Tuple>, k: nat, x: Tuple)
    requires k < |ts|
    ensures StoredBytes(ts[k := x]) ==
      StoredBytes(ts) + (if x.Stored? then |x.bytes| else 0) - (if ts[k].Stored? then |ts[k].bytes| else 0)
  {
    var n := |ts| - 1;
    if k < n {
      StoredBytesUpdate(ts[..n], k, x);
      assert ts[k := x][..n] == ts[..n][k := x];
    } else {
      assert ts[k := x][..n] == ts[..n];
    }
  }

  // ---------- The chain ----------

  ghost predicate LinkOk(pages: Pages, chain: seq<PageId>, i: int)
    requires 0 <= i < |chain|
  {
    && chain[i] in pages && chain[i] != INVALID_PAGE_ID
    && pages[chain[i]].next == (if i + 1 < |chain| then chain[i + 1] else INVALID_PAGE_ID)
    && pages[chain[i]].prev == (if i > 0 then chain[i - 1] else INVALID_PAGE_ID)
  }

  ghost predicate Chained(pages: Pages, first: PageId, chain: seq<PageId>) {
    && |chain| >= 1 && chain[0] == first
    && Distinct(chain)
    && (forall p :: p in pages <==> p in chain)
    && (forall i :: 0 <= i < |chain| ==> LinkOk(pages, chain, i))
  }

  /** Every page has room for its directory and tuples. */
  ghost predicate Roomy(pages: Pages) {
    forall p :: p in pages ==> FreeOf(pages[p].tuples) >= 0
  }

  ghost predicate Holds(pages: Pages, rid: RowId) {
    rid.pageId in pages && rid.slot < |pages[rid.pageId].tuples| && pages[rid.pageId].tuples[rid.slot].Stored?
  }

  /** The rows of the table, marked ones included, by row id. */
  ghost function Rows(pages: Pages): map<RowId, Tuple> {
    map rid | rid in RowIds(pages) && Holds(pages, rid) :: pages[rid.pageId].tuples[rid.slot]
  }

  ghost function RowIds(pages: Pages): set<RowId> {
    set p, i | p in pages && 0 <= i < |pages[p].tuples| :: RowId(p, i)
  }

  lemma RowsAt(pages: Pages, rid: RowId)
    ensures rid in Rows(pages) <==> Holds(pages, rid)
    ensures Holds(pages, rid) ==> Rows(pages)[rid] == pages[rid.pageId].tuples[rid.slot]
  {
  }

  /** One slot of one page changed. */
  lemma RowsUpdate(pages: Pages, p: PageId, k: nat, x: Tuple)
    requires p in pages && k <= |pages[p].tuples|
    ensures var pages2 := pages[p := pages[p].(tuples := WithTuple(pages[p].tuples, k, x))];
      Rows(pages2) == if x.Stored? then Rows(pages)[RowId(p, k) := x] else Rows(pages) - {RowId(p, k)}
  {
    var pages2 := pages[p := pages[p].(tuples := WithTuple(pages[p].tuples, k, x))];
    var want := if x.Stored? then Rows(pages)[RowId(p, k) := x] else Rows(pages) - {RowId(p, k)};
    forall rid
      ensures rid in Rows(pages2) <==> rid in want
      ensures rid in want ==> rid in Rows(pages2) && Rows(pages2)[rid] == want[rid]
    {
      RowsAt(pages, rid);
      RowsAt(pages2, rid);
    }
  }

  lemma RowsSameTuples(pages: Pages, pages2: Pages)
    requires forall p :: p in pages ==> p in pages2 && pages2[p].tuples == pages[p].tuples
    requires forall p :: p in pages2 && p !in pages ==> pages2[p].tuples == []
    ensures Rows(pages2) == Rows(pages)
  {
  }

  lemma ChainedUpdate(pages: Pages, first: PageId, chain: seq<PageId>, p: PageId, ts: seq<Tuple>)
    requires Chained(pages, first, chain) && p in pages
    ensures Chained(pages[p := pages[p].(tuples := ts)], first, chain)
  {
    var pages2 := pages[p := pages[p].(tuples := ts)];
    forall i | 0 <= i < |chain| ensures LinkOk(pages2, chain, i) {
      assert LinkOk(pages, chain, i);
    }
  }

  /** The rows with the delete mark of one of them set or cleared. */
  function FlaggedRow(rows: map<RowId, Tuple>, rid: RowId, marked: bool): map<RowId, Tuple> {
    if rid in rows && rows[rid].Stored? then rows[rid := Stored(rows[rid].bytes, marked)] else rows
  }

  /** The pages with one slot of one of them set. */
  function SetSlot(pages: Pages, p: PageId, k: nat, x: Tuple): Pages
    requires p in pages
  {
    pages[p := pages[p].(tuples := WithTuple(pages[p].tuples, k, x))]
  }

  /** The slot is the first empty one, or one behind the last if none is empty. */
  predicate LowestEmpty(ts: seq<Tuple>, k: nat) {
    k <= |ts| && (forall i :: 0 <= i < k ==> ts[i].Stored?) && (k < |ts| ==> ts[k] == Empty)
  }

  /** No page before this one in the chain has room. */
  ghost predicate EarlierFull(pages: Pages, chain: seq<PageId>, page: PageId, bytes: seq<byte>) {
    forall i, j :: 0 <= j < i < |chain| && chain[i] == page && chain[j] in pages ==>
      !Fits(pages[chain[j]].tuples, bytes)
  }

  /** The bytes went into the lowest empty slot of the first page with room; if there was none, into slot 0 of a
      page added at the end. Nothing else changed. */
  ghost predicate PutFirst(pages: Pages, chain: seq<PageId>, bytes: seq<byte>, rid: RowId, pages2: Pages,
                           chain2: seq<PageId>) {
    if rid.pageId in pages then
      && Fits(pages[rid.pageId].tuples, bytes) && EarlierFull(pages, chain, rid.pageId, bytes)
      && LowestEmpty(pages[rid.pageId].tuples, rid.slot)
      && chain2 == chain && pages2 == SetSlot(pages, rid.pageId, rid.slot, Stored(bytes, false))
    else
      && (forall p :: p in pages ==> !Fits(pages[p].tuples, bytes))
      && rid.slot == 0 && chain2 == chain + [rid.pageId]
      && AddedPage(pages, rid.pageId, [Stored(bytes, false)], pages2)
  }

  /** One page more, with these tuples; the others hold what they held. */
  ghost predicate AddedPage(pages: Pages, q: PageId, ts: seq<Tuple>, pages2: Pages) {
    && q !in pages && q in pages2 && pages2[q].tuples == ts
    && (forall p :: p in pages2 <==> p in pages || p == q)
    && forall p :: p in pages ==> pages2[p].tuples == pages[p].tuples
  }

  lemma SetSame(pages: Pages, rid: RowId)
    ensures Holds(pages, rid) ==>
      SetSlot(pages, rid.pageId, rid.slot, pages[rid.pageId].tuples[rid.slot]) == pages
  {
    if Holds(pages, rid) {
      var ts := pages[rid.pageId].tuples;
      assert ts[rid.slot := ts[rid.slot]] == ts;
    }
  }

  lemma SetTwice(pages: Pages, p: PageId, k: nat, x: Tuple, y: Tuple)
    requires p in pages && k < |pages[p].tuples|
    ensures SetSlot(SetSlot(pages, p, k, x), p, k, y) == SetSlot(pages, p, k, y)
  {
    var ts := pages[p].tuples;
    assert ts[k := x][k := y] == ts[k := y];
  }

  lemma FlaggedThenGone(rows: map<RowId, Tuple>, rid: RowId)
    requires rid in rows && rows[rid].Stored?
    ensures rid in FlaggedRow(rows, rid, true) && |FlaggedRow(rows, rid, true)[rid].bytes| == |rows[rid].bytes|
    ensures FlaggedRow(rows, rid, true) - {rid} == rows - {rid}
  {
    assert (rows[rid := Stored(rows[rid].bytes, true)] - {rid}).Keys == (rows - {rid}).Keys;
  }

  class TableHeap {
    const firstPageId: PageId
    var pages: Pages
    var nextFree: PageId
    ghost var chain: seq<PageId>

    ghost predicate Valid()
      reads this
    {
      && Chained(pages, firstPageId, chain) && Roomy(pages)
      && nextFree >= 0 && forall p :: p in pages ==> p < nextFree
    }

    constructor (first: PageId)
      requires first >= 0
      ensures Valid() && Rows(pages) == map[] && chain == [first] && pages[first].tuples == []
    {
      firstPageId := first;
      pages := map[first := HeapPage(INVALID_PAGE_ID, INVALID_PAGE_ID, [])];
      nextFree := first + 1;
      chain := [first];
      new;
      forall rid ensures rid !in Rows(pages) {
        RowsAt(pages, rid);
      }
    }

    /** Puts the tuples `ts` into page `p`, which differ in slot `k`. */
    method SetTuples(p: PageId, ts: seq<Tuple>, ghost k: nat, ghost x: Tuple)
      requires Valid() && p in pages && k <= |pages[p].tuples|
      requires ts == WithTuple(pages[p].tuples, k, x) && FreeOf(ts) >= 0
      modifies this`pages
      ensures Valid()
      ensures Rows(pages) == if x.Stored? then old(Rows(pages))[RowId(p, k) := x] else old(Rows(pages)) - {RowId(p, k)}
      ensures pages == old(pages)[p := old(pages)[p].(tuples := ts)]
    {
      RowsUpdate(pages, p, k, x);
      ChainedUpdate(pages, firstPageId, chain, p, ts);
      pages := pages[p := pages[p].(tuples := ts)];
    }

    /** `InsertTuple`: the first page of the chain with room takes the tuple; if there is none, a page is
        added at the end. Only a tuple too large for an empty page is refused, and the added page stays. */
    method InsertTuple(bytes: seq<byte>) returns (ok: bool, rid: RowId)
      requires Valid() && |bytes| > 0
      modifies this
      ensures Valid() && old(chain) <= chain && |chain| <= |old(chain)| + 1
      ensures ok <==> |bytes| <= SIZE_MAX_ROW
      ensures ok ==> rid !in old(Rows(pages)) && Rows(pages) == old(Rows(pages))[rid := Stored(bytes, false)]
      ensures ok ==> PutFirst(old(pages), old(chain), bytes, rid, pages, chain)
      ensures !ok ==> Rows(pages) == old(Rows(pages)) && |chain| == |old(chain)| + 1
      ensures !ok ==> AddedPage(old(pages), chain[|chain| - 1], [], pages)
    {
      var page, found := FindRoom(bytes);
      if found {
        rid := PlaceIn(page, bytes);
        return true, rid;
      }
      ok, rid := InsertIntoNewPage(page, bytes);
    }

    /** No page has room: one more page is linked behind the last one, and the tuple goes there if it fits. */
    method InsertIntoNewPage(last: PageId, bytes: seq<byte>) returns (ok: bool, rid: RowId)
      requires Valid() && |bytes| > 0 && last == chain[|chain| - 1]
      modifies this
      ensures Valid() && (ok <==> |bytes| <= SIZE_MAX_ROW)
      ensures chain == old(chain) + [chain[|chain| - 1]] && chain[|chain| - 1] !in old(pages)
      ensures AddedPage(old(pages), chain[|chain| - 1], if ok then [Stored(bytes, false)] else [], pages)
      ensures ok ==> rid == RowId(chain[|chain| - 1], 0) && rid !in old(Rows(pages))
      ensures Rows(pages) == if ok then old(Rows(pages))[rid := Stored(bytes, false)] else old(Rows(pages))
    {
      var q := AppendPage(last);
      if Fits(pages[q].tuples, bytes) {
        rid := PlaceIn(q, bytes);
        return true, rid;
      }
      return false, INVALID_ROWID;
    }

    /** `TablePage::InsertTuple` on a page with room. */
    method PlaceIn(page: PageId, bytes: seq<byte>) returns (rid: RowId)
      requires Valid() && page in pages && Fits(pages[page].tuples, bytes)
      modifies this`pages
      ensures Valid() && rid.pageId == page && rid !in old(Rows(pages))
      ensures Rows(pages) == old(Rows(pages))[rid := Stored(bytes, false)]
      ensures LowestEmpty(old(pages)[page].tuples, rid.slot)
      ensures pages == SetSlot(old(pages), page, rid.slot, Stored(bytes, false))
    {
      var k := FirstFree(pages[page].tuples);
      rid := RowId(page, k);
      RowsAt(pages, rid);
      PutFits(pages[page].tuples, k, bytes);
      SetTuples(page, WithTuple(pages[page].tuples, k, Stored(bytes, false)), k, Stored(bytes, false));
    }

    /** The loop along the chain: the first page with room, or the last page. */
    method FindRoom(bytes: seq<byte>) returns (page: PageId, found: bool)
      requires Valid() && |bytes| > 0
      ensures page in pages
      ensures found ==>
        Fits(pages[page].tuples, bytes) && |bytes| <= SIZE_MAX_ROW && EarlierFull(pages, chain, page, bytes)
      ensures !found ==> page == chain[|chain| - 1] && forall p :: p in pages ==> !Fits(pages[p].tuples, bytes)
    {
      ghost var i := 0;
      page := firstPageId;
      while true
        invariant 0 <= i < |chain| && page == chain[i]
        invariant forall j :: 0 <= j < i ==> !Fits(pages[chain[j]].tuples, bytes)
        decreases |chain| - i
      {
        assert LinkOk(pages, chain, i);
        assert i + 1 < |chain| ==> LinkOk(pages, chain, i + 1);
        if Fits(pages[page].tuples, bytes) {
          return page, true;
        }
        if pages[page].next == INVALID_PAGE_ID {
          return page, false;
        }
        page := pages[page].next;
        i := i + 1;
      }
    }

    /** A fresh page linked behind the last page `last`. */
    method AppendPage(last: PageId) returns (q: PageId)
      requires Valid() && last == chain[|chain| - 1]
      modifies this
      ensures Valid() && AddedPage(old(pages), q, [], pages)
      ensures chain == old(chain) + [q] && Rows(pages) == old(Rows(pages))
    {
      q := nextFree;
      AppendChained(pages, firstPageId, chain, q);
      AppendRows(pages, last, q);
      nextFree := nextFree + 1;
      pages := pages[last := pages[last].(next := q)];
      pages := pages[q := HeapPage(last, INVALID_PAGE_ID, [])];
      chain := chain + [q];
    }

    /** `MarkDelete` of the page, ignoring whether it refused; the heap reports success either way. */
    method MarkDelete(rid: RowId) returns (ok: bool)
      requires Valid() && rid.pageId in pages
      modifies this`pages
      ensures Valid() && ok
      ensures Rows(pages) == FlaggedRow(old(Rows(pages)), rid, true)
      ensures pages == if Holds(old(pages), rid)
        then SetSlot(old(pages), rid.pageId, rid.slot, Stored(old(pages)[rid.pageId].tuples[rid.slot].bytes, true))
        else old(pages)
      ensures pages.Keys == old(pages).Keys && forall p :: p in pages ==>
        FreeOf(pages[p].tuples) == FreeOf(old(pages)[p].tuples)
    {
      RowsAt(pages, rid);
      ok := true;
      var ts := pages[rid.pageId].tuples;
      if !LiveAt(ts, rid.slot) {
        assert rid in Rows(pages) ==> Rows(pages)[rid := Stored(Rows(pages)[rid].bytes, true)] == Rows(pages);
        SetSame(pages, rid);
        return;
      }
      StoredBytesUpdate(ts, rid.slot, Stored(ts[rid.slot].bytes, true));
      SetTuples(rid.pageId, Flagged(ts, rid.slot, true), rid.slot, Stored(ts[rid.slot].bytes, true));
    }

    method RollbackDelete(rid: RowId)
      requires Valid() && rid.pageId in pages && rid.slot < |pages[rid.pageId].tuples|
      modifies this`pages
      ensures Valid()
      ensures Rows(pages) == FlaggedRow(old(Rows(pages)), rid, false)
      ensures pages == if Holds(old(pages), rid)
        then SetSlot(old(pages), rid.pageId, rid.slot, Stored(old(pages)[rid.pageId].tuples[rid.slot].bytes, false))
        else old(pages)
    {
      RowsAt(pages, rid);
      var ts := pages[rid.pageId].tuples;
      if ts[rid.slot].Stored? {
        StoredBytesUpdate(ts, rid.slot, Stored(ts[rid.slot].bytes, false));
        SetTuples(rid.pageId, Flagged(ts, rid.slot, false), rid.slot, Stored(ts[rid.slot].bytes, false));
      }
    }

    method ApplyDelete(rid: RowId)
      requires Valid() && rid in Rows(pages)
      modifies this`pages
      ensures Valid() && Rows(pages) == old(Rows(pages)) - {rid}
      ensures rid.pageId in old(pages) && pages.Keys == old(pages).Keys
      ensures pages == SetSlot(old(pages), rid.pageId, rid.slot, Empty)
      ensures FreeOf(pages[rid.pageId].tuples) == FreeOf(old(pages)[rid.pageId].tuples) + |old(Rows(pages))[rid].bytes|
    {
      RowsAt(pages, rid);
      StoredBytesUpdate(pages[rid.pageId].tuples, rid.slot, Empty);
      SetTuples(rid.pageId, WithTuple(pages[rid.pageId].tuples, rid.slot, Empty), rid.slot, Empty);
    }

    method GetTuple(rid: RowId) returns (ok: bool, bytes: seq<byte>)
      requires Valid() && rid.pageId in pages
      ensures ok <==> rid in Rows(pages) && Live(Rows(pages)[rid])
      ensures ok ==> bytes == Rows(pages)[rid].bytes
    {
      RowsAt(pages, rid);
      var ts := pages[rid.pageId].tuples;
      if LiveAt(ts, rid.slot) {
        return true, ts[rid.slot].bytes;
      }
      return false, [];
    }

    /** `UpdateTuple`: in place when the page has room, otherwise by deleting the row and inserting it
        anew, which always lands on a different page. A row that fits no page is then lost. */
    method UpdateTuple(bytes: seq<byte>, rid: RowId) returns (ok: bool, newRid: RowId)
      requires Valid() && rid.pageId in pages && |bytes| > 0
      modifies this
      ensures Valid()
      ensures ok <==> rid in old(Rows(pages)) && Live(old(Rows(pages))[rid])
      ensures !ok ==> pages == old(pages)
      ensures ok && |bytes| <= SIZE_MAX_ROW ==>
        Rows(pages) == (old(Rows(pages)) - {rid})[newRid := Stored(bytes, false)]
      ensures ok && |bytes| > SIZE_MAX_ROW ==> Rows(pages) == old(Rows(pages)) - {rid}
      ensures ok && |bytes| <= SIZE_MAX_ROW ==>
        (newRid == rid <==> |bytes| <= FreeOf(old(pages)[rid.pageId].tuples) + |old(Rows(pages))[rid].bytes|)
      ensures ok && |bytes| <= SIZE_MAX_ROW && newRid != rid ==>
        newRid.pageId != rid.pageId && newRid !in old(Rows(pages))
        && PutFirst(SetSlot(old(pages), rid.pageId, rid.slot, Empty), old(chain), bytes, newRid, pages, chain)
      ensures ok && newRid == rid && |bytes| <= SIZE_MAX_ROW ==>
        pages == SetSlot(old(pages), rid.pageId, rid.slot, Stored(bytes, false))
    {
      RowsAt(pages, rid);
      var ts := pages[rid.pageId].tuples;
      newRid := rid;
      var res := UpdateCode(ts, rid.slot, bytes);
      if res == -1 {
        return false, rid;
      }
      if res == 0 {
        newRid := Relocate(rid, bytes);
        return true, newRid;
      }
      LargestRow(ts, rid.slot);
      OverwriteRow(rid, bytes);
      return true, rid;
    }

    method OverwriteRow(rid: RowId, bytes: seq<byte>)
      requires Valid() && rid.pageId in pages && rid.slot < |pages[rid.pageId].tuples|
      requires pages[rid.pageId].tuples[rid.slot].Stored?
      requires |bytes| <= FreeOf(pages[rid.pageId].tuples) + |pages[rid.pageId].tuples[rid.slot].bytes|
      modifies this`pages
      ensures Valid() && Rows(pages) == (old(Rows(pages)) - {rid})[rid := Stored(bytes, false)]
      ensures pages == SetSlot(old(pages), rid.pageId, rid.slot, Stored(bytes, false))
    {
      StoredBytesUpdate(pages[rid.pageId].tuples, rid.slot, Stored(bytes, false));
      Overwrite(Rows(pages), rid, Stored(bytes, false));
      SetTuples(rid.pageId, WithTuple(pages[rid.pageId].tuples, rid.slot, Stored(bytes, false)), rid.slot,
                Stored(bytes, false));
    }

    /** Delete and insert, for a row that no longer fits its page. */
    method Relocate(rid: RowId, bytes: seq<byte>) returns (newRid: RowId)
      requires Valid() && rid in Rows(pages) && |bytes| > 0 && rid.pageId in pages
      requires rid.slot < |pages[rid.pageId].tuples|
      requires FreeOf(pages[rid.pageId].tuples) + |Rows(pages)[rid].bytes| < |bytes|
      modifies this
      ensures Valid()
      ensures |bytes| <= SIZE_MAX_ROW ==>
        && newRid.pageId != rid.pageId && newRid !in old(Rows(pages))
        && Rows(pages) == (old(Rows(pages)) - {rid})[newRid := Stored(bytes, false)]
        && PutFirst(SetSlot(old(pages), rid.pageId, rid.slot, Empty), old(chain), bytes, newRid, pages, chain)
      ensures |bytes| > SIZE_MAX_ROW ==> Rows(pages) == old(Rows(pages)) - {rid}
    {
      DeleteRow(rid);
      var done;
      done, newRid := InsertTuple(bytes);
    }

    method DeleteRow(rid: RowId)
      requires Valid() && rid in Rows(pages) && rid.pageId in pages
      modifies this`pages
      ensures Valid() && Rows(pages) == old(Rows(pages)) - {rid} && rid.pageId in pages
      ensures pages == SetSlot(old(pages), rid.pageId, rid.slot, Empty)
      ensures FreeOf(pages[rid.pageId].tuples) == FreeOf(old(pages)[rid.pageId].tuples) + |old(Rows(pages))[rid].bytes|
    {
      RowsAt(pages, rid);
      SetTwice(pages, rid.pageId, rid.slot, Stored(pages[rid.pageId].tuples[rid.slot].bytes, true), Empty);
      FlaggedThenGone(Rows(pages), rid);
      var marked := MarkDelete(rid);
      ApplyDelete(rid);
    }
  }

  /** A fresh empty page adds no row and needs no room. */
  lemma AppendRows(pages: Pages, last: PageId, q: PageId)
    requires last in pages && q !in pages && Roomy(pages)
    ensures var pages2 := pages[last := pages[last].(next := q)][q := HeapPage(last, INVALID_PAGE_ID, [])];
      Rows(pages2) == Rows(pages) && Roomy(pages2)
  {
    var pages2 := pages[last := pages[last].(next := q)][q := HeapPage(last, INVALID_PAGE_ID, [])];
    RowsSameTuples(pages, pages2);
  }

  lemma AppendChained(pages: Pages, first: PageId, chain: seq<PageId>, q: PageId)
    requires Chained(pages, first, chain) && q !in pages && q != INVALID_PAGE_ID
    ensures var last := chain[|chain| - 1];
      Chained(pages[last := pages[last].(next := q)][q := HeapPage(last, INVALID_PAGE_ID, [])], first, chain + [q])
  {
    var last := chain[|chain| - 1];
    var pages2 := pages[last := pages[last].(next := q)][q := HeapPage(last, INVALID_PAGE_ID, [])];
    var chain2 := chain + [q];
    assert LinkOk(pages, chain, |chain| - 1);
    forall i | 0 <= i < |chain2| ensures LinkOk(pages2, chain2, i) {
      if i < |chain| {
        assert LinkOk(pages, chain, i);
        assert chain2[i] == chain[i];
      }
    }
    forall p ensures p in pages2 <==> p in chain2 {
      assert p in chain2 <==> p in chain || p == q;
    }
  }

  lemma Overwrite(m: map<RowId, Tuple>, rid: RowId, x: Tuple)
    ensures m[rid := x] == (m - {rid})[rid := x]
  {
  }

  /** A row that fits beside the others of a page fits an empty page. */
  lemma LargestRow(ts: seq<Tuple>, k: nat)
    requires k < |ts| && ts[k].Stored?
    ensures FreeOf(ts) + |ts[k].bytes| <= SIZE_MAX_ROW
  {
    StoredBytesUpdate(ts, k, Empty);
  }

  lemma PutFits(ts: seq<Tuple>, k: nat, bytes: seq<byte>)
    requires k <= |ts| && (k < |ts| ==> ts[k] == Empty) && Fits(ts, bytes)
    ensures FreeOf(WithTuple(ts, k, Stored(bytes, false))) >= 0
  {
    if k < |ts| {
      StoredBytesUpdate(ts, k, Stored(bytes, false));
    } else {
      assert (ts + [Stored(bytes, false)])[..|ts|] == ts;
    }
  }
}
