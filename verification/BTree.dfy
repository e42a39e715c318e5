/** The B+ tree index over a store of pages. Pinning and the page cache are abstracted away:
    a page id names the page's current content. */
module BTree {
  import opened BTreePages
  import opened BTreeShape
  import opened BTreeInsert
  import opened BTreeSearch
  import opened BTreeRemove
  import opened BTreeBorrow
  import opened BTreeAstray
  import opened BTreeFate
  import opened IndexRoots

  class BPlusTree {
    const indexId: nat
    const leafMax: nat
    const innerMax: nat
    var rootId: PageId
    /** The buffer pool, as far as this index uses it. */
    var pages: Pages
    /** Page ids from here on have not been handed out by the disk manager. */
    var nextFree: PageId
    var roots: seq<RootRecord>
    ghost var ranges: Ranges

    ghost function Conf(): Config {
      Config(leafMax, innerMax)
    }

    ghost predicate Shaped(ex: PageId)
      reads this
    {
      && Inv(Conf(), pages, rootId, ranges, ex)
      && Allocated()
    }

    ghost predicate Allocated()
      reads this
    {
      && nextFree >= 2
      && (forall p :: p in pages ==> p < nextFree)
      && DistinctIds(roots)
    }

    ghost predicate Valid()
      reads this
    {
      && leafMax >= 1 && innerMax >= 3
      && if rootId == INVALID_PAGE_ID then pages == map[] && Allocated() else Shaped(INVALID_PAGE_ID)
    }

    /** The index roots page names the root of this tree. */
    ghost predicate RootRecorded()
      reads this
    {
      indexId in AsMap(roots) && AsMap(roots)[indexId] == rootId
    }

    /** Other indexes keep their records, and this one's is made to name the root when the root has changed
        from `root`. */
    ghost predicate RecordsFollow(before: map<nat, PageId>, root: PageId)
      reads this
    {
      && AsMap(roots) - {indexId} == before - {indexId}
      && (indexId in AsMap(roots) <==> indexId in before)
      && (indexId in before ==> AsMap(roots)[indexId] == if rootId == root then before[indexId] else rootId)
    }

    constructor (indexId: nat, leafMax: nat, innerMax: nat, roots: seq<RootRecord>, nextFree: PageId)
      requires leafMax >= 1 && innerMax >= 3 && DistinctIds(roots) && nextFree >= 2
      ensures Valid() && pages == map[] && rootId == INVALID_PAGE_ID && this.roots == roots
      ensures this.leafMax == leafMax && this.innerMax == innerMax && this.indexId == indexId
    {
      this.indexId, this.leafMax, this.innerMax := indexId, leafMax, innerMax;
      this.roots, this.nextFree := roots, nextFree;
      rootId, pages, ranges := INVALID_PAGE_ID, map[], map[];
    }

    method NewPage() returns (q: PageId)
      requires Allocated()
      modifies this`nextFree
      ensures Allocated() && q !in pages && q >= 2 && q < nextFree && q >= old(nextFree)
    {
      q := nextFree;
      nextFree := nextFree + 1;
    }

    method UpdateRootPageId(insertRecord: bool)
      requires DistinctIds(roots)
      modifies this`roots
      ensures DistinctIds(roots)
      ensures insertRecord ==> (RootRecorded() <==> indexId !in old(AsMap(roots)) || old(RootRecorded()))
      ensures !insertRecord ==> (RootRecorded() <==> indexId in old(AsMap(roots)))
      ensures insertRecord ==> indexId in AsMap(roots)
      ensures insertRecord && indexId in old(AsMap(roots)) ==> AsMap(roots) == old(AsMap(roots))
      ensures !insertRecord && indexId !in old(AsMap(roots)) ==> AsMap(roots) == old(AsMap(roots))
      ensures AsMap(roots) - {indexId} == old(AsMap(roots)) - {indexId}
    {
      var ok;
      if insertRecord {
        ok, roots := InsertRoot(roots, indexId, rootId);
      } else {
        ok, roots := UpdateRoot(roots, indexId, rootId);
      }
    }

    /** The leaf that a descent by `key`, or always leftmost, reaches. */
    method FindLeafPage(key: int, leftMost: bool, ghost ex: PageId) returns (p: PageId)
      requires rootId != INVALID_PAGE_ID ==> Shaped(ex)
      ensures p == INVALID_PAGE_ID <==> rootId == INVALID_PAGE_ID
      ensures rootId != INVALID_PAGE_ID ==>
        && p in pages && pages[p].Leaf?
        && (if leftMost then ranges[p].lo.NegInf? else Within(key, ranges[p]))
    {
      if rootId == INVALID_PAGE_ID {
        return INVALID_PAGE_ID;
      }
      p := rootId;
      while !pages[p].Leaf?
        invariant p in pages
        invariant if leftMost then ranges[p].lo.NegInf? else Within(key, ranges[p])
        decreases ranges[p].level
      {
        assert PageOk(Conf(), pages, rootId, ranges, ex, p);
        if leftMost {
          assert ChildOk(pages, ranges, p, 0);
          p := pages[p].kids[0];
        } else {
          var stale := *;
          var i := InnerLookup(pages[p].keys, pages[p].kids, key, stale);
          DescendOk(Conf(), pages, rootId, ranges, ex, p, key, i);
          p := pages[p].kids[i];
        }
      }
      assert PageOk(Conf(), pages, rootId, ranges, ex, p);
    }

    method GetValue(key: int) returns (found: bool, value: RowId)
      requires Valid()
      ensures found ==> Entry(key, value) in Entries(pages)
      ensures !found ==> forall e :: e in Entries(pages) ==> e.key != key
    {
      var leaf := FindLeafPage(key, false, INVALID_PAGE_ID);
      if leaf == INVALID_PAGE_ID {
        return false, RowId(INVALID_PAGE_ID, 0);
      }
      assert PageOk(Conf(), pages, rootId, ranges, INVALID_PAGE_ID, leaf);
      found, value := LeafLookup(pages[leaf].items, key);
      forall e | e in Entries(pages) && e.key == key ensures e in pages[leaf].items {
        HeldByItsLeaf(Conf(), pages, rootId, ranges, INVALID_PAGE_ID, leaf, e);
      }
    }

    /** `Insert`: false, changing nothing, exactly when the key is present; else one more entry. The first
        entry of an index that has a record already leaves that record out of date. */
    method Insert(key: int, value: RowId) returns (ok: bool)
      requires Valid()
      modifies this
      ensures Valid()
      ensures ok <==> forall e :: e in old(Entries(pages)) ==> e.key != key
      ensures ok ==> Entries(pages) == old(Entries(pages)) + {Entry(key, value)}
      ensures !ok ==> pages == old(pages) && rootId == old(rootId) && roots == old(roots)
      ensures old(RootRecorded()) && old(rootId) != INVALID_PAGE_ID ==> RootRecorded()
      ensures old(rootId) == INVALID_PAGE_ID ==>
        (RootRecorded() <==> indexId !in old(AsMap(roots)) || old(AsMap(roots))[indexId] == rootId)
      ensures old(rootId) == INVALID_PAGE_ID && old(RootRecorded()) ==> !RootRecorded()
      ensures old(rootId) == INVALID_PAGE_ID && indexId in old(AsMap(roots)) ==> AsMap(roots) == old(AsMap(roots))
      ensures old(rootId) != INVALID_PAGE_ID ==> RecordsFollow(old(AsMap(roots)), old(rootId))
      ensures AsMap(roots) - {indexId} == old(AsMap(roots)) - {indexId}
    {
      if rootId == INVALID_PAGE_ID {
        StartNewTree(key, value);
        return true;
      }
      ok := InsertIntoLeaf(key, value);
    }

    method StartNewTree(key: int, value: RowId)
      requires Valid() && rootId == INVALID_PAGE_ID
      modifies this
      ensures Valid() && rootId >= 2
      ensures Entries(pages) == {Entry(key, value)}
      ensures RootRecorded() <==> indexId !in old(AsMap(roots)) || old(AsMap(roots))[indexId] == rootId
      ensures indexId in old(AsMap(roots)) ==> AsMap(roots) == old(AsMap(roots))
      ensures AsMap(roots) - {indexId} == old(AsMap(roots)) - {indexId}
    {
      rootId := NewPage();
      UpdateRootPageId(true);
      pages := map[rootId := Leaf(INVALID_PAGE_ID, 0, [Entry(key, value)])];
      ranges := map[rootId := Range(0, NegInf, PosInf)];
      assert PageOk(Conf(), pages, rootId, ranges, INVALID_PAGE_ID, rootId);
      assert Entry(key, value) in pages[rootId].items;
    }

    method InsertIntoLeaf(key: int, value: RowId) returns (ok: bool)
      requires Valid() && rootId != INVALID_PAGE_ID
      modifies this
      ensures Valid() && rootId != INVALID_PAGE_ID
      ensures ok <==> forall e :: e in old(Entries(pages)) ==> e.key != key
      ensures ok ==> Entries(pages) == old(Entries(pages)) + {Entry(key, value)}
      ensures !ok ==> pages == old(pages) && rootId == old(rootId) && roots == old(roots)
      ensures old(RootRecorded()) ==> RootRecorded()
      ensures RecordsFollow(old(AsMap(roots)), old(rootId))
    {
      var leaf := FindLeafPage(key, false, INVALID_PAGE_ID);
      var pg := pages[leaf];
      assert PageOk(Conf(), pages, rootId, ranges, INVALID_PAGE_ID, leaf);
      var exist, v := LeafLookup(pg.items, key);
      forall e | e in Entries(pages) && e.key == key ensures e in pg.items {
        HeldByItsLeaf(Conf(), pages, rootId, ranges, INVALID_PAGE_ID, leaf, e);
      }
      if exist {
        assert Entry(key, v) in Entries(pages);
        return false;
      }
      var at := KeyIndex(pg.items, key);
      var items := ShiftIn(pg.items, at, Entry(key, value));
      LeafInsertKeepsInv(Conf(), pages, rootId, ranges, leaf, at, Entry(key, value));
      pages := pages[leaf := Leaf(pg.parent, pg.next, items)];
      if |items| > leafMax {
        ghost var s := pages;
        assert PageOk(Conf(), s, rootId, ranges, leaf, leaf);
        var q := Split(leaf, leaf);
        InsertIntoParent(leaf, pages[q].items[0].key, q, s);
      } else {
        SettleSize(Conf(), pages, rootId, ranges, leaf);
      }
      ok := true;
    }

    /** `Split`: half of the page moves to a new one, whose children are adopted one by one. */
    method Split(p: PageId, ghost ex: PageId) returns (q: PageId)
      requires Shaped(ex) && p in pages && pages[p].Size() >= 2
      modifies this`pages, this`nextFree
      ensures q !in old(pages) && q >= 2
      ensures old(pages[p].Inner? ==> |pages[p].keys| == |pages[p].kids|) && pages == SplitPages(old(pages), p, q)
      ensures SplitInHalves(old(pages), p, q, pages)
      ensures Allocated()
    {
      assert PageOk(Conf(), pages, rootId, ranges, ex, p);
      q := NewPage();
      SplitPagesHalves(pages, p, q);
      var pg := pages[p];
      if pg.Inner? {
        forall x | x in pg.kids ensures x in pages {
          KidFacts(Conf(), pages, rootId, ranges, ex, p, x);
        }
        pages := AdoptEach(pages, pg.kids[Half(pg)..], q);
      }
      pages := pages[p := LowerHalf(pg, q)][q := UpperHalf(pg)];
    }

    /** `InsertIntoParent`: links the page split off `p`, splitting ancestors as needed. The tree
        before the split, `s`, was well-formed except that `p` held one entry too many. */
    method InsertIntoParent(p: PageId, key: int, q: PageId, ghost s: Pages)
      requires Allocated() && rootId != INVALID_PAGE_ID
      requires Overfull(Conf(), s, rootId, ranges, p) && PageOk(Conf(), s, rootId, ranges, p, p)
      requires q !in s && q >= 2 && pages == SplitPages(s, p, q) && key == SplitKey(s[p])
      modifies this
      ensures Shaped(INVALID_PAGE_ID) && rootId != INVALID_PAGE_ID
      ensures Entries(pages) == Entries(s)
      ensures old(RootRecorded()) ==> RootRecorded()
      ensures RecordsFollow(old(AsMap(roots)), old(rootId))
      decreases ranges[rootId].level - ranges[p].level
    {
      SplitKeepsEntries(s, p, q);
      if pages[p].IsRootPage() {
        InsertIntoNewRoot(p, key, q, s);
        return;
      }
      var pp := pages[p].parent;
      LinkIntoParent(p, key, q, s);
      assert PageOk(Conf(), pages, rootId, ranges, pp, pp);
      if |pages[pp].kids| > innerMax {
        ghost var s2 := pages;
        var q2 := Split(pp, pp);
        InsertIntoParent(pp, pages[q2].keys[0], q2, s2);
      } else {
        SettleSize(Conf(), pages, rootId, ranges, pp);
      }
    }

    method InsertIntoNewRoot(p: PageId, key: int, q: PageId, ghost s: Pages)
      requires Allocated()
      requires Overfull(Conf(), s, p, ranges, p) && PageOk(Conf(), s, p, ranges, p, p)
      requires q !in s && q >= 2 && pages == SplitPages(s, p, q) && key == SplitKey(s[p])
      modifies this
      ensures Shaped(INVALID_PAGE_ID) && rootId >= 2
      ensures Entries(pages) == Entries(s)
      ensures indexId in old(AsMap(roots)) ==> RootRecorded()
      ensures rootId != p && RecordsFollow(old(AsMap(roots)), p)
    {
      rootId := NewPage();
      GrowWhole(Conf(), s, ranges, p, q, rootId);
      ranges := GrowRanges(ranges, p, key, q, rootId);
      PopulateNewRoot(p, key, q);
      UpdateRootPageId(false);
    }

    method PopulateNewRoot(p: PageId, key: int, q: PageId)
      requires p in pages && q in pages && rootId !in pages && p != q
      modifies this`pages
      ensures pages == GrowPages(old(pages), p, key, q, rootId)
    {
      pages := pages[rootId := Inner(INVALID_PAGE_ID, [0, key], [p, q])];
      pages := pages[p := SetParent(pages[p], rootId)];
      pages := pages[q := SetParent(pages[q], rootId)];
    }

    method LinkIntoParent(p: PageId, key: int, q: PageId, ghost s: Pages)
      requires Allocated() && p != rootId
      requires Overfull(Conf(), s, rootId, ranges, p) && PageOk(Conf(), s, rootId, ranges, p, p)
      requires q !in s && q >= 2 && pages == SplitPages(s, p, q) && key == SplitKey(s[p])
      modifies this`pages, this`ranges
      ensures Allocated() && LinkedInto(Conf(), s, rootId, old(ranges), p, pages, ranges)
      ensures Entries(pages) == Entries(s)
    {
      LinkWhole(Conf(), s, rootId, ranges, p, q);
      var pp := pages[p].parent;
      var parent := pages[pp];
      pages := pages[q := SetParent(pages[q], pp)];
      var at := ValueIndex(parent.kids, p);
      var keys := ShiftIn(parent.keys, at + 1, key);
      var kids := ShiftIn(parent.kids, at + 1, q);
      pages := pages[pp := Inner(parent.parent, keys, kids)];
      assert pages == LinkPages(old(pages), p, key, q);
      ranges := SplitRanges(ranges, p, key, q);
    }

    // ---------- Removal ----------

    /** No ranges at all make the current pages a well-formed tree, and some stored entry is not found by any
        descent from the root. */
    ghost predicate Ruined()
      reads this
    {
      Ruins(Conf(), pages, rootId)
    }

    /** The tree is valid, and the roots page is as accurate as before. */
    ghost predicate Holds(recorded: bool)
      reads this
    {
      Valid() && (recorded ==> RootRecorded())
    }

    /** `Remove`. Every call deletes exactly the entry under `key` from the leaves, and has one of three
        outcomes, decided beforehand: the tree stays well-formed, it is ruined, or (only where internal pages
        hold at most four children) keys are read from page 0. */
    method Remove(key: int)
      requires Valid() && leafMax >= 4
      modifies this
      ensures old(rootId) == INVALID_PAGE_ID ==> pages == old(pages) && rootId == old(rootId) && roots == old(roots)
      ensures Entries(pages) == set e | e in old(Entries(pages)) && e.key != key
      ensures RecordsFollow(old(AsMap(roots)), old(rootId))
      ensures old(rootId) != INVALID_PAGE_ID && old(RemoveOutcome(Conf(), pages, rootId, ranges, key)) == Sound ==>
        Holds(old(RootRecorded()))
      ensures old(rootId) != INVALID_PAGE_ID && old(RemoveOutcome(Conf(), pages, rootId, ranges, key)) == Broken ==>
        Ruined()
    {
      if rootId == INVALID_PAGE_ID {
        return;
      }
      var p := FindLeafPage(key, false, INVALID_PAGE_ID);
      assert PageOk(Conf(), pages, rootId, ranges, INVALID_PAGE_ID, p);
      assert p == HomeLeaf(Conf(), pages, rootId, ranges, key);
      var items := pages[p].items;
      var at := KeyIndex(items, key);
      WriteSeparator(p, at);
      if at < |items| && items[at].key == key {
        assert HoldsKey(items, key) && SlotOfKey(items, key) == at;
        RemovePresent(p, at, old(pages));
      } else {
        AbsentOk(Conf(), old(pages), rootId, ranges, p, at, key);
        KeyAbsent(Conf(), old(pages), rootId, ranges, p, key);
      }
    }

    /** `Remove` once the leaf is known to hold the key: delete the record, then rebalance. `s` are the
        pages before the separator write. */
    method RemovePresent(p: PageId, at: nat, ghost s: Pages)
      requires Allocated() && Inv(Conf(), s, rootId, ranges, INVALID_PAGE_ID) && rootId != INVALID_PAGE_ID
      requires leafMax >= 4
      requires p in s && s[p].Leaf? && at < |s[p].items| && (p != rootId ==> |s[p].items| >= 2)
      requires pages == Presep(s, p, at) && p in pages && pages[p] == s[p]
      modifies this
      ensures Entries(pages) == set e | e in Entries(s) && e.key != s[p].items[at].key
      ensures RecordsFollow(old(AsMap(roots)), old(rootId))
      ensures DeleteOutcome(Conf(), s, old(rootId), old(ranges), p, at) == Sound ==> Holds(old(RootRecorded()))
      ensures DeleteOutcome(Conf(), s, old(rootId), old(ranges), p, at) == Broken ==> Ruined()
    {
      assert PageOk(Conf(), s, rootId, ranges, INVALID_PAGE_ID, p);
      assert s[p].items[at] in Entries(s) by {
        assert s[p].items[at] in s[p].items;
      }
      WithoutKey(Conf(), s, rootId, ranges, s[p].items[at]);
      DeleteOk(Conf(), s, rootId, ranges, p, at);
      var rest := ShiftOut(pages[p].items, at);
      pages := pages[p := SetItems(pages[p], rest)];
      assert pages == DeletedPages(s, p, at);
      ranges := DeletedRanges(s, ranges, p, at);
      if |rest| < (if pages[p].IsRootPage() then 1 else leafMax / 2) {
        CoalesceOrRedistribute(p);
      } else {
        SettleSize(Conf(), pages, rootId, ranges, p);
      }
    }

    /** The separator write that `Remove` does before it looks whether the key is there. */
    method WriteSeparator(p: PageId, at: nat)
      requires Shaped(INVALID_PAGE_ID) && p in pages && pages[p].Leaf? && (p != rootId ==> |pages[p].items| >= 2)
      modifies this`pages
      ensures pages == Presep(old(pages), p, at) && p in pages && pages[p] == old(pages[p])
      ensures Allocated()
    {
      assert PageOk(Conf(), pages, rootId, ranges, INVALID_PAGE_ID, p);
      InvalidIsNoPage(Conf(), pages, rootId, ranges, INVALID_PAGE_ID);
      if at == 0 && !pages[p].IsRootPage() {
        ParentFacts(Conf(), pages, rootId, ranges, INVALID_PAGE_ID, p);
        var pp := pages[p].parent;
        var i := ValueIndex(pages[pp].kids, p);
        pages := pages[pp := SetKeyAt(pages[pp], i, pages[p].items[1].key)];
      }
    }

    /** `AdjustRoot`: an empty root leaf goes, an internal root with one child gives way to it. */
    method AdjustRoot()
      requires Shaped(rootId) && rootId in pages && pages[rootId].Size() == Conf().MinSize(pages[rootId]) - 1
      modifies this
      ensures Holds(old(RootRecorded())) && Entries(pages) == old(Entries(pages))
      ensures rootId != old(rootId) && RecordsFollow(old(AsMap(roots)), old(rootId))
    {
      assert PageOk(Conf(), pages, rootId, ranges, rootId, rootId);
      if pages[rootId].Leaf? {
        OnlyRootLeaf(Conf(), pages, rootId, ranges, rootId);
        assert Entries(pages) == {};
        pages, ranges := map[], map[];
        rootId := INVALID_PAGE_ID;
        UpdateRootPageId(false);
        return;
      }
      CollapseKeepsInv(Conf(), pages, rootId, ranges);
      InvalidIsNoPage(Conf(), pages, rootId, ranges, rootId);
      var newRoot := pages[rootId].kids[0];
      ranges := ranges - {rootId};
      pages := pages[newRoot := SetParent(pages[newRoot], INVALID_PAGE_ID)] - {rootId};
      rootId := newRoot;
      UpdateRootPageId(false);
    }

    /** `MoveAllTo`: the content of page `b` goes behind that of page `a`, and children get the new parent. */
    method MoveAll(a: PageId, b: PageId, middleKey: int)
      requires a in pages && b in pages && (pages[a].Leaf? <==> pages[b].Leaf?)
      requires pages[b].Inner? ==>
        |pages[b].keys| >= 1 && forall j :: 0 <= j < |pages[b].kids| ==> pages[b].kids[j] in pages
      modifies this`pages
      ensures var moved := if old(pages[b].Leaf?) then old(pages) else Adopt(old(pages), old(pages[b]).kids, a);
        pages == moved[a := MergedPage(old(pages[a]), old(pages[b]), middleKey)]
    {
      var left, right := pages[a], pages[b];
      if right.Leaf? {
        pages := pages[a := Leaf(left.parent, right.next, left.items + right.items)];
      } else {
        pages := AdoptEach(pages, right.kids, a);
        pages := pages[a := Inner(left.parent, left.keys + [middleKey] + right.keys[1..], left.kids + right.kids)];
      }
    }

    /** The right one of two neighbours moves into the left one and is deleted. */
    method MoveAllAndDelete(pp: PageId, i: nat, a: PageId, b: PageId, ghost ex: PageId)
      requires Shaped(ex) && Neighbours(pages, pp, i, a, b) && (ex == a || ex == b) && (i == 1 || ex == b)
      requires pages[ex].Size() == Conf().MinSize(pages[ex]) - 1 && leafMax >= 4
      requires pages[a].Size() + pages[b].Size() <= Conf().MaxSize(pages[a])
      modifies this`pages, this`ranges
      ensures (old(pages[a]).Leaf? <==> old(pages[b]).Leaf?)
      ensures old(pages[a]).Inner? ==> |old(pages[b]).keys| >= 1
      ensures pages == MergePages(old(pages), pp, i, a, b) && ranges == MergeRanges(old(ranges), a, b)
      ensures Allocated()
    {
      MergeWhole(Conf(), pages, rootId, ranges, ex, pp, i, a, b);
      assert a != pp && b != pp && a != b by {
        NeighbourFacts(Conf(), pages, rootId, ranges, ex, pp, i, a, b);
      }
      var parent := pages[pp];
      if pages[b].Inner? {
        forall j | 0 <= j < |pages[b].kids| ensures pages[b].kids[j] in pages {
          KidFacts(Conf(), pages, rootId, ranges, ex, b, pages[b].kids[j]);
        }
      }
      MoveAll(a, b, parent.keys[i]);
      var keys := ShiftOut(parent.keys, i);
      var kids := ShiftOut(parent.kids, i);
      pages := pages[pp := Inner(parent.parent, keys, kids)];
      pages := pages - {b};
      ranges := MergeRanges(ranges, a, b);
    }

    /** `Coalesce`: merges two neighbours and passes a shortage on to their parent. */
    method Coalesce(pp: PageId, i: nat, a: PageId, b: PageId, ghost ex: PageId)
      requires Shaped(ex) && Neighbours(pages, pp, i, a, b) && (ex == a || ex == b) && (i == 1 || ex == b)
      requires pages[ex].Size() == Conf().MinSize(pages[ex]) - 1 && leafMax >= 4
      requires pages[a].Size() + pages[b].Size() <= Conf().MaxSize(pages[a])
      modifies this
      ensures Entries(pages) == old(Entries(pages))
      ensures RecordsFollow(old(AsMap(roots)), old(rootId))
      ensures old(Fate(Conf(), pages, rootId, ranges, ex, ex, pages[ex].Size())) == Sound ==> Holds(old(RootRecorded()))
      ensures old(Fate(Conf(), pages, rootId, ranges, ex, ex, pages[ex].Size())) == Broken ==> Ruined()
      decreases ranges[rootId].level - ranges[ex].level, 0
    {
      assert PageOk(Conf(), pages, rootId, ranges, ex, ex);
      MergeWhole(Conf(), pages, rootId, ranges, ex, pp, i, a, b);
      InvalidIsNoPage(Conf(), pages, rootId, ranges, ex);
      MoveAllAndDelete(pp, i, a, b, ex);
      if pages[pp].Size() < (if pages[pp].IsRootPage() then 2 else (innerMax - 1) / 2 + 1) {
        CoalesceOrRedistribute(pp);
      } else {
        SettleSize(Conf(), pages, rootId, ranges, pp);
      }
    }

    /** `CoalesceOrRedistribute`: page `p` is one entry short. */
    method CoalesceOrRedistribute(p: PageId)
      requires Shaped(p) && p in pages && pages[p].Size() == Conf().MinSize(pages[p]) - 1 && leafMax >= 4
      modifies this
      ensures Entries(pages) == old(Entries(pages))
      ensures RecordsFollow(old(AsMap(roots)), old(rootId))
      ensures old(Fate(Conf(), pages, rootId, ranges, p, p, pages[p].Size())) == Sound ==> Holds(old(RootRecorded()))
      ensures old(Fate(Conf(), pages, rootId, ranges, p, p, pages[p].Size())) == Broken ==> Ruined()
      decreases ranges[rootId].level - ranges[p].level, 1
    {
      assert PageOk(Conf(), pages, rootId, ranges, p, p);
      if pages[p].IsRootPage() {
        AdjustRoot();
        return;
      }
      var index, p2 := FindSibling(p);
      var pp := pages[p].parent;
      var a, b, i := p2, p, index;
      if index == 0 {
        a, b, i := p, p2, 1;
      }
      NeighbourFacts(Conf(), pages, rootId, ranges, p, pp, i, a, b);
      if pages[p].Size() + pages[p2].Size() <= (if pages[p].Leaf? then leafMax else innerMax) {
        Coalesce(pp, i, a, b, p);
      } else {
        Redistribute(pp, i, a, b, index == 0);
      }
    }

    /** `FindSibling`: the slot of `p` in its parent, and the page in the slot before it, or in slot 1. */
    method FindSibling(p: PageId) returns (index: nat, sibling: PageId)
      requires Shaped(p) && p in pages && p != rootId
      ensures var pp := pages[p].parent;
        if index == 0 then Neighbours(pages, pp, 1, p, sibling) else Neighbours(pages, pp, index, sibling, p)
    {
      ParentFacts(Conf(), pages, rootId, ranges, p, p);
      var pp := pages[p].parent;
      assert PageOk(Conf(), pages, rootId, ranges, p, pp);
      var slot := ValueIndex(pages[pp].kids, p);
      index := slot;
      sibling := pages[pp].kids[if index == 0 then 1 else index - 1];
      KidFacts(Conf(), pages, rootId, ranges, p, pp, sibling);
    }

    method Redistribute(pp: PageId, i: nat, a: PageId, b: PageId, left: bool)
      requires Shaped(if left then a else b) && Neighbours(pages, pp, i, a, b) && (left ==> i == 1)
      requires var pg := pages[if left then a else b];
        && pg.Size() == Conf().MinSize(pg) - 1
        && pages[a].Size() + pages[b].Size() > Conf().MaxSize(pg) && leafMax >= 4
      modifies this`pages, this`ranges
      ensures Entries(pages) == old(Entries(pages))
      ensures var ex := if left then a else b;
        old(Fate(Conf(), pages, rootId, ranges, ex, ex, pages[ex].Size())) == Sound ==> Holds(old(RootRecorded()))
      ensures var ex := if left then a else b;
        old(Fate(Conf(), pages, rootId, ranges, ex, ex, pages[ex].Size())) == Broken ==> Ruined()
    {
      ghost var ex := if left then a else b;
      FateOfBorrow(Conf(), pages, rootId, ranges, ex, pp, i, a, b, left);
      InvalidIsNoPage(Conf(), pages, rootId, ranges, ex);
      if pages[a].Leaf? {
        RedistributeLeaves(pp, i, a, b, left);
      } else {
        BorrowIsReady(Conf(), pages, rootId, ranges, pp, i, a, b, left);
        RedistributeInner(pp, i, a, b, left);
      }
    }

    /** `Redistribute` between leaves: `a` in slot `i - 1` and `b` in slot `i` of `pp`; `left` when `a` is
        the short one. The separator is read through a descent and the leaf chain, as in the source. */
    method RedistributeLeaves(pp: PageId, i: nat, a: PageId, b: PageId, left: bool)
      requires Allocated() && LeafBorrowReady(Conf(), pages, rootId, ranges, pp, i, a, b, left)
      modifies this`pages, this`ranges
      ensures Shaped(INVALID_PAGE_ID) && Entries(pages) == old(Entries(pages))
      ensures var s := old(pages); s[a].Leaf? && s[b].Leaf? && LeafBorrowed(s, pp, i, a, b, left, pages)
    {
      LeafBorrowOk(Conf(), pages, rootId, ranges, pp, i, a, b, left);
      assert a != b && a != pp && b != pp by {
        NeighbourFacts(Conf(), pages, rootId, ranges, if left then a else b, pp, i, a, b);
      }
      var key := ReadSeparator(pp, i, a, b, left);
      MoveEntry(pp, i, a, b, left, key);
      ranges := ShiftRanges(ranges, key, a, b);
    }

    /** The new separator, read through a descent and the leaf chain. */
    method ReadSeparator(pp: PageId, i: nat, a: PageId, b: PageId, left: bool) returns (key: int)
      requires LeafBorrowReady(Conf(), pages, rootId, ranges, pp, i, a, b, left) && Allocated() && |pages[a].items| >= 1
      requires if left then |pages[b].items| >= 2 else |pages[a].items| >= 2
      ensures key == BorrowKey(pages[a].items, pages[b].items, left)
    {
      var pre, middle := ReadBoundary(pp, i, a, b, left);
      key := if left then pages[middle].items[1].key else pages[pre].items[|pages[pre].items| - 1].key;
    }

    /** The separator above and one entry move: the first of `b` behind `a`, or the last of `a` before `b`. */
    method MoveEntry(pp: PageId, i: nat, a: PageId, b: PageId, left: bool, key: int)
      requires Neighbours(pages, pp, i, a, b) && pages[a].Leaf? && pages[b].Leaf? && a != b && a != pp && b != pp
      requires if left then |pages[b].items| >= 2 else |pages[a].items| >= 2
      modifies this`pages
      ensures var xs, ys := old(pages[a].items), old(pages[b].items);
        pages == ShiftPages(old(pages), pp, i, key, a, BorrowA(xs, ys, left), b, BorrowB(xs, ys, left))
    {
      var pa, pb := pages[a], pages[b];
      var n := |pa.items| - 1;
      pages := pages[pp := SetKeyAt(pages[pp], i, key)];
      if left {
        var rest := ShiftOut(pb.items, 0);
        assert rest == pb.items[1..];
        pages := pages[a := SetItems(pa, pa.items + [pb.items[0]])];
        pages := pages[b := SetItems(pb, rest)];
      } else {
        var grown := ShiftIn(pb.items, 0, pa.items[n]);
        assert grown == [pa.items[n]] + pb.items;
        pages := pages[a := SetItems(pa, pa.items[..n])];
        pages := pages[b := SetItems(pb, grown)];
      }
    }

    method ReadBoundary(pp: PageId, i: nat, a: PageId, b: PageId, left: bool) returns (pre: PageId, middle: PageId)
      requires LeafBorrowReady(Conf(), pages, rootId, ranges, pp, i, a, b, left) && Allocated() && |pages[a].items| >= 1
      ensures pre == a && middle == b
    {
      InvalidIsNoPage(Conf(), pages, rootId, ranges, if left then a else b);
      pre := FindLeafPage(pages[a].items[|pages[a].items| - 1].key, false, if left then a else b);
      LeafBorrowReads(Conf(), pages, rootId, ranges, pp, i, a, b, left, pre);
      middle := pages[pre].next;
    }

    /** The key in a leaf's first slot; what a page that is no leaf of this tree holds there is unknown. */
    method FirstKey(p: PageId) returns (key: int)
      ensures FirstKeyOf(pages, p, key)
    {
      if p in pages && pages[p].Leaf? && |pages[p].items| >= 1 {
        key := pages[p].items[0].key;
      } else {
        key := *;
      }
    }

    method NextPageId(p: PageId) returns (next: PageId)
      ensures p in pages && pages[p].Leaf? ==> next == pages[p].next
    {
      if p in pages && pages[p].Leaf? {
        next := pages[p].next;
      } else {
        next := *;
      }
    }

    /** The keys a borrow between internal pages reads: the first of the leaf after the one that a descent by the
        last key of `a` finds, and the first of the leaf after that, or of the one found. */
    method ReadKeys(a: PageId, left: bool, ghost ex: PageId) returns (pre: PageId, middleKey: int, separator: int)
      requires rootId != INVALID_PAGE_ID && Shaped(ex) && a in pages && pages[a].Inner? && |pages[a].keys| >= 1
      ensures pre in pages && pages[pre].Leaf? && Within(Last(pages[a].keys), ranges[pre])
      ensures KeysRead(pages, pre, left, middleKey, separator)
    {
      pre := FindLeafPage(pages[a].keys[|pages[a].keys| - 1], false, ex);
      var middle := pages[pre].next;
      var after := NextPageId(middle);
      middleKey := FirstKey(middle);
      separator := FirstKey(if left then after else pre);
    }

    /** `Redistribute` between internal pages. */
    method RedistributeInner(pp: PageId, i: nat, a: PageId, b: PageId, left: bool)
      requires Shaped(if left then a else b) && BorrowReady(Conf(), pages, rootId, ranges, pp, i, a, b, left)
      requires (left ==> i == 1)
      modifies this`pages, this`ranges
      ensures Allocated() && Entries(pages) == old(Entries(pages))
      ensures var s := old(pages); s[a].Inner? && s[b].Inner? && ChildBorrowed(s, pp, i, a, b, left, pages)
      ensures old(BorrowOutcome(pages, ranges, a)) == Sound ==> Shaped(INVALID_PAGE_ID)
      ensures old(BorrowOutcome(pages, ranges, a)) == Broken ==> Ruined()
    {
      ghost var ex := if left then a else b;
      BorrowIsReady(Conf(), pages, rootId, ranges, pp, i, a, b, left);
      InvalidIsNoPage(Conf(), pages, rootId, ranges, ex);
      var pre, middleKey, separator := ReadKeys(a, left, ex);
      ranges := BorrowEnds(Conf(), pages, rootId, ranges, pp, i, a, b, left, pre, middleKey, separator);
      MoveChild(pp, i, a, b, left, middleKey, separator);
    }

    /** The slot moves of a borrow: the separator above, the moved pair, and the child's parent id. */
    method MoveChild(pp: PageId, i: nat, a: PageId, b: PageId, left: bool, middleKey: int, separator: int)
      requires Allocated() && Neighbours(pages, pp, i, a, b) && pages[a].Inner? && pages[b].Inner?
      requires |pages[a].keys| == |pages[a].kids| >= 1 && |pages[b].keys| == |pages[b].kids| >= 1
      requires a != pp && b != pp && a != b
      requires var m := Moved(pages, a, b, left); m in pages && m != a && m != b && m != pp
      modifies this`pages
      ensures Allocated() && pages == BorrowPages(old(pages), pp, i, a, b, left, middleKey, separator)
      ensures ChildBorrowed(old(pages), pp, i, a, b, left, pages)
    {
      BorrowMovesChild(pages, pp, i, a, b, left, middleKey, separator);
      var pa, pb := pages[a], pages[b];
      pages := pages[pp := SetKeyAt(pages[pp], i, separator)];
      if left {
        var m := pb.kids[0];
        var keys := ShiftOut(pb.keys, 0);
        var kids := ShiftOut(pb.kids, 0);
        assert keys == pb.keys[1..] && kids == pb.kids[1..];
        pages := pages[m := SetParent(pages[m], a)];
        pages := pages[a := Inner(pa.parent, pa.keys + [middleKey], pa.kids + [m])];
        pages := pages[b := Inner(pb.parent, keys, kids)];
      } else {
        var n := |pa.kids| - 1;
        var m := pa.kids[n];
        var keys := ShiftIn(pb.keys, 0, pa.keys[n]);
        var kids := ShiftIn(pb.kids, 0, m);
        keys := keys[1 := middleKey];
        assert keys == [pa.keys[n], middleKey] + pb.keys[1..] && kids == [m] + pb.kids;
        pages := pages[m := SetParent(pages[m], b)];
        pages := pages[b := Inner(pb.parent, keys, kids)];
        pages := pages[a := Inner(pa.parent, pa.keys[..n], pa.kids[..n])];
      }
    }
  }
}
