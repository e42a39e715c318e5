/** Removal on the page store: moving the boundary between neighbouring pages, merging them,
    and collapsing a root with one child. */
module BTreeRemove {
  import opened BTreePages
  import opened BTreeShape
  import opened BTreeInsert
  import opened BTreeSearch

  function SetKeyAt(pg: Page, i: nat, key: int): Page
    requires pg.Inner? && i < |pg.keys|
  {
    Inner(pg.parent, pg.keys[i := key], pg.kids)
  }

  function SetItems(pg: Page, items: seq<Entry>): Page
    requires pg.Leaf?
  {
    Leaf(pg.parent, pg.next, items)
  }

  /** Two neighbouring children, in slots `i - 1` and `i` of page `pp`. */
  ghost predicate Neighbours(s: Pages, pp: PageId, i: nat, a: PageId, b: PageId) {
    && pp in s && s[pp].Inner? && |s[pp].keys| == |s[pp].kids| && 1 <= i < |s[pp].kids|
    && a == s[pp].kids[i - 1] && b == s[pp].kids[i] && a in s && b in s
  }

  lemma NeighbourFacts(c: Config, s: Pages, root: PageId, g: Ranges, ex: PageId, pp: PageId, i: nat, a: PageId,
                       b: PageId)
    requires Inv(c, s, root, g, ex) && Neighbours(s, pp, i, a, b)
    ensures PageOk(c, s, root, g, ex, pp) && PageOk(c, s, root, g, ex, a) && PageOk(c, s, root, g, ex, b)
    ensures a != b && a != pp && b != pp && a != root && b != root
    ensures s[a].parent == pp && s[b].parent == pp && g[a].hi == g[b].lo == At(s[pp].keys[i])
    ensures g[a].level == g[b].level && g[a].level + 1 == g[pp].level
    ensures g[a].lo == ChildLo(g[pp], s[pp].keys, i - 1) && g[b].hi == ChildHi(g[pp], s[pp].keys, i)
    ensures s[a].Leaf? <==> s[b].Leaf?
  {
  }

  /** A separator moved strictly between its neighbours keeps the order of separators. */
  lemma SeparatorMoves(keys: seq<int>, r: Range, i: nat, key: int)
    requires SortedKeys(keys) && 1 <= i < |keys|
    requires forall j :: 1 <= j < |keys| ==> Less(r.lo, At(keys[j])) && Less(At(keys[j]), r.hi)
    requires Less(ChildLo(r, keys, i - 1), At(key)) && Less(At(key), ChildHi(r, keys, i))
    ensures var keys2 := keys[i := key];
      && SortedKeys(keys2)
      && (forall j :: 1 <= j < |keys2| ==> Less(r.lo, At(keys2[j])) && Less(At(keys2[j]), r.hi))
      && forall j :: 0 <= j < |keys2| ==>
        && ChildLo(r, keys2, j) == (if j == i then At(key) else ChildLo(r, keys, j))
        && ChildHi(r, keys2, j) == (if j == i - 1 then At(key) else ChildHi(r, keys, j))
  {
  }

  /** The slot-0 key of an internal page is not part of the tree. */
  lemma Slot0Free(c: Config, s: Pages, root: PageId, g: Ranges, ex: PageId, p: PageId, key: int)
    requires Inv(c, s, root, g, ex) && p in s && s[p].Inner? && |s[p].keys| >= 1
    ensures Inv(c, s[p := SetKeyAt(s[p], 0, key)], root, g, ex)
    ensures Entries(s[p := SetKeyAt(s[p], 0, key)]) == Entries(s)
  {
    var s2 := s[p := SetKeyAt(s[p], 0, key)];
    forall x | x in s2 ensures PageOk(c, s2, root, g, ex, x) {
      Slot0FreeAt(c, s, root, g, ex, p, key, x);
    }
    SameLeavesSameEntries(s, s2);
  }

  lemma Slot0FreeAt(c: Config, s: Pages, root: PageId, g: Ranges, ex: PageId, p: PageId, key: int, x: PageId)
    requires Inv(c, s, root, g, ex) && p in s && s[p].Inner? && |s[p].keys| >= 1 && x in s
    ensures PageOk(c, s[p := SetKeyAt(s[p], 0, key)], root, g, ex, x)
  {
    var s2 := s[p := SetKeyAt(s[p], 0, key)];
    assert PageOk(c, s, root, g, ex, x);
    if s[x].Inner? {
      forall i | 0 <= i < |s[x].kids| ensures ChildOk(s2, g, x, i) {
        assert ChildOk(s, g, x, i);
        assert s2[x].kids[i] == s[x].kids[i];
        assert ChildLo(g[x], s2[x].keys, i) == ChildLo(g[x], s[x].keys, i);
        assert ChildHi(g[x], s2[x].keys, i) == ChildHi(g[x], s[x].keys, i);
      }
      assert forall i :: 1 <= i < |s[x].keys| ==> s2[x].keys[i] == s[x].keys[i];
      assert InnerOk(s2, g, x);
    } else {
      assert LeafOk(s2, g, x);
    }
  }

  // ---------- Moving the boundary between two neighbouring leaves ----------

  function ShiftPages(s: Pages, pp: PageId, i: nat, key: int, a: PageId, itemsA: seq<Entry>, b: PageId,
                      itemsB: seq<Entry>): Pages
    requires Neighbours(s, pp, i, a, b) && s[a].Leaf? && s[b].Leaf?
  {
    s[pp := SetKeyAt(s[pp], i, key)][a := SetItems(s[a], itemsA)][b := SetItems(s[b], itemsB)]
  }

  function ShiftRanges(g: Ranges, key: int, a: PageId, b: PageId): Ranges
    requires a in g && b in g
  {
    g[a := Range(g[a].level, g[a].lo, At(key))][b := Range(g[b].level, At(key), g[b].hi)]
  }

  ghost predicate ShiftStep(c: Config, s: Pages, root: PageId, g: Ranges, ex: PageId, ex2: PageId,
                            pp: PageId, i: nat, key: int, a: PageId, itemsA: seq<Entry>, b: PageId,
                            itemsB: seq<Entry>) {
    && Inv(c, s, root, g, ex) && Neighbours(s, pp, i, a, b) && s[a].Leaf? && s[b].Leaf?
    && (ex == ex2 || ((ex == a || ex == b || ex !in s) && (ex2 == a || ex2 == b || ex2 !in s)))
    && Sorted(itemsA) && Sorted(itemsB)
    && (forall j :: 0 <= j < |itemsA| ==> Within(itemsA[j].key, Range(0, g[a].lo, At(key))))
    && (forall j :: 0 <= j < |itemsB| ==> Within(itemsB[j].key, Range(0, At(key), g[b].hi)))
    && Less(g[a].lo, At(key)) && Less(At(key), g[b].hi)
    && SizeOk(c, SetItems(s[a], itemsA), a == ex2) && SizeOk(c, SetItems(s[b], itemsB), b == ex2)
  }

  lemma ShiftParentOk(c: Config, s: Pages, root: PageId, g: Ranges, ex: PageId, ex2: PageId,
                      pp: PageId, i: nat, key: int, a: PageId, itemsA: seq<Entry>, b: PageId, itemsB: seq<Entry>)
    requires ShiftStep(c, s, root, g, ex, ex2, pp, i, key, a, itemsA, b, itemsB)
    ensures PageOk(c, ShiftPages(s, pp, i, key, a, itemsA, b, itemsB), root, ShiftRanges(g, key, a, b), ex2, pp)
  {
    var s2, g2 := ShiftPages(s, pp, i, key, a, itemsA, b, itemsB), ShiftRanges(g, key, a, b);
    NeighbourFacts(c, s, root, g, ex, pp, i, a, b);
    SeparatorMoves(s[pp].keys, g[pp], i, key);
    forall j | 0 <= j < |s[pp].kids| ensures ChildOk(s2, g2, pp, j) {
      assert ChildOk(s, g, pp, j);
      assert s2[pp].kids[j] == s[pp].kids[j];
    }
    assert InnerOk(s2, g2, pp);
  }

  lemma ShiftLeavesOk(c: Config, s: Pages, root: PageId, g: Ranges, ex: PageId, ex2: PageId,
                      pp: PageId, i: nat, key: int, a: PageId, itemsA: seq<Entry>, b: PageId, itemsB: seq<Entry>)
    requires ShiftStep(c, s, root, g, ex, ex2, pp, i, key, a, itemsA, b, itemsB)
    ensures PageOk(c, ShiftPages(s, pp, i, key, a, itemsA, b, itemsB), root, ShiftRanges(g, key, a, b), ex2, a)
    ensures PageOk(c, ShiftPages(s, pp, i, key, a, itemsA, b, itemsB), root, ShiftRanges(g, key, a, b), ex2, b)
  {
    NeighbourFacts(c, s, root, g, ex, pp, i, a, b);
    NextNeighbour(c, s, root, g, ex, a, b);
    var s2, g2 := ShiftPages(s, pp, i, key, a, itemsA, b, itemsB), ShiftRanges(g, key, a, b);
    assert s2[pp].kids == s[pp].kids;
    assert LeafOk(s2, g2, a);
    assert LeafOk(s2, g2, b);
  }

  /** A leaf's next pointer is determined by its upper bound. */
  lemma NextNeighbour(c: Config, s: Pages, root: PageId, g: Ranges, ex: PageId, a: PageId, b: PageId)
    requires Inv(c, s, root, g, ex) && a in s && b in s && s[a].Leaf? && s[b].Leaf?
    requires g[a].hi.At? && g[b].lo == g[a].hi
    ensures s[a].next == b
  {
    assert PageOk(c, s, root, g, ex, a);
    assert PageOk(c, s, root, g, ex, b);
    var n := s[a].next;
    assert PageOk(c, s, root, g, ex, n);
    OnePagePerKey(c, s, root, g, ex, n, b, g[b].lo.k);
  }

  /** Only one leaf ends where a given leaf starts. */
  lemma PrevUnique(c: Config, s: Pages, root: PageId, g: Ranges, ex: PageId, a: PageId, x: PageId)
    requires Inv(c, s, root, g, ex) && a in s && x in s && s[a].Leaf? && s[x].Leaf?
    requires g[a].hi.At? && g[x].hi == g[a].hi
    ensures x == a
  {
    assert PageOk(c, s, root, g, ex, a);
    assert PageOk(c, s, root, g, ex, x);
    OnePagePerKey(c, s, root, g, ex, a, x, g[a].hi.k - 1);
  }

  lemma ShiftOtherOk(c: Config, s: Pages, root: PageId, g: Ranges, ex: PageId, ex2: PageId,
                     pp: PageId, i: nat, key: int, a: PageId, itemsA: seq<Entry>, b: PageId, itemsB: seq<Entry>,
                     x: PageId)
    requires ShiftStep(c, s, root, g, ex, ex2, pp, i, key, a, itemsA, b, itemsB)
    requires x in s && x != pp && x != a && x != b
    ensures PageOk(c, ShiftPages(s, pp, i, key, a, itemsA, b, itemsB), root, ShiftRanges(g, key, a, b), ex2, x)
  {
    var s2, g2 := ShiftPages(s, pp, i, key, a, itemsA, b, itemsB), ShiftRanges(g, key, a, b);
    NeighbourFacts(c, s, root, g, ex, pp, i, a, b);
    assert PageOk(c, s, root, g, ex, x);
    if s[x].Inner? {
      forall j | 0 <= j < |s[x].kids| ensures KidKept(s, g, s2, g2, s[x].kids[j], x) {
        KidFacts(c, s, root, g, ex, x, s[x].kids[j]);
      }
      InnerFrame(s, g, s2, g2, x);
    } else {
      if !g[x].hi.PosInf? && s[x].next == b {
        PrevUnique(c, s, root, g, ex, a, x);
      }
      assert LeafOk(s2, g2, x);
    }
  }

  /** Neighbouring leaves may exchange entries as long as the separator moves with them. */
  lemma ShiftKeepsInv(c: Config, s: Pages, root: PageId, g: Ranges, ex: PageId, ex2: PageId,
                      pp: PageId, i: nat, key: int, a: PageId, itemsA: seq<Entry>, b: PageId, itemsB: seq<Entry>)
    requires ShiftStep(c, s, root, g, ex, ex2, pp, i, key, a, itemsA, b, itemsB)
    ensures Inv(c, ShiftPages(s, pp, i, key, a, itemsA, b, itemsB), root, ShiftRanges(g, key, a, b), ex2)
  {
    var s2, g2 := ShiftPages(s, pp, i, key, a, itemsA, b, itemsB), ShiftRanges(g, key, a, b);
    NeighbourFacts(c, s, root, g, ex, pp, i, a, b);
    forall x | x in s2 ensures PageOk(c, s2, root, g2, ex2, x) {
      if x == pp {
        ShiftParentOk(c, s, root, g, ex, ex2, pp, i, key, a, itemsA, b, itemsB);
      } else if x == a || x == b {
        ShiftLeavesOk(c, s, root, g, ex, ex2, pp, i, key, a, itemsA, b, itemsB);
      } else {
        ShiftOtherOk(c, s, root, g, ex, ex2, pp, i, key, a, itemsA, b, itemsB, x);
      }
    }
  }

  /** Redistributing entries among pages does not change what the tree holds. */
  lemma SameJointEntries(s: Pages, s2: Pages, a: PageId, b: PageId)
    requires s2.Keys == s.Keys && a in s && b in s && s[a].Leaf? && s[b].Leaf?
    requires forall x {:trigger s2[x]} :: x in s ==> (s2[x].Leaf? <==> s[x].Leaf?)
    requires forall x {:trigger s2[x]} :: x in s && s[x].Leaf? && x != a && x != b ==> s2[x].items == s[x].items
    requires s2[a].items + s2[b].items == s[a].items + s[b].items
    ensures Entries(s2) == Entries(s)
  {
    forall e ensures e in Entries(s) <==> e in Entries(s2) {
      assert e in s[a].items + s[b].items <==> e in s2[a].items + s2[b].items;
      if e in Entries(s) {
        var x :| x in s && s[x].Leaf? && e in s[x].items;
        if x == a || x == b {
          assert e in s2[a].items || e in s2[b].items;
        } else {
          assert e in s2[x].items;
        }
      }
      if e in Entries(s2) {
        var x :| x in s2 && s2[x].Leaf? && e in s2[x].items;
        if x == a || x == b {
          assert e in s[a].items || e in s[b].items;
        } else {
          assert e in s[x].items;
        }
      }
    }
  }

  lemma RemovedEntries(c: Config, s: Pages, root: PageId, g: Ranges, ex: PageId, p: PageId, at: nat, s2: Pages)
    requires Inv(c, s, root, g, ex) && p in s && s[p].Leaf? && at < |s[p].items| && s2.Keys == s.Keys
    requires forall x {:trigger s2[x]} :: x in s ==> (s2[x].Leaf? <==> s[x].Leaf?)
    requires forall x {:trigger s2[x]} :: x in s && s[x].Leaf? && x != p ==> s2[x].items == s[x].items
    requires s2[p].items == RemoveAt(s[p].items, at)
    ensures Entries(s2) == Entries(s) - {s[p].items[at]}
  {
    var d := s[p].items[at];
    assert PageOk(c, s, root, g, ex, p);
    forall e ensures e in Entries(s2) <==> e in Entries(s) && e != d {
      if e in Entries(s) && e != d {
        var x :| x in s && s[x].Leaf? && e in s[x].items;
        if x == p {
          var j :| 0 <= j < |s[p].items| && s[p].items[j] == e;
          assert s2[p].items[if j < at then j else j - 1] == e;
        }
        assert e in s2[x].items;
      }
      if e in Entries(s2) {
        var x :| x in s2 && s2[x].Leaf? && e in s2[x].items;
        assert e in s[x].items;
        EntryInRange(c, s, root, g, ex, x, e);
        if e == d {
          OnePagePerKey(c, s, root, g, ex, x, p, e.key);
        }
      }
    }
  }

  /** Taking an entry out of a leaf leaves it at most one entry short. */
  lemma LeafRemoveKeepsInv(c: Config, s: Pages, root: PageId, g: Ranges, p: PageId, at: nat)
    requires Inv(c, s, root, g, INVALID_PAGE_ID) && p in s && s[p].Leaf? && at < |s[p].items|
    ensures Inv(c, s[p := SetItems(s[p], RemoveAt(s[p].items, at))], root, g, p)
  {
    var s2 := s[p := SetItems(s[p], RemoveAt(s[p].items, at))];
    forall x | x in s2 ensures PageOk(c, s2, root, g, p, x) {
      assert PageOk(c, s, root, g, INVALID_PAGE_ID, x);
      if s[x].Inner? {
        forall i | 0 <= i < |s[x].kids| ensures KidKept(s, g, s2, g, s[x].kids[i], x) {
          assert ChildOk(s, g, x, i);
        }
        InnerFrame(s, g, s2, g, x);
      }
    }
  }

  // ---------- Merging two neighbouring pages ----------

  function MergedPage(a: Page, b: Page, middleKey: int): Page
    requires a.Leaf? <==> b.Leaf?
    requires a.Inner? ==> |b.keys| >= 1
  {
    if a.Leaf? then Leaf(a.parent, b.next, a.items + b.items)
    else Inner(a.parent, a.keys + [middleKey] + b.keys[1..], a.kids + b.kids)
  }

  /** `Coalesce`: the right neighbour's content moves to the left one, and its slot and page go. */
  function MergePages(s: Pages, pp: PageId, i: nat, a: PageId, b: PageId): Pages
    requires Neighbours(s, pp, i, a, b) && (s[a].Leaf? <==> s[b].Leaf?) && (s[a].Inner? ==> |s[b].keys| >= 1)
  {
    var merged := MergedPage(s[a], s[b], s[pp].keys[i]);
    var parent := Inner(s[pp].parent, RemoveAt(s[pp].keys, i), RemoveAt(s[pp].kids, i));
    (if s[a].Leaf? then s else Adopt(s, s[b].kids, a))[a := merged][pp := parent] - {b}
  }

  function MergeRanges(g: Ranges, a: PageId, b: PageId): Ranges
    requires a in g && b in g
  {
    g[a := Range(g[a].level, g[a].lo, g[b].hi)] - {b}
  }

  /** Page by page, the store after a merge. */
  ghost predicate Merged(s: Pages, pp: PageId, i: nat, a: PageId, b: PageId, s2: Pages) {
    && Neighbours(s, pp, i, a, b) && (s[a].Leaf? <==> s[b].Leaf?) && (s[a].Inner? ==> |s[b].keys| == |s[b].kids| >= 1)
    && s2.Keys == s.Keys - {b}
    && a != pp && a != b && pp != b
    && s2[a] == MergedPage(s[a], s[b], s[pp].keys[i])
    && s2[pp] == Inner(s[pp].parent, RemoveAt(s[pp].keys, i), RemoveAt(s[pp].kids, i))
    && forall x {:trigger s2[x]} :: x in s && x != a && x != b && x != pp ==>
      s2[x] == if s[b].Inner? && x in s[b].kids then SetParent(s[x], a) else s[x]
  }

  ghost predicate MergeStep(c: Config, s: Pages, root: PageId, g: Ranges, ex: PageId, pp: PageId, i: nat, a: PageId,
                            b: PageId, s2: Pages, g2: Ranges) {
    && Inv(c, s, root, g, ex) && Merged(s, pp, i, a, b, s2) && g2 == MergeRanges(g, a, b)
    && (ex == a || ex == b) && b != root
    && c.MinSize(s[a]) <= s[a].Size() + s[b].Size() <= c.MaxSize(s[a]) && s[a].Size() + s[b].Size() >= 1
  }

  lemma MergeIsMerged(c: Config, s: Pages, root: PageId, g: Ranges, ex: PageId, pp: PageId, i: nat, a: PageId,
                      b: PageId)
    requires Inv(c, s, root, g, ex) && Neighbours(s, pp, i, a, b)
    ensures (s[a].Leaf? <==> s[b].Leaf?) && (s[a].Inner? ==> |s[b].keys| >= 1)
    ensures Merged(s, pp, i, a, b, MergePages(s, pp, i, a, b))
  {
    NeighbourFacts(c, s, root, g, ex, pp, i, a, b);
  }

  lemma MergedSeparators(a: Page, b: Page, ga: Range, gb: Range, mid: int)
    requires a.Inner? && b.Inner? && |a.keys| == |a.kids| >= 1 && |b.keys| == |b.kids| >= 1
    requires SortedKeys(a.keys) && SortedKeys(b.keys) && ga.hi == gb.lo == At(mid) && Less(ga.lo, ga.hi)
    requires Less(gb.lo, gb.hi)
    requires forall j :: 1 <= j < |a.keys| ==> Less(ga.lo, At(a.keys[j])) && Less(At(a.keys[j]), ga.hi)
    requires forall j :: 1 <= j < |b.keys| ==> Less(gb.lo, At(b.keys[j])) && Less(At(b.keys[j]), gb.hi)
    ensures var keys := MergedPage(a, b, mid).keys; var r := Range(ga.level, ga.lo, gb.hi);
      && SortedKeys(keys) && |keys| == |a.keys| + |b.keys|
      && (forall j :: 1 <= j < |keys| ==> Less(r.lo, At(keys[j])) && Less(At(keys[j]), r.hi))
      && (forall j :: 0 <= j < |a.keys| ==>
        ChildLo(r, keys, j) == ChildLo(ga, a.keys, j) && ChildHi(r, keys, j) == ChildHi(ga, a.keys, j))
      && (forall j :: 0 <= j < |b.keys| ==>
        && ChildLo(r, keys, |a.keys| + j) == ChildLo(gb, b.keys, j)
        && ChildHi(r, keys, |a.keys| + j) == ChildHi(gb, b.keys, j))
  {
  }

  lemma MergedPageOk(c: Config, s: Pages, root: PageId, g: Ranges, ex: PageId, pp: PageId, i: nat, a: PageId,
                     b: PageId, s2: Pages, g2: Ranges)
    requires MergeStep(c, s, root, g, ex, pp, i, a, b, s2, g2)
    ensures PageOk(c, s2, root, g2, pp, a)
  {
    NeighbourFacts(c, s, root, g, ex, pp, i, a, b);
    assert a in s2[pp].kids by { assert s2[pp].kids[i - 1] == a; }
    assert ParentOk(s2, g2, root, a);
    if s[a].Inner? {
      MergedInnerOk(c, s, root, g, ex, pp, i, a, b, s2, g2);
    } else {
      MergedLeafOk(c, s, root, g, ex, pp, i, a, b, s2, g2);
    }
  }

  lemma MergedInnerOk(c: Config, s: Pages, root: PageId, g: Ranges, ex: PageId, pp: PageId, i: nat, a: PageId,
                      b: PageId, s2: Pages, g2: Ranges)
    requires MergeStep(c, s, root, g, ex, pp, i, a, b, s2, g2) && s[a].Inner?
    ensures s2[a].Inner? && InnerOk(s2, g2, a)
  {
    NeighbourFacts(c, s, root, g, ex, pp, i, a, b);
    MergedSeparators(s[a], s[b], g[a], g[b], s[pp].keys[i]);
    forall j | 0 <= j < |s2[a].kids| ensures ChildOk(s2, g2, a, j) {
      MergedChildOk(c, s, root, g, ex, pp, i, a, b, s2, g2, j);
    }
    MergedDistinct(c, s, root, g, ex, a, b);
  }

  lemma MergedLeafOk(c: Config, s: Pages, root: PageId, g: Ranges, ex: PageId, pp: PageId, i: nat, a: PageId,
                     b: PageId, s2: Pages, g2: Ranges)
    requires MergeStep(c, s, root, g, ex, pp, i, a, b, s2, g2) && s[a].Leaf?
    ensures s2[a].Leaf? && LeafOk(s2, g2, a)
  {
    NeighbourFacts(c, s, root, g, ex, pp, i, a, b);
  }

  lemma MergedDistinct(c: Config, s: Pages, root: PageId, g: Ranges, ex: PageId, a: PageId, b: PageId)
    requires Inv(c, s, root, g, ex) && a in s && b in s && s[a].Inner? && s[b].Inner? && a != b
    ensures Distinct(s[a].kids + s[b].kids)
  {
    assert PageOk(c, s, root, g, ex, a);
    assert PageOk(c, s, root, g, ex, b);
    forall j, k | 0 <= j < |s[a].kids| && 0 <= k < |s[b].kids| ensures s[a].kids[j] != s[b].kids[k] {
      assert ChildOk(s, g, a, j) && ChildOk(s, g, b, k);
    }
  }

  lemma MergedKid(c: Config, s: Pages, root: PageId, g: Ranges, ex: PageId, pp: PageId, i: nat, a: PageId,
                  b: PageId, s2: Pages, g2: Ranges, y: PageId, x: PageId)
    requires MergeStep(c, s, root, g, ex, pp, i, a, b, s2, g2) && s[a].Inner? && (y == a || y == b) && x in s[y].kids
    ensures KidKept(s, g, s2, g2, x, a)
  {
    KidFacts(c, s, root, g, ex, y, x);
    if y == a && x in s[b].kids {
      KidFacts(c, s, root, g, ex, b, x);
    }
    assert x != pp && x != a && x != b by {
      NeighbourFacts(c, s, root, g, ex, pp, i, a, b);
    }
  }

  /** The children of the merged page keep their ranges. */
  lemma MergedEdges(c: Config, s: Pages, root: PageId, g: Ranges, ex: PageId, pp: PageId, i: nat, a: PageId, b: PageId,
                    y: PageId, k: nat)
    requires Inv(c, s, root, g, ex) && Neighbours(s, pp, i, a, b) && s[a].Inner? && s[b].Inner?
    requires (y == a || y == b) && k < |s[y].kids|
    ensures |s[a].keys| == |s[a].kids| && |s[b].keys| == |s[b].kids| >= 1 && ChildOk(s, g, y, k)
    ensures g[a].level == g[b].level
    ensures var j := if y == a then k else |s[a].kids| + k;
      var keys := MergedPage(s[a], s[b], s[pp].keys[i]).keys; var r := Range(g[a].level, g[a].lo, g[b].hi);
      && |keys| == |s[a].kids| + |s[b].kids|
      && ChildLo(r, keys, j) == ChildLo(g[y], s[y].keys, k) && ChildHi(r, keys, j) == ChildHi(g[y], s[y].keys, k)
  {
    NeighbourFacts(c, s, root, g, ex, pp, i, a, b);
    MergedSeparators(s[a], s[b], g[a], g[b], s[pp].keys[i]);
  }

  lemma MergedChildOk(c: Config, s: Pages, root: PageId, g: Ranges, ex: PageId, pp: PageId, i: nat, a: PageId,
                      b: PageId, s2: Pages, g2: Ranges, j: nat)
    requires MergeStep(c, s, root, g, ex, pp, i, a, b, s2, g2) && s[a].Inner? && j < |s2[a].kids|
    ensures |s2[a].keys| == |s2[a].kids| && ChildOk(s2, g2, a, j)
  {
    var n := |s[a].kids|;
    var y := if j < n then a else b;
    var k := if j < n then j else j - n;
    var x := s[y].kids[k];
    MergedEdges(c, s, root, g, ex, pp, i, a, b, y, k);
    assert s2[a].kids[j] == x;
    MergedKid(c, s, root, g, ex, pp, i, a, b, s2, g2, y, x);
  }

  lemma RemovedSeparators(keys: seq<int>, r: Range, i: nat)
    requires SortedKeys(keys) && 1 <= i < |keys|
    requires forall j :: 1 <= j < |keys| ==> Less(r.lo, At(keys[j])) && Less(At(keys[j]), r.hi)
    ensures var keys2 := RemoveAt(keys, i);
      && SortedKeys(keys2) && |keys2| == |keys| - 1
      && (forall j :: 1 <= j < |keys2| ==> Less(r.lo, At(keys2[j])) && Less(At(keys2[j]), r.hi))
  {
  }

  lemma RemovedRanges(keys: seq<int>, r: Range, i: nat, j: nat)
    requires 1 <= i < |keys| && j < |keys| - 1
    ensures ChildLo(r, RemoveAt(keys, i), j) == if j < i then ChildLo(r, keys, j) else ChildLo(r, keys, j + 1)
    ensures ChildHi(r, RemoveAt(keys, i), j) == if j < i - 1 then ChildHi(r, keys, j) else ChildHi(r, keys, j + 1)
  {
  }

  lemma MergeParentChildOk(c: Config, s: Pages, root: PageId, g: Ranges, ex: PageId, pp: PageId, i: nat, a: PageId,
                           b: PageId, s2: Pages, g2: Ranges, j: nat)
    requires MergeStep(c, s, root, g, ex, pp, i, a, b, s2, g2) && j < |s2[pp].kids|
    ensures ChildOk(s2, g2, pp, j)
  {
    NeighbourFacts(c, s, root, g, ex, pp, i, a, b);
    RemovedRanges(s[pp].keys, g[pp], i, j);
    var k := if j < i then j else j + 1;
    var x := s[pp].kids[k];
    assert s2[pp].kids[j] == x;
    assert ChildOk(s, g, pp, k);
    KidFacts(c, s, root, g, ex, pp, x);
    if s[b].Inner? && x in s[b].kids {
      KidFacts(c, s, root, g, ex, b, x);
    }
  }

  /** A page other than the merged ones keeps a parent that lists it. */
  lemma MergeOtherParentOk(c: Config, s: Pages, root: PageId, g: Ranges, ex: PageId, pp: PageId, i: nat, a: PageId,
                           b: PageId, s2: Pages, g2: Ranges, x: PageId)
    requires MergeStep(c, s, root, g, ex, pp, i, a, b, s2, g2)
    requires x in s && x != a && x != b && x != root
    ensures s2[x].parent in s2 && s2[s2[x].parent].Inner? && x in s2[s2[x].parent].kids
  {
    NeighbourFacts(c, s, root, g, ex, pp, i, a, b);
    ParentFacts(c, s, root, g, ex, x);
    var y := s[x].parent;
    var j := IndexOf(s[y].kids, x);
    if y == b {
      KidFacts(c, s, root, g, ex, b, x);
      assert s2[a].kids[|s[a].kids| + j] == x;
    } else {
      assert s2[x].parent == y by {
        if s[b].Inner? && x in s[b].kids {
          KidFacts(c, s, root, g, ex, b, x);
        }
      }
      MergeKeepsSlot(s, pp, i, a, b, s2, y, j);
    }
  }

  /** A slot of a page that is not the deleted one survives the merge, except the deleted page's own. */
  lemma MergeKeepsSlot(s: Pages, pp: PageId, i: nat, a: PageId, b: PageId, s2: Pages, y: PageId, j: nat)
    requires Merged(s, pp, i, a, b, s2) && y in s && y != b && s[y].Inner? && j < |s[y].kids| && s[y].kids[j] != b
    ensures s2[y].Inner? && s[y].kids[j] in s2[y].kids
  {
  }

  lemma MergeParentOk(c: Config, s: Pages, root: PageId, g: Ranges, ex: PageId, pp: PageId, i: nat, a: PageId,
                      b: PageId, s2: Pages, g2: Ranges)
    requires MergeStep(c, s, root, g, ex, pp, i, a, b, s2, g2)
    ensures PageOk(c, s2, root, g2, pp, pp)
  {
    NeighbourFacts(c, s, root, g, ex, pp, i, a, b);
    if pp != root {
      MergeOtherParentOk(c, s, root, g, ex, pp, i, a, b, s2, g2, pp);
    }
    MergeParentInnerOk(c, s, root, g, ex, pp, i, a, b, s2, g2);
  }

  lemma MergeParentInnerOk(c: Config, s: Pages, root: PageId, g: Ranges, ex: PageId, pp: PageId, i: nat, a: PageId,
                           b: PageId, s2: Pages, g2: Ranges)
    requires MergeStep(c, s, root, g, ex, pp, i, a, b, s2, g2)
    ensures pp in s2 && pp in g2 && s2[pp].Inner? && InnerOk(s2, g2, pp)
  {
    NeighbourFacts(c, s, root, g, ex, pp, i, a, b);
    RemovedSeparators(s[pp].keys, g[pp], i);
    forall j | 0 <= j < |s2[pp].kids| ensures ChildOk(s2, g2, pp, j) {
      MergeParentChildOk(c, s, root, g, ex, pp, i, a, b, s2, g2, j);
    }
  }

  lemma MergeOtherOk(c: Config, s: Pages, root: PageId, g: Ranges, ex: PageId, pp: PageId, i: nat, a: PageId,
                     b: PageId, s2: Pages, g2: Ranges, x: PageId)
    requires MergeStep(c, s, root, g, ex, pp, i, a, b, s2, g2)
    requires x in s && x != a && x != b && x != pp
    ensures PageOk(c, s2, root, g2, pp, x)
  {
    NeighbourFacts(c, s, root, g, ex, pp, i, a, b);
    if x != root {
      MergeOtherParentOk(c, s, root, g, ex, pp, i, a, b, s2, g2, x);
    }
    assert PageOk(c, s, root, g, ex, x);
    if s[x].Inner? {
      forall j | 0 <= j < |s[x].kids| ensures KidKept(s, g, s2, g2, s[x].kids[j], x) {
        MergeOtherKid(c, s, root, g, ex, pp, i, a, b, s2, g2, x, s[x].kids[j]);
      }
      InnerFrame(s, g, s2, g2, x);
    } else {
      MergeOtherLeafOk(c, s, root, g, ex, pp, i, a, b, s2, g2, x);
    }
  }

  lemma MergeOtherKid(c: Config, s: Pages, root: PageId, g: Ranges, ex: PageId, pp: PageId, i: nat, a: PageId,
                      b: PageId, s2: Pages, g2: Ranges, x: PageId, y: PageId)
    requires MergeStep(c, s, root, g, ex, pp, i, a, b, s2, g2)
    requires x in s && x != a && x != b && x != pp && s[x].Inner? && y in s[x].kids
    ensures KidKept(s, g, s2, g2, y, x)
  {
    NeighbourFacts(c, s, root, g, ex, pp, i, a, b);
    KidFacts(c, s, root, g, ex, x, y);
    if s[b].Inner? && y in s[b].kids {
      KidFacts(c, s, root, g, ex, b, y);
    }
  }

  lemma MergeOtherLeafOk(c: Config, s: Pages, root: PageId, g: Ranges, ex: PageId, pp: PageId, i: nat, a: PageId,
                         b: PageId, s2: Pages, g2: Ranges, x: PageId)
    requires MergeStep(c, s, root, g, ex, pp, i, a, b, s2, g2)
    requires x in s && x != a && x != b && x != pp && s[x].Leaf?
    ensures LeafOk(s2, g2, x)
  {
    NeighbourFacts(c, s, root, g, ex, pp, i, a, b);
    assert PageOk(c, s, root, g, ex, x);
    if !g[x].hi.PosInf? && s[x].next == b {
      PrevUnique(c, s, root, g, ex, a, x);
    }
  }

  /** Merging two neighbours moves the shortage, if any, to the parent. */
  lemma MergeKeepsInv(c: Config, s: Pages, root: PageId, g: Ranges, ex: PageId, pp: PageId, i: nat, a: PageId,
                      b: PageId, s2: Pages, g2: Ranges)
    requires MergeStep(c, s, root, g, ex, pp, i, a, b, s2, g2)
    ensures Inv(c, s2, root, g2, pp)
  {
    NeighbourFacts(c, s, root, g, ex, pp, i, a, b);
    forall x | x in s2 ensures PageOk(c, s2, root, g2, pp, x) {
      if x == a {
        MergedPageOk(c, s, root, g, ex, pp, i, a, b, s2, g2);
      } else if x == pp {
        MergeParentOk(c, s, root, g, ex, pp, i, a, b, s2, g2);
      } else {
        MergeOtherOk(c, s, root, g, ex, pp, i, a, b, s2, g2, x);
      }
    }
  }

  lemma MergeKeepsEntries(s: Pages, pp: PageId, i: nat, a: PageId, b: PageId, s2: Pages)
    requires Merged(s, pp, i, a, b, s2)
    ensures Entries(s2) == Entries(s)
  {
    forall e ensures e in Entries(s) <==> e in Entries(s2) {
      if e in Entries(s) {
        var x :| x in s && s[x].Leaf? && e in s[x].items;
        var y := if x == b then a else x;
        assert e in s2[y].items;
      }
      if e in Entries(s2) {
        var x :| x in s2 && s2[x].Leaf? && e in s2[x].items;
        if x == a {
          assert e in s[a].items || e in s[b].items;
        } else {
          assert e in s[x].items;
        }
      }
    }
  }

  // ---------- Collapsing a root with one child ----------

  function CollapsePages(s: Pages, root: PageId): Pages
    requires root in s && s[root].Inner? && |s[root].kids| == 1 && s[root].kids[0] in s
  {
    s[s[root].kids[0] := SetParent(s[s[root].kids[0]], INVALID_PAGE_ID)] - {root}
  }

  lemma CollapseOtherOk(c: Config, s: Pages, root: PageId, g: Ranges, x: PageId, r: PageId)
    requires Inv(c, s, root, g, root) && s[root].Inner? && s[root].kids == [r] && r in s
    requires x in s && x != root && r != root && r in g
    ensures PageOk(c, CollapsePages(s, root), r, g - {root}, INVALID_PAGE_ID, x)
  {
    var s2, g2 := CollapsePages(s, root), g - {root};
    assert PageOk(c, s, root, g, root, root);
    assert ChildOk(s, g, root, 0);
    assert PageOk(c, s, root, g, root, x);
    ParentFacts(c, s, root, g, root, x);
    if x != r {
      LevelBelow(c, s, root, g, root, x, r);
    }
    assert ParentOk(s2, g2, r, x);
    if s[x].Inner? {
      forall j | 0 <= j < |s[x].kids| ensures KidKept(s, g, s2, g2, s[x].kids[j], x) {
        KidFacts(c, s, root, g, root, x, s[x].kids[j]);
      }
      InnerFrame(s, g, s2, g2, x);
    } else {
      assert LeafOk(s2, g2, x);
    }
  }

  lemma LevelBelow(c: Config, s: Pages, root: PageId, g: Ranges, ex: PageId, x: PageId, r: PageId)
    requires Inv(c, s, root, g, ex) && s[root].Inner? && s[root].kids == [r] && x in s && x != root && x != r
    ensures s[x].parent != root && g[x].level + 2 <= g[root].level
  {
    assert PageOk(c, s, root, g, ex, x);
    ParentFacts(c, s, root, g, ex, x);
    var y := s[x].parent;
    ParentFacts(c, s, root, g, ex, y);
    assert PageOk(c, s, root, g, ex, s[y].parent);
  }

  /** A root with a single child gives way to that child. */
  lemma CollapseKeepsInv(c: Config, s: Pages, root: PageId, g: Ranges)
    requires Inv(c, s, root, g, root) && s[root].Inner? && |s[root].kids| == 1
    ensures var r := s[root].kids[0];
      && r in s && r != root && r in CollapsePages(s, root)
      && Inv(c, CollapsePages(s, root), r, g - {root}, INVALID_PAGE_ID)
      && Entries(CollapsePages(s, root)) == Entries(s)
  {
    var r := s[root].kids[0];
    KidFacts(c, s, root, g, root, root, r);
    assert PageOk(c, s, root, g, root, root);
    assert ChildOk(s, g, root, 0);
    var s2, g2 := CollapsePages(s, root), g - {root};
    forall x | x in s2 ensures PageOk(c, s2, r, g2, INVALID_PAGE_ID, x) {
      CollapseOtherOk(c, s, root, g, x, r);
    }
    SameLeavesSameEntries(s, s2);
  }

  /** A tree whose root is a leaf has no other page. */
  lemma OnlyRootLeaf(c: Config, s: Pages, root: PageId, g: Ranges, ex: PageId)
    requires Inv(c, s, root, g, ex) && s[root].Leaf?
    ensures s.Keys == {root}
  {
    assert PageOk(c, s, root, g, ex, root);
    forall p | p in s ensures p == root {
      assert PageOk(c, s, root, g, ex, p);
      if p != root {
        ParentFacts(c, s, root, g, ex, p);
      }
    }
  }
}
