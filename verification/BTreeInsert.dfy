/** Insertion on the page store: splitting an overfull page and linking the new one into its parent. */
module BTreeInsert {
  import opened BTreePages
  import opened BTreeShape

  function SetParent(pg: Page, q: PageId): Page {
    if pg.Leaf? then Leaf(q, pg.next, pg.items) else Inner(q, pg.keys, pg.kids)
  }

  /** Every page named in `xs` now has parent `q`. */
  function Adopt(s: Pages, xs: seq<PageId>, q: PageId): Pages {
    map x | x in s :: if x in xs then SetParent(s[x], q) else s[x]
  }

  /** The loops that fetch each moved child and set its parent id. */
  method AdoptEach(s: Pages, xs: seq<PageId>, q: PageId) returns (r: Pages)
    requires forall i :: 0 <= i < |xs| ==> xs[i] in s
    ensures r == Adopt(s, xs, q)
  {
    r := s;
    var i := 0;
    while i < |xs|
      invariant 0 <= i <= |xs|
      invariant r.Keys == s.Keys
      invariant forall x :: x in s ==> r[x] == if x in xs[..i] then SetParent(s[x], q) else s[x]
    {
      r := r[xs[i] := SetParent(r[xs[i]], q)];
      assert xs[..i + 1] == xs[..i] + [xs[i]];
      i := i + 1;
    }
    assert xs[..i] == xs;
    ghost var r2 := Adopt(s, xs, q);
    assert r.Keys == r2.Keys;
    assert forall x :: x in r ==> r[x] == r2[x];
  }

  function Half(pg: Page): nat {
    pg.Size() / 2
  }

  function LowerHalf(pg: Page, q: PageId): Page
    requires pg.Inner? ==> |pg.keys| == |pg.kids|
  {
    if pg.Leaf? then Leaf(pg.parent, q, pg.items[..Half(pg)])
    else Inner(pg.parent, pg.keys[..Half(pg)], pg.kids[..Half(pg)])
  }

  function UpperHalf(pg: Page): Page
    requires pg.Inner? ==> |pg.keys| == |pg.kids|
  {
    if pg.Leaf? then Leaf(pg.parent, pg.next, pg.items[Half(pg)..])
    else Inner(pg.parent, pg.keys[Half(pg)..], pg.kids[Half(pg)..])
  }

  function SplitKey(pg: Page): int
    requires pg.Size() >= 1 && (pg.Inner? ==> |pg.keys| == |pg.kids|)
  {
    if pg.Leaf? then pg.items[Half(pg)].key else pg.keys[Half(pg)]
  }

  /** `Split`: the upper half of page `p` moves to the new page `q`. */
  function SplitPages(s: Pages, p: PageId, q: PageId): Pages
    requires p in s && (s[p].Inner? ==> |s[p].keys| == |s[p].kids|)
  {
    (if s[p].Leaf? then s else Adopt(s, s[p].kids[Half(s[p])..], q))[p := LowerHalf(s[p], q)][q := UpperHalf(s[p])]
  }

  /** The lower half stays, the upper half, and for a leaf the next pointer, go to the new page, which a leaf then
      points to. Moved children name the new page as their parent; all other pages stay. */
  ghost predicate SplitInHalves(s: Pages, p: PageId, q: PageId, s2: Pages)
    requires p in s && (s[p].Inner? ==> |s[p].keys| == |s[p].kids|)
  {
    var pg := s[p];
    && p in s2 && q in s2 && (forall x :: x in s2 <==> x in s || x == q)
    && (match pg
        case Leaf(parent, next, items) =>
          var h := |items| / 2;
          && s2[p] == Leaf(parent, q, items[..h]) && s2[q] == Leaf(parent, next, items[h..])
          && forall x :: x in s && x != p ==> s2[x] == s[x]
        case Inner(parent, keys, kids) =>
          var h := |kids| / 2;
          && s2[p] == Inner(parent, keys[..h], kids[..h]) && s2[q] == Inner(parent, keys[h..], kids[h..])
          && forall x :: x in s && x != p ==> s2[x] == if x in kids[h..] then SetParent(s[x], q) else s[x])
  }

  lemma SplitPagesHalves(s: Pages, p: PageId, q: PageId)
    requires p in s && q !in s && (s[p].Inner? ==> |s[p].keys| == |s[p].kids|)
    ensures SplitInHalves(s, p, q, SplitPages(s, p, q))
  {
  }

  function InsertNodeAfter(pg: Page, left: PageId, key: int, right: PageId): Page
    requires pg.Inner? && |pg.keys| == |pg.kids| && left in pg.kids
  {
    var at := IndexOf(pg.kids, left) + 1;
    Inner(pg.parent, InsertAt(pg.keys, at, key), InsertAt(pg.kids, at, right))
  }

  /** Linking the new page `q` directly after `p` in the parent of `p`. */
  function LinkPages(s: Pages, p: PageId, key: int, q: PageId): Pages
    requires p in s && s[p].parent in s && q in s
    requires s[s[p].parent].Inner? && |s[s[p].parent].keys| == |s[s[p].parent].kids| && p in s[s[p].parent].kids
  {
    var pp := s[p].parent;
    s[q := SetParent(s[q], pp)][pp := InsertNodeAfter(s[pp], p, key, q)]
  }

  /** A new root `r` above `p` and `q`; its unused slot-0 key keeps the zero of fresh memory. */
  function GrowPages(s: Pages, p: PageId, key: int, q: PageId, r: PageId): Pages
    requires p in s && q in s
  {
    s[p := SetParent(s[p], r)][q := SetParent(s[q], r)][r := Inner(INVALID_PAGE_ID, [0, key], [p, q])]
  }

  function SplitRanges(g: Ranges, p: PageId, key: int, q: PageId): Ranges
    requires p in g
  {
    g[p := Range(g[p].level, g[p].lo, At(key))][q := Range(g[p].level, At(key), g[p].hi)]
  }

  ghost predicate Overfull(c: Config, s: Pages, root: PageId, g: Ranges, p: PageId) {
    Inv(c, s, root, g, p) && p in s && s[p].Size() == c.MaxSize(s[p]) + 1
  }

  lemma KidFacts(c: Config, s: Pages, root: PageId, g: Ranges, ex: PageId, y: PageId, x: PageId)
    requires Inv(c, s, root, g, ex) && y in s && s[y].Inner? && x in s[y].kids
    ensures x in s && s[x].parent == y && x != root && x != y && g[x].level + 1 == g[y].level
  {
    assert PageOk(c, s, root, g, ex, y);
    assert ChildOk(s, g, y, IndexOf(s[y].kids, x));
    assert PageOk(c, s, root, g, ex, x);
  }

  lemma ParentFacts(c: Config, s: Pages, root: PageId, g: Ranges, ex: PageId, x: PageId)
    requires Inv(c, s, root, g, ex) && x in s && x != root
    ensures var y := s[x].parent;
      && y in s && y != x && s[y].Inner? && x in s[y].kids && |s[y].keys| == |s[y].kids|
      && g[x].level + 1 == g[y].level <= g[root].level
      && g[x].lo == ChildLo(g[y], s[y].keys, IndexOf(s[y].kids, x))
      && g[x].hi == ChildHi(g[y], s[y].keys, IndexOf(s[y].kids, x))
  {
    assert PageOk(c, s, root, g, ex, x);
    assert PageOk(c, s, root, g, ex, s[x].parent);
    assert ChildOk(s, g, s[x].parent, IndexOf(s[s[x].parent].kids, x));
  }

  lemma UpperMembers(a: seq<PageId>, h: nat, x: PageId)
    requires Distinct(a) && h <= |a| && x in a
    ensures x in a[h..] <==> IndexOf(a, x) >= h
    ensures x in a[..h] <==> IndexOf(a, x) < h
  {
  }

  lemma SplitKeyInside(c: Config, s: Pages, root: PageId, g: Ranges, p: PageId)
    requires Overfull(c, s, root, g, p)
    ensures PageOk(c, s, root, g, p, p)
    ensures Less(g[p].lo, At(SplitKey(s[p]))) && Less(At(SplitKey(s[p])), g[p].hi)
    ensures 1 <= Half(s[p]) < s[p].Size()
  {
    assert PageOk(c, s, root, g, p, p);
    if s[p].Leaf? {
      assert s[p].items[0].key < s[p].items[Half(s[p])].key;
    }
  }

  /** Page by page, the store after splitting `p` and linking `q` into the parent `pp`. */
  ghost predicate SplitLinked(s: Pages, p: PageId, q: PageId, s2: Pages)
    requires p in s && (s[p].Inner? ==> |s[p].keys| == |s[p].kids|) && s[p].Size() >= 1
  {
    var pp := s[p].parent;
    && q !in s && pp in s && pp != p
    && s[pp].Inner? && |s[pp].keys| == |s[pp].kids| && p in s[pp].kids
    && s2.Keys == s.Keys + {q}
    && s2[p] == LowerHalf(s[p], q)
    && s2[q] == UpperHalf(s[p])
    && s2[pp] == InsertNodeAfter(s[pp], p, SplitKey(s[p]), q)
    && forall x {:trigger s2[x]} :: x in s && x != p && x != pp ==>
      s2[x] == if s[p].Inner? && x in s[p].kids[Half(s[p])..] then SetParent(s[x], q) else s[x]
  }

  lemma SplitThenLink(c: Config, s: Pages, root: PageId, g: Ranges, p: PageId, q: PageId)
    requires Overfull(c, s, root, g, p) && p != root && q !in s
    ensures PageOk(c, s, root, g, p, p) && PageOk(c, s, root, g, p, s[p].parent)
    ensures var s1 := SplitPages(s, p, q); var pp := s1[p].parent;
      && pp in s1 && s1[pp] == s[pp] && pp == s[p].parent
      && SplitLinked(s, p, q, LinkPages(s1, p, SplitKey(s[p]), q))
  {
    assert PageOk(c, s, root, g, p, p);
    ParentFacts(c, s, root, g, p, p);
    var pp := s[p].parent;
    if s[p].Inner? && pp in s[p].kids {
      KidFacts(c, s, root, g, p, p, pp);
    }
  }

  ghost predicate SplitStep(c: Config, s: Pages, root: PageId, g: Ranges, p: PageId, q: PageId, s2: Pages, g2: Ranges) {
    && Overfull(c, s, root, g, p) && p != root && q !in s && q >= 2
    && PageOk(c, s, root, g, p, p) && SplitLinked(s, p, q, s2)
    && g2 == SplitRanges(g, p, SplitKey(s[p]), q)
  }

  lemma SplitLowerOk(c: Config, s: Pages, root: PageId, g: Ranges, p: PageId, q: PageId, s2: Pages, g2: Ranges)
    requires SplitStep(c, s, root, g, p, q, s2, g2)
    ensures PageOk(c, s2, root, g2, s[p].parent, p)
  {
    ParentFacts(c, s, root, g, p, p);
    SplitKeyInside(c, s, root, g, p);
    var pp := s[p].parent;
    assert p in s2[pp].kids by { assert s2[pp].kids[IndexOf(s[pp].kids, p)] == p; }
    assert ParentOk(s2, g2, root, p);
    if s[p].Inner? {
      forall i | 0 <= i < Half(s[p]) ensures KidKept(s, g, s2, g2, s[p].kids[i], p) {
        KidFacts(c, s, root, g, p, p, s[p].kids[i]);
        UpperMembers(s[p].kids, Half(s[p]), s[p].kids[i]);
      }
      LowerInnerOk(s, g, p, Half(s[p]), s2, g2);
    }
  }

  lemma SplitUpperOk(c: Config, s: Pages, root: PageId, g: Ranges, p: PageId, q: PageId, s2: Pages, g2: Ranges)
    requires SplitStep(c, s, root, g, p, q, s2, g2)
    ensures PageOk(c, s2, root, g2, s[p].parent, q)
  {
    assert ParentOk(s2, g2, root, q) by {
      ParentFacts(c, s, root, g, p, p);
      SplitKeyInside(c, s, root, g, p);
      var pp := s[p].parent;
      assert s2[pp].kids[IndexOf(s[pp].kids, p) + 1] == q;
    }
    if s[p].Inner? {
      SplitUpperInner(c, s, root, g, p, q, s2, g2);
    } else {
      SplitKeyInside(c, s, root, g, p);
      assert LeafOk(s2, g2, q);
    }
  }

  lemma SplitUpperInner(c: Config, s: Pages, root: PageId, g: Ranges, p: PageId, q: PageId, s2: Pages, g2: Ranges)
    requires SplitStep(c, s, root, g, p, q, s2, g2) && s[p].Inner?
    ensures s2[q].Inner? && InnerOk(s2, g2, q)
  {
    var h := Half(s[p]);
    ParentFacts(c, s, root, g, p, p);
    forall i | h <= i < |s[p].kids| ensures KidKept(s, g, s2, g2, s[p].kids[i], q) {
      KidFacts(c, s, root, g, p, p, s[p].kids[i]);
      assert s[p].kids[h..][i - h] == s[p].kids[i];
    }
    SplitKeyInside(c, s, root, g, p);
    UpperInnerOk(s, g, p, h, q, s2, g2);
  }

  /** A key strictly inside the range of child `at` may stand directly after that child's separator. */
  lemma SeparatorFits(keys: seq<int>, r: Range, at: nat, key: int)
    requires SortedKeys(keys) && at < |keys|
    requires forall i :: 1 <= i < |keys| ==> Less(r.lo, At(keys[i])) && Less(At(keys[i]), r.hi)
    requires Less(ChildLo(r, keys, at), At(key)) && Less(At(key), ChildHi(r, keys, at))
    ensures var keys2 := InsertAt(keys, at + 1, key);
      && SortedKeys(keys2)
      && (forall i :: 1 <= i < |keys2| ==> Less(r.lo, At(keys2[i])) && Less(At(keys2[i]), r.hi))
      && (forall i :: 0 <= i <= at ==> keys2[i] == keys[i])
      && keys2[at + 1] == key
      && (forall i :: at + 1 < i < |keys2| ==> keys2[i] == keys[i - 1])
  {
  }

  lemma DistinctInsert(ids: seq<PageId>, at: nat, x: PageId)
    requires Distinct(ids) && x !in ids && at <= |ids|
    ensures Distinct(InsertAt(ids, at, x))
  {
  }

  lemma InsertIndex<T>(a: seq<T>, at: nat, x: T, i: nat)
    requires at <= |a| && i <= |a|
    ensures InsertAt(a, at, x)[i] == if i < at then a[i] else if i == at then x else a[i - 1]
  {
  }

  lemma InsertedRanges(r: Range, keys: seq<int>, at: nat, key: int, i: nat)
    requires at < |keys| && i <= |keys|
    ensures ChildLo(r, InsertAt(keys, at + 1, key), i) ==
      if i <= at then ChildLo(r, keys, i) else if i == at + 1 then At(key) else ChildLo(r, keys, i - 1)
    ensures ChildHi(r, InsertAt(keys, at + 1, key), i) ==
      if i < at then ChildHi(r, keys, i) else if i == at then At(key) else ChildHi(r, keys, i - 1)
  {
  }

  lemma SplitParentChildOk(c: Config, s: Pages, root: PageId, g: Ranges, p: PageId, q: PageId, s2: Pages, g2: Ranges,
                           i: nat)
    requires SplitStep(c, s, root, g, p, q, s2, g2)
    requires i < |s2[s[p].parent].kids|
    ensures ChildOk(s2, g2, s[p].parent, i)
  {
    var pp := s[p].parent;
    ParentFacts(c, s, root, g, p, p);
    var at := IndexOf(s[pp].kids, p);
    InsertIndex(s[pp].kids, at + 1, q, i);
    InsertedRanges(g[pp], s[pp].keys, at, SplitKey(s[p]), i);
    if i != at && i != at + 1 {
      SplitSiblingOk(c, s, root, g, p, q, s2, g2, if i < at then i else i - 1);
    }
  }

  lemma SplitSiblingOk(c: Config, s: Pages, root: PageId, g: Ranges, p: PageId, q: PageId, s2: Pages, g2: Ranges,
                       j: nat)
    requires SplitStep(c, s, root, g, p, q, s2, g2)
    requires var pp := s[p].parent; j < |s[pp].kids| && j != IndexOf(s[pp].kids, p)
    ensures var x := s[s[p].parent].kids[j];
      && x in s && ChildOk(s, g, s[p].parent, j) && s2[x].parent == s[p].parent && g2[x] == g[x]
  {
    var pp := s[p].parent;
    var x := s[pp].kids[j];
    assert PageOk(c, s, root, g, p, pp);
    assert ChildOk(s, g, pp, j);
    KidFacts(c, s, root, g, p, pp, x);
    if s[p].Inner? && x in s[p].kids {
      KidFacts(c, s, root, g, p, p, x);
    }
  }

  /** A page other than `p` and `q` keeps a parent that lists it. */
  lemma SplitOtherParentOk(c: Config, s: Pages, root: PageId, g: Ranges, p: PageId, q: PageId, s2: Pages, g2: Ranges,
                           x: PageId)
    requires SplitStep(c, s, root, g, p, q, s2, g2)
    requires x in s && x != p && x != root
    ensures s2[x].parent in s2 && s2[s2[x].parent].Inner? && x in s2[s2[x].parent].kids
  {
    assert g[s[p].parent].level == g[p].level + 1 by {
      ParentFacts(c, s, root, g, p, p);
    }
    ParentFacts(c, s, root, g, p, x);
    var y := s[x].parent;
    if y == p {
      UpperMembers(s[p].kids, Half(s[p]), x);
    } else {
      if s[p].Inner? && x in s[p].kids {
        KidFacts(c, s, root, g, p, p, x);
      }
      if y == s[p].parent {
        InsertKeepsMember(s[y].kids, IndexOf(s[y].kids, p) + 1, q, x);
      }
    }
  }

  lemma InsertKeepsMember(ids: seq<PageId>, at: nat, q: PageId, x: PageId)
    requires at <= |ids| && x in ids
    ensures x in InsertAt(ids, at, q)
  {
  }

  lemma SplitParentOk(c: Config, s: Pages, root: PageId, g: Ranges, p: PageId, q: PageId, s2: Pages, g2: Ranges)
    requires SplitStep(c, s, root, g, p, q, s2, g2)
    ensures PageOk(c, s2, root, g2, s[p].parent, s[p].parent)
  {
    var pp := s[p].parent;
    if pp != root {
      SplitOtherParentOk(c, s, root, g, p, q, s2, g2, pp);
    }
    assert PageOk(c, s, root, g, p, pp);
    SplitParentInnerOk(c, s, root, g, p, q, s2, g2);
  }

  lemma SplitParentInnerOk(c: Config, s: Pages, root: PageId, g: Ranges, p: PageId, q: PageId, s2: Pages, g2: Ranges)
    requires SplitStep(c, s, root, g, p, q, s2, g2)
    ensures var pp := s[p].parent; pp in s2 && pp in g2 && s2[pp].Inner? && InnerOk(s2, g2, pp)
  {
    var pp := s[p].parent;
    var at := IndexOf(s[pp].kids, p);
    assert |s2[pp].keys| == |s2[pp].kids| && Distinct(s2[pp].kids) && g2[pp].level > 0 by {
      assert PageOk(c, s, root, g, p, pp);
      DistinctInsert(s[pp].kids, at + 1, q);
    }
    assert SortedKeys(s2[pp].keys) && forall i :: 1 <= i < |s2[pp].keys| ==>
      Less(g2[pp].lo, At(s2[pp].keys[i])) && Less(At(s2[pp].keys[i]), g2[pp].hi) by {
      assert PageOk(c, s, root, g, p, pp);
      SplitKeyInside(c, s, root, g, p);
      assert ChildOk(s, g, pp, at);
      SeparatorFits(s[pp].keys, g[pp], at, SplitKey(s[p]));
    }
    forall i | 0 <= i < |s2[pp].kids| ensures ChildOk(s2, g2, pp, i) {
      SplitParentChildOk(c, s, root, g, p, q, s2, g2, i);
    }
  }

  lemma SplitOtherOk(c: Config, s: Pages, root: PageId, g: Ranges, p: PageId, q: PageId, s2: Pages, g2: Ranges,
                     x: PageId)
    requires SplitStep(c, s, root, g, p, q, s2, g2)
    requires x in s && x != p && x != s[p].parent
    ensures PageOk(c, s2, root, g2, s[p].parent, x)
  {
    if x != root {
      SplitOtherParentOk(c, s, root, g, p, q, s2, g2, x);
    }
    assert PageOk(c, s, root, g, p, x);
    if s[x].Inner? {
      forall i | 0 <= i < |s[x].kids| ensures KidKept(s, g, s2, g2, s[x].kids[i], x) {
        SplitOtherKid(c, s, root, g, p, q, s2, g2, x, s[x].kids[i]);
      }
      InnerFrame(s, g, s2, g2, x);
    } else {
      SplitOtherLeaf(c, s, root, g, p, q, s2, g2, x);
    }
  }

  lemma SplitOtherLeaf(c: Config, s: Pages, root: PageId, g: Ranges, p: PageId, q: PageId, s2: Pages, g2: Ranges,
                       x: PageId)
    requires SplitStep(c, s, root, g, p, q, s2, g2)
    requires x in s && x != p && s[x].Leaf?
    ensures s2[x].Leaf? && LeafOk(s2, g2, x)
  {
    assert PageOk(c, s, root, g, p, x);
  }

  lemma SplitOtherKid(c: Config, s: Pages, root: PageId, g: Ranges, p: PageId, q: PageId, s2: Pages, g2: Ranges,
                      x: PageId, y: PageId)
    requires SplitStep(c, s, root, g, p, q, s2, g2)
    requires x in s && x != p && x != s[p].parent && s[x].Inner? && y in s[x].kids
    ensures KidKept(s, g, s2, g2, y, x)
  {
    KidFacts(c, s, root, g, p, x, y);
    if s[p].Inner? && y in s[p].kids {
      KidFacts(c, s, root, g, p, p, y);
    }
  }

  /** Splitting a page and linking the new one moves the overflow, if any, to the parent. */
  lemma SplitKeepsInv(c: Config, s: Pages, root: PageId, g: Ranges, p: PageId, q: PageId, s2: Pages, g2: Ranges)
    requires SplitStep(c, s, root, g, p, q, s2, g2)
    ensures Inv(c, s2, root, g2, s[p].parent)
    ensures s2[s[p].parent].Size() == s[s[p].parent].Size() + 1
  {
    forall x | x in s2 ensures PageOk(c, s2, root, g2, s[p].parent, x) {
      if x == p {
        SplitLowerOk(c, s, root, g, p, q, s2, g2);
      } else if x == q {
        SplitUpperOk(c, s, root, g, p, q, s2, g2);
      } else if x == s[p].parent {
        SplitParentOk(c, s, root, g, p, q, s2, g2);
      } else {
        SplitOtherOk(c, s, root, g, p, q, s2, g2, x);
      }
    }
  }

  lemma SplitKeepsEntries(s: Pages, p: PageId, q: PageId)
    requires p in s && (s[p].Inner? ==> |s[p].keys| == |s[p].kids|) && q !in s
    ensures Entries(SplitPages(s, p, q)) == Entries(s)
  {
    var s1 := SplitPages(s, p, q);
    forall e | e in Entries(s) ensures e in Entries(s1) {
      var x :| x in s && s[x].Leaf? && e in s[x].items;
      if x == p {
        assert s[p].items == s[p].items[..Half(s[p])] + s[p].items[Half(s[p])..];
        assert e in s1[p].items || e in s1[q].items;
      } else {
        assert e in s1[x].items;
      }
    }
    forall e | e in Entries(s1) ensures e in Entries(s) {
      var x :| x in s1 && s1[x].Leaf? && e in s1[x].items;
      var y := if x == q then p else x;
      assert e in s[y].items;
    }
  }

  lemma SameLeavesSameEntries(s: Pages, s2: Pages)
    requires forall x :: x in s && s[x].Leaf? ==> x in s2 && s2[x].Leaf? && s2[x].items == s[x].items
    requires forall x :: x in s2 && s2[x].Leaf? ==> x in s && s[x].Leaf?
    ensures Entries(s2) == Entries(s)
  {
  }

  /** The state after a link: the parent `pp` may now be the overfull page, one level up. */
  ghost predicate LinkedInto(c: Config, s: Pages, root: PageId, g: Ranges, p: PageId, s2: Pages, g2: Ranges) {
    && p in s && p in g && root in g
    && var pp := s[p].parent;
    && Inv(c, s2, root, g2, pp)
    && pp in s && pp in s2 && s2[pp].Inner? && s[pp].Inner?
    && c.MinSize(s2[pp]) < s2[pp].Size() == s[pp].Size() + 1 <= c.innerMax + 1
    && g2[root].level - g2[pp].level < g[root].level - g[p].level
  }

  lemma LinkWhole(c: Config, s: Pages, root: PageId, g: Ranges, p: PageId, q: PageId)
    requires Overfull(c, s, root, g, p) && p != root && q !in s && q >= 2
    ensures PageOk(c, s, root, g, p, p) && PageOk(c, s, root, g, p, s[p].parent)
    ensures var s1 := SplitPages(s, p, q); var key := SplitKey(s[p]); var pp := s[p].parent;
      && s1[p].parent == pp && pp in s1 && s1[pp] == s[pp]
      && LinkedInto(c, s, root, g, p, LinkPages(s1, p, key, q), SplitRanges(g, p, key, q))
      && Entries(LinkPages(s1, p, key, q)) == Entries(s)
  {
    SplitThenLink(c, s, root, g, p, q);
    ParentFacts(c, s, root, g, p, p);
    var s1 := SplitPages(s, p, q);
    var s2 := LinkPages(s1, p, SplitKey(s[p]), q);
    var g2 := SplitRanges(g, p, SplitKey(s[p]), q);
    SplitKeepsInv(c, s, root, g, p, q, s2, g2);
    SplitKeepsEntries(s, p, q);
    SameLeavesSameEntries(s1, s2);
  }

  lemma GrowWhole(c: Config, s: Pages, g: Ranges, p: PageId, q: PageId, r: PageId)
    requires Overfull(c, s, p, g, p) && PageOk(c, s, p, g, p, p) && q !in s && q >= 2 && r !in s && r != q && r >= 2
    ensures var s2 := GrowPages(SplitPages(s, p, q), p, SplitKey(s[p]), q, r);
      && Inv(c, s2, r, GrowRanges(g, p, SplitKey(s[p]), q, r), INVALID_PAGE_ID)
      && Entries(s2) == Entries(s)
  {
    var s1 := SplitPages(s, p, q);
    var s2 := GrowPages(s1, p, SplitKey(s[p]), q, r);
    var g2 := GrowRanges(g, p, SplitKey(s[p]), q, r);
    assert Grown(s, p, q, r, s2);
    GrowKeepsInv(c, s, g, p, q, r, s2, g2);
    SplitKeepsEntries(s, p, q);
    SameLeavesSameEntries(s1, s2);
  }

  function GrowRanges(g: Ranges, p: PageId, key: int, q: PageId, r: PageId): Ranges
    requires p in g
  {
    SplitRanges(g, p, key, q)[r := Range(g[p].level + 1, NegInf, PosInf)]
  }

  /** Page by page, the store after splitting the root `p` under a new root `r`. */
  ghost predicate Grown(s: Pages, p: PageId, q: PageId, r: PageId, s2: Pages)
    requires p in s && (s[p].Inner? ==> |s[p].keys| == |s[p].kids|) && s[p].Size() >= 1
  {
    && q !in s && r !in s && r != q
    && s2.Keys == s.Keys + {q, r}
    && s2[p] == SetParent(LowerHalf(s[p], q), r)
    && s2[q] == SetParent(UpperHalf(s[p]), r)
    && s2[r] == Inner(INVALID_PAGE_ID, [0, SplitKey(s[p])], [p, q])
    && forall x {:trigger s2[x]} :: x in s && x != p ==>
      s2[x] == if s[p].Inner? && x in s[p].kids[Half(s[p])..] then SetParent(s[x], q) else s[x]
  }

  ghost predicate GrowStep(c: Config, s: Pages, g: Ranges, p: PageId, q: PageId, r: PageId, s2: Pages, g2: Ranges) {
    && Overfull(c, s, p, g, p) && PageOk(c, s, p, g, p, p)
    && Grown(s, p, q, r, s2) && q >= 2 && r >= 2
    && g2 == GrowRanges(g, p, SplitKey(s[p]), q, r)
  }

  lemma GrowRootOk(c: Config, s: Pages, g: Ranges, p: PageId, q: PageId, r: PageId, s2: Pages, g2: Ranges)
    requires GrowStep(c, s, g, p, q, r, s2, g2)
    ensures PageOk(c, s2, r, g2, INVALID_PAGE_ID, r)
  {
  }

  lemma GrowLowerOk(c: Config, s: Pages, g: Ranges, p: PageId, q: PageId, r: PageId, s2: Pages, g2: Ranges)
    requires GrowStep(c, s, g, p, q, r, s2, g2)
    ensures PageOk(c, s2, r, g2, INVALID_PAGE_ID, p)
  {
    SplitKeyInside(c, s, p, g, p);
    assert s2[r].kids[0] == p;
    if s[p].Inner? {
      forall i | 0 <= i < Half(s[p]) ensures KidKept(s, g, s2, g2, s[p].kids[i], p) {
        KidFacts(c, s, p, g, p, p, s[p].kids[i]);
        UpperMembers(s[p].kids, Half(s[p]), s[p].kids[i]);
      }
      LowerInnerOk(s, g, p, Half(s[p]), s2, g2);
    } else {
      assert LeafOk(s2, g2, p);
    }
  }

  lemma GrowUpperOk(c: Config, s: Pages, g: Ranges, p: PageId, q: PageId, r: PageId, s2: Pages, g2: Ranges)
    requires GrowStep(c, s, g, p, q, r, s2, g2)
    ensures PageOk(c, s2, r, g2, INVALID_PAGE_ID, q)
  {
    SplitKeyInside(c, s, p, g, p);
    assert s2[r].kids[1] == q;
    if s[p].Inner? {
      var h := Half(s[p]);
      forall i | h <= i < |s[p].kids| ensures KidKept(s, g, s2, g2, s[p].kids[i], q) {
        KidFacts(c, s, p, g, p, p, s[p].kids[i]);
        assert s[p].kids[h..][i - h] == s[p].kids[i];
      }
      UpperInnerOk(s, g, p, h, q, s2, g2);
    } else {
      assert LeafOk(s2, g2, q);
    }
  }

  lemma GrowOtherOk(c: Config, s: Pages, g: Ranges, p: PageId, q: PageId, r: PageId, s2: Pages, g2: Ranges, x: PageId)
    requires GrowStep(c, s, g, p, q, r, s2, g2)
    requires x in s && x != p
    ensures PageOk(c, s2, r, g2, INVALID_PAGE_ID, x)
  {
    assert PageOk(c, s, p, g, p, x);
    GrowOtherParentOk(c, s, g, p, q, r, s2, g2, x);
    if s[x].Inner? {
      forall i | 0 <= i < |s[x].kids| ensures KidKept(s, g, s2, g2, s[x].kids[i], x) {
        GrowOtherKid(c, s, g, p, q, r, s2, g2, x, s[x].kids[i]);
      }
      InnerFrame(s, g, s2, g2, x);
    } else {
      assert LeafOk(s2, g2, x);
    }
  }

  lemma GrowOtherKid(c: Config, s: Pages, g: Ranges, p: PageId, q: PageId, r: PageId, s2: Pages, g2: Ranges,
                     x: PageId, y: PageId)
    requires GrowStep(c, s, g, p, q, r, s2, g2)
    requires x in s && x != p && s[x].Inner? && y in s[x].kids
    ensures KidKept(s, g, s2, g2, y, x)
  {
    KidFacts(c, s, p, g, p, x, y);
    if s[p].Inner? && y in s[p].kids {
      KidFacts(c, s, p, g, p, p, y);
    }
  }

  lemma GrowOtherParentOk(c: Config, s: Pages, g: Ranges, p: PageId, q: PageId, r: PageId, s2: Pages, g2: Ranges,
                          x: PageId)
    requires GrowStep(c, s, g, p, q, r, s2, g2)
    requires x in s && x != p
    ensures ParentOk(s2, g2, r, x)
  {
    assert PageOk(c, s, p, g, p, x);
    ParentFacts(c, s, p, g, p, x);
    if s[x].parent == p {
      UpperMembers(s[p].kids, Half(s[p]), x);
    } else if s[p].Inner? && x in s[p].kids {
      KidFacts(c, s, p, g, p, p, x);
    }
  }

  lemma GrowKeepsInv(c: Config, s: Pages, g: Ranges, p: PageId, q: PageId, r: PageId, s2: Pages, g2: Ranges)
    requires GrowStep(c, s, g, p, q, r, s2, g2)
    ensures Inv(c, s2, r, g2, INVALID_PAGE_ID)
  {
    forall x | x in s2 ensures PageOk(c, s2, r, g2, INVALID_PAGE_ID, x) {
      if x == p {
        GrowLowerOk(c, s, g, p, q, r, s2, g2);
      } else if x == r {
        GrowRootOk(c, s, g, p, q, r, s2, g2);
      } else if x == q {
        GrowUpperOk(c, s, g, p, q, r, s2, g2);
      } else {
        GrowOtherOk(c, s, g, p, q, r, s2, g2, x);
      }
    }
  }

  /** Putting an entry of the leaf's range into its sorted place leaves at most one entry too many. */
  lemma LeafInsertKeepsInv(c: Config, s: Pages, root: PageId, g: Ranges, p: PageId, at: nat, e: Entry)
    requires Inv(c, s, root, g, INVALID_PAGE_ID) && p in s && s[p].Leaf? && Within(e.key, g[p])
    requires at <= |s[p].items|
    requires forall i :: 0 <= i < at ==> s[p].items[i].key < e.key
    requires forall i :: at <= i < |s[p].items| ==> e.key < s[p].items[i].key
    ensures var s2 := s[p := Leaf(s[p].parent, s[p].next, InsertAt(s[p].items, at, e))];
      && Inv(c, s2, root, g, p)
      && Entries(s2) == Entries(s) + {e}
  {
    var items := InsertAt(s[p].items, at, e);
    var s2 := s[p := Leaf(s[p].parent, s[p].next, items)];
    assert PageOk(c, s, root, g, INVALID_PAGE_ID, p);
    forall i | 0 <= i < |items|
      ensures items[i] == if i < at then s[p].items[i] else if i == at then e else s[p].items[i - 1]
    {
      InsertIndex(s[p].items, at, e, i);
    }
    forall x | x in s2 ensures PageOk(c, s2, root, g, p, x) {
      assert PageOk(c, s, root, g, INVALID_PAGE_ID, x);
      if s[x].Inner? {
        forall i | 0 <= i < |s[x].kids| ensures KidKept(s, g, s2, g, s[x].kids[i], x) {
          assert ChildOk(s, g, x, i);
        }
        InnerFrame(s, g, s2, g, x);
      }
    }
    LeafInsertEntries(s, p, at, e);
  }

  lemma LeafInsertEntries(s: Pages, p: PageId, at: nat, e: Entry)
    requires p in s && s[p].Leaf? && at <= |s[p].items|
    ensures Entries(s[p := Leaf(s[p].parent, s[p].next, InsertAt(s[p].items, at, e))]) == Entries(s) + {e}
  {
    var items := InsertAt(s[p].items, at, e);
    var s2 := s[p := Leaf(s[p].parent, s[p].next, items)];
    assert s[p].items == s[p].items[..at] + s[p].items[at..];
    assert e in items;
    forall f | f in Entries(s) + {e} ensures f in Entries(s2) {
      if f == e {
        assert f in s2[p].items;
      } else {
        var x :| x in s && s[x].Leaf? && f in s[x].items;
        assert f in s2[x].items;
      }
    }
    forall f | f in Entries(s2) ensures f in Entries(s) + {e} {
      var x :| x in s2 && s2[x].Leaf? && f in s2[x].items;
      if f != e {
        assert f in s[x].items;
      }
    }
  }
}
