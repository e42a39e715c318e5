/** What a removal will lead to, decided before it starts. */
module BTreeFate {
  import opened BTreePages
  import opened BTreeShape
  import opened BTreeInsert
  import opened BTreeSearch
  import opened BTreeRemove
  import opened BTreeBorrow
  import opened BTreeAstray

  /** Sound: the tree stays well-formed. Broken: it does not, and an entry is lost. Undefined: the source
      reads keys from page 0, which is no page of the tree. */
  datatype Outcome = Sound | Broken | Undefined

  function SiblingSlot(i: nat): nat {
    if i == 0 then 1 else i - 1
  }

  /** The outcome of a borrow for an internal page in slot 0 that has one child left. The source descends by
      the unused key of the page's own slot 0, and goes on from the leaf it finds along the leaf chain. */
  ghost function SlotZeroFate(s: Pages, g: Ranges, x: PageId): Outcome
    requires x in s && x in g && s[x].Inner? && |s[x].keys| >= 1
  {
    if g[x].level == 1 && Within(s[x].keys[0], g[x]) then Sound
    else if LastCovers(s, g, s[x].keys[0]) then Undefined
    else Broken
  }

  /** The outcome of rebalancing once page `x` is down to `n` entries, too few. */
  ghost function Fate(c: Config, s: Pages, root: PageId, g: Ranges, ex: PageId, x: PageId, n: int): Outcome
    requires Inv(c, s, root, g, ex) && x in s
    decreases g[root].level - g[x].level
  {
    if x == root then Sound
    else
      ParentFacts(c, s, root, g, ex, x);
      var p := s[x].parent;
      assert PageOk(c, s, root, g, ex, p) && PageOk(c, s, root, g, ex, x);
      var i := IndexOf(s[p].kids, x);
      if |s[p].kids| < 2 then Sound
      else
        var sib := s[p].kids[SiblingSlot(i)];
        KidFacts(c, s, root, g, ex, p, sib);
        var up := if |s[p].kids| - 1 < c.MinSize(s[p]) then Fate(c, s, root, g, ex, p, |s[p].kids| - 1) else Sound;
        if n + s[sib].Size() <= c.MaxSize(s[x]) then up else BorrowFate(s, g, x, i, n)
  }

  /** The outcome of a borrow for page `x`, in slot `i` and down to `n` entries. */
  ghost function BorrowFate(s: Pages, g: Ranges, x: PageId, i: nat, n: int): Outcome
    requires x in s && x in g && (s[x].Inner? ==> |s[x].keys| >= 1)
  {
    if s[x].Leaf? then Sound
    else if i == 0 && n == 1 then SlotZeroFate(s, g, x)
    else if g[x].level == 1 then Sound
    else Broken
  }

  /** What Fate looks at in a page. */
  ghost predicate SameFrame(s: Pages, g: Ranges, s2: Pages, g2: Ranges, y: PageId)
    requires y in s && y in g
  {
    && y in s2 && y in g2 && g2[y] == g[y]
    && s2[y].parent == s[y].parent && (s2[y].Leaf? <==> s[y].Leaf?)
    && s2[y].Size() == s[y].Size() && (s[y].Inner? ==> s2[y].kids == s[y].kids)
    && SameSlotZero(s[y], s2[y])
  }

  ghost predicate SameSlotZero(x: Page, y: Page) {
    x.Inner? && y.Inner? && |x.keys| >= 1 && |y.keys| >= 1 ==> x.keys[0] == y.keys[0]
  }

  ghost predicate SameLast(s: Pages, g: Ranges, s2: Pages, g2: Ranges) {
    forall k :: LastCovers(s, g, k) <==> LastCovers(s2, g2, k)
  }

  /** Page by page, and with the last leaf's range, what the fate of a shortage in `x` depends on. */
  ghost predicate SameAbove(s: Pages, g: Ranges, s2: Pages, g2: Ranges, x: PageId)
    requires s.Keys == g.Keys && x in s && x in s2 && x in g2
  {
    && s2[x].parent == s[x].parent && g2[x] == g[x] && (s2[x].Leaf? <==> s[x].Leaf?) && SameSlotZero(s[x], s2[x])
    && (forall y {:trigger SameFrame(s, g, s2, g2, y)} :: y in s && y != x && g[y].level >= g[x].level ==>
      SameFrame(s, g, s2, g2, y))
    && (g[x].hi.At? ==> SameLast(s, g, s2, g2))
  }

  lemma SameAboveParent(c: Config, s: Pages, root: PageId, g: Ranges, ex: PageId, s2: Pages, g2: Ranges, x: PageId)
    requires Inv(c, s, root, g, ex) && x in s && x in s2 && x in g2 && SameAbove(s, g, s2, g2, x) && x != root
    ensures var p := s[x].parent; p in s && p in g && SameFrame(s, g, s2, g2, p) && SameAbove(s, g, s2, g2, p)
  {
    ParentFacts(c, s, root, g, ex, x);
    assert SameFrame(s, g, s2, g2, s[x].parent);
  }

  lemma SameBorrowFate(s: Pages, g: Ranges, s2: Pages, g2: Ranges, x: PageId, i: nat, n: int)
    requires s.Keys == g.Keys && x in s && x in s2 && x in g2 && SameAbove(s, g, s2, g2, x) && (i == 0 ==> g[x].hi.At?)
    requires (s[x].Inner? ==> |s[x].keys| >= 1) && (s2[x].Inner? ==> |s2[x].keys| >= 1)
    ensures BorrowFate(s2, g2, x, i, n) == BorrowFate(s, g, x, i, n)
  {
  }

  /** Changes below page `x`, and inside it, do not alter the fate of a shortage in `x`. */
  lemma {:induction false} FateFrame(c: Config, s: Pages, root: PageId, g: Ranges, ex: PageId,
                                     s2: Pages, g2: Ranges, ex2: PageId, x: PageId, n: int)
    requires Inv(c, s, root, g, ex) && Inv(c, s2, root, g2, ex2) && x in s && x in s2 && SameAbove(s, g, s2, g2, x)
    ensures Fate(c, s2, root, g2, ex2, x, n) == Fate(c, s, root, g, ex, x, n)
    decreases g[root].level - g[x].level
  {
    if x != root {
      ParentFacts(c, s, root, g, ex, x);
      ParentFacts(c, s2, root, g2, ex2, x);
      var p := s[x].parent;
      SameAboveParent(c, s, root, g, ex, s2, g2, x);
      assert Distinct(s[p].kids) by {
        assert PageOk(c, s, root, g, ex, p);
      }
      var i := IndexOf(s[p].kids, x);
      if |s[p].kids| >= 2 {
        var sib := s[p].kids[SiblingSlot(i)];
        assert sib in s && SameFrame(s, g, s2, g2, sib) by {
          KidFacts(c, s, root, g, ex, p, sib);
          assert sib != x && g[sib].level == g[x].level;
        }
        FateFrame(c, s, root, g, ex, s2, g2, ex2, p, |s[p].kids| - 1);
        assert (s[x].Inner? ==> |s[x].keys| >= 1) && (s2[x].Inner? ==> |s2[x].keys| >= 1) by {
          assert PageOk(c, s, root, g, ex, x) && PageOk(c, s2, root, g2, ex2, x);
        }
        SameBorrowFate(s, g, s2, g2, x, i, n);
      }
    }
  }

  /** With room for five children an internal page that is short still has two. */
  lemma {:induction false} NeverUndefined(c: Config, s: Pages, root: PageId, g: Ranges, ex: PageId, x: PageId, n: int)
    requires Inv(c, s, root, g, ex) && x in s && c.innerMax >= 5 && (ex in s ==> g[ex].level <= g[x].level)
    requires s[x].Inner? && x != root ==> n == c.MinSize(s[x]) - 1
    ensures Fate(c, s, root, g, ex, x, n) != Undefined
    decreases g[root].level - g[x].level
  {
    if x != root {
      ParentFacts(c, s, root, g, ex, x);
      assert PageOk(c, s, root, g, ex, x);
      var p := s[x].parent;
      assert PageOk(c, s, root, g, ex, p);
      if |s[p].kids| - 1 < c.MinSize(s[p]) {
        NeverUndefined(c, s, root, g, ex, p, |s[p].kids| - 1);
      }
    }
  }

  /** The one leaf whose range covers `key`. */
  ghost function HomeLeaf(c: Config, s: Pages, root: PageId, g: Ranges, key: int): (p: PageId)
    requires Inv(c, s, root, g, INVALID_PAGE_ID)
    ensures p in s && s[p].Leaf? && Within(key, g[p])
    ensures forall q :: q in s && s[q].Leaf? && Within(key, g[q]) ==> q == p
  {
    HomeExists(c, s, root, g, INVALID_PAGE_ID, root, key);
    var p :| p in s && s[p].Leaf? && Within(key, g[p]);
    HomeUnique(c, s, root, g, key, p);
    p
  }

  lemma HomeUnique(c: Config, s: Pages, root: PageId, g: Ranges, key: int, p: PageId)
    requires Inv(c, s, root, g, INVALID_PAGE_ID) && p in s && s[p].Leaf? && Within(key, g[p])
    ensures forall q :: q in s && s[q].Leaf? && Within(key, g[q]) ==> q == p
  {
    assert PageOk(c, s, root, g, INVALID_PAGE_ID, p);
    forall q | q in s && s[q].Leaf? && Within(key, g[q]) ensures q == p {
      assert PageOk(c, s, root, g, INVALID_PAGE_ID, q);
      OnePagePerKey(c, s, root, g, INVALID_PAGE_ID, q, p, key);
    }
  }

  ghost predicate HoldsKey(items: seq<Entry>, key: int) {
    exists i :: 0 <= i < |items| && items[i].key == key
  }

  ghost function SlotOfKey(items: seq<Entry>, key: int): (at: nat)
    requires HoldsKey(items, key)
    ensures at < |items| && items[at].key == key
  {
    var i: nat :| i < |items| && items[i].key == key;
    i
  }

  /** The outcome of `Remove(key)` on a well-formed tree. For a present key it is the fate of the leaf once
      the record is gone. An absent key is harmless unless it would sort before every entry of a leaf that
      is not its parent's first child: the source then rewrites the leaf's separator before it looks for
      the key. */
  ghost function RemoveOutcome(c: Config, s: Pages, root: PageId, g: Ranges, key: int): Outcome
    requires Inv(c, s, root, g, INVALID_PAGE_ID) && c.leafMax >= 4
  {
    var p := HomeLeaf(c, s, root, g, key);
    assert PageOk(c, s, root, g, INVALID_PAGE_ID, p);
    if HoldsKey(s[p].items, key) then DeleteOutcome(c, s, root, g, p, SlotOfKey(s[p].items, key))
    else if p != root && key < s[p].items[0].key && IndexOf(s[s[p].parent].kids, p) > 0 then Broken
    else Sound
  }

  /** The outcome of deleting record `at` of leaf `p`. */
  ghost function DeleteOutcome(c: Config, s: Pages, root: PageId, g: Ranges, p: PageId, at: nat): Outcome
    requires Inv(c, s, root, g, INVALID_PAGE_ID) && p in s && s[p].Leaf? && at < |s[p].items|
    requires p != root ==> |s[p].items| >= 2
  {
    DeleteOk(c, s, root, g, p, at);
    if |s[p].items| - 1 < c.MinSize(s[p])
    then Fate(c, DeletedPages(s, p, at), root, DeletedRanges(s, g, p, at), p, p, |s[p].items| - 1)
    else Sound
  }

  lemma RemoveDefined(c: Config, s: Pages, root: PageId, g: Ranges, key: int)
    requires Inv(c, s, root, g, INVALID_PAGE_ID) && c.leafMax >= 4 && c.innerMax >= 5
    ensures RemoveOutcome(c, s, root, g, key) != Undefined
  {
    var p := HomeLeaf(c, s, root, g, key);
    assert PageOk(c, s, root, g, INVALID_PAGE_ID, p);
    if HoldsKey(s[p].items, key) {
      var at := SlotOfKey(s[p].items, key);
      DeleteOk(c, s, root, g, p, at);
      NeverUndefined(c, DeletedPages(s, p, at), root, DeletedRanges(s, g, p, at), p, p, |s[p].items| - 1);
    }
  }

  // ---------- The steps of a removal, with the outcomes they lead to ----------

  /** What the source reads around the boundary of two pages of leaves. */
  lemma BoundaryReads(c: Config, s: Pages, root: PageId, g: Ranges, pp: PageId, i: nat, a: PageId, b: PageId,
                      left: bool, x: PageId, f: PageId, l: PageId, r: PageId, pre: PageId)
    requires BorrowReady(c, s, root, g, pp, i, a, b, left) && g[a].level == 1
    requires BoundaryLeaves(s, a, b, left, x, f, l, r)
    requires |s[a].kids| >= 2 || Within(s[a].keys[0], g[a])
    requires pre in s && s[pre].Leaf? && Within(s[a].keys[|s[a].keys| - 1], g[pre])
    ensures pre == x && s[pre].next == f && (left ==> s[f].next == r)
  {
    var ex := if left then a else b;
    NeighbourFacts(c, s, root, g, ex, pp, i, a, b);
    assert ChildOk(s, g, a, |s[a].kids| - 1) && ChildOk(s, g, b, 0);
    assert PageOk(c, s, root, g, ex, x) && PageOk(c, s, root, g, ex, pre);
    OnePagePerKey(c, s, root, g, ex, pre, x, s[a].keys[|s[a].keys| - 1]);
    NextNeighbour(c, s, root, g, ex, x, f);
    if left {
      assert ChildOk(s, g, b, 1);
      NextNeighbour(c, s, root, g, ex, f, r);
    }
  }

  /** One merge: the pages, and how the outcome is passed up to the parent. */
  lemma MergeWhole(c: Config, s: Pages, root: PageId, g: Ranges, ex: PageId, pp: PageId, i: nat, a: PageId, b: PageId)
    requires Inv(c, s, root, g, ex) && Neighbours(s, pp, i, a, b) && (ex == a || ex == b)
    requires s[ex].Size() == c.MinSize(s[ex]) - 1 && s[a].Size() + s[b].Size() <= c.MaxSize(s[a]) && c.leafMax >= 2
    requires i == 1 || ex == b
    ensures (s[a].Leaf? <==> s[b].Leaf?) && (s[a].Inner? ==> |s[b].keys| == |s[b].kids| >= 1)
    ensures var s2, g2 := MergePages(s, pp, i, a, b), MergeRanges(g, a, b);
      && Inv(c, s2, root, g2, pp) && pp in s2 && Entries(s2) == Entries(s)
      && s2[pp].Inner? && s2[pp].Size() == s[pp].Size() - 1 >= c.MinSize(s2[pp]) - 1 && s2[pp].Size() <= c.innerMax
      && s2[pp].parent == s[pp].parent
      && Fate(c, s, root, g, ex, ex, s[ex].Size()) ==
        (if s2[pp].Size() < c.MinSize(s2[pp]) then Fate(c, s2, root, g2, pp, pp, s2[pp].Size()) else Sound)
      && g2[root].level == g[root].level && g2[pp].level == g[pp].level == g[ex].level + 1
  {
    MergeIsMerged(c, s, root, g, ex, pp, i, a, b);
    NeighbourFacts(c, s, root, g, ex, pp, i, a, b);
    var s2, g2 := MergePages(s, pp, i, a, b), MergeRanges(g, a, b);
    MergeKeepsInv(c, s, root, g, ex, pp, i, a, b, s2, g2);
    MergeKeepsEntries(s, pp, i, a, b, s2);
    MergeFate(c, s, root, g, ex, pp, i, a, b, s2, g2);
    FateOfMerge(c, s, root, g, ex, pp, i, a, b);
  }

  lemma MergeFate(c: Config, s: Pages, root: PageId, g: Ranges, ex: PageId, pp: PageId, i: nat, a: PageId, b: PageId,
                  s2: Pages, g2: Ranges)
    requires MergeStep(c, s, root, g, ex, pp, i, a, b, s2, g2) && Inv(c, s2, root, g2, pp)
    ensures forall n :: Fate(c, s2, root, g2, pp, pp, n) == Fate(c, s, root, g, ex, pp, n)
  {
    NeighbourFacts(c, s, root, g, ex, pp, i, a, b);
    forall y | y in s && y != pp && g[y].level >= g[pp].level ensures SameFrame(s, g, s2, g2, y) {
      if s[b].Inner? && y in s[b].kids {
        KidFacts(c, s, root, g, ex, b, y);
      }
    }
    if g[pp].hi.At? {
      MergeSparesLast(c, s, root, g, ex, pp, i, a, b, s2, g2);
    }
    forall n ensures Fate(c, s2, root, g2, pp, pp, n) == Fate(c, s, root, g, ex, pp, n) {
      FateFrame(c, s, root, g, ex, s2, g2, pp, pp, n);
    }
  }

  /** A merge away from the right edge of the tree leaves the last leaf alone. */
  lemma MergeSparesLast(c: Config, s: Pages, root: PageId, g: Ranges, ex: PageId, pp: PageId, i: nat, a: PageId,
                        b: PageId, s2: Pages, g2: Ranges)
    requires MergeStep(c, s, root, g, ex, pp, i, a, b, s2, g2) && g[pp].hi.At?
    ensures SameLast(s, g, s2, g2)
  {
    NeighbourFacts(c, s, root, g, ex, pp, i, a, b);
    forall k ensures LastCovers(s, g, k) <==> LastCovers(s2, g2, k) {
      if LastCovers(s, g, k) {
        var q :| q in s && q in g && s[q].Leaf? && g[q].hi.PosInf? && Within(k, g[q]);
        assert q in s2 && g2[q] == g[q] && s2[q].Leaf?;
      }
      if LastCovers(s2, g2, k) {
        var q :| q in s2 && q in g2 && s2[q].Leaf? && g2[q].hi.PosInf? && Within(k, g2[q]);
        assert q != a && q != pp;
        assert q in s && g2[q] == g[q] && s[q].Leaf?;
      }
    }
  }

  lemma FateOfMerge(c: Config, s: Pages, root: PageId, g: Ranges, ex: PageId, pp: PageId, i: nat, a: PageId, b: PageId)
    requires Inv(c, s, root, g, ex) && Neighbours(s, pp, i, a, b) && (ex == a || ex == b) && (i == 1 || ex == b)
    requires s[a].Size() + s[b].Size() <= c.MaxSize(s[a])
    ensures Fate(c, s, root, g, ex, ex, s[ex].Size()) ==
      if |s[pp].kids| - 1 < c.MinSize(s[pp]) then Fate(c, s, root, g, ex, pp, |s[pp].kids| - 1) else Sound
  {
    NeighbourFacts(c, s, root, g, ex, pp, i, a, b);
    SlotOf(s[pp].kids, i);
    SlotOf(s[pp].kids, i - 1);
  }

  lemma SlotOf(ids: seq<PageId>, i: nat)
    requires Distinct(ids) && i < |ids|
    ensures IndexOf(ids, ids[i]) == i
  {
  }

  // The entries of two neighbouring leaves after one entry crossed over, and the new separator.

  function BorrowKey(xs: seq<Entry>, ys: seq<Entry>, left: bool): int
    requires if left then |ys| >= 2 else |xs| >= 2
  {
    if left then ys[1].key else xs[|xs| - 1].key
  }

  function BorrowA(xs: seq<Entry>, ys: seq<Entry>, left: bool): seq<Entry>
    requires if left then |ys| >= 2 else |xs| >= 2
  {
    if left then xs + [ys[0]] else xs[..|xs| - 1]
  }

  function BorrowB(xs: seq<Entry>, ys: seq<Entry>, left: bool): seq<Entry>
    requires if left then |ys| >= 2 else |xs| >= 2
  {
    if left then ys[1..] else [xs[|xs| - 1]] + ys
  }

  /** One entry moved between neighbouring leaves, the separator above is the first key of the right one, and
      nothing else changed. */
  ghost predicate LeafBorrowed(s: Pages, pp: PageId, i: nat, a: PageId, b: PageId, left: bool, s2: Pages)
    requires Neighbours(s, pp, i, a, b) && s[a].Leaf? && s[b].Leaf?
  {
    var xs, ys := s[a].items, s[b].items;
    && s2.Keys == s.Keys && s2[a].Leaf? && s2[b].Leaf? && |xs| > 0 && |s2[b].items| > 0
    && s2[a].items + s2[b].items == xs + ys && |s2[a].items| == (if left then |xs| + 1 else |xs| - 1)
    && s2[a].parent == s[a].parent && s2[a].next == s[a].next && s2[b].parent == s[b].parent && s2[b].next == s[b].next
    && s2[pp] == SetKeyAt(s[pp], i, s2[b].items[0].key)
    && forall x :: x in s && x != a && x != b && x != pp ==> s2[x] == s[x]
  }

  /** One child moved between neighbouring internal pages and names its new parent; no other page's children
      changed, nor any key but those of the two pages and the separator above. */
  ghost predicate ChildBorrowed(s: Pages, pp: PageId, i: nat, a: PageId, b: PageId, left: bool, s2: Pages)
    requires Neighbours(s, pp, i, a, b) && s[a].Inner? && s[b].Inner? && |s[a].kids| >= 1 && |s[b].kids| >= 1
  {
    var xs, ys := s[a].kids, s[b].kids;
    var m := if left then ys[0] else xs[|xs| - 1];
    && s2.Keys == s.Keys && s2[a].Inner? && s2[b].Inner?
    && s2[a].kids + s2[b].kids == xs + ys && |s2[a].kids| == (if left then |xs| + 1 else |xs| - 1)
    && m in s && s2[m] == SetParent(s[m], if left then a else b)
    && (exists key :: s2[pp] == SetKeyAt(s[pp], i, key))
    && forall x :: x in s && x != a && x != b && x != pp && x != m ==> s2[x] == s[x]
  }

  lemma BorrowMovesChild(s: Pages, pp: PageId, i: nat, a: PageId, b: PageId, left: bool, middleKey: int, separator: int)
    requires Neighbours(s, pp, i, a, b) && s[a].Inner? && s[b].Inner? && a != pp && b != pp && a != b
    requires |s[a].keys| == |s[a].kids| >= 1 && |s[b].keys| == |s[b].kids| >= 1
    requires var m := Moved(s, a, b, left); m in s && m != a && m != b && m != pp
    ensures ChildBorrowed(s, pp, i, a, b, left, BorrowPages(s, pp, i, a, b, left, middleKey, separator))
  {
    var s2 := BorrowPages(s, pp, i, a, b, left, middleKey, separator);
    assert s2[pp] == SetKeyAt(s[pp], i, separator);
  }

  ghost predicate FirstKeyOf(s: Pages, p: PageId, key: int) {
    p in s && s[p].Leaf? && |s[p].items| >= 1 ==> key == s[p].items[0].key
  }

  lemma BorrowLeftItems(xs: seq<Entry>, ys: seq<Entry>, ga: Range, gb: Range)
    requires Sorted(xs) && Sorted(ys) && |ys| >= 2 && ga.hi == gb.lo && ga.hi.At? && Less(ga.lo, ga.hi)
    requires forall j :: 0 <= j < |xs| ==> Within(xs[j].key, ga)
    requires forall j :: 0 <= j < |ys| ==> Within(ys[j].key, gb)
    ensures BorrowedItemsOk(xs, ys, ga, gb, true)
  {
  }

  lemma BorrowRightItems(xs: seq<Entry>, ys: seq<Entry>, ga: Range, gb: Range)
    requires Sorted(xs) && Sorted(ys) && |xs| >= 2 && ga.hi == gb.lo && ga.hi.At? && Less(gb.lo, gb.hi)
    requires forall j :: 0 <= j < |xs| ==> Within(xs[j].key, ga)
    requires forall j :: 0 <= j < |ys| ==> Within(ys[j].key, gb)
    ensures BorrowedItemsOk(xs, ys, ga, gb, false)
  {
    assert xs[0].key < xs[|xs| - 1].key;
  }

  ghost predicate BorrowedItemsOk(xs: seq<Entry>, ys: seq<Entry>, ga: Range, gb: Range, left: bool)
    requires if left then |ys| >= 2 else |xs| >= 2
  {
    var key, itemsA, itemsB := BorrowKey(xs, ys, left), BorrowA(xs, ys, left), BorrowB(xs, ys, left);
    && Sorted(itemsA) && Sorted(itemsB)
    && (forall j :: 0 <= j < |itemsA| ==> Within(itemsA[j].key, Range(0, ga.lo, At(key))))
    && (forall j :: 0 <= j < |itemsB| ==> Within(itemsB[j].key, Range(0, At(key), gb.hi)))
    && Less(ga.lo, At(key)) && Less(At(key), gb.hi)
  }

  ghost predicate LeafBorrowReady(c: Config, s: Pages, root: PageId, g: Ranges, pp: PageId, i: nat, a: PageId,
                                  b: PageId, left: bool) {
    var ex := if left then a else b;
    && Inv(c, s, root, g, ex) && Neighbours(s, pp, i, a, b) && s[a].Leaf? && s[b].Leaf?
    && s[ex].Size() == c.MinSize(s[ex]) - 1 && s[a].Size() + s[b].Size() > c.leafMax && c.leafMax >= 4
  }

  lemma LeafBorrowSizes(c: Config, s: Pages, root: PageId, g: Ranges, pp: PageId, i: nat, a: PageId, b: PageId,
                        left: bool)
    requires LeafBorrowReady(c, s, root, g, pp, i, a, b, left)
    ensures |s[a].items| >= 1 && |s[b].items| >= 1 && (if left then |s[b].items| >= 2 else |s[a].items| >= 2)
    ensures BorrowedItemsOk(s[a].items, s[b].items, g[a], g[b], left)
    ensures SizeOk(c, SetItems(s[a], BorrowA(s[a].items, s[b].items, left)), false)
    ensures SizeOk(c, SetItems(s[b], BorrowB(s[a].items, s[b].items, left)), false)
  {
    NeighbourFacts(c, s, root, g, if left then a else b, pp, i, a, b);
    if left {
      BorrowLeftItems(s[a].items, s[b].items, g[a], g[b]);
    } else {
      BorrowRightItems(s[a].items, s[b].items, g[a], g[b]);
    }
  }

  /** The two leaf borrows: the boundary moves by one entry and both leaves are within bounds again. */
  lemma LeafBorrowOk(c: Config, s: Pages, root: PageId, g: Ranges, pp: PageId, i: nat, a: PageId, b: PageId, left: bool)
    requires LeafBorrowReady(c, s, root, g, pp, i, a, b, left)
    ensures |s[a].items| >= 1 && |s[b].items| >= 1 && (if left then |s[b].items| >= 2 else |s[a].items| >= 2)
    ensures var xs, ys := s[a].items, s[b].items;
      var s2 := ShiftPages(s, pp, i, BorrowKey(xs, ys, left), a, BorrowA(xs, ys, left), b, BorrowB(xs, ys, left));
      && Inv(c, s2, root, ShiftRanges(g, BorrowKey(xs, ys, left), a, b), INVALID_PAGE_ID)
      && Entries(s2) == Entries(s)
  {
    var ex := if left then a else b;
    LeafBorrowSizes(c, s, root, g, pp, i, a, b, left);
    var xs, ys := s[a].items, s[b].items;
    var key, itemsA, itemsB := BorrowKey(xs, ys, left), BorrowA(xs, ys, left), BorrowB(xs, ys, left);
    assert INVALID_PAGE_ID !in s by {
      InvalidIsNoPage(c, s, root, g, ex);
    }
    ShiftKeepsInv(c, s, root, g, ex, INVALID_PAGE_ID, pp, i, key, a, itemsA, b, itemsB);
    assert a != b && a != pp && b != pp by {
      NeighbourFacts(c, s, root, g, ex, pp, i, a, b);
    }
    LeafBorrowEntries(s, pp, i, a, b, left);
  }

  lemma LeafBorrowEntries(s: Pages, pp: PageId, i: nat, a: PageId, b: PageId, left: bool)
    requires Neighbours(s, pp, i, a, b) && s[a].Leaf? && s[b].Leaf? && a != b && a != pp && b != pp
    requires if left then |s[b].items| >= 2 else |s[a].items| >= 2
    ensures var xs, ys := s[a].items, s[b].items;
      Entries(ShiftPages(s, pp, i, BorrowKey(xs, ys, left), a, BorrowA(xs, ys, left), b, BorrowB(xs, ys, left)))
        == Entries(s)
  {
    var xs, ys := s[a].items, s[b].items;
    var key, itemsA, itemsB := BorrowKey(xs, ys, left), BorrowA(xs, ys, left), BorrowB(xs, ys, left);
    assert itemsA + itemsB == xs + ys;
    SameJointEntries(s, ShiftPages(s, pp, i, key, a, itemsA, b, itemsB), a, b);
  }

  /** Where the source looks for the separator of a leaf borrow, it finds the two leaves themselves. */
  lemma LeafBorrowReads(c: Config, s: Pages, root: PageId, g: Ranges, pp: PageId, i: nat, a: PageId, b: PageId,
                        left: bool, pre: PageId)
    requires LeafBorrowReady(c, s, root, g, pp, i, a, b, left) && |s[a].items| >= 1
    requires pre in s && s[pre].Leaf? && Within(s[a].items[|s[a].items| - 1].key, g[pre])
    ensures pre == a && s[pre].next == b
  {
    var ex := if left then a else b;
    NeighbourFacts(c, s, root, g, ex, pp, i, a, b);
    assert PageOk(c, s, root, g, ex, pre);
    OnePagePerKey(c, s, root, g, ex, pre, a, s[a].items[|s[a].items| - 1].key);
    NextNeighbour(c, s, root, g, ex, a, b);
  }

  lemma BorrowIsReady(c: Config, s: Pages, root: PageId, g: Ranges, pp: PageId, i: nat, a: PageId, b: PageId,
                      left: bool)
    requires var ex := if left then a else b;
      && Inv(c, s, root, g, ex) && Neighbours(s, pp, i, a, b) && s[ex].Inner?
      && s[ex].Size() == c.MinSize(s[ex]) - 1 && s[a].Size() + s[b].Size() > c.innerMax
    ensures BorrowReady(c, s, root, g, pp, i, a, b, left)
    ensures a != b && a != pp && b != pp
    ensures var m := Moved(s, a, b, left); m != a && m != b && m != pp
  {
  }

  /** The outcome of a borrow between internal pages. */
  ghost function BorrowOutcome(s: Pages, g: Ranges, a: PageId): Outcome
    requires a in s && a in g && s[a].Inner? && |s[a].keys| >= 1
  {
    if |s[a].kids| == 1 then SlotZeroFate(s, g, a) else if g[a].level == 1 then Sound else Broken
  }

  /** In outcome Broken the pages after the borrow are ruined. */
  lemma BorrowRuins(c: Config, s: Pages, root: PageId, g: Ranges, pp: PageId, i: nat, a: PageId, b: PageId, left: bool,
                    pre: PageId, middleKey: int, separator: int)
    requires BorrowReady(c, s, root, g, pp, i, a, b, left) && BorrowOutcome(s, g, a) == Broken && (left ==> i == 1)
    requires pre in s && s[pre].Leaf? && Within(s[a].keys[|s[a].keys| - 1], g[pre])
    requires var mid := s[pre].next; mid in s && s[mid].Leaf? && |s[mid].items| >= 1 ==>
      middleKey == s[mid].items[0].key
    requires var mid := s[pre].next; left && mid in s && s[mid].Leaf? ==>
      var after := s[mid].next;
      after in s && s[after].Leaf? && |s[after].items| >= 1 ==> separator == s[after].items[0].key
    ensures Ruins(c, BorrowPages(s, pp, i, a, b, left, middleKey, separator), root)
  {
    BorrowSizes(c, s, root, g, pp, i, a, b, left);
    NeighbourFacts(c, s, root, g, if left then a else b, pp, i, a, b);
    if |s[a].kids| == 1 {
      assert PageOk(c, s, root, g, a, pre);
      SlotZeroBreaks(c, s, root, g, pp, a, b, pre, middleKey, separator);
    } else {
      HighBorrowBreaks(c, s, root, g, pp, i, a, b, left, pre, middleKey, separator);
    }
  }

  /** What the source reads for a borrow between internal pages, once the descent has found leaf `pre`. */
  ghost predicate KeysRead(s: Pages, pre: PageId, left: bool, middleKey: int, separator: int) {
    && pre in s && s[pre].Leaf? && FirstKeyOf(s, s[pre].next, middleKey)
    && (!left ==> FirstKeyOf(s, pre, separator))
    && (left && s[pre].next in s && s[s[pre].next].Leaf? ==> FirstKeyOf(s, s[s[pre].next].next, separator))
  }

  /** How a borrow between internal pages ends. */
  lemma BorrowEnds(c: Config, s: Pages, root: PageId, g: Ranges, pp: PageId, i: nat, a: PageId, b: PageId, left: bool,
                   pre: PageId, middleKey: int, separator: int)
    returns (g2: Ranges)
    requires BorrowReady(c, s, root, g, pp, i, a, b, left) && (left ==> i == 1)
    requires KeysRead(s, pre, left, middleKey, separator) && Within(s[a].keys[|s[a].keys| - 1], g[pre])
    ensures var s2 := BorrowPages(s, pp, i, a, b, left, middleKey, separator);
      && Entries(s2) == Entries(s)
      && (BorrowOutcome(s, g, a) == Sound ==> Inv(c, s2, root, g2, INVALID_PAGE_ID))
      && (BorrowOutcome(s, g, a) == Broken ==> Ruins(c, s2, root))
  {
    g2 := g;
    BorrowIsReady(c, s, root, g, pp, i, a, b, left);
    BorrowKeepsEntries(s, pp, i, a, b, left, middleKey, separator);
    var outcome := BorrowOutcome(s, g, a);
    if outcome == Sound {
      var x, f, l, r := BoundaryLeavesExist(c, s, root, g, pp, i, a, b, left);
      BoundaryReads(c, s, root, g, pp, i, a, b, left, x, f, l, r, pre);
      LeafParentBorrowOk(c, s, root, g, pp, i, a, b, left, x, f, l, r);
      g2 := BorrowRanges(s, g, a, b, x, f, l, r);
    } else if outcome == Broken {
      BorrowRuins(c, s, root, g, pp, i, a, b, left, pre, middleKey, separator);
    }
  }

  lemma FateOfBorrow(c: Config, s: Pages, root: PageId, g: Ranges, ex: PageId, pp: PageId, i: nat, a: PageId,
                     b: PageId, left: bool)
    requires Inv(c, s, root, g, ex) && Neighbours(s, pp, i, a, b) && ex == (if left then a else b) && (left ==> i == 1)
    requires s[a].Size() + s[b].Size() > c.MaxSize(s[ex])
    ensures (s[a].Leaf? <==> s[b].Leaf?) && g[a].level == g[b].level
    ensures Fate(c, s, root, g, ex, ex, s[ex].Size()) ==
      if s[a].Leaf? || |s[a].keys| < 1 then Sound else BorrowOutcome(s, g, a)
    ensures s[a].Inner? ==> |s[a].keys| == |s[a].kids| >= 1
  {
    NeighbourFacts(c, s, root, g, ex, pp, i, a, b);
    SlotOf(s[pp].kids, i);
    SlotOf(s[pp].kids, i - 1);
  }

  /** The separator write at the start of `Remove`: when the key sorts first in a leaf that is not the
      root, the leaf's slot in its parent receives the leaf's second key. */
  function Presep(s: Pages, p: PageId, at: nat): Pages
    requires p in s && s[p].Leaf?
  {
    var pp := s[p].parent;
    if at == 0 && |s[p].items| >= 2 && pp in s && s[pp].Inner? && p in s[pp].kids && |s[pp].keys| == |s[pp].kids| then
      s[pp := SetKeyAt(s[pp], IndexOf(s[pp].kids, p), s[p].items[1].key)]
    else s
  }

  function DeletedPages(s: Pages, p: PageId, at: nat): Pages
    requires p in s && s[p].Leaf? && at < |s[p].items|
  {
    Presep(s, p, at)[p := SetItems(s[p], RemoveAt(s[p].items, at))]
  }

  function DeletedRanges(s: Pages, g: Ranges, p: PageId, at: nat): Ranges
    requires p in s && p in g && s[p].Leaf?
  {
    var pp := s[p].parent;
    if at == 0 && |s[p].items| >= 2 && pp in s && s[pp].Inner? && p in s[pp].kids && IndexOf(s[pp].kids, p) > 0
       && s[pp].kids[IndexOf(s[pp].kids, p) - 1] in g
    then ShiftRanges(g, s[p].items[1].key, s[pp].kids[IndexOf(s[pp].kids, p) - 1], p)
    else g
  }

  lemma DeleteFirstOk(c: Config, s: Pages, root: PageId, g: Ranges, p: PageId)
    requires Inv(c, s, root, g, INVALID_PAGE_ID) && p in s && s[p].Leaf? && |s[p].items| >= 2 && p != root
    ensures Inv(c, DeletedPages(s, p, 0), root, DeletedRanges(s, g, p, 0), p)
  {
    ParentFacts(c, s, root, g, INVALID_PAGE_ID, p);
    assert PageOk(c, s, root, g, INVALID_PAGE_ID, p);
    var pp := s[p].parent;
    var i := IndexOf(s[pp].kids, p);
    var k := s[p].items[1].key;
    if i == 0 {
      Slot0Free(c, s, root, g, INVALID_PAGE_ID, pp, k);
      LeafRemoveKeepsInv(c, s[pp := SetKeyAt(s[pp], 0, k)], root, g, p, 0);
    } else {
      DeleteFirstShift(c, s, root, g, p, pp, i, k);
    }
  }

  lemma DeleteFirstShift(c: Config, s: Pages, root: PageId, g: Ranges, p: PageId, pp: PageId, i: nat, k: int)
    requires Inv(c, s, root, g, INVALID_PAGE_ID) && p in s && s[p].Leaf? && |s[p].items| >= 2 && p != root
    requires pp == s[p].parent && pp in s && s[pp].Inner? && p in s[pp].kids && i == IndexOf(s[pp].kids, p) >= 1
    requires |s[pp].keys| == |s[pp].kids| && k == s[p].items[1].key
    ensures Inv(c, DeletedPages(s, p, 0), root, DeletedRanges(s, g, p, 0), p)
  {
    var a := s[pp].kids[i - 1];
    assert PageOk(c, s, root, g, INVALID_PAGE_ID, pp);
    assert ChildOk(s, g, pp, i - 1);
    InvalidIsNoPage(c, s, root, g, INVALID_PAGE_ID);
    NeighbourFacts(c, s, root, g, INVALID_PAGE_ID, pp, i, a, p);
    var rest := RemoveAt(s[p].items, 0);
    assert rest == s[p].items[1..];
    assert SetItems(s[a], s[a].items) == s[a];
    ShiftKeepsInv(c, s, root, g, INVALID_PAGE_ID, p, pp, i, k, a, s[a].items, p, rest);
    assert ShiftPages(s, pp, i, k, a, s[a].items, p, rest) == DeletedPages(s, p, 0);
  }

  /** Removing a present key from its leaf: the tree and what it holds. */
  lemma DeleteOk(c: Config, s: Pages, root: PageId, g: Ranges, p: PageId, at: nat)
    requires Inv(c, s, root, g, INVALID_PAGE_ID) && p in s && s[p].Leaf? && at < |s[p].items|
    requires p != root ==> |s[p].items| >= 2
    ensures var s2, g2 := DeletedPages(s, p, at), DeletedRanges(s, g, p, at);
      && Inv(c, s2, root, g2, p) && Entries(s2) == Entries(s) - {s[p].items[at]}
      && s2[p].parent == s[p].parent
  {
    var s2, g2 := DeletedPages(s, p, at), DeletedRanges(s, g, p, at);
    assert PageOk(c, s, root, g, INVALID_PAGE_ID, p);
    if at == 0 && p != root {
      DeleteFirstOk(c, s, root, g, p);
    } else {
      InvalidIsNoPage(c, s, root, g, INVALID_PAGE_ID);
      LeafRemoveKeepsInv(c, s, root, g, p, at);
    }
    RemovedEntries(c, s, root, g, INVALID_PAGE_ID, p, at, s2);
  }

  /** A separator lifted over the first entry of its leaf loses that entry. */
  lemma LiftedOver(c: Config, s: Pages, root: PageId, g: Ranges, p: PageId)
    requires Inv(c, s, root, g, INVALID_PAGE_ID) && p in s && s[p].Leaf? && p != root && |s[p].items| >= 2
    requires var pp := s[p].parent; pp in s && s[pp].Inner? && p in s[pp].kids && IndexOf(s[pp].kids, p) > 0
    ensures Ruins(c, Presep(s, p, 0), root)
  {
    ParentFacts(c, s, root, g, INVALID_PAGE_ID, p);
    assert PageOk(c, s, root, g, INVALID_PAGE_ID, p);
    InvLinked(c, s, root, g, INVALID_PAGE_ID);
    var pp, s2 := s[p].parent, Presep(s, p, 0);
    forall q | q in s2 ensures LinksDown(s2, q) {
      assert LinksDown(s, q);
    }
    var e := s[p].items[0];
    assert e in s[p].items && e.key < s[p].items[1].key;
    OneHolder(c, s, root, g, INVALID_PAGE_ID, p, e);
    AstrayRuins(c, s2, root, e, p, pp, IndexOf(s[pp].kids, p), 0);
  }

  /** When the key is absent, only the separator write can happen, and it does harm exactly when it
      lifts a used separator over the leaf's first entry. */
  lemma AbsentOk(c: Config, s: Pages, root: PageId, g: Ranges, p: PageId, at: nat, key: int)
    requires Inv(c, s, root, g, INVALID_PAGE_ID) && p in s && s[p].Leaf? && Within(key, g[p]) && c.leafMax >= 4
    requires p != root ==> |s[p].items| >= 2
    requires at <= |s[p].items| && !HoldsKey(s[p].items, key)
    requires forall i :: 0 <= i < at ==> s[p].items[i].key < key
    requires forall i :: at <= i < |s[p].items| ==> key <= s[p].items[i].key
    ensures RemoveOutcome(c, s, root, g, key) != Undefined && Entries(Presep(s, p, at)) == Entries(s)
    ensures RemoveOutcome(c, s, root, g, key) == Sound ==> Inv(c, Presep(s, p, at), root, g, INVALID_PAGE_ID)
    ensures RemoveOutcome(c, s, root, g, key) == Broken ==> Ruins(c, Presep(s, p, at), root)
  {
    assert p == HomeLeaf(c, s, root, g, key);
    assert PageOk(c, s, root, g, INVALID_PAGE_ID, p);
    InvalidIsNoPage(c, s, root, g, INVALID_PAGE_ID);
    SameLeavesSameEntries(s, Presep(s, p, at));
    if p != root && at == 0 {
      ParentFacts(c, s, root, g, INVALID_PAGE_ID, p);
      assert s[p].items[0].key != key;
      var pp := s[p].parent;
      var i := IndexOf(s[pp].kids, p);
      if i == 0 {
        Slot0Free(c, s, root, g, INVALID_PAGE_ID, pp, s[p].items[1].key);
      } else {
        LiftedOver(c, s, root, g, p);
      }
    }
  }

  lemma WithoutKey(c: Config, s: Pages, root: PageId, g: Ranges, d: Entry)
    requires Inv(c, s, root, g, INVALID_PAGE_ID) && d in Entries(s)
    ensures Entries(s) - {d} == set e | e in Entries(s) && e.key != d.key
  {
    forall e | e in Entries(s) && e.key == d.key ensures e == d {
      EntriesFunctional(c, s, root, g, INVALID_PAGE_ID, e, d);
    }
  }

  lemma KeyAbsent(c: Config, s: Pages, root: PageId, g: Ranges, p: PageId, key: int)
    requires Inv(c, s, root, g, INVALID_PAGE_ID) && p in s && s[p].Leaf? && Within(key, g[p])
    requires !HoldsKey(s[p].items, key)
    ensures Entries(s) == set e | e in Entries(s) && e.key != key
  {
    forall e | e in Entries(s) ensures e.key != key {
      if e.key == key {
        HeldByItsLeaf(c, s, root, g, INVALID_PAGE_ID, p, e);
      }
    }
  }
}
