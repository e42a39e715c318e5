/** Walking the leaves of an index, and how many entries a tree of a given height must hold. */
module BTreeScan {
  import opened BTreePages
  import opened BTreeShape
  import opened BTreeInsert
  import opened BTreeSearch
  import opened BTreeAstray
  import opened BTree

  /** `f` is the entry with the least key above that of `e`. */
  ghost predicate IsSuccessor(all: set<Entry>, e: Entry, f: Entry) {
    && f in all && e.key < f.key
    && forall x :: x in all && e.key < x.key ==> f.key <= x.key
  }

  ghost predicate IsLeast(all: set<Entry>, f: Entry) {
    f in all && forall x :: x in all ==> f.key <= x.key
  }

  ghost predicate IsGreatest(all: set<Entry>, f: Entry) {
    f in all && forall x :: x in all ==> x.key <= f.key
  }

  /** The first entry of a leaf is the least of all entries not below the leaf's range. */
  lemma FirstOfRange(c: Config, s: Pages, root: PageId, g: Ranges, q: PageId, x: Entry)
    requires Inv(c, s, root, g, INVALID_PAGE_ID) && q in s && s[q].Leaf? && x in Entries(s) && NotBelow(x.key, g[q].lo)
    ensures |s[q].items| >= 1 && s[q].items[0].key <= x.key && s[q].items[0] in Entries(s)
  {
    assert PageOk(c, s, root, g, INVALID_PAGE_ID, q);
    assert s[q].items[0] in s[q].items;
    if Within(x.key, g[q]) {
      HeldByItsLeaf(c, s, root, g, INVALID_PAGE_ID, q, x);
    }
  }

  lemma NextInLeaf(c: Config, s: Pages, root: PageId, g: Ranges, p: PageId, i: nat)
    requires Inv(c, s, root, g, INVALID_PAGE_ID) && p in s && s[p].Leaf? && i + 1 < |s[p].items|
    ensures IsSuccessor(Entries(s), s[p].items[i], s[p].items[i + 1])
  {
    assert PageOk(c, s, root, g, INVALID_PAGE_ID, p);
    var e, f := s[p].items[i], s[p].items[i + 1];
    assert f in s[p].items;
    forall x | x in Entries(s) && e.key < x.key ensures f.key <= x.key {
      if Within(x.key, g[p]) {
        HeldByItsLeaf(c, s, root, g, INVALID_PAGE_ID, p, x);
      }
    }
  }

  lemma NextAcrossLeaves(c: Config, s: Pages, root: PageId, g: Ranges, p: PageId)
    requires Inv(c, s, root, g, INVALID_PAGE_ID) && p in s && s[p].Leaf?
    ensures |s[p].items| >= 1
    ensures var e := s[p].items[|s[p].items| - 1]; var q := s[p].next;
      && e in Entries(s)
      && if g[p].hi.PosInf? then q == 0 && IsGreatest(Entries(s), e)
         else q in s && s[q].Leaf? && |s[q].items| >= 1 && IsSuccessor(Entries(s), e, s[q].items[0])
  {
    assert PageOk(c, s, root, g, INVALID_PAGE_ID, p);
    var e := s[p].items[|s[p].items| - 1];
    assert e in s[p].items;
    forall x | x in Entries(s) && e.key < x.key ensures !Within(x.key, g[p]) {
      if Within(x.key, g[p]) {
        HeldByItsLeaf(c, s, root, g, INVALID_PAGE_ID, p, x);
      }
    }
    if !g[p].hi.PosInf? {
      var q := s[p].next;
      assert PageOk(c, s, root, g, INVALID_PAGE_ID, q);
      assert s[q].items[0] in s[q].items;
      forall x | x in Entries(s) && e.key < x.key ensures s[q].items[0].key <= x.key {
        FirstOfRange(c, s, root, g, q, x);
      }
    }
  }

  lemma LeastInLeftmost(c: Config, s: Pages, root: PageId, g: Ranges, p: PageId)
    requires Inv(c, s, root, g, INVALID_PAGE_ID) && p in s && s[p].Leaf? && g[p].lo.NegInf?
    ensures |s[p].items| >= 1 && IsLeast(Entries(s), s[p].items[0])
  {
    assert PageOk(c, s, root, g, INVALID_PAGE_ID, p);
    assert s[p].items[0] in s[p].items;
    forall x | x in Entries(s) ensures s[p].items[0].key <= x.key {
      FirstOfRange(c, s, root, g, p, x);
    }
  }

  /** An index iterator stands on slot `index` of page `leaf`. */
  class IndexIterator {
    const tree: BPlusTree
    var leaf: PageId
    var index: int

    ghost predicate Valid()
      reads this, tree
    {
      && tree.Valid() && tree.rootId != INVALID_PAGE_ID
      && leaf in tree.pages && tree.pages[leaf].Leaf? && 0 <= index < |tree.pages[leaf].items|
    }

    function Current(): Entry
      requires Valid()
      reads this, tree
    {
      tree.pages[leaf].items[index]
    }

    /** `BPlusTree::Begin()` */
    constructor Begin(tree: BPlusTree)
      requires tree.Valid() && tree.rootId != INVALID_PAGE_ID
      ensures this.tree == tree && Valid() && IsLeast(Entries(tree.pages), Current())
    {
      var start := tree.FindLeafPage(0, true, INVALID_PAGE_ID);
      LeastInLeftmost(tree.Conf(), tree.pages, tree.rootId, tree.ranges, start);
      this.tree, leaf, index := tree, start, 0;
    }

    /** `operator++`: on to the entry with the next larger key; from the last entry it leaves the tree for
        the page numbered by the zero that ends the leaf chain. */
    method Increment()
      requires Valid()
      modifies this
      ensures IsGreatest(Entries(tree.pages), old(Current())) ==> leaf == 0 && index == 0
      ensures !IsGreatest(Entries(tree.pages), old(Current())) ==>
        Valid() && IsSuccessor(Entries(tree.pages), old(Current()), Current())
    {
      ghost var s := tree.pages;
      InvalidIsNoPage(tree.Conf(), s, tree.rootId, tree.ranges, INVALID_PAGE_ID);
      NextAcrossLeaves(tree.Conf(), s, tree.rootId, tree.ranges, leaf);
      assert Current() in s[leaf].items;
      assert Current() in Entries(s);
      var page, slot := leaf, index + 1;
      if slot >= |tree.pages[page].items| {
        var next := tree.pages[page].next;
        if next == INVALID_PAGE_ID {
          slot := -1;
        } else {
          page, slot := next, 0;
        }
      } else {
        NextInLeaf(tree.Conf(), s, tree.rootId, tree.ranges, page, index);
      }
      leaf, index := page, slot;
    }
  }

  /** The set of entries visited so far. */
  ghost function Visited(out: seq<Entry>): set<Entry> {
    set e | e in out
  }

  /** The visited entries are those up to the current one, in strictly increasing key order. */
  ghost predicate VisitedUpTo(all: set<Entry>, out: seq<Entry>, e: Entry) {
    && |out| >= 1 && out[|out| - 1] == e && Sorted(out)
    && (forall x :: x in out <==> x in all && x.key <= e.key)
    && |Visited(out)| == |out|
  }

  lemma VisitOne(all: set<Entry>, out: seq<Entry>, e: Entry, f: Entry)
    requires VisitedUpTo(all, out, e) && IsSuccessor(all, e, f)
    requires forall x, y :: x in all && y in all && x.key == y.key ==> x == y
    ensures VisitedUpTo(all, out + [f], f)
  {
    var out2 := out + [f];
    VisitedGrows(out, f);
    forall x ensures x in out2 <==> x in all && x.key <= f.key {
      if x in all && x.key <= f.key && e.key < x.key {
        assert x.key == f.key;
      }
    }
    forall i | 0 <= i < |out| ensures out[i].key < f.key {
      assert out[i] in out;
    }
  }

  lemma VisitedGrows(out: seq<Entry>, f: Entry)
    requires f !in out
    ensures |Visited(out + [f])| == |Visited(out)| + 1
  {
    assert Visited(out + [f]) == Visited(out) + {f};
  }

  lemma LastMeansAll(all: set<Entry>, out: seq<Entry>, e: Entry)
    requires VisitedUpTo(all, out, e)
    ensures IsGreatest(all, e) ==> |out| == |all|
  {
    if IsGreatest(all, e) {
      assert Visited(out) == all;
    }
  }

  lemma AllVisited(all: set<Entry>, out: seq<Entry>)
    requires |Visited(out)| == |out| == |all| && Visited(out) <= all
    ensures Visited(out) == all
  {
    assert |all - Visited(out)| == 0;
  }

  /** From Begin(), exactly n - 1 increments visit all n entries of the tree, once each and in order. */
  method ScanAll(tree: BPlusTree, n: nat) returns (out: seq<Entry>)
    requires tree.Valid() && tree.rootId != INVALID_PAGE_ID && n == |Entries(tree.pages)|
    ensures Sorted(out) && |out| == n && Visited(out) == Entries(tree.pages)
  {
    ghost var all := Entries(tree.pages);
    forall x, y | x in all && y in all && x.key == y.key ensures x == y {
      EntriesFunctional(tree.Conf(), tree.pages, tree.rootId, tree.ranges, INVALID_PAGE_ID, x, y);
    }
    var it := new IndexIterator.Begin(tree);
    out := [it.Current()];
    assert Visited(out) == {it.Current()};
    while |out| < n
      invariant it.tree == tree && it.Valid() && fresh(it)
      invariant VisitedUpTo(all, out, it.Current()) && |out| <= n
      decreases n - |out|
    {
      ghost var e := it.Current();
      LastMeansAll(all, out, e);
      it.Increment();
      VisitOne(all, out, e, it.Current());
      out := out + [it.Current()];
    }
    AllVisited(all, out);
  }

  // ---------- Height and number of entries ----------

  function Pow(b: nat, n: nat): nat {
    if n == 0 then 1 else b * Pow(b, n - 1)
  }

  function MinLeaf(c: Config): nat {
    if c.leafMax / 2 < 1 then 1 else c.leafMax / 2
  }

  function MinInner(c: Config): nat
    requires c.innerMax >= 3
  {
    (c.innerMax - 1) / 2 + 1
  }

  /** The entries whose keys lie in a range. */
  ghost function EntriesIn(s: Pages, lo: Bound, hi: Bound): set<Entry> {
    set e | e in Entries(s) && NotBelow(e.key, lo) && Below(e.key, hi)
  }

  lemma LeafCount(c: Config, s: Pages, root: PageId, g: Ranges, p: PageId)
    requires Inv(c, s, root, g, INVALID_PAGE_ID) && p in s && s[p].Leaf?
    ensures |EntriesIn(s, g[p].lo, g[p].hi)| == |s[p].items|
  {
    assert PageOk(c, s, root, g, INVALID_PAGE_ID, p);
    forall e ensures e in EntriesIn(s, g[p].lo, g[p].hi) <==> e in Visited(s[p].items) {
      if Within(e.key, g[p]) {
        HeldByItsLeaf(c, s, root, g, INVALID_PAGE_ID, p, e);
      } else if e in s[p].items {
        EntryInRange(c, s, root, g, INVALID_PAGE_ID, p, e);
      }
    }
    assert EntriesIn(s, g[p].lo, g[p].hi) == Visited(s[p].items);
    SortedCount(s[p].items);
  }

  lemma {:induction false} SortedCount(items: seq<Entry>)
    requires Sorted(items)
    ensures |Visited(items)| == |items|
  {
    if items != [] {
      var front, e := items[..|items| - 1], items[|items| - 1];
      SortedCount(front);
      assert items == front + [e];
      assert Visited(items) == Visited(front) + {e};
    }
  }

  lemma EntriesSplit(s: Pages, lo: Bound, mid: int, hi: Bound)
    requires Less(lo, At(mid)) && Less(At(mid), hi)
    ensures |EntriesIn(s, lo, hi)| == |EntriesIn(s, lo, At(mid))| + |EntriesIn(s, At(mid), hi)|
  {
    assert EntriesIn(s, lo, hi) == EntriesIn(s, lo, At(mid)) + EntriesIn(s, At(mid), hi);
    assert EntriesIn(s, lo, At(mid)) !! EntriesIn(s, At(mid), hi);
  }

  /** The entries below the first `n` children of `p` number at least `n` times the least of a child. */
  lemma {:induction false} ChildrenCount(c: Config, s: Pages, root: PageId, g: Ranges, p: PageId, n: nat, least: nat)
    requires Inv(c, s, root, g, INVALID_PAGE_ID) && p in s && s[p].Inner?
    requires |s[p].keys| == |s[p].kids| && 1 <= n <= |s[p].kids|
    requires forall i :: 0 <= i < |s[p].kids| ==>
      s[p].kids[i] in g && |EntriesIn(s, g[s[p].kids[i]].lo, g[s[p].kids[i]].hi)| >= least
    ensures |EntriesIn(s, g[p].lo, ChildHi(g[p], s[p].keys, n - 1))| >= n * least
  {
    assert PageOk(c, s, root, g, INVALID_PAGE_ID, p);
    assert ChildOk(s, g, p, n - 1);
    var x := s[p].kids[n - 1];
    var hi := ChildHi(g[p], s[p].keys, n - 1);
    if n > 1 {
      ChildrenCount(c, s, root, g, p, n - 1, least);
      var mid := s[p].keys[n - 1];
      assert Less(g[p].lo, At(mid)) && Less(At(mid), hi);
      EntriesSplit(s, g[p].lo, mid, hi);
      assert g[x].lo == At(mid) && g[x].hi == hi;
      assert n * least == (n - 1) * least + least;
    }
  }

  /** A page of level `n` that is not the root covers at least MinInner^n * MinLeaf entries. */
  lemma {:induction false} SubtreeCount(c: Config, s: Pages, root: PageId, g: Ranges, p: PageId)
    requires Inv(c, s, root, g, INVALID_PAGE_ID) && p in s && p != root
    ensures |EntriesIn(s, g[p].lo, g[p].hi)| >= Pow(MinInner(c), g[p].level) * MinLeaf(c)
    decreases g[p].level
  {
    assert PageOk(c, s, root, g, INVALID_PAGE_ID, p);
    if s[p].Leaf? {
      LeafCount(c, s, root, g, p);
    } else {
      var least := Pow(MinInner(c), g[p].level - 1) * MinLeaf(c);
      ChildrenAtLeast(c, s, root, g, p);
      ChildrenCount(c, s, root, g, p, |s[p].kids|, least);
      MulUp(|s[p].kids|, MinInner(c), least);
      assert ChildHi(g[p], s[p].keys, |s[p].kids| - 1) == g[p].hi;
      PowStep(MinInner(c), g[p].level, MinLeaf(c));
    }
  }

  lemma ChildrenAtLeast(c: Config, s: Pages, root: PageId, g: Ranges, p: PageId)
    requires Inv(c, s, root, g, INVALID_PAGE_ID) && p in s && s[p].Inner? && g[p].level > 0
    ensures forall i :: 0 <= i < |s[p].kids| ==>
      && s[p].kids[i] in g
      && |EntriesIn(s, g[s[p].kids[i]].lo, g[s[p].kids[i]].hi)| >= Pow(MinInner(c), g[p].level - 1) * MinLeaf(c)
    decreases g[p].level, 0
  {
    forall i | 0 <= i < |s[p].kids|
      ensures s[p].kids[i] in g
      ensures |EntriesIn(s, g[s[p].kids[i]].lo, g[s[p].kids[i]].hi)| >= Pow(MinInner(c), g[p].level - 1) * MinLeaf(c)
    {
      KidFacts(c, s, root, g, INVALID_PAGE_ID, p, s[p].kids[i]);
      SubtreeCount(c, s, root, g, s[p].kids[i]);
    }
  }

  lemma PowStep(b: nat, n: nat, m: nat)
    requires n > 0
    ensures b * (Pow(b, n - 1) * m) == Pow(b, n) * m
  {
  }

  lemma MulUp(a: nat, b: nat, k: nat)
    requires a >= b
    ensures a * k >= b * k
  {
  }

  /** A tree with h >= 2 levels holds at least 2 * MinInner^(h - 2) * MinLeaf entries. */
  lemma HeightBound(c: Config, s: Pages, root: PageId, g: Ranges)
    requires Inv(c, s, root, g, INVALID_PAGE_ID) && g[root].level >= 1
    ensures |Entries(s)| >= 2 * (Pow(MinInner(c), g[root].level - 1) * MinLeaf(c))
  {
    assert PageOk(c, s, root, g, INVALID_PAGE_ID, root);
    var least := Pow(MinInner(c), g[root].level - 1) * MinLeaf(c);
    ChildrenAtLeast(c, s, root, g, root);
    ChildrenCount(c, s, root, g, root, |s[root].kids|, least);
    MulUp(|s[root].kids|, 2, least);
    assert EntriesIn(s, NegInf, PosInf) == Entries(s);
  }

  // ---------- Runs of insertions from the empty index ----------

  /** What a run of insertions leaves: of entries with equal keys, the first. */
  ghost function FirstWins(ops: seq<Entry>): set<Entry> {
    if ops == [] then {}
    else
      var before, e := FirstWins(ops[..|ops| - 1]), ops[|ops| - 1];
      if exists x :: x in before && x.key == e.key then before else before + {e}
  }

  /** Every run of insertions from an empty index keeps the tree well-formed and well filled, holds
      exactly the first entry of each key, and keeps the recorded root up to date. */
  method InsertAll(tree: BPlusTree, ops: seq<Entry>)
    requires tree.Valid() && tree.rootId == INVALID_PAGE_ID && tree.indexId !in IndexRoots.AsMap(tree.roots)
    modifies tree
    ensures tree.Valid() && Entries(tree.pages) == FirstWins(ops)
    ensures ops != [] ==> tree.rootId != INVALID_PAGE_ID && tree.RootRecorded()
    ensures IndexRoots.AsMap(tree.roots) - {tree.indexId} == old(IndexRoots.AsMap(tree.roots)) - {tree.indexId}
  {
    var i := 0;
    while i < |ops|
      invariant 0 <= i <= |ops| && tree.Valid() && Entries(tree.pages) == FirstWins(ops[..i])
      invariant if i == 0 then tree.rootId == INVALID_PAGE_ID && tree.indexId !in IndexRoots.AsMap(tree.roots)
                else tree.rootId != INVALID_PAGE_ID && tree.RootRecorded()
      invariant IndexRoots.AsMap(tree.roots) - {tree.indexId} == old(IndexRoots.AsMap(tree.roots)) - {tree.indexId}
    {
      assert ops[..i + 1][..i] == ops[..i];
      var ok := tree.Insert(ops[i].key, ops[i].value);
      i := i + 1;
    }
    assert ops[..i] == ops;
  }
}
