/** What a well-formed B+ tree is. Every condition relates one page to its direct children, its
    parent and its right neighbour, through a ghost range per page: its level and the keys that
    may occur below it. */
module BTreeShape {
  import opened BTreePages

  datatype Bound = NegInf | At(k: int) | PosInf

  datatype Range = Range(level: nat, lo: Bound, hi: Bound)

  type Pages = map<PageId, Page>
  type Ranges = map<PageId, Range>

  predicate NotBelow(k: int, lo: Bound) {
    lo.NegInf? || (lo.At? && lo.k <= k)
  }

  predicate Below(k: int, hi: Bound) {
    hi.PosInf? || (hi.At? && k < hi.k)
  }

  predicate Within(k: int, r: Range) {
    NotBelow(k, r.lo) && Below(k, r.hi)
  }

  predicate Less(lo: Bound, hi: Bound) {
    match (lo, hi)
    case (At(a), At(b)) => a < b
    case (PosInf, _) => false
    case (_, NegInf) => false
    case (_, _) => true
  }

  function ChildLo(r: Range, keys: seq<int>, i: int): Bound
    requires 0 <= i < |keys|
  {
    if i == 0 then r.lo else At(keys[i])
  }

  function ChildHi(r: Range, keys: seq<int>, i: int): Bound
    requires 0 <= i < |keys|
  {
    if i + 1 == |keys| then r.hi else At(keys[i + 1])
  }

  ghost predicate ChildOk(s: Pages, g: Ranges, p: PageId, i: int)
    requires p in s && p in g && s[p].Inner? && |s[p].keys| == |s[p].kids| && 0 <= i < |s[p].kids|
  {
    var x := s[p].kids[i];
    && x in s && x in g
    && s[x].parent == p
    && g[x] == Range(g[x].level, ChildLo(g[p], s[p].keys, i), ChildHi(g[p], s[p].keys, i))
    && g[x].level + 1 == g[p].level
  }

  ghost predicate InnerOk(s: Pages, g: Ranges, p: PageId)
    requires p in s && p in g && s[p].Inner?
  {
    var pg := s[p];
    && |pg.keys| == |pg.kids|
    && Distinct(pg.kids)
    && SortedKeys(pg.keys)
    && (forall i :: 1 <= i < |pg.keys| ==> Less(g[p].lo, At(pg.keys[i])) && Less(At(pg.keys[i]), g[p].hi))
    && (forall i {:trigger pg.kids[i]} :: 0 <= i < |pg.kids| ==> ChildOk(s, g, p, i))
    && g[p].level > 0
  }

  /** A leaf's next pointer names the leaf that starts where this one ends; the last leaf's
      pointer keeps the zero of fresh page memory, since a leaf's Init leaves it alone. */
  ghost predicate NextOk(s: Pages, g: Ranges, p: PageId)
    requires p in s && p in g && s[p].Leaf?
  {
    if g[p].hi.PosInf? then s[p].next == 0
    else s[p].next in s && s[p].next in g && s[s[p].next].Leaf? && g[s[p].next].lo == g[p].hi
  }

  ghost predicate LeafOk(s: Pages, g: Ranges, p: PageId)
    requires p in s && p in g && s[p].Leaf?
  {
    && Sorted(s[p].items)
    && (forall i :: 0 <= i < |s[p].items| ==> Within(s[p].items[i].key, g[p]))
    && NextOk(s, g, p)
    && g[p].level == 0
  }

  ghost predicate ParentOk(s: Pages, g: Ranges, root: PageId, p: PageId)
    requires p in s && p in g && root in g
  {
    && (p == root <==> s[p].parent == INVALID_PAGE_ID)
    && (p != root ==> s[p].parent in s && s[s[p].parent].Inner? && p in s[s[p].parent].kids)
    && g[p].level <= g[root].level
    && Less(g[p].lo, g[p].hi)
    && p >= 2
  }

  /** Fill bounds; the page `ex` is being worked on and may be one entry off. */
  ghost predicate SizeOk(c: Config, pg: Page, exempt: bool) {
    && (pg.Inner? ==> pg.Size() >= 1)
    && (if exempt then c.MinSize(pg) - 1 <= pg.Size() <= c.MaxSize(pg) + 1
        else c.MinSize(pg) <= pg.Size() <= c.MaxSize(pg) && pg.Size() >= 1)
  }

  ghost predicate PageOk(c: Config, s: Pages, root: PageId, g: Ranges, ex: PageId, p: PageId)
    requires p in s && p in g && root in g
  {
    && ParentOk(s, g, root, p)
    && SizeOk(c, s[p], p == ex)
    && (s[p].Leaf? ==> LeafOk(s, g, p))
    && (s[p].Inner? ==> InnerOk(s, g, p))
  }

  /** A well-formed non-empty tree, except that page `ex` may be overfull or underfull by one. */
  ghost predicate Inv(c: Config, s: Pages, root: PageId, g: Ranges, ex: PageId)
  {
    && root in s
    && s.Keys == g.Keys
    && g[root].lo.NegInf? && g[root].hi.PosInf?
    && c.leafMax >= 1 && c.innerMax >= 3
    && forall p {:trigger PageOk(c, s, root, g, ex, p)} :: p in s ==> PageOk(c, s, root, g, ex, p)
  }

  function Entries(s: Pages): set<Entry> {
    set p, e | p in s && s[p].Leaf? && e in s[p].items :: e
  }

  /** Child `y` keeps its range and has `parent` as its parent. */
  ghost predicate KidKept(s: Pages, g: Ranges, s2: Pages, g2: Ranges, y: PageId, parent: PageId) {
    y in s2 && y in g2 && s2[y].parent == parent && y in g && g2[y] == g[y]
  }

  /** An internal page stays well-formed while it, its range and its children's links and ranges stay. */
  lemma InnerFrame(s: Pages, g: Ranges, s2: Pages, g2: Ranges, x: PageId)
    requires x in s && x in g && s[x].Inner? && InnerOk(s, g, x)
    requires x in s2 && x in g2 && s2[x].Inner? && s2[x].keys == s[x].keys && s2[x].kids == s[x].kids && g2[x] == g[x]
    requires forall i :: 0 <= i < |s[x].kids| ==> KidKept(s, g, s2, g2, s[x].kids[i], x)
    ensures InnerOk(s2, g2, x)
  {
    forall i | 0 <= i < |s2[x].kids| ensures ChildOk(s2, g2, x, i) {
      assert ChildOk(s, g, x, i);
      assert s2[x].kids[i] == s[x].kids[i];
    }
  }

  /** Once the exempt page is within its bounds again, no page is exempt. */
  lemma SettleSize(c: Config, s: Pages, root: PageId, g: Ranges, ex: PageId)
    requires Inv(c, s, root, g, ex) && ex in s && SizeOk(c, s[ex], false)
    ensures Inv(c, s, root, g, INVALID_PAGE_ID)
  {
    forall p | p in s ensures PageOk(c, s, root, g, INVALID_PAGE_ID, p) {
      assert PageOk(c, s, root, g, ex, p);
    }
  }

  /** The lower half of an internal page, up to the separator that moves to the parent. */
  lemma LowerInnerOk(s: Pages, g: Ranges, p: PageId, h: nat, s2: Pages, g2: Ranges)
    requires p in s && p in g && s[p].Inner? && InnerOk(s, g, p) && 1 <= h < |s[p].kids|
    requires p in s2 && p in g2 && s2[p].Inner? && s2[p].keys == s[p].keys[..h] && s2[p].kids == s[p].kids[..h]
    requires g2[p] == Range(g[p].level, g[p].lo, At(s[p].keys[h]))
    requires forall i :: 0 <= i < h ==> KidKept(s, g, s2, g2, s[p].kids[i], p)
    ensures InnerOk(s2, g2, p)
  {
    forall i | 0 <= i < h ensures ChildOk(s2, g2, p, i) {
      assert ChildOk(s, g, p, i);
      assert s2[p].kids[i] == s[p].kids[i];
    }
  }

  /** The upper half of an internal page; its first key is left in the unused slot 0. */
  lemma UpperInnerOk(s: Pages, g: Ranges, p: PageId, h: nat, q: PageId, s2: Pages, g2: Ranges)
    requires p in s && p in g && s[p].Inner? && InnerOk(s, g, p) && 1 <= h < |s[p].kids|
    requires q in s2 && q in g2 && s2[q].Inner? && s2[q].keys == s[p].keys[h..] && s2[q].kids == s[p].kids[h..]
    requires g2[q] == Range(g[p].level, At(s[p].keys[h]), g[p].hi)
    requires forall i :: h <= i < |s[p].kids| ==> KidKept(s, g, s2, g2, s[p].kids[i], q)
    ensures InnerOk(s2, g2, q)
  {
    forall i | 0 <= i < |s2[q].kids| ensures ChildOk(s2, g2, q, i) {
      assert ChildOk(s, g, p, i + h);
      assert s2[q].kids[i] == s[p].kids[i + h];
    }
  }
}
