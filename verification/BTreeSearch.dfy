/** Why a descent from the root finds the only leaf that can hold a key. */
module BTreeSearch {
  import opened BTreePages
  import opened BTreeShape
  import opened BTreeInsert

  lemma WithinParent(c: Config, s: Pages, root: PageId, g: Ranges, ex: PageId, x: PageId, k: int)
    requires Inv(c, s, root, g, ex) && x in s && x != root && Within(k, g[x])
    ensures s[x].parent in s && Within(k, g[s[x].parent]) && g[s[x].parent].level == g[x].level + 1
    ensures g[s[x].parent].level <= g[root].level
    ensures var y := s[x].parent;
      && s[y].Inner? && x in s[y].kids && |s[y].keys| == |s[y].kids|
      && Routes(s[y].keys, k, IndexOf(s[y].kids, x))
  {
    ParentFacts(c, s, root, g, ex, x);
    assert PageOk(c, s, root, g, ex, s[x].parent);
  }

  lemma RoutesOnce(keys: seq<int>, k: int, i: int, j: int)
    requires SortedKeys(keys) && Routes(keys, k, i) && Routes(keys, k, j)
    ensures i == j
  {
  }

  /** On every level, the ranges of different pages are disjoint. */
  lemma {:induction false} OnePagePerKey(c: Config, s: Pages, root: PageId, g: Ranges, ex: PageId, x: PageId,
                                         y: PageId, k: int)
    requires Inv(c, s, root, g, ex) && x in s && y in s
    requires g[x].level == g[y].level && Within(k, g[x]) && Within(k, g[y])
    ensures x == y
    decreases g[root].level - g[x].level
  {
    assert PageOk(c, s, root, g, ex, x);
    if x == root {
      if y != root {
        WithinParent(c, s, root, g, ex, y, k);
      }
    } else if y == root {
      WithinParent(c, s, root, g, ex, x, k);
    } else {
      WithinParent(c, s, root, g, ex, x, k);
      WithinParent(c, s, root, g, ex, y, k);
      var p := s[x].parent;
      OnePagePerKey(c, s, root, g, ex, p, s[y].parent, k);
      assert PageOk(c, s, root, g, ex, p);
      RoutesOnce(s[p].keys, k, IndexOf(s[p].kids, x), IndexOf(s[p].kids, y));
    }
  }

  /** The child that an internal page's Lookup picks again covers the key, one level down. */
  lemma DescendOk(c: Config, s: Pages, root: PageId, g: Ranges, ex: PageId, p: PageId, k: int, i: nat)
    requires Inv(c, s, root, g, ex) && p in s && s[p].Inner? && Within(k, g[p])
    requires |s[p].keys| == |s[p].kids| && Routes(s[p].keys, k, i)
    ensures s[p].kids[i] in s && Within(k, g[s[p].kids[i]]) && g[s[p].kids[i]].level + 1 == g[p].level
  {
    assert PageOk(c, s, root, g, ex, p);
    assert ChildOk(s, g, p, i);
  }

  lemma EntryInRange(c: Config, s: Pages, root: PageId, g: Ranges, ex: PageId, x: PageId, e: Entry)
    requires Inv(c, s, root, g, ex) && x in s && s[x].Leaf? && e in s[x].items
    ensures Within(e.key, g[x]) && g[x].level == 0
  {
    assert PageOk(c, s, root, g, ex, x);
  }

  /** Whatever the tree holds under a key, the one leaf whose range covers the key holds it. */
  lemma HeldByItsLeaf(c: Config, s: Pages, root: PageId, g: Ranges, ex: PageId, p: PageId, e: Entry)
    requires Inv(c, s, root, g, ex) && p in s && s[p].Leaf? && Within(e.key, g[p])
    ensures e in Entries(s) <==> e in s[p].items
  {
    if e in Entries(s) {
      var x :| x in s && s[x].Leaf? && e in s[x].items;
      EntryInRange(c, s, root, g, ex, x, e);
      assert PageOk(c, s, root, g, ex, p);
      OnePagePerKey(c, s, root, g, ex, x, p, e.key);
    }
  }

  /** A well-formed tree is a map: no key stands for two values. */
  lemma EntriesFunctional(c: Config, s: Pages, root: PageId, g: Ranges, ex: PageId, e: Entry, f: Entry)
    requires Inv(c, s, root, g, ex) && e in Entries(s) && f in Entries(s) && e.key == f.key
    ensures e == f
  {
    var x :| x in s && s[x].Leaf? && e in s[x].items;
    EntryInRange(c, s, root, g, ex, x, e);
    HeldByItsLeaf(c, s, root, g, ex, x, f);
    assert PageOk(c, s, root, g, ex, x);
  }

  /** Some leaf below a page covers each key that the page covers. */
  lemma {:induction false} HomeExists(c: Config, s: Pages, root: PageId, g: Ranges, ex: PageId, p: PageId, key: int)
    requires Inv(c, s, root, g, ex) && p in s && Within(key, g[p])
    ensures exists q :: q in s && s[q].Leaf? && Within(key, g[q])
    decreases g[p].level
  {
    assert PageOk(c, s, root, g, ex, p);
    if s[p].Inner? {
      var i := SlotFor(s[p].keys, key, |s[p].keys| - 1);
      DescendOk(c, s, root, g, ex, p, key, i);
      HomeExists(c, s, root, g, ex, s[p].kids[i], key);
    }
  }

  /** The last slot whose separator is not above `key`. */
  ghost function SlotFor(keys: seq<int>, key: int, i: nat): (r: nat)
    requires i < |keys| && (i + 1 == |keys| || key < keys[i + 1])
    ensures Routes(keys, key, r)
  {
    if i == 0 || keys[i] <= key then i else SlotFor(keys, key, i - 1)
  }
}
