/** An index that is emptied and filled again: the roots page names no page of it. */
module RootRecordExample {
  import opened BTreePages
  import opened BTreeShape
  import opened BTreeInsert
  import opened BTree
  import opened BTreeFate
  import opened BTreeScan
  import opened IndexRoots

  /** A tree with at most one entry is a single leaf. */
  lemma OneLeaf(c: Config, s: Pages, root: PageId, g: Ranges)
    requires Inv(c, s, root, g, INVALID_PAGE_ID) && c.leafMax >= 4 && |Entries(s)| <= 1
    ensures s[root].Leaf? && s.Keys == {root} && Entries(s) == set e | e in s[root].items
  {
    assert PageOk(c, s, root, g, INVALID_PAGE_ID, root);
    if g[root].level >= 1 {
      HeightBound(c, s, root, g);
      PositivePow(MinInner(c), g[root].level - 1);
      MulUp(Pow(MinInner(c), g[root].level - 1), 1, MinLeaf(c));
    }
    forall p | p in s ensures p == root {
      if p != root {
        ParentFacts(c, s, root, g, INVALID_PAGE_ID, p);
      }
    }
  }

  lemma {:induction false} PositivePow(b: nat, n: nat)
    requires b >= 1
    ensures Pow(b, n) >= 1
  {
    if n > 0 {
      PositivePow(b, n - 1);
      MulUp(b, 1, Pow(b, n - 1));
    }
  }

  /** Removing the only entry goes well. */
  lemma LastRemovalSound(c: Config, s: Pages, root: PageId, g: Ranges, e: Entry)
    requires Inv(c, s, root, g, INVALID_PAGE_ID) && c.leafMax >= 4 && Entries(s) == {e}
    ensures RemoveOutcome(c, s, root, g, e.key) == Sound
  {
    OneLeaf(c, s, root, g);
    assert HomeLeaf(c, s, root, g, e.key) in s.Keys;
  }

  /** No tree is empty. */
  lemma SomeEntry(c: Config, s: Pages, root: PageId, g: Ranges)
    requires Inv(c, s, root, g, INVALID_PAGE_ID) && c.leafMax >= 4
    ensures Entries(s) != {}
  {
    if |Entries(s)| <= 1 {
      OneLeaf(c, s, root, g);
      assert PageOk(c, s, root, g, INVALID_PAGE_ID, root);
      assert s[root].items[0] in Entries(s);
    }
  }

  /** The first entry of the index records its root, the removal of that entry records that there is none, and
      the next entry's root is not recorded. */
  method Refilled(row: RowId) returns (tree: BPlusTree)
    ensures tree.Valid() && tree.rootId != INVALID_PAGE_ID && !tree.RootRecorded()
    ensures Entries(tree.pages) == {Entry(2, row)}
  {
    tree := new BPlusTree(0, 4, 3, [], 2);
    var ok := tree.Insert(1, row);
    assert Entries(tree.pages) == {Entry(1, row)};
    assert tree.rootId != INVALID_PAGE_ID;
    LastRemovalSound(tree.Conf(), tree.pages, tree.rootId, tree.ranges, Entry(1, row));
    tree.Remove(1);
    assert Entries(tree.pages) == {};
    if tree.rootId != INVALID_PAGE_ID {
      SomeEntry(tree.Conf(), tree.pages, tree.rootId, tree.ranges);
    }
    ok := tree.Insert(2, row);
    assert Entry(2, row) in Entries(tree.pages);
  }
}
