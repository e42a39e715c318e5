/** Borrows that leave an entry where no descent finds it. */
module BTreeAstray {
  import opened BTreePages
  import opened BTreeShape
  import opened BTreeInsert
  import opened BTreeSearch
  import opened BTreeRemove
  import opened BTreeBorrow

  // ---------- Pages below a page ----------

  /** Following parent ids `n` times from `x` leads to `y`. */
  ghost predicate Under(s: Pages, x: PageId, y: PageId, n: nat)
    decreases n
  {
    if n == 0 then x == y else x in s && Under(s, s[x].parent, y, n - 1)
  }

  lemma {:induction false} UnderByRange(c: Config, s: Pages, root: PageId, g: Ranges, ex: PageId, x: PageId, y: PageId,
                                        k: int)
    requires Inv(c, s, root, g, ex) && x in s && y in s && Within(k, g[x]) && Within(k, g[y])
    requires g[x].level <= g[y].level
    ensures Under(s, x, y, g[y].level - g[x].level)
    decreases g[y].level - g[x].level
  {
    if g[x].level == g[y].level {
      OnePagePerKey(c, s, root, g, ex, x, y, k);
    } else {
      assert PageOk(c, s, root, g, ex, y);
      WithinParent(c, s, root, g, ex, x, k);
      UnderByRange(c, s, root, g, ex, s[x].parent, y, k);
    }
  }

  /** Keys below a page lie in the page's range. */
  lemma {:induction false} UnderWithin(c: Config, s: Pages, root: PageId, g: Ranges, ex: PageId, x: PageId, y: PageId,
                                       n: nat, k: int)
    requires Inv(c, s, root, g, ex) && x in s && y in s && Under(s, x, y, n) && Within(k, g[x])
    ensures Within(k, g[y])
    decreases n
  {
    if n > 0 {
      assert PageOk(c, s, root, g, ex, x);
      if x == root {
        InvalidIsNoPage(c, s, root, g, ex);
      } else {
        WithinParent(c, s, root, g, ex, x, k);
        UnderWithin(c, s, root, g, ex, s[x].parent, y, n - 1, k);
      }
    }
  }

  lemma InvalidIsNoPage(c: Config, s: Pages, root: PageId, g: Ranges, ex: PageId)
    requires Inv(c, s, root, g, ex)
    ensures INVALID_PAGE_ID !in s && 0 !in s
  {
    forall p | p in s ensures p >= 2 {
      assert PageOk(c, s, root, g, ex, p);
    }
  }

  /** The parent of `z` is one level up, and the same in `s2`. */
  ghost predicate StepsUp(s: Pages, g: Ranges, s2: Pages, z: PageId)
    requires z in s && z in g
  {
    && s[z].parent in g && g[s[z].parent].level == g[z].level + 1
    && z in s2 && s2[z].parent == s[z].parent
  }

  lemma {:induction false} UnderFrame(s: Pages, g: Ranges, s2: Pages, x: PageId, y: PageId, n: nat)
    requires s.Keys == g.Keys && Under(s, x, y, n) && x in g && y in g && g[y].level == g[x].level + n
    requires forall z {:trigger StepsUp(s, g, s2, z)} :: z in s && g[z].level < g[y].level ==> StepsUp(s, g, s2, z)
    ensures Under(s2, x, y, n)
    decreases n
  {
    if n > 0 {
      assert StepsUp(s, g, s2, x);
      UnderFrame(s, g, s2, s[x].parent, y, n - 1);
    }
  }

  /** The leaf after the first leaf below an internal child still lies below that child. */
  lemma SecondLeafUnder(c: Config, s: Pages, root: PageId, g: Ranges, ex: PageId, y: PageId, pre: PageId, k: int)
    requires Inv(c, s, root, g, ex) && y in s && s[y].Inner? && y != ex && y != root && ex in s && s[ex].Inner?
    requires pre in s && s[pre].Leaf? && g[y].lo == At(k) && Within(k, g[pre])
    ensures var mid := s[pre].next;
      && mid in s && s[mid].Leaf? && |s[mid].items| >= 1 && Within(s[mid].items[0].key, g[mid])
      && Under(s, mid, y, g[y].level) && g[mid].level == 0
  {
    assert PageOk(c, s, root, g, ex, y);
    assert PageOk(c, s, root, g, ex, pre);
    var z := s[y].kids[0];
    assert ChildOk(s, g, y, 0);
    assert PageOk(c, s, root, g, ex, z);
    assert Within(k, g[z]);
    UnderByRange(c, s, root, g, ex, pre, z, k);
    var top := s[y].keys[1];
    if Below(top, g[pre].hi) {
      UnderWithin(c, s, root, g, ex, pre, z, g[z].level, if top > k then top else k);
    }
    assert g[pre].hi.At? && g[pre].hi.k <= top;
    var mid := s[pre].next;
    assert PageOk(c, s, root, g, ex, mid);
    UnderByRange(c, s, root, g, ex, mid, y, g[mid].lo.k);
  }

  lemma {:induction false} UnderParent(s: Pages, x: PageId, y: PageId, n: nat)
    requires Under(s, x, y, n) && y in s
    ensures Under(s, x, s[y].parent, n + 1)
    decreases n
  {
    if n > 0 {
      UnderParent(s, s[x].parent, y, n - 1);
    }
  }

  // ---------- Entries that no descent reaches ----------

  /** The children of page `p` name it as their parent. */
  ghost predicate LinksDown(s: Pages, p: PageId)
    requires p in s
  {
    s[p].Inner? ==>
      && |s[p].keys| == |s[p].kids| && Distinct(s[p].kids)
      && forall i :: 0 <= i < |s[p].kids| ==> s[p].kids[i] in s && s[s[p].kids[i]].parent == p
  }

  ghost predicate Linked(s: Pages, root: PageId) {
    && root in s && s[root].parent !in s
    && forall p {:trigger LinksDown(s, p)} :: p in s ==> LinksDown(s, p)
  }

  /** A way down from the root that searches for `key` can take. */
  ghost predicate Descent(s: Pages, root: PageId, key: int, path: seq<PageId>)
    decreases |path|
  {
    && |path| > 0
    && if |path| == 1 then path[0] == root else
       var w, z := path[|path| - 2], path[|path| - 1];
       && Descent(s, root, key, path[..|path| - 1]) && w in s && s[w].Inner?
       && exists j :: 0 <= j < |s[w].kids| && MayPick(s[w].keys, key, j) && z == s[w].kids[j]
  }

  /** Leaf `x` alone holds `e`, and on the way to `x` page `q` would have to pick slot `j`, which a search
      for the key of `e` does not. */
  ghost predicate Astray(s: Pages, e: Entry, x: PageId, q: PageId, j: nat, n: nat) {
    && x in s && s[x].Leaf? && e in s[x].items
    && (forall y :: y in s && s[y].Leaf? && e in s[y].items ==> y == x)
    && q in s && s[q].Inner? && j < |s[q].kids| && Under(s, x, s[q].kids[j], n) && !MayPick(s[q].keys, e.key, j)
  }

  /** The entry is stored and no descent finds it. */
  ghost predicate Lost(s: Pages, root: PageId, e: Entry) {
    && e in Entries(s)
    && forall path {:trigger Descent(s, root, e.key, path)} :: Descent(s, root, e.key, path) ==>
      var x := path[|path| - 1]; x in s && s[x].Leaf? ==> e !in s[x].items
  }

  lemma {:induction false} NoWayDown(s: Pages, root: PageId, key: int, q: PageId, j: nat, z: PageId, n: nat,
                                     path: seq<PageId>)
    requires Linked(s, root) && Descent(s, root, key, path)
    requires q in s && s[q].Inner? && j < |s[q].kids| && Under(s, z, s[q].kids[j], n) && !MayPick(s[q].keys, key, j)
    ensures path[|path| - 1] != z
    decreases n
  {
    var kid := s[q].kids[j];
    assert LinksDown(s, q);
    if path[|path| - 1] == z && |path| > 1 {
      var w := path[|path| - 2];
      var i :| 0 <= i < |s[w].kids| && MayPick(s[w].keys, key, i) && z == s[w].kids[i];
      assert LinksDown(s, w);
      assert s[z].parent == w;
      if n > 0 {
        NoWayDown(s, root, key, q, j, w, n - 1, path[..|path| - 1]);
      }
    }
  }

  /** An entry that went astray is lost, and no ranges fit the pages. */
  lemma AstrayRuins(c: Config, s: Pages, root: PageId, e: Entry, x: PageId, q: PageId, j: nat, n: nat)
    requires Linked(s, root) && Astray(s, e, x, q, j, n)
    ensures Lost(s, root, e)
    ensures forall g :: !Inv(c, s, root, g, INVALID_PAGE_ID)
  {
    forall path | Descent(s, root, e.key, path)
      ensures var y := path[|path| - 1]; y in s && s[y].Leaf? ==> e !in s[y].items
    {
      NoWayDown(s, root, e.key, q, j, x, n, path);
    }
    forall g ensures !Inv(c, s, root, g, INVALID_PAGE_ID) {
      if Inv(c, s, root, g, INVALID_PAGE_ID) {
        EntryInRange(c, s, root, g, INVALID_PAGE_ID, x, e);
        assert PageOk(c, s, root, g, INVALID_PAGE_ID, q);
        assert ChildOk(s, g, q, j);
        UnderWithin(c, s, root, g, INVALID_PAGE_ID, x, s[q].kids[j], n, e.key);
      }
    }
  }

  lemma InvLinked(c: Config, s: Pages, root: PageId, g: Ranges, ex: PageId)
    requires Inv(c, s, root, g, ex)
    ensures Linked(s, root)
  {
    InvalidIsNoPage(c, s, root, g, ex);
    assert PageOk(c, s, root, g, ex, root);
    forall p | p in s ensures LinksDown(s, p) {
      assert PageOk(c, s, root, g, ex, p);
      if s[p].Inner? {
        forall i | 0 <= i < |s[p].kids| ensures s[p].kids[i] in s && s[s[p].kids[i]].parent == p {
          assert ChildOk(s, g, p, i);
        }
      }
    }
  }

  /** One leaf holds an entry. */
  lemma OneHolder(c: Config, s: Pages, root: PageId, g: Ranges, ex: PageId, x: PageId, e: Entry)
    requires Inv(c, s, root, g, ex) && x in s && s[x].Leaf? && e in s[x].items
    ensures forall y :: y in s && s[y].Leaf? && e in s[y].items ==> y == x
  {
    EntryInRange(c, s, root, g, ex, x, e);
    forall y | y in s && s[y].Leaf? && e in s[y].items ensures y == x {
      EntryInRange(c, s, root, g, ex, y, e);
      OnePagePerKey(c, s, root, g, ex, y, x, e.key);
    }
  }

  // ---------- What a borrow does to the pages below ----------

  lemma BorrowKeepsLinks(c: Config, s: Pages, root: PageId, g: Ranges, pp: PageId, i: nat, a: PageId, b: PageId,
                         left: bool, middleKey: int, separator: int)
    requires BorrowReady(c, s, root, g, pp, i, a, b, left)
    ensures Linked(BorrowPages(s, pp, i, a, b, left, middleKey, separator), root)
  {
    var s2 := BorrowPages(s, pp, i, a, b, left, middleKey, separator);
    var ex := if left then a else b;
    var from, m := if left then b else a, Moved(s, a, b, left);
    assert a != b && a != pp && b != pp && m != a && m != b && m != pp && m != root by {
      NeighbourFacts(c, s, root, g, ex, pp, i, a, b);
      KidFacts(c, s, root, g, ex, from, m);
    }
    InvLinked(c, s, root, g, ex);
    assert ParentsKept(s, s2, m) && KidsKept(s, s2, from, ex);
    ChildMoves(s, s2, root, from, ex, m, if left then 0 else |s[a].kids| - 1, left);
  }

  /** Pages keep their parents, except that child `m` moves from page `from` to page `to`. */
  ghost predicate ParentsKept(s: Pages, s2: Pages, m: PageId) {
    s2.Keys == s.Keys && forall z {:trigger s2[z]} :: z in s && z != m ==> s2[z].parent == s[z].parent
  }

  /** Other internal pages keep their children. */
  ghost predicate KidsKept(s: Pages, s2: Pages, from: PageId, to: PageId)
    requires s2.Keys == s.Keys
  {
    forall p {:trigger s2[p]} :: p in s && p != from && p != to && s2[p].Inner? ==>
      s[p].Inner? && s2[p].kids == s[p].kids && |s2[p].keys| == |s[p].keys|
  }

  /** One child, first or last of its page, moves to the page next door. */
  lemma ChildMoves(s: Pages, s2: Pages, root: PageId, from: PageId, to: PageId, m: PageId, j: nat, left: bool)
    requires Linked(s, root) && ParentsKept(s, s2, m) && KidsKept(s, s2, from, to) && from != to && m != root
    requires from in s && s[from].Inner? && j < |s[from].kids| && s[from].kids[j] == m
    requires s2[from].Inner? && |s2[from].keys| == |s2[from].kids|
    requires s2[from].kids == s[from].kids[..j] + s[from].kids[j + 1..]
    requires to in s && s[to].Inner? && m in s && s2[m].parent == to
    requires s2[to].Inner? && |s2[to].keys| == |s2[to].kids|
    requires s2[to].kids == if left then s[to].kids + [m] else [m] + s[to].kids
    ensures Linked(s2, root)
  {
    assert LinksDown(s, from) && LinksDown(s, to);
    forall p | p in s2 ensures LinksDown(s2, p) {
      assert LinksDown(s, p);
      if p == from {
        forall i | 0 <= i < |s2[p].kids| ensures s2[p].kids[i] in s2 && s2[s2[p].kids[i]].parent == p {
          assert s2[p].kids[i] == s[p].kids[if i < j then i else i + 1] != m;
        }
      } else if p == to {
        forall i | 0 <= i < |s[p].kids| ensures s[p].kids[i] != m && s2[s[p].kids[i]].parent == p {
        }
      } else if s2[p].Inner? {
        forall i | 0 <= i < |s2[p].kids| ensures s2[p].kids[i] in s2 && s2[s2[p].kids[i]].parent == p {
          assert s2[p].kids[i] == s[p].kids[i] != m;
        }
      }
    }
  }

  /** Below the children of `a` and `b`, parent ids stay. */
  lemma BorrowSparesBelow(c: Config, s: Pages, root: PageId, g: Ranges, pp: PageId, i: nat, a: PageId, b: PageId,
                          left: bool, middleKey: int, separator: int, x: PageId, y: PageId)
    requires BorrowReady(c, s, root, g, pp, i, a, b, left)
    requires x in s && y in s && g[y].level + 1 == g[a].level && g[x].level == 0 && Under(s, x, y, g[y].level)
    ensures Under(BorrowPages(s, pp, i, a, b, left, middleKey, separator), x, y, g[y].level)
  {
    var s2 := BorrowPages(s, pp, i, a, b, left, middleKey, separator);
    var ex := if left then a else b;
    var m := Moved(s, a, b, left);
    assert g[m].level == g[y].level && g[a].level == g[b].level < g[pp].level <= g[root].level by {
      NeighbourFacts(c, s, root, g, ex, pp, i, a, b);
      KidFacts(c, s, root, g, ex, if left then b else a, m);
    }
    forall z | z in s && g[z].level < g[y].level ensures StepsUp(s, g, s2, z) {
      ParentFacts(c, s, root, g, ex, z);
    }
    UnderFrame(s, g, s2, x, y, g[y].level);
  }

  /** A borrow moves no entry. */
  lemma BorrowKeepsHolder(c: Config, s: Pages, root: PageId, g: Ranges, pp: PageId, i: nat, a: PageId, b: PageId,
                          left: bool, middleKey: int, separator: int, x: PageId, e: Entry)
    requires BorrowReady(c, s, root, g, pp, i, a, b, left) && x in s && s[x].Leaf? && e in s[x].items
    ensures var s2 := BorrowPages(s, pp, i, a, b, left, middleKey, separator);
      x in s2 && s2[x].Leaf? && e in s2[x].items && forall y :: y in s2 && s2[y].Leaf? && e in s2[y].items ==> y == x
  {
    var s2 := BorrowPages(s, pp, i, a, b, left, middleKey, separator);
    OneHolder(c, s, root, g, if left then a else b, x, e);
    forall y | y in s2 ensures (s2[y].Leaf? <==> s[y].Leaf?) && (s[y].Leaf? ==> s2[y].items == s[y].items) {
    }
  }

  /** An entry below a child that a borrow leaves in slot `j` of `a` or `b`, with the wrong keys around it. */
  lemma BorrowAstray(c: Config, s: Pages, root: PageId, g: Ranges, pp: PageId, i: nat, a: PageId, b: PageId, left: bool,
                     middleKey: int, separator: int, e: Entry, x: PageId, q: PageId, j: nat)
    requires BorrowReady(c, s, root, g, pp, i, a, b, left) && x in s && s[x].Leaf? && e in s[x].items
    requires (q == a || q == b)
    requires var s2 := BorrowPages(s, pp, i, a, b, left, middleKey, separator);
      && s2[q].Inner? && j < |s2[q].kids| && !MayPick(s2[q].keys, e.key, j)
      && var y := s2[q].kids[j]; y in s && g[y].level + 1 == g[a].level && g[x].level == 0 && Under(s, x, y, g[y].level)
    ensures Ruins(c, BorrowPages(s, pp, i, a, b, left, middleKey, separator), root)
  {
    var s2 := BorrowPages(s, pp, i, a, b, left, middleKey, separator);
    var y := s2[q].kids[j];
    BorrowKeepsLinks(c, s, root, g, pp, i, a, b, left, middleKey, separator);
    BorrowKeepsHolder(c, s, root, g, pp, i, a, b, left, middleKey, separator, x, e);
    BorrowSparesBelow(c, s, root, g, pp, i, a, b, left, middleKey, separator, x, y);
    AstrayRuins(c, s2, root, e, x, q, j, g[y].level);
  }

  /** The store is no tree any more and some entry in it cannot be found. */
  ghost predicate Ruins(c: Config, s: Pages, root: PageId) {
    && (forall g :: !Inv(c, s, root, g, INVALID_PAGE_ID))
    && exists e :: Lost(s, root, e)
  }

  // ---------- Borrows above the pages of leaves ----------

  /** Between pages whose children are internal the source's borrow always breaks the tree: the middle
      key it reads is held by a leaf below the page that is to stay to its left. */
  lemma HighBorrowBreaks(c: Config, s: Pages, root: PageId, g: Ranges, pp: PageId, i: nat, a: PageId, b: PageId,
                         left: bool, pre: PageId, middleKey: int, separator: int)
    requires BorrowReady(c, s, root, g, pp, i, a, b, left) && g[a].level >= 2 && |s[a].kids| >= 2
    requires pre in s && s[pre].Leaf? && Within(s[a].keys[|s[a].keys| - 1], g[pre])
    requires var mid := s[pre].next; mid in s && s[mid].Leaf? && |s[mid].items| >= 1 ==>
      middleKey == s[mid].items[0].key
    ensures Ruins(c, BorrowPages(s, pp, i, a, b, left, middleKey, separator), root)
  {
    var mid := s[pre].next;
    var ex := if left then a else b;
    NeighbourFacts(c, s, root, g, ex, pp, i, a, b);
    var last := |s[a].kids| - 1;
    var y := s[a].kids[last];
    assert ChildOk(s, g, a, last);
    KidFacts(c, s, root, g, ex, a, y);
    assert PageOk(c, s, root, g, ex, y);
    SecondLeafUnder(c, s, root, g, ex, y, pre, s[a].keys[last]);
    assert PageOk(c, s, root, g, ex, pre);
    InvalidIsNoPage(c, s, root, g, ex);
    assert s[a].keys[last] < middleKey;
    assert s[mid].items[0] in s[mid].items;
    BorrowAstray(c, s, root, g, pp, i, a, b, left, middleKey, separator, s[mid].items[0], mid,
                 if left then a else b, if left then last else 0);
  }

  // ---------- Borrows for a page with one child ----------

  /** The last leaf of the tree covers the key. */
  ghost predicate LastCovers(s: Pages, g: Ranges, k: int) {
    exists q :: q in s && q in g && s[q].Leaf? && g[q].hi.PosInf? && Within(k, g[q])
  }

  /** Page `a`, in slot 0, has one child left, and the source descends by the unused key of its slot 0. */
  ghost predicate SlotZeroReady(c: Config, s: Pages, root: PageId, g: Ranges, pp: PageId, a: PageId, b: PageId,
                                pre: PageId) {
    && BorrowReady(c, s, root, g, pp, 1, a, b, true) && |s[a].kids| == 1
    && pre in s && s[pre].Leaf? && Within(s[a].keys[0], g[pre]) && g[pre].hi.At?
  }

  /** The first leaf below `b`, and the leaf that the middle key is read from. */
  lemma SlotZeroLeaves(c: Config, s: Pages, root: PageId, g: Ranges, pp: PageId, a: PageId, b: PageId,
                       pre: PageId) returns (z: PageId)
    requires SlotZeroReady(c, s, root, g, pp, a, b, pre)
    ensures z in s && s[z].Leaf? && |s[z].items| >= 1 && g[z].level == 0 && Within(s[pp].keys[1], g[z])
    ensures var m := s[b].kids[0]; m in s && g[m].level + 1 == g[a].level && Under(s, z, m, g[m].level)
    ensures var mid := s[pre].next;
      mid in s && s[mid].Leaf? && |s[mid].items| >= 1 && g[mid].level == 0 && g[mid].lo == g[pre].hi
  {
    NeighbourFacts(c, s, root, g, a, pp, 1, a, b);
    var k, m := s[pp].keys[1], s[b].kids[0];
    assert ChildOk(s, g, b, 0);
    KidFacts(c, s, root, g, a, b, m);
    assert PageOk(c, s, root, g, a, m);
    HomeExists(c, s, root, g, a, m, k);
    z :| z in s && s[z].Leaf? && Within(k, g[z]);
    assert PageOk(c, s, root, g, a, z) && PageOk(c, s, root, g, a, pre);
    UnderByRange(c, s, root, g, a, z, m, k);
    assert PageOk(c, s, root, g, a, s[pre].next);
  }

  /** The middle key lies above the first key below `b`: that entry is lost. */
  lemma MiddleTooHigh(c: Config, s: Pages, root: PageId, g: Ranges, pp: PageId, a: PageId, b: PageId, pre: PageId,
                      z: PageId, middleKey: int, separator: int)
    requires SlotZeroReady(c, s, root, g, pp, a, b, pre)
    requires z in s && s[z].Leaf? && |s[z].items| >= 1 && g[z].level == 0 && middleKey > s[z].items[0].key
    requires var m := s[b].kids[0]; m in s && g[m].level + 1 == g[a].level && Under(s, z, m, g[m].level)
    ensures Ruins(c, BorrowPages(s, pp, 1, a, b, true, middleKey, separator), root)
  {
    NeighbourFacts(c, s, root, g, a, pp, 1, a, b);
    assert s[z].items[0] in s[z].items;
    BorrowAstray(c, s, root, g, pp, 1, a, b, true, middleKey, separator, s[z].items[0], z, a, 1);
  }

  /** The middle key lies at or below some key of the only child: that entry is lost. */
  lemma MiddleTooLow(c: Config, s: Pages, root: PageId, g: Ranges, pp: PageId, a: PageId, b: PageId, pre: PageId,
                     middleKey: int, separator: int)
    requires SlotZeroReady(c, s, root, g, pp, a, b, pre) && middleKey < s[pp].keys[1]
    requires var mid := s[pre].next;
      mid in s && s[mid].Leaf? && |s[mid].items| >= 1 && g[mid].level == 0 && middleKey == s[mid].items[0].key
    ensures Ruins(c, BorrowPages(s, pp, 1, a, b, true, middleKey, separator), root)
  {
    NeighbourFacts(c, s, root, g, a, pp, 1, a, b);
    var y, mid := s[a].kids[0], s[pre].next;
    assert ChildOk(s, g, a, 0);
    KidFacts(c, s, root, g, a, a, y);
    var x := mid;
    var e := s[mid].items[0];
    assert e in s[mid].items;
    EntryInRange(c, s, root, g, a, mid, e);
    if NotBelow(middleKey, g[a].lo) {
      UnderByRange(c, s, root, g, a, mid, y, middleKey);
    } else {
      x := SomeLeafOf(c, s, root, g, a, y, g[a].lo.k);
      e := s[x].items[0];
      assert e in s[x].items;
      EntryInRange(c, s, root, g, a, x, e);
      UnderWithin(c, s, root, g, a, x, y, g[y].level, e.key);
    }
    BorrowAstray(c, s, root, g, pp, 1, a, b, true, middleKey, separator, e, x, a, 0);
  }

  lemma SomeLeafOf(c: Config, s: Pages, root: PageId, g: Ranges, ex: PageId, y: PageId, k: int) returns (x: PageId)
    requires Inv(c, s, root, g, ex) && ex in s && s[ex].Inner? && y in s && Within(k, g[y])
    ensures x in s && s[x].Leaf? && |s[x].items| >= 1 && g[x].level == 0 && Under(s, x, y, g[y].level)
  {
    HomeExists(c, s, root, g, ex, y, k);
    x :| x in s && s[x].Leaf? && Within(k, g[x]);
    assert PageOk(c, s, root, g, ex, x);
    UnderByRange(c, s, root, g, ex, x, y, k);
  }

  /** The middle key is right and the children are internal: then the separator is the first key of the
      second leaf below the moved child, and that entry is lost. */
  lemma SeparatorTooLow(c: Config, s: Pages, root: PageId, g: Ranges, pp: PageId, a: PageId, b: PageId, pre: PageId,
                        middleKey: int, separator: int)
    requires SlotZeroReady(c, s, root, g, pp, a, b, pre) && g[a].level >= 2
    requires var z := s[pre].next; z in s && s[z].Leaf? && Within(s[pp].keys[1], g[z])
    requires var z := s[pre].next; var after := s[z].next;
      after in s && s[after].Leaf? && |s[after].items| >= 1 ==> separator == s[after].items[0].key
    ensures Ruins(c, BorrowPages(s, pp, 1, a, b, true, middleKey, separator), root)
  {
    NeighbourFacts(c, s, root, g, a, pp, 1, a, b);
    var m, z := s[b].kids[0], s[pre].next;
    assert ChildOk(s, g, b, 0);
    KidFacts(c, s, root, g, a, b, m);
    assert PageOk(c, s, root, g, a, m);
    SecondLeafUnder(c, s, root, g, a, m, z, s[pp].keys[1]);
    var x := s[z].next;
    var e := s[x].items[0];
    assert e in s[x].items;
    var s2 := BorrowPages(s, pp, 1, a, b, true, middleKey, separator);
    BorrowKeepsLinks(c, s, root, g, pp, 1, a, b, true, middleKey, separator);
    BorrowKeepsHolder(c, s, root, g, pp, 1, a, b, true, middleKey, separator, x, e);
    BorrowSparesBelow(c, s, root, g, pp, 1, a, b, true, middleKey, separator, x, m);
    UnderParent(s2, x, m, g[m].level);
    assert s2[pp].kids[0] == a && s2[pp].keys[1] == separator;
    AstrayRuins(c, s2, root, e, x, pp, 0, g[m].level + 1);
  }

  /** With one child left, a borrow ruins the tree whenever the leaves it reads exist, except just above the
      leaves when slot 0 happens to hold a key of the page's own range. */
  lemma SlotZeroBreaks(c: Config, s: Pages, root: PageId, g: Ranges, pp: PageId, a: PageId, b: PageId, pre: PageId,
                       middleKey: int, separator: int)
    requires SlotZeroReady(c, s, root, g, pp, a, b, pre) && (g[a].level >= 2 || !Within(s[a].keys[0], g[a]))
    requires var mid := s[pre].next; mid in s && s[mid].Leaf? && |s[mid].items| >= 1 ==>
      middleKey == s[mid].items[0].key
    requires var mid := s[pre].next; mid in s && s[mid].Leaf? ==>
      var after := s[mid].next;
      after in s && s[after].Leaf? && |s[after].items| >= 1 ==> separator == s[after].items[0].key
    ensures Ruins(c, BorrowPages(s, pp, 1, a, b, true, middleKey, separator), root)
  {
    var z := SlotZeroLeaves(c, s, root, g, pp, a, b, pre);
    var mid := s[pre].next;
    if mid == z && g[a].level >= 2 {
      SeparatorTooLow(c, s, root, g, pp, a, b, pre, middleKey, separator);
    } else {
      assert mid != z by {
        if mid == z {
          OnlyChildEnds(c, s, root, g, pp, a, b, pre);
        }
      }
      assert s[mid].items[0] in s[mid].items && s[z].items[0] in s[z].items;
      EntryInRange(c, s, root, g, a, mid, s[mid].items[0]);
      EntryInRange(c, s, root, g, a, z, s[z].items[0]);
      if middleKey > s[z].items[0].key {
        MiddleTooHigh(c, s, root, g, pp, a, b, pre, z, middleKey, separator);
      } else {
        if Within(middleKey, g[z]) {
          OnePagePerKey(c, s, root, g, a, mid, z, middleKey);
        }
        assert middleKey < s[pp].keys[1];
        MiddleTooLow(c, s, root, g, pp, a, b, pre, middleKey, separator);
      }
    }
  }

  /** Just above the leaves, only the page's own child has the first leaf of `b` as its successor. */
  lemma OnlyChildEnds(c: Config, s: Pages, root: PageId, g: Ranges, pp: PageId, a: PageId, b: PageId, pre: PageId)
    requires SlotZeroReady(c, s, root, g, pp, a, b, pre) && g[a].level == 1
    requires var mid := s[pre].next;
      mid in s && mid in g && s[mid].Leaf? && g[mid].lo == g[pre].hi && Within(s[pp].keys[1], g[mid])
    ensures Within(s[a].keys[0], g[a])
  {
    NeighbourFacts(c, s, root, g, a, pp, 1, a, b);
    var x, f, mid := s[a].kids[0], s[b].kids[0], s[pre].next;
    assert ChildOk(s, g, a, 0) && ChildOk(s, g, b, 0);
    assert PageOk(c, s, root, g, a, x) && PageOk(c, s, root, g, a, f) && PageOk(c, s, root, g, a, mid);
    OnePagePerKey(c, s, root, g, a, mid, f, s[pp].keys[1]);
    PrevUnique(c, s, root, g, a, x, pre);
  }
}
