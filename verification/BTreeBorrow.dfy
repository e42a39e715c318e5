/** Borrowing between internal pages: raising a separator, rotating one child, and how the
    source combines the two. */
module BTreeBorrow {
  import opened BTreePages
  import opened BTreeShape
  import opened BTreeInsert
  import opened BTreeRemove

  function Last(a: seq<PageId>): PageId
    requires |a| > 0
  {
    a[|a| - 1]
  }

  function WithLo(r: Range, k: int): Range {
    Range(r.level, At(k), r.hi)
  }

  function WithHi(r: Range, k: int): Range {
    Range(r.level, r.lo, At(k))
  }

  // ---------- Raising the separator between two pages of leaves ----------

  function RaiseRanges(g: Ranges, k: int, a: PageId, b: PageId, x: PageId, f: PageId): Ranges
    requires a in g && b in g && x in g && f in g
  {
    g[a := WithHi(g[a], k)][b := WithLo(g[b], k)][x := WithHi(g[x], k)][f := WithLo(g[f], k)]
  }

  ghost predicate RaiseStep(c: Config, s: Pages, root: PageId, g: Ranges, ex: PageId, pp: PageId, i: nat, k: int,
                            a: PageId, b: PageId, x: PageId, f: PageId) {
    && Inv(c, s, root, g, ex) && Neighbours(s, pp, i, a, b)
    && s[a].Inner? && s[b].Inner? && g[a].level == 1
    && |s[a].kids| == |s[a].keys| >= 1 && |s[b].kids| == |s[b].keys| >= 1
    && x == Last(s[a].kids) && f == s[b].kids[0] && x in s && f in s && s[f].Leaf? && s[x].Leaf?
    && s[pp].keys[i] <= k && Below(k, g[f].hi)
    && forall j :: 0 <= j < |s[f].items| ==> k <= s[f].items[j].key
  }

  lemma RaiseFacts(c: Config, s: Pages, root: PageId, g: Ranges, ex: PageId, pp: PageId, i: nat, k: int,
                   a: PageId, b: PageId, x: PageId, f: PageId)
    requires RaiseStep(c, s, root, g, ex, pp, i, k, a, b, x, f)
    ensures ChildOk(s, g, a, |s[a].kids| - 1) && ChildOk(s, g, b, 0)
    ensures g[x].hi == g[f].lo == At(s[pp].keys[i]) && g[x].level == 0 && g[f].level == 0
    ensures x != a && x != b && x != pp && f != a && f != b && f != pp && x != f
    ensures s[x].parent == a && s[f].parent == b && s[x].next == f
    ensures s[a].parent == pp && s[b].parent == pp
    ensures g[f].hi.At? || g[f].hi.PosInf?
    ensures Less(At(k), g[b].hi)
  {
    NeighbourFacts(c, s, root, g, ex, pp, i, a, b);
    assert ChildOk(s, g, a, |s[a].kids| - 1) && ChildOk(s, g, b, 0);
    NextNeighbour(c, s, root, g, ex, x, f);
  }

  lemma RaiseInnersOk(c: Config, s: Pages, root: PageId, g: Ranges, ex: PageId, pp: PageId, i: nat, k: int,
                      a: PageId, b: PageId, x: PageId, f: PageId, y: PageId)
    requires RaiseStep(c, s, root, g, ex, pp, i, k, a, b, x, f) && (y == a || y == b)
    ensures PageOk(c, s[pp := SetKeyAt(s[pp], i, k)], root, RaiseRanges(g, k, a, b, x, f), ex, y)
  {
    var s2, g2 := s[pp := SetKeyAt(s[pp], i, k)], RaiseRanges(g, k, a, b, x, f);
    RaiseFacts(c, s, root, g, ex, pp, i, k, a, b, x, f);
    NeighbourFacts(c, s, root, g, ex, pp, i, a, b);
    assert s2[pp].kids == s[pp].kids;
    RaiseChildrenOk(c, s, root, g, ex, pp, i, k, a, b, x, f, y);
  }

  lemma RaiseChildrenOk(c: Config, s: Pages, root: PageId, g: Ranges, ex: PageId, pp: PageId, i: nat, k: int,
                        a: PageId, b: PageId, x: PageId, f: PageId, y: PageId)
    requires RaiseStep(c, s, root, g, ex, pp, i, k, a, b, x, f) && (y == a || y == b)
    ensures var s2, g2 := s[pp := SetKeyAt(s[pp], i, k)], RaiseRanges(g, k, a, b, x, f);
      y in s2 && y in g2 && s2[y].Inner? && InnerOk(s2, g2, y)
  {
    var s2, g2 := s[pp := SetKeyAt(s[pp], i, k)], RaiseRanges(g, k, a, b, x, f);
    RaiseFacts(c, s, root, g, ex, pp, i, k, a, b, x, f);
    NeighbourFacts(c, s, root, g, ex, pp, i, a, b);
    forall j | 0 <= j < |s[y].kids| ensures ChildOk(s2, g2, y, j) {
      assert ChildOk(s, g, y, j);
      KidFacts(c, s, root, g, ex, y, s[y].kids[j]);
    }
  }

  lemma RaiseLeavesOk(c: Config, s: Pages, root: PageId, g: Ranges, ex: PageId, pp: PageId, i: nat, k: int,
                      a: PageId, b: PageId, x: PageId, f: PageId)
    requires RaiseStep(c, s, root, g, ex, pp, i, k, a, b, x, f)
    ensures PageOk(c, s[pp := SetKeyAt(s[pp], i, k)], root, RaiseRanges(g, k, a, b, x, f), ex, x)
    ensures PageOk(c, s[pp := SetKeyAt(s[pp], i, k)], root, RaiseRanges(g, k, a, b, x, f), ex, f)
  {
    var s2, g2 := s[pp := SetKeyAt(s[pp], i, k)], RaiseRanges(g, k, a, b, x, f);
    RaiseFacts(c, s, root, g, ex, pp, i, k, a, b, x, f);
    assert PageOk(c, s, root, g, ex, x);
    assert PageOk(c, s, root, g, ex, f);
    assert LeafOk(s2, g2, x);
    assert LeafOk(s2, g2, f);
  }

  lemma RaiseParentOk(c: Config, s: Pages, root: PageId, g: Ranges, ex: PageId, pp: PageId, i: nat, k: int,
                      a: PageId, b: PageId, x: PageId, f: PageId)
    requires RaiseStep(c, s, root, g, ex, pp, i, k, a, b, x, f)
    ensures PageOk(c, s[pp := SetKeyAt(s[pp], i, k)], root, RaiseRanges(g, k, a, b, x, f), ex, pp)
  {
    var s2, g2 := s[pp := SetKeyAt(s[pp], i, k)], RaiseRanges(g, k, a, b, x, f);
    RaiseFacts(c, s, root, g, ex, pp, i, k, a, b, x, f);
    NeighbourFacts(c, s, root, g, ex, pp, i, a, b);
    SeparatorMoves(s[pp].keys, g[pp], i, k);
    forall j | 0 <= j < |s[pp].kids| ensures ChildOk(s2, g2, pp, j) {
      assert ChildOk(s, g, pp, j);
      assert s2[pp].kids[j] == s[pp].kids[j];
    }
    assert InnerOk(s2, g2, pp);
  }

  lemma RaiseOtherOk(c: Config, s: Pages, root: PageId, g: Ranges, ex: PageId, pp: PageId, i: nat, k: int,
                     a: PageId, b: PageId, x: PageId, f: PageId, y: PageId)
    requires RaiseStep(c, s, root, g, ex, pp, i, k, a, b, x, f)
    requires y in s && y != a && y != b && y != x && y != f && y != pp
    ensures PageOk(c, s[pp := SetKeyAt(s[pp], i, k)], root, RaiseRanges(g, k, a, b, x, f), ex, y)
  {
    var s2, g2 := s[pp := SetKeyAt(s[pp], i, k)], RaiseRanges(g, k, a, b, x, f);
    RaiseFacts(c, s, root, g, ex, pp, i, k, a, b, x, f);
    assert PageOk(c, s, root, g, ex, y);
    if s[y].Inner? {
      forall j | 0 <= j < |s[y].kids| ensures KidKept(s, g, s2, g2, s[y].kids[j], y) {
        KidFacts(c, s, root, g, ex, y, s[y].kids[j]);
      }
      InnerFrame(s, g, s2, g2, y);
    } else {
      if !g[y].hi.PosInf? && s[y].next == f {
        PrevUnique(c, s, root, g, ex, x, y);
      }
      assert LeafOk(s2, g2, y);
    }
  }

  lemma RaisePageOk(c: Config, s: Pages, root: PageId, g: Ranges, ex: PageId, pp: PageId, i: nat, k: int,
                    a: PageId, b: PageId, x: PageId, f: PageId, y: PageId)
    requires RaiseStep(c, s, root, g, ex, pp, i, k, a, b, x, f) && y in s
    ensures PageOk(c, s[pp := SetKeyAt(s[pp], i, k)], root, RaiseRanges(g, k, a, b, x, f), ex, y)
  {
    if y == a || y == b {
      RaiseInnersOk(c, s, root, g, ex, pp, i, k, a, b, x, f, y);
    } else if y == x || y == f {
      RaiseLeavesOk(c, s, root, g, ex, pp, i, k, a, b, x, f);
    } else if y == pp {
      RaiseParentOk(c, s, root, g, ex, pp, i, k, a, b, x, f);
    } else {
      RaiseOtherOk(c, s, root, g, ex, pp, i, k, a, b, x, f, y);
    }
  }

  lemma RaiseSparesRoot(c: Config, s: Pages, root: PageId, g: Ranges, ex: PageId, pp: PageId, i: nat, k: int,
                        a: PageId, b: PageId, x: PageId, f: PageId)
    requires RaiseStep(c, s, root, g, ex, pp, i, k, a, b, x, f)
    ensures root != a && root != b && root != x && root != f
  {
    NeighbourFacts(c, s, root, g, ex, pp, i, a, b);
    KidFacts(c, s, root, g, ex, a, x);
    KidFacts(c, s, root, g, ex, b, f);
  }

  /** The separator between two pages of leaves may rise to any key not above the entries right of it. */
  lemma RaiseKeepsInv(c: Config, s: Pages, root: PageId, g: Ranges, ex: PageId, pp: PageId, i: nat, k: int,
                      a: PageId, b: PageId, x: PageId, f: PageId)
    requires RaiseStep(c, s, root, g, ex, pp, i, k, a, b, x, f)
    ensures Inv(c, s[pp := SetKeyAt(s[pp], i, k)], root, RaiseRanges(g, k, a, b, x, f), ex)
  {
    var s2, g2 := s[pp := SetKeyAt(s[pp], i, k)], RaiseRanges(g, k, a, b, x, f);
    RaiseSparesRoot(c, s, root, g, ex, pp, i, k, a, b, x, f);
    forall y | y in s2 ensures PageOk(c, s2, root, g2, ex, y) {
      RaisePageOk(c, s, root, g, ex, pp, i, k, a, b, x, f, y);
    }
  }

  // ---------- Rotating one child across an exact separator ----------

  /** The two pages after a rotation: their joint children are the same, and the new boundary key
      is one of the old separators. `left` says which way the child `m` moves. */
  ghost predicate Rotated(s: Pages, pp: PageId, i: nat, a: PageId, b: PageId, left: bool, k0: int, m: PageId, s2: Pages)
  {
    && Neighbours(s, pp, i, a, b) && s[a].Inner? && s[b].Inner? && a != b && a != pp && b != pp
    && |s[a].keys| == |s[a].kids| && |s[b].keys| == |s[b].kids|
    && s2.Keys == s.Keys && m in s && m != a && m != b && m != pp
    && (if left then
          && |s[b].kids| >= 2 && |s[a].kids| >= 1 && m == s[b].kids[0]
          && s2[a] == Inner(pp, s[a].keys + [s[pp].keys[i]], s[a].kids + [m])
          && s2[b] == Inner(pp, [k0] + s[b].keys[2..], s[b].kids[1..])
          && s2[pp] == SetKeyAt(s[pp], i, s[b].keys[1])
          && s2[m] == SetParent(s[m], a)
        else
          && |s[a].kids| >= 2 && |s[b].kids| >= 1 && m == Last(s[a].kids)
          && s2[a] == Inner(pp, s[a].keys[..|s[a].keys| - 1], s[a].kids[..|s[a].kids| - 1])
          && s2[b] == Inner(pp, [k0, s[pp].keys[i]] + s[b].keys[1..], [m] + s[b].kids)
          && s2[pp] == SetKeyAt(s[pp], i, s[a].keys[|s[a].keys| - 1])
          && s2[m] == SetParent(s[m], b))
    && forall y {:trigger s2[y]} :: y in s && y != a && y != b && y != pp && y != m ==> s2[y] == s[y]
  }

  function RotateKey(s: Pages, a: PageId, b: PageId, left: bool): int
    requires a in s && b in s && s[a].Inner? && s[b].Inner? && |s[a].keys| >= 1 && |s[b].keys| >= 1
  {
    if left then (if |s[b].keys| >= 2 then s[b].keys[1] else 0) else s[a].keys[|s[a].keys| - 1]
  }

  function RotateRanges(g: Ranges, a: PageId, b: PageId, k: int): Ranges
    requires a in g && b in g
  {
    g[a := WithHi(g[a], k)][b := WithLo(g[b], k)]
  }

  ghost predicate RotateStep(c: Config, s: Pages, root: PageId, g: Ranges, ex: PageId, pp: PageId, i: nat, a: PageId,
                             b: PageId, left: bool, k0: int, m: PageId, s2: Pages, g2: Ranges) {
    && Inv(c, s, root, g, ex) && Rotated(s, pp, i, a, b, left, k0, m, s2)
    && g2 == RotateRanges(g, a, b, RotateKey(s, a, b, left))
    && ex == (if left then a else b)
    && SizeOk(c, s2[a], false) && SizeOk(c, s2[b], false)
  }

  lemma RotateFacts(c: Config, s: Pages, root: PageId, g: Ranges, ex: PageId, pp: PageId, i: nat, a: PageId, b: PageId,
                    left: bool, k0: int, m: PageId, s2: Pages, g2: Ranges)
    requires RotateStep(c, s, root, g, ex, pp, i, a, b, left, k0, m, s2, g2)
    ensures s[m].parent == (if left then b else a) && g[m].level + 1 == g[a].level == g[b].level && m != root
    ensures var k := RotateKey(s, a, b, left); Less(g[a].lo, At(k)) && Less(At(k), g[b].hi)
  {
    NeighbourFacts(c, s, root, g, ex, pp, i, a, b);
    KidFacts(c, s, root, g, ex, if left then b else a, m);
  }

  lemma RotateParentOk(c: Config, s: Pages, root: PageId, g: Ranges, ex: PageId, pp: PageId, i: nat, a: PageId,
                       b: PageId, left: bool, k0: int, m: PageId, s2: Pages, g2: Ranges)
    requires RotateStep(c, s, root, g, ex, pp, i, a, b, left, k0, m, s2, g2)
    ensures PageOk(c, s2, root, g2, INVALID_PAGE_ID, pp)
  {
    RotateFacts(c, s, root, g, ex, pp, i, a, b, left, k0, m, s2, g2);
    NeighbourFacts(c, s, root, g, ex, pp, i, a, b);
    RotateParentInner(c, s, root, g, ex, pp, i, a, b, left, k0, m, s2, g2);
  }

  lemma RotateParentInner(c: Config, s: Pages, root: PageId, g: Ranges, ex: PageId, pp: PageId, i: nat, a: PageId,
                          b: PageId, left: bool, k0: int, m: PageId, s2: Pages, g2: Ranges)
    requires RotateStep(c, s, root, g, ex, pp, i, a, b, left, k0, m, s2, g2)
    ensures pp in s2 && pp in g2 && s2[pp].Inner? && InnerOk(s2, g2, pp)
  {
    RotateFacts(c, s, root, g, ex, pp, i, a, b, left, k0, m, s2, g2);
    NeighbourFacts(c, s, root, g, ex, pp, i, a, b);
    SeparatorMoves(s[pp].keys, g[pp], i, RotateKey(s, a, b, left));
    forall j | 0 <= j < |s[pp].kids| ensures ChildOk(s2, g2, pp, j) {
      RotateSiblingOk(c, s, root, g, ex, pp, i, a, b, left, k0, m, s2, g2, j);
    }
  }

  lemma RotateSiblingOk(c: Config, s: Pages, root: PageId, g: Ranges, ex: PageId, pp: PageId, i: nat, a: PageId,
                        b: PageId, left: bool, k0: int, m: PageId, s2: Pages, g2: Ranges, j: nat)
    requires RotateStep(c, s, root, g, ex, pp, i, a, b, left, k0, m, s2, g2) && j < |s[pp].kids|
    ensures ChildOk(s2, g2, pp, j)
  {
    var x := s[pp].kids[j];
    NeighbourFacts(c, s, root, g, ex, pp, i, a, b);
    assert ChildOk(s, g, pp, j);
    assert s2[pp].kids[j] == x;
    assert x != m by {
      RotateFacts(c, s, root, g, ex, pp, i, a, b, left, k0, m, s2, g2);
    }
  }

  lemma RotateLeftAOk(c: Config, s: Pages, root: PageId, g: Ranges, ex: PageId, pp: PageId, i: nat, a: PageId,
                      b: PageId, k0: int, m: PageId, s2: Pages, g2: Ranges)
    requires RotateStep(c, s, root, g, ex, pp, i, a, b, true, k0, m, s2, g2)
    ensures PageOk(c, s2, root, g2, INVALID_PAGE_ID, a)
  {
    RotateFacts(c, s, root, g, ex, pp, i, a, b, true, k0, m, s2, g2);
    NeighbourFacts(c, s, root, g, ex, pp, i, a, b);
    assert s2[pp].kids == s[pp].kids;
    var n := |s[a].kids|;
    forall j | 0 <= j < |s2[a].kids| ensures ChildOk(s2, g2, a, j) {
      if j < n {
        assert s2[a].kids[j] == s[a].kids[j];
        assert ChildOk(s, g, a, j);
        KidFacts(c, s, root, g, ex, a, s[a].kids[j]);
      } else {
        assert ChildOk(s, g, b, 0);
      }
    }
    assert InnerOk(s2, g2, a);
  }

  lemma RotateLeftBOk(c: Config, s: Pages, root: PageId, g: Ranges, ex: PageId, pp: PageId, i: nat, a: PageId,
                      b: PageId, k0: int, m: PageId, s2: Pages, g2: Ranges)
    requires RotateStep(c, s, root, g, ex, pp, i, a, b, true, k0, m, s2, g2)
    ensures PageOk(c, s2, root, g2, INVALID_PAGE_ID, b)
  {
    RotateFacts(c, s, root, g, ex, pp, i, a, b, true, k0, m, s2, g2);
    NeighbourFacts(c, s, root, g, ex, pp, i, a, b);
    assert s2[pp].kids == s[pp].kids;
    assert forall j :: 1 <= j < |s2[b].keys| ==> s2[b].keys[j] == s[b].keys[j + 1];
    forall j | 0 <= j < |s2[b].kids| ensures ChildOk(s2, g2, b, j) {
      assert s2[b].kids[j] == s[b].kids[j + 1];
      assert ChildOk(s, g, b, j + 1);
      KidFacts(c, s, root, g, ex, b, s[b].kids[j + 1]);
    }
    assert InnerOk(s2, g2, b);
  }

  lemma RotateRightAOk(c: Config, s: Pages, root: PageId, g: Ranges, ex: PageId, pp: PageId, i: nat, a: PageId,
                       b: PageId, k0: int, m: PageId, s2: Pages, g2: Ranges)
    requires RotateStep(c, s, root, g, ex, pp, i, a, b, false, k0, m, s2, g2)
    ensures PageOk(c, s2, root, g2, INVALID_PAGE_ID, a)
  {
    RotateFacts(c, s, root, g, ex, pp, i, a, b, false, k0, m, s2, g2);
    NeighbourFacts(c, s, root, g, ex, pp, i, a, b);
    assert s2[pp].kids == s[pp].kids;
    forall j | 0 <= j < |s2[a].kids| ensures ChildOk(s2, g2, a, j) {
      assert s2[a].kids[j] == s[a].kids[j];
      assert ChildOk(s, g, a, j);
      KidFacts(c, s, root, g, ex, a, s[a].kids[j]);
    }
    assert InnerOk(s2, g2, a);
  }

  lemma RotateRightBOk(c: Config, s: Pages, root: PageId, g: Ranges, ex: PageId, pp: PageId, i: nat, a: PageId,
                       b: PageId, k0: int, m: PageId, s2: Pages, g2: Ranges)
    requires RotateStep(c, s, root, g, ex, pp, i, a, b, false, k0, m, s2, g2)
    ensures PageOk(c, s2, root, g2, INVALID_PAGE_ID, b)
  {
    RotateFacts(c, s, root, g, ex, pp, i, a, b, false, k0, m, s2, g2);
    NeighbourFacts(c, s, root, g, ex, pp, i, a, b);
    assert s2[pp].kids == s[pp].kids;
    RotateRightBInner(c, s, root, g, ex, pp, i, a, b, k0, m, s2, g2);
  }

  lemma RotateRightBInner(c: Config, s: Pages, root: PageId, g: Ranges, ex: PageId, pp: PageId, i: nat, a: PageId,
                          b: PageId, k0: int, m: PageId, s2: Pages, g2: Ranges)
    requires RotateStep(c, s, root, g, ex, pp, i, a, b, false, k0, m, s2, g2)
    ensures s2[b].Inner? && InnerOk(s2, g2, b)
  {
    RotateFacts(c, s, root, g, ex, pp, i, a, b, false, k0, m, s2, g2);
    NeighbourFacts(c, s, root, g, ex, pp, i, a, b);
    assert forall j :: 2 <= j < |s2[b].keys| ==> s2[b].keys[j] == s[b].keys[j - 1];
    forall j | 0 <= j < |s2[b].kids| ensures ChildOk(s2, g2, b, j) {
      RotateRightBChild(c, s, root, g, ex, pp, i, a, b, k0, m, s2, g2, j);
    }
  }

  lemma RotateRightBChild(c: Config, s: Pages, root: PageId, g: Ranges, ex: PageId, pp: PageId, i: nat, a: PageId,
                          b: PageId, k0: int, m: PageId, s2: Pages, g2: Ranges, j: nat)
    requires RotateStep(c, s, root, g, ex, pp, i, a, b, false, k0, m, s2, g2) && j < |s2[b].kids| == |s2[b].keys|
    ensures ChildOk(s2, g2, b, j)
  {
    RotateFacts(c, s, root, g, ex, pp, i, a, b, false, k0, m, s2, g2);
    NeighbourFacts(c, s, root, g, ex, pp, i, a, b);
    if j == 0 {
      assert ChildOk(s, g, a, |s[a].kids| - 1);
    } else {
      assert s2[b].kids[j] == s[b].kids[j - 1];
      assert ChildOk(s, g, b, j - 1);
      KidFacts(c, s, root, g, ex, b, s[b].kids[j - 1]);
    }
  }

  lemma RotateOtherOk(c: Config, s: Pages, root: PageId, g: Ranges, ex: PageId, pp: PageId, i: nat, a: PageId,
                      b: PageId, left: bool, k0: int, m: PageId, s2: Pages, g2: Ranges, y: PageId)
    requires RotateStep(c, s, root, g, ex, pp, i, a, b, left, k0, m, s2, g2)
    requires y in s && y != a && y != b && y != pp
    ensures PageOk(c, s2, root, g2, INVALID_PAGE_ID, y)
  {
    assert root != m && g2[root] == g[root] && s[m].parent == (if left then b else a)
        && s[a].parent == pp && s[b].parent == pp && a >= 2 && b >= 2 by {
      RotateFacts(c, s, root, g, ex, pp, i, a, b, left, k0, m, s2, g2);
      NeighbourFacts(c, s, root, g, ex, pp, i, a, b);
    }
    assert PageOk(c, s, root, g, ex, y);
    if y != root {
      RotateLinkOk(c, s, root, g, ex, pp, i, a, b, left, k0, m, s2, g2, y);
    }
    if s[y].Inner? {
      forall j | 0 <= j < |s[y].kids| ensures KidKept(s, g, s2, g2, s[y].kids[j], y) {
        RotateOtherKid(c, s, root, g, ex, pp, i, a, b, left, k0, m, s2, g2, y, s[y].kids[j]);
      }
      InnerFrame(s, g, s2, g2, y);
    } else {
      RotateOtherLeaf(c, s, root, g, ex, pp, i, a, b, left, k0, m, s2, g2, y);
    }
  }

  lemma RotateOtherKid(c: Config, s: Pages, root: PageId, g: Ranges, ex: PageId, pp: PageId, i: nat, a: PageId,
                       b: PageId, left: bool, k0: int, m: PageId, s2: Pages, g2: Ranges, y: PageId, x: PageId)
    requires RotateStep(c, s, root, g, ex, pp, i, a, b, left, k0, m, s2, g2)
    requires y in s && y != a && y != b && y != pp && s[y].Inner? && x in s[y].kids
    ensures KidKept(s, g, s2, g2, x, y)
  {
    RotateFacts(c, s, root, g, ex, pp, i, a, b, left, k0, m, s2, g2);
    NeighbourFacts(c, s, root, g, ex, pp, i, a, b);
    KidFacts(c, s, root, g, ex, y, x);
  }

  lemma RotateOtherLeaf(c: Config, s: Pages, root: PageId, g: Ranges, ex: PageId, pp: PageId, i: nat, a: PageId,
                        b: PageId, left: bool, k0: int, m: PageId, s2: Pages, g2: Ranges, y: PageId)
    requires RotateStep(c, s, root, g, ex, pp, i, a, b, left, k0, m, s2, g2)
    requires y in s && y != a && y != b && y != pp && s[y].Leaf?
    ensures s2[y].Leaf? && LeafOk(s2, g2, y)
  {
    assert PageOk(c, s, root, g, ex, y);
  }

  lemma RotateLinkOk(c: Config, s: Pages, root: PageId, g: Ranges, ex: PageId, pp: PageId, i: nat, a: PageId, b: PageId,
                     left: bool, k0: int, m: PageId, s2: Pages, g2: Ranges, y: PageId)
    requires RotateStep(c, s, root, g, ex, pp, i, a, b, left, k0, m, s2, g2)
    requires y in s && y != root && y != a && y != b
    ensures s2[y].parent in s2 && s2[s2[y].parent].Inner? && y in s2[s2[y].parent].kids
  {
    RotateFacts(c, s, root, g, ex, pp, i, a, b, left, k0, m, s2, g2);
    ParentFacts(c, s, root, g, ex, y);
    var z := s[y].parent;
    var j := IndexOf(s[z].kids, y);
    if y == m {
      assert if left then s2[a].kids[|s[a].kids|] == m else s2[b].kids[0] == m;
    } else if z == a {
      assert s2[a].kids[j] == y;
    } else if z == b {
      assert s2[b].kids[if left then j - 1 else j + 1] == y;
    }
  }

  /** Rotating a child across its exact separator repairs the short page at any level. */
  lemma RotateKeepsInv(c: Config, s: Pages, root: PageId, g: Ranges, ex: PageId, pp: PageId, i: nat, a: PageId,
                       b: PageId, left: bool, k0: int, m: PageId, s2: Pages, g2: Ranges)
    requires RotateStep(c, s, root, g, ex, pp, i, a, b, left, k0, m, s2, g2)
    ensures Inv(c, s2, root, g2, INVALID_PAGE_ID)
  {
    forall y | y in s2 ensures PageOk(c, s2, root, g2, INVALID_PAGE_ID, y) {
      RotatePageOk(c, s, root, g, ex, pp, i, a, b, left, k0, m, s2, g2, y);
    }
    assert root != a && root != b && root != m by {
      NeighbourFacts(c, s, root, g, ex, pp, i, a, b);
      RotateFacts(c, s, root, g, ex, pp, i, a, b, left, k0, m, s2, g2);
    }
  }

  lemma RotatePageOk(c: Config, s: Pages, root: PageId, g: Ranges, ex: PageId, pp: PageId, i: nat, a: PageId,
                     b: PageId, left: bool, k0: int, m: PageId, s2: Pages, g2: Ranges, y: PageId)
    requires RotateStep(c, s, root, g, ex, pp, i, a, b, left, k0, m, s2, g2) && y in s2
    ensures PageOk(c, s2, root, g2, INVALID_PAGE_ID, y)
  {
    if y == pp {
      RotateParentOk(c, s, root, g, ex, pp, i, a, b, left, k0, m, s2, g2);
    } else if y == a && left {
      RotateLeftAOk(c, s, root, g, ex, pp, i, a, b, k0, m, s2, g2);
    } else if y == a {
      RotateRightAOk(c, s, root, g, ex, pp, i, a, b, k0, m, s2, g2);
    } else if y == b && left {
      RotateLeftBOk(c, s, root, g, ex, pp, i, a, b, k0, m, s2, g2);
    } else if y == b {
      RotateRightBOk(c, s, root, g, ex, pp, i, a, b, k0, m, s2, g2);
    } else {
      RotateOtherOk(c, s, root, g, ex, pp, i, a, b, left, k0, m, s2, g2, y);
    }
  }

  // ---------- The source's borrow between internal pages ----------

  /** Page `a` in slot `i - 1` and `b` in slot `i`; `left` when `a` is short and takes the first child
      of `b`. The middle key and the new separator are whatever the source read from leaf pages. */
  function BorrowPages(s: Pages, pp: PageId, i: nat, a: PageId, b: PageId, left: bool, middleKey: int,
                       separator: int): Pages
    requires Neighbours(s, pp, i, a, b) && s[a].Inner? && s[b].Inner?
    requires |s[a].keys| == |s[a].kids| >= 1 && |s[b].keys| == |s[b].kids| >= 1
    requires Moved(s, a, b, left) in s
  {
    var m := Moved(s, a, b, left);
    var s1 := s[pp := SetKeyAt(s[pp], i, separator)][m := SetParent(s[m], if left then a else b)];
    if left then
      s1[a := Inner(s[a].parent, s[a].keys + [middleKey], s[a].kids + [m])]
        [b := Inner(s[b].parent, s[b].keys[1..], s[b].kids[1..])]
    else
      s1[b := Inner(s[b].parent, [s[a].keys[|s[a].keys| - 1], middleKey] + s[b].keys[1..], [m] + s[b].kids)]
        [a := Inner(s[a].parent, s[a].keys[..|s[a].keys| - 1], s[a].kids[..|s[a].kids| - 1])]
  }

  function Moved(s: Pages, a: PageId, b: PageId, left: bool): PageId
    requires a in s && b in s && s[a].Inner? && s[b].Inner? && |s[a].kids| >= 1 && |s[b].kids| >= 1
  {
    if left then s[b].kids[0] else Last(s[a].kids)
  }

  /** The short page and its neighbour are too large together for one page. */
  ghost predicate BorrowReady(c: Config, s: Pages, root: PageId, g: Ranges, pp: PageId, i: nat, a: PageId, b: PageId,
                              left: bool) {
    && Inv(c, s, root, g, if left then a else b) && Neighbours(s, pp, i, a, b)
    && s[a].Inner? && s[b].Inner?
    && |s[a].keys| == |s[a].kids| >= 1 && |s[b].keys| == |s[b].kids| >= 1
    && |s[a].kids| + |s[b].kids| > c.innerMax
    && |s[if left then a else b].kids| == c.MinSize(s[if left then a else b]) - 1
    && Moved(s, a, b, left) in s
  }

  lemma BorrowSizes(c: Config, s: Pages, root: PageId, g: Ranges, pp: PageId, i: nat, a: PageId, b: PageId, left: bool)
    requires BorrowReady(c, s, root, g, pp, i, a, b, left)
    ensures !s[a].IsRootPage() && !s[b].IsRootPage()
    ensures left ==> |s[b].kids| >= 3 && |s[b].kids| - 1 >= c.MinSize(s[b]) && |s[b].kids| <= c.innerMax
    ensures !left ==> |s[a].kids| >= 3 && |s[a].kids| - 1 >= c.MinSize(s[a]) && |s[a].kids| <= c.innerMax
  {
    NeighbourFacts(c, s, root, g, if left then a else b, pp, i, a, b);
  }

  /** The leaves around the boundary of two pages of leaves: the last of `a` and the first of `b`;
      and the two leaves between which the new boundary will lie. */
  ghost predicate BoundaryLeaves(s: Pages, a: PageId, b: PageId, left: bool, x: PageId, f: PageId, l: PageId, r: PageId)
    requires a in s && b in s && s[a].Inner? && s[b].Inner?
  {
    && |s[a].kids| >= 1 && |s[b].kids| >= 1
    && x == Last(s[a].kids) && f == s[b].kids[0] && x in s && f in s && s[x].Leaf? && s[f].Leaf?
    && (if left then |s[b].kids| >= 2 && l == f && r == s[b].kids[1]
        else |s[a].kids| >= 2 && l == s[a].kids[|s[a].kids| - 2] && r == x)
    && l in s && r in s && s[l].Leaf? && s[r].Leaf? && |s[f].items| >= 1 && |s[r].items| >= 1
  }

  lemma BoundaryLeavesExist(c: Config, s: Pages, root: PageId, g: Ranges, pp: PageId, i: nat, a: PageId, b: PageId,
                            left: bool)
    returns (x: PageId, f: PageId, l: PageId, r: PageId)
    requires BorrowReady(c, s, root, g, pp, i, a, b, left) && g[a].level == 1
    ensures BoundaryLeaves(s, a, b, left, x, f, l, r)
  {
    var ex := if left then a else b;
    BorrowSizes(c, s, root, g, pp, i, a, b, left);
    NeighbourFacts(c, s, root, g, ex, pp, i, a, b);
    x, f := Last(s[a].kids), s[b].kids[0];
    l := if left then f else s[a].kids[|s[a].kids| - 2];
    r := if left then s[b].kids[1] else x;
    KidFacts(c, s, root, g, ex, a, x);
    KidFacts(c, s, root, g, ex, b, f);
    KidFacts(c, s, root, g, ex, if left then b else a, l);
    KidFacts(c, s, root, g, ex, if left then b else a, r);
    assert PageOk(c, s, root, g, ex, x) && PageOk(c, s, root, g, ex, f);
    assert PageOk(c, s, root, g, ex, l) && PageOk(c, s, root, g, ex, r);
  }

  /** First step of a sound borrow: the separator above rises to the first key right of it. */
  lemma BorrowRaise(c: Config, s: Pages, root: PageId, g: Ranges, pp: PageId, i: nat, a: PageId, b: PageId, left: bool,
                    x: PageId, f: PageId, l: PageId, r: PageId)
    requires BorrowReady(c, s, root, g, pp, i, a, b, left) && g[a].level == 1
    requires BoundaryLeaves(s, a, b, left, x, f, l, r)
    ensures var k := s[f].items[0].key;
      && x in g && f in g
      && Inv(c, s[pp := SetKeyAt(s[pp], i, k)], root, RaiseRanges(g, k, a, b, x, f), if left then a else b)
  {
    var ex := if left then a else b;
    NeighbourFacts(c, s, root, g, ex, pp, i, a, b);
    assert PageOk(c, s, root, g, ex, f);
    assert ChildOk(s, g, b, 0);
    RaiseKeepsInv(c, s, root, g, ex, pp, i, s[f].items[0].key, a, b, x, f);
  }

  /** Second step: the separator of the leaves `l` and `r`, in their own page, rises likewise. */
  lemma BorrowShift(c: Config, s: Pages, root: PageId, g: Ranges, ex: PageId, a: PageId, b: PageId, left: bool,
                    x: PageId, f: PageId, l: PageId, r: PageId)
    requires Inv(c, s, root, g, ex) && a in s && b in s && s[a].Inner? && s[b].Inner? && ex == (if left then a else b)
    requires |s[a].keys| == |s[a].kids| && |s[b].keys| == |s[b].kids|
    requires BoundaryLeaves(s, a, b, left, x, f, l, r)
    ensures var y := if left then b else a; var j := if left then 1 else |s[a].kids| - 1; var k := s[r].items[0].key;
      && l in g && r in g
      && Inv(c, s[y := SetKeyAt(s[y], j, k)], root, ShiftRanges(g, k, l, r), ex)
  {
    var y := if left then b else a;
    var j := if left then 1 else |s[a].kids| - 1;
    var k := s[r].items[0].key;
    assert Neighbours(s, y, j, l, r);
    NeighbourFacts(c, s, root, g, ex, y, j, l, r);
    assert s[l].items == SetItems(s[l], s[l].items).items;
    ShiftKeepsInv(c, s, root, g, ex, ex, y, j, k, l, s[l].items, r, s[r].items);
    assert ShiftPages(s, y, j, k, l, s[l].items, r, s[r].items) == s[y := SetKeyAt(s[y], j, k)];
  }

  function BorrowRanges(s: Pages, g: Ranges, a: PageId, b: PageId, x: PageId, f: PageId, l: PageId, r: PageId): Ranges
    requires a in g && b in g && x in g && f in g && l in g && r in g && f in s && r in s && s[f].Leaf? && s[r].Leaf?
    requires |s[f].items| >= 1 && |s[r].items| >= 1
  {
    RotateRanges(ShiftRanges(RaiseRanges(g, s[f].items[0].key, a, b, x, f), s[r].items[0].key, l, r), a, b,
                 s[r].items[0].key)
  }

  /** The store after both separators have risen. */
  function RaisedPages(s: Pages, pp: PageId, i: nat, a: PageId, b: PageId, left: bool, mk: int, ns: int): Pages
    requires Neighbours(s, pp, i, a, b) && s[a].Inner? && s[b].Inner? && a != pp && b != pp
    requires |s[a].keys| == |s[a].kids| && |s[b].keys| == |s[b].kids| && |s[if left then b else a].kids| >= 2
  {
    var y := if left then b else a;
    s[pp := SetKeyAt(s[pp], i, mk)][y := SetKeyAt(s[y], if left then 1 else |s[a].kids| - 1, ns)]
  }

  lemma BorrowBothRaises(c: Config, s: Pages, root: PageId, g: Ranges, pp: PageId, i: nat, a: PageId, b: PageId,
                         left: bool, x: PageId, f: PageId, l: PageId, r: PageId)
    requires BorrowReady(c, s, root, g, pp, i, a, b, left) && g[a].level == 1
    requires BoundaryLeaves(s, a, b, left, x, f, l, r)
    requires a != pp && b != pp && x in g && f in g && l in g && r in g
    ensures var mk, ns := s[f].items[0].key, s[r].items[0].key;
      Inv(c, RaisedPages(s, pp, i, a, b, left, mk, ns), root,
          ShiftRanges(RaiseRanges(g, mk, a, b, x, f), ns, l, r), if left then a else b)
  {
    var ex := if left then a else b;
    var mk := s[f].items[0].key;
    BorrowRaise(c, s, root, g, pp, i, a, b, left, x, f, l, r);
    var s1, g1 := s[pp := SetKeyAt(s[pp], i, mk)], RaiseRanges(g, mk, a, b, x, f);
    assert BoundaryLeaves(s1, a, b, left, x, f, l, r);
    BorrowShift(c, s1, root, g1, ex, a, b, left, x, f, l, r);
  }

  /** Between pages whose children are leaves the source's borrow is sound: it amounts to raising two
      separators to the first keys right of them and then rotating a child across. */
  lemma LeafParentBorrowOk(c: Config, s: Pages, root: PageId, g: Ranges, pp: PageId, i: nat, a: PageId, b: PageId,
                           left: bool, x: PageId, f: PageId, l: PageId, r: PageId)
    requires BorrowReady(c, s, root, g, pp, i, a, b, left) && g[a].level == 1
    requires BoundaryLeaves(s, a, b, left, x, f, l, r)
    ensures Inv(c, BorrowPages(s, pp, i, a, b, left, s[f].items[0].key, s[r].items[0].key), root,
                BorrowRanges(s, g, a, b, x, f, l, r), INVALID_PAGE_ID)
  {
    var mk, ns := s[f].items[0].key, s[r].items[0].key;
    assert a != pp && b != pp && a != b && s[a].parent == pp && s[b].parent == pp by {
      NeighbourFacts(c, s, root, g, if left then a else b, pp, i, a, b);
    }
    BorrowSizes(c, s, root, g, pp, i, a, b, left);
    var s2, g2 := RaisedPages(s, pp, i, a, b, left, mk, ns), ShiftRanges(RaiseRanges(g, mk, a, b, x, f), ns, l, r);
    assert BorrowReady(c, s2, root, g2, pp, i, a, b, left) by {
      BorrowBothRaises(c, s, root, g, pp, i, a, b, left, x, f, l, r);
    }
    var s3 := BorrowPages(s, pp, i, a, b, left, mk, ns);
    BorrowIsRotation(c, s, root, g, pp, i, a, b, left, mk, ns, s2, s3);
    LeafParentRotation(c, s2, root, g2, pp, i, a, b, left, if left then s[b].keys[1] else s[a].keys[|s[a].keys| - 1],
                       Moved(s, a, b, left), ns, s3);
  }

  lemma BorrowKeepsEntries(s: Pages, pp: PageId, i: nat, a: PageId, b: PageId, left: bool, mk: int, ns: int)
    requires Neighbours(s, pp, i, a, b) && s[a].Inner? && s[b].Inner?
    requires |s[a].keys| == |s[a].kids| >= 1 && |s[b].keys| == |s[b].kids| >= 1
    requires Moved(s, a, b, left) in s
    ensures Entries(BorrowPages(s, pp, i, a, b, left, mk, ns)) == Entries(s)
  {
    SameLeavesSameEntries(s, BorrowPages(s, pp, i, a, b, left, mk, ns));
  }

  lemma LeafParentRotation(c: Config, s: Pages, root: PageId, g: Ranges, pp: PageId, i: nat, a: PageId, b: PageId,
                           left: bool, k0: int, m: PageId, ns: int, s3: Pages)
    requires BorrowReady(c, s, root, g, pp, i, a, b, left) && Rotated(s, pp, i, a, b, left, k0, m, s3)
    requires RotateKey(s, a, b, left) == ns
    ensures Inv(c, s3, root, RotateRanges(g, a, b, ns), INVALID_PAGE_ID)
  {
    var ex := if left then a else b;
    NeighbourFacts(c, s, root, g, ex, pp, i, a, b);
    BorrowSizes(c, s, root, g, pp, i, a, b, left);
    RotateKeepsInv(c, s, root, g, ex, pp, i, a, b, left, k0, m, s3, RotateRanges(g, a, b, ns));
  }

  lemma BorrowIsRotation(c: Config, s: Pages, root: PageId, g: Ranges, pp: PageId, i: nat, a: PageId, b: PageId,
                         left: bool, mk: int, ns: int, s2: Pages, s3: Pages)
    requires BorrowReady(c, s, root, g, pp, i, a, b, left)
    requires a != pp && b != pp && |s[if left then b else a].kids| >= 3
    requires s2 == RaisedPages(s, pp, i, a, b, left, mk, ns)
    requires s3 == BorrowPages(s, pp, i, a, b, left, mk, ns)
    ensures var k0 := if left then s[b].keys[1] else s[a].keys[|s[a].keys| - 1];
      Rotated(s2, pp, i, a, b, left, k0, Moved(s, a, b, left), s3)
    ensures RotateKey(s2, a, b, left) == ns
  {
    var m := Moved(s, a, b, left);
    assert a != b && s[a].parent == pp && s[b].parent == pp && m != a && m != b && m != pp by {
      NeighbourFacts(c, s, root, g, if left then a else b, pp, i, a, b);
      KidFacts(c, s, root, g, if left then a else b, if left then b else a, m);
    }
    if left {
      assert s[b].keys[1..] == [s[b].keys[1]] + s2[b].keys[2..];
    } else {
      assert s[a].keys[..|s[a].keys| - 1] == s2[a].keys[..|s2[a].keys| - 1];
    }
  }
}
