/** Runs from an empty index, step by step, with four entries to a leaf and three children to an internal page.
    Keys k(1) < k(2) < ... are inserted in order. Removing k(5) twice from nine of them loses k(6); removing k(2)
    from eleven goes well, loses an entry or reads page 0, depending on where 0 lies among the keys. */
module BTreeRunExample {
  import opened BTreePages
  import opened BTreeShape
  import opened BTreeInsert
  import opened BTreeRemove
  import opened BTreeAstray
  import opened BTreeFate

  const SMALL := Config(4, 3)
  const ROW := RowId(7, 0)

  type Keys = int -> int

  ghost predicate Increasing(k: Keys) {
    forall i, j :: i < j ==> k(i) < k(j)
  }

  /** The entries under k(lo) to k(hi). */
  function Items(k: Keys, lo: int, hi: int): (r: seq<Entry>)
    requires lo <= hi + 1
    ensures |r| == hi + 1 - lo && forall i :: 0 <= i < |r| ==> r[i] == Entry(k(lo + i), ROW)
  {
    seq(hi + 1 - lo, i => Entry(k(lo + i), ROW))
  }

  /** A key larger than all others goes behind the last entry of the last leaf. */
  function Appended(s: Pages, p: PageId, key: int): Pages
    requires p in s && s[p].Leaf?
  {
    s[p := SetItems(s[p], InsertAt(s[p].items, |s[p].items|, Entry(key, ROW)))]
  }

  function One(k: Keys): Pages {
    map[2 := Leaf(INVALID_PAGE_ID, 0, Items(k, 1, 4))]
  }

  function Two(k: Keys): Pages {
    map[2 := Leaf(4, 3, Items(k, 1, 2)), 3 := Leaf(4, 0, Items(k, 3, 5)),
        4 := Inner(INVALID_PAGE_ID, [0, k(3)], [2, 3])]
  }

  function Three(k: Keys): Pages {
    map[2 := Leaf(4, 3, Items(k, 1, 2)), 3 := Leaf(4, 5, Items(k, 3, 4)), 5 := Leaf(4, 0, Items(k, 5, 7)),
        4 := Inner(INVALID_PAGE_ID, [0, k(3), k(5)], [2, 3, 5])]
  }

  function Four(k: Keys): Pages {
    map[2 := Leaf(4, 3, Items(k, 1, 2)), 3 := Leaf(4, 5, Items(k, 3, 4)), 5 := Leaf(4, 6, Items(k, 5, 6)),
        6 := Leaf(4, 0, Items(k, 7, 9)), 4 := Inner(INVALID_PAGE_ID, [0, k(3), k(5), k(7)], [2, 3, 5, 6])]
  }

  /** The tree over k(1) to k(9). */
  function Nine(k: Keys): Pages {
    map[2 := Leaf(4, 3, Items(k, 1, 2)), 3 := Leaf(4, 5, Items(k, 3, 4)), 5 := Leaf(7, 6, Items(k, 5, 6)),
        6 := Leaf(7, 0, Items(k, 7, 9)), 4 := Inner(8, [0, k(3)], [2, 3]), 7 := Inner(8, [k(5), k(7)], [5, 6]),
        8 := Inner(INVALID_PAGE_ID, [0, k(5)], [4, 7])]
  }

  lemma FirstSplit(k: Keys)
    ensures var u := Appended(One(k), 2, k(5));
      GrowPages(SplitPages(u, 2, 3), 2, SplitKey(u[2]), 3, 4) == Two(k)
  {
    var u := Appended(One(k), 2, k(5));
    assert u[2].items == Items(k, 1, 5);
    assert Items(k, 1, 5)[..2] == Items(k, 1, 2) && Items(k, 1, 5)[2..] == Items(k, 3, 5);
  }

  lemma SecondSplit(k: Keys)
    ensures var u := Appended(Appended(Two(k), 3, k(6)), 3, k(7));
      LinkPages(SplitPages(u, 3, 5), 3, SplitKey(u[3]), 5) == Three(k)
  {
    var u := Appended(Appended(Two(k), 3, k(6)), 3, k(7));
    assert u[3].items == Items(k, 3, 7);
    assert Items(k, 3, 7)[..2] == Items(k, 3, 4) && Items(k, 3, 7)[2..] == Items(k, 5, 7);
    assert IndexOf([2, 3], 3) == 1;
    assert InsertAt([0, k(3)], 2, k(5)) == [0, k(3), k(5)] && InsertAt([2, 3], 2, 5) == [2, 3, 5];
  }

  lemma ThirdSplit(k: Keys)
    ensures var u := Appended(Appended(Three(k), 5, k(8)), 5, k(9));
      LinkPages(SplitPages(u, 5, 6), 5, SplitKey(u[5]), 6) == Four(k)
  {
    var u := Appended(Appended(Three(k), 5, k(8)), 5, k(9));
    assert u[5].items == Items(k, 5, 9);
    assert Items(k, 5, 9)[..2] == Items(k, 5, 6) && Items(k, 5, 9)[2..] == Items(k, 7, 9);
    assert IndexOf([2, 3, 5], 5) == 2;
    assert InsertAt([0, k(3), k(5)], 3, k(7)) == [0, k(3), k(5), k(7)] && InsertAt([2, 3, 5], 3, 6) == [2, 3, 5, 6];
  }

  lemma RootSplit(k: Keys)
    ensures var s := Four(k); GrowPages(SplitPages(s, 4, 7), 4, SplitKey(s[4]), 7, 8) == Nine(k)
  {
    var s := Four(k);
    assert Half(s[4]) == 2;
    assert [0, k(3), k(5), k(7)][..2] == [0, k(3)] && [0, k(3), k(5), k(7)][2..] == [k(5), k(7)];
    assert [2, 3, 5, 6][..2] == [2, 3] && [2, 3, 5, 6][2..] == [5, 6];
  }

  // ---------- The first removal of k(5) ----------

  function Short(k: Keys): Pages {
    map[2 := Leaf(4, 3, Items(k, 1, 2)), 3 := Leaf(4, 5, Items(k, 3, 4)), 5 := Leaf(7, 6, Items(k, 6, 6)),
        6 := Leaf(7, 0, Items(k, 7, 9)), 4 := Inner(8, [0, k(3)], [2, 3]), 7 := Inner(8, [k(6), k(7)], [5, 6]),
        8 := Inner(INVALID_PAGE_ID, [0, k(5)], [4, 7])]
  }

  function LeavesMerged(k: Keys): Pages {
    map[2 := Leaf(4, 3, Items(k, 1, 2)), 3 := Leaf(4, 5, Items(k, 3, 4)), 5 := Leaf(7, 0, Items(k, 6, 9)),
        4 := Inner(8, [0, k(3)], [2, 3]), 7 := Inner(8, [k(6)], [5]), 8 := Inner(INVALID_PAGE_ID, [0, k(5)], [4, 7])]
  }

  function PagesMerged(k: Keys): Pages {
    map[2 := Leaf(4, 3, Items(k, 1, 2)), 3 := Leaf(4, 5, Items(k, 3, 4)), 5 := Leaf(4, 0, Items(k, 6, 9)),
        4 := Inner(8, [0, k(3), k(5)], [2, 3, 5]), 8 := Inner(INVALID_PAGE_ID, [0], [4])]
  }

  /** The tree without k(5): separator k(5) is above a leaf that starts with k(6). */
  function Eight(k: Keys): Pages {
    map[2 := Leaf(4, 3, Items(k, 1, 2)), 3 := Leaf(4, 5, Items(k, 3, 4)), 5 := Leaf(4, 0, Items(k, 6, 9)),
        4 := Inner(INVALID_PAGE_ID, [0, k(3), k(5)], [2, 3, 5])]
  }

  function EightRanges(k: Keys): Ranges {
    map[4 := Range(1, NegInf, PosInf), 2 := Range(0, NegInf, At(k(3))), 3 := Range(0, At(k(3)), At(k(5))),
        5 := Range(0, At(k(5)), PosInf)]
  }

  lemma Deletion(k: Keys)
    ensures DeletedPages(Nine(k), 5, 0) == Short(k)
  {
    assert IndexOf([5, 6], 5) == 0;
    assert RemoveAt(Items(k, 5, 6), 0) == Items(k, 6, 6);
    assert [k(5), k(7)][0 := k(6)] == [k(6), k(7)];
  }

  lemma LeafMerge(k: Keys)
    ensures MergePages(Short(k), 7, 1, 5, 6) == LeavesMerged(k)
  {
    assert Items(k, 6, 6) + Items(k, 7, 9) == Items(k, 6, 9);
    assert RemoveAt([k(6), k(7)], 1) == [k(6)] && RemoveAt([5, 6], 1) == [5];
  }

  lemma PageMerge(k: Keys)
    ensures MergePages(LeavesMerged(k), 8, 1, 4, 7) == PagesMerged(k)
  {
    assert [0, k(3)] + [k(5)] + [k(6)][1..] == [0, k(3), k(5)] && [2, 3] + [5] == [2, 3, 5];
    assert RemoveAt([0, k(5)], 1) == [0] && RemoveAt([4, 7], 1) == [4];
  }

  lemma Collapse(k: Keys)
    ensures CollapsePages(PagesMerged(k), 8) == Eight(k)
  {
  }

  // ---------- The second removal of k(5) ----------

  lemma EightOk(k: Keys, s: Pages, g: Ranges)
    requires Increasing(k) && s == Eight(k) && g == EightRanges(k)
    ensures Inv(SMALL, s, 4, g, INVALID_PAGE_ID)
  {
    forall p | p in s ensures PageOk(SMALL, s, 4, g, INVALID_PAGE_ID, p) {
      if p == 4 {
        EightRootOk(k, s, g);
      } else {
        EightLeafOk(k, s, g, p);
      }
    }
  }

  lemma EightRootOk(k: Keys, s: Pages, g: Ranges)
    requires Increasing(k) && s == Eight(k) && g == EightRanges(k)
    ensures PageOk(SMALL, s, 4, g, INVALID_PAGE_ID, 4)
  {
    assert ChildOk(s, g, 4, 0) && ChildOk(s, g, 4, 1) && ChildOk(s, g, 4, 2);
  }

  lemma EightLeafOk(k: Keys, s: Pages, g: Ranges, p: PageId)
    requires Increasing(k) && s == Eight(k) && g == EightRanges(k) && (p == 2 || p == 3 || p == 5)
    ensures PageOk(SMALL, s, 4, g, INVALID_PAGE_ID, p)
  {
    assert s[4].kids[0] == 2 && s[4].kids[1] == 3 && s[4].kids[2] == 5;
  }

  /** The run ends in a tree on which removing k(5), which is absent now, lifts the separator over the entry
      under k(6). */
  lemma AbsentKeyRuins(k: Keys)
    requires Increasing(k)
    ensures CollapsePages(MergePages(MergePages(DeletedPages(Nine(k), 5, 0), 7, 1, 5, 6), 8, 1, 4, 7), 8) == Eight(k)
    ensures Inv(SMALL, Eight(k), 4, EightRanges(k), INVALID_PAGE_ID)
    ensures RemoveOutcome(SMALL, Eight(k), 4, EightRanges(k), k(5)) == Broken
  {
    Deletion(k);
    LeafMerge(k);
    PageMerge(k);
    Collapse(k);
    var s, g := Eight(k), EightRanges(k);
    EightOk(k, s, g);
    assert HomeLeaf(SMALL, s, 4, g, k(5)) == 5 by {
      assert Within(k(5), g[5]) && s[5].Leaf?;
    }
    assert IndexOf([2, 3, 5], 5) == 2;
    assert !HoldsKey(s[5].items, k(5));
  }

  // ---------- Eleven keys, and the removal of k(2) ----------

  /** The tree over k(1) to k(11): k(10) and k(11) split the last leaf once more. */
  function Eleven(k: Keys): Pages {
    map[2 := Leaf(4, 3, Items(k, 1, 2)), 3 := Leaf(4, 5, Items(k, 3, 4)), 5 := Leaf(7, 6, Items(k, 5, 6)),
        6 := Leaf(7, 9, Items(k, 7, 8)), 9 := Leaf(7, 0, Items(k, 9, 11)), 4 := Inner(8, [0, k(3)], [2, 3]),
        7 := Inner(8, [k(5), k(7), k(9)], [5, 6, 9]), 8 := Inner(INVALID_PAGE_ID, [0, k(5)], [4, 7])]
  }

  function ElevenRanges(k: Keys): Ranges {
    map[8 := Range(2, NegInf, PosInf), 4 := Range(1, NegInf, At(k(5))), 7 := Range(1, At(k(5)), PosInf),
        2 := Range(0, NegInf, At(k(3))), 3 := Range(0, At(k(3)), At(k(5))), 5 := Range(0, At(k(5)), At(k(7))),
        6 := Range(0, At(k(7)), At(k(9))), 9 := Range(0, At(k(9)), PosInf)]
  }

  lemma FourthSplit(k: Keys)
    ensures var u := Appended(Appended(Nine(k), 6, k(10)), 6, k(11));
      LinkPages(SplitPages(u, 6, 9), 6, SplitKey(u[6]), 9) == Eleven(k)
  {
    var u := Appended(Appended(Nine(k), 6, k(10)), 6, k(11));
    assert u[6].items == Items(k, 7, 11);
    assert Items(k, 7, 11)[..2] == Items(k, 7, 8) && Items(k, 7, 11)[2..] == Items(k, 9, 11);
    assert IndexOf([5, 6], 6) == 1;
    assert InsertAt([k(5), k(7)], 2, k(9)) == [k(5), k(7), k(9)] && InsertAt([5, 6], 2, 9) == [5, 6, 9];
  }

  predicate IsLeafId(p: PageId) {
    p == 2 || p == 3 || p == 5 || p == 6 || p == 9
  }

  /** A leaf of consecutive keys in the range that starts with the first of them and ends before the next. */
  lemma ItemsFit(k: Keys, lo: int, hi: int, r: Range)
    requires Increasing(k) && lo <= hi && (r.lo.NegInf? || r.lo == At(k(lo))) && (r.hi.PosInf? || r.hi == At(k(hi + 1)))
    ensures Sorted(Items(k, lo, hi))
    ensures forall i :: 0 <= i <= hi - lo ==> Within(Items(k, lo, hi)[i].key, r)
  {
  }

  lemma ElevenLeafOk(k: Keys, s: Pages, g: Ranges, p: PageId)
    requires Increasing(k) && s == Eleven(k) && g == ElevenRanges(k) && IsLeafId(p)
    ensures PageOk(SMALL, s, 8, g, INVALID_PAGE_ID, p)
  {
    var lo := if p == 2 then 1 else if p == 3 then 3 else if p == 5 then 5 else if p == 6 then 7 else 9;
    var hi := if p == 9 then 11 else lo + 1;
    ItemsFit(k, lo, hi, g[p]);
    assert s[p].items == Items(k, lo, hi) && LeafOk(s, g, p);
    assert s[4].kids[0] == 2 && s[4].kids[1] == 3 && s[7].kids[0] == 5 && s[7].kids[1] == 6 && s[7].kids[2] == 9;
  }

  lemma ElevenRootOk(k: Keys, s: Pages, g: Ranges)
    requires Increasing(k) && s == Eleven(k) && g == ElevenRanges(k)
    ensures PageOk(SMALL, s, 8, g, INVALID_PAGE_ID, 8)
  {
    assert ChildOk(s, g, 8, 0) && ChildOk(s, g, 8, 1);
    assert InnerOk(s, g, 8);
  }

  lemma ElevenLeftOk(k: Keys, s: Pages, g: Ranges)
    requires Increasing(k) && s == Eleven(k) && g == ElevenRanges(k)
    ensures PageOk(SMALL, s, 8, g, INVALID_PAGE_ID, 4)
  {
    assert s[8].kids[0] == 4;
    assert ChildOk(s, g, 4, 0) && ChildOk(s, g, 4, 1);
    assert InnerOk(s, g, 4);
  }

  lemma ElevenRightOk(k: Keys, s: Pages, g: Ranges)
    requires Increasing(k) && s == Eleven(k) && g == ElevenRanges(k)
    ensures PageOk(SMALL, s, 8, g, INVALID_PAGE_ID, 7)
  {
    assert s[8].kids[1] == 7;
    assert ChildOk(s, g, 7, 0) && ChildOk(s, g, 7, 1) && ChildOk(s, g, 7, 2);
    assert InnerOk(s, g, 7);
  }

  lemma ElevenOk(k: Keys, s: Pages, g: Ranges)
    requires Increasing(k) && s == Eleven(k) && g == ElevenRanges(k)
    ensures Inv(SMALL, s, 8, g, INVALID_PAGE_ID)
  {
    forall p | p in s ensures PageOk(SMALL, s, 8, g, INVALID_PAGE_ID, p) {
      if IsLeafId(p) {
        ElevenLeafOk(k, s, g, p);
      } else if p == 8 {
        ElevenRootOk(k, s, g);
      } else if p == 4 {
        ElevenLeftOk(k, s, g);
      } else {
        ElevenRightOk(k, s, g);
      }
    }
  }

  /** What becomes of page 4, with one child left and the zero of a fresh page in slot 0. */
  function ExpectedOutcome(k: Keys): Outcome {
    if 0 < k(5) then Sound else if k(9) <= 0 then Undefined else Broken
  }

  lemma SlotZeroOf4(k: Keys, s: Pages, g: Ranges)
    requires Increasing(k) && s == Eleven(k)[2 := Leaf(4, 3, Items(k, 1, 1))] && g == ElevenRanges(k)
    ensures SlotZeroFate(s, g, 4) == ExpectedOutcome(k)
  {
    if k(9) <= 0 {
      assert s[9].Leaf? && g[9].hi.PosInf? && Within(0, g[9]);
    }
    forall q | q in s && q in g && s[q].Leaf? && g[q].hi.PosInf? ensures q == 9 {
    }
  }

  lemma ShortageIn2(k: Keys, s: Pages, g: Ranges)
    requires Increasing(k) && s == Eleven(k)[2 := Leaf(4, 3, Items(k, 1, 1))] && g == ElevenRanges(k)
    requires Inv(SMALL, s, 8, g, 2)
    ensures Fate(SMALL, s, 8, g, 2, 2, 1) == ExpectedOutcome(k)
  {
    assert IndexOf([4, 7], 4) == 0 && IndexOf([2, 3], 2) == 0;
    assert s[8].kids == [4, 7] && s[4].kids == [2, 3] && |s[7].kids| == 3 && |s[3].items| == 2;
    SlotZeroOf4(k, s, g);
    assert Fate(SMALL, s, 8, g, 2, 4, 1) == ExpectedOutcome(k);
  }

  /** Removing k(2) merges two leaves and leaves page 4 with one child. The borrow that follows goes well if 0 lies
      below k(5), reads page 0 if it does not lie below k(9), and loses an entry in between. */
  lemma SlotZeroRun(k: Keys)
    requires Increasing(k)
    ensures Inv(SMALL, Eleven(k), 8, ElevenRanges(k), INVALID_PAGE_ID)
    ensures RemoveOutcome(SMALL, Eleven(k), 8, ElevenRanges(k), k(2)) == ExpectedOutcome(k)
  {
    var s, g := Eleven(k), ElevenRanges(k);
    ElevenOk(k, s, g);
    var items := s[2].items;
    assert RemoveAt(items, 1) == Items(k, 1, 1);
    DeleteOk(SMALL, s, 8, g, 2, 1);
    assert DeletedPages(s, 2, 1) == s[2 := Leaf(4, 3, Items(k, 1, 1))] && DeletedRanges(s, g, 2, 1) == g;
    ShortageIn2(k, DeletedPages(s, 2, 1), g);
    assert items[1] == Entry(k(2), ROW);
    assert HoldsKey(items, k(2)) && SlotOfKey(items, k(2)) == 1;
    assert HomeLeaf(SMALL, s, 8, g, k(2)) == 2 by {
      assert Within(k(2), g[2]) && s[2].Leaf?;
    }
    assert DeleteOutcome(SMALL, s, 8, g, 2, 1) == ExpectedOutcome(k);
  }

  /** With the keys -10 to -3 and 18 to 20 the removal ruins the tree. */
  lemma SlotZeroRuins(k: Keys)
    requires forall i :: k(i) == if i < 9 then i - 11 else i + 9
    ensures Inv(SMALL, Eleven(k), 8, ElevenRanges(k), INVALID_PAGE_ID)
    ensures RemoveOutcome(SMALL, Eleven(k), 8, ElevenRanges(k), k(2)) == Broken
  {
    assert Increasing(k);
    SlotZeroRun(k);
  }

  /** With the keys -10 to 0 it reads page 0. */
  lemma SlotZeroReadsPageZero(k: Keys)
    requires forall i :: k(i) == i - 11
    ensures Inv(SMALL, Eleven(k), 8, ElevenRanges(k), INVALID_PAGE_ID)
    ensures RemoveOutcome(SMALL, Eleven(k), 8, ElevenRanges(k), k(2)) == Undefined
  {
    assert Increasing(k);
    SlotZeroRun(k);
  }
}
