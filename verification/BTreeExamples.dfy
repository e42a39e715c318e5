/** A well-formed tree of four levels that a removal ruins. */
module BTreeExamples {
  import opened BTreePages
  import opened BTreeShape
  import opened BTreeFate
  import opened BTreeRunExample

  // ---------- A borrow between pages whose children are internal ----------

  predicate IsId(p: PageId) {
    p == 2 || p == 10 || p == 11 || 50 <= p < 55 || 100 <= p < 110
  }

  /** Root 2 over pages 10 and 11, five pages 50 to 54 below them, ten leaves 100 to 109 below those. */
  function PageFor(p: PageId): Page {
    if p == 2 then Inner(INVALID_PAGE_ID, [0, 60], [10, 11])
    else if p == 10 then Inner(2, [0, 20, 40], [50, 51, 52])
    else if p == 11 then Inner(2, [60, 80], [53, 54])
    else if p < 100 then Inner(if p < 53 then 10 else 11, [20 * (p - 50), 20 * (p - 50) + 10], [2 * p, 2 * p + 1])
    else Leaf(p / 2, if p == 109 then 0 else p + 1, [Entry(10 * (p - 100), ROW), Entry(10 * (p - 100) + 5, ROW)])
  }

  function RangeFor(p: PageId): Range {
    if p == 2 then Range(3, NegInf, PosInf)
    else if p == 10 then Range(2, NegInf, At(60))
    else if p == 11 then Range(2, At(60), PosInf)
    else if p < 100 then
      Range(1, if p == 50 then NegInf else At(20 * (p - 50)), if p == 54 then PosInf else At(20 * (p - 49)))
    else
      Range(0, if p == 100 then NegInf else At(10 * (p - 100)), if p == 109 then PosInf else At(10 * (p - 99)))
  }

  function FourLevels(): Pages {
    map p | 2 <= p < 110 && IsId(p) :: PageFor(p)
  }

  function FourLevelRanges(): Ranges {
    map p | 2 <= p < 110 && IsId(p) :: RangeFor(p)
  }

  lemma Stored(p: PageId)
    requires IsId(p)
    ensures p in FourLevels() && p in FourLevelRanges() && FourLevels()[p] == PageFor(p)
    ensures FourLevelRanges()[p] == RangeFor(p)
  {
  }

  lemma LeafPageOk(p: PageId, s: Pages, g: Ranges)
    requires 100 <= p < 110 && s == FourLevels() && g == FourLevelRanges()
    ensures PageOk(SMALL, s, 2, g, INVALID_PAGE_ID, p)
  {
    Stored(2);
    Stored(p);
    Stored(p / 2);
    assert p == s[p / 2].kids[0] || p == s[p / 2].kids[1];
    if p != 109 {
      Stored(p + 1);
    }
    assert LeafOk(s, g, p);
  }

  lemma LowPageOk(p: PageId, s: Pages, g: Ranges)
    requires 50 <= p < 55 && s == FourLevels() && g == FourLevelRanges()
    ensures PageOk(SMALL, s, 2, g, INVALID_PAGE_ID, p)
  {
    Stored(2);
    Stored(p);
    var q := if p < 53 then 10 else 11;
    Stored(q);
    assert p in s[q].kids by {
      assert p == s[q].kids[if p < 53 then p - 50 else p - 53];
    }
    LowChildrenOk(p, s, g);
  }

  lemma LowChildrenOk(p: PageId, s: Pages, g: Ranges)
    requires 50 <= p < 55 && s == FourLevels() && g == FourLevelRanges()
    ensures p in s && p in g && s[p].Inner? && InnerOk(s, g, p)
  {
  }

  lemma HighLeftOk(s: Pages, g: Ranges)
    requires s == FourLevels() && g == FourLevelRanges()
    ensures PageOk(SMALL, s, 2, g, INVALID_PAGE_ID, 10)
  {
    Stored(2);
    Stored(10);
    assert s[2].kids[0] == 10;
    Stored(50);
    Stored(51);
    Stored(52);
    assert ChildOk(s, g, 10, 0) && ChildOk(s, g, 10, 1) && ChildOk(s, g, 10, 2);
    assert InnerOk(s, g, 10);
  }

  lemma HighRightOk(s: Pages, g: Ranges)
    requires s == FourLevels() && g == FourLevelRanges()
    ensures PageOk(SMALL, s, 2, g, INVALID_PAGE_ID, 11)
  {
    Stored(2);
    Stored(11);
    assert s[2].kids[1] == 11;
    Stored(53);
    Stored(54);
    assert ChildOk(s, g, 11, 0) && ChildOk(s, g, 11, 1);
    assert InnerOk(s, g, 11);
  }

  lemma TopPageOk(s: Pages, g: Ranges)
    requires s == FourLevels() && g == FourLevelRanges()
    ensures PageOk(SMALL, s, 2, g, INVALID_PAGE_ID, 2)
  {
    Stored(2);
    Stored(10);
    Stored(11);
    assert ChildOk(s, g, 2, 0) && ChildOk(s, g, 2, 1);
    assert InnerOk(s, g, 2);
  }

  lemma FourLevelsOk(s: Pages, g: Ranges)
    requires s == FourLevels() && g == FourLevelRanges()
    ensures Inv(SMALL, s, 2, g, INVALID_PAGE_ID)
  {
    Stored(2);
    forall p | p in s ensures PageOk(SMALL, s, 2, g, INVALID_PAGE_ID, p) {
      if p >= 100 {
        LeafPageOk(p, s, g);
      } else if p >= 50 {
        LowPageOk(p, s, g);
      } else if p == 10 {
        HighLeftOk(s, g);
      } else if p == 11 {
        HighRightOk(s, g);
      } else {
        TopPageOk(s, g);
      }
    }
  }

  /** How a shortage climbs from leaf 106 over page 53 to page 11, which must borrow from page 10. */
  lemma ShortageClimbs(s: Pages, g: Ranges)
    requires s == FourLevels()[106 := Leaf(53, 107, [Entry(60, ROW)])] && g == FourLevelRanges()
    requires Inv(SMALL, s, 2, g, 106)
    ensures Fate(SMALL, s, 2, g, 106, 106, 1) == Broken
  {
    Stored(2);
    Stored(10);
    Stored(11);
    Stored(53);
    Stored(54);
    Stored(106);
    Stored(107);
    assert IndexOf([10, 11], 11) == 1;
    assert IndexOf([53, 54], 53) == 0 && IndexOf([106, 107], 106) == 0;
    assert s[2].kids == [10, 11] && s[11].kids == [53, 54] && s[53].kids == [106, 107];
    assert Fate(SMALL, s, 2, g, 106, 11, 1) == Broken;
    assert Fate(SMALL, s, 2, g, 106, 53, 1) == Broken;
  }

  lemma Deleted106(s: Pages, g: Ranges)
    requires s == FourLevels() && g == FourLevelRanges()
    ensures Inv(SMALL, s, 2, g, INVALID_PAGE_ID) && 106 in s
    ensures s[106] == Leaf(53, 107, [Entry(60, ROW), Entry(65, ROW)])
    ensures DeletedPages(s, 106, 1) == s[106 := Leaf(53, 107, [Entry(60, ROW)])] && DeletedRanges(s, g, 106, 1) == g
  {
    FourLevelsOk(s, g);
    Stored(106);
    assert RemoveAt(s[106].items, 1) == [Entry(60, ROW)];
  }

  /** Removing the present key 65 merges two leaves, then two pages of leaves, and then borrows between
      pages 10 and 11, whose children are internal. */
  lemma HighBorrowExample()
    ensures Inv(SMALL, FourLevels(), 2, FourLevelRanges(), INVALID_PAGE_ID)
    ensures Entry(65, ROW) in Entries(FourLevels())
    ensures RemoveOutcome(SMALL, FourLevels(), 2, FourLevelRanges(), 65) == Broken
  {
    var s, g := FourLevels(), FourLevelRanges();
    Deleted106(s, g);
    DeleteOk(SMALL, s, 2, g, 106, 1);
    ShortageClimbs(DeletedPages(s, 106, 1), g);
    Stored(106);
    var items := s[106].items;
    assert items[1] == Entry(65, ROW);
    assert Entry(65, ROW) in s[106].items;
    assert HoldsKey(items, 65) && SlotOfKey(items, 65) == 1;
    assert HomeLeaf(SMALL, s, 2, g, 65) == 106 by {
      assert Within(65, g[106]);
    }
    assert DeleteOutcome(SMALL, s, 2, g, 106, 1) == Broken;
  }
}
