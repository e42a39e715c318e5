/** The slot directory of a table page, as numbers: where each tuple lies and how long it is.
    The high bit of a size word marks a tuple as deleted; a size word of zero is an empty slot. */
module SlottedLayout {

  type byte = x: int | 0 <= x < 256

  const PAGE_SIZE := 4096
  const HEADER := 24
  const SIZE_TUPLE := 8
  const DELETE_MASK := 0x8000_0000
  const WORD_LIMIT := 0x1_0000_0000
  const SIZE_MAX_ROW := PAGE_SIZE - HEADER - SIZE_TUPLE

  datatype Slot = Slot(off: int, w: int)
  {
    predicate Used() { w != 0 }

    /** The tuple's length, the delete flag removed. */
    function Len(): int {
      UnsetDeletedFlag(w)
    }
  }

  predicate IsDeleted(w: int) {
    w >= DELETE_MASK || w == 0
  }

  function SetDeletedFlag(w: int): int {
    if w >= DELETE_MASK then w else w + DELETE_MASK
  }

  function UnsetDeletedFlag(w: int): int {
    if w >= DELETE_MASK then w - DELETE_MASK else w
  }

  datatype Dir = Dir(fsp: int, slots: seq<Slot>)

  function StoredSum(slots: seq<Slot>): int {
    if slots == [] then 0
    else StoredSum(slots[..|slots| - 1]) + (if slots[|slots| - 1].Used() then slots[|slots| - 1].Len() else 0)
  }

  predicate Apart(a: Slot, b: Slot) {
    a.off + a.Len() <= b.off || b.off + b.Len() <= a.off
  }

  /** Every used slot's range lies in the data area. */
  ghost predicate InArea(d: Dir) {
    forall i :: 0 <= i < |d.slots| && d.slots[i].Used() ==>
      0 < d.slots[i].Len() && d.fsp <= d.slots[i].off && d.slots[i].off + d.slots[i].Len() <= PAGE_SIZE
  }

  ghost predicate AllApart(d: Dir) {
    forall i, j :: 0 <= i < j < |d.slots| && d.slots[i].Used() && d.slots[j].Used() ==> Apart(d.slots[i], d.slots[j])
  }

  /** The directory does not meet the data, used ranges are disjoint, and no byte of the data area is lost. */
  ghost predicate DirOk(d: Dir) {
    && HEADER + 8 * |d.slots| <= d.fsp <= PAGE_SIZE
    && InArea(d) && AllApart(d)
    && (forall i :: 0 <= i < |d.slots| ==> 0 <= d.slots[i].off < WORD_LIMIT && 0 <= d.slots[i].w < WORD_LIMIT)
    && d.fsp + StoredSum(d.slots) == PAGE_SIZE
  }

  function FreeSpaceRemaining(d: Dir): int {
    d.fsp - HEADER - 8 * |d.slots|
  }

  /** The directory after the tuple in slot `k` was replaced by one of `len` bytes (none if zero): tuples
      stored below it move by the difference. */
  function Shifted(d: Dir, k: nat, len: int): Dir
    requires k < |d.slots|
  {
    var delta := d.slots[k].Len() - len;
    Dir(d.fsp + delta, seq(|d.slots|, i requires 0 <= i < |d.slots| => ShiftSlot(d, k, len, i)))
  }

  function ShiftSlot(d: Dir, k: nat, len: int, i: nat): Slot
    requires k < |d.slots| && i < |d.slots|
  {
    var delta := d.slots[k].Len() - len;
    if i == k then (if len == 0 then Slot(0, 0) else Slot(d.slots[k].off + delta, len))
    else if d.slots[i].Used() && d.slots[i].off < d.slots[k].off then Slot(d.slots[i].off + delta, d.slots[i].w)
    else d.slots[i]
  }

  lemma {:induction false} SumOfUpdate(a: seq<Slot>, b: seq<Slot>, k: nat)
    requires |a| == |b| && k < |a|
    requires forall i :: 0 <= i < |a| && i != k ==> a[i].w == b[i].w
    ensures StoredSum(b) ==
      StoredSum(a) + (if b[k].Used() then b[k].Len() else 0) - (if a[k].Used() then a[k].Len() else 0)
  {
    var n := |a| - 1;
    if k < n {
      SumOfUpdate(a[..n], b[..n], k);
    } else {
      SameSum(a[..n], b[..n]);
    }
  }

  lemma {:induction false} SameSum(a: seq<Slot>, b: seq<Slot>)
    requires |a| == |b|
    requires forall i :: 0 <= i < |a| ==> a[i].w == b[i].w
    ensures StoredSum(a) == StoredSum(b)
  {
    if a != [] {
      SameSum(a[..|a| - 1], b[..|b| - 1]);
    }
  }

  lemma {:induction false} SumNonNegative(slots: seq<Slot>, k: nat)
    requires forall i :: 0 <= i < |slots| ==> 0 <= slots[i].w
    requires k < |slots| && slots[k].Used()
    ensures slots[k].Len() <= StoredSum(slots)
  {
    var n := |slots| - 1;
    if k < n {
      SumNonNegative(slots[..n], k);
    } else {
      SumAtLeastZero(slots[..n]);
    }
  }

  lemma {:induction false} SumAtLeastZero(slots: seq<Slot>)
    requires forall i :: 0 <= i < |slots| ==> 0 <= slots[i].w
    ensures 0 <= StoredSum(slots)
  {
    if slots != [] {
      SumAtLeastZero(slots[..|slots| - 1]);
    }
  }

  /** Two different used slots are apart, whichever comes first. */
  lemma ApartFrom(d: Dir, i: nat, k: nat)
    requires AllApart(d) && i < |d.slots| && k < |d.slots| && i != k && d.slots[i].Used() && d.slots[k].Used()
    ensures Apart(d.slots[i], d.slots[k])
  {
  }

  /** Room for a replacement of `len` bytes in slot `k`. */
  lemma ReplaceBounds(d: Dir, k: nat, len: int)
    requires DirOk(d) && k < |d.slots| && d.slots[k].Used() && 0 <= len <= FreeSpaceRemaining(d) + d.slots[k].Len()
    ensures var y := d.slots[k];
      && HEADER + 8 * |d.slots| <= d.fsp <= y.off && y.off + y.Len() <= PAGE_SIZE && 0 < y.Len()
      && HEADER + 8 * |d.slots| <= d.fsp + y.Len() - len
  {
  }

  /** Slot i of a replacement in slot k still lies in the data area. */
  lemma ShiftedInArea(d: Dir, k: nat, len: int, i: nat)
    requires DirOk(d) && k < |d.slots| && d.slots[k].Used() && i < |d.slots|
    requires 0 <= len < DELETE_MASK && len <= FreeSpaceRemaining(d) + d.slots[k].Len()
    ensures var x := ShiftSlot(d, k, len, i);
      && 0 <= x.off < WORD_LIMIT && 0 <= x.w < WORD_LIMIT
      && (x.Used() ==> 0 < x.Len() && d.fsp + d.slots[k].Len() - len <= x.off && x.off + x.Len() <= PAGE_SIZE)
  {
  }

  lemma ShiftedApart(d: Dir, k: nat, len: int, i: nat, j: nat)
    requires DirOk(d) && k < |d.slots| && d.slots[k].Used() && i < j < |d.slots|
    requires 0 <= len < DELETE_MASK && len <= FreeSpaceRemaining(d) + d.slots[k].Len()
    requires ShiftSlot(d, k, len, i).Used() && ShiftSlot(d, k, len, j).Used()
    ensures Apart(ShiftSlot(d, k, len, i), ShiftSlot(d, k, len, j))
  {
  }

  /** Replacing or deleting one tuple keeps the layout. */
  lemma ShiftedOk(d: Dir, k: nat, len: int)
    requires DirOk(d) && k < |d.slots| && d.slots[k].Used()
    requires 0 <= len < DELETE_MASK && len <= FreeSpaceRemaining(d) + d.slots[k].Len()
    ensures DirOk(Shifted(d, k, len))
  {
    var e := Shifted(d, k, len);
    SumOfUpdate(d.slots, e.slots, k);
    ReplaceBounds(d, k, len);
    forall i | 0 <= i < |e.slots|
      ensures 0 <= e.slots[i].off < WORD_LIMIT && 0 <= e.slots[i].w < WORD_LIMIT
      ensures e.slots[i].Used() ==>
        0 < e.slots[i].Len() && e.fsp <= e.slots[i].off && e.slots[i].off + e.slots[i].Len() <= PAGE_SIZE
    {
      ShiftedInArea(d, k, len, i);
    }
    forall i, j | 0 <= i < j < |e.slots| && e.slots[i].Used() && e.slots[j].Used()
      ensures Apart(e.slots[i], e.slots[j])
    {
      ShiftedApart(d, k, len, i, j);
    }
  }

  /** The directory after inserting a tuple of `len` bytes into slot `k`, an empty or a new one. */
  function Inserted(d: Dir, k: nat, len: int): Dir
    requires k <= |d.slots|
  {
    Dir(d.fsp - len, PutSlot(d.slots, k, Slot(d.fsp - len, len)))
  }

  function PutSlot(slots: seq<Slot>, k: nat, x: Slot): seq<Slot>
    requires k <= |slots|
  {
    if k < |slots| then slots[k := x] else slots + [x]
  }

  lemma InsertedOk(d: Dir, k: nat, len: int)
    requires DirOk(d) && k <= |d.slots| && (k < |d.slots| ==> !d.slots[k].Used())
    requires 0 < len && len + SIZE_TUPLE <= FreeSpaceRemaining(d)
    ensures DirOk(Inserted(d, k, len))
  {
    var e := Inserted(d, k, len);
    InsertedSum(d, k, len);
    forall i, j | 0 <= i < j < |e.slots| && e.slots[i].Used() && e.slots[j].Used()
      ensures Apart(e.slots[i], e.slots[j])
    {
      if i != k && j != k {
        assert e.slots[i] == d.slots[i] && e.slots[j] == d.slots[j];
        ApartFrom(d, i, j);
      }
    }
  }

  lemma InsertedSum(d: Dir, k: nat, len: int)
    requires k <= |d.slots| && (k < |d.slots| ==> !d.slots[k].Used()) && 0 < len < DELETE_MASK
    ensures StoredSum(Inserted(d, k, len).slots) == StoredSum(d.slots) + len
  {
    var e := Inserted(d, k, len);
    if k < |d.slots| {
      SumOfUpdate(d.slots, e.slots, k);
    } else {
      assert e.slots[..|e.slots| - 1] == d.slots;
    }
  }

  lemma MarkedOk(d: Dir, k: nat, w: int)
    requires DirOk(d) && k < |d.slots| && d.slots[k].Used()
    requires w == SetDeletedFlag(d.slots[k].w) || w == UnsetDeletedFlag(d.slots[k].w)
    ensures DirOk(Dir(d.fsp, d.slots[k := Slot(d.slots[k].off, w)]))
  {
    var e := Dir(d.fsp, d.slots[k := Slot(d.slots[k].off, w)]);
    SumOfUpdate(d.slots, e.slots, k);
    SumNonNegative(d.slots, k);
    assert e.slots[k].Len() == d.slots[k].Len();
    forall i, j | 0 <= i < j < |e.slots| && e.slots[i].Used() && e.slots[j].Used()
      ensures Apart(e.slots[i], e.slots[j])
    {
      assert Apart(d.slots[i], d.slots[j]);
    }
  }
}
