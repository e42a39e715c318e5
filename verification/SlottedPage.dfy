/** A table page: tuples of bytes behind a slot directory, all inside one byte array. */
module SlottedPage {
  import opened SlottedLayout

  // ---------- Little-endian words in a byte sequence ----------

  function Num(b: seq<byte>): int {
    if b == [] then 0 else (b[0] as int) + 0x100 * Num(b[1..])
  }

  function Word(s: seq<byte>, o: int): int
    requires 0 <= o && o + 4 <= |s|
  {
    Num(s[o..o + 4])
  }

  function Encode(v: int): seq<byte>
    requires 0 <= v < WORD_LIMIT
  {
    [v % 0x100, v / 0x100 % 0x100, v / 0x1_0000 % 0x100, v / 0x100_0000]
  }

  lemma NumOfFour(b: seq<byte>)
    requires |b| == 4
    ensures Num(b) == (b[0] as int) + 0x100 * (b[1] as int) + 0x1_0000 * (b[2] as int) + 0x100_0000 * (b[3] as int)
    ensures 0 <= Num(b) < WORD_LIMIT
  {
    assert Num(b[1..]) == (b[1] as int) + 0x100 * Num(b[1..][1..]);
    assert Num(b[2..]) == (b[2] as int) + 0x100 * Num(b[2..][1..]);
    assert Num(b[3..]) == (b[3] as int) + 0x100 * Num(b[3..][1..]);
    assert b[1..][1..] == b[2..] && b[2..][1..] == b[3..] && b[3..][1..] == [];
  }

  /** Reading back a word undoes writing it. */
  lemma NumEncode(v: int)
    requires 0 <= v < WORD_LIMIT
    ensures Num(Encode(v)) == v
  {
    NumOfFour(Encode(v));
    var a, b, c := v / 0x100, v / 0x1_0000, v / 0x100_0000;
    assert a / 0x100 == b && b / 0x100 == c;
    assert v == 0x100 * a + v % 0x100 && a == 0x100 * b + a % 0x100 && b == 0x100 * c + b % 0x100;
  }

  /** `t` is `s` except in the range [o, o + n). */
  ghost predicate SameOutside(s: seq<byte>, t: seq<byte>, o: int, n: int) {
    |t| == |s| && forall i :: 0 <= i < |s| && !(o <= i < o + n) ==> t[i] == s[i]
  }

  ghost predicate SameBelow(s: seq<byte>, t: seq<byte>, n: int) {
    |t| == |s| && forall i :: 0 <= i < |s| && i < n ==> t[i] == s[i]
  }

  ghost predicate SameFrom(s: seq<byte>, t: seq<byte>, o: int) {
    |t| == |s| && forall i :: 0 <= i < |s| && o <= i ==> t[i] == s[i]
  }

  /** From `lo` on, `t` is `s` except in the range [o, o + n). */
  ghost predicate SameFromOutside(s: seq<byte>, t: seq<byte>, lo: int, o: int, n: int) {
    |t| == |s| && forall i :: 0 <= i < |s| && lo <= i && !(o <= i < o + n) ==> t[i] == s[i]
  }

  ghost predicate HoldsAt(t: seq<byte>, o: int, bytes: seq<byte>) {
    0 <= o && o + |bytes| <= |t| && t[o..o + |bytes|] == bytes
  }

  ghost predicate Wrote(s: seq<byte>, t: seq<byte>, o: int, bytes: seq<byte>) {
    0 <= o && o + |bytes| <= |s| && SameOutside(s, t, o, |bytes|) && t[o..o + |bytes|] == bytes
  }

  ghost predicate WroteWord(s: seq<byte>, t: seq<byte>, o: int, v: int) {
    0 <= o && o + 4 <= |s| && SameOutside(s, t, o, 4) && Word(t, o) == v
  }

  lemma WordElsewhere(s: seq<byte>, t: seq<byte>, o: int, n: int, p: int)
    requires SameOutside(s, t, o, n) && 0 <= p && p + 4 <= |s| && (p + 4 <= o || o + n <= p)
    ensures Word(t, p) == Word(s, p)
  {
    assert t[p..p + 4] == s[p..p + 4];
  }

  // ---------- The directory stored in a page ----------

  const OFFSET_FREE_SPACE := 16
  const OFFSET_TUPLE_COUNT := 20
  const MAX_SLOTS := 509  // (PAGE_SIZE - HEADER) / SIZE_TUPLE

  function OffsetAt(i: nat): int { HEADER + 8 * i }
  function SizeAt(i: nat): int { HEADER + 4 + 8 * i }

  ghost predicate SpellsSlot(s: seq<byte>, slot: Slot, i: nat)
    requires |s| == PAGE_SIZE && i < MAX_SLOTS
  {
    Word(s, OffsetAt(i)) == slot.off && Word(s, SizeAt(i)) == slot.w
  }

  /** The page has a full array and its header and slot words spell out the directory `d`. */
  ghost predicate Spells(s: seq<byte>, d: Dir) {
    && |s| == PAGE_SIZE && |d.slots| <= MAX_SLOTS
    && Word(s, OFFSET_FREE_SPACE) == d.fsp && Word(s, OFFSET_TUPLE_COUNT) == |d.slots|
    && forall i :: 0 <= i < |d.slots| ==> SpellsSlot(s, d.slots[i], i)
  }

  /** The page byte by byte: little-endian words, the free-space pointer at 16, the number of slots at 20, and from
      24 on each slot's offset and then its size word. */
  lemma PageLayout(s: seq<byte>, d: Dir, i: nat)
    requires Spells(s, d) && i < |d.slots|
    ensures LittleEndian(s, 16, d.fsp) && LittleEndian(s, 20, |d.slots|)
    ensures LittleEndian(s, 24 + 8 * i, d.slots[i].off) && LittleEndian(s, 28 + 8 * i, d.slots[i].w)
  {
    assert SpellsSlot(s, d.slots[i], i);
    NumOfFour(s[16..20]);
    NumOfFour(s[20..24]);
    NumOfFour(s[24 + 8 * i..28 + 8 * i]);
    NumOfFour(s[28 + 8 * i..32 + 8 * i]);
  }

  ghost predicate LittleEndian(s: seq<byte>, o: nat, v: int) {
    && o + 4 <= |s|
    && v == (s[o] as int) + 0x100 * (s[o + 1] as int) + 0x1_0000 * (s[o + 2] as int) + 0x100_0000 * (s[o + 3] as int)
  }

  /** A write outside the words of a slot leaves the slot alone. */
  lemma SlotElsewhere(s: seq<byte>, t: seq<byte>, o: int, n: int, slot: Slot, i: nat)
    requires |s| == PAGE_SIZE && i < MAX_SLOTS && SpellsSlot(s, slot, i)
    requires SameOutside(s, t, o, n) && (OffsetAt(i) + 8 <= o || o + n <= OffsetAt(i))
    ensures SpellsSlot(t, slot, i)
  {
    WordElsewhere(s, t, o, n, OffsetAt(i));
    WordElsewhere(s, t, o, n, SizeAt(i));
  }

  /** A write past the directory, or before the free-space pointer, leaves the directory alone. */
  lemma SpellsElsewhere(s: seq<byte>, t: seq<byte>, d: Dir, o: int, n: int)
    requires Spells(s, d) && SameOutside(s, t, o, n) && (OffsetAt(|d.slots|) <= o || o + n <= OFFSET_FREE_SPACE)
    ensures Spells(t, d)
  {
    WordElsewhere(s, t, o, n, OFFSET_FREE_SPACE);
    WordElsewhere(s, t, o, n, OFFSET_TUPLE_COUNT);
    forall i | 0 <= i < |d.slots| ensures SpellsSlot(t, d.slots[i], i) {
      SlotElsewhere(s, t, o, n, d.slots[i], i);
    }
  }

  lemma SpellsFsp(s: seq<byte>, t: seq<byte>, d: Dir, v: int)
    requires Spells(s, d) && WroteWord(s, t, OFFSET_FREE_SPACE, v)
    ensures Spells(t, Dir(v, d.slots))
  {
    WordElsewhere(s, t, OFFSET_FREE_SPACE, 4, OFFSET_TUPLE_COUNT);
    forall i | 0 <= i < |d.slots| ensures SpellsSlot(t, d.slots[i], i) {
      SlotElsewhere(s, t, OFFSET_FREE_SPACE, 4, d.slots[i], i);
    }
  }

  lemma SpellsOffset(s: seq<byte>, t: seq<byte>, d: Dir, k: nat, v: int)
    requires Spells(s, d) && k < |d.slots| && WroteWord(s, t, OffsetAt(k), v)
    ensures Spells(t, Dir(d.fsp, d.slots[k := Slot(v, d.slots[k].w)]))
  {
    var e := Dir(d.fsp, d.slots[k := Slot(v, d.slots[k].w)]);
    WordElsewhere(s, t, OffsetAt(k), 4, OFFSET_FREE_SPACE);
    WordElsewhere(s, t, OffsetAt(k), 4, OFFSET_TUPLE_COUNT);
    WordElsewhere(s, t, OffsetAt(k), 4, SizeAt(k));
    forall i | 0 <= i < |d.slots| ensures SpellsSlot(t, e.slots[i], i) {
      if i != k {
        SlotElsewhere(s, t, OffsetAt(k), 4, d.slots[i], i);
      }
    }
  }

  lemma SpellsSize(s: seq<byte>, t: seq<byte>, d: Dir, k: nat, v: int)
    requires Spells(s, d) && k < |d.slots| && WroteWord(s, t, SizeAt(k), v)
    ensures Spells(t, Dir(d.fsp, d.slots[k := Slot(d.slots[k].off, v)]))
  {
    var e := Dir(d.fsp, d.slots[k := Slot(d.slots[k].off, v)]);
    WordElsewhere(s, t, SizeAt(k), 4, OFFSET_FREE_SPACE);
    WordElsewhere(s, t, SizeAt(k), 4, OFFSET_TUPLE_COUNT);
    WordElsewhere(s, t, SizeAt(k), 4, OffsetAt(k));
    forall i | 0 <= i < |d.slots| ensures SpellsSlot(t, e.slots[i], i) {
      if i != k {
        SlotElsewhere(s, t, SizeAt(k), 4, d.slots[i], i);
      }
    }
  }

  /** Raising the count takes the slot after the last into the directory. */
  lemma SpellsCount(s: seq<byte>, t: seq<byte>, d: Dir, slot: Slot)
    requires Spells(s, d) && |d.slots| < MAX_SLOTS && SpellsSlot(s, slot, |d.slots|)
    requires WroteWord(s, t, OFFSET_TUPLE_COUNT, |d.slots| + 1)
    ensures Spells(t, Dir(d.fsp, d.slots + [slot]))
  {
    var n := |d.slots|;
    var e := Dir(d.fsp, d.slots + [slot]);
    WordElsewhere(s, t, OFFSET_TUPLE_COUNT, 4, OFFSET_FREE_SPACE);
    forall i | 0 <= i <= n ensures SpellsSlot(t, e.slots[i], i) {
      SlotElsewhere(s, t, OFFSET_TUPLE_COUNT, 4, e.slots[i], i);
    }
  }

  // ---------- What a page holds ----------

  datatype Tuple = Empty | Stored(bytes: seq<byte>, marked: bool)

  ghost function TupleAt(s: seq<byte>, slot: Slot): Tuple
    requires |s| == PAGE_SIZE
    requires (slot.Used() ==> 0 <= slot.off && 0 <= slot.Len() && slot.off + slot.Len() <= PAGE_SIZE)
  {
    if !slot.Used() then Empty else Stored(s[slot.off..slot.off + slot.Len()], slot.w >= DELETE_MASK)
  }

  ghost predicate PageOk(s: seq<byte>, d: Dir) {
    Spells(s, d) && DirOk(d)
  }

  /** The page as a sequence of slots, each empty or holding a tuple. */
  ghost function Contents(s: seq<byte>, d: Dir): (r: seq<Tuple>)
    requires PageOk(s, d)
    ensures |r| == |d.slots|
  {
    seq(|d.slots|, i requires 0 <= i < |d.slots| => TupleAt(s, d.slots[i]))
  }

  /** The bytes stored in a page. */
  function StoredBytes(ts: seq<Tuple>): nat {
    if ts == [] then 0
    else StoredBytes(ts[..|ts| - 1]) + (if ts[|ts| - 1].Stored? then |ts[|ts| - 1].bytes| else 0)
  }

  /** The free space of a page, from what it holds: no byte is lost to gaps. */
  function FreeOf(ts: seq<Tuple>): int {
    PAGE_SIZE - HEADER - 8 * |ts| - StoredBytes(ts)
  }

  // ---------- What the page operations do to a page's tuples ----------

  /** The first empty slot, or a new one. */
  function FirstFree(ts: seq<Tuple>): (k: nat)
    ensures k <= |ts| && (forall i :: 0 <= i < k ==> ts[i] != Empty) && (k < |ts| ==> ts[k] == Empty)
  {
    if ts == [] then 0 else if ts[0] == Empty then 0 else 1 + FirstFree(ts[1..])
  }

  /** There is room for a new tuple and a slot. */
  predicate Fits(ts: seq<Tuple>, bytes: seq<byte>) {
    |bytes| + SIZE_TUPLE <= FreeOf(ts)
  }

  predicate Live(x: Tuple) {
    x.Stored? && !x.marked
  }

  predicate LiveAt(ts: seq<Tuple>, k: nat) {
    k < |ts| && Live(ts[k])
  }

  /** The tuples with slot k, an existing one or the next, set to t. */
  function WithTuple(ts: seq<Tuple>, k: nat, t: Tuple): seq<Tuple> {
    if k < |ts| then ts[k := t] else ts + [t]
  }

  /** The tuples with the delete mark of slot k set or cleared, if it holds a tuple. */
  function Flagged(ts: seq<Tuple>, k: nat, marked: bool): seq<Tuple> {
    if k < |ts| && ts[k].Stored? then ts[k := Stored(ts[k].bytes, marked)] else ts
  }

  /** -1 for a slot without a live tuple, 0 when the new tuple does not fit in place of the old, else 1. */
  function UpdateCode(ts: seq<Tuple>, k: nat, bytes: seq<byte>): int {
    if !LiveAt(ts, k) then -1 else if FreeOf(ts) + |ts[k].bytes| < |bytes| then 0 else 1
  }

  /** The first live slot from `from` on, or the number of slots. */
  function FirstLive(ts: seq<Tuple>, from: nat): (k: nat)
    ensures k <= |ts| && (k < |ts| ==> from <= k && LiveAt(ts, k))
    ensures forall i :: from <= i < k ==> !LiveAt(ts, i)
    decreases |ts| - from
  {
    if from >= |ts| then |ts| else if LiveAt(ts, from) then from else FirstLive(ts, from + 1)
  }

  lemma FreeSpaceIsFreeOf(s: seq<byte>, d: Dir)
    requires PageOk(s, d)
    ensures FreeSpaceRemaining(d) == FreeOf(Contents(s, d))
  {
    SumIsStored(d.slots, Contents(s, d));
  }

  lemma {:induction false} SumIsStored(slots: seq<Slot>, ts: seq<Tuple>)
    requires |slots| == |ts|
    requires forall i :: 0 <= i < |ts| ==>
      if slots[i].Used() then ts[i].Stored? && |ts[i].bytes| == slots[i].Len() else ts[i].Empty?
    ensures StoredSum(slots) == StoredBytes(ts)
  {
    if ts != [] {
      SumIsStored(slots[..|slots| - 1], ts[..|ts| - 1]);
    }
  }

  /** Bytes from the free-space pointer on are untouched by writes to the head of the page. */
  lemma SameTuple(s: seq<byte>, t: seq<byte>, lo: int, a: Slot, b: Slot)
    requires |s| == |t| == PAGE_SIZE && 0 <= lo <= PAGE_SIZE && s[lo..] == t[lo..]
    requires a.w == b.w && (a.Used() ==> a.off == b.off && lo <= a.off && 0 <= a.Len() && a.off + a.Len() <= PAGE_SIZE)
    ensures TupleAt(t, b) == TupleAt(s, a)
  {
  }

  /** A slot keeps its tuple while the data area stays. */
  lemma KeptTuple(s: seq<byte>, t: seq<byte>, d: Dir, i: nat)
    requires |s| == |t| == PAGE_SIZE && DirOk(d) && s[d.fsp..] == t[d.fsp..] && i < |d.slots|
    ensures TupleAt(t, d.slots[i]) == TupleAt(s, d.slots[i])
  {
  }

  // ---------- The effect of each operation on the bytes and on the contents ----------

  /** Every range below slot `k` moved by the difference in length, the new bytes stand at the end of the
      old range, and what lies beyond is untouched. */
  ghost predicate Moved(s: seq<byte>, t: seq<byte>, d: Dir, k: nat, bytes: seq<byte>)
    requires k < |d.slots| && DirOk(d) && d.slots[k].Used() && |bytes| <= FreeSpaceRemaining(d) + d.slots[k].Len()
  {
    |s| == PAGE_SIZE && Replaced(s, t, d.fsp, d.slots[k].off, d.slots[k].Len(), bytes)
  }

  ghost predicate Replaced(s: seq<byte>, t: seq<byte>, fsp: int, off: int, size: int, bytes: seq<byte>)
    requires 0 <= fsp <= off <= |s|
  {
    var end := off + size;
    && HoldsAt(t, fsp + size - |bytes|, s[fsp..off])
    && HoldsAt(t, end - |bytes|, bytes)
    && SameFrom(s, t, end)
  }

  lemma SubSlice(s: seq<byte>, lo: int, hi: int, a: int, b: int)
    requires 0 <= lo <= hi <= |s| && 0 <= a <= b <= hi - lo
    ensures s[lo..hi][a..b] == s[lo + a..lo + b]
  {
    assert forall i :: 0 <= i < b - a ==> s[lo..hi][a..b][i] == s[lo + a..lo + b][i];
  }

  lemma MovedTuple(s: seq<byte>, t: seq<byte>, d: Dir, k: nat, bytes: seq<byte>, i: nat)
    requires DirOk(d) && k < |d.slots| && d.slots[k].Used() && |bytes| <= FreeSpaceRemaining(d) + d.slots[k].Len()
    requires i < |d.slots| && Moved(s, t, d, k, bytes) && DirOk(Shifted(d, k, |bytes|))
    ensures TupleAt(t, Shifted(d, k, |bytes|).slots[i]) ==
      if i != k then TupleAt(s, d.slots[i]) else if bytes == [] then Empty else Stored(bytes, false)
  {
    var x, y := d.slots[i], d.slots[k];
    var z := Shifted(d, k, |bytes|).slots[i];
    assert z == ShiftSlot(d, k, |bytes|, i);
    if i != k && x.Used() {
      ApartFrom(d, i, k);
      if x.off < y.off {
        BelowMoved(s, t, d, k, bytes, i);
      } else {
        AboveKept(s, t, d, k, bytes, i);
      }
    }
  }

  lemma BelowMoved(s: seq<byte>, t: seq<byte>, d: Dir, k: nat, bytes: seq<byte>, i: nat)
    requires DirOk(d) && k < |d.slots| && d.slots[k].Used() && |bytes| <= FreeSpaceRemaining(d) + d.slots[k].Len()
    requires i < |d.slots| && d.slots[i].Used() && Moved(s, t, d, k, bytes) && |s| == |t|
    requires d.slots[i].off + d.slots[i].Len() <= d.slots[k].off
    ensures var z := Slot(d.slots[i].off + d.slots[k].Len() - |bytes|, d.slots[i].w);
      0 <= z.off && z.off + z.Len() <= PAGE_SIZE && TupleAt(t, z) == TupleAt(s, d.slots[i])
  {
    var x, y := d.slots[i], d.slots[k];
    MovedBelow(s, t, d.fsp, y.off, y.Len() - |bytes|, x.off, x.Len());
  }

  lemma AboveKept(s: seq<byte>, t: seq<byte>, d: Dir, k: nat, bytes: seq<byte>, i: nat)
    requires DirOk(d) && k < |d.slots| && d.slots[k].Used() && |bytes| <= FreeSpaceRemaining(d) + d.slots[k].Len()
    requires i < |d.slots| && d.slots[i].Used() && Moved(s, t, d, k, bytes)
    requires d.slots[k].off + d.slots[k].Len() <= d.slots[i].off
    ensures TupleAt(t, d.slots[i]) == TupleAt(s, d.slots[i])
  {
  }

  lemma MovedBelow(s: seq<byte>, t: seq<byte>, lo: int, hi: int, delta: int, off: int, len: int)
    requires |s| == |t| && 0 <= lo <= hi <= |s| && 0 <= lo + delta && hi + delta <= |t|
    requires t[lo + delta..hi + delta] == s[lo..hi]
    requires lo <= off && 0 <= len && off + len <= hi
    ensures t[off + delta..off + delta + len] == s[off..off + len]
  {
    SubSlice(t, lo + delta, hi + delta, off - lo, off + len - lo);
    SubSlice(s, lo, hi, off - lo, off + len - lo);
  }

  /** The first empty slot, or the number of slots. */
  ghost predicate FirstEmpty(slots: seq<Slot>, k: nat) {
    && k <= |slots|
    && (forall i :: 0 <= i < k ==> slots[i].Used())
    && (k < |slots| ==> !slots[k].Used())
  }

  lemma FirstEmptyIsFree(s: seq<byte>, d: Dir, k: nat)
    requires PageOk(s, d) && FirstEmpty(d.slots, k)
    ensures k == FirstFree(Contents(s, d))
  {
    var ts := Contents(s, d);
    assert forall i :: 0 <= i < |ts| ==> (ts[i] == Empty <==> !d.slots[i].Used());
  }

  /** The directory grew by a tuple of `len` bytes, and the old data area is untouched. */
  lemma InsertedContents(s: seq<byte>, d: Dir, t: seq<byte>, k: nat, bytes: seq<byte>)
    requires k <= |d.slots| && (k < |d.slots| ==> !d.slots[k].Used())
    requires PageOk(s, d) && PageOk(t, Inserted(d, k, |bytes|))
    requires 0 < |bytes| < DELETE_MASK && |bytes| <= d.fsp
    requires t[d.fsp..] == s[d.fsp..] && t[d.fsp - |bytes|..d.fsp] == bytes
    ensures Contents(t, Inserted(d, k, |bytes|)) == WithTuple(Contents(s, d), k, Stored(bytes, false))
  {
    var e := Inserted(d, k, |bytes|);
    NewTuple(t, d, k, bytes);
    forall i | 0 <= i < |e.slots| && i != k ensures TupleAt(t, e.slots[i]) == TupleAt(s, d.slots[i]) {
      assert e.slots[i] == d.slots[i];
      KeptTuple(s, t, d, i);
    }
    WithTupleAt(Contents(s, d), Contents(t, e), k, Stored(bytes, false));
  }

  lemma NewTuple(t: seq<byte>, d: Dir, k: nat, bytes: seq<byte>)
    requires |t| == PAGE_SIZE && k <= |d.slots| && |bytes| <= d.fsp <= PAGE_SIZE && 0 < |bytes| < DELETE_MASK
    requires t[d.fsp - |bytes|..d.fsp] == bytes
    ensures TupleAt(t, Inserted(d, k, |bytes|).slots[k]) == Stored(bytes, false)
  {
  }

  lemma WithTupleAt(ts: seq<Tuple>, us: seq<Tuple>, k: nat, x: Tuple)
    requires k <= |ts| && |us| == (if k < |ts| then |ts| else |ts| + 1) && us[k] == x
    requires forall i :: 0 <= i < |us| && i != k ==> us[i] == ts[i]
    ensures us == WithTuple(ts, k, x)
  {
  }

  lemma ClaimSpells(s: seq<byte>, s1: seq<byte>, s2: seq<byte>, d: Dir, bytes: seq<byte>)
    requires Spells(s, d) && |bytes| <= FreeSpaceRemaining(d)
    requires WroteWord(s, s1, OFFSET_FREE_SPACE, d.fsp - |bytes|) && Wrote(s1, s2, d.fsp - |bytes|, bytes)
    ensures Spells(s2, Dir(d.fsp - |bytes|, d.slots))
  {
    SpellsFsp(s, s1, d, d.fsp - |bytes|);
    SpellsElsewhere(s1, s2, Dir(d.fsp - |bytes|, d.slots), d.fsp - |bytes|, |bytes|);
  }

  /** After the bytes and then the slot have been written, the page holds one more tuple. */
  lemma InsertOk(s: seq<byte>, t: seq<byte>, d: Dir, k: nat, bytes: seq<byte>)
    requires k <= |d.slots| && (k < |d.slots| ==> !d.slots[k].Used())
    requires PageOk(s, d) && Spells(t, Inserted(d, k, |bytes|)) && 0 < |bytes|
    requires |bytes| + SIZE_TUPLE <= FreeSpaceRemaining(d)
    requires SameFrom(s, t, d.fsp) && HoldsAt(t, d.fsp - |bytes|, bytes)
    ensures PageOk(t, Inserted(d, k, |bytes|))
    ensures Contents(t, Inserted(d, k, |bytes|)) == WithTuple(Contents(s, d), k, Stored(bytes, false))
  {
    InsertedOk(d, k, |bytes|);
    assert t[d.fsp..] == s[d.fsp..];
    InsertedContents(s, d, t, k, bytes);
  }

  lemma FilledAfterClaim(s: seq<byte>, s2: seq<byte>, t: seq<byte>, fsp: int, bytes: seq<byte>, o: int)
    requires SameFrom(s, s2, fsp) && HoldsAt(s2, fsp - |bytes|, bytes) && SameBelow(s, s2, 16) && fsp <= |s|
    requires SameFrom(s2, t, o) && o <= fsp - |bytes| && SameBelow(s2, t, 16)
    ensures SameFrom(s, t, fsp) && HoldsAt(t, fsp - |bytes|, bytes) && SameBelow(s, t, 16)
  {
  }

  lemma AppendSpells(s: seq<byte>, s3: seq<byte>, s4: seq<byte>, t: seq<byte>, d: Dir, at: int, w: int)
    requires Spells(s, d) && |d.slots| < MAX_SLOTS
    requires WroteWord(s, s3, OffsetAt(|d.slots|), at) && WroteWord(s3, s4, SizeAt(|d.slots|), w)
    requires WroteWord(s4, t, OFFSET_TUPLE_COUNT, |d.slots| + 1)
    ensures Spells(t, Dir(d.fsp, d.slots + [Slot(at, w)]))
  {
    var k := |d.slots|;
    SpellsElsewhere(s, s3, d, OffsetAt(k), 4);
    SpellsElsewhere(s3, s4, d, SizeAt(k), 4);
    WordElsewhere(s3, s4, SizeAt(k), 4, OffsetAt(k));
    SpellsCount(s4, t, d, Slot(at, w));
  }

  lemma ReuseSpells(s: seq<byte>, s3: seq<byte>, t: seq<byte>, d: Dir, k: nat, at: int, w: int)
    requires Spells(s, d) && k < |d.slots|
    requires WroteWord(s, s3, OffsetAt(k), at) && WroteWord(s3, t, SizeAt(k), w)
    ensures Spells(t, Dir(d.fsp, d.slots[k := Slot(at, w)]))
  {
    var e := Dir(d.fsp, d.slots[k := Slot(at, d.slots[k].w)]);
    SpellsOffset(s, s3, d, k, at);
    SpellsSize(s3, t, e, k, w);
    assert e.slots[k := Slot(at, w)] == d.slots[k := Slot(at, w)];
  }

  lemma MovedContents(s: seq<byte>, d: Dir, t: seq<byte>, k: nat, bytes: seq<byte>)
    requires PageOk(s, d) && k < |d.slots| && d.slots[k].Used() && |bytes| <= FreeSpaceRemaining(d) + d.slots[k].Len()
    requires Moved(s, t, d, k, bytes) && PageOk(t, Shifted(d, k, |bytes|))
    ensures Contents(t, Shifted(d, k, |bytes|)) ==
      Contents(s, d)[k := if bytes == [] then Empty else Stored(bytes, false)]
  {
    forall i | 0 <= i < |d.slots|
      ensures TupleAt(t, Shifted(d, k, |bytes|).slots[i]) ==
        if i != k then TupleAt(s, d.slots[i]) else if bytes == [] then Empty else Stored(bytes, false)
    {
      MovedTuple(s, t, d, k, bytes, i);
    }
  }

  lemma MarkedContents(s: seq<byte>, d: Dir, t: seq<byte>, k: nat, w: int)
    requires PageOk(s, d) && k < |d.slots| && d.slots[k].Used()
    requires w == SetDeletedFlag(d.slots[k].w) || w == UnsetDeletedFlag(d.slots[k].w)
    requires PageOk(t, Dir(d.fsp, d.slots[k := Slot(d.slots[k].off, w)])) && t[d.fsp..] == s[d.fsp..]
    ensures Contents(t, Dir(d.fsp, d.slots[k := Slot(d.slots[k].off, w)])) ==
      Contents(s, d)[k := Stored(TupleAt(s, d.slots[k]).bytes, w >= DELETE_MASK)]
  {
    var e := Dir(d.fsp, d.slots[k := Slot(d.slots[k].off, w)]);
    forall i | 0 <= i < |d.slots|
      ensures TupleAt(t, e.slots[i]) ==
        if i == k then Stored(TupleAt(s, d.slots[k]).bytes, w >= DELETE_MASK) else TupleAt(s, d.slots[i])
    {
      if i != k {
        KeptTuple(s, t, d, i);
      } else {
        MarkedTuple(s, t, d, k, w);
      }
    }
  }

  lemma MarkedTuple(s: seq<byte>, t: seq<byte>, d: Dir, k: nat, w: int)
    requires |s| == |t| == PAGE_SIZE && DirOk(d) && s[d.fsp..] == t[d.fsp..] && k < |d.slots| && d.slots[k].Used()
    requires w == SetDeletedFlag(d.slots[k].w) || w == UnsetDeletedFlag(d.slots[k].w)
    ensures var z := Slot(d.slots[k].off, w);
      z.Used() && z.Len() == d.slots[k].Len() && TupleAt(t, z) == Stored(TupleAt(s, d.slots[k]).bytes, w >= DELETE_MASK)
  {
  }

  /** Rewriting a slot's size word with its flag changed. */
  lemma FlagOk(s: seq<byte>, t: seq<byte>, d: Dir, k: nat, w: int)
    requires PageOk(s, d) && k < |d.slots| && d.slots[k].Used()
    requires w == SetDeletedFlag(d.slots[k].w) || w == UnsetDeletedFlag(d.slots[k].w)
    requires WroteWord(s, t, SizeAt(k), w)
    ensures var e := Dir(d.fsp, d.slots[k := Slot(d.slots[k].off, w)]);
      && PageOk(t, e) && SameBelow(s, t, 16)
      && Contents(t, e) == Contents(s, d)[k := Stored(Contents(s, d)[k].bytes, w >= DELETE_MASK)]
  {
    MarkedOk(d, k, w);
    SpellsSize(s, t, d, k, w);
    assert t[d.fsp..] == s[d.fsp..];
    MarkedContents(s, d, t, k, w);
  }

  /** The size word of a slot tells whether its tuple is live. */
  lemma LiveBySize(s: seq<byte>, d: Dir, k: nat)
    requires PageOk(s, d) && k < |d.slots|
    ensures Live(Contents(s, d)[k]) <==> !IsDeleted(Word(s, SizeAt(k)))
  {
  }

  /** The first `n` slots with `delta` added to the offsets of used slots below `limit`. */
  function Fixed(slots: seq<Slot>, limit: int, delta: int, n: nat): (r: seq<Slot>)
    ensures |r| == |slots|
  {
    seq(|slots|, i requires 0 <= i < |slots| =>
      if i < n && slots[i].w != 0 && slots[i].off < limit then Slot(slots[i].off + delta, slots[i].w) else slots[i])
  }

  lemma FixedNext(slots: seq<Slot>, limit: int, delta: int, i: nat)
    requires i < |slots|
    ensures Fixed(slots, limit, delta, i)[i] == slots[i]
    ensures Fixed(slots, limit, delta, i + 1) ==
      if slots[i].w != 0 && slots[i].off < limit
      then Fixed(slots, limit, delta, i)[i := Slot(slots[i].off + delta, slots[i].w)]
      else Fixed(slots, limit, delta, i)
  {
  }

  /** The offset loop of an update turns the half-updated directory into the shifted one. */
  lemma FixedIsShifted(d: Dir, k: nat, len: int)
    requires DirOk(d) && k < |d.slots| && d.slots[k].Used() && d.slots[k].w < DELETE_MASK && 0 < len < DELETE_MASK
    ensures var y := d.slots[k]; var slots := d.slots[k := Slot(y.off, len)];
      Fixed(slots, y.off + y.w, y.w - len, |slots|) == Shifted(d, k, len).slots
  {
  }

  lemma FixedIsDeleted(d: Dir, k: nat)
    requires DirOk(d) && k < |d.slots| && d.slots[k].Used()
    ensures var y := d.slots[k]; var slots := d.slots[k := Slot(0, 0)];
      Fixed(slots, y.off, y.Len(), |slots|) == Shifted(d, k, 0).slots
  {
  }

  /** The directory of a half-done update: pointer and size are new, offsets still old. */
  function ReplacedHead(d: Dir, k: nat, len: int): Dir
    requires k < |d.slots|
  {
    Dir(d.fsp + d.slots[k].Len() - len, d.slots[k := Slot(d.slots[k].off, len)])
  }

  /** Writes to the directory words do not disturb the moved tuples. */
  lemma ReplacedFrame(s: seq<byte>, t: seq<byte>, u: seq<byte>, fsp: int, off: int, size: int, bytes: seq<byte>, n: int)
    requires 0 <= fsp <= off && 0 <= size && off + size <= |s| && HEADER + n <= fsp + size - |bytes| && 0 <= n
    requires Replaced(s, t, fsp, off, size, bytes) && SameOutside(t, u, HEADER, n) && HEADER + n <= fsp
    ensures Replaced(s, u, fsp, off, size, bytes) && SameBelow(t, u, 16)
  {
  }

  ghost predicate FixFits(slots: seq<Slot>, limit: int, delta: int) {
    forall i :: 0 <= i < |slots| && slots[i].w != 0 && slots[i].off < limit ==> 0 <= slots[i].off + delta < WORD_LIMIT
  }

  lemma FixBounds(d: Dir, k: nat, len: int)
    requires DirOk(d) && k < |d.slots| && d.slots[k].Used() && 0 <= len <= FreeSpaceRemaining(d) + d.slots[k].Len()
    ensures var y := d.slots[k]; FixFits(ReplacedHead(d, k, len).slots, y.off + y.Len(), y.Len() - len)
    ensures var y := d.slots[k]; FixFits(d.slots[k := Slot(0, 0)], y.off, y.Len())
  {
  }

  ghost predicate ReplaceReady(s: seq<byte>, d: Dir, k: nat, off: int, size: int, bytes: seq<byte>) {
    && Spells(s, d) && k < |d.slots| && off == d.slots[k].off
    && size == d.slots[k].Len() && OffsetAt(|d.slots|) <= d.fsp <= off && off + size <= PAGE_SIZE
    && OffsetAt(|d.slots|) <= d.fsp + size - |bytes| && 0 <= size && |bytes| < WORD_LIMIT
    && FixFits(ReplacedHead(d, k, |bytes|).slots, off + size, size - |bytes|)
  }

  /** The bytes are in place and the offsets are not fixed yet. */
  ghost predicate BytesMoved(s: seq<byte>, t: seq<byte>, d: Dir, k: nat, off: int, size: int, bytes: seq<byte>) {
    && ReplaceReady(s, d, k, off, size, bytes) && Spells(t, ReplacedHead(d, k, |bytes|))
    && Replaced(s, t, d.fsp, off, size, bytes) && SameBelow(s, t, 16)
  }

  ghost predicate ReplaceDone(s: seq<byte>, t: seq<byte>, d: Dir, k: nat, off: int, size: int, bytes: seq<byte>) {
    && k < |d.slots| && 0 <= d.fsp <= off <= |s|
    && (var slots := Fixed(ReplacedHead(d, k, |bytes|).slots, off + size, size - |bytes|, |d.slots|);
        Spells(t, Dir(d.fsp + size - |bytes|, slots)))
    && Replaced(s, t, d.fsp, off, size, bytes) && SameBelow(s, t, 16)
  }

  /** The offsets of the first `n` slots are fixed, and nothing but the slots has changed. */
  ghost predicate FixedUp(s: seq<byte>, t: seq<byte>, d: Dir, limit: int, delta: int, n: nat) {
    && Spells(t, Dir(d.fsp, Fixed(d.slots, limit, delta, n)))
    && SameOutside(s, t, HEADER, 8 * |d.slots|)
  }

  lemma FixedStart(t: seq<byte>, d: Dir, limit: int, delta: int)
    requires Spells(t, d)
    ensures FixedUp(t, t, d, limit, delta, 0)
  {
    assert Fixed(d.slots, limit, delta, 0) == d.slots;
  }

  lemma FixedRead(s: seq<byte>, t: seq<byte>, d: Dir, limit: int, delta: int, i: nat)
    requires FixedUp(s, t, d, limit, delta, i) && i < |d.slots|
    ensures |t| == PAGE_SIZE && |d.slots| <= MAX_SLOTS
    ensures Word(t, OffsetAt(i)) == d.slots[i].off && Word(t, SizeAt(i)) == d.slots[i].w
  {
    FixedNext(d.slots, limit, delta, i);
    assert SpellsSlot(t, Fixed(d.slots, limit, delta, i)[i], i);
  }

  lemma FixedStep(s: seq<byte>, t: seq<byte>, u: seq<byte>, d: Dir, limit: int, delta: int, i: nat)
    requires FixedUp(s, t, d, limit, delta, i) && i < |d.slots|
    requires if d.slots[i].w != 0 && d.slots[i].off < limit then WroteWord(t, u, OffsetAt(i), d.slots[i].off + delta)
      else u == t
    ensures FixedUp(s, u, d, limit, delta, i + 1)
  {
    FixedNext(d.slots, limit, delta, i);
    if d.slots[i].w != 0 && d.slots[i].off < limit {
      SpellsOffset(t, u, Dir(d.fsp, Fixed(d.slots, limit, delta, i)), i, d.slots[i].off + delta);
    }
  }

  ghost predicate FixReady(t: seq<byte>, d: Dir, limit: int, delta: int) {
    Spells(t, d) && FixFits(d.slots, limit, delta)
  }

  lemma MovedReady(s: seq<byte>, t: seq<byte>, d: Dir, k: nat, off: int, size: int, bytes: seq<byte>)
    requires BytesMoved(s, t, d, k, off, size, bytes)
    ensures k < |d.slots| && FixReady(t, ReplacedHead(d, k, |bytes|), off + size, size - |bytes|)
  {
  }

  /** Fixing the offsets leaves the moved bytes alone. */
  lemma FixDone(s: seq<byte>, s4: seq<byte>, t: seq<byte>, d: Dir, k: nat, off: int, size: int, bytes: seq<byte>)
    requires BytesMoved(s, s4, d, k, off, size, bytes)
    requires FixedUp(s4, t, ReplacedHead(d, k, |bytes|), off + size, size - |bytes|, |d.slots|)
    ensures ReplaceDone(s, t, d, k, off, size, bytes)
  {
    ReplacedFrame(s, s4, t, d.fsp, off, size, bytes, 8 * |d.slots|);
  }

  lemma GetReady(s: seq<byte>, d: Dir, k: nat, off: int, size: int, bytes: seq<byte>)
    requires PageOk(s, d) && k < |d.slots| && d.slots[k] == Slot(off, size) && 0 < size < DELETE_MASK
    requires 0 < |bytes| <= FreeSpaceRemaining(d) + size
    ensures ReplaceReady(s, d, k, off, size, bytes)
  {
  }

  lemma ReplaceOk(s: seq<byte>, t: seq<byte>, d: Dir, k: nat, off: int, size: int, bytes: seq<byte>)
    requires PageOk(s, d) && k < |d.slots| && d.slots[k] == Slot(off, size) && 0 < size < DELETE_MASK
    requires 0 < |bytes| <= FreeSpaceRemaining(d) + size
    requires ReplaceDone(s, t, d, k, off, size, bytes)
    ensures PageOk(t, Shifted(d, k, |bytes|)) && SameBelow(s, t, 16)
    ensures Contents(t, Shifted(d, k, |bytes|)) == Contents(s, d)[k := Stored(bytes, false)]
  {
    ReplacePageOk(s, t, d, k, off, size, bytes);
    assert Moved(s, t, d, k, bytes);
    MovedContents(s, d, t, k, bytes);
  }

  lemma ReplacePageOk(s: seq<byte>, t: seq<byte>, d: Dir, k: nat, off: int, size: int, bytes: seq<byte>)
    requires DirOk(d) && k < |d.slots| && d.slots[k] == Slot(off, size) && 0 < size < DELETE_MASK
    requires 0 < |bytes| <= FreeSpaceRemaining(d) + size
    requires ReplaceDone(s, t, d, k, off, size, bytes)
    ensures PageOk(t, Shifted(d, k, |bytes|))
  {
    ShiftedOk(d, k, |bytes|);
    FixedIsShifted(d, k, |bytes|);
  }

  lemma DeleteOk(s: seq<byte>, t: seq<byte>, d: Dir, k: nat)
    requires PageOk(s, d) && k < |d.slots| && d.slots[k].Used()
    requires var y := d.slots[k];
      && Replaced(s, t, d.fsp, y.off, y.Len(), [])
      && Spells(t, Dir(d.fsp + y.Len(), Fixed(d.slots[k := Slot(0, 0)], y.off, y.Len(), |d.slots|)))
    ensures PageOk(t, Shifted(d, k, 0))
    ensures Contents(t, Shifted(d, k, 0)) == Contents(s, d)[k := Empty]
  {
    ShiftedOk(d, k, 0);
    FixedIsDeleted(d, k);
    MovedContents(s, d, t, k, []);
  }

  lemma ClearSpells(s: seq<byte>, s1: seq<byte>, t: seq<byte>, d: Dir, k: nat)
    requires Spells(s, d) && k < |d.slots| && WroteWord(s, s1, SizeAt(k), 0) && WroteWord(s1, t, OffsetAt(k), 0)
    ensures Spells(t, Dir(d.fsp, d.slots[k := Slot(0, 0)]))
  {
    var e := Dir(d.fsp, d.slots[k := Slot(d.slots[k].off, 0)]);
    SpellsSize(s, s1, d, k, 0);
    SpellsOffset(s1, t, e, k, 0);
    assert e.slots[k := Slot(0, 0)] == d.slots[k := Slot(0, 0)];
  }

  /** Sliding and then storing the new bytes is the move of an update. */
  lemma ReplacedInTwo(s: seq<byte>, s2: seq<byte>, t: seq<byte>, fsp: int, off: int, size: int, bytes: seq<byte>)
    requires 0 <= fsp <= off && 0 <= size && off + size <= |s| && 0 <= fsp + size - |bytes|
    requires var delta := size - |bytes|; var at := off + delta;
      && HoldsAt(s2, fsp + delta, s[fsp..off]) && SameFrom(s, s2, at)
      && HoldsAt(t, at, bytes) && SameFromOutside(s2, t, fsp + delta, at, |bytes|)
    ensures Replaced(s, t, fsp, off, size, bytes)
  {
  }

  lemma DeletedInTwo(s: seq<byte>, s2: seq<byte>, s3: seq<byte>, s4: seq<byte>, t: seq<byte>, fsp: int, off: int,
                     size: int, k: nat, n: nat)
    requires OffsetAt(n) <= fsp <= off && 0 < size && off + size <= |s| && k < n
    requires HoldsAt(s2, fsp + size, s[fsp..off]) && SameFrom(s, s2, off + size) && SameBelow(s, s2, 16)
    requires SameOutside(s2, s3, SizeAt(k), 4) && SameOutside(s3, s4, OffsetAt(k), 4)
    requires SameOutside(s4, t, HEADER, 8 * n)
    ensures Replaced(s, t, fsp, off, size, []) && SameBelow(s, t, 16)
  {
  }

  /** Writes to the page id and link words. */
  lemma LinkKeeps(s: seq<byte>, t: seq<byte>, d: Dir, o: nat, v: int)
    requires PageOk(s, d) && o <= 12 && WroteWord(s, t, o, v)
    ensures PageOk(t, d) && Contents(t, d) == Contents(s, d)
  {
    SpellsElsewhere(s, t, d, o, 4);
    assert s[d.fsp..] == t[d.fsp..];
    forall i | 0 <= i < |d.slots| ensures TupleAt(t, d.slots[i]) == TupleAt(s, d.slots[i]) {
      SameTuple(s, t, d.fsp, d.slots[i], d.slots[i]);
    }
  }

  class TablePage {
    const data: array<byte>
    ghost var dir: Dir

    ghost predicate Valid()
      reads this, data
    {
      data.Length == PAGE_SIZE && PageOk(data[..], dir)
    }

    ghost function Tuples(): seq<Tuple>
      requires Valid()
      reads this, data
    {
      Contents(data[..], dir)
    }

    method SetWord(o: nat, v: int)
      requires o + 4 <= data.Length && 0 <= v < WORD_LIMIT
      modifies data
      ensures WroteWord(old(data[..]), data[..], o, v)
    {
      data[o], data[o + 1] := v % 0x100, v / 0x100 % 0x100;
      data[o + 2], data[o + 3] := v / 0x1_0000 % 0x100, v / 0x100_0000;
      NumEncode(v);
      assert data[..][o..o + 4] == Encode(v);
    }

    method GetWord(o: nat) returns (v: int)
      requires o + 4 <= data.Length
      ensures v == Word(data[..], o) && 0 <= v < WORD_LIMIT
    {
      NumOfFour(data[..][o..o + 4]);
      v := (data[o] as int) + 0x100 * (data[o + 1] as int)
           + 0x1_0000 * (data[o + 2] as int) + 0x100_0000 * (data[o + 3] as int);
    }

    /** memmove, also between overlapping ranges. */
    method MoveBytes(dst: nat, src: nat, len: nat)
      requires dst + len <= data.Length && src + len <= data.Length
      modifies data
      ensures Wrote(old(data[..]), data[..], dst, old(data[..])[src..src + len])
    {
      forall i | 0 <= i < len {
        data[dst + i] := data[src + i];
      }
    }

    /** Writing a serialized row. */
    method WriteBytes(dst: nat, bytes: seq<byte>)
      requires dst + |bytes| <= data.Length
      modifies data
      ensures Wrote(old(data[..]), data[..], dst, bytes)
    {
      forall i | 0 <= i < |bytes| {
        data[dst + i] := bytes[i];
      }
    }

    /** `Init`: an empty page with its id and links; the next id is the invalid one. */
    constructor Init(pageId: int, prevId: int)
      requires 0 <= pageId < WORD_LIMIT && 0 <= prevId < WORD_LIMIT
      ensures Valid() && fresh(data) && Tuples() == []
      ensures Word(data[..], 0) == pageId && Word(data[..], 8) == prevId && Word(data[..], 12) == WORD_LIMIT - 1
    {
      data := new byte[PAGE_SIZE](_ => 0);
      dir := Dir(PAGE_SIZE, []);
      new;
      SetWord(0, pageId);
      ghost var s := data[..];
      SetWord(8, prevId);
      WordElsewhere(s, data[..], 8, 4, 0);
      s := data[..];
      SetWord(12, WORD_LIMIT - 1);
      WordElsewhere(s, data[..], 12, 4, 0);
      WordElsewhere(s, data[..], 12, 4, 8);
      s := data[..];
      SetWord(OFFSET_FREE_SPACE, PAGE_SIZE);
      WordElsewhere(s, data[..], OFFSET_FREE_SPACE, 4, 0);
      WordElsewhere(s, data[..], OFFSET_FREE_SPACE, 4, 8);
      WordElsewhere(s, data[..], OFFSET_FREE_SPACE, 4, 12);
      s := data[..];
      SetWord(OFFSET_TUPLE_COUNT, 0);
      WordElsewhere(s, data[..], OFFSET_TUPLE_COUNT, 4, 0);
      WordElsewhere(s, data[..], OFFSET_TUPLE_COUNT, 4, 8);
      WordElsewhere(s, data[..], OFFSET_TUPLE_COUNT, 4, 12);
      WordElsewhere(s, data[..], OFFSET_TUPLE_COUNT, 4, OFFSET_FREE_SPACE);
    }

    method SetNextPageId(id: int)
      requires Valid() && 0 <= id < WORD_LIMIT
      modifies data
      ensures Valid() && Tuples() == old(Tuples()) && Word(data[..], 12) == id
      ensures SameBelow(old(data[..]), data[..], 12)
    {
      SetWord(12, id);
      LinkKeeps(old(data[..]), data[..], dir, 12, id);
    }

    /** `InsertTuple`: refused when the tuple and a slot do not fit, even if a slot could be reused;
        otherwise the tuple takes the first empty slot, or a new one. */
    method InsertTuple(bytes: seq<byte>) returns (ok: bool, slot: nat)
      requires Valid() && |bytes| > 0
      modifies this, data
      ensures Valid()
      ensures ok <==> Fits(old(Tuples()), bytes)
      ensures !ok ==> data[..] == old(data[..]) && dir == old(dir)
      ensures ok ==>
        slot == FirstFree(old(Tuples())) && Tuples() == WithTuple(old(Tuples()), slot, Stored(bytes, false))
      ensures SameBelow(old(data[..]), data[..], 16)
    {
      var fsp := GetWord(OFFSET_FREE_SPACE);
      var count := GetWord(OFFSET_TUPLE_COUNT);
      slot := 0;
      FreeSpaceIsFreeOf(data[..], dir);
      if fsp - HEADER - 8 * count < |bytes| + SIZE_TUPLE {
        return false, 0;
      }
      slot := FindEmptySlot();
      ClaimSpace(slot, fsp, bytes);
      ok := true;
    }

    /** The loop that looks for a slot whose tuple has size zero. */
    method FindEmptySlot() returns (i: nat)
      requires Valid()
      ensures FirstEmpty(dir.slots, i) && i == FirstFree(Tuples())
    {
      var count := GetWord(OFFSET_TUPLE_COUNT);
      i := 0;
      while i < count
        invariant 0 <= i <= count
        invariant forall j :: 0 <= j < i ==> dir.slots[j].Used()
      {
        var w := GetWord(SizeAt(i));
        if w == 0 {
          break;
        }
        i := i + 1;
      }
      FirstEmptyIsFree(data[..], dir, i);
    }

    method ClaimSpace(slot: nat, fsp: int, bytes: seq<byte>)
      requires Valid() && FirstEmpty(dir.slots, slot) && fsp == dir.fsp
      requires 0 < |bytes| && |bytes| + SIZE_TUPLE <= FreeSpaceRemaining(dir)
      modifies this, data
      ensures Valid() && dir == Inserted(old(dir), slot, |bytes|)
      ensures Tuples() == WithTuple(old(Tuples()), slot, Stored(bytes, false))
      ensures SameBelow(old(data[..]), data[..], 16)
    {
      ghost var s, d := data[..], dir;
      ClaimAndFill(slot, fsp, bytes, d);
      ghost var t := data[..];
      InsertOk(s, t, d, slot, bytes);
      dir := Inserted(d, slot, |bytes|);
    }

    method ClaimAndFill(slot: nat, fsp: int, bytes: seq<byte>, ghost d: Dir)
      requires data.Length == PAGE_SIZE && Spells(data[..], d) && slot <= |d.slots| && fsp == d.fsp <= PAGE_SIZE
      requires 0 < |bytes| && |bytes| + SIZE_TUPLE <= FreeSpaceRemaining(d)
      modifies data
      ensures Spells(data[..], Inserted(d, slot, |bytes|)) && SameBelow(old(data[..]), data[..], 16)
      ensures SameFrom(old(data[..]), data[..], fsp) && HoldsAt(data[..], fsp - |bytes|, bytes)
    {
      ghost var s := data[..];
      ClaimBytes(fsp, bytes, d);
      ghost var s2 := data[..];
      ghost var end := OffsetAt(|d.slots| + 1);
      assert end <= fsp - |bytes| && |d.slots| < MAX_SLOTS;
      FillSlot(slot, fsp - |bytes|, |bytes|, Dir(d.fsp - |bytes|, d.slots));
      ghost var t := data[..];
      assert Spells(t, Inserted(d, slot, |bytes|));
      FilledAfterClaim(s, s2, t, fsp, bytes, end);
    }

    /** Lowers the free-space pointer and writes the tuple there. */
    method ClaimBytes(fsp: int, bytes: seq<byte>, ghost d: Dir)
      requires data.Length == PAGE_SIZE && Spells(data[..], d) && fsp == d.fsp <= PAGE_SIZE
      requires |bytes| <= FreeSpaceRemaining(d)
      modifies data
      ensures Spells(data[..], Dir(fsp - |bytes|, d.slots))
      ensures SameFrom(old(data[..]), data[..], fsp) && HoldsAt(data[..], fsp - |bytes|, bytes)
      ensures SameBelow(old(data[..]), data[..], 16)
    {
      ghost var s := data[..];
      SetWord(OFFSET_FREE_SPACE, fsp - |bytes|);
      ghost var s1 := data[..];
      WriteBytes(fsp - |bytes|, bytes);
      ClaimSpells(s, s1, data[..], d, bytes);
    }

    /** Writes the words of a slot, which may be the one after the last. */
    method FillSlot(slot: nat, off: int, size: int, ghost d: Dir)
      requires data.Length == PAGE_SIZE && Spells(data[..], d) && slot <= |d.slots| < MAX_SLOTS
      requires 0 <= off < WORD_LIMIT && 0 <= size < WORD_LIMIT
      modifies data
      ensures Spells(data[..], Dir(d.fsp, PutSlot(d.slots, slot, Slot(off, size))))
      ensures SameBelow(old(data[..]), data[..], 16) && SameFrom(old(data[..]), data[..], OffsetAt(|d.slots| + 1))
    {
      var count := GetWord(OFFSET_TUPLE_COUNT);
      ghost var s := data[..];
      SetWord(OffsetAt(slot), off);
      ghost var s1 := data[..];
      SetWord(SizeAt(slot), size);
      ghost var s2 := data[..];
      if slot == count {
        SetWord(OFFSET_TUPLE_COUNT, count + 1);
        AppendSpells(s, s1, s2, data[..], d, off, size);
      } else {
        ReuseSpells(s, s1, s2, d, slot, off, size);
      }
    }

    /** `MarkDelete` sets the delete flag of a live tuple and refuses everything else. */
    method MarkDelete(slot: nat) returns (ok: bool)
      requires Valid()
      modifies this, data
      ensures Valid()
      ensures ok <==> LiveAt(old(Tuples()), slot)
      ensures ok ==> Tuples() == Flagged(old(Tuples()), slot, true)
      ensures !ok ==> data[..] == old(data[..]) && dir == old(dir)
      ensures SameBelow(old(data[..]), data[..], 16) && dir.fsp == old(dir.fsp)
    {
      var count := GetWord(OFFSET_TUPLE_COUNT);
      if slot >= count {
        return false;
      }
      var w := GetWord(SizeAt(slot));
      assert SpellsSlot(data[..], dir.slots[slot], slot);
      if IsDeleted(w) {
        return false;
      }
      SetFlag(slot, SetDeletedFlag(w));
      ok := true;
    }

    /** `RollbackDelete` clears the delete flag, if set. */
    method RollbackDelete(slot: nat)
      requires Valid() && slot < |dir.slots|
      modifies this, data
      ensures Valid()
      ensures Tuples() == Flagged(old(Tuples()), slot, false)
      ensures SameBelow(old(data[..]), data[..], 16) && dir.fsp == old(dir.fsp)
    {
      var w := GetWord(SizeAt(slot));
      assert SpellsSlot(data[..], dir.slots[slot], slot);
      if IsDeleted(w) && w != 0 {
        SetFlag(slot, UnsetDeletedFlag(w));
      }
    }

    method SetFlag(slot: nat, w: int)
      requires Valid() && slot < |dir.slots| && dir.slots[slot].Used()
      requires w == SetDeletedFlag(dir.slots[slot].w) || w == UnsetDeletedFlag(dir.slots[slot].w)
      modifies this, data
      ensures Valid() && dir.fsp == old(dir.fsp) && SameBelow(old(data[..]), data[..], 16)
      ensures Tuples() == old(Tuples())[slot := Stored(old(Tuples())[slot].bytes, w >= DELETE_MASK)]
    {
      ghost var s := data[..];
      SetWord(SizeAt(slot), w);
      FlagOk(s, data[..], dir, slot, w);
      dir := Dir(dir.fsp, dir.slots[slot := Slot(dir.slots[slot].off, w)]);
    }

    /** `GetTuple` reads live tuples only. */
    method GetTuple(slot: nat) returns (ok: bool, bytes: seq<byte>)
      requires Valid()
      ensures ok <==> LiveAt(Tuples(), slot)
      ensures ok ==> bytes == Tuples()[slot].bytes
    {
      var count := GetWord(OFFSET_TUPLE_COUNT);
      if slot >= count {
        return false, [];
      }
      var w := GetWord(SizeAt(slot));
      assert SpellsSlot(data[..], dir.slots[slot], slot);
      if IsDeleted(w) {
        return false, [];
      }
      var off := GetWord(OffsetAt(slot));
      return true, data[off..off + w];
    }

    /** The first live slot from `from` on: `GetFirstTupleRid` from 0, `GetNextTupleRid` from the slot after. */
    method NextLive(from: nat) returns (found: bool, slot: nat)
      requires Valid()
      ensures found <==> FirstLive(Tuples(), from) < |Tuples()|
      ensures found ==> slot == FirstLive(Tuples(), from)
    {
      var count := GetWord(OFFSET_TUPLE_COUNT);
      slot := from;
      ghost var ts := Tuples();
      while slot < count
        invariant from <= slot && FirstLive(ts, from) == FirstLive(ts, slot)
      {
        var w := GetWord(SizeAt(slot));
        LiveBySize(data[..], dir, slot);
        if !IsDeleted(w) {
          return true, slot;
        }
        slot := slot + 1;
      }
      return false, 0;
    }

    /** The loops that add `delta` to the offset of every used slot below `limit`. */
    method FixOffsets(limit: int, delta: int, ghost d: Dir)
      requires FixReady(data[..], d, limit, delta)
      modifies data
      ensures FixedUp(old(data[..]), data[..], d, limit, delta, |d.slots|)
    {
      var count := GetWord(OFFSET_TUPLE_COUNT);
      var i := 0;
      ghost var s := data[..];
      FixedStart(s, d, limit, delta);
      while i < count
        invariant 0 <= i <= count == |d.slots|
        invariant FixedUp(s, data[..], d, limit, delta, i)
      {
        FixOffset(i, limit, delta, d, s);
        i := i + 1;
      }
    }

    method FixOffset(i: nat, limit: int, delta: int, ghost d: Dir, ghost s: seq<byte>)
      requires i < |d.slots| && FixFits(d.slots, limit, delta) && FixedUp(s, data[..], d, limit, delta, i)
      modifies data
      ensures FixedUp(s, data[..], d, limit, delta, i + 1)
    {
      ghost var t := data[..];
      FixedRead(s, t, d, limit, delta, i);
      var off := GetWord(OffsetAt(i));
      var w := GetWord(SizeAt(i));
      if w != 0 && off < limit {
        SetWord(OffsetAt(i), off + delta);
      }
      FixedStep(s, t, data[..], d, limit, delta, i);
    }

    /** `UpdateTuple`: -1 for a slot without a live tuple, 0 when the new tuple does not fit, 1 when the tuple
        was replaced in place, whether it grew or shrank. */
    method UpdateTuple(slot: nat, bytes: seq<byte>) returns (res: int)
      requires Valid() && |bytes| > 0
      modifies this, data
      ensures Valid()
      ensures res == UpdateCode(old(Tuples()), slot, bytes)
      ensures res == 1 ==> Tuples() == WithTuple(old(Tuples()), slot, Stored(bytes, false))
      ensures res != 1 ==> data[..] == old(data[..]) && dir == old(dir)
      ensures SameBelow(old(data[..]), data[..], 16)
    {
      var count := GetWord(OFFSET_TUPLE_COUNT);
      if slot >= count {
        return -1;
      }
      var size := GetWord(SizeAt(slot));
      assert SpellsSlot(data[..], dir.slots[slot], slot);
      if IsDeleted(size) {
        return -1;
      }
      var fsp := GetWord(OFFSET_FREE_SPACE);
      FreeSpaceIsFreeOf(data[..], dir);
      if fsp - HEADER - 8 * count + size < |bytes| {
        return 0;
      }
      Replace(slot, bytes);
      res := 1;
    }

    method Replace(slot: nat, bytes: seq<byte>)
      requires Valid() && slot < |dir.slots| && dir.slots[slot].Used() && dir.slots[slot].w < DELETE_MASK
      requires 0 < |bytes| <= FreeSpaceRemaining(dir) + dir.slots[slot].Len()
      modifies this, data
      ensures Valid() && dir == Shifted(old(dir), slot, |bytes|)
      ensures Tuples() == old(Tuples())[slot := Stored(bytes, false)] && SameBelow(old(data[..]), data[..], 16)
    {
      assert SpellsSlot(data[..], dir.slots[slot], slot);
      var off := GetWord(OffsetAt(slot));
      var size := GetWord(SizeAt(slot));
      ghost var s, d := data[..], dir;
      GetReady(s, d, slot, off, size, bytes);
      ReplaceAndFix(slot, off, size, bytes, d);
      ReplaceOk(s, data[..], d, slot, off, size, bytes);
      dir := Shifted(d, slot, |bytes|);
    }

    method ReplaceAndFix(slot: nat, off: int, size: int, bytes: seq<byte>, ghost d: Dir)
      requires ReplaceReady(data[..], d, slot, off, size, bytes)
      modifies data
      ensures ReplaceDone(old(data[..]), data[..], d, slot, off, size, bytes)
    {
      ghost var s := data[..];
      ReplaceBytes(slot, off, size, bytes, d);
      FixMoved(slot, off, size, bytes, d, s);
    }

    /** The offset fix-up of an update; `s` are the bytes before the update. */
    method FixMoved(slot: nat, off: int, size: int, bytes: seq<byte>, ghost d: Dir, ghost s: seq<byte>)
      requires BytesMoved(s, data[..], d, slot, off, size, bytes)
      modifies data
      ensures ReplaceDone(s, data[..], d, slot, off, size, bytes)
    {
      ghost var s4 := data[..];
      MovedReady(s, s4, d, slot, off, size, bytes);
      FixOffsets(off + size, size - |bytes|, ReplacedHead(d, slot, |bytes|));
      FixDone(s, s4, data[..], d, slot, off, size, bytes);
    }

    /** The byte moves of an update, before the offsets are fixed. */
    method ReplaceBytes(slot: nat, off: int, size: int, bytes: seq<byte>, ghost d: Dir)
      requires ReplaceReady(data[..], d, slot, off, size, bytes)
      modifies data
      ensures BytesMoved(old(data[..]), data[..], d, slot, off, size, bytes)
    {
      ghost var s := data[..];
      SlideBytes(off, size - |bytes|, d);
      ghost var s2 := data[..];
      StoreBytes(slot, off + size - |bytes|, bytes, Dir(d.fsp + size - |bytes|, d.slots));
      ReplacedInTwo(s, s2, data[..], d.fsp, off, size, bytes);
    }

    /** Slides the tuples stored below `off` by `delta` and moves the free-space pointer with them. */
    method SlideBytes(off: int, delta: int, ghost d: Dir)
      requires data.Length == PAGE_SIZE && Spells(data[..], d) && d.fsp <= off <= PAGE_SIZE
      requires OffsetAt(|d.slots|) <= d.fsp && OffsetAt(|d.slots|) <= d.fsp + delta && off + delta <= PAGE_SIZE
      modifies data
      ensures Spells(data[..], Dir(d.fsp + delta, d.slots))
      ensures HoldsAt(data[..], d.fsp + delta, old(data[..])[d.fsp..off])
      ensures SameFrom(old(data[..]), data[..], off + delta) && SameBelow(old(data[..]), data[..], 16)
    {
      ghost var s := data[..];
      var fsp := GetWord(OFFSET_FREE_SPACE);
      MoveBytes(fsp + delta, fsp, off - fsp);
      ghost var s1 := data[..];
      SpellsElsewhere(s, s1, d, fsp + delta, off - fsp);
      SetWord(OFFSET_FREE_SPACE, fsp + delta);
      SpellsFsp(s1, data[..], d, fsp + delta);
      assert data[..][fsp + delta..off + delta] == s1[fsp + delta..off + delta];
    }

    method StoreBytes(slot: nat, at: int, bytes: seq<byte>, ghost d: Dir)
      requires data.Length == PAGE_SIZE && Spells(data[..], d) && slot < |d.slots| && 0 <= |bytes| < WORD_LIMIT
      requires OffsetAt(|d.slots|) <= d.fsp <= at && at + |bytes| <= PAGE_SIZE
      modifies data
      ensures Spells(data[..], Dir(d.fsp, d.slots[slot := Slot(d.slots[slot].off, |bytes|)]))
      ensures HoldsAt(data[..], at, bytes) && SameBelow(old(data[..]), data[..], 16)
      ensures SameFromOutside(old(data[..]), data[..], d.fsp, at, |bytes|)
    {
      ghost var s := data[..];
      WriteBytes(at, bytes);
      ghost var s1 := data[..];
      SpellsElsewhere(s, s1, d, at, |bytes|);
      SetWord(SizeAt(slot), |bytes|);
      SpellsSize(s1, data[..], d, slot, |bytes|);
      assert data[..][at..at + |bytes|] == s1[at..at + |bytes|];
    }

    /** `ApplyDelete`: the slot becomes empty and the tuples below move up over the freed bytes. */
    method ApplyDelete(slot: nat)
      requires Valid() && slot < |dir.slots| && Tuples()[slot].Stored?
      modifies this, data
      ensures Valid() && Tuples() == WithTuple(old(Tuples()), slot, Empty) && SameBelow(old(data[..]), data[..], 16)
      ensures dir.fsp == old(dir.fsp) + |old(Tuples())[slot].bytes| && |dir.slots| == |old(dir.slots)|
    {
      ghost var s, d := data[..], dir;
      assert SpellsSlot(s, d.slots[slot], slot);
      var off := GetWord(OffsetAt(slot));
      var size := GetWord(SizeAt(slot));
      size := if IsDeleted(size) then UnsetDeletedFlag(size) else size;
      ReplaceBounds(d, slot, 0);
      FixBounds(d, slot, 0);
      DeleteAndFix(slot, off, size, d);
      DeleteOk(s, data[..], d, slot);
      dir := Shifted(d, slot, 0);
    }

    method DeleteAndFix(slot: nat, off: int, size: int, ghost d: Dir)
      requires data.Length == PAGE_SIZE && Spells(data[..], d) && slot < |d.slots|
      requires OffsetAt(|d.slots|) <= d.fsp <= off && 0 < size && off + size <= PAGE_SIZE
      requires FixFits(d.slots[slot := Slot(0, 0)], off, size)
      modifies data
      ensures Spells(data[..], Dir(d.fsp + size, Fixed(d.slots[slot := Slot(0, 0)], off, size, |d.slots|)))
      ensures Replaced(old(data[..]), data[..], d.fsp, off, size, []) && SameBelow(old(data[..]), data[..], 16)
    {
      ghost var s := data[..];
      SlideBytes(off, size, d);
      ghost var s2, d2 := data[..], Dir(d.fsp + size, d.slots);
      SetWord(SizeAt(slot), 0);
      ghost var s3 := data[..];
      SetWord(OffsetAt(slot), 0);
      ghost var s4 := data[..];
      ClearSpells(s2, s3, s4, d2, slot);
      FixOffsets(off, size, Dir(d.fsp + size, d.slots[slot := Slot(0, 0)]));
      DeletedInTwo(s, s2, s3, s4, data[..], d.fsp, off, size, slot, |d.slots|);
    }
  }
}
