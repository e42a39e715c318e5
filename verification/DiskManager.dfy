/** The database file: a meta page, then extents of one bitmap page and 32704 data pages each. */
module DiskLayout {
  import opened Bitmap

  /** A page of 4096 bytes. */
  type Block = b: seq<bv8> | |b| == 4096 witness seq(4096, _ => 0)

  /** As many extents as the meta page has room to count. */
  const MAX_EXTENTS := 1022

  function Zeroes(): (b: Block)
    ensures forall i :: 0 <= i < 4096 ==> b[i] == 0
  {
    seq(4096, _ => 0)
  }

  datatype Meta = Meta(granted: int, extents: int, used: seq<int>)

  /** `meta` is the copy in memory, `saved` what physical page 0 holds; `blocks` are the other physical
      pages written so far. */
  datatype Disk = Disk(meta: Meta, saved: Meta, blocks: map<int, Block>)

  predicate DiskOk(d: Disk) {
    && 0 <= d.meta.extents <= MAX_EXTENTS && |d.meta.used| == MAX_EXTENTS
    && d.saved.extents == d.meta.extents && |d.saved.used| == MAX_EXTENTS
  }

  // ---------- Physical page numbers ----------

  function BitmapAt(i: int): int {
    i * 32705 + 1
  }

  function MapPageId(l: int): int {
    (l / 32704) * 32705 + l % 32704 + 2
  }

  lemma MapInjective(l: int, m: int)
    requires 0 <= l && 0 <= m && MapPageId(l) == MapPageId(m)
    ensures l == m
  {
  }

  /** Logical pages lie in order; with the bitmap pages left out (`Partition`), there is one way to do that. */
  lemma MapIncreases(l: int, m: int)
    requires 0 <= l < m
    ensures MapPageId(l) < MapPageId(m)
  {
  }

  lemma MapMissesBitmaps(l: int, i: int)
    requires 0 <= l && 0 <= i
    ensures MapPageId(l) != BitmapAt(i) && MapPageId(l) > 0 && BitmapAt(i) > 0
  {
  }

  /** Which data page, if any, a physical page number is: the inverse of MapPageId. */
  function LogicalOf(p: int): int {
    ((p - 1) / 32705) * 32704 + (p - 1) % 32705 - 1
  }

  predicate IsBitmap(p: int) {
    p > 0 && (p - 1) % 32705 == 0
  }

  /** The meta page, the bitmap pages and the data pages share out all physical page numbers. */
  lemma Partition(p: int)
    requires p >= 0
    ensures p == 0 ==> (forall i :: 0 <= i ==> BitmapAt(i) != p) && (forall l :: 0 <= l ==> MapPageId(l) != p)
    ensures IsBitmap(p) <==> exists i :: 0 <= i && BitmapAt(i) == p
    ensures p > 0 && !IsBitmap(p) <==> exists l :: 0 <= l && MapPageId(l) == p
    ensures forall l :: 0 <= l && MapPageId(l) == p ==> l == LogicalOf(p)
  {
    forall l | 0 <= l ensures MapPageId(l) > 0 && !IsBitmap(MapPageId(l)) && LogicalOf(MapPageId(l)) == l {
      assert (MapPageId(l) - 1) % 32705 == l % 32704 + 1 && (MapPageId(l) - 1) / 32705 == l / 32704;
    }
    forall i | 0 <= i ensures IsBitmap(BitmapAt(i)) {
      assert (BitmapAt(i) - 1) % 32705 == 0;
    }
    if IsBitmap(p) {
      assert BitmapAt((p - 1) / 32705) == p;
    } else if p > 0 {
      var l := LogicalOf(p);
      assert l / 32704 == (p - 1) / 32705 && l % 32704 == (p - 1) % 32705 - 1;
      assert MapPageId(l) == p;
    }
  }

  // ---------- Reading, writing, free pages ----------

  function PhysRead(d: Disk, p: int): Block {
    if p in d.blocks then d.blocks[p] else Zeroes()
  }

  /** The contents of a logical page. */
  function Read(d: Disk, l: int): Block {
    PhysRead(d, MapPageId(l))
  }

  function Written(d: Disk, l: int, b: Block): Disk {
    d.(blocks := d.blocks[MapPageId(l) := b])
  }

  ghost predicate Free(d: Disk, l: int) {
    l / 32704 >= d.meta.extents || l % 32704 !in Taken(PhysRead(d, BitmapAt(l / 32704)))
  }

  /** Writing a logical page changes that page alone, and which pages are free not at all. */
  lemma WriteOne(d: Disk, l: int, b: Block)
    requires 0 <= l
    ensures Read(Written(d, l, b), l) == b
    ensures forall q :: 0 <= q && q != l ==> Read(Written(d, l, b), q) == Read(d, q)
    ensures forall q :: 0 <= q ==> (Free(Written(d, l, b), q) <==> Free(d, q))
    ensures Counted(d) ==> Counted(Written(d, l, b))
  {
    var e := Written(d, l, b);
    forall q | 0 <= q && q != l ensures Read(e, q) == Read(d, q) {
      if MapPageId(q) == MapPageId(l) {
        MapInjective(q, l);
      }
    }
    forall i | 0 <= i ensures PhysRead(e, BitmapAt(i)) == PhysRead(d, BitmapAt(i)) {
      MapMissesBitmaps(l, i);
    }
    assert Allocated(e) == Allocated(d);
  }

  // ---------- The counters ----------

  ghost function Allocated(d: Disk): set<int> {
    set l | 0 <= l < d.meta.extents * 32704 && !Free(d, l)
  }

  /** The counters in memory equal the numbers of set bits, in total and per extent. */
  ghost predicate Counted(d: Disk) {
    && |d.meta.used| == MAX_EXTENTS && d.meta.granted == |Allocated(d)|
    && forall i :: 0 <= i < MAX_EXTENTS ==>
      d.meta.used[i] == if i < d.meta.extents then |Taken(PhysRead(d, BitmapAt(i)))| else 0
  }

  /** What DeAllocatePage does: no bitmap or page changes; a page that was taken is counted as gone, and the meta
      page is saved. */
  ghost predicate Uncounts(d: Disk, l: int, e: Disk) {
    var i := l / 32704;
    && e.blocks == d.blocks && e.saved == e.meta && e.meta.extents == d.meta.extents
    && (if Free(d, l) || !(0 <= i < |d.meta.used|) then e.meta == d.meta
        else e.meta.granted == d.meta.granted - 1 && e.meta.used == d.meta.used[i := d.meta.used[i] - 1])
  }

  /** What AllocatePage does: it grants the least free page l and changes nothing else. */
  ghost predicate Grants(d: Disk, l: int, e: Disk) {
    && DiskOk(e) && 0 <= l && Free(d, l) && (forall q :: 0 <= q < l ==> !Free(d, q))
    && (forall q :: 0 <= q ==> (Free(e, q) <==> Free(d, q) && q != l))
    && (forall q :: 0 <= q ==> Read(e, q) == Read(d, q))
    && (Counted(d) ==> Counted(e))
  }

  /** Some page of an existing extent is free, or another extent can be counted. */
  ghost predicate Room(d: Disk) {
    d.meta.extents < MAX_EXTENTS || exists l :: 0 <= l < d.meta.extents * 32704 && Free(d, l)
  }

  ghost predicate FullUpTo(b: seq<bv8>, n: int) {
    forall k :: 0 <= k < n ==> k in Taken(b)
  }

  ghost predicate FullExtent(d: Disk, i: int) {
    FullUpTo(PhysRead(d, BitmapAt(i)), 32704)
  }

  lemma FullBelow(d: Disk, n: int, q: int)
    requires 0 <= q < n * 32704 && n <= d.meta.extents
    requires forall i :: 0 <= i < n ==> FullExtent(d, i)
    ensures !Free(d, q)
  {
    assert 0 <= q / 32704 < n;
    assert FullExtent(d, q / 32704);
  }

  /** The disk with the bitmap of extent i rewritten, and the counters moved on. */
  function Taking(d: Disk, i: int, b: Block): Disk
    requires 0 <= i < |d.meta.used|
  {
    var meta := d.meta.(granted := d.meta.granted + 1, used := d.meta.used[i := d.meta.used[i] + 1],
                        extents := if i == d.meta.extents then i + 1 else d.meta.extents);
    Disk(meta, if i == d.meta.extents then meta else d.saved, d.blocks[BitmapAt(i) := b])
  }

  /** The bitmap that a grant in extent i starts from. */
  function BitmapFrom(d: Disk, i: int): Block {
    if i == d.meta.extents then Zeroes() else PhysRead(d, BitmapAt(i))
  }

  lemma TakingReads(d: Disk, i: int, b: Block)
    requires DiskOk(d) && 0 <= i < MAX_EXTENTS
    ensures forall q :: 0 <= q ==> Read(Taking(d, i, b), q) == Read(d, q)
    ensures forall m :: 0 <= m ==>
      PhysRead(Taking(d, i, b), BitmapAt(m)) == if m == i then b else PhysRead(d, BitmapAt(m))
  {
  }

  lemma TakingFrees(d: Disk, i: int, b: Block, k: int, q: int)
    requires DiskOk(d) && 0 <= i < MAX_EXTENTS && i <= d.meta.extents && 0 <= k < 32704 && 0 <= q
    requires Taken(b) == Taken(BitmapFrom(d, i)) + {k}
    ensures Free(Taking(d, i, b), q) <==> Free(d, q) && q != i * 32704 + k
  {
    SameNumber(q, i, k);
    ZeroTaken(Zeroes());
    assert PhysRead(Taking(d, i, b), BitmapAt(q / 32704))
      == if q / 32704 == i then b else PhysRead(d, BitmapAt(q / 32704));
  }

  lemma SameNumber(q: int, i: int, k: int)
    requires 0 <= k < 32704
    ensures q == i * 32704 + k <==> q / 32704 == i && q % 32704 == k
  {
  }

  lemma TakingAllocates(d: Disk, i: int, b: Block, k: int)
    requires DiskOk(d) && 0 <= i < MAX_EXTENTS && i <= d.meta.extents && 0 <= k < 32704
    requires Taken(b) == Taken(BitmapFrom(d, i)) + {k}
    ensures Allocated(Taking(d, i, b)) == Allocated(d) + {i * 32704 + k}
  {
    var e := Taking(d, i, b);
    var l := i * 32704 + k;
    forall q ensures q in Allocated(e) <==> q in Allocated(d) + {l} {
      if 0 <= q {
        TakingFrees(d, i, b, k, q);
        assert !Free(d, q) ==> q < d.meta.extents * 32704;
      }
    }
  }

  lemma TakingUses(d: Disk, i: int, b: Block, k: int, m: int)
    requires DiskOk(d) && Counted(d) && 0 <= i < MAX_EXTENTS && i <= d.meta.extents && 0 <= m < MAX_EXTENTS
    requires Taken(b) == Taken(BitmapFrom(d, i)) + {k} && k !in Taken(BitmapFrom(d, i))
    ensures var e := Taking(d, i, b);
            e.meta.used[m] == if m < e.meta.extents then |Taken(PhysRead(e, BitmapAt(m)))| else 0
  {
  }

  lemma TakingTotal(d: Disk, i: int, b: Block, k: int)
    requires DiskOk(d) && 0 <= i < MAX_EXTENTS && i <= d.meta.extents && 0 <= k < 32704
    requires Taken(b) == Taken(BitmapFrom(d, i)) + {k} && k !in Taken(BitmapFrom(d, i))
    ensures |Allocated(Taking(d, i, b))| == |Allocated(d)| + 1
  {
    FreeAt(d, i, k);
    TakingAllocates(d, i, b, k);
    OneMore(Allocated(d), i * 32704 + k);
  }

  lemma OneMore(a: set<int>, x: int)
    requires x !in a
    ensures |a + {x}| == |a| + 1
  {
  }

  lemma FreeAt(d: Disk, i: int, k: int)
    requires 0 <= i <= d.meta.extents && 0 <= k < 32704
    ensures Free(d, i * 32704 + k) <==> k !in Taken(BitmapFrom(d, i))
  {
  }

  lemma TakingCounts(d: Disk, i: int, b: Block, k: int)
    requires DiskOk(d) && Counted(d) && 0 <= i < MAX_EXTENTS && i <= d.meta.extents && 0 <= k < 32704
    requires Taken(b) == Taken(BitmapFrom(d, i)) + {k} && k !in Taken(BitmapFrom(d, i))
    ensures Counted(Taking(d, i, b))
  {
    var e := Taking(d, i, b);
    TakingTotal(d, i, b, k);
    forall m | 0 <= m < MAX_EXTENTS
      ensures e.meta.used[m] == if m < e.meta.extents then |Taken(PhysRead(e, BitmapAt(m)))| else 0
    {
      TakingUses(d, i, b, k, m);
    }
  }

  lemma NoneBelow(d: Disk, i: int, k: int, q: int)
    requires DiskOk(d) && 0 <= i <= d.meta.extents && 0 <= k < 32704 && 0 <= q < i * 32704 + k
    requires (forall m :: 0 <= m < i ==> FullExtent(d, m)) && FullUpTo(BitmapFrom(d, i), k)
    ensures !Free(d, q)
  {
    if q >= i * 32704 {
      FreeAt(d, i, q - i * 32704);
    } else {
      FullBelow(d, i, q);
    }
  }

  lemma TakingGrants(d: Disk, i: int, b: Block, k: int)
    requires DiskOk(d) && 0 <= i < MAX_EXTENTS && i <= d.meta.extents && 0 <= k < 32704
    requires forall m :: 0 <= m < i ==> FullExtent(d, m)
    requires Taken(b) == Taken(BitmapFrom(d, i)) + {k} && k !in Taken(BitmapFrom(d, i))
    requires FullUpTo(BitmapFrom(d, i), k)
    ensures Grants(d, i * 32704 + k, Taking(d, i, b))
  {
    var l := i * 32704 + k;
    FreeAt(d, i, k);
    TakingReads(d, i, b);
    forall q | 0 <= q ensures Free(Taking(d, i, b), q) <==> Free(d, q) && q != l {
      TakingFrees(d, i, b, k, q);
    }
    forall q | 0 <= q < l ensures !Free(d, q) {
      NoneBelow(d, i, k, q);
    }
    if Counted(d) {
      TakingCounts(d, i, b, k);
    }
  }

  /** In every run of allocations on a new file the pages come in order, and the counters stay right. */
  lemma {:induction false} RunOfGrants(disks: seq<Disk>, pages: seq<int>, n: nat)
    requires |disks| == |pages| + 1 && n <= |pages|
    requires Counted(disks[0]) && forall l :: 0 <= l ==> Free(disks[0], l)
    requires forall i :: 0 <= i < |pages| ==> Grants(disks[i], pages[i], disks[i + 1])
    ensures Counted(disks[n]) && forall l :: 0 <= l ==> (Free(disks[n], l) <==> n <= l)
    ensures n < |pages| ==> pages[n] == n
    ensures forall l :: 0 <= l ==> Read(disks[n], l) == Read(disks[0], l)
  {
    if n > 0 {
      RunOfGrants(disks, pages, n - 1);
      assert Grants(disks[n - 1], pages[n - 1], disks[n - 1 + 1]);
    }
    if n < |pages| {
      assert Grants(disks[n], pages[n], disks[n + 1]);
      assert Free(disks[n], n) && Free(disks[n], pages[n]);
    }
  }
}

module DiskStore {
  import opened Bitmap
  import opened DiskLayout

  class DiskManager {
    var meta: Meta
    var saved: Meta
    var blocks: map<int, Block>

    function View(): Disk
      reads this
    {
      Disk(meta, saved, blocks)
    }

    /** A new file reads as zeroes, the meta page included. */
    constructor ()
      ensures DiskOk(View()) && Counted(View()) && meta.extents == 0 && saved == meta
      ensures forall l :: 0 <= l ==> Free(View(), l) && Read(View(), l) == Zeroes()
    {
      meta := Meta(0, 0, seq(MAX_EXTENTS, _ => 0));
      saved := Meta(0, 0, seq(MAX_EXTENTS, _ => 0));
      blocks := map[];
      new;
      assert Allocated(View()) == {};
    }

    /** Opening an existing file again: the meta page comes from disk. Every page is as free as before, and
        the counters are right exactly when they had all been saved. */
    constructor Reopen(before: DiskManager)
      requires DiskOk(before.View())
      ensures DiskOk(View()) && View() == before.View().(meta := before.saved)
      ensures forall l :: 0 <= l ==>
        (Free(View(), l) <==> Free(before.View(), l)) && Read(View(), l) == Read(before.View(), l)
      ensures Counted(before.View()) ==> (Counted(View()) <==> before.saved == before.meta)
    {
      meta := before.saved;
      saved := before.saved;
      blocks := before.blocks;
      new;
      forall l | 0 <= l ensures Free(View(), l) <==> Free(before.View(), l) {
        assert PhysRead(View(), BitmapAt(l / 32704)) == PhysRead(before.View(), BitmapAt(l / 32704));
      }
      assert Allocated(View()) == Allocated(before.View());
      assert forall i :: 0 <= i ==> PhysRead(View(), BitmapAt(i)) == PhysRead(before.View(), BitmapAt(i));
      if Counted(View()) && Counted(before.View()) {
        assert meta.used == before.meta.used;
      }
    }

    method ReadPhysicalPage(p: int, page: array<bv8>)
      requires page.Length == 4096
      modifies page
      ensures page[..] == PhysRead(View(), p)
    {
      var b := if p in blocks then blocks[p] else Zeroes();
      forall i | 0 <= i < 4096 {
        page[i] := b[i];
      }
    }

    method WritePhysicalPage(p: int, page: array<bv8>)
      requires page.Length == 4096
      modifies this`blocks
      ensures View() == old(View()).(blocks := old(blocks)[p := page[..]])
    {
      blocks := blocks[p := page[..]];
    }

    method WriteMeta()
      modifies this`saved
      ensures View() == old(View()).(saved := meta)
    {
      saved := meta;
    }

    method ReadPage(l: int) returns (b: Block)
      requires 0 <= l
      ensures b == Read(View(), l)
    {
      var page := new bv8[4096];
      ReadPhysicalPage(MapPageId(l), page);
      b := page[..];
    }

    method WritePage(l: int, b: Block)
      requires 0 <= l && DiskOk(View())
      modifies this
      ensures DiskOk(View()) && View() == Written(old(View()), l, b)
      ensures Read(View(), l) == b && forall q :: 0 <= q && q != l ==> Read(View(), q) == old(Read(View(), q))
      ensures forall q :: 0 <= q ==> (Free(View(), q) <==> old(Free(View(), q)))
    {
      WriteOne(View(), l, b);
      blocks := blocks[MapPageId(l) := b];
    }

    /** Reads the bitmap of extent i and takes its least free bit in the buffer. */
    method FitIn(i: int, page: array<bv8>) returns (ok: bool, k: int)
      requires page.Length == 4096 && 0 <= i < meta.extents
      modifies page
      ensures ok ==>
        0 <= k < 32704 && k !in Taken(BitmapFrom(View(), i)) && Taken(page[..]) == Taken(BitmapFrom(View(), i)) + {k}
      ensures FullUpTo(BitmapFrom(View(), i), if ok then k else 32704)
    {
      ReadPhysicalPage(BitmapAt(i), page);
      ok, k := FirstFit(page);
    }

    /** Moves the counters on and writes the bitmap, and for a new extent the meta page. */
    method Commit(i: int, page: array<bv8>)
      requires DiskOk(View()) && page.Length == 4096 && 0 <= i < MAX_EXTENTS && i <= meta.extents
      modifies this
      ensures View() == Taking(old(View()), i, page[..])
    {
      var isNew := i == meta.extents;
      meta := meta.(granted := meta.granted + 1, used := meta.used[i := meta.used[i] + 1],
                    extents := if isNew then i + 1 else meta.extents);
      WritePhysicalPage(BitmapAt(i), page);
      if isNew {
        WriteMeta();
      }
    }

    /** Page l was counted, in its extent and in all, and only that extent's bitmap was written; the meta page is
        saved only if the extent is new. */
    ghost predicate Counts(d: Disk, l: int)
      reads this
    {
      && meta.granted == d.meta.granted + 1 && 0 <= l / 32704 < |d.meta.used|
      && meta.used == d.meta.used[l / 32704 := d.meta.used[l / 32704] + 1]
      && (forall p :: p != BitmapAt(l / 32704) ==> PhysRead(View(), p) == PhysRead(d, p))
      && (if l / 32704 < d.meta.extents then meta.extents == d.meta.extents && saved == d.saved
          else meta.extents == d.meta.extents + 1 && saved == meta)
    }

    /** Takes a page of extent i, if one is free there. */
    method TakeIn(i: int) returns (ok: bool, l: int)
      requires DiskOk(View()) && 0 <= i < meta.extents && forall m :: 0 <= m < i ==> FullExtent(View(), m)
      modifies this
      ensures ok ==> Grants(old(View()), l, View()) && Counts(old(View()), l)
      ensures !ok ==> View() == old(View()) && FullExtent(View(), i)
    {
      var page := new bv8[4096];
      var offset;
      ok, offset := FitIn(i, page);
      l := offset + i * 32704;
      if ok {
        TakingGrants(View(), i, page[..], offset);
        SameNumber(l, i, offset);
        Commit(i, page);
      }
    }

    /** Takes the first page of a new extent. */
    method TakeNew() returns (l: int)
      requires DiskOk(View()) && meta.extents < MAX_EXTENTS && forall m :: 0 <= m < meta.extents ==>
        FullExtent(View(), m)
      modifies this
      ensures Grants(old(View()), l, View()) && Counts(old(View()), l)
    {
      var page := new bv8[4096];
      var i := meta.extents;
      var offset := FitBlank(page);
      l := offset + i * 32704;
      TakingGrants(View(), i, page[..], offset);
      SameNumber(l, i, offset);
      Commit(i, page);
    }

    /** Grants the least page that IsPageFree accepts, in a new extent when the existing ones are full. */
    method AllocatePage() returns (l: int)
      requires DiskOk(View()) && Room(View())
      modifies this
      ensures Grants(old(View()), l, View()) && Counts(old(View()), l)
    {
      ghost var d := View();
      var i := 0;
      while i < meta.extents
        invariant 0 <= i <= meta.extents && View() == d
        invariant forall m :: 0 <= m < i ==> FullExtent(d, m)
      {
        var ok;
        ok, l := TakeIn(i);
        if ok {
          return l;
        }
        i := i + 1;
      }
      NoRoomBelow(d);
      l := TakeNew();
    }

    method IsPageFree(l: int) returns (free: bool)
      requires 0 <= l && DiskOk(View())
      ensures free <==> Free(View(), l)
    {
      if l / 32704 < meta.extents {
        var page := new bv8[4096];
        ReadPhysicalPage(BitmapAt(l / 32704), page);
        var bitmap := new BitmapPage(page);
        free := bitmap.IsPageFree(l % 32704);
      } else {
        free := true;
      }
    }

    /** The changed bitmap is never written back: the page stays taken, and a counter that was right is wrong
        afterwards exactly when the page was taken. */
    method DeAllocatePage(l: int)
      requires 0 <= l && DiskOk(View())
      modifies this
      ensures DiskOk(View()) && Uncounts(old(View()), l, View())
      ensures forall q :: 0 <= q ==>
        (Free(View(), q) <==> old(Free(View(), q))) && Read(View(), q) == old(Read(View(), q))
      ensures old(Counted(View())) ==> (Counted(View()) <==> old(Free(View(), l)))
    {
      ghost var d := View();
      if l / 32704 < meta.extents {
        var page := new bv8[4096];
        ReadPhysicalPage(BitmapAt(l / 32704), page);
        var bitmap := new BitmapPage(page);
        var ok := bitmap.DeAllocatePage(l % 32704);
        if ok {
          var i := l / 32704;
          meta := meta.(granted := meta.granted - 1, used := meta.used[i := meta.used[i] - 1]);
        }
      }
      WriteMeta();
      SameBits(d, View());
    }
  }

  /** The buffer zeroed and the first free bit of that taken. */
  method FitBlank(page: array<bv8>) returns (k: int)
    requires page.Length == 4096
    modifies page
    ensures 0 <= k < 32704 && k !in Taken(Zeroes()) && Taken(page[..]) == Taken(Zeroes()) + {k} && FullUpTo(Zeroes(), k)
  {
    forall j | 0 <= j < 4096 {
      page[j] := 0;
    }
    assert page[..] == Zeroes();
    ZeroTaken(page[..]);
    var ok;
    ok, k := FirstFit(page);
  }

  /** The buffer read as a bitmap page, and its least free bit taken. */
  method FirstFit(page: array<bv8>) returns (ok: bool, k: int)
    requires page.Length == 4096
    modifies page
    ensures ok ==> 0 <= k < 32704 && k !in Taken(old(page[..])) && Taken(page[..]) == Taken(old(page[..])) + {k}
    ensures FullUpTo(old(page[..]), if ok then k else 32704)
    ensures 0 !in Taken(old(page[..])) ==> ok
  {
    var bitmap := new BitmapPage(page);
    ok, k := bitmap.AllocatePage();
  }

  lemma NoRoomBelow(d: Disk)
    requires DiskOk(d) && Room(d) && forall i :: 0 <= i < d.meta.extents ==> FullExtent(d, i)
    ensures d.meta.extents < MAX_EXTENTS
  {
    forall q | 0 <= q < d.meta.extents * 32704 ensures !Free(d, q) {
      FullBelow(d, d.meta.extents, q);
    }
  }

  lemma SameBits(d: Disk, e: Disk)
    requires e.blocks == d.blocks && e.meta.extents == d.meta.extents
    ensures forall q :: 0 <= q ==> (Free(e, q) <==> Free(d, q)) && Read(e, q) == Read(d, q)
    ensures Allocated(e) == Allocated(d)
    ensures forall i :: PhysRead(e, BitmapAt(i)) == PhysRead(d, BitmapAt(i))
  {
  }
}
