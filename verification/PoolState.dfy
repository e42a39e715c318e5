/** The buffer pool's state and steps as values: a cache of pages that must agree with the disk below it. */
module PoolState {
  import opened DiskLayout
  import opened LruReplacer

  const NO_PAGE := -1

  datatype Frame = Frame(page: int, pins: int, dirty: bool, data: Block)

  datatype Pool = Pool(frames: seq<Frame>, table: map<int, FrameId>, free: seq<FrameId>, lru: seq<FrameId>, disk: Disk)

  // ---------- The invariant ----------

  /** Each frame is exactly one of free, pinned, or in the replacer, and the table finds a frame in use. */
  ghost predicate FrameOk(s: Pool, f: FrameId) {
    0 <= f < |s.frames| ==>
      var fr := s.frames[f];
      && 0 <= fr.pins
      && (fr.page == NO_PAGE <==> f in s.free)
      && (f in s.free ==> fr.pins == 0 && !fr.dirty)
      && (f in s.lru <==> fr.pins == 0 && f !in s.free)
      && (f !in s.free ==> fr.page in s.table && s.table[fr.page] == f)
  }

  ghost predicate EntryOk(s: Pool, p: int) {
    p in s.table ==> 0 <= p && 0 <= s.table[p] < |s.frames| && s.frames[s.table[p]].page == p
  }

  predicate InRange(s: seq<FrameId>, n: int) {
    forall i :: 0 <= i < |s| ==> 0 <= s[i] < n
  }

  ghost predicate PoolOk(s: Pool) {
    && (forall f :: FrameOk(s, f))
    && (forall p :: EntryOk(s, p))
    && InRange(s.free, |s.frames|) && InRange(s.lru, |s.frames|)
    && NoRepeats(s.free) && NoRepeats(s.lru)
    && DiskOk(s.disk)
  }

  /** No two pages share a frame. */
  lemma TableInjective(s: Pool, p: int, q: int)
    requires PoolOk(s) && p in s.table && q in s.table && s.table[p] == s.table[q]
    ensures p == q
  {
    assert EntryOk(s, p) && EntryOk(s, q);
  }

  /** What a page holds, cache or no cache. */
  function Content(s: Pool, p: int): Block {
    if p in s.table && 0 <= s.table[p] < |s.frames| then s.frames[s.table[p]].data else Read(s.disk, p)
  }

  /** Evicting the frame would lose nothing. */
  predicate Synced(s: Pool, f: FrameId) {
    0 <= f < |s.frames| ==> s.frames[f].dirty || s.frames[f].data == Read(s.disk, s.frames[f].page)
  }

  /** Every frame that may be evicted is synced. */
  ghost predicate Coherent(s: Pool) {
    forall f :: f in s.lru ==> Synced(s, f)
  }

  /** Every cached page is one the disk has granted. */
  ghost predicate Owned(s: Pool) {
    forall p :: p in s.table ==> !Free(s.disk, p)
  }

  /** Two states that every reader of pages sees alike. */
  ghost predicate SameContent(s: Pool, t: Pool) {
    forall q :: 0 <= q ==> Content(t, q) == Content(s, q)
  }

  // ---------- The steps ----------

  function Flushed(s: Pool, p: int): Pool {
    if p in s.table && 0 <= s.table[p] < |s.frames| then
      var f := s.table[p];
      s.(disk := Written(s.disk, p, s.frames[f].data), frames := s.frames[f := s.frames[f].(dirty := false)])
    else s
  }

  /** The page is cached: pin it. */
  function Hit(s: Pool, p: int): Pool
    requires p in s.table && 0 <= s.table[p] < |s.frames|
  {
    var f := s.table[p];
    s.(lru := Without(s.lru, f), frames := s.frames[f := s.frames[f].(pins := s.frames[f].pins + 1)])
  }

  /** The frame FetchPage takes for a page that is not cached: free ones first, then the victim. */
  function Chosen(s: Pool): FrameId
    requires s.free != [] || s.lru != []
  {
    if s.free != [] then s.free[|s.free| - 1] else s.lru[|s.lru| - 1]
  }

  function Popped(s: Pool): Pool
    requires s.free != [] || s.lru != []
  {
    if s.free != [] then s.(free := s.free[..|s.free| - 1]) else s.(lru := s.lru[..|s.lru| - 1])
  }

  /** Loads page p into frame f in place of the page it held. */
  function Loaded(s: Pool, f: FrameId, p: int): Pool
    requires 0 <= f < |s.frames|
  {
    s.(table := (s.table - {s.frames[f].page})[p := f],
       frames := s.frames[f := Frame(p, s.frames[f].pins + 1, false, Read(s.disk, p))])
  }

  /** Writes the frame back if it is dirty. */
  function Cleaned(s: Pool, f: FrameId): Pool
    requires 0 <= f < |s.frames|
  {
    if s.frames[f].dirty then Flushed(s, s.frames[f].page) else s
  }

  function Miss(s: Pool, p: int): Pool
    requires (s.free != [] || s.lru != []) && 0 <= Chosen(s) < |s.frames|
  {
    Loaded(Cleaned(Popped(s), Chosen(s)), Chosen(s), p)
  }

  /** FetchPage of p leads from s to t. */
  ghost predicate Fetches(s: Pool, p: int, t: Pool) {
    if p in s.table then EntryOk(s, p) && t == Hit(s, p)
    else (s.free != [] || s.lru != []) && 0 <= Chosen(s) < |s.frames| && t == Miss(s, p)
  }

  /** The pool after the pin count went down and before a dirty page is written. */
  function Lowered(s: Pool, f: FrameId, dirty: bool): Pool
    requires 0 <= f < |s.frames|
  {
    var pins := if s.frames[f].pins > 0 then s.frames[f].pins - 1 else s.frames[f].pins;
    s.(frames := s.frames[f := s.frames[f].(pins := pins, dirty := dirty || s.frames[f].dirty)],
       lru := if pins == 0 then Pushed(s.lru, f, |s.frames|) else s.lru)
  }

  function Unpinned(s: Pool, p: int, dirty: bool): Pool {
    if p in s.table && 0 <= s.table[p] < |s.frames| then
      var t := Lowered(s, s.table[p], dirty);
      if dirty then Flushed(t, p) else t
    else s
  }

  /** A new page p in frame f; the disk after granting p is d. */
  function Created(s: Pool, f: FrameId, p: int, d: Disk): Pool
    requires 0 <= f < |s.frames|
  {
    s.(table := s.table[p := f], frames := s.frames[f := Frame(p, 1, true, Zeroes())], disk := d)
  }

  /** The client holding a pin writes through the frame. */
  function Wrote(s: Pool, f: FrameId, b: Block): Pool
    requires 0 <= f < |s.frames|
  {
    s.(frames := s.frames[f := s.frames[f].(data := b)])
  }

  // ---------- What each step keeps ----------

  lemma FlushKeeps(s: Pool, p: int)
    requires PoolOk(s)
    ensures PoolOk(Flushed(s, p)) && SameContent(s, Flushed(s, p))
    ensures Coherent(s) ==> Coherent(Flushed(s, p))
    ensures Owned(s) ==> Owned(Flushed(s, p))
    ensures p in s.table ==> Read(Flushed(s, p).disk, p) == Content(s, p)
    ensures forall q :: 0 <= q && q != p ==> Read(Flushed(s, p).disk, q) == Read(s.disk, q)
  {
    assert EntryOk(s, p);
    if p in s.table {
      var t := Flushed(s, p);
      WriteOne(s.disk, p, s.frames[s.table[p]].data);
      forall g ensures FrameOk(t, g) {
        assert FrameOk(s, g);
      }
      forall q ensures EntryOk(t, q) {
        assert EntryOk(s, q);
      }
      forall q | 0 <= q ensures Content(t, q) == Content(s, q) {
        assert EntryOk(s, q);
      }
      if Coherent(s) {
        forall g | g in t.lru ensures Synced(t, g) {
          assert FrameOk(s, g) && Synced(s, g) && EntryOk(s, s.frames[g].page);
        }
      }
      forall q | q in t.table ensures Free(t.disk, q) <==> Free(s.disk, q) {
        assert EntryOk(s, q);
      }
    }
  }

  lemma StillInRange(a: seq<FrameId>, b: seq<FrameId>, n: int)
    requires InRange(a, n) && forall f :: f in b ==> f in a
    ensures InRange(b, n)
  {
    forall i | 0 <= i < |b| ensures 0 <= b[i] < n {
      assert b[i] in b;
    }
  }

  lemma HitKeeps(s: Pool, p: int)
    requires PoolOk(s) && p in s.table
    ensures EntryOk(s, p) && PoolOk(Hit(s, p)) && SameContent(s, Hit(s, p))
    ensures Coherent(s) ==> Coherent(Hit(s, p))
    ensures Hit(s, p).frames[s.table[p]].data == Content(s, p)
  {
    assert EntryOk(s, p);
    var f := s.table[p];
    var t := Hit(s, p);
    WithoutMembers(s.lru, f);
    StillInRange(s.lru, t.lru, |s.frames|);
    forall g ensures FrameOk(t, g) {
      assert FrameOk(s, g) && FrameOk(s, f);
    }
    forall q ensures EntryOk(t, q) {
      assert EntryOk(s, q);
    }
    if Coherent(s) {
      forall g | g in t.lru ensures Synced(t, g) {
        assert Synced(s, g);
      }
    }
  }

  /** The last of a list without repeats is gone from the rest. */
  lemma PopLast(s: seq<FrameId>)
    requires NoRepeats(s) && s != []
    ensures NoRepeats(s[..|s| - 1]) && forall g :: g in s[..|s| - 1] <==> g in s && g != s[|s| - 1]
  {
  }

  lemma ChosenIs(s: Pool)
    requires PoolOk(s) && (s.free != [] || s.lru != [])
    ensures 0 <= Chosen(s) < |s.frames| && s.frames[Chosen(s)].pins == 0
    ensures if s.free != [] then Chosen(s) in s.free else Chosen(s) in s.lru && Chosen(s) !in s.free
    ensures NoRepeats(Popped(s).free) && NoRepeats(Popped(s).lru)
    ensures forall g :: g in Popped(s).free <==> g in s.free && g != Chosen(s)
    ensures forall g :: g in Popped(s).lru <==> g in s.lru && g != Chosen(s)
  {
    var f := Chosen(s);
    if s.free != [] {
      PopLast(s.free);
      assert f in s.free;
    } else {
      PopLast(s.lru);
      assert f in s.lru;
    }
    assert FrameOk(s, f);
  }

  /** The disk after the chosen frame was written back, if it was dirty. */
  function DiskAfter(s: Pool, f: FrameId): Disk
    requires 0 <= f < |s.frames|
  {
    if s.frames[f].dirty then Written(s.disk, s.frames[f].page, s.frames[f].data) else s.disk
  }

  lemma MissIs(s: Pool, p: int)
    requires PoolOk(s) && (s.free != [] || s.lru != [])
    ensures 0 <= Chosen(s) < |s.frames|
    ensures var f := Chosen(s); var t := Miss(s, p);
            && t.disk == DiskAfter(s, f) && t.table == (s.table - {s.frames[f].page})[p := f]
            && t.frames == s.frames[f := Frame(p, 1, false, Read(DiskAfter(s, f), p))]
            && t.free == Popped(s).free && t.lru == Popped(s).lru
  {
    ChosenIs(s);
    assert FrameOk(s, Chosen(s));
  }

  lemma DiskAfterReads(s: Pool, f: FrameId)
    requires PoolOk(s) && 0 <= f < |s.frames|
    ensures DiskOk(DiskAfter(s, f))
    ensures forall q :: 0 <= q && q != s.frames[f].page ==> Read(DiskAfter(s, f), q) == Read(s.disk, q)
    ensures s.frames[f].dirty ==> Read(DiskAfter(s, f), s.frames[f].page) == s.frames[f].data
    ensures forall q :: 0 <= q ==> (Free(DiskAfter(s, f), q) <==> Free(s.disk, q))
  {
  }

  lemma MissOk(s: Pool, p: int)
    requires PoolOk(s) && 0 <= p && p !in s.table && (s.free != [] || s.lru != [])
    ensures 0 <= Chosen(s) < |s.frames| && PoolOk(Miss(s, p))
    ensures Coherent(s) ==> Coherent(Miss(s, p))
    ensures Owned(s) && !Free(s.disk, p) ==> Owned(Miss(s, p))
  {
    var f := Chosen(s);
    ChosenIs(s);
    MissIs(s, p);
    DiskAfterReads(s, f);
    var t := Miss(s, p);
    assert FrameOk(s, f);
    forall g ensures FrameOk(t, g) {
      assert FrameOk(s, g);
    }
    forall q ensures EntryOk(t, q) {
      assert EntryOk(s, q);
    }
    if Coherent(s) {
      forall g | g in t.lru ensures Synced(t, g) {
        assert FrameOk(s, g) && Synced(s, g) && EntryOk(s, s.frames[g].page);
      }
    }
    if Owned(s) && !Free(s.disk, p) {
      forall q | q in t.table ensures !Free(t.disk, q) {
        assert EntryOk(s, q);
      }
    }
  }

  /** Fetching a page that is not cached shows what the disk held, and no page but the evicted one can
      change; that one keeps its contents exactly when its frame was synced. */
  lemma MissContent(s: Pool, p: int)
    requires PoolOk(s) && 0 <= p && p !in s.table && (s.free != [] || s.lru != [])
    ensures 0 <= Chosen(s) < |s.frames|
    ensures Miss(s, p).frames[Chosen(s)].data == Content(s, p) && Miss(s, p).table[p] == Chosen(s)
    ensures SameContent(s, Miss(s, p)) <==> s.free != [] || Synced(s, Chosen(s))
  {
    var f := Chosen(s);
    ChosenIs(s);
    MissIs(s, p);
    DiskAfterReads(s, f);
    var t := Miss(s, p);
    var v := s.frames[f].page;
    assert FrameOk(s, f) && EntryOk(s, v);
    forall q | 0 <= q && q != v ensures Content(t, q) == Content(s, q) {
      assert EntryOk(s, q);
    }
    if 0 <= v {
      assert Content(s, v) == s.frames[f].data && Content(t, v) == Read(t.disk, v);
    }
  }

  function Below(n: nat): (r: set<int>)
    ensures |r| == n && forall g :: g in r <==> 0 <= g < n
  {
    if n == 0 then {} else Below(n - 1) + {n - 1}
  }

  lemma FramesBound(s: seq<FrameId>, f: FrameId, n: int)
    requires NoRepeats(s) && InRange(s, n) && 0 <= f < n && f !in s
    ensures |s| < n
  {
    DistinctCount(s + [f]);
    var held := set g | g in s + [f];
    assert held <= Below(n);
    assert Below(n) == held + (Below(n) - held);
  }

  lemma LoweredOk(s: Pool, f: FrameId, dirty: bool)
    requires PoolOk(s) && 0 <= f < |s.frames| && f !in s.free
    ensures PoolOk(Lowered(s, f, dirty)) && SameContent(s, Lowered(s, f, dirty))
    ensures Owned(s) ==> Owned(Lowered(s, f, dirty))
    ensures Coherent(s) ==> (Coherent(Lowered(s, f, dirty)) <==> dirty || s.frames[f].pins > 1 || Synced(s, f))
  {
    var t := Lowered(s, f, dirty);
    assert FrameOk(s, f);
    if f !in s.lru {
      FramesBound(s.lru, f, |s.frames|);
    }
    assert forall g :: g in t.lru <==> g in s.lru || (g == f && t.frames[f].pins == 0);
    forall g ensures FrameOk(t, g) {
      assert FrameOk(s, g);
    }
    forall q ensures EntryOk(t, q) {
      assert EntryOk(s, q);
    }
    forall g | g != f ensures Synced(t, g) <==> Synced(s, g) {
    }
    if Coherent(s) {
      assert forall g :: g in s.lru ==> Synced(s, g);
      assert Synced(t, f) <==> dirty || Synced(s, f);
    }
  }

  /** Unpinning keeps every page's contents; it leaves the pool coherent exactly when it is not the last,
      clean unpin of a page whose frame differs from the disk. */
  lemma UnpinKeeps(s: Pool, p: int, dirty: bool)
    requires PoolOk(s)
    ensures PoolOk(Unpinned(s, p, dirty)) && SameContent(s, Unpinned(s, p, dirty))
    ensures Owned(s) ==> Owned(Unpinned(s, p, dirty))
    ensures Coherent(s) ==> (Coherent(Unpinned(s, p, dirty)) <==> SafeUnpin(s, p, dirty))
    ensures dirty && p in s.table ==> Read(Unpinned(s, p, dirty).disk, p) == Content(s, p)
  {
    assert EntryOk(s, p);
    if p in s.table {
      var f := s.table[p];
      assert FrameOk(s, f) && f !in s.free;
      LoweredOk(s, f, dirty);
      FlushKeeps(Lowered(s, f, dirty), p);
    }
  }

  ghost predicate SafeUnpin(s: Pool, p: int, dirty: bool) {
    p in s.table && 0 <= s.table[p] < |s.frames| ==> dirty || s.frames[s.table[p]].pins > 1 || Synced(s, s.table[p])
  }

  /** The pool after NewPage took a free frame. */
  function NewFree(s: Pool, p: int, d: Disk): Pool
    requires s.free != [] && 0 <= Chosen(s) < |s.frames|
  {
    Created(Popped(s), Chosen(s), p, d)
  }

  lemma NewKeeps(s: Pool, p: int, d: Disk)
    requires PoolOk(s) && s.free != [] && p !in s.table && Grants(s.disk, p, d)
    ensures 0 <= Chosen(s) < |s.frames| && PoolOk(NewFree(s, p, d))
    ensures Content(NewFree(s, p, d), p) == Zeroes()
    ensures forall q :: 0 <= q && q != p ==> Content(NewFree(s, p, d), q) == Content(s, q)
    ensures Coherent(s) ==> Coherent(NewFree(s, p, d))
    ensures Owned(s) ==> Owned(NewFree(s, p, d))
  {
    ChosenIs(s);
    var f := Chosen(s);
    var t := NewFree(s, p, d);
    assert FrameOk(s, f);
    forall g ensures FrameOk(t, g) {
      assert FrameOk(s, g);
    }
    forall q ensures EntryOk(t, q) {
      assert EntryOk(s, q);
    }
    if Coherent(s) {
      forall g | g in t.lru ensures Synced(t, g) {
        assert FrameOk(s, g) && Synced(s, g) && EntryOk(s, s.frames[g].page);
      }
    }
    forall q | 0 <= q && q != p ensures Content(t, q) == Content(s, q) {
      assert EntryOk(s, q);
    }
    if Owned(s) {
      forall q | q in t.table ensures !Free(t.disk, q) {
        assert EntryOk(s, q);
      }
    }
  }

  /** NewPage when no frame is free: one victim is dropped, and a second is overwritten if there is one,
      otherwise the first. */
  function NewEvicting(s: Pool, p: int, d: Disk): Pool
    requires s.free == [] && s.lru != [] && InRange(s.lru, |s.frames|)
  {
    var n := |s.lru|;
    if n == 1 then Created(s.(lru := []), s.lru[0], p, d)
    else Created(s.(lru := s.lru[..n - 2]), s.lru[n - 2], p, d)
  }

  /** Page p is cached in frame f, which gets one more pin and is no longer up for eviction. */
  ghost predicate Pins(s: Pool, p: int, f: FrameId, t: Pool) {
    && p in s.table && f == s.table[p] && 0 <= f < |s.frames|
    && t.frames == s.frames[f := s.frames[f].(pins := s.frames[f].pins + 1)]
    && (forall g :: g in t.lru <==> g in s.lru && g != f)
    && t.table == s.table && t.free == s.free && t.disk == s.disk
  }

  /** Page p comes from the disk into frame f, the last of the free list or, with none free, the one longest in
      the replacer. A dirty page in it is written first, and its table entry goes. */
  ghost predicate Loads(s: Pool, p: int, f: FrameId, t: Pool) {
    && 0 <= f < |s.frames|
    && (if s.free != [] then s.free == t.free + [f] && t.lru == s.lru else t.free == [] && s.lru == t.lru + [f])
    && t.disk == (if s.frames[f].dirty then Written(s.disk, s.frames[f].page, s.frames[f].data) else s.disk)
    && t.frames == s.frames[f := Frame(p, 1, false, Read(t.disk, p))]
    && t.table == (s.table - {s.frames[f].page})[p := f]
  }

  /** One pin of page p is given back; the last one makes the frame the newest in the replacer. A dirty page is
      written to the disk. */
  ghost predicate GivesBack(s: Pool, p: int, dirty: bool, t: Pool) {
    if p in s.table && 0 <= s.table[p] < |s.frames| then
      var f := s.table[p];
      var fr := s.frames[f];
      var pins := if fr.pins > 0 then fr.pins - 1 else fr.pins;
      && t.frames == s.frames[f := Frame(fr.page, pins, fr.dirty && !dirty, fr.data)]
      && t.lru == (if f !in s.lru && fr.pins <= 1 then [f] + s.lru else s.lru)
      && t.table == s.table && t.free == s.free
      && t.disk == if dirty then Written(s.disk, p, fr.data) else s.disk
    else t == s
  }

  /** Page p leaves the cache, if it is there and nobody has it pinned; its frame, zeroed, goes behind the free
      list. */
  ghost predicate Drops(s: Pool, p: int, t: Pool) {
    if p in s.table && 0 <= s.table[p] < |s.frames| && s.frames[s.table[p]].pins == 0 then
      var f := s.table[p];
      && t.frames == s.frames[f := Frame(NO_PAGE, 0, s.frames[f].dirty, Zeroes())]
      && t.table == s.table - {p} && t.free == s.free + [f] && t.lru == s.lru
    else t == s.(disk := t.disk)
  }

  lemma HitPins(s: Pool, p: int)
    requires PoolOk(s) && p in s.table
    ensures EntryOk(s, p) && Pins(s, p, s.table[p], Hit(s, p))
  {
    assert EntryOk(s, p);
    WithoutMembers(s.lru, s.table[p]);
  }

  lemma UnpinGivesBack(s: Pool, p: int, dirty: bool)
    requires PoolOk(s)
    ensures GivesBack(s, p, dirty, Unpinned(s, p, dirty))
  {
    assert EntryOk(s, p);
    if p in s.table {
      var f := s.table[p];
      assert FrameOk(s, f);
      if f !in s.lru {
        FramesBound(s.lru, f, |s.frames|);
      }
    }
  }

  lemma DeleteDrops(s: Pool, p: int, d: Disk)
    requires PoolOk(s)
    ensures Drops(s, p, Deleted(s, p, d))
  {
  }

  lemma MissLoads(s: Pool, p: int)
    requires PoolOk(s) && (s.free != [] || s.lru != [])
    ensures 0 <= Chosen(s) < |s.frames| && Loads(s, p, Chosen(s), Miss(s, p))
  {
    MissIs(s, p);
  }

  /** The new page p is in frame f, pinned once, dirty and zero. No other frame changes and no other table entry.
      The frame is the last of the free list; with none free the oldest victim is dropped and the next one's
      frame is taken, or the oldest one's if there is no other. */
  ghost predicate Installs(s: Pool, p: int, f: FrameId, t: Pool) {
    && 0 <= f < |s.frames| && t.frames == s.frames[f := Frame(p, 1, true, Zeroes())] && t.table == s.table[p := f]
    && (s.free != [] ==> s.free == t.free + [f] && t.lru == s.lru)
    && (s.free == [] && |s.lru| == 1 ==> t.free == [] && s.lru == [f] && t.lru == [])
    && (s.free == [] && |s.lru| != 1 ==>
      t.free == [] && |s.lru| >= 2 && s.lru == t.lru + [f, s.lru[|s.lru| - 1]])
  }

  lemma InstallShows(s: Pool, p: int, f: FrameId, t: Pool)
    requires Installs(s, p, f, t)
    ensures p in t.table && t.table[p] == f && 0 <= f < |t.frames| && t.frames[f] == Frame(p, 1, true, Zeroes())
    ensures forall g :: 0 <= g < |s.frames| && g != f ==> t.frames[g] == s.frames[g]
    ensures forall q :: q != p ==> (q in t.table <==> q in s.table) && (q in s.table ==> t.table[q] == s.table[q])
  {
  }

  /** NewPage before it looks for a frame: without a free one a first victim is gone from the replacer. */
  ghost predicate Reserved(s: Pool, first: FrameId, t: Pool) {
    && (s.free != [] || (s.lru != [] && first == s.lru[|s.lru| - 1]))
    && t == s.(lru := if s.free == [] then s.lru[..|s.lru| - 1] else s.lru, disk := t.disk)
  }

  /** With a free frame NewPage keeps the pool well formed exactly when the page granted is not cached. */
  lemma NewFreeIff(s: Pool, p: int, d: Disk)
    requires PoolOk(s) && s.free != [] && Grants(s.disk, p, d)
    ensures 0 <= Chosen(s) < |s.frames| && (PoolOk(NewFree(s, p, d)) <==> p !in s.table)
  {
    ChosenIs(s);
    if p !in s.table {
      NewKeeps(s, p, d);
    } else {
      assert EntryOk(s, p) && FrameOk(s, s.table[p]);
      assert !FrameOk(NewFree(s, p, d), s.table[p]);
    }
  }

  /** Without one, the victim's table entry stays behind and any victim before it is dropped. That goes well
      only for a single victim that holds the page granted anew. */
  lemma NewEvictingIff(s: Pool, p: int, d: Disk)
    requires PoolOk(s) && s.free == [] && s.lru != [] && 0 <= p && DiskOk(d)
    ensures PoolOk(NewEvicting(s, p, d)) <==> |s.lru| == 1 && s.frames[s.lru[0]].page == p
  {
    var n := |s.lru|;
    var t := NewEvicting(s, p, d);
    var f := if n == 1 then s.lru[0] else s.lru[n - 2];
    assert f in s.lru && FrameOk(s, f) && EntryOk(s, s.frames[f].page);
    if n > 1 {
      var g := s.lru[n - 1];
      assert g in s.lru && FrameOk(s, g) && g !in s.lru[..n - 2];
      assert !FrameOk(t, g);
    } else if s.frames[f].page != p {
      assert !EntryOk(t, s.frames[f].page);
    } else {
      forall g ensures FrameOk(t, g) {
        assert FrameOk(s, g);
      }
      forall q ensures EntryOk(t, q) {
        assert EntryOk(s, q);
      }
    }
  }

  /** When NewPage leaves the pool well formed, p being the page the disk grants. */
  ghost predicate NewFits(s: Pool, p: int)
    requires InRange(s.lru, |s.frames|)
  {
    if s.free != [] then p !in s.table else s.lru == [] || (|s.lru| == 1 && s.frames[s.lru[0]].page == p)
  }

  /** Where every cached page has been granted, a page granted anew is not cached. */
  lemma NewIsNotCached(s: Pool, p: int, d: Disk)
    requires PoolOk(s) && Owned(s) && Grants(s.disk, p, d)
    ensures p !in s.table && (NewFits(s, p) <==> s.free != [] || s.lru == [])
  {
    if s.lru != [] {
      var f := s.lru[0];
      assert f in s.lru && FrameOk(s, f);
    }
  }

  /** DeletePage of a cached, unpinned page. */
  function Deleted(s: Pool, p: int, d: Disk): Pool {
    if p in s.table && 0 <= s.table[p] < |s.frames| && s.frames[s.table[p]].pins == 0 then
      var f := s.table[p];
      Pool(s.frames[f := s.frames[f].(page := NO_PAGE, data := Zeroes())], s.table - {p}, s.free + [f], s.lru, d)
    else s.(disk := d)
  }

  /** DeletePage keeps the pool well formed exactly when the page is not cached or is pinned: otherwise its
      frame is on the free list and in the replacer at once. */
  lemma DeleteKeepsIff(s: Pool, p: int, d: Disk)
    requires PoolOk(s) && DiskOk(d)
    ensures PoolOk(Deleted(s, p, d)) <==> p !in s.table || (EntryOk(s, p) && s.frames[s.table[p]].pins > 0)
  {
    assert EntryOk(s, p);
    var t := Deleted(s, p, d);
    if p in s.table {
      assert FrameOk(s, s.table[p]);
    }
    if p in s.table && s.frames[s.table[p]].pins == 0 {
      assert !FrameOk(t, s.table[p]);
    } else {
      assert forall g :: FrameOk(s, g) ==> FrameOk(t, g);
      assert forall q :: EntryOk(s, q) ==> EntryOk(t, q);
    }
  }

  lemma WriteKeeps(s: Pool, p: int, b: Block)
    requires PoolOk(s) && p in s.table && EntryOk(s, p) && s.frames[s.table[p]].pins > 0
    ensures PoolOk(Wrote(s, s.table[p], b))
    ensures Content(Wrote(s, s.table[p], b), p) == b
    ensures forall q :: 0 <= q && q != p ==> Content(Wrote(s, s.table[p], b), q) == Content(s, q)
    ensures Coherent(s) ==> Coherent(Wrote(s, s.table[p], b))
  {
    assert EntryOk(s, p);
    var f := s.table[p];
    var t := Wrote(s, f, b);
    assert FrameOk(s, f);
    forall g ensures FrameOk(t, g) {
      assert FrameOk(s, g);
    }
    forall q ensures EntryOk(t, q) {
      assert EntryOk(s, q);
    }
    forall q | 0 <= q && q != p ensures Content(t, q) == Content(s, q) {
      assert EntryOk(s, q);
    }
    if Coherent(s) {
      forall g | g in t.lru ensures Synced(t, g) {
        assert Synced(s, g);
      }
    }
  }
}
