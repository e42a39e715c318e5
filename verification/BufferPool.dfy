/** The buffer pool manager: frames, page table, free list and replacer over the disk manager. */
module BufferPool {
  import opened DiskLayout
  import opened DiskStore
  import opened LruReplacer
  import opened PoolState

  class BufferPoolManager {
    const pages: array<Frame>
    const disk: DiskManager
    const replacer: LRUReplacer
    var table: map<int, FrameId>
    var freeList: seq<FrameId>

    ghost function View(): Pool
      reads this, pages, disk, replacer
    {
      Pool(pages[..], table, freeList, replacer.Frames(), disk.View())
    }

    ghost predicate Valid()
      reads this, pages, disk, replacer
    {
      PoolOk(View()) && replacer.Valid() && replacer.maxSize == pages.Length
    }

    constructor (size: nat, manager: DiskManager)
      requires DiskOk(manager.View())
      ensures Valid() && fresh(pages) && fresh(replacer) && disk == manager
      ensures Coherent(View()) && Owned(View()) && table == map[] && replacer.Frames() == []
      ensures pages.Length == |freeList| == size && forall i :: 0 <= i < size ==> freeList[i] == i
      ensures disk.View() == old(manager.View())
    {
      pages := new Frame[size](_ => Frame(NO_PAGE, 0, false, Zeroes()));
      replacer := new LRUReplacer(size);
      disk := manager;
      table := map[];
      freeList := seq(size, i => i);
      new;
      assert forall f :: 0 <= f < size ==> freeList[f] == f;
      forall f ensures FrameOk(View(), f) {
        assert 0 <= f < size ==> freeList[f] == f;
      }
    }

    /** Flushing writes the cached contents through. */
    method FlushPage(p: int) returns (ok: bool)
      requires EntryOk(View(), p) && DiskOk(disk.View())
      modifies pages, disk
      ensures View() == Flushed(old(View()), p) && (ok <==> p in table) && DiskOk(disk.View())
      ensures old(Valid()) ==> Valid()
    {
      ghost var s := View();
      if p !in table {
        return false;
      }
      var f := table[p];
      disk.WritePage(p, pages[f].data);
      pages[f] := pages[f].(dirty := false);
      assert View() == Flushed(s, p);
      if PoolOk(s) {
        FlushKeeps(s, p);
      }
      return true;
    }

    /** A cached page is pinned where it is. */
    method FetchCached(p: int) returns (f: FrameId)
      requires Valid() && p in table
      modifies pages, replacer
      ensures Valid() && EntryOk(old(View()), p) && View() == Hit(old(View()), p)
      ensures f == table[p] && 0 <= f < pages.Length && pages[f].data == Content(old(View()), p)
    {
      HitKeeps(View(), p);
      f := table[p];
      replacer.Pin(f);
      pages[f] := pages[f].(pins := pages[f].pins + 1);
    }
  
    /** A frame to load a page into: a free one, or else the victim. */
    method TakeFrame() returns (f: FrameId)
      requires replacer.Valid() && (freeList != [] || replacer.Frames() != [])
      modifies this, replacer
      ensures replacer.Valid() && f == Chosen(old(View())) && View() == Popped(old(View()))
    {
      if freeList != [] {
        f := freeList[|freeList| - 1];
        freeList := freeList[..|freeList| - 1];
      } else {
        var ok;
        ok, f := replacer.Victim();
      }
    }

    /** Writes a dirty frame back. */
    method CleanFrame(f: FrameId)
      requires 0 <= f < pages.Length && DiskOk(disk.View()) && (pages[f].dirty ==> EntryOk(View(), pages[f].page))
      modifies pages, disk
      ensures View() == Cleaned(old(View()), f) && DiskOk(disk.View())
    {
      if pages[f].dirty {
        var ok := FlushPage(pages[f].page);
      }
    }

    /** Reads page p into frame f. */
    method LoadFrame(f: FrameId, p: int)
      requires 0 <= f < pages.Length && 0 <= p && !pages[f].dirty
      modifies this`table, pages
      ensures View() == Loaded(old(View()), f, p)
    {
      table := (table - {pages[f].page})[p := f];
      var data := disk.ReadPage(p);
      pages[f] := pages[f].(page := p, pins := pages[f].pins + 1, data := data);
    }

    /** A page that is not cached goes into a free frame, or into the frame of the least recently used page. */
    method FetchAbsent(p: int) returns (f: FrameId)
      requires Valid() && 0 <= p && p !in table && (freeList != [] || replacer.Frames() != [])
      modifies this, pages, disk, replacer
      ensures Valid() && 0 <= f < pages.Length && f == Chosen(old(View())) && View() == Miss(old(View()), p)
    {
      ghost var s := View();
      MissOk(s, p);
      f := TakeFrame();
      assert FrameOk(s, f) && EntryOk(s, s.frames[f].page);
      CleanFrame(f);
      LoadFrame(f, p);
    }

    /** Shows the page as it was last written, whether it is cached or not, and leaves every page as it was. */
    method FetchPage(p: int) returns (f: FrameId)
      requires Valid() && 0 <= p && (p in table || freeList != [] || replacer.Frames() != [])
      modifies this, pages, disk, replacer
      ensures Valid() && Fetches(old(View()), p, View())
      ensures p in table && f == table[p] && 0 <= f < pages.Length && pages[f].page == p && pages[f].pins > 0
      ensures pages[f].data == Content(old(View()), p)
      ensures if p in old(table) then Pins(old(View()), p, f, View()) else Loads(old(View()), p, f, View())
      ensures old(Coherent(View())) ==> Coherent(View()) && SameContent(old(View()), View())
    {
      ghost var s := View();
      if p in table {
        f := FetchCached(p);
        HitKeeps(s, p);
        HitPins(s, p);
      } else {
        f := FetchAbsent(p);
        MissLoads(s, p);
        MissOk(s, p);
        MissContent(s, p);
        ChosenIs(s);
      }
      assert EntryOk(View(), p) && FrameOk(s, f);
    }

    method LowerPin(f: FrameId, dirty: bool)
      requires 0 <= f < pages.Length && replacer.Valid() && replacer.maxSize == pages.Length
      modifies pages, replacer
      ensures replacer.Valid() && View() == Lowered(old(View()), f, dirty)
    {
      ghost var s := View();
      if pages[f].pins > 0 {
        pages[f] := pages[f].(pins := pages[f].pins - 1);
      }
      if pages[f].pins == 0 {
        replacer.Unpin(f);
      }
      if dirty {
        pages[f] := pages[f].(dirty := true);
      }
      assert pages[..] == Lowered(s, f, dirty).frames;
    }

    /** Takes back a pin; a dirty page is written through at once. */
    method UnpinPage(p: int, dirty: bool) returns (ok: bool)
      requires Valid()
      modifies pages, disk, replacer
      ensures Valid() && View() == Unpinned(old(View()), p, dirty) && (ok <==> p in table)
      ensures GivesBack(old(View()), p, dirty, View()) && SameContent(old(View()), View())
      ensures old(Coherent(View())) ==> (Coherent(View()) <==> SafeUnpin(old(View()), p, dirty))
    {
      ghost var s := View();
      UnpinGivesBack(s, p, dirty);
      UnpinKeeps(s, p, dirty);
      assert EntryOk(s, p);
      ok := p in table;
      if ok {
        LowerPin(table[p], dirty);
        if dirty {
          ghost var t := View();
          assert t.table == s.table && t.disk == s.disk && EntryOk(t, p);
          var flushed := FlushPage(p);
        }
      }
      assert View() == Unpinned(s, p, dirty);
    }

    /** Puts the new page into its frame. */
    method Install(f: FrameId, page: int)
      requires 0 <= f < pages.Length
      modifies this`table, pages
      ensures View() == Created(old(View()), f, page, disk.View())
    {
      table := table[page := f];
      pages[f] := Frame(page, 1, true, Zeroes());
    }

    method NewInFreeFrame(page: int, ghost d: Disk) returns (f: FrameId)
      requires PoolOk(View().(disk := d)) && replacer.Valid() && replacer.maxSize == pages.Length && freeList != []
      requires Grants(d, page, disk.View())
      modifies this, pages
      ensures (Valid() <==> page !in old(table)) && 0 <= Chosen(old(View())) < pages.Length && f == Chosen(old(View()))
      ensures View() == NewFree(old(View()).(disk := d), page, disk.View())
      ensures Installs(old(View()), page, f, View())
    {
      ghost var s := View().(disk := d);
      ChosenIs(s);
      NewFreeIff(s, page, disk.View());
      f := freeList[|freeList| - 1];
      freeList := freeList[..|freeList| - 1];
      Install(f, page);
    }

    /** The second call of Victim; `first` is what the first one gave. */
    method NewInVictim(page: int, first: FrameId, ghost s: Pool) returns (f: FrameId)
      requires PoolOk(s) && s.free == [] && s.lru != [] && first == s.lru[|s.lru| - 1] && 0 <= page
      requires DiskOk(disk.View())
      requires replacer.Valid() && replacer.maxSize == pages.Length
      requires View() == s.(lru := s.lru[..|s.lru| - 1], disk := disk.View())
      modifies this, pages, replacer
      ensures View() == NewEvicting(s, page, disk.View()) && Installs(s, page, f, View())
      ensures Valid() <==> |s.lru| == 1 && s.frames[s.lru[0]].page == page
    {
      assert InRange(s.lru, |s.frames|);
      f := first;
      var again, second := replacer.Victim();
      if again {
        f := second;
      }
      NewEvictingIff(s, page, disk.View());
      Install(f, page);
    }

    /** The first call of Victim, if no frame is free, and the page's id. */
    method Reserve() returns (ok: bool, first: FrameId, page: int)
      requires Valid() && Room(disk.View())
      modifies this, disk, replacer
      ensures ok <==> old(freeList) != [] || old(replacer.Frames()) != []
      ensures !ok ==> View() == old(View())
      ensures ok ==> Grants(old(disk.View()), page, disk.View()) && disk.Counts(old(disk.View()), page)
      ensures replacer.Valid() && (ok ==> Reserved(old(View()), first, View()))
    {
      ghost var s := View();
      page := NO_PAGE;
      ok, first := TakeVictim();
      if ok {
        ghost var t := View();
        page := disk.AllocatePage();
        assert View() == t.(disk := disk.View());
      }
    }

    method TakeVictim() returns (ok: bool, first: FrameId)
      requires replacer.Valid()
      modifies replacer
      ensures ok <==> old(freeList) != [] || old(replacer.Frames()) != []
      ensures replacer.Valid() && (if ok then Reserved(old(View()), first, View()) else View() == old(View()))
    {
      ok, first := true, 0;
      if freeList == [] {
        ok, first := replacer.Victim();
      }
    }

    /** Finds the new page a frame: a free one, or by the second call of Victim; `s` is the pool before NewPage. */
    method PlaceNew(page: int, first: FrameId, ghost s: Pool) returns (f: FrameId)
      requires PoolOk(s) && Grants(s.disk, page, disk.View()) && Reserved(s, first, View())
      requires replacer.Valid() && replacer.maxSize == pages.Length
      modifies this, pages, replacer
      ensures Installs(s, page, f, View()) && disk.View() == old(disk.View())
      ensures Valid() <==> NewFits(s, page)
      ensures s.free != [] ==> 0 <= Chosen(s) < pages.Length && View() == NewFree(s, page, disk.View())
    {
      if freeList != [] {
        f := NewInFreeFrame(page, s.disk);
      } else {
        f := NewInVictim(page, first, s);
      }
    }

    /** NewPage; `page` is the new page's id and f its frame, pinned once and zero; no other frame changes and no
        other table entry. With neither a free frame nor a victim nothing happens. With a free frame the new
        page reads as zeroes and all else stays, unless the page granted was cached already. Without one the
        oldest victim is dropped and the frame of the next, if there is one, is overwritten: the pool is left
        not well formed, unless its one victim holds the page granted. */
    method NewPage() returns (ok: bool, f: FrameId, page: int)
      requires Valid() && Room(disk.View())
      modifies this, pages, disk, replacer
      ensures ok <==> old(freeList) != [] || old(replacer.Frames()) != []
      ensures !ok ==> View() == old(View())
      ensures ok ==> Grants(old(disk.View()), page, disk.View()) && disk.Counts(old(disk.View()), page)
      ensures ok ==> Installs(old(View()), page, f, View())
      ensures ok ==>
        page in table && f == table[page] && 0 <= f < pages.Length && pages[f] == Frame(page, 1, true, Zeroes())
      ensures old(freeList) != [] ==>
        0 <= Chosen(old(View())) < pages.Length && View() == NewFree(old(View()), page, disk.View())
      ensures Valid() <==> NewFits(old(View()), page)
      ensures old(Owned(View())) ==> (Valid() <==> old(freeList) != [] || old(replacer.Frames()) == [])
    {
      ghost var s := View();
      ok, f, page := Reserve();
      if ok {
        if Owned(s) {
          NewIsNotCached(s, page, disk.View());
        }
        f := PlaceNew(page, f, s);
        InstallShows(s, page, f, View());
      }
    }

    /** Deletes a page that nobody has pinned. A cached one leaves the pool not well formed. */
    method DeletePage(p: int) returns (ok: bool)
      requires Valid() && 0 <= p
      modifies this, pages, disk
      ensures View() == Deleted(old(View()), p, disk.View()) && DiskOk(disk.View())
      ensures Drops(old(View()), p, View()) && Uncounts(old(disk.View()), p, disk.View())
      ensures ok <==> !(p in old(table) && EntryOk(old(View()), p) && old(View()).frames[old(table)[p]].pins > 0)
      ensures Valid() <==> p !in old(table) || !ok
    {
      ghost var s := View();
      assert EntryOk(s, p);
      if p in table {
        assert FrameOk(s, table[p]);
      }
      disk.DeAllocatePage(p);
      DeleteDrops(s, p, disk.View());
      DeleteKeepsIff(s, p, disk.View());
      if p !in table {
        return true;
      }
      var f := table[p];
      if pages[f].pins != 0 {
        return false;
      }
      pages[f] := pages[f].(page := NO_PAGE, data := Zeroes());
      table := table - {p};
      freeList := freeList + [f];
      return true;
    }

    /** The client that holds a pin writes the page's bytes. */
    method WriteFrame(p: int, b: Block)
      requires Valid() && p in table && EntryOk(View(), p) && pages[table[p]].pins > 0
      modifies pages
      ensures Valid() && View() == Wrote(old(View()), table[p], b)
    {
      WriteKeeps(View(), p, b);
      pages[table[p]] := pages[table[p]].(data := b);
    }

    /** The destructor's loop: `order` is the order in which the hash table is iterated. Afterwards the disk
        alone holds every page's contents. */
    method FlushAll(order: seq<int>)
      requires Valid() && forall p :: p in order <==> p in table
      modifies pages, disk
      ensures Valid() && SameContent(old(View()), View())
      ensures forall p :: 0 <= p ==> Read(disk.View(), p) == Content(old(View()), p)
    {
      ghost var s := View();
      var i := 0;
      while i < |order|
        invariant 0 <= i <= |order| && Valid() && table == s.table && SameContent(s, View())
        invariant forall p :: p in order[..i] ==> Read(disk.View(), p) == Content(s, p)
        invariant forall p :: 0 <= p && p !in table ==> Read(disk.View(), p) == Content(s, p)
      {
        assert EntryOk(View(), order[i]) && order[i] in order;
        ghost var before := View();
        FlushKeeps(before, order[i]);
        var ok := FlushPage(order[i]);
        assert order[..i + 1] == order[..i] + [order[i]];
        forall p | p in order[..i + 1] ensures Read(disk.View(), p) == Content(s, p) {
          assert p in order && EntryOk(before, p);
        }
        i := i + 1;
      }
      assert order[..i] == order;
    }
  }
}
