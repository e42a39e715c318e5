/** Short runs, from a new file or an empty heap, that end in the failures the exact conditions describe. */
module StorageExamples {
  import opened SlottedLayout
  import opened DiskLayout
  import opened DiskStore
  import opened LruReplacer
  import opened PoolState
  import opened BufferPool
  import opened TableHeap

  /** The one frame holds page 0, unpinned and clean. */
  ghost predicate OneFrame(s: Pool) {
    && s.frames == [Frame(0, 0, false, Zeroes())] && s.table == map[0 := 0] && s.free == [] && s.lru == [0]
    && Read(s.disk, 0) == Zeroes()
  }

  /** Creating page 0 in an empty pool of one frame, and giving it back as dirty. */
  lemma FirstPage(s: Pool, d: Disk)
    requires PoolOk(s) && Owned(s) && |s.frames| == 1 && s.table == map[] && s.free == [0] && s.lru == []
    requires Grants(s.disk, 0, d)
    ensures var t := NewFree(s, 0, d);
      && t.frames == [Frame(0, 1, true, Zeroes())] && t.table == map[0 := 0] && t.free == [] && t.lru == [] && Owned(t)
    ensures var u := Unpinned(NewFree(s, 0, d), 0, true); OneFrame(u) && Owned(u) && u.disk.meta == d.meta
  {
  }

  /** A new pool of one frame over a new file. */
  ghost predicate Blank(s: Pool) {
    && PoolOk(s) && Owned(s) && |s.frames| == 1 && s.table == map[] && s.free == [0] && s.lru == []
    && Free(s.disk, 0) && s.disk.meta.extents == 0
  }

  method BlankPool() returns (pool: BufferPoolManager)
    ensures pool.Valid() && fresh(pool) && fresh(pool.pages) && fresh(pool.disk) && fresh(pool.replacer)
    ensures Blank(pool.View())
  {
    var disk := new DiskManager();
    pool := new BufferPoolManager(1, disk);
    assert pool.View().free == [0];
  }

  /** Page 0 is created in it. */
  method CreateFirst(pool: BufferPoolManager)
    requires pool.Valid() && Blank(pool.View())
    modifies pool, pool.pages, pool.disk, pool.replacer
    ensures pool.Valid() && pool.disk.meta.extents == 1 && Grants(old(pool.disk.View()), 0, pool.disk.View())
    ensures 0 <= Chosen(old(pool.View())) < pool.pages.Length
    ensures pool.View() == NewFree(old(pool.View()), 0, pool.disk.View())
  {
    var ok, f, page := pool.NewPage();
    assert page == 0;
  }

  /** A pool of one frame whose only page has been created, and given back as dirty. */
  method OneFramePool() returns (pool: BufferPoolManager)
    ensures pool.Valid() && fresh(pool) && fresh(pool.pages) && fresh(pool.disk) && fresh(pool.replacer)
    ensures OneFrame(pool.View()) && Owned(pool.View()) && pool.disk.meta.extents == 1
  {
    pool := BlankPool();
    ghost var s := pool.View();
    CreateFirst(pool);
    ghost var t := pool.View();
    FirstPage(s, t.disk);
    var ok := pool.UnpinPage(0, true);
    assert pool.View() == Unpinned(t, 0, true);
  }

  /** A second NewPage evicts, and leaves two table entries for one frame. */
  method NewPageWithoutFrame() returns (pool: BufferPoolManager)
    ensures !pool.Valid()
  {
    pool := OneFramePool();
    var ok, f, page := pool.NewPage();
  }

  /** Deleting the cached page puts its frame on the free list and keeps it in the replacer. */
  method DeleteCachedPage() returns (pool: BufferPoolManager)
    ensures !pool.Valid()
  {
    pool := OneFramePool();
    var ok := pool.DeletePage(0);
  }

  /** A one-frame pool after page 0 was changed and given back as clean, and page 1 fetched. */
  lemma ChangeDropped(s: Pool, b: Block)
    requires PoolOk(s) && OneFrame(s)
    ensures var changed := Wrote(Hit(s, 0), 0, b); var back := Unpinned(changed, 0, false);
      && Content(changed, 0) == b && back.free == [] && back.lru == [0]
      && |back.frames| == 1 && back.table == map[0 := 0]
      && Content(Miss(back, 1), 0) == Zeroes()
  {
  }

  /** A change given back as clean is gone after the next eviction. */
  method LossyUnpin(b: Block) returns (pool: BufferPoolManager)
    requires b != Zeroes()
    ensures pool.Valid() && Content(pool.View(), 0) == Zeroes()
  {
    pool := OneFramePool();
    ghost var s := pool.View();
    ChangeDropped(s, b);
    var f := pool.FetchPage(0);
    assert EntryOk(pool.View(), 0);
    pool.WriteFrame(0, b);
    assert pool.View() == Wrote(Hit(s, 0), 0, b) && Content(pool.View(), 0) == b;
    var ok := pool.UnpinPage(0, false);
    f := pool.FetchPage(1);
  }

  /** Taking back a page that was granted leaves it taken, and the counters one short. */
  method DeAllocated() returns (disk: DiskManager)
    ensures !Free(disk.View(), 0) && !Counted(disk.View())
  {
    disk := new DiskManager();
    assert Free(disk.View(), 0);
    var l := disk.AllocatePage();
    assert l == 0;
    disk.DeAllocatePage(0);
  }

  /** After two grants the meta page on disk counts one. */
  method ReopenedAfterTwo() returns (disk: DiskManager)
    ensures !Free(disk.View(), 0) && !Free(disk.View(), 1) && !Counted(disk.View())
  {
    var before := new DiskManager();
    assert Free(before.View(), 0);
    var l := before.AllocatePage();
    assert l == 0 && Free(before.View(), 1);
    l := before.AllocatePage();
    assert l == 1;
    disk := new DiskManager.Reopen(before);
  }

  /** A row is gone once it is updated to more bytes than a page has room for. */
  method LostUpdate(bytes: seq<byte>) returns (heap: TableHeap)
    requires |bytes| > SIZE_MAX_ROW
    ensures heap.Valid() && Rows(heap.pages) == map[]
  {
    heap := new TableHeap(2);
    var ok, rid := heap.InsertTuple([1]);
    ok, rid := heap.UpdateTuple(bytes, rid);
  }
}
