/** All runs of clients of the buffer pool: whatever they fetch is what was last written. */
module PoolRuns {
  import opened DiskLayout
  import opened LruReplacer
  import opened PoolState

  datatype Event =
    | Fetch(page: int, data: Block)
    | Unpin(page: int, dirty: bool)
    | Flush(page: int)
    | New(page: int)
    | Write(page: int, data: Block)

  /** A step of the pool. Fetched pages have been granted, written ones are cached, and NewPage finds a free
      frame. */
  ghost predicate Step(s: Pool, e: Event, t: Pool) {
    match e
    case Fetch(p, b) =>
      && 0 <= p && !Free(s.disk, p) && Fetches(s, p, t)
      && p in t.table && 0 <= t.table[p] < |t.frames| && b == t.frames[t.table[p]].data
    case Unpin(p, dirty) => t == Unpinned(s, p, dirty)
    case Flush(p) => t == Flushed(s, p)
    case New(p) =>
      && s.free != [] && 0 <= Chosen(s) < |s.frames|
      && Grants(s.disk, p, t.disk) && t == NewFree(s, p, t.disk)
    case Write(p, b) => p in s.table && EntryOk(s, p) && t == Wrote(s, s.table[p], b)
  }

  // ---------- What a client knows ----------

  function HeldAfter(e: Event, p: int, n: nat): nat {
    if e.page != p then n
    else match e
      case Fetch(_, _) => n + 1
      case New(_) => 1
      case Unpin(_, _) => if n > 0 then n - 1 else 0
      case _ => n
  }

  /** How many pins of page p these events leave. */
  function Held(events: seq<Event>, p: int): nat {
    if events == [] then 0 else HeldAfter(events[|events| - 1], p, Held(events[..|events| - 1], p))
  }

  predicate UnsavedAfter(e: Event, p: int, b: bool) {
    if e.page != p then b
    else match e
      case Write(_, _) => true
      case Flush(_) => false
      case New(_) => false
      case Unpin(_, dirty) => b && !dirty
      case Fetch(_, _) => b
  }

  /** Page p was written after its last flush, dirty unpin or creation. */
  predicate Unsaved(events: seq<Event>, p: int) {
    events != [] && UnsavedAfter(events[|events| - 1], p, Unsaved(events[..|events| - 1], p))
  }

  /** The client writes only pages it holds, and gives back its last hold on an unsaved page as dirty. */
  predicate Careful(before: seq<Event>, e: Event) {
    && (e.Write? ==> Held(before, e.page) > 0)
    && (e.Unpin? && !e.dirty && Held(before, e.page) <= 1 ==> !Unsaved(before, e.page))
  }

  /** The pool agrees with what the client knows: pins are counted, and every cached page without an unsaved
      write is synced. */
  ghost predicate Tracks(s: Pool, events: seq<Event>, p: int) {
    if p in s.table && 0 <= s.table[p] < |s.frames| then
      && s.frames[s.table[p]].pins == Held(events, p)
      && (Unsaved(events, p) ==> Held(events, p) > 0)
      && (!Unsaved(events, p) ==> Synced(s, s.table[p]))
    else Held(events, p) == 0 && !Unsaved(events, p)
  }

  ghost predicate Tracked(s: Pool, events: seq<Event>) {
    forall p {:trigger Tracks(s, events, p)} :: Tracks(s, events, p)
  }

  lemma Longer(events: seq<Event>, e: Event, p: int)
    ensures Held(events + [e], p) == HeldAfter(e, p, Held(events, p))
    ensures Unsaved(events + [e], p) == UnsavedAfter(e, p, Unsaved(events, p))
  {
  }

  /** Page p's frame and disk page are as before. */
  ghost predicate Untouched(s: Pool, t: Pool, p: int) {
    if p in s.table && 0 <= s.table[p] < |s.frames| then
      && p in t.table && t.table[p] == s.table[p] && |t.frames| == |s.frames|
      && t.frames[t.table[p]] == s.frames[s.table[p]]
      && (s.frames[s.table[p]].page == p ==> Read(t.disk, p) == Read(s.disk, p))
    else !(p in t.table && 0 <= t.table[p] < |t.frames|)
  }

  lemma UntouchedTracks(s: Pool, events: seq<Event>, e: Event, t: Pool, p: int)
    requires PoolOk(s) && Tracks(s, events, p) && Untouched(s, t, p) && e.page != p
    ensures Tracks(t, events + [e], p)
  {
    Longer(events, e, p);
    assert EntryOk(s, p);
  }

  lemma HitTracks(s: Pool, events: seq<Event>, e: Event, t: Pool, q: int)
    requires Sound(s) && Tracked(s, events) && e.Fetch? && e.page in s.table && EntryOk(s, e.page)
    requires t == Hit(s, e.page)
    ensures Tracks(t, events + [e], q)
  {
    Longer(events, e, q);
    assert Tracks(s, events, q) && EntryOk(s, q);
    if q != e.page {
      UntouchedTracks(s, events, e, t, q);
    }
  }

  lemma MissTracks(s: Pool, events: seq<Event>, e: Event, t: Pool, q: int)
    requires Sound(s) && Tracked(s, events) && e.Fetch? && 0 <= e.page && e.page !in s.table
    requires (s.free != [] || s.lru != []) && 0 <= Chosen(s) < |s.frames| && t == Miss(s, e.page)
    ensures Tracks(t, events + [e], q)
  {
    var f := Chosen(s);
    ChosenIs(s);
    MissIs(s, e.page);
    DiskAfterReads(s, f);
    Longer(events, e, q);
    assert Tracks(s, events, q) && EntryOk(s, q) && FrameOk(s, f);
    if q != e.page && q != s.frames[f].page {
      UntouchedTracks(s, events, e, t, q);
    }
  }

  lemma UnpinTracks(s: Pool, events: seq<Event>, e: Event, t: Pool, q: int)
    requires Sound(s) && Tracked(s, events) && e.Unpin? && Careful(events, e) && t == Unpinned(s, e.page, e.dirty)
    ensures Tracks(t, events + [e], q)
  {
    var p := e.page;
    Longer(events, e, q);
    assert Tracks(s, events, q) && EntryOk(s, q) && EntryOk(s, p);
    if p in s.table {
      WriteOne(s.disk, p, s.frames[s.table[p]].data);
      assert q != p ==> Untouched(s, t, q);
    }
    if q != p {
      UntouchedTracks(s, events, e, t, q);
    }
  }

  lemma FlushTracks(s: Pool, events: seq<Event>, e: Event, t: Pool, q: int)
    requires Sound(s) && Tracked(s, events) && e.Flush? && t == Flushed(s, e.page)
    ensures Tracks(t, events + [e], q)
  {
    var p := e.page;
    Longer(events, e, q);
    assert Tracks(s, events, q) && EntryOk(s, q) && EntryOk(s, p);
    if p in s.table {
      WriteOne(s.disk, p, s.frames[s.table[p]].data);
    }
    if q != p {
      UntouchedTracks(s, events, e, t, q);
    }
  }

  lemma NewTracks(s: Pool, events: seq<Event>, e: Event, t: Pool, q: int)
    requires Sound(s) && Tracked(s, events) && e.New? && s.free != [] && 0 <= Chosen(s) < |s.frames|
    requires Grants(s.disk, e.page, t.disk) && t == NewFree(s, e.page, t.disk)
    ensures Tracks(t, events + [e], q)
  {
    ChosenIs(s);
    Longer(events, e, q);
    assert Tracks(s, events, q) && EntryOk(s, q) && FrameOk(s, Chosen(s));
    if q != e.page {
      UntouchedTracks(s, events, e, t, q);
    }
  }

  lemma WriteTracks(s: Pool, events: seq<Event>, e: Event, t: Pool, q: int)
    requires Sound(s) && Tracked(s, events) && e.Write? && Careful(events, e)
    requires e.page in s.table && EntryOk(s, e.page) && t == Wrote(s, s.table[e.page], e.data)
    ensures Tracks(t, events + [e], q)
  {
    Longer(events, e, q);
    assert Tracks(s, events, q) && EntryOk(s, q);
    if q != e.page {
      UntouchedTracks(s, events, e, t, q);
    }
  }

  lemma StepTracks(s: Pool, events: seq<Event>, e: Event, t: Pool)
    requires Sound(s) && Tracked(s, events) && Careful(events, e) && Step(s, e, t)
    ensures Tracked(t, events + [e])
  {
    forall q ensures Tracks(t, events + [e], q) {
      match e
      case Fetch(p, _) =>
        if p in s.table {
          HitTracks(s, events, e, t, q);
        } else {
          MissTracks(s, events, e, t, q);
        }
      case Unpin(_, _) => UnpinTracks(s, events, e, t, q);
      case Flush(_) => FlushTracks(s, events, e, t, q);
      case New(_) => NewTracks(s, events, e, t, q);
      case Write(_, _) => WriteTracks(s, events, e, t, q);
    }
  }

  // ---------- Each step, and whole runs ----------

  ghost predicate Sound(s: Pool) {
    PoolOk(s) && Coherent(s) && Owned(s)
  }

  /** What page q holds after the event, given what it held before. */
  function Effect(e: Event, q: int, before: Block): Block {
    match e
    case Write(p, b) => if p == q then b else before
    case New(p) => if p == q then Zeroes() else before
    case _ => before
  }

  /** A careful client's step changes pages as it would without a cache, and a fetch shows what the page held. */
  lemma StepIsUncached(s: Pool, events: seq<Event>, e: Event, t: Pool)
    requires Sound(s) && Tracked(s, events) && Careful(events, e) && Step(s, e, t)
    ensures Sound(t)
    ensures forall q :: 0 <= q ==> Content(t, q) == Effect(e, q, Content(s, q))
    ensures e.Fetch? ==> e.data == Content(s, e.page)
  {
    assert Tracks(s, events, e.page) && EntryOk(s, e.page);
    match e
    case Fetch(p, b) => FetchStep(s, p, t);
    case Unpin(p, dirty) => UnpinKeeps(s, p, dirty);
    case Flush(p) => FlushKeeps(s, p);
    case New(p) => NewKeeps(s, p, t.disk);
    case Write(p, b) => WriteKeeps(s, p, b);
  }

  lemma FetchStep(s: Pool, p: int, t: Pool)
    requires Sound(s) && 0 <= p && !Free(s.disk, p) && Fetches(s, p, t)
    ensures Sound(t) && SameContent(s, t) && Content(t, p) == Content(s, p)
  {
    if p in s.table {
      HitKeeps(s, p);
    } else {
      MissOk(s, p);
      MissContent(s, p);
      ChosenIs(s);
    }
  }

  /** The last thing written to page q by these events; `start` if none wrote it. */
  function LastWritten(events: seq<Event>, q: int, start: Block): Block {
    if events == [] then start
    else Effect(events[|events| - 1], q, LastWritten(events[..|events| - 1], q, start))
  }

  /** A run of careful clients of a pool that starts with nothing cached. */
  ghost predicate Run(states: seq<Pool>, events: seq<Event>) {
    && |states| == |events| + 1 && PoolOk(states[0]) && states[0].table == map[]
    && forall i :: 0 <= i < |events| ==> Careful(events[..i], events[i]) && Step(states[i], events[i], states[i + 1])
  }

  /** Every page holds the last contents written to it since the disk was `start`. */
  ghost predicate Mirrors(s: Pool, events: seq<Event>, start: Disk) {
    forall q :: 0 <= q ==> Content(s, q) == LastWritten(events, q, Read(start, q))
  }

  lemma MirrorsLonger(s: Pool, events: seq<Event>, e: Event, t: Pool, start: Disk)
    requires Mirrors(s, events, start) && forall q :: 0 <= q ==> Content(t, q) == Effect(e, q, Content(s, q))
    ensures Mirrors(t, events + [e], start)
  {
  }

  /** What holds along a run. */
  ghost predicate Agrees(s: Pool, events: seq<Event>, start: Disk) {
    Sound(s) && Tracked(s, events) && Mirrors(s, events, start)
  }

  lemma EmptyPool(s: Pool)
    requires PoolOk(s) && s.table == map[]
    ensures Agrees(s, [], s.disk)
  {
    forall f ensures f !in s.lru {
      assert FrameOk(s, f);
    }
  }

  lemma StepAgrees(s: Pool, events: seq<Event>, e: Event, t: Pool, start: Disk)
    requires Agrees(s, events, start) && Careful(events, e) && Step(s, e, t)
    ensures Agrees(t, events + [e], start)
    ensures e.Fetch? ==> e.data == LastWritten(events, e.page, Read(start, e.page))
  {
    StepIsUncached(s, events, e, t);
    StepTracks(s, events, e, t);
    MirrorsLonger(s, events, e, t, start);
  }

  /** In every run each page holds, and each fetch shows, the last contents written to it. */
  lemma {:induction false} FetchShowsLastWrite(states: seq<Pool>, events: seq<Event>, i: nat)
    requires Run(states, events) && i <= |events|
    ensures Agrees(states[i], events[..i], states[0].disk)
    ensures i < |events| && events[i].Fetch? ==>
      events[i].data == LastWritten(events[..i], events[i].page, Read(states[0].disk, events[i].page))
  {
    if i > 0 {
      FetchShowsLastWrite(states, events, i - 1);
      assert events[..i] == events[..i - 1] + [events[i - 1]];
      StepAgrees(states[i - 1], events[..i - 1], events[i - 1], states[i - 1 + 1], states[0].disk);
    } else {
      assert events[..i] == [];
      EmptyPool(states[0]);
    }
    if i < |events| {
      StepAgrees(states[i], events[..i], events[i], states[i + 1], states[0].disk);
    }
  }
}
