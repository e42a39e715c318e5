/** The reader-writer latch: a monitor with two condition variables, as atomic steps of any number of
    threads. Every stretch of code between taking the mutex and releasing it, by returning or by
    waiting, is one step; a waiting thread may wake at any time. */
module RwLatch {

  const MAX_READERS := 0xFFFF_FFFF

  type Tid = int

  /** Where a thread stands. A waiter on `reader_` is inside WLock or RLock; a waiter on `writer_` has set
      writer_entered_ and is inside WLock. `notified` waiters have been sent a wakeup. */
  datatype Pc =
    | Outside
    | WaitReader(writer: bool, notified: bool)
    | WaitWriter(notified: bool)
    | Writing
    | Reading

  datatype State = State(threads: map<Tid, Pc>, readerCount: int, writerEntered: bool)

  // ---------- The monitor's code, one entry at a time ----------

  /** WLock, from its start or from a wakeup in its first loop. */
  function WLockStep(s: State, t: Tid): State
    requires t in s.threads
  {
    if s.writerEntered then s.(threads := s.threads[t := WaitReader(true, false)])
    else WriterWait(s.(writerEntered := true), t)
  }

  /** The second loop of WLock. */
  function WriterWait(s: State, t: Tid): State
    requires t in s.threads
  {
    s.(threads := s.threads[t := if s.readerCount > 0 then WaitWriter(false) else Writing])
  }

  function RLockStep(s: State, t: Tid): State
    requires t in s.threads
  {
    if s.writerEntered || s.readerCount == MAX_READERS then s.(threads := s.threads[t := WaitReader(false, false)])
    else s.(threads := s.threads[t := Reading], readerCount := s.readerCount + 1)
  }

  function Notify(pc: Pc): Pc {
    match pc
    case WaitReader(w, _) => WaitReader(w, true)
    case WaitWriter(_) => WaitWriter(true)
    case _ => pc
  }

  /** notify_all on `reader_` */
  function NotifyReaders(threads: map<Tid, Pc>): map<Tid, Pc> {
    map t | t in threads :: if threads[t].WaitReader? then Notify(threads[t]) else threads[t]
  }

  function WUnlockStep(s: State, t: Tid): State
    requires t in s.threads
  {
    State(NotifyReaders(s.threads[t := Outside]), s.readerCount, false)
  }

  /** notify_one: some waiter of the condition variable, if there is one, is sent a wakeup. */
  ghost predicate NotifiedOne(a: map<Tid, Pc>, b: map<Tid, Pc>, writers: bool) {
    if exists t :: Waiting(a, writers, t) then exists t :: Waiting(a, writers, t) && b == a[t := Notify(a[t])]
    else b == a
  }

  /** Waiting on `writer_`, or on `reader_`, with no wakeup sent yet. */
  ghost predicate Waiting(a: map<Tid, Pc>, writers: bool, t: Tid) {
    t in a && (if writers then a[t].WaitWriter? else a[t].WaitReader?) && !a[t].notified
  }

  ghost predicate RUnlockStep(s: State, t: Tid, s2: State)
    requires t in s.threads
  {
    var threads := s.threads[t := Outside];
    && s2.readerCount == s.readerCount - 1
    && s2.writerEntered == s.writerEntered
    && (if s.writerEntered && s2.readerCount == 0 then NotifiedOne(threads, s2.threads, true)
        else if !s.writerEntered && s2.readerCount == MAX_READERS - 1 then NotifiedOne(threads, s2.threads, false)
        else s2.threads == threads)
  }

  ghost predicate Step(s: State, t: Tid, s2: State) {
    && t in s.threads
    && match s.threads[t]
       case Outside => s2 == WLockStep(s, t) || s2 == RLockStep(s, t)
       case WaitReader(w, _) => s2 == if w then WLockStep(s, t) else RLockStep(s, t)
       case WaitWriter(_) => s2 == WriterWait(s, t)
       case Writing => s2 == WUnlockStep(s, t)
       case Reading => RUnlockStep(s, t, s2)
  }

  ghost predicate Init(s: State) {
    s.readerCount == 0 && !s.writerEntered && forall t :: t in s.threads ==> s.threads[t] == Outside
  }

  /** Each state follows from the one before by a step of some thread. */
  ghost predicate Path(states: seq<State>, who: seq<Tid>) {
    |states| == |who| + 1 && forall i :: 0 <= i < |who| ==> Step(states[i], who[i], states[i + 1])
  }

  ghost predicate Run(states: seq<State>, who: seq<Tid>) {
    Path(states, who) && Init(states[0])
  }

  // ---------- What every step keeps ----------

  ghost function Readers(s: State): set<Tid> {
    set t | t in s.threads && s.threads[t] == Reading
  }

  /** The thread that set writer_entered_. */
  predicate Owner(s: State, t: Tid) {
    t in s.threads && (s.threads[t].WaitWriter? || s.threads[t].Writing?)
  }

  ghost predicate Safe(s: State) {
    && s.readerCount == |Readers(s)|
    && (forall t, u :: Owner(s, t) && Owner(s, u) ==> t == u)
    && (s.writerEntered <==> exists t :: Owner(s, t))
    && (forall t :: t in s.threads && s.threads[t].Writing? ==> s.readerCount == 0)
    && s.readerCount <= MAX_READERS
  }

  /** No waiter is left without a wakeup it needs. */
  ghost predicate NoneForgotten(s: State) {
    && (forall t :: t in s.threads && s.threads[t].WaitReader? && !s.threads[t].notified ==>
      s.writerEntered || s.readerCount == MAX_READERS)
    && (forall t :: t in s.threads && s.threads[t].WaitWriter? && !s.threads[t].notified ==> s.readerCount > 0)
  }

  lemma ReadersAfter(s: State, t: Tid, pc: Pc, s2: State)
    requires t in s.threads && s2.threads == s.threads[t := pc]
    ensures Readers(s2) == if pc == Reading then Readers(s) + {t} else Readers(s) - {t}
    ensures |Readers(s2)| == |Readers(s)|
      + (if pc == Reading && s.threads[t] != Reading then 1
         else if pc != Reading && s.threads[t] == Reading then -1 else 0)
  {
    assert Readers(s2) == if pc == Reading then Readers(s) + {t} else Readers(s) - {t};
  }

  /** Wakeups do not change who reads or owns the latch. */
  lemma NotifyKeeps(a: State, b: State)
    requires b.threads.Keys == a.threads.Keys
    requires forall t :: t in a.threads ==> b.threads[t] == a.threads[t] || b.threads[t] == Notify(a.threads[t])
    ensures Readers(b) == Readers(a) && (forall t :: Owner(a, t) <==> Owner(b, t))
    ensures forall t :: t in a.threads ==> (a.threads[t].Writing? <==> b.threads[t].Writing?)
  {
    forall t ensures t in Readers(a) <==> t in Readers(b) {
      if t in a.threads {
        assert b.threads[t] == a.threads[t] || b.threads[t] == Notify(a.threads[t]);
      }
    }
  }

  lemma NotifiedOneNotifies(a: map<Tid, Pc>, b: map<Tid, Pc>, writers: bool)
    requires NotifiedOne(a, b, writers)
    ensures b.Keys == a.Keys && forall t :: t in a ==> b[t] == a[t] || b[t] == Notify(a[t])
  {
  }

  /** A thread that does not own the flag goes to wait or stays outside. */
  lemma WaitKeepsSafe(s: State, t: Tid, w: bool)
    requires Safe(s) && t in s.threads && (s.threads[t].Outside? || s.threads[t].WaitReader?)
    ensures Safe(s.(threads := s.threads[t := WaitReader(w, false)]))
  {
    var s2 := s.(threads := s.threads[t := WaitReader(w, false)]);
    ReadersAfter(s, t, WaitReader(w, false), s2);
    SameOwners(s, s2);
  }

  lemma SameOwners(s: State, s2: State)
    requires Safe(s) && s2.writerEntered == s.writerEntered && s2.readerCount == s.readerCount
    requires |Readers(s2)| == |Readers(s)| && forall u :: Owner(s2, u) <==> Owner(s, u)
    requires forall u :: u in s2.threads && s2.threads[u].Writing? ==> u in s.threads && s.threads[u].Writing?
    ensures Safe(s2)
  {
    assert (exists u :: Owner(s, u)) <==> (exists u :: Owner(s2, u));
  }

  /** A thread sets the flag. */
  lemma EnterKeepsSafe(s: State, t: Tid)
    requires Safe(s) && t in s.threads && (s.threads[t].Outside? || s.threads[t].WaitReader?) && !s.writerEntered
    ensures Safe(WriterWait(s.(writerEntered := true), t))
  {
    var s2 := WriterWait(s.(writerEntered := true), t);
    ReadersAfter(s, t, s2.threads[t], s2);
    assert Owner(s2, t);
    assert forall u :: u != t ==> (Owner(s2, u) <==> Owner(s, u));
    assert forall u :: u in s.threads && s.threads[u].Writing? ==> Owner(s, u);
  }

  /** A reader is admitted. */
  lemma AdmitKeepsSafe(s: State, t: Tid)
    requires Safe(s) && t in s.threads && (s.threads[t].Outside? || s.threads[t].WaitReader?)
    requires !s.writerEntered && s.readerCount != MAX_READERS
    ensures Safe(s.(threads := s.threads[t := Reading], readerCount := s.readerCount + 1))
  {
    var s2 := s.(threads := s.threads[t := Reading], readerCount := s.readerCount + 1);
    ReadersAfter(s, t, Reading, s2);
    assert forall u :: Owner(s2, u) <==> Owner(s, u);
    assert forall u :: u in s.threads && s.threads[u].Writing? ==> Owner(s, u);
  }

  lemma LockKeepsSafe(s: State, t: Tid, s2: State)
    requires Safe(s) && t in s.threads && (s.threads[t].Outside? || s.threads[t].WaitReader?)
    requires s2 == WLockStep(s, t) || s2 == RLockStep(s, t)
    ensures Safe(s2)
  {
    WaitKeepsSafe(s, t, true);
    WaitKeepsSafe(s, t, false);
    if !s.writerEntered {
      EnterKeepsSafe(s, t);
      if s.readerCount != MAX_READERS {
        AdmitKeepsSafe(s, t);
      }
    }
  }

  lemma WriterWaitKeepsSafe(s: State, t: Tid)
    requires Safe(s) && t in s.threads && s.threads[t].WaitWriter?
    ensures Safe(WriterWait(s, t))
  {
    var s2 := WriterWait(s, t);
    ReadersAfter(s, t, s2.threads[t], s2);
    assert Owner(s, t) && Owner(s2, t);
    assert forall u :: u != t ==> (Owner(s2, u) <==> Owner(s, u));
  }

  lemma WUnlockKeepsSafe(s: State, t: Tid)
    requires Safe(s) && t in s.threads && s.threads[t].Writing?
    ensures Safe(WUnlockStep(s, t))
  {
    var s1 := s.(threads := s.threads[t := Outside]);
    var s2 := WUnlockStep(s, t);
    ReadersAfter(s, t, Outside, s1);
    NotifyKeeps(s1, s2);
    assert Owner(s, t);
    assert forall u :: Owner(s1, u) ==> Owner(s, u) && u != t;
  }

  lemma RUnlockKeepsSafe(s: State, t: Tid, s2: State)
    requires Safe(s) && t in s.threads && s.threads[t].Reading? && RUnlockStep(s, t, s2)
    ensures Safe(s2)
  {
    var s1 := s.(threads := s.threads[t := Outside]);
    ReadersAfter(s, t, Outside, s1);
    if s.writerEntered && s2.readerCount == 0 {
      NotifiedOneNotifies(s1.threads, s2.threads, true);
    } else if !s.writerEntered && s2.readerCount == MAX_READERS - 1 {
      NotifiedOneNotifies(s1.threads, s2.threads, false);
    }
    NotifyKeeps(s1, s2);
    assert forall u :: Owner(s1, u) <==> Owner(s, u);
    assert t in Readers(s);
  }

  lemma StepKeepsSafe(s: State, t: Tid, s2: State)
    requires Safe(s) && Step(s, t, s2)
    ensures Safe(s2)
  {
    match s.threads[t]
    case Outside => LockKeepsSafe(s, t, s2);
    case WaitReader(_, _) => LockKeepsSafe(s, t, s2);
    case WaitWriter(_) => WriterWaitKeepsSafe(s, t);
    case Writing => WUnlockKeepsSafe(s, t);
    case Reading => RUnlockKeepsSafe(s, t, s2);
  }

  /** In every state of every run, a writer past WLock is alone: no reader and no other writer. */
  lemma {:induction false} MutualExclusion(states: seq<State>, who: seq<Tid>, i: nat)
    requires Run(states, who) && i < |states|
    ensures Safe(states[i])
    ensures var threads := states[i].threads;
      forall t, u :: t in threads && u in threads && t != u && threads[t].Writing? ==>
        !threads[u].Writing? && !threads[u].Reading?
  {
    if i == 0 {
      forall t ensures t !in Readers(states[0]) {}
      forall t ensures !Owner(states[0], t) {}
    } else {
      MutualExclusion(states, who, i - 1);
      StepKeepsSafe(states[i - 1], who[i - 1], states[i]);
    }
    var s := states[i];
    assert forall u :: u in s.threads && s.threads[u].Writing? ==> Owner(s, u);
    NobodyReads(s);
  }

  lemma NobodyReads(s: State)
    ensures |Readers(s)| == 0 ==> forall u :: u in s.threads ==> !s.threads[u].Reading?
  {
    if |Readers(s)| == 0 {
      forall u | u in s.threads ensures !s.threads[u].Reading? {
        assert u !in Readers(s);
      }
    }
  }

  lemma SomeOf<T>(a: set<T>) returns (x: T)
    requires |a| > 0
    ensures x in a
  {
    x :| x in a;
  }

  /** Once writer_entered_ is set, no step admits a reader. */
  lemma NoReaderAdmitted(s: State, t: Tid, s2: State)
    requires Step(s, t, s2) && s.writerEntered
    ensures Readers(s2) <= Readers(s)
  {
    if s.threads[t].Writing? {
      NotifyKeeps(s.(threads := s.threads[t := Outside]), s2);
    } else if s.threads[t].Reading? {
      var s1 := s.(threads := s.threads[t := Outside]);
      if s2.readerCount == 0 {
        NotifiedOneNotifies(s1.threads, s2.threads, true);
      }
      NotifyKeeps(s1, s2);
    }
  }

  // ---------- What each entry grants ----------

  /** All other threads stand where they stood, wakeups aside. */
  ghost predicate OthersStay(s: State, t: Tid, s2: State) {
    && s2.threads.Keys == s.threads.Keys
    && forall u :: u in s.threads && u != t ==> s2.threads[u] == s.threads[u] || s2.threads[u] == Notify(s.threads[u])
  }

  /** RLock lets the thread in, and counts it, exactly when no flag is set and the limit is not reached. */
  lemma ReaderAdmitted(s: State, t: Tid, s2: State)
    requires Safe(s) && t in s.threads && (s.threads[t].Outside? || s.threads[t].WaitReader?) && s2 == RLockStep(s, t)
    ensures s2.writerEntered == s.writerEntered
    ensures forall u :: u in s.threads && u != t ==> s2.threads[u] == s.threads[u]
    ensures !s.writerEntered && s.readerCount < MAX_READERS ==>
      Readers(s2) == Readers(s) + {t} && s2.readerCount == s.readerCount + 1
    ensures s.writerEntered || s.readerCount == MAX_READERS ==>
      s2.threads[t] == WaitReader(false, false) && Readers(s2) == Readers(s) && s2.readerCount == s.readerCount
  {
    ReadersAfter(s, t, s2.threads[t], s2);
  }

  /** WLock takes the flag exactly when nobody has it; with no reader left the thread then has the latch. */
  lemma WriterAdmitted(s: State, t: Tid, s2: State)
    requires Safe(s) && t in s.threads && (s.threads[t].Outside? || s.threads[t].WaitReader?) && s2 == WLockStep(s, t)
    ensures s2.writerEntered && s2.readerCount == s.readerCount
    ensures forall u :: u in s.threads && u != t ==> s2.threads[u] == s.threads[u]
    ensures !s.writerEntered && s.readerCount == 0 ==> s2.threads[t] == Writing
    ensures !s.writerEntered && s.readerCount > 0 ==> s2.threads[t] == WaitWriter(false)
    ensures s.writerEntered ==> s2.threads[t] == WaitReader(true, false)
  {
  }

  /** A thread that waits does what it waits for: it tries the same lock again. */
  lemma WaiterRetries(s: State, t: Tid, s2: State)
    requires Step(s, t, s2) && s.threads[t].WaitReader?
    ensures s2 == if s.threads[t].writer then WLockStep(s, t) else RLockStep(s, t)
  {
  }

  /** The owner of the flag gets the latch at its next step if and only if the readers are gone. */
  lemma OwnerEnters(s: State, t: Tid, s2: State)
    requires Safe(s) && Step(s, t, s2) && s.threads[t].WaitWriter?
    ensures s.readerCount == 0 <==> s2.threads[t] == Writing
    ensures s.readerCount > 0 ==> s2.threads[t] == WaitWriter(false)
    ensures s2.readerCount == s.readerCount && s2.writerEntered
    ensures forall u :: u in s.threads && u != t ==> s2.threads[u] == s.threads[u]
  {
    assert Owner(s, t);
  }

  /** WUnlock gives up the latch and the flag, and sends every thread that waits on `reader_` a wakeup. */
  lemma WriterLeaves(s: State, t: Tid, s2: State)
    requires Safe(s) && Step(s, t, s2) && s.threads[t].Writing?
    ensures s2.threads[t] == Outside && !s2.writerEntered && (forall u :: !Owner(s2, u))
    ensures OthersStay(s, t, s2) && s2.readerCount == s.readerCount
    ensures forall u :: u in s2.threads && s2.threads[u].WaitReader? ==> s2.threads[u].notified
  {
    assert Owner(s, t);
    forall u ensures !Owner(s2, u) {
      assert u != t ==> (Owner(s2, u) ==> Owner(s, u));
    }
  }

  /** RUnlock takes the thread out of the readers; the last one out wakes the owner of the flag. */
  lemma ReaderLeaves(s: State, t: Tid, s2: State)
    requires Safe(s) && Step(s, t, s2) && s.threads[t].Reading?
    ensures s2.threads[t] == Outside && Readers(s2) == Readers(s) - {t} && s2.readerCount == s.readerCount - 1
    ensures OthersStay(s, t, s2) && s2.writerEntered == s.writerEntered
    ensures s2.readerCount == 0 ==> forall u :: u in s2.threads && s2.threads[u].WaitWriter? ==> s2.threads[u].notified
  {
    var s1 := s.(threads := s.threads[t := Outside]);
    ReadersAfter(s, t, Outside, s1);
    if s.writerEntered && s2.readerCount == 0 {
      NotifiedOneNotifies(s1.threads, s2.threads, true);
    } else if !s.writerEntered && s2.readerCount == MAX_READERS - 1 {
      NotifiedOneNotifies(s1.threads, s2.threads, false);
    }
    NotifyKeeps(s1, s2);
    if s2.readerCount == 0 {
      forall u | u in s2.threads && s2.threads[u].WaitWriter? ensures s2.threads[u].notified {
        assert Owner(s2, u) && Owner(s1, u);
        OwnerIsWoken(s, t, s2, u);
      }
    }
  }

  lemma OwnerIsWoken(s: State, t: Tid, s2: State, u: Tid)
    requires Safe(s) && Step(s, t, s2) && s.threads[t].Reading? && s2.readerCount == 0
    requires u in s2.threads && s2.threads[u].WaitWriter? && Owner(s, u)
    ensures s2.threads[u].notified
  {
    var a := s.threads[t := Outside];
    NotifiedOneNotifies(a, s2.threads, true);
    if !a[u].notified {
      assert Waiting(a, true, u);
      var v :| Waiting(a, true, v) && s2.threads == a[v := Notify(a[v])];
      assert Owner(s, v);
    }
  }

  /** No thread is ever without a step. */
  lemma EveryThreadSteps(s: State, t: Tid)
    requires t in s.threads
    ensures exists s2 :: Step(s, t, s2)
  {
    match s.threads[t]
    case Outside => assert Step(s, t, WLockStep(s, t));
    case WaitReader(w, _) => assert Step(s, t, if w then WLockStep(s, t) else RLockStep(s, t));
    case WaitWriter(_) => assert Step(s, t, WriterWait(s, t));
    case Writing => assert Step(s, t, WUnlockStep(s, t));
    case Reading =>
      var a := s.threads[t := Outside];
      var count := s.readerCount - 1;
      var b := if s.writerEntered && count == 0 then Woken(a, true)
               else if !s.writerEntered && count == MAX_READERS - 1 then Woken(a, false) else a;
      assert Step(s, t, State(b, count, s.writerEntered));
  }

  /** One choice of the waiter that notify_one wakes. */
  ghost function Woken(a: map<Tid, Pc>, writers: bool): (b: map<Tid, Pc>)
    ensures NotifiedOne(a, b, writers)
  {
    if exists t :: Waiting(a, writers, t) then
      var t :| Waiting(a, writers, t);
      a[t := Notify(a[t])]
    else a
  }

  // ---------- No deadlock ----------

  /** How far a thread is from having left. */
  function Distance(pc: Pc): nat {
    match pc
    case Outside => 0
    case Writing => 1
    case Reading => 1
    case WaitWriter(_) => 2
    case WaitReader(_, _) => 3
  }

  ghost function AtDistance(s: State, k: nat): set<Tid> {
    set t | t in s.threads && Distance(s.threads[t]) == k
  }

  ghost predicate Nearer(s: State, t: Tid, s2: State) {
    && t in s.threads && OthersStay(s, t, s2) && Distance(s2.threads[t]) < Distance(s.threads[t])
  }

  lemma NearerCounts(s: State, t: Tid, s2: State)
    requires Nearer(s, t, s2)
    ensures var k := Distance(s.threads[t]);
      |AtDistance(s2, k)| < |AtDistance(s, k)| && forall m :: m > k ==> AtDistance(s2, m) == AtDistance(s, m)
  {
    var k := Distance(s.threads[t]);
    forall u | u in s.threads && u != t ensures Distance(s2.threads[u]) == Distance(s.threads[u]) {
      assert s2.threads[u] == s.threads[u] || s2.threads[u] == Notify(s.threads[u]);
    }
    assert AtDistance(s2, k) == AtDistance(s, k) - {t} && t in AtDistance(s, k);
    forall m | m > k ensures AtDistance(s2, m) == AtDistance(s, m) {
      assert forall u :: u in AtDistance(s2, m) <==> u in AtDistance(s, m);
    }
  }

  /** While some thread is inside, some thread's step brings it nearer to leaving. */
  lemma SomeoneProgresses(s: State) returns (t: Tid, s2: State)
    requires Safe(s) && exists u :: u in s.threads && s.threads[u] != Outside
    ensures Step(s, t, s2) && Safe(s2) && Nearer(s, t, s2)
  {
    if s.readerCount > 0 {
      t := SomeOf(Readers(s));
      EveryThreadSteps(s, t);
      s2 :| Step(s, t, s2);
      ReaderLeaves(s, t, s2);
    } else if s.writerEntered {
      t :| Owner(s, t);
      s2 := if s.threads[t].Writing? then WUnlockStep(s, t) else WriterWait(s, t);
      if s.threads[t].Writing? {
        WriterLeaves(s, t, s2);
      } else {
        OwnerEnters(s, t, s2);
      }
    } else {
      t :| t in s.threads && s.threads[t] != Outside;
      NobodyReads(s);
      assert !Owner(s, t);
      s2 := if s.threads[t].writer then WLockStep(s, t) else RLockStep(s, t);
      ReaderAdmitted(s, t, RLockStep(s, t));
    }
    StepKeepsSafe(s, t, s2);
  }

  /** From every safe state the threads can go on so that all of them get what they wait for and leave. */
  lemma {:induction false} EveryoneCanLeave(s: State) returns (states: seq<State>, who: seq<Tid>)
    requires Safe(s)
    ensures Path(states, who) && states[0] == s
    ensures forall t :: t in states[|who|].threads ==> states[|who|].threads[t] == Outside
    decreases |AtDistance(s, 3)|, |AtDistance(s, 2)|, |AtDistance(s, 1)|
  {
    if t :| t in s.threads && s.threads[t] != Outside {
      var u, s2 := SomeoneProgresses(s);
      NearerCounts(s, u, s2);
      var rest, whoRest := EveryoneCanLeave(s2);
      states, who := [s] + rest, [u] + whoRest;
    } else {
      states, who := [s], [];
    }
  }

  // ---------- No lost wakeup ----------

  /** The reader limit blocks one thread at a time at most. */
  ghost predicate Few(s: State) {
    |s.threads| <= MAX_READERS + 1
  }

  lemma OneBlocked(s: State, u: Tid, v: Tid)
    requires Safe(s) && Few(s) && s.readerCount == MAX_READERS
    requires u in s.threads && v in s.threads && !s.threads[u].Reading? && !s.threads[v].Reading?
    ensures u == v
  {
    var others := s.threads.Keys - Readers(s);
    assert s.threads.Keys == Readers(s) + others && |s.threads| == |s.threads.Keys|;
    assert |others - {u}| == 0 && v in others;
  }

  lemma StepKeepsThreads(s: State, t: Tid, s2: State)
    requires Step(s, t, s2)
    ensures s2.threads.Keys == s.threads.Keys
  {
  }

  lemma RUnlockForgetsNone(s: State, t: Tid, s2: State)
    requires Safe(s) && Few(s) && NoneForgotten(s) && t in s.threads && s.threads[t].Reading? && RUnlockStep(s, t, s2)
    ensures NoneForgotten(s2)
  {
    var a := s.threads[t := Outside];
    assert forall u :: u in s.threads && s.threads[u].WaitWriter? ==> Owner(s, u);
    if !s.writerEntered && s2.readerCount == MAX_READERS - 1 {
      NotifiedOneNotifies(a, s2.threads, false);
      forall u | u in s2.threads && s2.threads[u].WaitReader? ensures s2.threads[u].notified {
        if !a[u].notified {
          assert Waiting(a, false, u);
          var v :| Waiting(a, false, v) && s2.threads == a[v := Notify(a[v])];
          OneBlocked(s, u, v);
        }
      }
    } else if s.writerEntered && s2.readerCount == 0 {
      NotifiedOneNotifies(a, s2.threads, true);
      forall u | u in s2.threads && s2.threads[u].WaitWriter? ensures s2.threads[u].notified {
        if !a[u].notified {
          assert Waiting(a, true, u);
          var v :| Waiting(a, true, v) && s2.threads == a[v := Notify(a[v])];
          assert Owner(s, u) && Owner(s, v);
        }
      }
    }
  }

  lemma StepForgetsNone(s: State, t: Tid, s2: State)
    requires Safe(s) && Few(s) && NoneForgotten(s) && Step(s, t, s2)
    ensures NoneForgotten(s2)
  {
    match s.threads[t]
    case Reading => RUnlockForgetsNone(s, t, s2);
    case Writing =>
      forall u | u in s2.threads && s2.threads[u].WaitWriter? ensures false {
        assert Owner(s, u) && Owner(s, t);
      }
    case _ =>
  }

  /** The thread holds the latch, or set writer_entered_ and has been sent a wakeup. */
  predicate Moves(s: State, u: Tid) {
    && u in s.threads
    && (s.threads[u].Writing? || s.threads[u].Reading? || (s.threads[u].WaitWriter? && s.threads[u].notified))
  }

  predicate Stuck(s: State, t: Tid) {
    t in s.threads && (s.threads[t].WaitReader? || s.threads[t].WaitWriter?) && !s.threads[t].notified
  }

  /** Whenever a thread waits without a wakeup on its way, some other thread holds the latch and will
      release it, or has been sent a wakeup. */
  lemma SomeoneCanMove(s: State, t: Tid)
    requires Safe(s) && NoneForgotten(s)
    requires Stuck(s, t)
    ensures exists u :: u != t && Moves(s, u)
  {
    if s.threads[t].WaitReader? && s.writerEntered {
      var u :| Owner(s, u);
      if s.threads[u].WaitWriter? && !s.threads[u].notified {
        SomeReader(s);
      } else {
        assert Moves(s, u);
      }
    } else {
      SomeReader(s);
    }
  }

  lemma SomeReader(s: State)
    requires Safe(s) && s.readerCount > 0
    ensures exists u :: u in s.threads && s.threads[u].Reading? && Moves(s, u)
  {
    var u := SomeOf(Readers(s));
    assert Moves(s, u);
  }

  /** In every run of at most MAX_READERS + 1 threads no wakeup is lost. */
  lemma {:induction false} NoLostWakeup(states: seq<State>, who: seq<Tid>, i: nat)
    requires Run(states, who) && Few(states[0]) && i < |states|
    ensures Few(states[i]) && NoneForgotten(states[i])
    ensures forall t :: Stuck(states[i], t) ==> exists u :: u != t && Moves(states[i], u)
  {
    MutualExclusion(states, who, i);
    if i > 0 {
      NoLostWakeup(states, who, i - 1);
      MutualExclusion(states, who, i - 1);
      StepForgetsNone(states[i - 1], who[i - 1], states[i]);
      StepKeepsThreads(states[i - 1], who[i - 1], states[i]);
      assert |states[i].threads| == |states[i].threads.Keys|;
    }
    var s := states[i];
    forall t | Stuck(s, t) ensures exists u :: u != t && Moves(s, u) {
      SomeoneCanMove(s, t);
    }
  }

  // ---------- With more threads than that a wakeup can be lost ----------

  ghost predicate Reaches(s: State, s2: State) {
    exists states, who :: Path(states, who) && states[0] == s && states[|who|] == s2
  }

  lemma ReachesStep(s: State, t: Tid, s2: State, s3: State)
    requires Step(s, t, s2) && Reaches(s2, s3)
    ensures Reaches(s, s3)
  {
    var states, who :| Path(states, who) && states[0] == s2 && states[|who|] == s3;
    assert Path([s] + states, [t] + who);
    assert ([s] + states)[|[t] + who|] == s3;
  }

  lemma ReachesSelf(s: State)
    ensures Reaches(s, s)
  {
    assert Path([s], []);
  }

  lemma ReachesOn(a: State, b: State, c: State)
    requires Reaches(a, b) && Reaches(b, c)
    ensures Reaches(a, c)
  {
    var states, who :| Path(states, who) && states[0] == a && states[|who|] == b;
    var states2, who2 :| Path(states2, who2) && states2[0] == b && states2[|who2|] == c;
    var path, whom := states[..|who|] + states2, who + who2;
    forall i | 0 <= i < |whom| ensures Step(path[i], whom[i], path[i + 1]) {
      if i < |who| {
        assert Step(states[i], who[i], states[i + 1]);
      } else {
        assert Step(states2[i - |who|], who2[i - |who|], states2[i - |who| + 1]);
      }
    }
    assert Path(path, whom) && path[0] == a && path[|whom|] == c;
  }

  /** Threads, all standing at `pc`. */
  ghost function AllAt(threads: map<Tid, Pc>, group: set<Tid>, pc: Pc): map<Tid, Pc> {
    map t | t in threads :: if t in group then pc else threads[t]
  }

  /** A group of threads outside takes read latches one after another. */
  lemma {:induction false} GroupEnters(s: State, group: set<Tid>)
    requires group <= s.threads.Keys && (forall t :: t in group ==> s.threads[t] == Outside)
    requires !s.writerEntered && 0 <= s.readerCount && s.readerCount + |group| <= MAX_READERS
    ensures Reaches(s, State(AllAt(s.threads, group, Reading), s.readerCount + |group|, false))
    decreases group
  {
    if group == {} {
      assert AllAt(s.threads, group, Reading) == s.threads;
      ReachesSelf(s);
    } else {
      var t := SomeOf(group);
      var s2 := RLockStep(s, t);
      assert Step(s, t, s2);
      GroupEnters(s2, group - {t});
      assert AllAt(s2.threads, group - {t}, Reading) == AllAt(s.threads, group, Reading);
      ReachesStep(s, t, s2, State(AllAt(s.threads, group, Reading), s.readerCount + |group|, false));
    }
  }

  /** A group of readers leaves, once the limit is not reached any more and nobody has the flag. */
  lemma {:induction false} GroupLeaves(s: State, group: set<Tid>)
    requires group <= s.threads.Keys && (forall t :: t in group ==> s.threads[t] == Reading)
    requires !s.writerEntered && s.readerCount < MAX_READERS
    ensures Reaches(s, State(AllAt(s.threads, group, Outside), s.readerCount - |group|, false))
    decreases group
  {
    if group == {} {
      assert AllAt(s.threads, group, Outside) == s.threads;
      ReachesSelf(s);
    } else {
      var t := SomeOf(group);
      var s2 := State(s.threads[t := Outside], s.readerCount - 1, false);
      assert Step(s, t, s2);
      GroupLeaves(s2, group - {t});
      assert AllAt(s2.threads, group - {t}, Outside) == AllAt(s.threads, group, Outside);
      ReachesStep(s, t, s2, State(AllAt(s.threads, group, Outside), s.readerCount - |group|, false));
    }
  }

  lemma {:induction false} Subset(all: set<Tid>, n: nat) returns (part: set<Tid>)
    requires n <= |all|
    ensures part <= all && |part| == n
  {
    if n == 0 {
      part := {};
    } else {
      var t := SomeOf(all);
      var rest := Subset(all - {t}, n - 1);
      part := rest + {t};
    }
  }

  /** All threads outside, but for readers and two threads, which may stand elsewhere. */
  ghost function Crowd(all: set<Tid>, readers: set<Tid>, u: Tid, pu: Pc, t: Tid, pt: Pc): State {
    State(map v | v in all :: if v in readers then Reading else if v == u then pu else if v == t then pt else Outside,
          |readers|, false)
  }

  /** MAX_READERS readers come in, and two more threads have to wait. */
  lemma LimitReached(all: set<Tid>, readers: set<Tid>, u: Tid, t: Tid)
    requires readers <= all && u in all - readers && t in all - readers && u != t && |readers| == MAX_READERS
    ensures Reaches(Crowd(all, {}, u, Outside, t, Outside),
                    Crowd(all, readers, u, WaitReader(false, false), t, WaitReader(false, false)))
  {
    var start := Crowd(all, {}, u, Outside, t, Outside);
    GroupEnters(start, readers);
    var full := Crowd(all, readers, u, Outside, t, Outside);
    assert AllAt(start.threads, readers, Reading) == full.threads;
    var one := Crowd(all, readers, u, WaitReader(false, false), t, Outside);
    var two := Crowd(all, readers, u, WaitReader(false, false), t, WaitReader(false, false));
    assert full.threads[u := WaitReader(false, false)] == one.threads && Step(full, u, one);
    assert one.threads[t := WaitReader(false, false)] == two.threads && Step(one, t, two);
    ReachesSelf(two);
    ReachesStep(one, t, two, two);
    ReachesStep(full, u, one, two);
    ReachesOn(start, full, two);
  }

  /** One reader leaves and wakes one of the two; then all others leave, that one comes in and leaves, and nobody
      has woken the other. */
  lemma LimitLeft(all: set<Tid>, readers: set<Tid>, r: Tid, u: Tid, t: Tid)
    requires readers <= all && r in readers && u in all - readers && t in all - readers && u != t
    requires |readers| == MAX_READERS
    ensures Reaches(Crowd(all, readers, u, WaitReader(false, false), t, WaitReader(false, false)),
                    Crowd(all, {}, u, Outside, t, WaitReader(false, false)))
  {
    var w := WaitReader(false, false);
    var two := Crowd(all, readers, u, w, t, w);
    var woken := Crowd(all, readers - {r}, u, WaitReader(false, true), t, w);
    assert two.threads[r := Outside][u := WaitReader(false, true)] == woken.threads;
    LastWakeup(two, r, u, woken);
    GroupLeaves(woken, readers - {r});
    var quiet := Crowd(all, {}, u, WaitReader(false, true), t, w);
    assert AllAt(woken.threads, readers - {r}, Outside) == quiet.threads;
    WokenLeaves(all, u, t);
    ReachesOn(woken, quiet, Crowd(all, {}, u, Outside, t, w));
    ReachesStep(two, r, woken, Crowd(all, {}, u, Outside, t, w));
  }

  lemma WokenLeaves(all: set<Tid>, u: Tid, t: Tid)
    requires u in all && t in all && u != t
    ensures Reaches(Crowd(all, {}, u, WaitReader(false, true), t, WaitReader(false, false)),
                    Crowd(all, {}, u, Outside, t, WaitReader(false, false)))
  {
    var quiet := Crowd(all, {}, u, WaitReader(false, true), t, WaitReader(false, false));
    var inside := State(quiet.threads[u := Reading], 1, false);
    var end := Crowd(all, {}, u, Outside, t, WaitReader(false, false));
    assert inside.threads[u := Outside] == end.threads;
    assert Step(quiet, u, inside) && Step(inside, u, end);
    ReachesSelf(end);
    ReachesStep(inside, u, end, end);
    ReachesStep(quiet, u, inside, end);
  }

  /** With two threads more than the limit there is a run that ends with a thread waiting for nobody. */
  lemma LimitLosesWakeup(all: set<Tid>) returns (start: State, end: State, t: Tid)
    requires |all| >= MAX_READERS + 2
    ensures Init(start) && start.threads.Keys == all && Reaches(start, end)
    ensures Stuck(end, t) && forall u :: !Moves(end, u)
  {
    var u := SomeOf(all);
    t := SomeOf(all - {u});
    var readers := Subset(all - {u} - {t}, MAX_READERS);
    var r := SomeOf(readers);
    start, end := Crowd(all, {}, u, Outside, t, Outside), Crowd(all, {}, u, Outside, t, WaitReader(false, false));
    LimitReached(all, readers, u, t);
    LimitLeft(all, readers, r, u, t);
    ReachesOn(start, Crowd(all, readers, u, WaitReader(false, false), t, WaitReader(false, false)), end);
  }

  lemma LastWakeup(s: State, r: Tid, u: Tid, s2: State)
    requires r in s.threads && s.threads[r].Reading? && u in s.threads && u != r
    requires s.threads[u] == WaitReader(false, false) && !s.writerEntered && s.readerCount == MAX_READERS
    requires s2 == State(s.threads[r := Outside][u := WaitReader(false, true)], MAX_READERS - 1, false)
    ensures Step(s, r, s2)
  {
    var a := s.threads[r := Outside];
    assert Waiting(a, false, u) && s2.threads == a[u := Notify(a[u])];
  }

  /** No wakeup is lost: whoever waits without one, some other thread can move. */
  ghost predicate NoneStuck(s: State) {
    forall t :: Stuck(s, t) ==> exists u :: u != t && Moves(s, u)
  }

  /** The latch loses no wakeup in any run of these threads if and only if there are at most MAX_READERS + 1. */
  lemma NoLostWakeupIff(all: set<Tid>)
    ensures (forall start, s :: Init(start) && start.threads.Keys == all && Reaches(start, s) ==> NoneStuck(s))
      <==> |all| <= MAX_READERS + 1
  {
    if |all| <= MAX_READERS + 1 {
      forall start, s | Init(start) && start.threads.Keys == all && Reaches(start, s) ensures NoneStuck(s) {
        var states, who :| Path(states, who) && states[0] == start && states[|who|] == s;
        assert |start.threads| == |start.threads.Keys|;
        NoLostWakeup(states, who, |who|);
      }
    } else {
      var start, end, t := LimitLosesWakeup(all);
      assert !NoneStuck(end);
    }
  }
}
