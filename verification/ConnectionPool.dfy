/**
 The connection pool as a protocol of threads. `allocate` runs under the lock; `release` tests the size
 of the free list outside the lock and pushes inside it. One step is one access to shared state.

 A schedule names, step by step, which thread moves, and whether the connection it looks at has been closed
 by the server. A thread that waits for the lock stays where it is.
 */
module ConnectionPool {

  datatype Pc =
    | Idle
    | Entered                 // allocate, holding the lock, before `empty()`
    | Popping                 // found the list not empty
    | Checking(conn: nat)     // popped, before `isClosed()`
    | Creating                // about to create a connection
    | Leaving(conn: nat)      // about to release the lock with this connection
    | Holding(conn: nat)      // outside: the caller uses the connection
    | Destroying(conn: nat)   // release found the list longer than the maximum
    | Queued(conn: nat)       // release found room, before taking the lock
    | Pushing(conn: nat)      // holding the lock, before `push_back`
    | Unlocking               // pushed, before releasing the lock

  datatype Lock = Free | HeldBy(thread: nat)

  /** Connections are numbered in the order they are created. `fault` records a pop from an empty list. */
  datatype Pool = Pool(threads: seq<Pc>, lock: Lock, free: seq<nat>, created: nat, destroyed: set<nat>, fault: bool)

  datatype Move = Move(thread: nat, closed: bool)

  predicate Has(pc: Pc) {
    pc.Checking? || pc.Leaving? || pc.Holding? || pc.Destroying? || pc.Queued? || pc.Pushing?
  }

  predicate Locked(pc: Pc) {
    pc.Entered? || pc.Popping? || pc.Checking? || pc.Creating? || pc.Leaving? || pc.Pushing? || pc.Unlocking?
  }

  function At(s: Pool, t: nat, pc: Pc): Pool
    requires t < |s.threads|
  {
    s.(threads := s.threads[t := pc])
  }

  function Step(max: nat, s: Pool, m: Move): Pool {
    if m.thread >= |s.threads| then s
    else
      var t := m.thread;
      match s.threads[t]
      case Idle => if s.lock.Free? then At(s, t, Entered).(lock := HeldBy(t)) else s
      case Entered => At(s, t, if s.free == [] then Creating else Popping)
      case Popping =>
        if s.free == [] then s.(fault := true)
        else At(s, t, Checking(s.free[|s.free| - 1])).(free := s.free[..|s.free| - 1])
      case Checking(c) =>
        if m.closed then At(s, t, Creating).(destroyed := s.destroyed + {c}) else At(s, t, Leaving(c))
      case Creating => At(s, t, Leaving(s.created)).(created := s.created + 1)
      case Leaving(c) => At(s, t, Holding(c)).(lock := Free)
      case Holding(c) => At(s, t, if |s.free| > max then Destroying(c) else Queued(c))
      case Destroying(c) => At(s, t, Idle).(destroyed := s.destroyed + {c})
      case Queued(c) => if s.lock.Free? then At(s, t, Pushing(c)).(lock := HeldBy(t)) else s
      case Pushing(c) => At(s, t, Unlocking).(free := s.free + [c])
      case Unlocking => At(s, t, Idle).(lock := Free)
  }

  function Start(k: nat): Pool {
    Pool(seq(k, _ => Idle), Free, [], 0, {}, false)
  }

  function Run(max: nat, s: Pool, ms: seq<Move>): Pool {
    if ms == [] then s else Step(max, Run(max, s, ms[..|ms| - 1]), ms[|ms| - 1])
  }

  /** How many threads have a connection in hand. */
  function Held(threads: seq<Pc>): (n: nat)
    ensures n <= |threads|
  {
    if threads == [] then 0 else (if Has(threads[0]) then 1 else 0) + Held(threads[1..])
  }

  lemma {:induction false} HeldAfter(threads: seq<Pc>, t: nat, pc: Pc)
    requires t < |threads|
    ensures Held(threads[t := pc]) == Held(threads) - (if Has(threads[t]) then 1 else 0) + (if Has(pc) then 1 else 0)
  {
    var after := threads[t := pc];
    if t == 0 {
      assert after[1..] == threads[1..];
    } else {
      assert after[1..] == threads[1..][t - 1 := pc];
      HeldAfter(threads[1..], t - 1, pc);
    }
  }

  // ---- mutual exclusion, and no pop from an empty list ----

  ghost predicate Exclusive(s: Pool) {
    && (forall t :: 0 <= t < |s.threads| ==> (Locked(s.threads[t]) <==> s.lock == HeldBy(t)))
    && (forall t :: 0 <= t < |s.threads| && s.threads[t].Popping? ==> s.free != [])
    && !s.fault
  }

  lemma ExclusiveStep(max: nat, s: Pool, m: Move)
    requires Exclusive(s)
    ensures Exclusive(Step(max, s, m))
  {
  }

  /** A thread that waits for the lock stays where it is, and so does everything else. */
  lemma WaitsForTheLock(max: nat, s: Pool, m: Move)
    requires m.thread < |s.threads| && s.lock.HeldBy?
    requires s.threads[m.thread].Idle? || s.threads[m.thread].Queued?
    ensures Step(max, s, m) == s
  {
  }

  /** One move is one thread's: no other thread is moved by it. */
  lemma OthersStay(max: nat, s: Pool, m: Move, u: nat)
    requires u < |s.threads| && u != m.thread
    ensures |Step(max, s, m).threads| == |s.threads| && Step(max, s, m).threads[u] == s.threads[u]
  {
  }

  // ---- ownership ----

  /** Each connection is in one place: in the free list once, with one thread, or destroyed. */
  ghost predicate Owned(s: Pool) {
    && (forall i :: 0 <= i < |s.free| ==> s.free[i] < s.created && s.free[i] !in s.destroyed)
    && (forall i, j :: 0 <= i < j < |s.free| ==> s.free[i] != s.free[j])
    && (forall t :: 0 <= t < |s.threads| && Has(s.threads[t]) ==>
          s.threads[t].conn < s.created && s.threads[t].conn !in s.destroyed && s.threads[t].conn !in s.free)
    && (forall t, u :: 0 <= t < u < |s.threads| && Has(s.threads[t]) && Has(s.threads[u]) ==>
          s.threads[t].conn != s.threads[u].conn)
    && (forall c :: c in s.destroyed ==> c < s.created)
  }

  lemma OwnedKeep(s: Pool, s': Pool, t: nat, pc: Pc)
    requires Owned(s) && t < |s.threads|
    requires s'.threads == s.threads[t := pc]
    requires s'.free == s.free && s'.created == s.created && s'.destroyed == s.destroyed
    requires Has(pc) <==> Has(s.threads[t])
    requires Has(pc) ==> pc.conn == s.threads[t].conn
    ensures Owned(s')
  {
  }

  lemma OwnedPop(s: Pool, t: nat)
    requires Owned(s) && t < |s.threads| && !Has(s.threads[t]) && s.free != []
    ensures Owned(At(s, t, Checking(s.free[|s.free| - 1])).(free := s.free[..|s.free| - 1]))
  {
  }

  lemma OwnedDrop(s: Pool, t: nat, pc: Pc)
    requires Owned(s) && t < |s.threads| && Has(s.threads[t]) && !Has(pc)
    ensures Owned(At(s, t, pc).(destroyed := s.destroyed + {s.threads[t].conn}))
  {
  }

  lemma OwnedCreate(s: Pool, t: nat)
    requires Owned(s) && t < |s.threads| && !Has(s.threads[t])
    ensures Owned(At(s, t, Leaving(s.created)).(created := s.created + 1))
  {
  }

  lemma OwnedPush(s: Pool, t: nat, pc: Pc)
    requires Owned(s) && t < |s.threads| && Has(s.threads[t]) && !Has(pc)
    ensures Owned(At(s, t, pc).(free := s.free + [s.threads[t].conn]))
  {
  }

  lemma OwnedStep(max: nat, s: Pool, m: Move)
    requires Owned(s)
    ensures Owned(Step(max, s, m))
  {
    hide Owned;
    var t := m.thread;
    if t < |s.threads| {
      var s' := Step(max, s, m);
      var pc := s'.threads[t];
      match s.threads[t]
      case Popping => if s.free != [] { OwnedPop(s, t); } else { OwnedKeep(s, s', t, pc); }
      case Checking(c) => if m.closed { OwnedDrop(s, t, Creating); } else { OwnedKeep(s, s', t, pc); }
      case Creating => OwnedCreate(s, t);
      case Destroying(c) => OwnedDrop(s, t, Idle);
      case Pushing(c) => OwnedPush(s, t, Unlocking);
      case _ => OwnedKeep(s, s', t, pc);
    }
  }

  /** Connections that are free or in hand. */
  function Live(s: Pool): nat {
    |s.free| + Held(s.threads)
  }

  /** Nothing is lost: every connection ever created is free, in hand or destroyed. */
  ghost predicate Counted(s: Pool) {
    s.created == Live(s) + |s.destroyed|
  }

  /** How one step changes the number of connections that are free or in hand. */
  lemma LiveAfter(max: nat, s: Pool, m: Move)
    ensures var s' := Step(max, s, m);
            Live(s') == Live(s) + (if Creates(s, m) then 1 else 0) - (if Destroys(s, m) then 1 else 0)
  {
    hide Held;
    if m.thread < |s.threads| {
      HeldAfter(s.threads, m.thread, Step(max, s, m).threads[m.thread]);
    }
  }

  predicate Creates(s: Pool, m: Move) {
    m.thread < |s.threads| && s.threads[m.thread].Creating?
  }

  predicate Destroys(s: Pool, m: Move) {
    m.thread < |s.threads| && (s.threads[m.thread].Destroying? || (s.threads[m.thread].Checking? && m.closed))
  }

  lemma CreatedAndDestroyed(max: nat, s: Pool, m: Move)
    requires Owned(s)
    ensures var s' := Step(max, s, m);
            && s'.created == s.created + (if Creates(s, m) then 1 else 0)
            && |s'.destroyed| == |s.destroyed| + (if Destroys(s, m) then 1 else 0)
  {
    if Destroys(s, m) {
      assert s.threads[m.thread].conn !in s.destroyed;
    }
  }

  lemma CountedStep(max: nat, s: Pool, m: Move)
    requires Owned(s) && Counted(s)
    ensures Counted(Step(max, s, m))
  {
    hide Owned;
    hide Step;
    LiveAfter(max, s, m);
    CreatedAndDestroyed(max, s, m);
  }

  lemma {:induction false} HeldAtStart(k: nat)
    ensures Held(Start(k).threads) == 0
  {
    if k > 0 {
      assert Start(k).threads[1..] == Start(k - 1).threads;
      HeldAtStart(k - 1);
    }
  }

  lemma {:induction false} ThreadCount(max: nat, k: nat, ms: seq<Move>)
    ensures |Run(max, Start(k), ms).threads| == k
  {
    if ms != [] { ThreadCount(max, k, ms[..|ms| - 1]); }
  }

  /**
   Under every schedule of k threads: `allocate` never pops an empty list, no connection is in two places,
   and created = free + held + destroyed.
   */
  lemma {:induction false} PoolIsSafe(max: nat, k: nat, ms: seq<Move>)
    ensures var s := Run(max, Start(k), ms);
            Exclusive(s) && Owned(s) && Counted(s)
  {
    if ms == [] {
      HeldAtStart(k);
    } else {
      var front, m := ms[..|ms| - 1], ms[|ms| - 1];
      var s := Run(max, Start(k), front);
      PoolIsSafe(max, k, front);
      ExclusiveStep(max, s, m);
      OwnedStep(max, s, m);
      CountedStep(max, s, m);
    }
  }

  // ---- how many connections there are ----

  /** At some moment of the run, at least `n` threads had a connection in hand at once. */
  ghost predicate WereHeld(max: nat, k: nat, ms: seq<Move>, n: int) {
    exists i :: 0 <= i <= |ms| && n <= Held(Run(max, Start(k), ms[..i]).threads)
  }

  /** A thread that is about to create a connection found the list empty, or has just dropped a closed one. */
  ghost predicate CreatingIsCovered(max: nat, k: nat, ms: seq<Move>) {
    var s := Run(max, Start(k), ms);
    forall t :: 0 <= t < |s.threads| && s.threads[t].Creating? ==>
      s.free == [] || WereHeld(max, k, ms, Live(s) + 1)
  }

  lemma WereHeldExtends(max: nat, k: nat, ms: seq<Move>, n: int)
    requires ms != [] && WereHeld(max, k, ms[..|ms| - 1], n)
    ensures WereHeld(max, k, ms, n)
  {
    var front := ms[..|ms| - 1];
    var i :| 0 <= i <= |front| && n <= Held(Run(max, Start(k), front[..i]).threads);
    assert ms[..i] == front[..i];
  }

  lemma WereHeldNow(max: nat, k: nat, ms: seq<Move>)
    ensures WereHeld(max, k, ms, Held(Run(max, Start(k), ms).threads))
  {
    assert ms[..|ms|] == ms;
  }

  /**
   High water: the connections alive at any moment, free or in hand, are no more than were in hand at once at
   some moment before. The pool creates only what is needed at the same time.
   */
  lemma {:induction false} LiveWithinPeak(max: nat, k: nat, ms: seq<Move>)
    ensures WereHeld(max, k, ms, Live(Run(max, Start(k), ms)))
    ensures CreatingIsCovered(max, k, ms)
  {
    var s' := Run(max, Start(k), ms);
    WereHeldNow(max, k, ms);
    if ms == [] {
      HeldAtStart(k);
    } else {
      var front, m := ms[..|ms| - 1], ms[|ms| - 1];
      var s := Run(max, Start(k), front);
      LiveWithinPeak(max, k, front);
      PoolIsSafe(max, k, front);
      LiveAfter(max, s, m);
      LivePeakStep(max, k, ms);
      CoveredStep(max, k, ms);
    }
  }

  lemma Weaker(max: nat, k: nat, ms: seq<Move>, n: int, less: int)
    requires WereHeld(max, k, ms, n) && less <= n
    ensures WereHeld(max, k, ms, less)
  {
    var i :| 0 <= i <= |ms| && n <= Held(Run(max, Start(k), ms[..i]).threads);
    assert less <= Held(Run(max, Start(k), ms[..i]).threads);
  }

  lemma LivePeakStep(max: nat, k: nat, ms: seq<Move>)
    requires ms != []
    requires var front := ms[..|ms| - 1];
             Exclusive(Run(max, Start(k), front)) && CreatingIsCovered(max, k, front)
             && WereHeld(max, k, front, Live(Run(max, Start(k), front)))
    ensures WereHeld(max, k, ms, Live(Run(max, Start(k), ms)))
  {
    var front, m := ms[..|ms| - 1], ms[|ms| - 1];
    var s, s' := Run(max, Start(k), front), Run(max, Start(k), ms);
    LiveAfter(max, s, m);
    if m.thread < |s.threads| && s.threads[m.thread].Creating? {
      if s.free == [] {
        assert Live(s') == Held(s'.threads);
        WereHeldNow(max, k, ms);
      } else {
        WereHeldExtends(max, k, ms, Live(s) + 1);
      }
    } else {
      WereHeldExtends(max, k, ms, Live(s));
      Weaker(max, k, ms, Live(s), Live(s'));
    }
  }

  /** A creating thread got there by this step, or held the lock already, so that the free list did not change. */
  lemma CreatingAfter(max: nat, s: Pool, m: Move, t: nat)
    requires Exclusive(s)
    requires t < |Step(max, s, m).threads| && Step(max, s, m).threads[t].Creating?
    ensures t < |s.threads|
    ensures t == m.thread ==> Step(max, s, m).free == s.free && !Creates(s, m) && (Destroys(s, m) || s.free == [])
    ensures t != m.thread ==> s.threads[t].Creating? && Step(max, s, m).free == s.free && !Creates(s, m)
  {
    if t != m.thread {
      assert s.threads[t].Creating? && s.lock == HeldBy(t);
    }
  }

  lemma CoveredStep(max: nat, k: nat, ms: seq<Move>)
    requires ms != []
    requires var front := ms[..|ms| - 1];
             Exclusive(Run(max, Start(k), front)) && CreatingIsCovered(max, k, front)
             && WereHeld(max, k, front, Live(Run(max, Start(k), front)))
    ensures CreatingIsCovered(max, k, ms)
  {
    var front, m := ms[..|ms| - 1], ms[|ms| - 1];
    var s, s' := Run(max, Start(k), front), Run(max, Start(k), ms);
    LiveAfter(max, s, m);
    forall t: nat | t < |s'.threads| && s'.threads[t].Creating?
      ensures s'.free == [] || WereHeld(max, k, ms, Live(s') + 1)
    {
      CreatingAfter(max, s, m, t);
      hide Step;
      hide Live;
      if t == m.thread {
        if s'.free != [] {
          WereHeldExtends(max, k, ms, Live(s));
        }
      } else if s'.free != [] {
        WereHeldExtends(max, k, ms, Live(s) + 1);
        Weaker(max, k, ms, Live(s) + 1, Live(s') + 1);
      }
    }
  }

  /** With k threads there are never more than k connections, whatever the maximum. */
  lemma LiveWithinThreads(max: nat, k: nat, ms: seq<Move>)
    ensures Live(Run(max, Start(k), ms)) <= k
  {
    LiveWithinPeak(max, k, ms);
    var i :| 0 <= i <= |ms| && Live(Run(max, Start(k), ms)) <= Held(Run(max, Start(k), ms[..i]).threads);
    ThreadCount(max, k, ms[..i]);
  }

  // ---- the size test ----

  /** Threads that have found room in the free list and have not pushed yet. */
  function Admitted(threads: seq<Pc>): (n: nat)
    ensures n <= |threads|
  {
    if threads == [] then 0
    else (if threads[0].Queued? || threads[0].Pushing? then 1 else 0) + Admitted(threads[1..])
  }

  lemma {:induction false} AdmittedAreHeld(threads: seq<Pc>)
    ensures Admitted(threads) <= Held(threads)
  {
    if threads != [] { AdmittedAreHeld(threads[1..]); }
  }

  /**
   The free list, counting the connections already let in by the unlocked size test, never has more than one
   connection per thread. That is below maximum + k, which the test alone would give.
   */
  lemma FreeListWithinThreads(max: nat, k: nat, ms: seq<Move>)
    ensures var s := Run(max, Start(k), ms);
            |s.free| + Admitted(s.threads) <= k
  {
    LiveWithinThreads(max, k, ms);
    AdmittedAreHeld(Run(max, Start(k), ms).threads);
  }

  // ---- one thread at a time ----

  lemma RunSplit(max: nat, s: Pool, a: seq<Move>, b: seq<Move>)
    ensures Run(max, s, a + b) == Run(max, Run(max, s, a), b)
  {
    if b == [] {
      assert a + b == a;
    } else {
      assert (a + b)[..|a + b| - 1] == a + b[..|b| - 1];
      RunSplit(max, s, a, b[..|b| - 1]);
    }
  }

  /** Thread `t` moving `n` times with nobody in between. */
  function Alone(t: nat, closed: bool, n: nat): seq<Move> {
    seq(n, _ => Move(t, closed))
  }

  /** An uninterrupted `allocate` by thread `t`. */
  function AllocateAlone(s: Pool, t: nat, closed: bool): seq<Move> {
    Alone(t, closed, if s.free == [] then 4 else if closed then 6 else 5)
  }

  /** An uninterrupted `release` by thread `t`. */
  function ReleaseAlone(max: nat, s: Pool, t: nat): seq<Move> {
    Alone(t, false, if |s.free| > max then 2 else 4)
  }

  lemma OneMore(max: nat, s: Pool, t: nat, closed: bool, n: nat)
    ensures Run(max, s, Alone(t, closed, n + 1)) == Step(max, Run(max, s, Alone(t, closed, n)), Move(t, closed))
  {
    assert Alone(t, closed, n + 1)[..n] == Alone(t, closed, n);
  }

  lemma FirstTwo(max: nat, s: Pool, t: nat, closed: bool)
    ensures Run(max, s, Alone(t, closed, 2)) == Step(max, Step(max, s, Move(t, closed)), Move(t, closed))
  {
    hide Step;
    OneMore(max, s, t, closed, 0);
    OneMore(max, s, t, closed, 1);
  }

  lemma AloneSplit(max: nat, s: Pool, t: nat, closed: bool, a: nat, b: nat)
    ensures Run(max, s, Alone(t, closed, a + b)) == Run(max, Run(max, s, Alone(t, closed, a)), Alone(t, closed, b))
  {
    assert Alone(t, closed, a + b) == Alone(t, closed, a) + Alone(t, closed, b);
    RunSplit(max, s, Alone(t, closed, a), Alone(t, closed, b));
  }

  lemma Enter(max: nat, s: Pool, t: nat, closed: bool)
    requires t < |s.threads| && s.threads[t].Idle? && s.lock.Free?
    ensures Run(max, s, Alone(t, closed, 2)) == At(s, t, if s.free == [] then Creating else Popping).(lock := HeldBy(t))
  {
    FirstTwo(max, s, t, closed);
    hide Run;
    assert Step(max, s, Move(t, closed)) == At(s, t, Entered).(lock := HeldBy(t));
  }

  lemma Create(max: nat, s: Pool, t: nat, closed: bool)
    requires t < |s.threads| && s.threads[t].Creating?
    ensures Run(max, s, Alone(t, closed, 2)) == At(s, t, Holding(s.created)).(lock := Free, created := s.created + 1)
  {
    FirstTwo(max, s, t, closed);
    hide Run;
    assert Step(max, s, Move(t, closed)) == At(s, t, Leaving(s.created)).(created := s.created + 1);
  }

  /** An uninterrupted `allocate` of an empty list: one connection is created. */
  lemma AllocateFresh(max: nat, s: Pool, t: nat, closed: bool)
    requires t < |s.threads| && s.threads[t].Idle? && s.lock.Free? && s.free == []
    ensures Run(max, s, Alone(t, closed, 4)) == At(s, t, Holding(s.created)).(created := s.created + 1)
  {
    hide Run;
    hide Step;
    Enter(max, s, t, closed);
    Create(max, Run(max, s, Alone(t, closed, 2)), t, closed);
    AloneSplit(max, s, t, closed, 2, 2);
  }

  lemma Pop(max: nat, s: Pool, t: nat, closed: bool)
    requires t < |s.threads| && s.threads[t].Popping? && s.free != []
    ensures Run(max, s, Alone(t, closed, 1)) == At(s, t, Checking(s.free[|s.free| - 1])).(free := s.free[..|s.free| - 1])
  {
    OneMore(max, s, t, closed, 0);
  }

  /** An uninterrupted `allocate` of a list with something in it: up to the look at the connection popped. */
  lemma PopAlone(max: nat, s: Pool, t: nat, closed: bool)
    requires t < |s.threads| && s.threads[t].Idle? && s.lock.Free? && s.free != []
    ensures Run(max, s, Alone(t, closed, 3))
            == At(s, t, Checking(s.free[|s.free| - 1])).(lock := HeldBy(t), free := s.free[..|s.free| - 1])
  {
    hide Run;
    hide Step;
    Enter(max, s, t, closed);
    Pop(max, Run(max, s, Alone(t, closed, 2)), t, closed);
    AloneSplit(max, s, t, closed, 2, 1);
  }

  lemma HandOut(max: nat, s: Pool, t: nat)
    requires t < |s.threads| && s.threads[t].Checking?
    ensures Run(max, s, Alone(t, false, 2)) == At(s, t, Holding(s.threads[t].conn)).(lock := Free)
  {
    FirstTwo(max, s, t, false);
    hide Run;
    assert Step(max, s, Move(t, false)) == At(s, t, Leaving(s.threads[t].conn));
  }

  /** A pooled connection that is still open is handed out. */
  lemma AllocateOpen(max: nat, s: Pool, t: nat)
    requires t < |s.threads| && s.threads[t].Idle? && s.lock.Free? && s.free != []
    ensures Run(max, s, Alone(t, false, 5)) == At(s, t, Holding(s.free[|s.free| - 1])).(free := s.free[..|s.free| - 1])
  {
    hide Run;
    hide Step;
    PopAlone(max, s, t, false);
    HandOut(max, Run(max, s, Alone(t, false, 3)), t);
    AloneSplit(max, s, t, false, 3, 2);
  }

  lemma Drop(max: nat, s: Pool, t: nat)
    requires t < |s.threads| && s.threads[t].Checking?
    ensures Run(max, s, Alone(t, true, 1)) == At(s, t, Creating).(destroyed := s.destroyed + {s.threads[t].conn})
  {
    OneMore(max, s, t, true, 0);
  }

  /** A pooled connection that has been closed is deleted and replaced. */
  lemma AllocateClosed(max: nat, s: Pool, t: nat)
    requires t < |s.threads| && s.threads[t].Idle? && s.lock.Free? && s.free != []
    ensures Run(max, s, Alone(t, true, 6))
            == At(s, t, Holding(s.created)).(free := s.free[..|s.free| - 1], created := s.created + 1,
                                            destroyed := s.destroyed + {s.free[|s.free| - 1]})
  {
    hide Run;
    hide Step;
    PopAlone(max, s, t, true);
    Drop(max, Run(max, s, Alone(t, true, 3)), t);
    AloneSplit(max, s, t, true, 3, 1);
    Create(max, Run(max, s, Alone(t, true, 4)), t, true);
    AloneSplit(max, s, t, true, 4, 2);
  }

  lemma Admit(max: nat, s: Pool, t: nat)
    requires t < |s.threads| && s.threads[t].Holding? && s.lock.Free? && |s.free| <= max
    ensures Run(max, s, Alone(t, false, 2)) == At(s, t, Pushing(s.threads[t].conn)).(lock := HeldBy(t))
  {
    FirstTwo(max, s, t, false);
    hide Run;
    assert Step(max, s, Move(t, false)) == At(s, t, Queued(s.threads[t].conn));
  }

  lemma Push(max: nat, s: Pool, t: nat)
    requires t < |s.threads| && s.threads[t].Pushing?
    ensures Run(max, s, Alone(t, false, 2)) == At(s, t, Idle).(lock := Free, free := s.free + [s.threads[t].conn])
  {
    FirstTwo(max, s, t, false);
    hide Run;
    assert Step(max, s, Move(t, false)) == At(s, t, Unlocking).(free := s.free + [s.threads[t].conn]);
  }

  /** An uninterrupted `release` with room in the list pushes the connection. */
  lemma ReleaseKeeps(max: nat, s: Pool, t: nat)
    requires t < |s.threads| && s.threads[t].Holding? && s.lock.Free? && |s.free| <= max
    ensures Run(max, s, Alone(t, false, 4)) == At(s, t, Idle).(free := s.free + [s.threads[t].conn])
  {
    hide Run;
    hide Step;
    Admit(max, s, t);
    Push(max, Run(max, s, Alone(t, false, 2)), t);
    AloneSplit(max, s, t, false, 2, 2);
  }

  /** An uninterrupted `release` to a list longer than the maximum destroys the connection. */
  lemma ReleaseDestroys(max: nat, s: Pool, t: nat)
    requires t < |s.threads| && s.threads[t].Holding? && |s.free| > max
    ensures Run(max, s, Alone(t, false, 2)) == At(s, t, Idle).(destroyed := s.destroyed + {s.threads[t].conn})
  {
    FirstTwo(max, s, t, false);
    hide Run;
    var s1 := At(s, t, Destroying(s.threads[t].conn));
    assert Step(max, s, Move(t, false)) == s1;
  }

  // ---- the bounds are met ----

  ghost predicate Reachable(max: nat, k: nat, s: Pool) {
    exists ms :: Run(max, Start(k), ms) == s
  }

  lemma ReachStep(max: nat, k: nat, s: Pool, m: Move)
    requires Reachable(max, k, s)
    ensures Reachable(max, k, Step(max, s, m))
  {
    var ms :| Run(max, Start(k), ms) == s;
    assert (ms + [m])[..|ms|] == ms;
    assert Run(max, Start(k), ms + [m]) == Step(max, s, m);
  }

  /** Connections 0..n-1 in the list, or thread i holding connection i. */
  function UpTo(n: nat): seq<nat> {
    seq(n, i => i)
  }

  function AllHolding(k: nat, n: nat): Pool {
    Pool(seq(k, i => if 0 <= i < n then Holding(i) else Idle), Free, [], n, {}, false)
  }

  lemma {:induction false} ReachAllHolding(max: nat, k: nat, n: nat)
    requires n <= k
    ensures Reachable(max, k, AllHolding(k, n))
  {
    if n == 0 {
      assert AllHolding(k, 0) == Start(k);
      assert Run(max, Start(k), []) == Start(k);
    } else {
      var t := n - 1;
      ReachAllHolding(max, k, t);
      var s0 := AllHolding(k, t);
      var m := Move(t, false);
      var s1 := Step(max, s0, m);
      var s2 := Step(max, s1, m);
      var s3 := Step(max, s2, m);
      var s4 := Step(max, s3, m);
      ReachStep(max, k, s0, m);
      ReachStep(max, k, s1, m);
      ReachStep(max, k, s2, m);
      ReachStep(max, k, s3, m);
      assert s4.threads == AllHolding(k, n).threads;
    }
  }

  /** All k threads hold a connection; the first n of them have found room. */
  function SomeQueued(k: nat, n: nat): Pool {
    Pool(seq(k, i => if 0 <= i < n then Queued(i) else if 0 <= i then Holding(i) else Idle), Free, [], k, {}, false)
  }

  lemma {:induction false} ReachSomeQueued(max: nat, k: nat, n: nat)
    requires n <= k
    ensures Reachable(max, k, SomeQueued(k, n))
  {
    if n == 0 {
      ReachAllHolding(max, k, k);
      assert SomeQueued(k, 0).threads == AllHolding(k, k).threads;
    } else {
      ReachSomeQueued(max, k, n - 1);
      var s := SomeQueued(k, n - 1);
      ReachStep(max, k, s, Move(n - 1, false));
      assert Step(max, s, Move(n - 1, false)).threads == SomeQueued(k, n).threads;
    }
  }

  /** The first n of k threads that had all found room have pushed. */
  function SomePushed(k: nat, n: nat): Pool {
    Pool(seq(k, i => if i < n then Idle else if 0 <= i then Queued(i) else Idle), Free, UpTo(n), k, {}, false)
  }

  lemma {:induction false} ReachSomePushed(max: nat, k: nat, n: nat)
    requires n <= k
    ensures Reachable(max, k, SomePushed(k, n))
  {
    if n == 0 {
      ReachSomeQueued(max, k, k);
      assert SomePushed(k, 0).threads == SomeQueued(k, k).threads;
    } else {
      var t := n - 1;
      ReachSomePushed(max, k, t);
      var s0 := SomePushed(k, t);
      var m := Move(t, false);
      var s1 := Step(max, s0, m);
      var s2 := Step(max, s1, m);
      var s3 := Step(max, s2, m);
      ReachStep(max, k, s0, m);
      ReachStep(max, k, s1, m);
      ReachStep(max, k, s2, m);
      assert s3.threads == SomePushed(k, n).threads;
      assert s3.free == UpTo(n);
    }
  }

  /**
   The exact reach of the free list: for every number of threads and every maximum, even 0, some schedule fills
   it with k connections, and by `FreeListWithinThreads` none with more.
   */
  lemma FreeListReachesThreads(max: nat, k: nat)
    ensures exists ms :: |Run(max, Start(k), ms).free| == k
  {
    ReachSomePushed(max, k, k);
    var ms :| Run(max, Start(k), ms) == SomePushed(k, k);
    assert |Run(max, Start(k), ms).free| == k;
  }

  /** The first n of k threads have given their connection back one after the other. */
  function SomeReturned(k: nat, n: nat): Pool {
    Pool(seq(k, i => if i < n then Idle else if 0 <= i then Holding(i) else Idle), Free, UpTo(n), k, {}, false)
  }

  lemma ReachRun(max: nat, k: nat, s: Pool, ms: seq<Move>)
    requires Reachable(max, k, s)
    ensures Reachable(max, k, Run(max, s, ms))
  {
    var before :| Run(max, Start(k), before) == s;
    RunSplit(max, Start(k), before, ms);
  }

  lemma {:induction false} ReachSomeReturned(max: nat, k: nat, n: nat)
    requires n <= k && n <= max + 1
    ensures Reachable(max, k, SomeReturned(k, n))
  {
    if n == 0 {
      ReachAllHolding(max, k, k);
      assert SomeReturned(k, 0).threads == AllHolding(k, k).threads;
    } else {
      var t := n - 1;
      ReachSomeReturned(max, k, t);
      var s := SomeReturned(k, t);
      ReleaseKeeps(max, s, t);
      ReachRun(max, k, s, Alone(t, false, 4));
      assert s.threads[t := Idle] == SomeReturned(k, n).threads;
      assert s.free + [t] == UpTo(n);
    }
  }

  ghost predicate SomeoneDestroys(s: Pool) {
    exists t :: 0 <= t < |s.threads| && s.threads[t].Destroying?
  }

  /** `release` destroys a connection under some schedule exactly when there are at least max + 2 threads. */
  lemma ReleaseDestroysIff(max: nat, k: nat)
    ensures (exists ms :: SomeoneDestroys(Run(max, Start(k), ms))) <==> k >= max + 2
  {
    if k >= max + 2 {
      ReachSomeReturned(max, k, max + 1);
      var s := SomeReturned(k, max + 1);
      var m := Move(max + 1, false);
      ReachStep(max, k, s, m);
      var ms :| Run(max, Start(k), ms) == Step(max, s, m);
      assert Run(max, Start(k), ms).threads[max + 1].Destroying?;
      assert SomeoneDestroys(Run(max, Start(k), ms));
    } else {
      forall ms ensures !SomeoneDestroys(Run(max, Start(k), ms)) {
        forall t: nat | t < |Run(max, Start(k), ms).threads| ensures !Run(max, Start(k), ms).threads[t].Destroying? {
          FewThreadsNeverDestroy(max, k, ms, t);
        }
      }
    }
  }

  lemma OnlyALongListDestroys(max: nat, s: Pool, m: Move, t: nat)
    requires t < |s.threads| == |Step(max, s, m).threads|
    requires !s.threads[t].Destroying? && Step(max, s, m).threads[t].Destroying?
    ensures s.threads[t].Holding? && |s.free| > max
  {
  }

  lemma DestroyingNeedsALongList(max: nat, s: Pool, m: Move, t: nat)
    requires t < |s.threads| == |Step(max, s, m).threads|
    requires !s.threads[t].Destroying? && Step(max, s, m).threads[t].Destroying?
    ensures Live(s) >= max + 2
  {
    OnlyALongListDestroys(max, s, m, t);
    hide Step;
    hide Held;
    HeldAfter(s.threads, t, Idle);
  }

  lemma {:induction false} FewThreadsNeverDestroy(max: nat, k: nat, ms: seq<Move>, t: nat)
    requires k < max + 2 && t < |Run(max, Start(k), ms).threads|
    ensures !Run(max, Start(k), ms).threads[t].Destroying?
  {
    if ms != [] {
      var front, m := ms[..|ms| - 1], ms[|ms| - 1];
      ThreadCount(max, k, ms);
      ThreadCount(max, k, front);
      hide Step;
      FewThreadsNeverDestroy(max, k, front, t);
      LiveWithinThreads(max, k, front);
      if Run(max, Start(k), ms).threads[t].Destroying? {
        DestroyingNeedsALongList(max, Run(max, Start(k), front), m, t);
      }
    }
  }

  // ---- progress and shutdown ----

  /** The pool never deadlocks: some thread can always move. */
  lemma SomeoneCanMove(max: nat, k: nat, ms: seq<Move>)
    requires k > 0
    ensures var s := Run(max, Start(k), ms);
            exists t, closed :: Step(max, s, Move(t, closed)) != s
  {
    var s := Run(max, Start(k), ms);
    PoolIsSafe(max, k, ms);
    ThreadCount(max, k, ms);
    var t := if s.lock.HeldBy? && s.lock.thread < k then s.lock.thread else 0;
    var s' := Step(max, s, Move(t, false));
    LockIsAThreads(max, k, ms);
    assert s'.threads[t] != s.threads[t];
  }

  lemma {:induction false} LockIsAThreads(max: nat, k: nat, ms: seq<Move>)
    ensures var s := Run(max, Start(k), ms);
            s.lock.HeldBy? ==> s.lock.thread < k
  {
    if ms != [] {
      LockIsAThreads(max, k, ms[..|ms| - 1]);
      ThreadCount(max, k, ms[..|ms| - 1]);
    }
  }

  /** The destructor's walk over the free list; destroying a connection for the second time is a fault. */
  function DestroyAll(s: Pool): Pool
    decreases |s.free|
  {
    if s.free == [] then s
    else DestroyAll(s.(free := s.free[1..], destroyed := s.destroyed + {s.free[0]},
                       fault := s.fault || s.free[0] in s.destroyed))
  }

  lemma {:induction false} DestroyAllDestroysEach(s: Pool)
    requires Owned(s) && !s.fault
    ensures var d := DestroyAll(s);
            && d.free == [] && !d.fault && d.created == s.created
            && |d.destroyed| == |s.destroyed| + |s.free|
            && forall c :: c in d.destroyed ==> c < s.created
    decreases |s.free|
  {
    if s.free != [] {
      var s' := s.(free := s.free[1..], destroyed := s.destroyed + {s.free[0]}, fault := false);
      RestIsOwned(s);
      hide Owned;
      DestroyAllDestroysEach(s');
    }
  }

  lemma RestIsOwned(s: Pool)
    requires Owned(s) && s.free != []
    ensures s.free[0] !in s.destroyed
    ensures forall fault :: Owned(s.(free := s.free[1..], destroyed := s.destroyed + {s.free[0]}, fault := fault))
  {
  }

  lemma {:induction false} AllBelow(n: nat, s: set<nat>)
    requires |s| == n && forall c :: c in s ==> c < n
    ensures forall c: nat :: c in s <==> c < n
  {
    if n > 0 {
      if n - 1 !in s {
        TooMany(n - 1, s);
        assert false;
      }
      var rest := s - {n - 1};
      AllBelow(n - 1, rest);
      forall c: nat ensures c in s <==> c < n {
        assert c != n - 1 ==> (c in s <==> c in rest);
      }
    }
  }

  lemma {:induction false} TooMany(n: nat, s: set<nat>)
    requires forall c :: c in s ==> c < n
    ensures |s| <= n
  {
    if n == 0 {
      assert s == {};
    } else {
      TooMany(n - 1, s - {n - 1});
    }
  }

  /**
   The destructor, run when no thread is in the pool: it faults nowhere, and afterwards every connection ever
   created has been destroyed, once.
   */
  lemma ShutdownLeavesNothing(max: nat, k: nat, ms: seq<Move>)
    requires forall t :: 0 <= t < |Run(max, Start(k), ms).threads| ==> Run(max, Start(k), ms).threads[t].Idle?
    ensures var (s, d) := (Run(max, Start(k), ms), DestroyAll(Run(max, Start(k), ms)));
            && d.free == [] && !d.fault
            && forall c: nat :: c in d.destroyed <==> c < s.created
  {
    var s := Run(max, Start(k), ms);
    PoolIsSafe(max, k, ms);
    NoneHeld(s.threads);
    DestroyAllDestroysEach(s);
    AllBelow(s.created, DestroyAll(s).destroyed);
  }

  lemma {:induction false} NoneHeld(threads: seq<Pc>)
    requires forall t :: 0 <= t < |threads| ==> threads[t].Idle?
    ensures Held(threads) == 0
  {
    if threads != [] { NoneHeld(threads[1..]); }
  }
}
