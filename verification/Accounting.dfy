/**
 How many Member objects the process holds. The directory's steps are extended with the four places a
 Member object can be in: the cache, the recycling pool, deleted, or orphaned (dropped by
 `std::map::insert` because its key was taken, and never freed).
 */
module Accounting {
  import opened Wrappers
  import opened Directory

  datatype Counts = Counts(created: nat, pooled: nat, deleted: nat, orphaned: nat)

  datatype Heap = Heap(dir: State, n: Counts)

  const NOTHING := Counts(0, 0, 0, 0)

  function FreshHeap(rows: map<string, Row>): Heap {
    Heap(Boot(rows), NOTHING)
  }

  /** `lock_queue::allocate`: recycle if anything is pooled, create otherwise. */
  function Take(n: Counts): Counts {
    if n.pooled == 0 then n.(created := n.created + 1) else n.(pooled := n.pooled - 1)
  }

  /** `lock_queue::deallcate`: delete only when the pool is already larger than the cap. */
  function GiveBack(cap: nat, n: Counts): Counts {
    if cap < n.pooled then n.(deleted := n.deleted + 1) else n.(pooled := n.pooled + 1)
  }

  /** `add_member` with a key that is taken drops the object. */
  function Insert(n: Counts, taken: bool): Counts {
    if taken then n.(orphaned := n.orphaned + 1) else n
  }

  /** An object is allocated for `p` and handed to `add_member`. */
  function Admit(h: Heap, p: string): Counts {
    Insert(Take(h.n), p in h.dir.cache)
  }

  function Evict(cap: nat, h: Heap, p: string): Counts {
    if p in h.dir.cache then GiveBack(cap, h.n) else h.n
  }

  function Tick(cap: nat, h: Heap, e: Event): Heap {
    var n :=
      match e
      case Connected(p) => if p in h.dir.rows then Admit(h, p) else h.n
      case Disconnected(p) => Evict(cap, h, p)
      case Message(p, cmd, profile, _) =>
        if RegistersAs(cmd, profile) then Admit(h, p)
        else if cmd.Stop? then Evict(cap, h, p)
        else h.n
      case Restart => NOTHING
      case _ => h.n;
    Heap(Step(h.dir, e), n)
  }

  function RunHeap(cap: nat, h: Heap, es: seq<Event>): Heap {
    if es == [] then h else Tick(cap, RunHeap(cap, h, es[..|es| - 1]), es[|es| - 1])
  }

  function InUse(h: Heap): nat {
    |h.dir.cache| + h.n.orphaned
  }

  /** The event makes `add_member` meet a key that is already cached. */
  predicate Collides(s: State, e: Event) {
    match e
    case Connected(p) => p in s.rows && p in s.cache
    case Message(p, cmd, profile, _) => RegistersAs(cmd, profile) && p in s.cache
    case _ => false
  }

  ghost predicate NoRestartFrom(es: seq<Event>, i: nat) {
    forall k :: i <= k < |es| ==> es[k] != Restart
  }

  lemma {:induction false} HeapRunsTheDirectory(cap: nat, h: Heap, es: seq<Event>)
    ensures RunHeap(cap, h, es).dir == Run(h.dir, es)
  {
    if es != [] {
      HeapRunsTheDirectory(cap, h, es[..|es| - 1]);
    }
  }

  ghost predicate Balanced(h: Heap) {
    h.n.created == |h.dir.cache| + h.n.pooled + h.n.deleted + h.n.orphaned
  }

  /** The event puts a new record into the cache. */
  predicate Joins(s: State, e: Event) {
    match e
    case Connected(p) => p in s.rows && p !in s.cache
    case Message(p, cmd, profile, _) => RegistersAs(cmd, profile) && p !in s.cache
    case _ => false
  }

  /** The event takes a record out of the cache. */
  predicate Leaves(s: State, e: Event) {
    match e
    case Disconnected(p) => p in s.cache
    case Message(p, cmd, _, _) => cmd.Stop? && p in s.cache
    case _ => false
  }

  lemma CacheKeys(s: State, e: Event)
    requires e != Restart
    ensures Step(s, e).cache.Keys == if Joins(s, e) then s.cache.Keys + {e.pk}
                                     else if Leaves(s, e) then s.cache.Keys - {e.pk}
                                     else s.cache.Keys
  {
  }

  lemma CacheSize(s: State, e: Event)
    requires e != Restart
    ensures |Step(s, e).cache| == |s.cache| + (if Joins(s, e) then 1 else 0) - (if Leaves(s, e) then 1 else 0)
  {
    CacheKeys(s, e);
    var c, c' := s.cache, Step(s, e).cache;
    assert |c| == |c.Keys| && |c'| == |c'.Keys|;
    if Joins(s, e) {
      assert e.pk !in c.Keys;
    } else if Leaves(s, e) {
      assert e.pk in c.Keys;
    }
  }

  lemma TickByKind(cap: nat, h: Heap, e: Event)
    requires e != Restart
    ensures Tick(cap, h, e).n == if Joins(h.dir, e) then Take(h.n)
                                 else if Collides(h.dir, e) then Insert(Take(h.n), true)
                                 else if Leaves(h.dir, e) then GiveBack(cap, h.n)
                                 else h.n
  {
  }

  /**
   What each event does to the objects: a connection of a registered friend and a carried-out /start take one, and orphan
   it if its key is cached; a disconnection and a /stop give back the cached one.
   */
  lemma TickCounts(cap: nat, h: Heap, e: Event)
    ensures var n := Tick(cap, h, e).n;
            if e.Restart? then n == Counts(0, 0, 0, 0)
            else
              var takes := (e.Connected? && e.pk in h.dir.rows)
                           || (e.Message? && e.cmd.Start? && e.cmd.tokId != "" && e.profile.name.Some? && e.profile.bio.Some?);
              var gives := (e.Disconnected? || (e.Message? && e.cmd.Stop?)) && e.pk in h.dir.cache;
              && n.created == h.n.created + (if takes && h.n.pooled == 0 then 1 else 0)
              && n.pooled == h.n.pooled - (if takes && h.n.pooled > 0 then 1 else 0) + (if gives && h.n.pooled <= cap then 1 else 0)
              && n.deleted == h.n.deleted + (if gives && h.n.pooled > cap then 1 else 0)
              && n.orphaned == h.n.orphaned + (if takes && e.pk in h.dir.cache then 1 else 0)
  {
  }

  lemma TickBalances(cap: nat, h: Heap, e: Event)
    requires Balanced(h)
    ensures Balanced(Tick(cap, h, e))
  {
    if e != Restart {
      CacheSize(h.dir, e);
      TickByKind(cap, h, e);
    }
  }

  /** Conservation, over whole runs: every object ever created is cached, pooled, deleted or orphaned. */
  lemma {:induction false} Conservation(cap: nat, rows: map<string, Row>, es: seq<Event>)
    ensures Balanced(RunHeap(cap, FreshHeap(rows), es))
  {
    if es != [] {
      Conservation(cap, rows, es[..|es| - 1]);
      TickBalances(cap, RunHeap(cap, FreshHeap(rows), es[..|es| - 1]), es[|es| - 1]);
    }
  }

  ghost function CollisionsSinceRestart(rows: map<string, Row>, es: seq<Event>): set<nat> {
    set i: nat | i < |es| && Collides(Run(Boot(rows), es[..i]), es[i]) && NoRestartFrom(es, i)
  }

  lemma CollisionsExtend(rows: map<string, Row>, es: seq<Event>)
    requires es != [] && es[|es| - 1] != Restart
    ensures var n := |es| - 1;
            var before := CollisionsSinceRestart(rows, es[..n]);
            CollisionsSinceRestart(rows, es) == (if Collides(Run(Boot(rows), es[..n]), es[n]) then before + {n} else before)
  {
    hide Run;
    hide Collides;
    var n := |es| - 1;
    var front := es[..n];
    forall i: nat | i < n
      ensures i in CollisionsSinceRestart(rows, es) <==> i in CollisionsSinceRestart(rows, front)
    {
      assert front[..i] == es[..i];
      assert NoRestartFrom(es, i) <==> NoRestartFrom(front, i) by {
        assert forall k :: i <= k < n ==> front[k] == es[k];
      }
    }
  }

  /** Objects are orphaned by collisions only, one each. */
  lemma {:induction false} OrphansAreCollisions(cap: nat, rows: map<string, Row>, es: seq<Event>)
    ensures RunHeap(cap, FreshHeap(rows), es).n.orphaned == |CollisionsSinceRestart(rows, es)|
  {
    if es == [] {
      assert CollisionsSinceRestart(rows, es) == {};
    } else {
      var n := |es| - 1;
      var front := es[..n];
      OrphansAreCollisions(cap, rows, front);
      HeapRunsTheDirectory(cap, FreshHeap(rows), front);
      var h := RunHeap(cap, FreshHeap(rows), front);
      assert h.dir == Run(Boot(rows), front);
      assert RunHeap(cap, FreshHeap(rows), es) == Tick(cap, h, es[n]);
      var before, after := CollisionsSinceRestart(rows, front), CollisionsSinceRestart(rows, es);
      if es[n] == Restart {
        assert after == {};
      } else {
        TickByKind(cap, h, es[n]);
        CollisionsExtend(rows, es);
      }
    }
  }

  /** An object is created only when the pool is empty, so then everything alive is in use. */
  lemma LiveAfterCreation(cap: nat, h: Heap, e: Event)
    requires Balanced(h)
    requires e == Restart || Tick(cap, h, e).n.created > h.n.created
    ensures var h' := Tick(cap, h, e);
            h'.n.created - h'.n.deleted == InUse(h')
  {
    TickBalances(cap, h, e);
    if e != Restart {
      TickByKind(cap, h, e);
    }
  }

  /** At some moment since the last restart, at least `live` objects were in use. */
  ghost predicate WereInUse(cap: nat, rows: map<string, Row>, es: seq<Event>, live: int) {
    exists i: nat :: i <= |es| && NoRestartFrom(es, i) && live <= InUse(RunHeap(cap, FreshHeap(rows), es[..i]))
  }

  lemma WereInUseExtends(cap: nat, rows: map<string, Row>, es: seq<Event>, live: int, less: int)
    requires es != [] && es[|es| - 1] != Restart && less <= live
    requires WereInUse(cap, rows, es[..|es| - 1], live)
    ensures WereInUse(cap, rows, es, less)
  {
    var front := es[..|es| - 1];
    var i: nat :| i <= |front| && NoRestartFrom(front, i) && live <= InUse(RunHeap(cap, FreshHeap(rows), front[..i]));
    assert front[..i] == es[..i];
    assert forall k :: i <= k < |front| ==> front[k] == es[k];
    assert NoRestartFrom(es, i);
  }

  lemma WereInUseNow(cap: nat, rows: map<string, Row>, es: seq<Event>)
    ensures WereInUse(cap, rows, es, InUse(RunHeap(cap, FreshHeap(rows), es)))
  {
    assert es[..|es|] == es;
    assert NoRestartFrom(es, |es|);
  }

  /**
   The process never holds more objects than were in use, counting orphans, at some one moment since it
   started: recycling comes before creating.
   */
  lemma {:induction false} LiveWithinPeak(cap: nat, rows: map<string, Row>, es: seq<Event>)
    ensures var h := RunHeap(cap, FreshHeap(rows), es);
            WereInUse(cap, rows, es, h.n.created - h.n.deleted)
  {
    var h0 := FreshHeap(rows);
    WereInUseNow(cap, rows, es);
    if es != [] {
      var front, e := es[..|es| - 1], es[|es| - 1];
      var h, h' := RunHeap(cap, h0, front), RunHeap(cap, h0, es);
      Conservation(cap, rows, front);
      if e == Restart || h'.n.created > h.n.created {
        LiveAfterCreation(cap, h, e);
      } else {
        LiveWithinPeak(cap, rows, front);
        TickByKind(cap, h, e);
        WereInUseExtends(cap, rows, es, h.n.created - h.n.deleted, h'.n.created - h'.n.deleted);
      }
    }
  }

  /** The pool may hold one object more than its cap, because the test is `cap < size`, and never two. */
  lemma {:induction false} PoolWithinCap(cap: nat, rows: map<string, Row>, es: seq<Event>)
    ensures RunHeap(cap, FreshHeap(rows), es).n.pooled <= cap + 1
  {
    if es != [] {
      PoolWithinCap(cap, rows, es[..|es| - 1]);
    }
  }

  function Key(i: nat): (k: string)
    ensures |k| == i
  {
    seq(i, _ => 'A')
  }

  ghost function Keys(m: nat, n: nat): set<string> {
    set i: nat | m <= i < n :: Key(i)
  }

  lemma AddLastKey(n: nat)
    requires n > 0
    ensures Key(n - 1) !in Keys(0, n - 1) && Keys(0, n) == Keys(0, n - 1) + {Key(n - 1)}
  {
    var last := n - 1;
    var k := Key(last);
    assert exists i: nat :: 0 <= i < n && Key(i) == k;
  }

  const STRANGER := Profile(Some("n"), Some("b"))

  /** A user comes online and sends /start. */
  function Arrival(i: nat): seq<Event> {
    [Connected(Key(i)), Message(Key(i), Start("T"), STRANGER, 0)]
  }

  /** Users 0..n-1 do so. */
  function Arrivals(n: nat): seq<Event> {
    if n == 0 then [] else Arrivals(n - 1) + Arrival(n - 1)
  }

  /** Users 0..n-1 go offline. */
  function Departures(n: nat): seq<Event> {
    if n == 0 then [] else Departures(n - 1) + [Disconnected(Key(n - 1))]
  }

  lemma RunHeapSplit(cap: nat, h: Heap, a: seq<Event>, b: seq<Event>)
    ensures RunHeap(cap, h, a + b) == RunHeap(cap, RunHeap(cap, h, a), b)
  {
    if b == [] {
      assert a + b == a;
    } else {
      assert (a + b)[..|a + b| - 1] == a + b[..|b| - 1];
      RunHeapSplit(cap, h, a, b[..|b| - 1]);
    }
  }

  lemma OneArrival(cap: nat, h: Heap, i: nat)
    requires Key(i) !in h.dir.rows && Key(i) !in h.dir.cache && h.n.pooled == 0
    ensures var h' := RunHeap(cap, h, Arrival(i));
            && h'.dir.cache.Keys == h.dir.cache.Keys + {Key(i)}
            && h'.dir.rows.Keys == h.dir.rows.Keys + {Key(i)}
            && h'.n == h.n.(created := h.n.created + 1)
  {
    var k := Key(i);
    var (a, b) := (Connected(k), Message(k, Start("T"), STRANGER, 0));
    assert [a, b][..1] == [a];
    assert RunHeap(cap, h, [a]) == Tick(cap, h, a);
    assert RunHeap(cap, h, [a, b]) == Tick(cap, Tick(cap, h, a), b);
    var s := Step(h.dir, a);
    assert s.rows == h.dir.rows && s.cache == h.dir.cache;
    assert Step(s, b).rows.Keys == s.rows.Keys + {k};
  }

  lemma {:induction false} AfterArrivals(cap: nat, n: nat)
    ensures var h := RunHeap(cap, FreshHeap(map[]), Arrivals(n));
            && h.dir.cache.Keys == h.dir.rows.Keys == Keys(0, n)
            && h.n.created == n && h.n.pooled == h.n.deleted == h.n.orphaned == 0
  {
    if n > 0 {
      AfterArrivals(cap, n - 1);
      RunHeapSplit(cap, FreshHeap(map[]), Arrivals(n - 1), Arrival(n - 1));
      AddLastKey(n);
      OneArrival(cap, RunHeap(cap, FreshHeap(map[]), Arrivals(n - 1)), n - 1);
    }
  }

  lemma DropFirstKey(n: nat, m: nat)
    requires m < n
    ensures Key(m) in Keys(m, n)
    ensures Keys(m, n) - {Key(m)} == Keys(m + 1, n)
  {
    var k := Key(m);
    assert exists i: nat :: m <= i < n && Key(i) == k;
  }

  lemma {:induction false} AfterDepartures(cap: nat, h: Heap, n: nat, m: nat)
    requires m <= n && m <= cap + 1
    requires h.dir.cache.Keys == Keys(0, n) && h.n.pooled == 0
    ensures var h' := RunHeap(cap, h, Departures(m));
            && h'.dir.cache.Keys == Keys(m, n) && h'.n.pooled == m
  {
    if m > 0 {
      AfterDepartures(cap, h, n, m - 1);
      var h1 := RunHeap(cap, h, Departures(m - 1));
      RunHeapSplit(cap, h, Departures(m - 1), [Disconnected(Key(m - 1))]);
      assert RunHeap(cap, h1, [Disconnected(Key(m - 1))]) == Tick(cap, h1, Disconnected(Key(m - 1)));
      DropFirstKey(n, m - 1);
    }
  }

  /** The bound of `PoolWithinCap` is met, for every cap, by friends who come, register and leave. */
  lemma PoolReachesCapPlusOne(cap: nat)
    ensures RunHeap(cap, FreshHeap(map[]), Arrivals(cap + 1) + Departures(cap + 1)).n.pooled == cap + 1
  {
    AfterArrivals(cap, cap + 1);
    RunHeapSplit(cap, FreshHeap(map[]), Arrivals(cap + 1), Departures(cap + 1));
    AfterDepartures(cap, RunHeap(cap, FreshHeap(map[]), Arrivals(cap + 1)), cap + 1, cap + 1);
  }
}
