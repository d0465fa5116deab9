/**
 Resending the welcome message: a timer whose interval doubles until it has exceeded a maximum, and the
 heap buffer that carries the interval from one timer to the next.

 The base interval and the maximum are parameters; the program's are RESEND_TIME_BASE and RESEND_TIME_MAX.
 */
module Backoff {

  const RESEND_TIME_BASE: nat := 1
  const RESEND_TIME_MAX: nat := 128
  const UINT32: nat := 0x1_0000_0000

  /** Intervals that doubling below the maximum cannot wrap. */
  ghost predicate Sound(base: nat, max: nat) {
    1 <= base < UINT32 && 2 * max < UINT32
  }

  /** A pending timer: the friend to resend to, and the interval it was armed with. */
  datatype Alarm = Alarm(friend: nat, interval: nat)

  /** A friend request whose first send works or fails, or the `i`-th pending timer firing. */
  datatype Event = Request(friend: nat, sent: bool) | Fire(i: nat, sent: bool)

  function Double(x: nat): nat {
    x * 2 % UINT32
  }

  function Without<T>(s: seq<T>, i: nat): seq<T>
    requires i < |s|
  {
    s[..i] + s[i + 1..]
  }

  function Step(base: nat, max: nat, pending: seq<Alarm>, e: Event): seq<Alarm> {
    match e
    case Request(friend, sent) => if sent then pending else pending + [Alarm(friend, base)]
    case Fire(i, sent) =>
      if i >= |pending| then pending
      else
        var rest := Without(pending, i);
        var fired := pending[i];
        if sent || max < fired.interval then rest
        else rest + [Alarm(fired.friend, Double(fired.interval))]
  }

  function Run(base: nat, max: nat, es: seq<Event>): seq<Alarm> {
    if es == [] then [] else Step(base, max, Run(base, max, es[..|es| - 1]), es[|es| - 1])
  }

  /** The intervals one friend's timers are armed with, from `x` on, if every send fails. */
  function Intervals(x: nat, max: nat): seq<nat>
    requires 1 <= x
    requires 2 * max < UINT32
    decreases if x <= max then max + 1 - x else 0
  {
    if max < x then [x] else [x] + Intervals(Double(x), max)
  }

  function Pow2(n: nat): (r: nat)
    ensures r >= 1
  {
    if n == 0 then 1 else 2 * Pow2(n - 1)
  }

  function Sum(s: seq<nat>): nat {
    if s == [] then 0 else s[0] + Sum(s[1..])
  }

  lemma NoWrap(x: nat, max: nat)
    requires x <= max && 2 * max < UINT32
    ensures Double(x) == 2 * x
  {
  }

  lemma DoubledPower(x: nat, n: nat)
    ensures (2 * x) * Pow2(n) == x * Pow2(n + 1)
  {
    assert (2 * x) * Pow2(n) == x * (2 * Pow2(n));
  }

  lemma {:induction false} IntervalAt(x: nat, max: nat, i: nat)
    requires Sound(x, max) && i < |Intervals(x, max)|
    ensures Intervals(x, max)[i] == x * Pow2(i)
    decreases i
  {
    if i > 0 {
      NoWrap(x, max);
      IntervalAt(2 * x, max, i - 1);
      DoubledPower(x, i - 1);
    }
  }

  lemma {:induction false} IntervalsStop(x: nat, max: nat)
    requires Sound(x, max)
    ensures var s := Intervals(x, max);
            && |s| >= 1 && max < s[|s| - 1]
            && (forall i :: 0 <= i < |s| - 1 ==> s[i] <= max)
            && (x <= max ==> s[|s| - 1] <= 2 * max)
    decreases if x <= max then max + 1 - x else 0
  {
    if x <= max {
      NoWrap(x, max);
      IntervalsStop(2 * x, max);
    }
  }

  lemma SumStep(x: nat, p: nat)
    requires p >= 1
    ensures x + (2 * x) * (p - 1) == x * (2 * p - 1)
  {
    assert (2 * x) * (p - 1) == x * (2 * (p - 1));
    assert x * (2 * (p - 1)) + x * 1 == x * (2 * (p - 1) + 1);
  }

  lemma {:induction false} IntervalsSum(x: nat, max: nat)
    requires Sound(x, max)
    ensures Sum(Intervals(x, max)) == x * (Pow2(|Intervals(x, max)|) - 1)
    decreases if x <= max then max + 1 - x else 0
  {
    var s := Intervals(x, max);
    if x <= max {
      NoWrap(x, max);
      IntervalsSum(2 * x, max);
      assert s[1..] == Intervals(2 * x, max);
      SumStep(x, Pow2(|s| - 1));
    } else {
      assert s[1..] == [];
      assert Pow2(1) == 2 * Pow2(0) == 2;
    }
  }

  /**
   The back-off of one friend, for any base and maximum that doubling cannot wrap: the intervals double, all but
   the last stay within the maximum and the last exceeds it but not its double, and together they make
   base * (2^n - 1), which is less than four times the maximum.
   */
  lemma BackoffOfOneFriend(base: nat, max: nat)
    requires Sound(base, max)
    ensures var s := Intervals(base, max);
            && |s| >= 1 && max < s[|s| - 1]
            && (forall i :: 0 <= i < |s| ==> s[i] == base * Pow2(i))
            && (forall i :: 0 <= i < |s| - 1 ==> s[i] <= max)
            && Sum(s) == base * (Pow2(|s|) - 1)
            && (base <= max ==> s[|s| - 1] <= 2 * max && Sum(s) < 4 * max)
  {
    IntervalsStop(base, max);
    IntervalsSum(base, max);
    forall i | 0 <= i < |Intervals(base, max)| ensures Intervals(base, max)[i] == base * Pow2(i) {
      IntervalAt(base, max, i);
    }
    SumBelowTwiceTheLast(base, max);
  }

  lemma SumBelowTwiceTheLast(base: nat, max: nat)
    requires Sound(base, max)
    ensures var s := Intervals(base, max);
            |s| >= 1 && Sum(s) < 2 * s[|s| - 1]
  {
    var n := |Intervals(base, max)|;
    IntervalsStop(base, max);
    IntervalsSum(base, max);
    IntervalAt(base, max, n - 1);
    OneLess(base, Pow2(n - 1), Pow2(n));
  }

  lemma OneLess(base: nat, half: nat, p: nat)
    requires p == 2 * half && base >= 1 && half >= 1
    ensures base * (p - 1) < 2 * (base * half)
  {
    assert base * (p - 1) == base * (2 * half) - base;
    assert base * (2 * half) == 2 * (base * half);
  }

  /** The program's own constants: nine timers, waiting 511 in all. */
  lemma ProgramBackoff()
    ensures Intervals(RESEND_TIME_BASE, RESEND_TIME_MAX) == [1, 2, 4, 8, 16, 32, 64, 128, 256]
    ensures Sum(Intervals(RESEND_TIME_BASE, RESEND_TIME_MAX)) == 511
  {
    assert Intervals(256, 128) == [256];
    assert Intervals(64, 128) == [64] + ([128] + [256]);
    assert Intervals(16, 128) == [16] + ([32] + Intervals(64, 128));
    assert Intervals(4, 128) == [4] + ([8] + Intervals(16, 128));
    assert Intervals(1, 128) == [1] + ([2] + Intervals(4, 128));
    ProgramTotal();
  }

  lemma ProgramTotal()
    ensures |Intervals(1, 128)| == 9 ==> Sum(Intervals(1, 128)) == 511
  {
    IntervalsSum(1, 128);
    assert Pow2(3) == 8;
    assert Pow2(6) == 64;
    assert Pow2(9) == 512;
  }

  // ---- any number of friends and pending timers ----

  predicate Positive(pending: seq<Alarm>) {
    forall i :: 0 <= i < |pending| ==> pending[i].interval >= 1
  }

  /** Timers still to fire for friend `who`, at most. */
  function TimersLeft(pending: seq<Alarm>, who: nat, max: nat): nat
    requires 2 * max < UINT32
    requires Positive(pending)
  {
    if pending == [] then 0
    else Share(pending[0], who, max) + TimersLeft(pending[1..], who, max)
  }

  function Share(x: Alarm, who: nat, max: nat): nat
    requires 2 * max < UINT32 && x.interval >= 1
  {
    if x.friend == who then |Intervals(x.interval, max)| else 0
  }

  lemma {:induction false} TimersLeftConcat(a: seq<Alarm>, b: seq<Alarm>, who: nat, max: nat)
    requires 2 * max < UINT32
    requires Positive(a) && Positive(b)
    ensures Positive(a + b)
    ensures TimersLeft(a + b, who, max) == TimersLeft(a, who, max) + TimersLeft(b, who, max)
  {
    hide Share;
    if a == [] {
      assert a + b == b;
    } else {
      assert (a + b)[1..] == a[1..] + b;
      TimersLeftConcat(a[1..], b, who, max);
    }
  }

  lemma StepKeepsPositive(base: nat, max: nat, pending: seq<Alarm>, e: Event)
    requires Sound(base, max) && Positive(pending)
    ensures Positive(Step(base, max, pending, e))
  {
  }

  lemma {:induction false} RunIsPositive(base: nat, max: nat, es: seq<Event>)
    requires Sound(base, max)
    ensures Positive(Run(base, max, es))
  {
    if es != [] {
      RunIsPositive(base, max, es[..|es| - 1]);
      StepKeepsPositive(base, max, Run(base, max, es[..|es| - 1]), es[|es| - 1]);
    }
  }

  /** Every pending timer of every run is armed with an interval of the back-off. */
  lemma {:induction false} PendingOnSchedule(base: nat, max: nat, es: seq<Event>, i: nat)
    requires Sound(base, max) && i < |Run(base, max, es)|
    ensures Run(base, max, es)[i].interval in Intervals(base, max)
  {
    var front, e := es[..|es| - 1], es[|es| - 1];
    var was, now := Run(base, max, front), Run(base, max, es);
    if now[i].interval == base {
      assert Intervals(base, max)[0] == base;
    } else if k :| 0 <= k < |was| && was[k] == now[i] {
      PendingOnSchedule(base, max, front, k);
    } else {
      assert e.Fire? && e.i < |was| && was[e.i].interval <= max && now[i].interval == Double(was[e.i].interval);
      PendingOnSchedule(base, max, front, e.i);
      NextIsScheduled(base, max, was[e.i].interval);
    }
  }

  lemma {:induction false} NextIsScheduled(base: nat, max: nat, x: nat)
    requires Sound(base, max) && x in Intervals(base, max) && x <= max
    ensures Double(x) in Intervals(base, max)
    decreases if base <= max then max + 1 - base else 0
  {
    if base <= max {
      NoWrap(base, max);
      if x == base {
        assert Intervals(base, max)[1] == 2 * base;
      } else {
        NextIsScheduled(2 * base, max, x);
      }
    }
  }

  predicate Fires(pending: seq<Alarm>, e: Event, who: nat) {
    e.Fire? && e.i < |pending| && pending[e.i].friend == who
  }

  predicate FailsFor(e: Event, who: nat) {
    e.Request? && e.friend == who && !e.sent
  }

  /** How many timers have fired for `who`. */
  function FiredCount(base: nat, max: nat, es: seq<Event>, who: nat): nat {
    if es == [] then 0
    else FiredCount(base, max, es[..|es| - 1], who)
         + (if Fires(Run(base, max, es[..|es| - 1]), es[|es| - 1], who) then 1 else 0)
  }

  /** How many requests of `who` were followed by a send that failed. */
  function FailedOf(es: seq<Event>, who: nat): nat {
    if es == [] then 0
    else FailedOf(es[..|es| - 1], who) + (if FailsFor(es[|es| - 1], who) then 1 else 0)
  }

  function FailedRequests(es: seq<Event>): nat {
    if es == [] then 0
    else FailedRequests(es[..|es| - 1])
         + (if es[|es| - 1].Request? && !es[|es| - 1].sent then 1 else 0)
  }

  /** Every resend to `who` fails. */
  predicate AllFail(base: nat, max: nat, es: seq<Event>, who: nat) {
    es == [] || (AllFail(base, max, es[..|es| - 1], who)
                 && (Fires(Run(base, max, es[..|es| - 1]), es[|es| - 1], who) ==> !es[|es| - 1].sent))
  }

  lemma TimersLeftWithout(pending: seq<Alarm>, i: nat, who: nat, max: nat)
    requires 2 * max < UINT32 && Positive(pending) && i < |pending|
    ensures Positive(Without(pending, i)) && pending[i].interval >= 1
    ensures TimersLeft(pending, who, max) == TimersLeft(Without(pending, i), who, max) + Share(pending[i], who, max)
  {
    hide TimersLeft;
    hide Share;
    var a, x, b := pending[..i], pending[i], pending[i + 1..];
    assert pending == a + ([x] + b);
    TimersLeftConcat(a, [x] + b, who, max);
    TimersLeftConcat([x], b, who, max);
    TimersLeftConcat(a, b, who, max);
    OneTimer(x, who, max);
  }

  lemma TimersLeftWith(pending: seq<Alarm>, x: Alarm, who: nat, max: nat)
    requires 2 * max < UINT32 && Positive(pending) && x.interval >= 1
    ensures Positive(pending + [x])
    ensures TimersLeft(pending + [x], who, max) == TimersLeft(pending, who, max) + Share(x, who, max)
  {
    hide TimersLeft;
    hide Share;
    TimersLeftConcat(pending, [x], who, max);
    OneTimer(x, who, max);
  }

  lemma OneTimer(x: Alarm, who: nat, max: nat)
    requires 2 * max < UINT32 && x.interval >= 1
    ensures TimersLeft([x], who, max) == Share(x, who, max)
  {
    assert [x][1..] == [];
  }

  lemma IntervalsNext(x: nat, max: nat)
    requires 2 * max < UINT32 && x >= 1
    ensures if max < x then |Intervals(x, max)| == 1
            else Double(x) >= 1 && |Intervals(x, max)| == 1 + |Intervals(Double(x), max)|
  {
  }

  lemma LeftAfterRequest(base: nat, max: nat, pending: seq<Alarm>, e: Event, who: nat)
    requires Sound(base, max) && Positive(pending) && e.Request?
    ensures Positive(Step(base, max, pending, e))
    ensures TimersLeft(Step(base, max, pending, e), who, max)
            == TimersLeft(pending, who, max) + (if FailsFor(e, who) then |Intervals(base, max)| else 0)
  {
    TimersLeftWith(pending, Alarm(e.friend, base), who, max);
    hide TimersLeft;
    hide Intervals;
  }

  /** A timer of `who` that fires uses up one of its timers left, or all of that chain when the send works. */
  lemma LeftAfterFire(base: nat, max: nat, pending: seq<Alarm>, e: Event, who: nat)
    requires Sound(base, max) && Positive(pending) && e.Fire?
    ensures Positive(Step(base, max, pending, e))
    ensures var left := TimersLeft(Step(base, max, pending, e), who, max);
            if !Fires(pending, e, who) then left == TimersLeft(pending, who, max)
            else if e.sent then left + 1 <= TimersLeft(pending, who, max)
            else left + 1 == TimersLeft(pending, who, max)
  {
    StepKeepsPositive(base, max, pending, e);
    if e.i < |pending| {
      TimersLeftWithout(pending, e.i, who, max);
      var x := pending[e.i];
      IntervalsNext(x.interval, max);
      if x.interval <= max {
        TimersLeftWith(Without(pending, e.i), Alarm(x.friend, Double(x.interval)), who, max);
      }
    }
    hide TimersLeft;
    hide Intervals;
    hide Positive;
  }

  /** Timers fired so far for `who` and timers still to come. */
  function Spent(base: nat, max: nat, es: seq<Event>, who: nat): nat
    requires Sound(base, max) && Positive(Run(base, max, es))
  {
    FiredCount(base, max, es, who) + TimersLeft(Run(base, max, es), who, max)
  }

  /** One event adds a whole back-off if it is a failed request of `who`, and otherwise nothing. */
  lemma SpentStep(base: nat, max: nat, es: seq<Event>, who: nat)
    requires Sound(base, max) && es != []
    requires Positive(Run(base, max, es[..|es| - 1])) && Positive(Run(base, max, es))
    ensures var (front, e) := (es[..|es| - 1], es[|es| - 1]);
            var more := if FailsFor(e, who) then |Intervals(base, max)| else 0;
            && Spent(base, max, es, who) <= Spent(base, max, front, who) + more
            && (!(e.sent && Fires(Run(base, max, front), e, who))
                ==> Spent(base, max, es, who) == Spent(base, max, front, who) + more)
  {
    var front, e := es[..|es| - 1], es[|es| - 1];
    var pending := Run(base, max, front);
    if e.Request? {
      LeftAfterRequest(base, max, pending, e, who);
    } else {
      LeftAfterFire(base, max, pending, e, who);
    }
    hide TimersLeft;
    hide Intervals;
    hide Step;
  }

  /** n for each failed request of `who`. */
  function Budget(n: nat, es: seq<Event>, who: nat): nat {
    if es == [] then 0
    else Budget(n, es[..|es| - 1], who) + (if FailsFor(es[|es| - 1], who) then n else 0)
  }

  lemma {:induction false} BudgetIs(n: nat, es: seq<Event>, who: nat)
    ensures Budget(n, es, who) == n * FailedOf(es, who)
  {
    if es != [] {
      BudgetIs(n, es[..|es| - 1], who);
      OneMore(n, FailedOf(es[..|es| - 1], who));
    }
  }

  lemma OneMore(n: nat, k: nat)
    ensures n * (k + 1) == n * k + n
  {
  }

  lemma {:induction false} SpentWithinBudget(base: nat, max: nat, es: seq<Event>, who: nat)
    requires Sound(base, max)
    ensures Positive(Run(base, max, es))
    ensures Spent(base, max, es, who) <= Budget(|Intervals(base, max)|, es, who)
    ensures AllFail(base, max, es, who) ==> Spent(base, max, es, who) == Budget(|Intervals(base, max)|, es, who)
  {
    RunIsPositive(base, max, es);
    if es != [] {
      SpentWithinBudget(base, max, es[..|es| - 1], who);
      SpentStep(base, max, es, who);
      hide Spent;
      hide Intervals;
      hide Run;
    }
  }

  /**
   Resending always ends, friend by friend, whatever the order of the timers and the outcomes of the sends: the
   timers that have fired for a friend and those still to come never exceed n per failed request of that friend,
   n being the length of one back-off. When every resend to the friend fails the count is exact.
   */
  lemma ResendingEnds(base: nat, max: nat, es: seq<Event>, who: nat)
    requires Sound(base, max)
    ensures Positive(Run(base, max, es))
    ensures var (spent, n) := (FiredCount(base, max, es, who) + TimersLeft(Run(base, max, es), who, max), |Intervals(base, max)|);
            && spent <= n * FailedOf(es, who)
            && (AllFail(base, max, es, who) ==> spent == n * FailedOf(es, who))
  {
    SpentWithinBudget(base, max, es, who);
    BudgetIs(|Intervals(base, max)|, es, who);
  }

  // ---- the heap ----

  lemma FiresNothing(base: nat, max: nat, pending: seq<Alarm>, e: Event)
    requires e.Fire? && e.i >= |pending|
    ensures Step(base, max, pending, e) == pending
  {
  }

  /** The four malloc'ed bytes that travel with a timer. */
  class Buffer {
    var value: nat

    constructor (v: nat)
      ensures value == v
    {
      value := v;
    }
  }

  datatype Timer = Timer(friend: nat, interval: nat, data: Buffer)

  ghost function Alarms(timers: seq<Timer>): (r: seq<Alarm>)
    ensures |r| == |timers|
  {
    seq(|timers|, i requires 0 <= i < |timers| => Alarm(timers[i].friend, timers[i].interval))
  }

  ghost function Datas(timers: seq<Timer>): set<Buffer> {
    set i | 0 <= i < |timers| :: timers[i].data
  }

  ghost predicate DistinctDatas(timers: seq<Timer>) {
    forall i, j :: 0 <= i < j < |timers| ==> timers[i].data != timers[j].data
  }

  lemma RemoveTimer(timers: seq<Timer>, i: nat)
    requires i < |timers| && DistinctDatas(timers)
    ensures Alarms(Without(timers, i)) == Without(Alarms(timers), i)
    ensures DistinctDatas(Without(timers, i))
    ensures Datas(Without(timers, i)) == Datas(timers) - {timers[i].data}
  {
    var rest := Without(timers, i);
    assert Alarms(rest) == Without(Alarms(timers), i);
    RestOfTimers(timers, i);
  }

  lemma RestOfTimers(timers: seq<Timer>, i: nat)
    requires i < |timers| && DistinctDatas(timers)
    ensures DistinctDatas(Without(timers, i))
    ensures Datas(Without(timers, i)) == Datas(timers) - {timers[i].data}
  {
    var rest := Without(timers, i);
    forall k | 0 <= k < |timers| && k != i ensures timers[k].data in Datas(rest) && timers[k].data != timers[i].data {
      assert rest[if k < i then k else k - 1] == timers[k];
    }
  }

  lemma AddTimer(timers: seq<Timer>, t: Timer)
    requires DistinctDatas(timers) && t.data !in Datas(timers)
    ensures var more := timers + [t];
            && Alarms(more) == Alarms(timers) + [Alarm(t.friend, t.interval)]
            && DistinctDatas(more)
            && Datas(more) == Datas(timers) + {t.data}
  {
    var more := timers + [t];
    assert forall k :: 0 <= k < |timers| ==> more[k] == timers[k];
    assert more[|timers|] == t;
    assert forall k :: 0 <= k < |timers| ==> timers[k].data in Datas(timers);
  }

  lemma {:induction false} CountDatas(timers: seq<Timer>)
    requires DistinctDatas(timers)
    ensures |Datas(timers)| == |timers|
  {
    if timers == [] {
      assert Datas(timers) == {};
    } else {
      var n := |timers| - 1;
      assert timers == timers[..n] + [timers[n]];
      CountDatas(timers[..n]);
      AddTimer(timers[..n], timers[n]);
    }
  }

  /** The two callbacks, with the messenger's list of pending timers. */
  class Resender {
    const base: nat
    const max: nat
    var timers: seq<Timer>
    ghost var live: set<Buffer>    // allocated and not yet freed
    ghost var freed: set<Buffer>

    /** Live buffers and pending timers are in bijection, and a buffer holds the interval of its timer. */
    ghost predicate Valid()
      reads this, live
    {
      && Sound(base, max)
      && live !! freed
      && live == Datas(timers)
      && DistinctDatas(timers)
      && (forall i :: 0 <= i < |timers| ==> timers[i].data in live && timers[i].data.value == timers[i].interval)
    }

    ghost function Pending(): seq<Alarm>
      reads this
    {
      Alarms(timers)
    }

    constructor (base: nat, max: nat)
      requires Sound(base, max)
      ensures Valid() && live == {} && freed == {} && Pending() == []
      ensures this.base == base && this.max == max
    {
      this.base, this.max := base, max;
      timers := [];
      live, freed := {}, {};
    }

    method FriendRequest(friend: nat, sent: bool)
      requires Valid()
      modifies this
      ensures Valid()
      ensures Pending() == Step(base, max, old(Pending()), Request(friend, sent))
      ensures freed == old(freed) && old(live) <= live && fresh(live - old(live))
      ensures |live| == |old(live)| + (if sent then 0 else 1)
    {
      if !sent {
        var data := new Buffer(base);
        AddTimer(timers, Timer(friend, base, data));
        timers := timers + [Timer(friend, base, data)];
        live := live + {data};
      }
    }

    /** `free`: allowed once for each buffer. */
    ghost method Free(data: Buffer)
      requires data in live && live !! freed
      modifies this`live, this`freed
      ensures live == old(live) - {data} && freed == old(freed) + {data} && live !! freed
      ensures |live| + |freed| == |old(live)| + |old(freed)|
    {
      live, freed := live - {data}, freed + {data};
    }

    lemma LiveCount()
      requires Valid()
      ensures |live| == |timers| == |Pending()|
    {
      CountDatas(timers);
    }

    /** What a firing timer does to the pending alarms, in terms of the timers. */
    lemma FiringStep(i: nat, sent: bool)
      requires Valid() && i < |timers|
      ensures timers[i].data in live && timers[i].data.value == timers[i].interval
      ensures timers[i].interval <= max ==> Double(timers[i].interval) == 2 * timers[i].interval
      ensures var (t, rest) := (timers[i], Without(timers, i));
              Step(base, max, Pending(), Fire(i, sent))
              == Alarms(if sent || max < t.interval then rest else rest + [Timer(t.friend, Double(t.interval), t.data)])
    {
      RemoveTimer(timers, i);
      AddTimer(Without(timers, i), Timer(timers[i].friend, Double(timers[i].interval), timers[i].data));
    }

    /** The fired timer's buffer is freed and nothing is armed. */
    method GiveUp(i: nat)
      requires Valid() && i < |timers|
      modifies this`timers, this`live, this`freed
      ensures Valid() && timers == Without(old(timers), i)
      ensures live == old(live) - {old(timers[i].data)} && freed == old(freed) + {old(timers[i].data)}
      ensures |live| + |freed| == |old(live)| + |old(freed)|
    {
      RemoveTimer(timers, i);
      Free(timers[i].data);
      timers := Without(timers, i);
    }

    /** The fired timer's buffer takes the doubled interval and goes with a new timer. */
    method Rearm(i: nat)
      requires Valid() && i < |timers|
      modifies this`timers, timers[i].data
      ensures Valid()
      ensures var t := old(timers[i]);
              timers == Without(old(timers), i) + [Timer(t.friend, Double(t.interval), t.data)]
    {
      var fired := timers[i];
      var data := fired.data;
      RemoveTimer(timers, i);
      var interval := Double(data.value);
      data.value := interval;
      AddTimer(Without(timers, i), Timer(fired.friend, interval, data));
      timers := Without(timers, i) + [Timer(fired.friend, interval, data)];
    }

    /** The timer at position `i` fires; the messenger forgets it before the callback runs. */
    method EventTimeout(i: nat, sent: bool)
      requires Valid() && i < |timers|
      modifies this`timers, this`live, this`freed, live
      ensures Valid()
      ensures Pending() == Step(base, max, old(Pending()), Fire(i, sent))
      ensures if sent || max < old(timers[i].interval)
              then live == old(live) - {old(timers[i].data)} && freed == old(freed) + {old(timers[i].data)}
              else
                && live == old(live) && freed == old(freed)
                && timers == Without(old(timers), i) + [old(Timer(timers[i].friend, 2 * timers[i].interval, timers[i].data))]
      ensures |live| + |freed| == |old(live)| + |old(freed)|
    {
      FiringStep(i, sent);
      hide Valid;
      hide Step;
      hide Without;
      hide Alarms;
      hide Double;
      if sent || max < timers[i].data.value {
        GiveUp(i);
      } else {
        Rearm(i);
      }
    }

    /** Any run of the two callbacks. */
    method Serve(es: seq<Event>)
      requires Valid() && timers == [] && freed == {}
      modifies this, live
      ensures Valid()
      ensures Pending() == Run(base, max, es)
      ensures |live| == |timers| && |live| + |freed| == FailedRequests(es)
    {
      hide Valid;
      hide Step;
      hide Alarms;
      LiveCount();
      for n := 0 to |es|
        invariant Valid() && fresh(live - old(live))
        invariant Pending() == Run(base, max, es[..n])
        invariant |live| + |freed| == FailedRequests(es[..n])
      {
        assert es[..n + 1][..n] == es[..n];
        match es[n] {
          case Request(friend, sent) => FriendRequest(friend, sent);
          case Fire(i, sent) =>
            if i < |timers| {
              EventTimeout(i, sent);
            } else {
              LiveCount();
              FiresNothing(base, max, Pending(), es[n]);
            }
        }
      }
      assert es[..|es|] == es;
      LiveCount();
    }
  }
}
