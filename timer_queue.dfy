/**
 The scheduler object: its deadline queue, its identity counter and its stop
 flag, with the control operations callers use and one pass of the worker loop.

 Each operation is one atomic step on the shared state; the lock, the wake
 signal and the worker thread are not modelled. The clock is read by the caller
 and passed in as `now`.
 */
module Scheduler {
  import opened Deadlines

  class TimerQueue {
    /** Pending timers by wake instant. */
    var timers: Queue
    /** The identity the next scheduled timer gets. */
    var nextId: nat
    /** Set by shutdown; the worker exits when it sees it. */
    var stop: bool

    /** Every pending identity came from the counter, and none is pending twice. */
    ghost predicate Valid()
      reads this
    {
      WellFormed(timers, nextId)
    }

    /** A new scheduler: nothing pending, counter at 0, not stopped. */
    constructor ()
      ensures Valid()
      ensures timers == map[] && nextId == 0 && !stop
    {
      timers := map[];
      nextId := 0;
      stop := false;
    }

    /** Some pending timer has identity `id`. */
    function ContainsId(id: nat): (b: bool)
      reads this
      ensures b <==> Carries(timers, id)
      ensures b <==> id in Ids(timers)
    {
      exists t | t in timers :: timers[t].id == id
    }

    /** The number of pending records, which is the number of pending timers. */
    function Len(): (n: nat)
      requires Valid()
      reads this
      ensures n == |timers.Keys|
      ensures n == |Ids(timers)|
    {
      DistinctIdsCount(timers);
      |timers|
    }

    /** True once the scheduler is stopped, and otherwise when nothing is pending. */
    function IsEmpty(): (b: bool)
      reads this
      ensures stop ==> b
      ensures !stop ==> (b <==> timers == map[])
    {
      stop || timers == map[]
    }

    /** Draws the next identity from the counter. */
    method FreshId() returns (id: nat)
      requires Valid()
      modifies this`nextId
      ensures id == old(nextId) && nextId == id + 1
      ensures !Carries(timers, id)
      ensures IdsBelow(timers, nextId)
    {
      id := nextId;
      nextId := nextId + 1;
    }

    /** One-shot timer at `instant`; replaces any timer already due then. */
    method ScheduleAt(instant: nat) returns (id: nat)
      requires Valid()
      modifies this
      ensures Valid()
      ensures id == old(nextId) && nextId == old(nextId) + 1 && stop == old(stop)
      ensures !Carries(old(timers), id) && ContainsId(id)
      ensures timers == old(timers)[instant := Timer(id, 0)]
    {
      id := FreshId();
      ScheduleKeepsInvariant(timers, id, instant, 0);
      timers := timers[instant := Timer(id, 0)];
      assert timers[instant].id == id;
    }

    /** Periodic timer first due one period after the clock reading `now`. */
    method SchedulePeriodic(period: nat, now: nat) returns (id: nat)
      requires Valid()
      modifies this
      ensures Valid()
      ensures id == old(nextId) && nextId == old(nextId) + 1 && stop == old(stop)
      ensures !Carries(old(timers), id) && ContainsId(id)
      ensures timers == old(timers)[now + period := Timer(id, period)]
    {
      id := FreshId();
      ScheduleKeepsInvariant(timers, id, now + period, period);
      timers := timers[now + period := Timer(id, period)];
      assert timers[now + period].id == id;
    }

    /** Timer first due at `first`, then every `period` (once only when 0). */
    method ScheduleCustom(first: nat, period: nat) returns (id: nat)
      requires Valid()
      modifies this
      ensures Valid()
      ensures id == old(nextId) && nextId == old(nextId) + 1 && stop == old(stop)
      ensures !Carries(old(timers), id) && ContainsId(id)
      ensures timers == old(timers)[first := Timer(id, period)]
    {
      id := FreshId();
      ScheduleKeepsInvariant(timers, id, first, period);
      timers := timers[first := Timer(id, period)];
      assert timers[first].id == id;
    }

    /** Takes out every pending timer with identity `id`; reports whether there was one. */
    method Cancel(id: nat) returns (found: bool)
      requires Valid()
      modifies this`timers
      ensures Valid()
      ensures found <==> Carries(old(timers), id)
      ensures !ContainsId(id)
      ensures timers == Without(old(timers), id)
      ensures !found ==> timers == old(timers)
    {
      found := ContainsId(id);
      if found {
        WithoutKeepsInvariant(timers, nextId, id);
        timers := Without(timers, id);
      }
    }

    /** Changes the period of the pending timer `id`; reports whether there was one. */
    method SetPeriodic(id: nat, period: nat) returns (found: bool)
      requires Valid()
      modifies this`timers
      ensures Valid()
      ensures found <==> Carries(old(timers), id)
      ensures found ==> timers == SetPeriod(old(timers), id, period)
      ensures found ==> forall t :: t in old(timers) ==>
        timers[t] == if old(timers)[t].id == id then Timer(id, period) else old(timers)[t]
      ensures !found ==> timers == old(timers)
      ensures timers.Keys == old(timers).Keys
    {
      found := ContainsId(id);
      if found {
        SetPeriodOnlyThatTimer(timers, nextId, id, period);
        var t := FirstWith(timers, id);
        timers := timers[t := timers[t].(period := period)];
      }
    }

    /** Stops the recurrence of the pending timer `id`: set_periodic with period 0. */
    method CancelPeriodic(id: nat) returns (found: bool)
      requires Valid()
      modifies this`timers
      ensures Valid()
      ensures found <==> Carries(old(timers), id)
      ensures found ==> timers == SetPeriod(old(timers), id, 0)
      ensures !found ==> timers == old(timers)
    {
      found := SetPeriodic(id, 0);
    }

    /** Drops every pending timer; the counter and the stop flag stay. */
    method Clear()
      requires Valid()
      modifies this`timers
      ensures Valid()
      ensures timers == map[] && Len() == 0
      ensures nextId == old(nextId) && stop == old(stop)
    {
      timers := map[];
    }

    /** Raises the stop flag; the queue and the counter stay. */
    method Shutdown()
      requires Valid()
      modifies this`stop
      ensures Valid()
      ensures stop && IsEmpty()
      ensures timers == old(timers) && nextId == old(nextId)
    {
      stop := true;
    }

    /** One pass of the worker loop at clock reading `now`. */
    method FireStep(now: nat) returns (s: Step)
      requires Valid()
      modifies this`timers
      ensures Valid()
      ensures old(stop) ==> s == Stopped && timers == old(timers)
      ensures !old(stop) ==> s == Decide(old(timers), now) && timers == Fire(old(timers), now)
    {
      if stop {
        return Stopped;
      }
      FireKeepsInvariant(timers, nextId, now);
      if timers == map[] {
        return Idle;
      }
      var t := Earliest(timers);
      if now < t {
        return Wait(t - now);
      }
      var x := timers[t];
      timers := timers - {t};
      if x.period > 0 {
        timers := timers[t + x.period := x];
      }
      s := Fired(x.id, t);
    }

    /** The worker loop, woken at the clock readings `nows` in turn, until the
        stop flag is seen. */
    method RunWorker(nows: seq<nat>) returns (steps: seq<Step>)
      requires Valid()
      modifies this`timers
      ensures Valid()
      ensures stop ==> steps == [] && timers == old(timers)
      ensures !stop ==> steps == Trace(old(timers), nows) && timers == Replay(old(timers), nows)
    {
      steps := [];
      var i := 0;
      while i < |nows| && !stop
        invariant 0 <= i <= |nows|
        invariant Valid()
        invariant stop ==> i == 0 && timers == old(timers)
        invariant Trace(old(timers), nows) == steps + Trace(timers, nows[i..])
        invariant Replay(old(timers), nows) == Replay(timers, nows[i..])
      {
        assert nows[i..][0] == nows[i] && nows[i..][1..] == nows[i + 1..];
        var s := FireStep(nows[i]);
        steps := steps + [s];
        i := i + 1;
      }
      assert nows[i..] == [] || stop;
    }
  }

  /** A scheduler started, its worker woken at `nows` while nothing is pending,
      and then stopped: the worker stays idle, the stop flag goes from down to
      up, and afterwards the scheduler holds nothing and reports itself empty. */
  method StartThenShutdown(nows: seq<nat>) returns (stopBefore: bool, stopAfter: bool, steps: seq<Step>, len: nat, empty: bool)
    ensures !stopBefore && stopAfter
    ensures |steps| == |nows| && forall k :: 0 <= k < |steps| ==> steps[k] == Idle
    ensures len == 0 && empty
  {
    var q := new TimerQueue();
    IdleWhileEmpty(nows);
    steps := q.RunWorker(nows);
    stopBefore := q.stop;
    q.Shutdown();
    stopAfter := q.stop;
    len := q.Len();
    empty := q.IsEmpty();
  }

  /** A 50-tick periodic timer scheduled at clock reading 0 and a 150-tick one
      at reading 1, with the worker woken at 50, 100, 150 and 151: the faster
      timer fires three times, then the slower one once, and both are pending
      again, one period after their last firing. */
  method FastThenSlow() returns (q: TimerQueue, fast: nat, slow: nat, early: seq<Step>)
    ensures fresh(q) && q.Valid() && !q.stop
    ensures fast != slow
    ensures early == [Fired(fast, 50), Fired(fast, 100), Fired(fast, 150), Fired(slow, 151)]
    ensures q.timers == map[200 := Timer(fast, 50), 301 := Timer(slow, 150)]
  {
    q := new TimerQueue();
    fast := q.SchedulePeriodic(50, 0);
    slow := q.SchedulePeriodic(150, 1);
    early := FourPasses(q, Timer(fast, 50), Timer(slow, 150));
  }

  /** The passes of `FastThenSlow` on a queue holding a 50-tick timer due at
      50 and a 150-tick one due at 151. */
  method FourPasses(q: TimerQueue, x: Timer, y: Timer) returns (early: seq<Step>)
    requires q.Valid() && !q.stop && x.period == 50 && y.period == 150
    requires q.timers == map[50 := x, 151 := y]
    modifies q`timers
    ensures q.Valid()
    ensures early == [Fired(x.id, 50), Fired(x.id, 100), Fired(x.id, 150), Fired(y.id, 151)]
    ensures q.timers == map[200 := x, 301 := y]
  {
    FireFirstOfTwo(50, x, 151, y, 50);
    var s0 := q.FireStep(50);
    assert q.timers == map[100 := x, 151 := y];
    FireFirstOfTwo(100, x, 151, y, 100);
    var s1 := q.FireStep(100);
    assert q.timers == map[150 := x, 151 := y];
    FireFirstOfTwo(150, x, 151, y, 150);
    var s2 := q.FireStep(150);
    assert q.timers == map[151 := y, 200 := x];
    FireFirstOfTwo(151, y, 200, x, 151);
    var s3 := q.FireStep(151);
    early := [s0, s1, s2, s3];
  }

  /** The timers of `FastThenSlow`, the faster one then cancelled: both are
      pending before the cancel, only the slower one is after it, and a worker
      woken at `nows`, each reading at or after the slower timer's next
      deadline, fires only the slower one, at each deadline. */
  method FastAndSlow(nows: seq<nat>)
    returns (fast: nat, slow: nat, early: seq<Step>, pendingBefore: nat, fastBefore: bool, fastAfter: bool, steps: seq<Step>)
    requires forall k :: 0 <= k < |nows| ==> 301 + k * 150 <= nows[k]
    ensures fast != slow
    ensures early == [Fired(fast, 50), Fired(fast, 100), Fired(fast, 150), Fired(slow, 151)]
    ensures pendingBefore == 2 && fastBefore && !fastAfter
    ensures |steps| == |nows|
    ensures forall k :: 0 <= k < |steps| ==> steps[k] == Fired(slow, 301 + k * 150)
  {
    var q;
    q, fast, slow, early := FastThenSlow();
    pendingBefore := q.Len();
    assert q.timers[200].id == fast;
    fastBefore := q.ContainsId(fast);
    CancelOneOfTwo(200, Timer(fast, 50), 301, Timer(slow, 150));
    var found := q.Cancel(fast);
    fastAfter := q.ContainsId(fast);
    steps := RunLone(q, 301, Timer(slow, 150), nows);
  }

  /** A worker woken at or after each deadline of the one pending periodic
      timer fires it at each deadline in turn. */
  method RunLone(q: TimerQueue, t: nat, x: Timer, nows: seq<nat>) returns (steps: seq<Step>)
    requires q.Valid() && !q.stop && q.timers == map[t := x] && x.period > 0
    requires forall k :: 0 <= k < |nows| ==> t + k * x.period <= nows[k]
    modifies q`timers
    ensures q.Valid() && q.timers == map[t + |nows| * x.period := x]
    ensures |steps| == |nows|
    ensures forall k :: 0 <= k < |steps| ==> steps[k] == Fired(x.id, t + k * x.period)
  {
    LoneTrace(t, x, nows);
    LoneReplay(t, x, nows);
    steps := q.RunWorker(nows);
  }
}
