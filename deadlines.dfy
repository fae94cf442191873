/**
 The deadline queue of the timer scheduler, as a value.

 A queue maps an absolute wake instant (in clock ticks) to the one timer record
 due at that instant, exactly as the scheduler's ordered map does: inserting at
 an instant that is already taken replaces the record there. This module gives
 the queue's queries, the effect of each operation on it, the worker's decision
 and effect for one pass of its loop, and the lemmas relating them.
 */
module Deadlines {

  /** A pending timer: its identity and its recurrence period in ticks (0 means
      one-shot). The callback it carries is opaque payload and is not modelled. */
  datatype Timer = Timer(id: nat, period: nat)

  /** Instant -> the record due at that instant. */
  type Queue = map<nat, Timer>

  /** What one pass of the worker loop does: exit because the stop flag is set,
      block until woken because the queue is empty, block for `delay` ticks
      because nothing is due yet, or fire the timer `id` whose deadline was
      `deadline`. */
  datatype Step = Stopped | Idle | Wait(delay: nat) | Fired(id: nat, deadline: nat)

  // ---------------------------------------------------------------------------
  // The earliest instant

  /** Every non-empty finite set of naturals has a least element. */
  lemma {:induction false} HasLeast(s: set<nat>)
    requires s != {}
    ensures exists m :: m in s && forall k :: k in s ==> m <= k
  {
    var x :| x in s;
    if s != {x} {
      var rest := s - {x};
      HasLeast(rest);
      var m :| m in rest && forall k :: k in rest ==> m <= k;
      var least := if x < m then x else m;
      forall k | k in s
        ensures least <= k
      {
        if k != x {
          assert k in rest;
        }
      }
      assert least in s;
    } else {
      assert forall k :: k in s ==> x <= k;
    }
  }

  /** The least element of a non-empty finite set of naturals. */
  function MinKey(s: set<nat>): (m: nat)
    requires s != {}
    ensures m in s
    ensures forall k :: k in s ==> m <= k
  {
    HasLeast(s);
    var m :| m in s && forall k :: k in s ==> m <= k;
    m
  }

  /** The first key of a non-empty queue in ascending order: the instant the
      ordered map's iterator yields first. */
  function Earliest(q: Queue): (t: nat)
    requires q != map[]
    ensures t in q
    ensures forall u :: u in q ==> t <= u
  {
    assert q.Keys != {} by {
      var u :| u in q;
    }
    MinKey(q.Keys)
  }

  // ---------------------------------------------------------------------------
  // Identities

  /** Some record in the queue carries identity `id`. */
  ghost predicate Carries(q: Queue, id: nat)
  {
    exists t :: t in q && q[t].id == id
  }

  /** The identities of the records in the queue. */
  function Ids(q: Queue): set<nat>
  {
    set t | t in q :: q[t].id
  }

  /** No two records in the queue share an identity. */
  ghost predicate DistinctIds(q: Queue)
  {
    forall t, u :: t in q && u in q && q[t].id == q[u].id ==> t == u
  }

  /** Every identity in the queue was drawn from a counter now standing at `next`. */
  ghost predicate IdsBelow(q: Queue, next: nat)
  {
    forall t :: t in q ==> q[t].id < next
  }

  /** The scheduler's invariant on its queue, given its identity counter. */
  ghost predicate WellFormed(q: Queue, next: nat)
  {
    IdsBelow(q, next) && DistinctIds(q)
  }

  /** With distinct identities, the number of records is the number of pending
      timers (identities). */
  lemma {:induction false} DistinctIdsCount(q: Queue)
    requires DistinctIds(q)
    ensures |Ids(q)| == |q|
  {
    if q != map[] {
      var t :| t in q;
      var rest := q - {t};
      assert DistinctIds(rest);
      DistinctIdsCount(rest);
      forall i | i in Ids(q)
        ensures i in Ids(rest) + {q[t].id}
      {
        var u :| u in q && q[u].id == i;
        if u != t {
          assert u in rest;
        }
      }
      assert Ids(q) == Ids(rest) + {q[t].id};
      assert q[t].id !in Ids(rest);
      assert q.Keys == rest.Keys + {t};
    } else {
      assert Ids(q) == {};
    }
  }

  // ---------------------------------------------------------------------------
  // Scheduling: insertion with ordered-map semantics

  /** Scheduling with a fresh identity drawn from the counter keeps the
      invariant, with the counter advanced by one. */
  lemma ScheduleKeepsInvariant(q: Queue, next: nat, t: nat, period: nat)
    requires WellFormed(q, next)
    ensures !Carries(q, next)
    ensures WellFormed(q[t := Timer(next, period)], next + 1)
  {
  }

  /** Inserting at an instant that already holds another timer replaces it: that
      timer is no longer pending at all. */
  lemma ScheduleDropsOccupant(q: Queue, t: nat, r: Timer)
    requires DistinctIds(q)
    requires t in q && q[t].id != r.id
    ensures !Carries(q[t := r], q[t].id)
    ensures |q[t := r]| == |q|
  {
  }

  // ---------------------------------------------------------------------------
  // Cancellation: retain the records with another identity

  /** The queue with every record carrying `id` taken out. */
  function Without(q: Queue, id: nat): (r: Queue)
    ensures !Carries(r, id)
    ensures forall t :: t in q && q[t].id != id ==> t in r && r[t] == q[t]
    ensures forall t :: t in r ==> t in q && r[t] == q[t]
    ensures !Carries(q, id) ==> r == q
  {
    map t | t in q && q[t].id != id :: q[t]
  }

  /** Cancelling keeps the invariant. */
  lemma WithoutKeepsInvariant(q: Queue, next: nat, id: nat)
    requires WellFormed(q, next)
    ensures WellFormed(Without(q, id), next)
  {
  }

  /** With distinct identities, cancelling a pending timer removes exactly one
      record. */
  lemma {:induction false} WithoutRemovesOne(q: Queue, id: nat)
    requires DistinctIds(q) && Carries(q, id)
    ensures |Without(q, id)| == |q| - 1
  {
    var t :| t in q && q[t].id == id;
    var r := Without(q, id);
    assert r.Keys == q.Keys - {t};
  }

  // ---------------------------------------------------------------------------
  // Changing a period in place

  /** The first instant, in ascending order, whose record carries `id`: the
      record a front-to-back search for `id` finds. */
  function FirstWith(q: Queue, id: nat): (t: nat)
    requires Carries(q, id)
    ensures t in q && q[t].id == id
    ensures forall u :: u in q && q[u].id == id ==> t <= u
  {
    var matching := set u | u in q && q[u].id == id;
    assert matching != {} by {
      var u :| u in q && q[u].id == id;
      assert u in matching;
    }
    assert forall u :: u in q && q[u].id == id ==> u in matching;
    MinKey(matching)
  }

  /** The queue with the period of the first record carrying `id` set to `period`. */
  function SetPeriod(q: Queue, id: nat, period: nat): (r: Queue)
    requires Carries(q, id)
    ensures r.Keys == q.Keys
    ensures r[FirstWith(q, id)] == Timer(id, period)
    ensures forall u :: u in q && u != FirstWith(q, id) ==> r[u] == q[u]
  {
    var t := FirstWith(q, id);
    q[t := q[t].(period := period)]
  }

  /** With distinct identities, the period change touches the record carrying
      `id` and nothing else, and keeps the invariant. */
  lemma SetPeriodOnlyThatTimer(q: Queue, next: nat, id: nat, period: nat)
    requires WellFormed(q, next) && Carries(q, id)
    ensures forall u :: u in q ==>
      SetPeriod(q, id, period)[u] == if q[u].id == id then Timer(id, period) else q[u]
    ensures WellFormed(SetPeriod(q, id, period), next)
  {
  }

  // ---------------------------------------------------------------------------
  // One pass of the worker loop (with the stop flag clear)

  /** What the worker does at clock reading `now`: nothing pending means an
      unbounded wait; an earliest deadline in the future means a wait of exactly
      the remaining ticks; otherwise the record at the earliest deadline fires. */
  function Decide(q: Queue, now: nat): (s: Step)
    ensures !s.Stopped?
    ensures s.Idle? <==> q == map[]
    ensures s.Wait? ==> s.delay > 0 && now + s.delay in q
                        && forall u :: u in q ==> now + s.delay <= u
    ensures s.Fired? ==> s.deadline <= now && s.deadline in q && q[s.deadline].id == s.id
                         && forall u :: u in q ==> s.deadline <= u
  {
    if q == map[] then Idle
    else
      var t := Earliest(q);
      if t <= now then Fired(q[t].id, t) else Wait(t - now)
  }

  /** The queue after the worker's pass at `now`: a due record is taken out,
      and put back one period after its own deadline when its period is not 0. */
  function Fire(q: Queue, now: nat): (r: Queue)
    ensures !Decide(q, now).Fired? ==> r == q
    ensures Decide(q, now).Fired? ==>
      var t := Decide(q, now).deadline;
      var p := q[t].period;
      && t !in r
      && (p > 0 ==> t + p in r && r[t + p] == q[t])
      && (forall u :: u in q && u != t && u != t + p ==> u in r && r[u] == q[u])
      && (forall u :: u in r ==> u in q || u == t + p)
  {
    if q == map[] then q
    else
      var t := Earliest(q);
      if now < t then q
      else
        var x := q[t];
        if x.period > 0 then (q - {t})[t + x.period := x] else q - {t}
  }

  /** A pass keeps the invariant. */
  lemma FireKeepsInvariant(q: Queue, next: nat, now: nat)
    requires WellFormed(q, next)
    ensures WellFormed(Fire(q, now), next)
  {
  }

  /** A one-shot timer that fires is no longer pending. */
  lemma OneShotGone(q: Queue, now: nat)
    requires DistinctIds(q)
    requires Decide(q, now).Fired? && q[Decide(q, now).deadline].period == 0
    ensures !Carries(Fire(q, now), Decide(q, now).id)
  {
  }

  /** The rescheduled deadline is anchored to the expired one: any two clock
      readings at or after the deadline give the same pass. */
  lemma FireIndependentOfNow(q: Queue, now1: nat, now2: nat)
    requires q != map[] && Earliest(q) <= now1 && Earliest(q) <= now2
    ensures Decide(q, now1) == Decide(q, now2)
    ensures Fire(q, now1) == Fire(q, now2)
  {
  }

  /** After a firing, whatever remains pending is due strictly later. */
  lemma FireAdvancesEarliest(q: Queue, now: nat)
    requires Decide(q, now).Fired? && Fire(q, now) != map[]
    ensures Decide(q, now).deadline < Earliest(Fire(q, now))
  {
  }

  // ---------------------------------------------------------------------------
  // The worker loop over a sequence of wake-ups

  /** The steps the worker takes when it wakes at the clock readings `nows`. */
  function Trace(q: Queue, nows: seq<nat>): (steps: seq<Step>)
    ensures |steps| == |nows|
    decreases |nows|
  {
    if nows == [] then [] else [Decide(q, nows[0])] + Trace(Fire(q, nows[0]), nows[1..])
  }

  /** The queue after the worker has woken at the clock readings `nows`. */
  function Replay(q: Queue, nows: seq<nat>): (r: Queue)
    ensures Ids(r) <= Ids(q)
    decreases |nows|
  {
    if nows == [] then q else Replay(Fire(q, nows[0]), nows[1..])
  }

  /** The worker loop keeps the invariant. */
  lemma {:induction false} ReplayKeepsInvariant(q: Queue, next: nat, nows: seq<nat>)
    requires WellFormed(q, next)
    ensures WellFormed(Replay(q, nows), next)
    decreases |nows|
  {
    if nows != [] {
      FireKeepsInvariant(q, next, nows[0]);
      ReplayKeepsInvariant(Fire(q, nows[0]), next, nows[1..]);
    }
  }

  /** Whatever fires during a run was pending at or after the start's earliest
      deadline. */
  lemma {:induction false} TraceFiresFromEarliest(q: Queue, nows: seq<nat>)
    ensures forall k :: 0 <= k < |nows| && Trace(q, nows)[k].Fired? ==>
      q != map[] && Earliest(q) <= Trace(q, nows)[k].deadline
    decreases |nows|
  {
    if nows != [] {
      var now := nows[0];
      var q' := Fire(q, now);
      TraceFiresFromEarliest(q', nows[1..]);
      if Decide(q, now).Fired? && q' != map[] {
        FireAdvancesEarliest(q, now);
      }
      forall k | 0 <= k < |nows| && Trace(q, nows)[k].Fired?
        ensures q != map[] && Earliest(q) <= Trace(q, nows)[k].deadline
      {
        if k > 0 {
          assert Trace(q, nows)[k] == Trace(q', nows[1..])[k - 1];
        }
      }
    }
  }

  /** Timers fire in strictly increasing deadline order. */
  lemma {:induction false} TraceFiresInOrder(q: Queue, nows: seq<nat>)
    ensures forall i, j :: 0 <= i < j < |nows| && Trace(q, nows)[i].Fired? && Trace(q, nows)[j].Fired? ==>
      Trace(q, nows)[i].deadline < Trace(q, nows)[j].deadline
    decreases |nows|
  {
    if nows != [] {
      var now := nows[0];
      var q' := Fire(q, now);
      var steps := Trace(q, nows);
      var rest := Trace(q', nows[1..]);
      assert steps == [Decide(q, now)] + rest;
      TraceFiresInOrder(q', nows[1..]);
      TraceFiresFromEarliest(q', nows[1..]);
      if Decide(q, now).Fired? && q' != map[] {
        FireAdvancesEarliest(q, now);
      }
      forall i, j | 0 <= i < j < |nows| && steps[i].Fired? && steps[j].Fired?
        ensures steps[i].deadline < steps[j].deadline
      {
        assert steps[j] == rest[j - 1];
        if i > 0 {
          assert steps[i] == rest[i - 1];
        }
      }
    }
  }

  /** A worker woken while nothing is pending stays idle. */
  lemma {:induction false} IdleWhileEmpty(nows: seq<nat>)
    ensures Replay(map[], nows) == map[]
    ensures forall k :: 0 <= k < |nows| ==> Trace(map[], nows)[k] == Idle
    decreases |nows|
  {
    if nows != [] {
      IdleWhileEmpty(nows[1..]);
      assert Trace(map[], nows) == [Idle] + Trace(map[], nows[1..]);
    }
  }

  /** A pass never brings back an identity that was not pending. */
  lemma FireKeepsIds(q: Queue, now: nat)
    ensures Ids(Fire(q, now)) <= Ids(q)
  {
  }

  /** Whatever fires during a run was pending at its start. */
  lemma {:induction false} TraceFiresPending(q: Queue, nows: seq<nat>)
    ensures forall k :: 0 <= k < |nows| && Trace(q, nows)[k].Fired? ==>
      Trace(q, nows)[k].id in Ids(q)
    decreases |nows|
  {
    if nows != [] {
      var now := nows[0];
      var q' := Fire(q, now);
      var steps := Trace(q, nows);
      var rest := Trace(q', nows[1..]);
      assert steps == [Decide(q, now)] + rest;
      TraceFiresPending(q', nows[1..]);
      FireKeepsIds(q, now);
      forall k | 0 <= k < |nows| && steps[k].Fired?
        ensures steps[k].id in Ids(q)
      {
        if k == 0 {
          var t := Decide(q, now).deadline;
          assert t in q && q[t].id == steps[0].id;
        } else {
          assert steps[k] == rest[k - 1];
        }
      }
    }
  }

  /** A one-shot timer fires at most once: once it has fired, no later pass of
      the run fires it again. */
  lemma {:induction false} OneShotFiresOnce(q: Queue, nows: seq<nat>)
    requires DistinctIds(q)
    requires |nows| > 0 && Decide(q, nows[0]).Fired?
    requires q[Decide(q, nows[0]).deadline].period == 0
    ensures forall k :: 1 <= k < |nows| && Trace(q, nows)[k].Fired? ==>
      Trace(q, nows)[k].id != Decide(q, nows[0]).id
  {
    var now := nows[0];
    var id := Decide(q, now).id;
    var q' := Fire(q, now);
    var steps := Trace(q, nows);
    var rest := Trace(q', nows[1..]);
    assert steps == [Decide(q, now)] + rest;
    OneShotGone(q, now);
    TraceFiresPending(q', nows[1..]);
    forall k | 1 <= k < |nows| && steps[k].Fired?
      ensures steps[k].id != id
    {
      assert steps[k] == rest[k - 1];
      assert steps[k].id in Ids(q');
    }
  }

  /** The steps from pass k of a run on are the steps of a run started from
      the queue left by its first k passes. */
  lemma {:induction false} TraceSuffix(q: Queue, nows: seq<nat>, k: nat)
    requires k <= |nows|
    ensures Trace(q, nows)[k..] == Trace(Replay(q, nows[..k]), nows[k..])
    decreases k
  {
    if k == 0 {
      assert nows[..0] == [] && nows[0..] == nows;
    } else {
      var q' := Fire(q, nows[0]);
      var tail := nows[1..];
      TraceSuffix(q', tail, k - 1);
      assert Trace(q, nows) == [Decide(q, nows[0])] + Trace(q', tail);
      assert nows[..k][0] == nows[0] && nows[..k][1..] == tail[..k - 1];
      assert tail[k - 1..] == nows[k..];
    }
  }

  /** A one-shot timer fires at most once in a run, whichever pass fires it:
      no later pass fires its identity again. */
  lemma OneShotFiresAtMostOnce(q: Queue, next: nat, nows: seq<nat>, i: nat)
    requires WellFormed(q, next) && i < |nows|
    requires Decide(Replay(q, nows[..i]), nows[i]).Fired?
    requires Replay(q, nows[..i])[Decide(Replay(q, nows[..i]), nows[i]).deadline].period == 0
    ensures Trace(q, nows)[i] == Decide(Replay(q, nows[..i]), nows[i])
    ensures forall j :: i < j < |nows| && Trace(q, nows)[j].Fired? ==>
      Trace(q, nows)[j].id != Trace(q, nows)[i].id
  {
    var r := Replay(q, nows[..i]);
    var steps := Trace(q, nows);
    var later := Trace(r, nows[i..]);
    ReplayKeepsInvariant(q, next, nows[..i]);
    TraceSuffix(q, nows, i);
    assert steps[i..] == later;
    assert nows[i..][0] == nows[i];
    assert steps[i] == later[0];
    OneShotFiresOnce(r, nows[i..]);
    forall j | i < j < |nows| && steps[j].Fired?
      ensures steps[j].id != steps[i].id
    {
      assert steps[j] == later[j - i];
    }
  }

  /** Two periodic timers scheduled at the same clock reading collide: the
      faster one's third deadline is the slower one's first, so putting it
      back there replaces the slower timer, which is lost. */
  lemma PeriodicCollision()
    ensures Replay(map[50 := Timer(0, 50), 150 := Timer(1, 150)], [50, 100])
         == map[150 := Timer(0, 50)]
  {
    var q0 := map[50 := Timer(0, 50), 150 := Timer(1, 150)];
    assert 50 in q0;
    assert Earliest(q0) == 50;
    var q1 := map[100 := Timer(0, 50), 150 := Timer(1, 150)];
    assert Fire(q0, 50) == q1;
    assert 100 in q1;
    assert Earliest(q1) == 100;
    assert Fire(q1, 100) == map[150 := Timer(0, 50)];
    assert [50, 100][1..] == [100];
    assert Replay(q0, [50, 100]) == Replay(q1, [100]);
  }

  /** A lone timer woken at or after its deadline fires and, when periodic,
      is due again exactly one period later. */
  lemma LoneFire(t: nat, x: Timer, now: nat)
    requires x.period > 0 && t <= now
    ensures Decide(map[t := x], now) == Fired(x.id, t)
    ensures Fire(map[t := x], now) == map[t + x.period := x]
  {
    var q := map[t := x];
    assert t in q;
  }

  /** Of two pending periodic timers, the one due first fires when the worker
      is woken at or after its deadline, and is put back one period later,
      over whatever timer is due then. */
  lemma FireFirstOfTwo(t: nat, x: Timer, u: nat, y: Timer, now: nat)
    requires t < u && t <= now && x.period > 0
    ensures Decide(map[t := x, u := y], now) == Fired(x.id, t)
    ensures Fire(map[t := x, u := y], now) == map[u := y, t + x.period := x]
  {
    var q := map[t := x, u := y];
    assert t in q;
    assert q - {t} == map[u := y];
  }

  /** Cancelling one of two pending timers with different identities leaves
      the other alone in the queue. */
  lemma CancelOneOfTwo(t: nat, x: Timer, u: nat, y: Timer)
    requires t != u && x.id != y.id
    ensures Without(map[t := x, u := y], x.id) == map[u := y]
  {
    var q := map[t := x, u := y];
    var r := Without(q, x.id);
    assert u in r;
    assert r.Keys == {u} by {
      forall k | k in r ensures k == u {
        assert k in q && r[k] == q[k];
      }
    }
  }

  /** The deadline n periods after t + p is the one n + 1 periods after t. */
  lemma NextDeadline(t: nat, p: nat, n: nat)
    ensures (t + p) + n * p == t + (n + 1) * p
  {
  }

  /** A lone periodic timer woken at or after each of its deadlines ends up
      due at t + n * p after n wake-ups. */
  lemma {:induction false} LoneReplay(t: nat, x: Timer, nows: seq<nat>)
    requires x.period > 0
    requires forall k :: 0 <= k < |nows| ==> t + k * x.period <= nows[k]
    ensures Replay(map[t := x], nows) == map[t + |nows| * x.period := x]
    decreases |nows|
  {
    if nows != [] {
      var p := x.period;
      var tail := nows[1..];
      assert t + 0 * p <= nows[0];
      LoneFire(t, x, nows[0]);
      forall k | 0 <= k < |tail|
        ensures (t + p) + k * p <= tail[k]
      {
        assert tail[k] == nows[k + 1];
      }
      LoneReplay(t + p, x, tail);
      NextDeadline(t, p, |tail|);
    }
  }

  /** Drift-free recurrence: a lone periodic timer with deadline `t`, woken at
      or after each of its deadlines, fires at t, t + p, t + 2p, ... whatever
      the actual wake-up times. */
  lemma {:induction false} LoneTrace(t: nat, x: Timer, nows: seq<nat>)
    requires x.period > 0
    requires forall k :: 0 <= k < |nows| ==> t + k * x.period <= nows[k]
    ensures forall k :: 0 <= k < |nows| ==>
      Trace(map[t := x], nows)[k] == Fired(x.id, t + k * x.period)
    decreases |nows|
  {
    if nows != [] {
      var p := x.period;
      var tail := nows[1..];
      assert t + 0 * p <= nows[0];
      LoneFire(t, x, nows[0]);
      forall k | 0 <= k < |tail|
        ensures (t + p) + k * p <= tail[k]
      {
        assert tail[k] == nows[k + 1];
        NextDeadline(t, p, k);
      }
      LoneTrace(t + p, x, tail);
      var steps := Trace(map[t := x], nows);
      var rest := Trace(map[t + p := x], tail);
      assert steps == [Fired(x.id, t)] + rest;
      forall k | 0 <= k < |nows|
        ensures steps[k] == Fired(x.id, t + k * p)
      {
        if k > 0 {
          assert steps[k] == rest[k - 1];
          NextDeadline(t, p, k - 1);
        }
      }
    }
  }
}
