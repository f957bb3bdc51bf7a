/**
 The dispatcher of scheduler.cpp, branch by branch, with the iterators it keeps
 between calls. Tasks are numbered in the order of the task map, except in the
 static-priorities branch, where they are numbered in priority-table order.
 */
module Dispatching {
  import opened Options
  import opened Arith

  // Cyclic executive --------------------------------------------------------------

  /** Steps forward from position `from` to position `to` on a ring of n. */
  function Distance(from: nat, to: nat, n: nat): nat
    requires from < n && to < n
  {
    if from <= to then to - from else to + n - from
  }

  function Next(i: nat, n: nat): nat
    requires i < n
  {
    if i + 1 == n then 0 else i + 1
  }

  /** p is the ready task met first when walking the ring from position `from`. */
  ghost predicate NearestReady(ready: seq<bool>, from: nat, p: nat)
    requires from < |ready| && p < |ready|
  {
    && ready[p]
    && forall j :: 0 <= j < |ready| && ready[j] ==> Distance(from, p, |ready|) <= Distance(from, j, |ready|)
  }

  // EDF as coded --------------------------------------------------------------------

  /** get_time_to_next_deadline: distance to the next multiple of the period not before now. */
  function TimeToNextDeadline(now: nat, period: nat): (r: nat)
    requires 0 < period
    ensures r < period && (now + r) % period == 0
  {
    CeilDivBounds(now, period);
    CeilDivMultiple(CeilDiv(now, period), period);
    DivBounds(CeilDiv(now, period) * period, period);
    CeilDiv(now, period) * period - now
  }

  /**
   The value equals the distance to the deadline of the job released last,
   (now / period + 1) * period, exactly when no job is released at now.
   */
  lemma TimeToDeadlineExact(now: nat, period: nat)
    requires 0 < period
    ensures TimeToNextDeadline(now, period) == (now / period + 1) * period - now <==> now % period != 0
    ensures now % period == 0 ==> TimeToNextDeadline(now, period) == 0
  {
    AddOne(now / period, period);
    if now % period == 0 {
      CeilOfMultiple(now, period);
    } else {
      CeilOfOther(now, period);
    }
  }

  lemma CeilOfMultiple(now: nat, period: nat)
    requires 0 < period && now % period == 0
    ensures CeilDiv(now, period) == now / period && now / period * period == now
  {
    DivBounds(now, period);
    CeilDivMultiple(now / period, period);
  }

  lemma CeilOfOther(now: nat, period: nat)
    requires 0 < period && now % period != 0
    ensures CeilDiv(now, period) == now / period + 1
  {
    DivBounds(now, period);
    AddOne(now / period, period);
    AddOne(now / period + 1, period);
    DivUnique(now + period - 1, period, now / period + 1);
  }

  /** First ready task in map order; |ready| if there is none. */
  function FirstReadyIndex(ready: seq<bool>, from: nat): (p: nat)
    requires from <= |ready|
    ensures from <= p <= |ready|
    ensures p < |ready| ==> ready[p]
    ensures forall j :: from <= j < p ==> !ready[j]
    decreases |ready| - from
  {
    if from == |ready| || ready[from] then from else FirstReadyIndex(ready, from + 1)
  }

  /** Last ready task below n whose value undercuts that of the first ready task; the first one if there is none. */
  function LastUndercut(ready: seq<bool>, ttd: seq<nat>, n: nat): (p: nat)
    requires |ttd| == |ready| && n <= |ready| && FirstReadyIndex(ready, 0) < n
    ensures p < n && ready[p]
    ensures p == FirstReadyIndex(ready, 0) || ttd[p] < ttd[FirstReadyIndex(ready, 0)]
    ensures forall j :: p < j < n && ready[j] ==> ttd[FirstReadyIndex(ready, 0)] <= ttd[j]
  {
    var first := FirstReadyIndex(ready, 0);
    if n - 1 == first then first
    else if ready[n - 1] && ttd[n - 1] < ttd[first] then n - 1
    else LastUndercut(ready, ttd, n - 1)
  }

  /**
   What the branch returns, given the value the uninitialised flag
   first_ready_task_found happens to hold. With the flag set, the result is
   never assigned.
   */
  function EdfAsCoded(ready: seq<bool>, ttd: seq<nat>, flag: bool): Option<nat>
    requires |ttd| == |ready| && 0 < |ready|
  {
    if flag then None
    else if FirstReadyIndex(ready, 0) == |ready| then Some(0)
    else Some(LastUndercut(ready, ttd, |ready|))
  }

  /** p is the choice documented for the branch: a ready task of least value. */
  predicate EarliestReady(ready: seq<bool>, ttd: seq<nat>, p: nat)
    requires |ttd| == |ready|
  {
    p < |ready| && ready[p] && forall j :: 0 <= j < |ready| && ready[j] ==> ttd[p] <= ttd[j]
  }

  /** Some ready task has a smaller value than the first one does, at or after position `from`. */
  predicate UndercutFrom(ready: seq<bool>, ttd: seq<nat>, from: nat)
    requires |ttd| == |ready| && FirstReadyIndex(ready, 0) < |ready|
  {
    exists j :: from <= j < |ready| && ready[j] && ttd[j] < ttd[FirstReadyIndex(ready, 0)]
  }

  /** e is the first ready task and nobody undercuts it, or e undercuts it and nobody after e does. */
  predicate SettlesOn(ready: seq<bool>, ttd: seq<nat>, e: nat)
    requires |ttd| == |ready| && FirstReadyIndex(ready, 0) < |ready|
  {
    && e < |ready| && ready[e] && !UndercutFrom(ready, ttd, e + 1)
    && (e == FirstReadyIndex(ready, 0) || ttd[e] < ttd[FirstReadyIndex(ready, 0)])
  }

  lemma {:induction false} SettlesOnce(ready: seq<bool>, ttd: seq<nat>, p: nat, q: nat)
    requires |ttd| == |ready| && FirstReadyIndex(ready, 0) < |ready|
    requires SettlesOn(ready, ttd, p) && SettlesOn(ready, ttd, q)
    ensures p == q
  {
  }

  /** With its flag cleared and some task ready, the branch returns p exactly if it settles on p. */
  lemma {:induction false} CodedPick(ready: seq<bool>, ttd: seq<nat>, p: nat)
    requires |ttd| == |ready| && FirstReadyIndex(ready, 0) < |ready|
    ensures EdfAsCoded(ready, ttd, false) == Some(p) <==> SettlesOn(ready, ttd, p)
  {
    var q := LastUndercut(ready, ttd, |ready|);
    assert SettlesOn(ready, ttd, q);
    if SettlesOn(ready, ttd, p) {
      SettlesOnce(ready, ttd, p, q);
    }
  }

  /**
   A ready task of least value ties with the first ready one, or no ready task
   after it has a smaller value than the first one.
   */
  ghost predicate LeastSurvives(ready: seq<bool>, ttd: seq<nat>)
    requires |ttd| == |ready| && FirstReadyIndex(ready, 0) < |ready|
  {
    exists e: nat :: EarliestReady(ready, ttd, e)
                     && (ttd[e] == ttd[FirstReadyIndex(ready, 0)] || !UndercutFrom(ready, ttd, e + 1))
  }

  /**
   With some task ready, the coded branch makes the documented choice if and only
   if its flag starts cleared and a ready task of least value is not overwritten
   by a later one that undercuts the first ready task.
   */
  lemma {:induction false} EdfAsCodedExact(ready: seq<bool>, ttd: seq<nat>, flag: bool)
    requires |ttd| == |ready| && FirstReadyIndex(ready, 0) < |ready|
    ensures (EdfAsCoded(ready, ttd, flag).Some? && EarliestReady(ready, ttd, EdfAsCoded(ready, ttd, flag).value)) <==>
            (!flag && LeastSurvives(ready, ttd))
  {
    var first, p := FirstReadyIndex(ready, 0), LastUndercut(ready, ttd, |ready|);
    CodedPick(ready, ttd, p);
    if EarliestReady(ready, ttd, p) {
      assert LeastSurvives(ready, ttd);
    }
    if LeastSurvives(ready, ttd) {
      var e: nat :| EarliestReady(ready, ttd, e) && (ttd[e] == ttd[first] || !UndercutFrom(ready, ttd, e + 1));
      if ttd[e] != ttd[first] {
        assert ready[first];
        CodedPick(ready, ttd, e);
      }
    }
  }

  /** Two ready tasks are always ordered correctly; three need not be. */
  lemma EdfAsCodedThreeTasks()
    ensures EdfAsCoded([true, true, true], [5, 1, 3], false) == Some(2)
    ensures !EarliestReady([true, true, true], [5, 1, 3], 2)
  {
    var ready, ttd := [true, true, true], [5, 1, 3];
    assert LastUndercut(ready, ttd, 3) == 2;
    assert ready[1] && ttd[1] < ttd[2];
  }

  // The dispatcher ------------------------------------------------------------------

  class Scheduler {
    /** Number of assigned tasks, the position of it_dyn_sched in their map, and the static schedule with its index. */
    const n: nat
    const staticSchedule: seq<nat>
    var itDynSched: nat
    var itStaticSched: nat
    var past: Option<nat>
    var nSchedulings: nat
    var nContextChanges: nat
    /** The tasks dispatched so far. */
    ghost var picks: seq<nat>

    ghost predicate Valid()
      reads this
    {
      && 0 < n && itDynSched <= n && itStaticSched < |staticSchedule|
      && past == (if picks == [] then None else Some(picks[|picks| - 1]))
      && nSchedulings == |picks| && nContextChanges == Changes(picks)
    }

    constructor (n: nat, staticSchedule: seq<nat>)
      requires 0 < n && 0 < |staticSchedule|
      ensures Valid() && this.n == n && this.staticSchedule == staticSchedule
      ensures itDynSched == 0 && itStaticSched == 0 && picks == []
    {
      this.n, this.staticSchedule := n, staticSchedule;
      itDynSched, itStaticSched, past, nSchedulings, nContextChanges := 0, 0, None, 0, 0;
      picks := [];
    }

    /** Static schedule: its entries in turn, cyclically. */
    method DispatchStatic() returns (p: nat)
      requires Valid()
      modifies this`itStaticSched
      ensures Valid() && p == staticSchedule[old(itStaticSched)]
      ensures itStaticSched == Next(old(itStaticSched), |staticSchedule|)
    {
      p := staticSchedule[itStaticSched];
      itStaticSched := itStaticSched + 1;
      if itStaticSched == |staticSchedule| {
        itStaticSched := 0;
      }
    }

    /** it_dyn_sched moves on circularly. */
    method AdvanceIterator()
      requires Valid() && itDynSched < n
      modifies this`itDynSched
      ensures Valid() && itDynSched == Next(old(itDynSched), n)
    {
      itDynSched := itDynSched + 1;
      if itDynSched == n {
        itDynSched := 0;
      }
    }

    /**
     Cyclic executive: one round from the saved position to the nearest ready task; the position then
     moves past it.
     */
    method DispatchCycleExecutive(ready: seq<bool>) returns (p: nat)
      requires Valid() && itDynSched < n && |ready| == n
      modifies this`itDynSched
      ensures Valid() && p < n && itDynSched == Next(p, n)
      ensures (exists j :: 0 <= j < n && ready[j]) ==> NearestReady(ready, old(itDynSched), p)
      ensures (forall j :: 0 <= j < n ==> !ready[j]) ==> itDynSched == old(itDynSched)
    {
      ghost var from := itDynSched;
      var i := 0;
      p := itDynSched;
      while i < n
        invariant Valid() && i <= n && itDynSched < n && p < n
        invariant i == 0 ==> itDynSched == from
        invariant 0 < i ==> itDynSched == Next(p, n) && Distance(from, p, n) == i - 1
        invariant forall j :: 0 <= j < n && Distance(from, j, n) < i ==> !ready[j]
      {
        p := itDynSched;
        AdvanceIterator();
        if ready[p] {
          return;
        }
        i := i + 1;
      }
      forall j | 0 <= j < n
        ensures !ready[j]
      {
        assert Distance(from, j, n) < n;
      }
    }

    /** Static priorities: the first ready task of the priority table, or the most urgent one when none is ready. */
    method DispatchStaticPriorities(ready: seq<bool>) returns (p: nat)
      requires Valid() && |ready| == n
      ensures p < n
      ensures ready[p] ==> forall j :: 0 <= j < p ==> !ready[j]
      ensures !ready[p] ==> p == 0 && forall j :: 0 <= j < n ==> !ready[j]
    {
      p := 0;
      var i := 0;
      while i != n
        invariant i <= n && p == 0
        invariant forall j :: 0 <= j < i ==> !ready[j]
        decreases n - i
      {
        if ready[i] {
          p := i;
          return;
        }
        i := i + 1;
      }
    }

    /**
     The EDF branch as coded; flag is the value the uninitialised
     first_ready_task_found happens to hold. Both searches run the iterator from
     the first task to the end of the map.
     */
    method DispatchEdf(ready: seq<bool>, ttd: seq<nat>, flag: bool) returns (p: Option<nat>)
      requires Valid() && |ready| == |ttd| == n
      modifies this`itDynSched
      ensures Valid() && itDynSched == n
      ensures p == EdfAsCoded(ready, ttd, flag)
      ensures flag ==> p == None
      ensures !flag && (forall j :: 0 <= j < n ==> !ready[j]) ==> p == Some(0)
    {
      var found, shortest := flag, 0;
      p := None;
      itDynSched := 0;
      while itDynSched != n
        invariant Valid()
        invariant flag ==> found && p == None && shortest == 0
        invariant !flag ==> (found <==> FirstReadyIndex(ready, 0) < itDynSched)
        invariant !flag && found ==>
                    && shortest == ttd[FirstReadyIndex(ready, 0)]
                    && p == Some(LastUndercut(ready, ttd, itDynSched))
        decreases n - itDynSched
      {
        if ready[itDynSched] {
          if found {
            if shortest > ttd[itDynSched] {
              p := Some(itDynSched);
            }
          } else {
            shortest := ttd[itDynSched];
            found := true;
            p := Some(itDynSched);
          }
        }
        itDynSched := itDynSched + 1;
      }
      if !found {
        // the second search never advances its current task past the first one
        itDynSched := 0;
        var current: nat := itDynSched;
        shortest := ttd[current];
        p := Some(current);
        itDynSched := itDynSched + 1;
        while itDynSched != n
          invariant Valid() && 1 <= itDynSched && p == Some(0)
          decreases n - itDynSched
        {
          if shortest > ttd[current] {
            p := Some(current);
          }
          itDynSched := itDynSched + 1;
        }
      }
    }

    /** Bookkeeping of the scheduler process around each dispatch. */
    method Account(p: nat)
      requires Valid()
      modifies this`past, this`nSchedulings, this`nContextChanges, this`picks
      ensures Valid() && picks == old(picks) + [p]
    {
      if past != None {
        if Some(p) != past {
          nContextChanges := nContextChanges + 1;
        }
      }
      past := Some(p);
      nSchedulings := nSchedulings + 1;
      assert (picks + [p])[..|picks|] == picks;
      picks := picks + [p];
    }
  }

  /** Dispatches that differ from the one before. */
  function Changes(picks: seq<nat>): nat {
    if |picks| < 2 then 0
    else
      var last := |picks| - 1;
      Changes(picks[..last]) + (if picks[last] != picks[last - 1] then 1 else 0)
  }

  /** The dispatch at position k follows one of another task. */
  predicate ChangesAt(picks: seq<nat>, k: nat) {
    0 < k < |picks| && picks[k] != picks[k - 1]
  }

  function ChangeIndices(picks: seq<nat>): set<nat> {
    set k: nat | k < |picks| && ChangesAt(picks, k)
  }

  /** The statistic n_context_changes counts the positions at which a series of dispatches changes task. */
  lemma {:induction false} ChangesCounted(picks: seq<nat>)
    ensures Changes(picks) == |ChangeIndices(picks)|
  {
    if |picks| < 2 {
      assert ChangeIndices(picks) == {};
    } else {
      var last := |picks| - 1;
      var front := picks[..last];
      ChangesCounted(front);
      assert forall k: nat :: k < last ==> ChangesAt(front, k) == ChangesAt(picks, k);
      if ChangesAt(picks, last) {
        assert ChangeIndices(picks) == ChangeIndices(front) + {last};
      } else {
        assert ChangeIndices(picks) == ChangeIndices(front);
      }
    }
  }

  // Bounded waiting of the cyclic executive ---------------------------------------------

  /**
   A series of dispatches: call m finds the tasks rounds[m] ready and returns picks[m], starting from
   position `from`.
   */
  ghost predicate CycleRun(n: nat, from: nat, rounds: seq<seq<bool>>, picks: seq<nat>)
    requires from < n
    decreases |picks|
  {
    && |rounds| == |picks|
    && (picks != [] ==>
          && |rounds[0]| == n && picks[0] < n
          && ((exists j :: 0 <= j < n && rounds[0][j]) ==> NearestReady(rounds[0], from, picks[0]))
          && CycleRun(n, Next(picks[0], n), rounds[1..], picks[1..]))
  }

  /** A task that stays ready is dispatched within Distance(from, x) + 1 <= n calls. */
  lemma {:induction false} BoundedWaiting(n: nat, from: nat, rounds: seq<seq<bool>>, picks: seq<nat>, x: nat)
    requires from < n && x < n && CycleRun(n, from, rounds, picks)
    requires Distance(from, x, n) < |picks|
    requires forall m :: 0 <= m < |rounds| ==> |rounds[m]| == n && rounds[m][x]
    ensures exists m :: 0 <= m <= Distance(from, x, n) && picks[m] == x
    decreases |picks|
  {
    if picks[0] != x {
      assert NearestReady(rounds[0], from, picks[0]);
      var next := Next(picks[0], n);
      assert Distance(next, x, n) < Distance(from, x, n);
      BoundedWaiting(n, next, rounds[1..], picks[1..], x);
      var m :| 0 <= m <= Distance(next, x, n) && picks[1..][m] == x;
      assert picks[m + 1] == x;
    }
  }
}
