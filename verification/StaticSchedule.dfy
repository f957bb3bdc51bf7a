/**
 The static schedule of a scheduler: its checks before the simulation and the
 dispatch sequence it yields. Tasks are numbered by their place in the task map;
 a number outside the map stands for a task of another scheduler.
 */
module StaticSchedule {
  import opened Options
  import opened Arith
  import Dispatching

  /**
   check_and_prepare_static_schedule: the schedule may be given by names, by
   handles or by both; None stands for the error reports. Handles alone are not
   checked against the task map, and names are appended to any handles.
   */
  method CheckAndPrepare(names: seq<nat>, handles: seq<nat>, n: nat) returns (r: Option<seq<nat>>)
    ensures r.Some? <==>
              && names + handles != []
              && (names != [] && handles != [] ==> names == handles)
              && (forall k :: 0 <= k < |names| ==> names[k] < n)
              && (forall t :: 0 <= t < n ==> t in names + handles)
    ensures r.Some? ==> r.value == handles + names && r.value != []
  {
    if |names| == 0 && |handles| == 0 {
      return None;
    }
    if |names| != 0 && |handles| != 0 {
      if |names| != |handles| {
        return None;
      }
      for i := 0 to |handles|
        invariant names[..i] == handles[..i]
      {
        if names[i] != handles[i] {
          return None;
        }
      }
      assert names == names[..|names|] && handles == handles[..|names|];
    }
    var schedule := handles;
    for i := 0 to |names|
      invariant schedule == handles + names[..i]
      invariant forall k :: 0 <= k < i ==> names[k] < n
    {
      if names[i] >= n {
        return None;
      }
      schedule := schedule + [names[i]];
    }
    assert names[..|names|] == names;
    for t := 0 to n
      invariant forall j :: 0 <= j < t ==> j in names + handles
    {
      if t !in schedule {
        assert t !in names + handles;
        return None;
      }
    }
    return Some(schedule);
  }

  /** Index of the static scheduler before its k-th dispatch, counted from 0. */
  function IndexAt(k: nat, length: nat): (i: nat)
    requires 0 < length
    ensures i < length
  {
    if k == 0 then 0 else Dispatching.Next(IndexAt(k - 1, length), length)
  }

  lemma {:induction false} IndexAtIs(k: nat, length: nat)
    requires 0 < length
    ensures IndexAt(k, length) == k % length
  {
    if k == 0 {
    } else {
      IndexAtIs(k - 1, length);
      NextRemainder(k - 1, length);
    }
  }

  lemma NextRemainder(k: nat, length: nat)
    requires 0 < length
    ensures (k + 1) % length == if k % length + 1 == length then 0 else k % length + 1
  {
    var q, r := k / length, k % length;
    AddOne(q, length);
    if r + 1 == length {
      DivUnique(k + 1, length, q + 1);
    } else {
      DivUnique(k + 1, length, q);
    }
  }

  /** The k-th dispatch of a static schedule. */
  function Dispatched(schedule: seq<nat>, k: nat): nat
    requires schedule != []
  {
    schedule[IndexAt(k, |schedule|)]
  }

  /** A schedule given in both forms is stored twice over and still yields the same dispatches. */
  lemma {:induction false} DoubledSame(schedule: seq<nat>, k: nat)
    requires schedule != []
    ensures Dispatched(schedule + schedule, k) == Dispatched(schedule, k)
    ensures IndexAt(k, |schedule + schedule|) == IndexAt(k, |schedule|)
            || IndexAt(k, |schedule + schedule|) == IndexAt(k, |schedule|) + |schedule|
  {
    if k == 0 {
    } else {
      DoubledSame(schedule, k - 1);
    }
  }

  /** Every task of the schedule is dispatched in any |schedule| consecutive dispatches. */
  lemma EveryTaskServed(schedule: seq<nat>, t: nat, from: nat) returns (k: nat)
    requires t in schedule
    ensures from <= k < from + |schedule| && Dispatched(schedule, k) == t
  {
    var i :| 0 <= i < |schedule| && schedule[i] == t;
    k := Reach(from, i, |schedule|);
  }

  /** The index reaches position i within one turn. */
  lemma {:induction false} Reach(from: nat, i: nat, length: nat) returns (k: nat)
    requires i < length
    ensures from <= k < from + length && IndexAt(k, length) == i
    ensures k == from + Dispatching.Distance(IndexAt(from, length), i, length)
    decreases Dispatching.Distance(IndexAt(from, length), i, length)
  {
    if IndexAt(from, length) == i {
      k := from;
    } else {
      k := Reach(from + 1, i, length);
    }
  }
}
