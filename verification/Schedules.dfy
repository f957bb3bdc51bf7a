/**
 Execution logs of one processing element. Slot t says which task held the
 processor during [t, t + 1). Releases are counted cumulatively: by time t a
 task has released a job at every multiple of its period up to t.
 */
module Schedules {
  import opened TaskModel

  datatype Slot = Idle | Run(task: nat)

  type Log = seq<Slot>

  /** Processor time task i received during [0, t). */
  function Work(log: Log, i: nat, t: nat): (w: nat)
    requires t <= |log|
    ensures w <= t
  {
    if t == 0 then 0 else Work(log, i, t - 1) + (if log[t - 1] == Run(i) then 1 else 0)
  }

  /** Processor time the first n tasks received during [0, t). */
  function SumWork(log: Log, n: nat, t: nat): nat
    requires t <= |log|
  {
    if n == 0 then 0 else SumWork(log, n - 1, t) + Work(log, n - 1, t)
  }

  /** Some released job of task i is unfinished at time t. */
  predicate Pending(ts: seq<Task>, log: Log, i: nat, t: nat)
    requires ValidSet(ts) && t <= |log|
  {
    i < |ts| && Work(log, i, t) < Released(ts[i], t)
  }

  /** Only tasks with released, unfinished work hold the processor. */
  ghost predicate RunsPending(ts: seq<Task>, log: Log)
    requires ValidSet(ts)
  {
    forall t :: 0 <= t < |log| && log[t].Run? ==> Pending(ts, log, log[t].task, t)
  }

  /** Preemptive static priorities: the running task is the pending one of least index, if any. */
  ghost predicate PriorityLog(ts: seq<Task>, log: Log)
    requires ValidSet(ts)
  {
    && RunsPending(ts, log)
    && forall t, j :: 0 <= t < |log| && Pending(ts, log, j, t) ==> log[t].Run? && log[t].task <= j
  }

  /** With deadlines equal to periods, the absolute deadline of the oldest job unfinished after w ticks of service. */
  function DueAfter(k: Task, w: nat): nat
    requires ValidTask(k)
  {
    if w < k.wcet then k.period else k.period + DueAfter(k, w - k.wcet)
  }

  function Due(ts: seq<Task>, log: Log, i: nat, t: nat): nat
    requires ValidSet(ts) && i < |ts| && t <= |log|
  {
    DueAfter(ts[i], Work(log, i, t))
  }

  /** Earliest deadline first: the running task is a pending one whose due time is least. */
  ghost predicate EdfLog(ts: seq<Task>, log: Log)
    requires ValidSet(ts)
  {
    && RunsPending(ts, log)
    && forall t, j :: 0 <= t < |log| && Pending(ts, log, j, t) ==>
         log[t].Run? && Due(ts, log, log[t].task, t) <= Due(ts, log, j, t)
  }

  /** Absolute deadline of job j of a task first released at time 0. */
  function JobDeadline(k: Task, j: nat): nat {
    j * k.period + k.deadline
  }

  /** Job j of task i had received all its work by its deadline. */
  predicate JobMet(ts: seq<Task>, log: Log, i: nat, j: nat)
    requires i < |ts| && JobDeadline(ts[i], j) <= |log|
  {
    (j + 1) * ts[i].wcet <= Work(log, i, JobDeadline(ts[i], j))
  }

  /** Every job due by the end of the log received all its work by its deadline. */
  ghost predicate MeetsDeadlines(ts: seq<Task>, log: Log) {
    forall i: nat, j: nat :: i < |ts| && JobDeadline(ts[i], j) <= |log| ==> JobMet(ts, log, i, j)
  }

  lemma {:induction false} WorkMono(log: Log, i: nat, s: nat, t: nat)
    requires s <= t <= |log|
    ensures Work(log, i, s) <= Work(log, i, t) <= Work(log, i, s) + (t - s)
  {
    if s == t {
    } else {
      WorkMono(log, i, s, t - 1);
    }
  }

  lemma {:induction false} WorkPrefix(log: Log, log': Log, i: nat, t: nat)
    requires t <= |log| && log <= log'
    ensures Work(log, i, t) == Work(log', i, t)
  {
    if t == 0 {
    } else {
      WorkPrefix(log, log', i, t - 1);
      assert log[t - 1] == log'[t - 1];
    }
  }

  /** Work counted between two instants where task i never runs is zero. */
  lemma {:induction false} WorkFlat(log: Log, i: nat, s: nat, t: nat)
    requires s <= t <= |log|
    requires forall u :: s <= u < t ==> log[u] != Run(i)
    ensures Work(log, i, s) == Work(log, i, t)
  {
    if s == t {
    } else {
      WorkFlat(log, i, s, t - 1);
    }
  }

  lemma {:induction false} SumWorkStep(log: Log, n: nat, t: nat)
    requires t < |log|
    ensures SumWork(log, n, t + 1) ==
            SumWork(log, n, t) + (if log[t].Run? && log[t].task < n then 1 else 0)
  {
    if n == 0 {
    } else {
      SumWorkStep(log, n - 1, t);
    }
  }

  /** The processor serves one task at a time. */
  lemma {:induction false} SumWorkAtMost(log: Log, n: nat, t: nat)
    requires t <= |log|
    ensures SumWork(log, n, t) <= t
  {
    if t > 0 {
      SumWorkAtMost(log, n, t - 1);
      SumWorkStep(log, n, t - 1);
    } else {
      SumWorkZero(log, n);
    }
  }

  lemma {:induction false} SumWorkZero(log: Log, n: nat)
    ensures SumWork(log, n, 0) == 0
  {
    if n == 0 {
    } else {
      SumWorkZero(log, n - 1);
    }
  }

  /** A window in which every slot runs one of the first n tasks is fully accounted to them. */
  lemma {:induction false} SumWorkBusy(log: Log, n: nat, s: nat, t: nat)
    requires s <= t <= |log|
    requires forall u :: s <= u < t ==> log[u].Run? && log[u].task < n
    ensures SumWork(log, n, t) == SumWork(log, n, s) + (t - s)
  {
    if s == t {
    } else {
      SumWorkBusy(log, n, s, t - 1);
      SumWorkStep(log, n, t - 1);
    }
  }

  /** No task is served beyond what it released strictly before t. */
  lemma {:induction false} WorkWithinReleases(ts: seq<Task>, log: Log, i: nat, t: nat)
    requires ValidSet(ts) && i < |ts| && t <= |log| && RunsPending(ts, log)
    ensures Work(log, i, t) <= Arrived(ts[i], t)
  {
    if t == 0 {
    } else {
      WorkWithinReleases(ts, log, i, t - 1);
      ArrivedMono(ts[i], t - 1, t);
    }
  }

  lemma PendingPrefix(ts: seq<Task>, log: Log, log': Log, i: nat, t: nat)
    requires ValidSet(ts) && t <= |log| && log <= log'
    ensures Pending(ts, log, i, t) == Pending(ts, log', i, t)
    ensures i < |ts| ==> Due(ts, log, i, t) == Due(ts, log', i, t)
  {
    WorkPrefix(log, log', i, t);
  }
}
