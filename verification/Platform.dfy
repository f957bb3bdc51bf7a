/**
 One scheduler and its tasks over delta cycles and time: who holds the grant,
 and how the occupation times and the scheduling time add up.
 */
module Platform {
  import opened TaskFsm

  /** The scheduler is computing a decision of the given length, or has granted the processor and waits for an event. */
  datatype Phase = Scheduling(since: nat, length: nat) | Granted(task: nat)

  datatype Node = Node(m: Machine, account: Account)

  /** schedTime is sched_comp_time. */
  datatype Config = Config(now: nat, nodes: seq<Node>, phase: Phase, schedTime: nat)

  /** What the scheduler does in a step; in every delta cycle the task-side signals change arbitrarily. */
  datatype Move = Keep | Preempt(length: nat) | Grant(task: nat) | Advance(time: nat)

  /** A delta cycle of one task: its state process, and its accounting process if the state changed. */
  function Cycle(n: Node, d: Delta, now: nat): Node {
    match React(n.m, d)
    case None => n
    case Some(m) => Node(m, if m.st == n.m.st then n.account else Track(n.account, m.st, now))
  }

  /** active_signal of task i after the one write, if any, the scheduler performs. */
  function Driven(c: Config, mv: Move, i: nat): bool
    requires i < |c.nodes|
  {
    match mv
    case Preempt(_) => c.nodes[i].m.s.active && c.phase != Granted(i)
    case Grant(p) => c.nodes[i].m.s.active || i == p
    case _ => c.nodes[i].m.s.active
  }

  predicate Enabled(c: Config, mv: Move) {
    match mv
    case Keep => true
    case Preempt(_) => c.phase.Granted?
    case Grant(p) => c.phase.Scheduling? && c.now == c.phase.since + c.phase.length && p < |c.nodes|
    case Advance(dt) => c.phase.Scheduling? ==> c.now + dt <= c.phase.since + c.phase.length
  }

  function NextPhase(c: Config, mv: Move): Phase {
    match mv
    case Preempt(length) => Scheduling(c.now, length)
    case Grant(p) => Granted(p)
    case _ => c.phase
  }

  ghost predicate Next(c: Config, mv: Move, ds: seq<Delta>, c': Config) {
    && Enabled(c, mv)
    && if mv.Advance? then c' == c.(now := c.now + mv.time)
       else
         && |ds| == |c.nodes| == |c'.nodes| && c'.now == c.now && c'.phase == NextPhase(c, mv)
         && c'.schedTime == c.schedTime + (if mv.Grant? && c.phase.Scheduling? then c.phase.length else 0)
         && forall i :: 0 <= i < |ds| ==>
              ds[i].s.active == Driven(c, mv, i) && c'.nodes[i] == Cycle(c.nodes[i], ds[i], c.now)
  }

  ghost predicate Init(c: Config) {
    && c.now == 0 && c.schedTime == 0 && c.phase.Scheduling? && c.phase.since == 0
    && forall i :: 0 <= i < |c.nodes| ==> c.nodes[i] == Node(Machine(Ready, QUIET), Account(0, 0, false))
  }

  /** A step of a run: the move and the signal changes of every task. */
  datatype Action = Action(mv: Move, ds: seq<Delta>)

  ghost predicate IsRun(cs: seq<Config>, acts: seq<Action>) {
    && |cs| == |acts| + 1 && Init(cs[0])
    && forall k :: 0 <= k < |acts| ==> Next(cs[k], acts[k].mv, acts[k].ds, cs[k + 1])
  }

  /** No grant is withdrawn in the delta cycle in which an active wait ends. */
  ghost predicate Separate(c: Config, a: Action) {
    !a.mv.Advance? ==>
      forall i :: 0 <= i < |c.nodes| && i < |a.ds| ==> !GrantAndWaitFall(c.nodes[i].m, a.ds[i].s)
  }

  ghost predicate AllSeparate(cs: seq<Config>, acts: seq<Action>)
    requires |acts| < |cs|
  {
    forall k :: 0 <= k < |acts| ==> Separate(cs[k], acts[k])
  }

  lemma RunFront(cs: seq<Config>, acts: seq<Action>)
    requires IsRun(cs, acts) && 0 < |acts|
    ensures var k := |acts| - 1;
            && IsRun(cs[..k + 1], acts[..k]) && Next(cs[k], acts[k].mv, acts[k].ds, cs[k + 1])
            && (AllSeparate(cs, acts) ==> AllSeparate(cs[..k + 1], acts[..k]) && Separate(cs[k], acts[k]))
  {
    var k := |acts| - 1;
    assert Next(cs[k], acts[k].mv, acts[k].ds, cs[k + 1]);
    assert forall j :: 0 <= j < k ==> acts[..k][j] == acts[j] && cs[..k + 1][j] == cs[j];
  }

  // Mutual exclusion ---------------------------------------------------------------

  ghost predicate Exclusive(c: Config) {
    forall i :: 0 <= i < |c.nodes| ==> Coherent(c.nodes[i].m) && (c.nodes[i].m.s.active <==> c.phase == Granted(i))
  }

  /** In every reachable configuration exactly the granted task, if any, has its active signal high. */
  lemma {:induction false} MutualExclusion(cs: seq<Config>, acts: seq<Action>)
    requires IsRun(cs, acts)
    ensures Exclusive(cs[|acts|])
    decreases |acts|
  {
    if acts == [] {
    } else {
      var k := |acts| - 1;
      RunFront(cs, acts);
      MutualExclusion(cs[..k + 1], acts[..k]);
      StepExclusive(cs[k], acts[k], cs[k + 1]);
    }
  }

  lemma StepExclusive(c: Config, a: Action, c': Config)
    requires Exclusive(c) && Next(c, a.mv, a.ds, c')
    ensures Exclusive(c')
  {
    if !a.mv.Advance? {
      forall i | 0 <= i < |c'.nodes|
        ensures Coherent(c'.nodes[i].m) && (c'.nodes[i].m.s.active <==> c'.phase == Granted(i))
      {
        ReactCoherent(c.nodes[i].m, a.ds[i]);
      }
    }
  }

  // Accounting ----------------------------------------------------------------------

  /** Time accounted to the first n tasks, open intervals included. */
  function SumHeld(c: Config, n: nat): nat
    requires n <= |c.nodes|
  {
    if n == 0 then 0 else SumHeld(c, n - 1) + Held(c.nodes[n - 1].account, c.now)
  }

  /** Completed occupation intervals of the first n tasks. */
  function SumOccupation(c: Config, n: nat): nat
    requires n <= |c.nodes|
  {
    if n == 0 then 0 else SumOccupation(c, n - 1) + c.nodes[n - 1].account.occupation
  }

  function SchedHeld(c: Config): nat {
    c.schedTime + (if c.phase.Scheduling? && c.phase.since <= c.now then c.now - c.phase.since else 0)
  }

  /** Time accounted to the tasks and the scheduler. */
  function Spent(c: Config): nat {
    SumHeld(c, |c.nodes|) + SchedHeld(c)
  }

  ghost predicate Accounted(c: Config) {
    && Exclusive(c)
    && (forall i :: 0 <= i < |c.nodes| ==>
          var n := c.nodes[i];
          !Stale(n.m) && (n.account.executing <==> n.m.st.Executing?) && n.account.start <= c.now)
    && (c.phase.Scheduling? ==> c.phase.since <= c.now <= c.phase.since + c.phase.length)
  }

  /** The granted task executes. */
  predicate GrantUsed(c: Config) {
    c.phase.Granted? && c.phase.task < |c.nodes| && c.nodes[c.phase.task].m.st.Executing?
  }

  function IdleStep(c: Config, mv: Move): nat {
    if mv.Advance? && c.phase.Granted? && !GrantUsed(c) then mv.time else 0
  }

  /** Time that passed while the scheduler computed nothing and the granted task did not execute. */
  function IdleTime(cs: seq<Config>, acts: seq<Action>): nat
    requires |acts| < |cs|
  {
    if acts == [] then 0
    else
      var k := |acts| - 1;
      IdleTime(cs[..k + 1], acts[..k]) + IdleStep(cs[k], acts[k].mv)
  }

  /** A delta cycle moves time from an open interval to the account, and changes no sum. */
  lemma {:induction false} CycleKeepsSum(c: Config, c': Config, n: nat)
    requires n <= |c.nodes| == |c'.nodes| && c.now == c'.now
    requires forall i :: 0 <= i < n ==> Held(c'.nodes[i].account, c.now) == Held(c.nodes[i].account, c.now)
    ensures SumHeld(c', n) == SumHeld(c, n)
  {
    if n == 0 {
    } else {
      CycleKeepsSum(c, c', n - 1);
    }
  }

  /** As time passes, the granted task is charged if it executes, and no other. */
  lemma {:induction false} AdvanceSum(c: Config, c': Config, n: nat)
    requires Accounted(c) && n <= |c.nodes| && c'.nodes == c.nodes && c.now <= c'.now
    ensures SumHeld(c', n) == SumHeld(c, n) + (if GrantUsed(c) && c.phase.task < n then c'.now - c.now else 0)
  {
    if n == 0 {
    } else {
      AdvanceSum(c, c', n - 1);
      assert c.nodes[n - 1].account.executing ==> c.phase == Granted(n - 1);
    }
  }

  lemma {:induction false} CycleAccounted(n: Node, d: Delta, now: nat)
    requires Coherent(n.m) && !Stale(n.m) && !GrantAndWaitFall(n.m, d.s)
    requires (n.account.executing <==> n.m.st.Executing?) && n.account.start <= now
    ensures var n' := Cycle(n, d, now);
            && !Stale(n'.m) && (n'.account.executing <==> n'.m.st.Executing?) && n'.account.start <= now
            && Held(n'.account, now) == Held(n.account, now)
  {
    StaleExactly(n.m, d);
  }

  lemma {:induction false} StepAccounted(c: Config, a: Action, c': Config)
    requires Accounted(c) && Next(c, a.mv, a.ds, c') && Separate(c, a)
    ensures Accounted(c')
    ensures Spent(c') + IdleStep(c, a.mv) == Spent(c) + c'.now - c.now
  {
    StepExclusive(c, a, c');
    if a.mv.Advance? {
      AdvanceSum(c, c', |c.nodes|);
    } else {
      forall i | 0 <= i < |c.nodes|
        ensures var n := c'.nodes[i];
                && !Stale(n.m) && (n.account.executing <==> n.m.st.Executing?) && n.account.start <= c.now
                && Held(n.account, c.now) == Held(c.nodes[i].account, c.now)
      {
        CycleAccounted(c.nodes[i], a.ds[i], c.now);
      }
      CycleKeepsSum(c, c', |c.nodes|);
    }
  }

  lemma {:induction false} InitSums(c: Config, n: nat)
    requires Init(c) && n <= |c.nodes|
    ensures SumHeld(c, n) == 0
  {
    if n == 0 {
    } else {
      InitSums(c, n - 1);
    }
  }

  lemma {:induction false} RunAccounted(cs: seq<Config>, acts: seq<Action>)
    requires IsRun(cs, acts) && AllSeparate(cs, acts)
    ensures Accounted(cs[|acts|])
    decreases |acts|
  {
    if acts == [] {
    } else {
      var k := |acts| - 1;
      RunFront(cs, acts);
      RunAccounted(cs[..k + 1], acts[..k]);
      StepAccounted(cs[k], acts[k], cs[k + 1]);
    }
  }

  /** Occupation times, scheduling time and idle time add up to the elapsed time. */
  lemma {:induction false} AccountingExact(cs: seq<Config>, acts: seq<Action>)
    requires IsRun(cs, acts)
    requires AllSeparate(cs, acts)
    ensures Spent(cs[|acts|]) + IdleTime(cs, acts) == cs[|acts|].now
    decreases |acts|
  {
    if acts == [] {
      InitSums(cs[0], |cs[0].nodes|);
    } else {
      var k := |acts| - 1;
      RunFront(cs, acts);
      AccountingExact(cs[..k + 1], acts[..k]);
      LastStepSpent(cs, acts, k);
    }
  }

  lemma {:induction false} LastStepSpent(cs: seq<Config>, acts: seq<Action>, k: nat)
    requires IsRun(cs, acts) && AllSeparate(cs, acts) && k + 1 == |acts|
    ensures Spent(cs[k + 1]) + IdleStep(cs[k], acts[k].mv) == Spent(cs[k]) + cs[k + 1].now - cs[k].now
  {
    RunFront(cs, acts);
    RunAccounted(cs[..k + 1], acts[..k]);
    StepAccounted(cs[k], acts[k], cs[k + 1]);
  }

  /** Lengths of the decisions begun: the one under way at the start and one for each preemption. */
  function DecisionTime(first: Config, acts: seq<Action>): nat {
    if acts == [] then (if first.phase.Scheduling? then first.phase.length else 0)
    else
      var k := |acts| - 1;
      DecisionTime(first, acts[..k]) + (if acts[k].mv.Preempt? then acts[k].mv.length else 0)
  }

  /** The scheduling time is that of the decisions granted: all begun but the one under way, if any. */
  lemma {:induction false} SchedulingTimeExact(cs: seq<Config>, acts: seq<Action>)
    requires IsRun(cs, acts)
    ensures var c := cs[|acts|];
            c.schedTime + (if c.phase.Scheduling? then c.phase.length else 0) == DecisionTime(cs[0], acts)
    decreases |acts|
  {
    if acts == [] {
    } else {
      var k := |acts| - 1;
      RunFront(cs, acts);
      SchedulingTimeExact(cs[..k + 1], acts[..k]);
      SchedulingStep(cs[k], acts[k], cs[k + 1]);
    }
  }

  lemma {:induction false} SchedulingStep(c: Config, a: Action, c': Config)
    requires Next(c, a.mv, a.ds, c')
    ensures c'.schedTime + (if c'.phase.Scheduling? then c'.phase.length else 0) ==
            c.schedTime + (if c.phase.Scheduling? then c.phase.length else 0)
            + (if a.mv.Preempt? then a.mv.length else 0)
  {
  }

  /** The interval under way: the decision being computed, or the granted task's execution since it last started. */
  function OpenTime(c: Config): nat {
    match c.phase
    case Scheduling(since, _) => if since <= c.now then c.now - since else 0
    case Granted(p) =>
      if GrantUsed(c) && c.nodes[p].account.start <= c.now then c.now - c.nodes[p].account.start else 0
  }

  /** Only the granted task has an interval open. */
  lemma {:induction false} OpenInterval(c: Config, n: nat)
    requires Accounted(c) && n <= |c.nodes|
    ensures SumHeld(c, n) ==
            SumOccupation(c, n) + (if c.phase.Granted? && c.phase.task < n then OpenTime(c) else 0)
  {
    if n == 0 {
    } else {
      OpenInterval(c, n - 1);
      assert c.nodes[n - 1].account.executing ==> c.phase == Granted(n - 1);
    }
  }

  /** get_platform_utilization, at any time after 0. */
  function PlatformUtilization(c: Config): real
    requires 0 < c.now
  {
    SumOccupation(c, |c.nodes|) as real / c.now as real + c.schedTime as real / c.now as real
  }

  lemma {:induction false} CountedTime(cs: seq<Config>, acts: seq<Action>)
    requires IsRun(cs, acts) && AllSeparate(cs, acts)
    ensures var c := cs[|acts|];
            SumOccupation(c, |c.nodes|) + c.schedTime + IdleTime(cs, acts) + OpenTime(c) == c.now
  {
    var c := cs[|acts|];
    AccountingExact(cs, acts);
    RunAccounted(cs, acts);
    OpenInterval(c, |c.nodes|);
  }

  /**
   The reported utilization is the share of the elapsed time that was not idle, the
   interval under way not counted.
   */
  lemma {:induction false} PlatformUtilizationExact(cs: seq<Config>, acts: seq<Action>)
    requires IsRun(cs, acts) && 0 < cs[|acts|].now
    requires AllSeparate(cs, acts)
    ensures var c := cs[|acts|];
            && IdleTime(cs, acts) + OpenTime(c) <= c.now
            && PlatformUtilization(c) == (c.now - IdleTime(cs, acts) - OpenTime(c)) as real / c.now as real
  {
    var c := cs[|acts|];
    CountedTime(cs, acts);
    UtilizationOf(c, c.now - IdleTime(cs, acts) - OpenTime(c));
  }

  lemma UtilizationOf(c: Config, counted: nat)
    requires 0 < c.now && SumOccupation(c, |c.nodes|) + c.schedTime == counted
    ensures PlatformUtilization(c) == counted as real / c.now as real
  {
    Share(SumOccupation(c, |c.nodes|), c.schedTime, c.now);
  }

  lemma Share(a: nat, b: nat, t: nat)
    requires 0 < t
    ensures a as real / t as real + b as real / t as real == (a + b) as real / t as real
  {
  }

  lemma {:induction false} PlatformUtilizationBound(cs: seq<Config>, acts: seq<Action>)
    requires IsRun(cs, acts) && 0 < cs[|acts|].now
    requires AllSeparate(cs, acts)
    ensures 0.0 <= PlatformUtilization(cs[|acts|]) <= 1.0
  {
    var c := cs[|acts|];
    PlatformUtilizationExact(cs, acts);
    Fraction((c.now - IdleTime(cs, acts) - OpenTime(c)) as real, c.now as real);
  }

  lemma Fraction(a: real, t: real)
    requires 0.0 <= a <= t && 0.0 < t
    ensures 0.0 <= a / t <= 1.0
  {
  }

  // Without the separation ------------------------------------------------------------

  const GRANTING := Signals(true, true, false, false)
  const ACTIVE_WAIT := Signals(true, false, true, false)

  function NodeAt(st: State, s: Signals, executing: bool): Node {
    Node(Machine(st, s), Account(0, 0, executing))
  }

  /** Configurations of a two-task run in which task 0 loses its grant just as its active wait ends. */
  function ExampleConfig(k: nat): Config {
    var idleNode := NodeAt(Ready, QUIET, false);
    if k == 0 then Config(0, [idleNode, idleNode], Scheduling(0, 0), 0)
    else if k == 1 then Config(0, [NodeAt(Executing, GRANTING, true), idleNode], Granted(0), 0)
    else if k == 2 then Config(0, [NodeAt(WaitPeriod, ACTIVE_WAIT, false), idleNode], Granted(0), 0)
    else if k == 3 then Config(0, [NodeAt(Executing, QUIET, true), idleNode], Scheduling(0, 0), 0)
    else Config(if k == 4 then 0 else 1,
                [NodeAt(Executing, QUIET, true), NodeAt(Executing, GRANTING, true)], Granted(1), 0)
  }

  function ExampleAction(k: nat): Action {
    var idle := Delta(QUIET, false);
    if k == 0 then Action(Grant(0), [Delta(GRANTING, false), idle])
    else if k == 1 then Action(Keep, [Delta(ACTIVE_WAIT, false), idle])
    else if k == 2 then Action(Preempt(0), [idle, idle])
    else if k == 3 then Action(Grant(1), [idle, Delta(GRANTING, false)])
    else Action(Advance(1), [])
  }

  lemma ExampleEdges()
    ensures Triggered(Ready, QUIET, GRANTING)
    ensures Triggered(Executing, GRANTING, ACTIVE_WAIT)
    ensures Triggered(WaitPeriod, ACTIVE_WAIT, QUIET)
    ensures forall st :: !Triggered(st, QUIET, QUIET)
  {
    assert ActiveUp in Sensitivity(Ready) && Occurs(ActiveUp, QUIET, GRANTING);
    assert PeriodUp in Sensitivity(Executing) && Occurs(PeriodUp, GRANTING, ACTIVE_WAIT);
    assert PeriodDown in Sensitivity(WaitPeriod) && Occurs(PeriodDown, ACTIVE_WAIT, QUIET);
  }

  lemma ExampleNext(k: nat)
    requires k < 5
    ensures Next(ExampleConfig(k), ExampleAction(k).mv, ExampleAction(k).ds, ExampleConfig(k + 1))
  {
    ExampleEdges();
  }

  /** One joint fall and two tasks are charged for the same tick. */
  lemma JointFallOvercharges(cs: seq<Config>, acts: seq<Action>)
    requires |acts| == 5 && |cs| == 6
    requires forall k :: 0 <= k < 6 ==> cs[k] == ExampleConfig(k)
    requires forall k :: 0 <= k < 5 ==> acts[k] == ExampleAction(k)
    ensures IsRun(cs, acts) && |cs[5].nodes| == 2 && SumHeld(cs[5], 2) == 2 && cs[5].now == 1
    ensures !Separate(cs[2], acts[2])
  {
    forall k | 0 <= k < 5
      ensures Next(cs[k], acts[k].mv, acts[k].ds, cs[k + 1])
    {
      ExampleNext(k);
    }
    assert GrantAndWaitFall(cs[2].nodes[0].m, acts[2].ds[0].s);
    var c := cs[5];
    assert SumHeld(c, 0) == 0 && SumHeld(c, 1) == 1;
  }
}
