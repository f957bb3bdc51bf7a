/**
 assess_precise_bound of load_analysis.cpp as it is coded, and how far its
 verdict can be trusted. The update adds the interference to the previous guess
 instead of the task's own load, and the iterator over the more urgent units is
 not reset between rounds.
 */
module LoadAnalysis {
  import opened Arith
  import opened TaskModel
  import opened ResponseTime
  import Kernel
  import Schedules
  import Guarantees

  /** An entry of the load unit map; the key is the priority, lower being more urgent. */
  datatype LoadUnit = LoadUnit(priority: nat, load: nat, period: nat, deadline: nat, response: nat)

  datatype Outcome = EmptySet | IterationLimit | Verdict(passed: bool)

  const MAX_ITERATIONS: nat := 1000

  /** Entries in map order: unique priorities, ascending. */
  predicate Ordered(ls: seq<LoadUnit>) {
    && (forall i :: 0 <= i < |ls| ==> 0 < ls[i].period)
    && forall i, j :: 0 <= i < j < |ls| ==> ls[i].priority < ls[j].priority
  }

  function SumLoads(ls: seq<LoadUnit>, n: nat): nat
    requires n <= |ls|
  {
    if n == 0 then 0 else SumLoads(ls, n - 1) + ls[n - 1].load
  }

  function UnitInterference(ls: seq<LoadUnit>, n: nat, r: nat): nat
    requires n <= |ls| && Ordered(ls)
  {
    if n == 0 then 0 else UnitInterference(ls, n - 1, r) + CeilDiv(r, ls[n - 1].period) * ls[n - 1].load
  }

  /** What the loop computes for unit i: its first guess, plus the interference on that guess. */
  function CodedResponse(ls: seq<LoadUnit>, i: nat): nat
    requires i < |ls| && Ordered(ls)
  {
    SumLoads(ls, i + 1) + UnitInterference(ls, i, SumLoads(ls, i + 1))
  }

  predicate Accepts(ls: seq<LoadUnit>, n: nat)
    requires n <= |ls| && Ordered(ls)
  {
    forall i :: 0 <= i < n ==> CodedResponse(ls, i) <= ls[i].deadline
  }

  /** Two entries that differ at most in the stored response. */
  predicate SameInputs(a: LoadUnit, b: LoadUnit) {
    b == a.(response := b.response)
  }

  /** The relative difference exceeds one hundredth; an undefined 0 / 0 compares false. */
  predicate Unsettled(r: nat, next: nat) {
    if next > r then 100 * (next - r) > next else 100 * (r - next) > r
  }

  predicate SameSet(xs: seq<LoadUnit>, ys: seq<LoadUnit>) {
    |xs| == |ys| && forall k :: 0 <= k < |xs| ==> SameInputs(xs[k], ys[k])
  }

  lemma {:induction false} SumsDecided(xs: seq<LoadUnit>, ys: seq<LoadUnit>, n: nat, r: nat)
    requires SameSet(xs, ys) && n <= |xs| && Ordered(xs) && Ordered(ys)
    ensures SumLoads(xs, n) == SumLoads(ys, n) && UnitInterference(xs, n, r) == UnitInterference(ys, n, r)
  {
    if n == 0 {
    } else {
      SumsDecided(xs, ys, n - 1, r);
      assert SameInputs(xs[n - 1], ys[n - 1]);
    }
  }

  /** Storing responses does not disturb the analysis of later units. */
  lemma ResponseDecided(xs: seq<LoadUnit>, ys: seq<LoadUnit>, i: nat)
    requires SameSet(xs, ys) && i < |xs| && Ordered(xs)
    ensures Ordered(ys) && CodedResponse(xs, i) == CodedResponse(ys, i)
  {
    SameOrdered(xs, ys);
    SumsDecided(xs, ys, i + 1, 0);
    SumsDecided(xs, ys, i, SumLoads(xs, i + 1));
  }

  lemma SameOrdered(xs: seq<LoadUnit>, ys: seq<LoadUnit>)
    requires SameSet(xs, ys) && Ordered(xs)
    ensures Ordered(ys)
  {
    forall i | 0 <= i < |ys|
      ensures 0 < ys[i].period && ys[i].priority == xs[i].priority
    {
      assert SameInputs(xs[i], ys[i]);
    }
  }

  /** The first n units hold their computed responses. */
  ghost predicate Stored(xs: seq<LoadUnit>, ys: seq<LoadUnit>, n: nat)
    requires SameSet(xs, ys) && Ordered(xs) && n <= |xs|
  {
    forall k :: 0 <= k < n ==> ys[k].response == CodedResponse(xs, k)
  }

  /**
   The first unit that misses its deadline holds its computed response, as do those
   before it; the rest is as it was.
   */
  ghost predicate StoredUpToFailure(xs: seq<LoadUnit>, ys: seq<LoadUnit>)
    requires SameSet(xs, ys) && Ordered(xs)
  {
    exists k :: FirstFailure(xs, k) && Stored(xs, ys, k + 1) && Untouched(xs, ys, k + 1)
  }

  predicate Untouched(xs: seq<LoadUnit>, ys: seq<LoadUnit>, n: nat)
    requires |xs| == |ys|
  {
    forall k :: n <= k < |xs| ==> ys[k] == xs[k]
  }

  /** Storing one response changes nothing else. */
  lemma StoreOne(xs: seq<LoadUnit>, ys: seq<LoadUnit>, i: nat, response: nat)
    requires SameSet(xs, ys) && i < |xs| && Untouched(xs, ys, i)
    ensures var zs := ys[i := ys[i].(response := response)];
            SameSet(xs, zs) && zs[..i] == ys[..i] && Untouched(xs, zs, i + 1)
  {
  }

  predicate FirstFailure(xs: seq<LoadUnit>, k: int)
    requires Ordered(xs)
  {
    0 <= k < |xs| && Accepts(xs, k) && xs[k].deadline < CodedResponse(xs, k)
  }

  /** The response loop for unit i. */
  method AssessUnit(ls: array<LoadUnit>, i: nat) returns (response: nat, iterations: nat)
    requires i < ls.Length && Ordered(ls[..])
    ensures response == CodedResponse(ls[..], i)
    ensures iterations <= 2
  {
    ghost var first := SumLoads(ls[..], i + 1);
    ghost var added := UnitInterference(ls[..], i, first);
    var next := ls[i].load;
    var hp := 0;
    while ls[hp].priority < ls[i].priority
      invariant hp <= i && next == SumLoads(ls[..], hp) + ls[i].load
      decreases i - hp
    {
      next := next + ls[hp].load;
      hp := hp + 1;
    }
    assert hp == i;

    hp := 0;
    iterations := 0;
    var r := next;
    var again := true;
    while again
      invariant iterations <= 2
      invariant iterations == 0 ==> again && hp == 0 && next == first
      invariant iterations == 1 ==> hp == i && r == first && next == first + added
      invariant iterations == 2 ==> !again && r == next == first + added
      decreases again, 2 - iterations
    {
      r := next;
      var interference := 0;
      ghost var start := hp;
      while ls[hp].priority < ls[i].priority
        invariant start <= hp <= i
        invariant interference == if start == 0 then UnitInterference(ls[..], hp, r) else 0
        invariant start == 0 || start == i
        decreases i - hp
      {
        interference := interference + CeilDiv(r, ls[hp].period) * ls[hp].load;
        hp := hp + 1;
      }
      assert hp == i;
      next := r + interference;
      again := Unsettled(r, next);
      iterations := iterations + 1;
    }
    response := if next > r then next else r;
  }

  /** The analysis over the whole map, storing each response. */
  method AssessPreciseBound(ls: array<LoadUnit>, immediateExit: bool) returns (outcome: Outcome)
    requires Ordered(ls[..])
    modifies ls
    ensures SameSet(old(ls[..]), ls[..])
    ensures outcome == if ls.Length == 0 then EmptySet else Verdict(Accepts(old(ls[..]), ls.Length))
    ensures outcome == Verdict(true) || !immediateExit ==> Stored(old(ls[..]), ls[..], ls.Length)
    ensures outcome == Verdict(false) && immediateExit ==> StoredUpToFailure(old(ls[..]), ls[..])
  {
    if ls.Length < 1 {
      return EmptySet;
    }
    ghost var before := ls[..];
    var passed := true;
    var i := 0;
    while i != ls.Length
      invariant i <= ls.Length && SameSet(before, ls[..]) && Stored(before, ls[..], i)
      invariant passed == Accepts(before, i)
      invariant immediateExit ==> passed
      invariant Untouched(before, ls[..], i)
      decreases ls.Length - i
    {
      SameOrdered(before, ls[..]);
      ResponseDecided(before, ls[..], i);
      var response, iterations := AssessUnit(ls, i);
      if iterations > MAX_ITERATIONS {
        return IterationLimit;
      }
      if response > ls[i].deadline {
        passed := false;
      }
      ghost var now := ls[..];
      ls[i] := ls[i].(response := response);
      StoreOne(before, now, i, response);
      assert ls[..] == now[i := now[i].(response := response)];
      if immediateExit && !passed {
        assert FirstFailure(before, i);
        return Verdict(false);
      }
      i := i + 1;
    }
    outcome := Verdict(passed);
  }

  // Comparison with the equation the analysis sets out to solve ---------------------

  function TaskOf(l: LoadUnit): Task {
    Task(l.load, l.period, l.deadline)
  }

  function TasksOf(ls: seq<LoadUnit>): (ts: seq<Task>)
    ensures |ts| == |ls| && forall i :: 0 <= i < |ls| ==> ts[i] == TaskOf(ls[i])
  {
    seq(|ls|, i requires 0 <= i < |ls| => TaskOf(ls[i]))
  }

  lemma {:induction false} UnitInterferenceIs(ls: seq<LoadUnit>, n: nat, r: nat)
    requires Ordered(ls) && ValidSet(TasksOf(ls)) && n <= |ls|
    ensures UnitInterference(ls, n, r) == Interference(TasksOf(ls), n, r)
  {
    if n == 0 {
    } else {
      UnitInterferenceIs(ls, n - 1, r);
      ArrivedClosed(TasksOf(ls)[n - 1], r);
    }
  }

  /** The interference on the first guess spans at most one period of every more urgent unit. */
  predicate Mild(ls: seq<LoadUnit>, i: nat)
    requires i < |ls| && Ordered(ls)
  {
    forall j :: 0 <= j < i ==> UnitInterference(ls, i, SumLoads(ls, i + 1)) <= ls[j].period
  }

  /** Over a window longer by at most a period, a unit interferes once more at most. */
  lemma MildTerm(k: Task, r: nat, x: nat)
    requires ValidTask(k) && x <= k.period
    ensures Arrived(k, r + x) <= Arrived(k, r) + k.wcet
  {
    ArrivedSubadditive(k, r, x);
    ArrivedMono(k, x, k.period);
    ArrivedClosed(k, k.period);
    CeilDivMultiple(1, k.period);
  }

  lemma {:induction false} MildInterference(ls: seq<LoadUnit>, n: nat, r: nat, x: nat)
    requires Ordered(ls) && ValidSet(TasksOf(ls)) && n <= |ls|
    requires forall j :: 0 <= j < n ==> x <= ls[j].period
    ensures Interference(TasksOf(ls), n, r + x) <= Interference(TasksOf(ls), n, r) + SumLoads(ls, n)
  {
    if n == 0 {
    } else {
      MildInterference(ls, n - 1, r, x);
      MildTerm(TasksOf(ls)[n - 1], r, x);
    }
  }

  /**
   From the first guess to the computed response the interference grows by no more
   than the loads of the more urgent units.
   */
  predicate Contained(ls: seq<LoadUnit>, i: nat)
    requires i < |ls| && Ordered(ls)
  {
    UnitInterference(ls, i, CodedResponse(ls, i)) <= UnitInterference(ls, i, SumLoads(ls, i + 1)) + SumLoads(ls, i)
  }

  /** Exactly then the computed response satisfies the demand of its task, and so bounds the true response. */
  lemma {:induction false} ContainedExactly(ls: seq<LoadUnit>, i: nat)
    requires Ordered(ls) && ValidSet(TasksOf(ls)) && i < |ls|
    ensures Demand(TasksOf(ls), i, CodedResponse(ls, i)) <= CodedResponse(ls, i) <==> Contained(ls, i)
  {
    UnitInterferenceIs(ls, i, CodedResponse(ls, i));
  }

  /** Mild interference is contained. */
  lemma {:induction false} MildIsBound(ls: seq<LoadUnit>, i: nat)
    requires Ordered(ls) && ValidSet(TasksOf(ls)) && i < |ls| && Mild(ls, i)
    ensures Contained(ls, i) && Demand(TasksOf(ls), i, CodedResponse(ls, i)) <= CodedResponse(ls, i)
  {
    var first := SumLoads(ls, i + 1);
    var added := UnitInterference(ls, i, first);
    UnitInterferenceIs(ls, i, first);
    MildInterference(ls, i, first, added);
    ContainedExactly(ls, i);
  }

  /** A set accepted by the coded analysis whose responses are contained never misses a deadline. */
  lemma {:induction false} AcceptedRunSafe(ls: seq<LoadUnit>, cs: seq<Kernel.Config>)
    requires Ordered(ls) && ValidSet(TasksOf(ls)) && Accepts(ls, |ls|)
    requires forall i :: 0 <= i < |ls| ==> Contained(ls, i)
    requires Kernel.IsRun(TasksOf(ls), Kernel.StaticPriorities, cs)
    ensures Guarantees.Safe(TasksOf(ls), Guarantees.Last(cs))
  {
    forall i | 0 <= i < |ls|
      ensures Responsive(TasksOf(ls), i)
    {
      ContainedExactly(ls, i);
    }
    Guarantees.PriorityRunSafe(TasksOf(ls), cs);
  }

  /** So does, in particular, one accepted under mild interference. */
  lemma {:induction false} AcceptedMildRunSafe(ls: seq<LoadUnit>, cs: seq<Kernel.Config>)
    requires Ordered(ls) && ValidSet(TasksOf(ls)) && Accepts(ls, |ls|)
    requires forall i :: 0 <= i < |ls| ==> Mild(ls, i)
    requires Kernel.IsRun(TasksOf(ls), Kernel.StaticPriorities, cs)
    ensures Guarantees.Safe(TasksOf(ls), Guarantees.Last(cs))
  {
    forall i | 0 <= i < |ls|
      ensures Contained(ls, i)
    {
      MildIsBound(ls, i);
    }
    AcceptedRunSafe(ls, cs);
  }

  /**
   Containment reaches further: two units whose interference is not mild and whose
   computed response of 8 is sound.
   */
  lemma {:induction false} ContainedNotMild(ls: seq<LoadUnit>)
    requires ls == [LoadUnit(1, 1, 2, 2, 0), LoadUnit(2, 4, 8, 8, 0)]
    ensures Ordered(ls) && CodedResponse(ls, 1) == 8 && Contained(ls, 1) && !Mild(ls, 1)
  {
    assert SumLoads(ls, 1) == 1;
    assert SumLoads(ls, 2) == 5;
    assert UnitInterference(ls, 0, 5) == 0 && UnitInterference(ls, 0, 8) == 0;
    assert UnitInterference(ls, 1, 5) == 3;
    assert UnitInterference(ls, 1, 8) == 4;
  }

  /** The set of check_load_analysis.cpp with the last load raised to 3, its period 12 and its deadline 11. */
  const OPTIMISTIC: seq<LoadUnit> :=
    [LoadUnit(1, 1, 3, 3, 0), LoadUnit(2, 1, 5, 5, 0), LoadUnit(3, 1, 6, 6, 0), LoadUnit(4, 3, 12, 11, 0)]

  /** Any window satisfying its demand lies above every guess of the climbing iteration. */
  lemma ClimbStep(ts: seq<Task>, i: nat, guess: nat, x: nat)
    requires ValidSet(ts) && i < |ts| && guess <= x && Demand(ts, i, x) <= x
    ensures Demand(ts, i, guess) <= x
  {
    InterferenceMono(ts, i, guess, x);
  }

  lemma Demand4(x: nat)
    ensures ValidSet(TasksOf(OPTIMISTIC))
    ensures Demand(TasksOf(OPTIMISTIC), 3, x) == 3 + CeilDiv(x, 3) + CeilDiv(x, 5) + CeilDiv(x, 6)
  {
    var ts := TasksOf(OPTIMISTIC);
    ArrivedClosed(ts[0], x);
    ArrivedClosed(ts[1], x);
    ArrivedClosed(ts[2], x);
    assert Interference(ts, 1, x) == Interference(ts, 0, x) + Arrived(ts[0], x);
    assert Interference(ts, 2, x) == Interference(ts, 1, x) + Arrived(ts[1], x);
    assert Interference(ts, 3, x) == Interference(ts, 2, x) + Arrived(ts[2], x);
  }

  lemma OptimisticUnresponsive()
    ensures ValidSet(TasksOf(OPTIMISTIC)) && !Responsive(TasksOf(OPTIMISTIC), 3)
  {
    var ts := TasksOf(OPTIMISTIC);
    Demand4(3);
    Demand4(6);
    Demand4(8);
    Demand4(10);
    Demand4(11);
    forall x: nat | x <= 11
      ensures x < Demand(ts, 3, x)
    {
      if Demand(ts, 3, x) <= x {
        Demand4(x);
        ClimbStep(ts, 3, 3, x);
        ClimbStep(ts, 3, 6, x);
        ClimbStep(ts, 3, 8, x);
        ClimbStep(ts, 3, 10, x);
        ClimbStep(ts, 3, 11, x);
      }
    }
  }

  lemma OptimisticAccepted()
    ensures Ordered(OPTIMISTIC) && Accepts(OPTIMISTIC, 4) && CodedResponse(OPTIMISTIC, 3) == 11
  {
    FourUnits(OPTIMISTIC);
  }

  /** The coded responses 1, 3, 5 and 11 of that set. */
  lemma {:induction false} FourUnits(ls: seq<LoadUnit>)
    requires |ls| == 4 && Ordered(ls)
    requires ls[0].load == 1 && ls[1].load == 1 && ls[2].load == 1 && ls[3].load == 3
    requires ls[0].period == 3 && ls[1].period == 5 && ls[2].period == 6
    requires ls[0].deadline == 3 && ls[1].deadline == 5 && ls[2].deadline == 6 && ls[3].deadline == 11
    ensures Accepts(ls, 4) && CodedResponse(ls, 3) == 11
  {
    assert SumLoads(ls, 1) == 1;
    assert SumLoads(ls, 2) == 2;
    assert SumLoads(ls, 3) == 3;
    assert SumLoads(ls, 4) == 6;
    assert UnitInterference(ls, 1, 2) == 1;
    assert UnitInterference(ls, 1, 3) == 1;
    assert UnitInterference(ls, 2, 3) == 2;
    assert UnitInterference(ls, 1, 6) == 2;
    assert UnitInterference(ls, 2, 6) == 4;
    assert UnitInterference(ls, 3, 6) == 5;
  }

  /**
   The verdict is not sufficient: this set is accepted with a response of 11,
   and every run that reaches time 11 has missed a deadline by then.
   */
  lemma AcceptedRunMisses(cs: seq<Kernel.Config>)
    requires ValidSet(TasksOf(OPTIMISTIC))
    requires Kernel.IsRun(TasksOf(OPTIMISTIC), Kernel.StaticPriorities, cs)
    requires 11 <= |Guarantees.Last(cs).log|
    ensures Ordered(OPTIMISTIC) && Accepts(OPTIMISTIC, 4)
    ensures !Schedules.MeetsDeadlines(TasksOf(OPTIMISTIC), Guarantees.Last(cs).log)
  {
    OptimisticAccepted();
    OptimisticUnresponsive();
    if Schedules.MeetsDeadlines(TasksOf(OPTIMISTIC), Guarantees.Last(cs).log) {
      Guarantees.PriorityRunLog(TasksOf(OPTIMISTIC), cs);
      ResponsiveNecessary(TasksOf(OPTIMISTIC), Guarantees.Last(cs).log, 3);
    }
  }

  const PESSIMISTIC: seq<LoadUnit> := [LoadUnit(1, 1, 10, 10, 0), LoadUnit(2, 1, 10, 2, 0)]

  /** Nor is it necessary: this set is rejected although every task has a response within its deadline. */
  lemma RejectedButResponsive()
    ensures Ordered(PESSIMISTIC) && !Accepts(PESSIMISTIC, 2)
    ensures ValidSet(TasksOf(PESSIMISTIC))
    ensures Responsive(TasksOf(PESSIMISTIC), 0) && Responsive(TasksOf(PESSIMISTIC), 1)
  {
    UnitPairRejected(PESSIMISTIC);
    UnitPairResponsive(TasksOf(PESSIMISTIC));
  }

  /** Two units of load 1, the second due after 2, are charged with a response of 3. */
  lemma UnitPairRejected(ls: seq<LoadUnit>)
    requires |ls| == 2 && Ordered(ls) && ls[0].load == ls[1].load == 1 && ls[0].period == 10 && ls[1].deadline == 2
    ensures !Accepts(ls, 2)
  {
    assert SumLoads(ls, 1) == 1;
    assert SumLoads(ls, 2) == 2;
    assert UnitInterference(ls, 0, 2) == 0;
    assert UnitInterference(ls, 1, 2) == 1;
    assert CodedResponse(ls, 1) == 3;
  }

  lemma UnitPairResponsive(ts: seq<Task>)
    requires ValidSet(ts) && |ts| == 2 && ts[0].wcet == ts[1].wcet == 1 && ts[0].period == 10 && ts[1].deadline == 2
    ensures Responsive(ts, 0) && Responsive(ts, 1)
  {
    assert Interference(ts, 0, 1) == 0 && Interference(ts, 0, 2) == 0;
    assert Demand(ts, 0, 1) == 1;
    ArrivedClosed(ts[0], 2);
    assert Interference(ts, 1, 2) == 1;
    assert Demand(ts, 1, 2) == 2;
  }
}
