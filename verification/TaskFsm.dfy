/**
 The task state machine of task_info_t.cpp under the evaluate, update and
 delta-notify cycle of IEEE Std 1666-2011, section 4.2.1: in every delta cycle
 any number of signals change at once, and the process runs in that cycle only
 if an edge it is waiting for occurred.
 */
module TaskFsm {
  import opened Options

  datatype State =
    | Ready | Executing | WaitPeriod | WaitComm | InactiveWaitPeriod | InactiveWaitComm | Finished

  /** Values of active_signal, consumption_signal, waiting_period_signal and waiting_comm_sync_signal. */
  datatype Signals = Signals(active: bool, consuming: bool, period: bool, comm: bool)

  datatype Edge = ActiveUp | ActiveDown | ConsumptionDown | PeriodUp | PeriodDown | CommUp | CommDown

  /** Scheduler events the process notifies on a transition. */
  datatype Notice = NoNotice | RunningToWait | EndsWait | Completion

  const QUIET := Signals(false, false, false, false)

  predicate Occurs(e: Edge, s: Signals, s': Signals) {
    match e
    case ActiveUp => !s.active && s'.active
    case ActiveDown => s.active && !s'.active
    case ConsumptionDown => s.consuming && !s'.consuming
    case PeriodUp => !s.period && s'.period
    case PeriodDown => s.period && !s'.period
    case CommUp => !s.comm && s'.comm
    case CommDown => s.comm && !s'.comm
  }

  /** The edges waited for in each state. */
  function Sensitivity(st: State): set<Edge> {
    match st
    case Ready => {ActiveUp}
    case Executing => {ActiveDown, ConsumptionDown, PeriodUp, CommUp}
    case WaitPeriod => {PeriodDown, ActiveDown}
    case WaitComm => {CommDown, ActiveDown}
    case InactiveWaitPeriod => {ActiveUp, PeriodDown}
    case InactiveWaitComm => {ActiveUp, CommDown}
    case Finished => {}
  }

  predicate Triggered(st: State, s: Signals, s': Signals) {
    exists e :: e in Sensitivity(st) && Occurs(e, s, s')
  }

  /** The wait signal a waiting state is bound to. */
  predicate StillWaits(st: State, s: Signals) {
    match st
    case WaitPeriod => s.period
    case InactiveWaitPeriod => s.period
    case WaitComm => s.comm
    case InactiveWaitComm => s.comm
    case _ => false
  }

  predicate HoldsProcessor(st: State) {
    st in {Executing, WaitPeriod, WaitComm}
  }

  predicate IsWaiting(st: State) {
    st in {WaitPeriod, WaitComm, InactiveWaitPeriod, InactiveWaitComm}
  }

  /** The same wait with or without the processor. */
  function Parked(st: State, active: bool): State
    requires IsWaiting(st)
  {
    if st in {WaitPeriod, InactiveWaitPeriod}
    then (if active then WaitPeriod else InactiveWaitPeriod)
    else (if active then WaitComm else InactiveWaitComm)
  }

  /** The state the process moves to when it runs; None for the branches reported as unexpected. */
  function Successor(st: State, s: Signals, finished: bool): Option<State> {
    match st
    case Ready => if s.active then Some(Executing) else None
    case Executing =>
      if s.period then Some(Parked(WaitPeriod, s.active))
      else if s.comm then Some(Parked(WaitComm, s.active))
      else if finished && !s.consuming then Some(Finished)
      else if !s.consuming || !s.active then Some(Ready)
      else None
    case Finished => None
    case _ =>
      if StillWaits(st, s) then (if s.active == HoldsProcessor(st) then None else Some(Parked(st, s.active)))
      else if HoldsProcessor(st) || s.active then Some(Executing)
      else Some(Ready)
  }

  function NoticeOf(st: State, st': State): Notice {
    if st.Executing? && IsWaiting(st') then RunningToWait
    else if st.Executing? && st'.Finished? then Completion
    else if IsWaiting(st) && st'.Ready? then EndsWait
    else NoNotice
  }

  // Runs ------------------------------------------------------------------------

  datatype Machine = Machine(st: State, s: Signals)

  /** What changes in one delta cycle: the new signal values and finished_flag. */
  datatype Delta = Delta(s: Signals, finished: bool)

  function React(m: Machine, d: Delta): Option<Machine> {
    if !Triggered(m.st, m.s, d.s) then Some(Machine(m.st, d.s))
    else match Successor(m.st, d.s, d.finished)
      case None => None
      case Some(st) => Some(Machine(st, d.s))
  }

  /** The machine after a sequence of delta cycles; None once an error branch has been taken. */
  function RunOf(ds: seq<Delta>): Option<Machine> {
    if ds == [] then Some(Machine(Ready, QUIET))
    else match RunOf(ds[..|ds| - 1])
      case None => None
      case Some(m) => React(m, ds[|ds| - 1])
  }

  /** A settled waiting state agrees with its wait signal and with the processor grant. */
  predicate Coherent(m: Machine) {
    IsWaiting(m.st) ==> StillWaits(m.st, m.s) && (m.s.active <==> HoldsProcessor(m.st))
  }

  /**
   Every edge that could break the agreement is in the state's wait list, and each waited edge leads to
   a legal branch.
   */
  lemma ReactCoherent(m: Machine, d: Delta)
    requires Coherent(m)
    ensures React(m, d).Some? && Coherent(React(m, d).value)
  {
    if IsWaiting(m.st) && !(StillWaits(m.st, d.s) && d.s.active == m.s.active) {
      var cause :=
        if d.s.active != m.s.active && (StillWaits(m.st, d.s) || HoldsProcessor(m.st))
        then (if d.s.active then ActiveUp else ActiveDown)
        else if m.st in {WaitPeriod, InactiveWaitPeriod} then PeriodDown else CommDown;
      assert cause in Sensitivity(m.st) && Occurs(cause, m.s, d.s);
    }
  }

  /** No sequence of signal changes, simultaneous ones included, reaches an unexpected branch. */
  lemma {:induction false} NeverUnexpected(ds: seq<Delta>)
    ensures RunOf(ds).Some? && Coherent(RunOf(ds).value)
  {
    if ds == [] {
    } else {
      NeverUnexpected(ds[..|ds| - 1]);
      ReactCoherent(RunOf(ds[..|ds| - 1]).value, ds[|ds| - 1]);
    }
  }

  /** The processor grant is withdrawn in the delta cycle in which an active wait ends. */
  predicate GrantAndWaitFall(m: Machine, s: Signals) {
    m.st in {WaitPeriod, WaitComm} && !s.active && !StillWaits(m.st, s)
  }

  /** EXECUTING without a processor grant. */
  predicate Stale(m: Machine) {
    m.st.Executing? && !m.s.active
  }

  /**
   The only way into EXECUTING without a grant is to lose the grant in the delta
   cycle in which an active wait ends, because those states test the wait first.
   */
  lemma StaleExactly(m: Machine, d: Delta)
    requires Coherent(m) && !Stale(m)
    ensures React(m, d).Some?
    ensures Stale(React(m, d).value) <==> GrantAndWaitFall(m, d.s)
  {
    ReactCoherent(m, d);
    if m.st.Executing? && !d.s.active {
      assert ActiveDown in Sensitivity(Executing) && Occurs(ActiveDown, m.s, d.s);
    }
    if GrantAndWaitFall(m, d.s) {
      assert ActiveDown in Sensitivity(m.st) && Occurs(ActiveDown, m.s, d.s);
    }
  }

  /** No delta cycle of the run withdraws the grant just as an active wait ends. */
  predicate NoJointFall(ds: seq<Delta>) {
    ds == [] ||
    var front := ds[..|ds| - 1];
    && NoJointFall(front)
    && (RunOf(front).Some? ==> !GrantAndWaitFall(RunOf(front).value, ds[|ds| - 1].s))
  }

  /** Without such a delta cycle, EXECUTING always means that a processor is granted. */
  lemma {:induction false} ExecutingIsGranted(ds: seq<Delta>)
    requires NoJointFall(ds)
    ensures RunOf(ds).Some? && Coherent(RunOf(ds).value) && !Stale(RunOf(ds).value)
  {
    NeverUnexpected(ds);
    if ds != [] {
      var front := ds[..|ds| - 1];
      ExecutingIsGranted(front);
      StaleExactly(RunOf(front).value, ds[|ds| - 1]);
    }
  }

  /** A joint fall leaves the task in EXECUTING with no grant, and a new grant alone does not wake the process. */
  lemma StaleExample(ds: seq<Delta>)
    requires ds == [Delta(Signals(true, true, false, false), false), Delta(Signals(true, false, true, false), false),
                    Delta(Signals(false, false, false, false), false)]
    ensures RunOf(ds) == Some(Machine(Executing, QUIET)) && !NoJointFall(ds)
  {
    var up, wait := ds[0], ds[1];
    assert ds[..2] == [up, wait] && [up, wait][..1] == [up] && [up][..0] == [];
    assert ActiveUp in Sensitivity(Ready) && Occurs(ActiveUp, QUIET, up.s);
    assert PeriodUp in Sensitivity(Executing) && Occurs(PeriodUp, up.s, wait.s);
    assert RunOf([]) == Some(Machine(Ready, QUIET));
    assert RunOf([up]) == Some(Machine(Executing, up.s));
    assert RunOf([up, wait]) == Some(Machine(WaitPeriod, wait.s));
    assert PeriodDown in Sensitivity(WaitPeriod) && Occurs(PeriodDown, wait.s, QUIET);
  }

  /**
   A task that starts waiting while READY is granted the processor in EXECUTING: that state does not
   exclude waiting.
   */
  lemma ExecutingWhileWaiting(ds: seq<Delta>)
    requires ds == [Delta(Signals(false, false, true, false), false), Delta(Signals(true, false, true, false), false)]
    ensures RunOf(ds) == Some(Machine(Executing, Signals(true, false, true, false)))
  {
    assert ds[..1] == [ds[0]] && [ds[0]][..0] == [];
    assert !Triggered(Ready, QUIET, ds[0].s);
    assert RunOf([]) == Some(Machine(Ready, QUIET));
    assert RunOf([ds[0]]) == Some(Machine(Ready, ds[0].s));
    assert ActiveUp in Sensitivity(Ready) && Occurs(ActiveUp, ds[0].s, ds[1].s);
  }

  // What each state reacts to, and what it tells the scheduler ---------------------------------

  /** The notice sent in a delta cycle. */
  function Emits(m: Machine, d: Delta): Notice {
    if !Triggered(m.st, m.s, d.s) then NoNotice
    else match Successor(m.st, d.s, d.finished)
      case None => NoNotice
      case Some(st) => NoticeOf(m.st, st)
  }

  /** What disturbs an executing task: it loses the grant, stops consuming, or starts to wait. */
  predicate Disturbed(s: Signals, s': Signals) {
    (s.active && !s'.active) || (s.consuming && !s'.consuming) || (!s.period && s'.period) || (!s.comm && s'.comm)
  }

  lemma DisturbedIsTriggered(s: Signals, s': Signals)
    ensures Triggered(Executing, s, s') <==> Disturbed(s, s')
  {
    if Disturbed(s, s') {
      var cause := if s.active && !s'.active then ActiveDown
                   else if s.consuming && !s'.consuming then ConsumptionDown
                   else if !s.period && s'.period then PeriodUp else CommUp;
      assert cause in Sensitivity(Executing) && Occurs(cause, s, s');
    }
  }

  /**
   An executing task that is disturbed waits if a wait signal is high, for its
   period first, with or without the processor; is finished if it has come to its
   end and consumes no more; and is ready otherwise. Undisturbed it goes on.
   */
  lemma ExecutingLeaves(m: Machine, d: Delta)
    requires m.st.Executing?
    ensures React(m, d).Some?
    ensures var st, s := React(m, d).value.st, d.s;
            && (!Disturbed(m.s, s) ==> st == Executing)
            && (Disturbed(m.s, s) && s.period ==> st == if s.active then WaitPeriod else InactiveWaitPeriod)
            && (Disturbed(m.s, s) && !s.period && s.comm ==> st == if s.active then WaitComm else InactiveWaitComm)
            && (Disturbed(m.s, s) && !s.period && !s.comm ==>
                  st == if d.finished && !s.consuming then Finished else Ready)
  {
    DisturbedIsTriggered(m.s, d.s);
  }

  /** A ready task executes exactly when it is granted the processor. */
  lemma ReadyLeaves(m: Machine, d: Delta)
    requires m.st.Ready?
    ensures React(m, d) == Some(Machine(if !m.s.active && d.s.active then Executing else Ready, d.s))
  {
    if !m.s.active && d.s.active {
      assert ActiveUp in Sensitivity(Ready) && Occurs(ActiveUp, m.s, d.s);
    }
  }

  predicate WaitsForPeriod(st: State) {
    st == WaitPeriod || st == InactiveWaitPeriod
  }

  predicate WaitsForComm(st: State) {
    st == WaitComm || st == InactiveWaitComm
  }

  /** The wait of a waiting task is over. */
  predicate WaitOver(st: State, s: Signals) {
    (WaitsForPeriod(st) && !s.period) || (WaitsForComm(st) && !s.comm)
  }

  /** The task waits without the processor, and goes on without it. */
  predicate WithoutGrant(st: State, s: Signals) {
    (st == InactiveWaitPeriod || st == InactiveWaitComm) && !s.active
  }

  /**
   A waiting task keeps waiting for the same signal, with the processor exactly while
   it is granted; when the wait is over it is ready if it waited without the
   processor and is not granted it now, and executes otherwise.
   */
  lemma WaitingLeaves(m: Machine, d: Delta)
    requires Coherent(m) && (WaitsForPeriod(m.st) || WaitsForComm(m.st))
    ensures React(m, d).Some?
    ensures var st, s := React(m, d).value.st, d.s;
            && (WaitsForPeriod(m.st) && s.period ==> st == if s.active then WaitPeriod else InactiveWaitPeriod)
            && (WaitsForComm(m.st) && s.comm ==> st == if s.active then WaitComm else InactiveWaitComm)
            && (WaitOver(m.st, s) ==> st == if WithoutGrant(m.st, s) then Ready else Executing)
  {
    ReactCoherent(m, d);
    if WaitOver(m.st, d.s) {
      assert (if WaitsForPeriod(m.st) then PeriodDown else CommDown) in Sensitivity(m.st);
      assert Occurs(if WaitsForPeriod(m.st) then PeriodDown else CommDown, m.s, d.s);
    }
  }

  /** A finished task stays finished. */
  lemma FinishedStays(m: Machine, d: Delta)
    requires m.st.Finished?
    ensures React(m, d) == Some(Machine(Finished, d.s)) && Emits(m, d) == NoNotice
  {
  }

  /**
   The scheduler is told exactly of these: an executing task that starts to wait, an
   executing task that is finished, and a task whose wait ends without the processor.
   */
  lemma {:induction false} EmitsExactly(ds: seq<Delta>, d: Delta)
    ensures RunOf(ds).Some?
    ensures var m, s := RunOf(ds).value, d.s;
            && (Emits(m, d) == RunningToWait <==> m.st.Executing? && Disturbed(m.s, s) && (s.period || s.comm))
            && (Emits(m, d) == Completion <==>
                  m.st.Executing? && Disturbed(m.s, s) && !s.period && !s.comm && d.finished && !s.consuming)
            && (Emits(m, d) == EndsWait <==> WaitOver(m.st, s) && WithoutGrant(m.st, s))
  {
    NeverUnexpected(ds);
    var m := RunOf(ds).value;
    DisturbedIsTriggered(m.s, d.s);
    if m.st.Executing? {
      ExecutingLeaves(m, d);
    } else if WaitsForPeriod(m.st) || WaitsForComm(m.st) {
      WaitingLeaves(m, d);
      if WaitOver(m.st, d.s) {
        assert (if WaitsForPeriod(m.st) then PeriodDown else CommDown) in Sensitivity(m.st);
        assert Occurs(if WaitsForPeriod(m.st) then PeriodDown else CommDown, m.s, d.s);
      }
    }
  }

  /** How often a notice was sent in a run. */
  function Sent(ds: seq<Delta>, n: Notice): nat {
    if ds == [] then 0
    else
      var front := ds[..|ds| - 1];
      Sent(ds[..|ds| - 1], n)
      + (if RunOf(front).Some? && Emits(RunOf(front).value, ds[|ds| - 1]) == n then 1 else 0)
  }

  /** How often a waiting task went on to execute without passing through READY. */
  function Resumed(ds: seq<Delta>): nat {
    if ds == [] then 0
    else
      var front, d := ds[..|ds| - 1], ds[|ds| - 1];
      Resumed(ds[..|ds| - 1])
      + (if RunOf(front).Some? && WaitOver(RunOf(front).value.st, d.s) && !WithoutGrant(RunOf(front).value.st, d.s)
         then 1 else 0)
  }

  /**
   Each wait is announced once when it starts, and ends once: by the notice of an
   ended wait, by going on to execute, or not yet.
   */
  lemma {:induction false} WaitsBalance(ds: seq<Delta>)
    ensures RunOf(ds).Some?
    ensures Sent(ds, RunningToWait) ==
            Sent(ds, EndsWait) + Resumed(ds)
            + (if WaitsForPeriod(RunOf(ds).value.st) || WaitsForComm(RunOf(ds).value.st) then 1 else 0)
  {
    NeverUnexpected(ds);
    if ds == [] {
    } else {
      var front, d := ds[..|ds| - 1], ds[|ds| - 1];
      WaitsBalance(front);
      EmitsExactly(front, d);
      NeverUnexpected(front);
      BalanceStep(RunOf(front).value, d);
    }
  }

  /** One delta cycle starts a wait, ends one, or neither. */
  lemma {:induction false} BalanceStep(m: Machine, d: Delta)
    requires Coherent(m)
    ensures React(m, d).Some?
    ensures var st := React(m, d).value.st;
            (WaitsForPeriod(st) || WaitsForComm(st)) <==>
            || ((WaitsForPeriod(m.st) || WaitsForComm(m.st)) && !WaitOver(m.st, d.s))
            || (m.st.Executing? && Disturbed(m.s, d.s) && (d.s.period || d.s.comm))
  {
    match m.st
    case Executing => ExecutingLeaves(m, d);
    case Ready => ReadyLeaves(m, d);
    case Finished => FinishedStays(m, d);
    case _ => WaitingLeaves(m, d);
  }

  // Occupation accounting ----------------------------------------------------------

  /** occupation_time, occupation_interval_start_time and whether prev_inc_state is EXECUTING. */
  datatype Account = Account(occupation: nat, start: nat, executing: bool)

  /** The accounting process at a change of the state signal. */
  function Track(a: Account, st: State, now: nat): Account {
    if st.Executing? then Account(a.occupation, now, true)
    else if a.executing && a.start <= now then Account(a.occupation + (now - a.start), a.start, false)
    else Account(a.occupation, a.start, false)
  }

  /** Time accounted so far, an open interval included. */
  function Held(a: Account, now: nat): nat {
    a.occupation + (if a.executing && a.start <= now then now - a.start else 0)
  }

  /** A stay of a task in a state for some time; adjacent stays differ, for the process runs only on a change. */
  datatype Stay = Stay(st: State, time: nat)

  function Elapsed(hs: seq<Stay>): nat {
    if hs == [] then 0 else Elapsed(hs[..|hs| - 1]) + hs[|hs| - 1].time
  }

  function TimeExecuting(hs: seq<Stay>): nat {
    if hs == [] then 0
    else TimeExecuting(hs[..|hs| - 1]) + (if hs[|hs| - 1].st.Executing? then hs[|hs| - 1].time else 0)
  }

  /** The account after the process has run at the start of every stay. */
  function Tracked(hs: seq<Stay>): Account {
    if hs == [] then Account(0, 0, false)
    else Track(Tracked(hs[..|hs| - 1]), hs[|hs| - 1].st, Elapsed(hs[..|hs| - 1]))
  }

  predicate Alternating(hs: seq<Stay>) {
    forall k :: 0 < k < |hs| ==> hs[k].st != hs[k - 1].st
  }

  /** The accounted time is exactly the time spent in EXECUTING. */
  lemma {:induction false} OccupationExact(hs: seq<Stay>)
    requires Alternating(hs)
    ensures Held(Tracked(hs), Elapsed(hs)) == TimeExecuting(hs)
    ensures Tracked(hs).start <= Elapsed(hs)
    ensures Tracked(hs).executing <==> hs != [] && hs[|hs| - 1].st.Executing?
    ensures hs != [] && hs[|hs| - 1].st.Executing? ==> Tracked(hs).start == Elapsed(hs[..|hs| - 1])
  {
    if hs == [] {
    } else {
      var front := hs[..|hs| - 1];
      OccupationExact(front);
      if front != [] {
        assert hs[|hs| - 1].st != front[|front| - 1].st;
      }
    }
  }

  // The processes of one task ----------------------------------------------------------

  class TaskInfo {
    var st: State
    var sensitivity: set<Edge>
    var account: Account

    ghost predicate Valid()
      reads this
    {
      sensitivity == Sensitivity(st)
    }

    constructor ()
      ensures Valid() && st == Ready && account == Account(0, 0, false)
    {
      st, sensitivity, account := Ready, {ActiveUp}, Account(0, 0, false);
    }

    /**
     One resumption of the state process, after an edge it waits for; the flag is false on an unexpected
     transition.
     */
    method UpdateState(s: Signals, finished: bool) returns (ok: bool, notice: Notice)
      requires Valid()
      modifies this`st, this`sensitivity
      ensures Valid()
      ensures ok <==> Successor(old(st), s, finished).Some?
      ensures ok ==> Some(st) == Successor(old(st), s, finished) && notice == NoticeOf(old(st), st)
      ensures !ok ==> st == old(st) && notice == NoNotice
    {
      ok, notice := true, NoNotice;
      match st {
        case Executing =>
          if s.period && s.active {
            notice, st := RunningToWait, WaitPeriod;
            sensitivity := {PeriodDown, ActiveDown};
          } else if s.period && !s.active {
            notice, st := RunningToWait, InactiveWaitPeriod;
            sensitivity := {ActiveUp, PeriodDown};
          } else if s.comm && s.active {
            notice, st := RunningToWait, WaitComm;
            sensitivity := {CommDown, ActiveDown};
          } else if s.comm && !s.active {
            notice, st := RunningToWait, InactiveWaitComm;
            sensitivity := {CommDown, ActiveUp};
          } else if finished && !s.consuming {
            notice, st := Completion, Finished;
            sensitivity := {};
          } else if (s.active && !s.consuming) || !s.active {
            st := Ready;
            sensitivity := {ActiveUp};
          } else {
            ok := false;
          }
        case WaitPeriod =>
          if !s.period {
            st := Executing;
            sensitivity := {ActiveDown, ConsumptionDown, PeriodUp, CommUp};
          } else if !s.active {
            st := InactiveWaitPeriod;
            sensitivity := {ActiveUp, PeriodDown};
          } else {
            ok := false;
          }
        case WaitComm =>
          if !s.comm {
            st := Executing;
            sensitivity := {ActiveDown, ConsumptionDown, PeriodUp, CommUp};
          } else if !s.active {
            st := InactiveWaitComm;
            sensitivity := {CommDown, ActiveUp};
          } else {
            ok := false;
          }
        case Ready =>
          if s.active {
            st := Executing;
            sensitivity := {ActiveDown, ConsumptionDown, PeriodUp, CommUp};
          } else {
            ok := false;
          }
        case InactiveWaitPeriod =>
          if !s.period && s.active {
            st := Executing;
            sensitivity := {ActiveDown, ConsumptionDown, PeriodUp, CommUp};
          } else if !s.period && !s.active {
            st, notice := Ready, EndsWait;
            sensitivity := {ActiveUp};
          } else if s.active && s.period {
            st := WaitPeriod;
            sensitivity := {PeriodDown, ActiveDown};
          } else {
            ok := false;
          }
        case InactiveWaitComm =>
          if !s.comm && s.active {
            st := Executing;
            sensitivity := {ActiveDown, ConsumptionDown, PeriodUp, CommUp};
          } else if !s.comm {
            st, notice := Ready, EndsWait;
            sensitivity := {ActiveUp};
          } else if s.active && s.comm {
            st := WaitComm;
            sensitivity := {CommDown, ActiveDown};
          } else {
            ok := false;
          }
        case Finished =>
          ok := false;
      }
    }

    /** The accounting process, run at a change of the state signal. */
    method AccountOccupationTime(now: nat)
      requires account.start <= now
      modifies this`account
      ensures account == Track(old(account), st, now)
    {
      if st == Executing {
        account := account.(start := now, executing := true);
      } else {
        if account.executing {
          account := account.(occupation := account.occupation + (now - account.start));
        }
        account := account.(executing := false);
      }
    }

    /** End of simulation: an interval still open, or whose end was not accounted yet, is added. */
    method EndOfSimulation(now: nat, scheduling: bool)
      requires account.start <= now
      modifies this`account
      ensures (st == Executing && !scheduling) || (st == Ready && scheduling) ==>
                account.occupation == Held(old(account), now)
      ensures !((st == Executing && !scheduling) || (st == Ready && scheduling)) ==> account == old(account)
    {
      if (st == Executing && account.executing && !scheduling) || (st == Ready && account.executing && scheduling) {
        account := account.(occupation := account.occupation + (now - account.start));
      }
    }
  }
}
