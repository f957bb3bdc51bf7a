/**
 Blocked senders and a finite transmit buffer, in delta cycles.
 send_request_completed is notified when a transfer is dispatched, before its
 room is released, and send_request_ev is lost unless the interface waits for it.
 For some message sizes a sender is therefore stranded: only a new request can
 still happen, and it is blocked (ProgressExactly says for which sizes). For all
 others the buffer empties once requests cease (QuietProgress), but while they go
 on, newer ones can overtake a blocked sender for ever (WaitingExactly).
 */
module SenderWakeUp {

  /**
   The interface process waits for send_request_ev, is at the top of its loop, has
   just dispatched a transfer, has let time pass on it, or has found nothing to
   dispatch.
   */
  datatype Phase = AwaitRequest | Top | Sending(size: nat) | Ending(size: nat) | Failed

  /**
   Sizes of the queued requests, of those whose sender is about to test the room
   again, and of those whose sender waits for send_request_completed; notified
   tells whether send_request_ev is due in the next delta cycle.
   */
  datatype State = State(
    buffer: nat, phase: Phase, queue: seq<nat>, woken: seq<nat>, blocked: seq<nat>, room: nat, notified: bool)

  datatype Move = Request(size: nat) | Deliver | Dispatch(index: nat) | Retest(index: nat) | Elapse | Complete

  function Remove(s: seq<nat>, k: nat): seq<nat>
    requires k < |s|
  {
    s[..k] + s[k + 1..]
  }

  /** One test of the room: the request enters the queue or its sender waits. */
  function Test(s: State, size: nat): State {
    if size <= s.room then s.(queue := s.queue + [size], room := s.room - size)
    else s.(blocked := s.blocked + [size])
  }

  /**
   instant: transfers may take no time at all. Otherwise all that was notified by
   the dispatch has been dealt with before the transfer ends. Any queued request
   may be next, which covers the order by request time and by schedule.
   */
  predicate Enabled(s: State, m: Move, instant: bool) {
    match m
    case Request(_) => true
    case Deliver => s.notified
    case Dispatch(k) => s.phase.Top? && k < |s.queue|
    case Retest(k) => k < |s.woken|
    case Elapse => s.phase.Sending? && s.woken == [] && !s.notified
    case Complete => s.phase.Ending? || (instant && s.phase.Sending?)
  }

  function After(s: State, m: Move, instant: bool): State
    requires Enabled(s, m, instant)
  {
    match m
    case Request(size) => Test(s.(notified := true), size)
    case Deliver =>
      s.(notified := false,
         phase := if s.phase != AwaitRequest then s.phase else if s.queue == [] then Failed else Top)
    case Dispatch(k) =>
      s.(phase := Sending(s.queue[k]), queue := Remove(s.queue, k), woken := s.woken + s.blocked, blocked := [])
    case Retest(k) => Test(s.(woken := Remove(s.woken, k)), s.woken[k])
    case Elapse => s.(phase := Ending(s.phase.size))
    case Complete =>
      s.(room := s.room + s.phase.size, phase := if s.queue == [] then AwaitRequest else Top)
  }

  function InitState(buffer: nat): State {
    State(buffer, AwaitRequest, [], [], [], buffer, false)
  }

  ghost predicate Reachable(s: State, ms: seq<Move>, buffer: nat, instant: bool)
    decreases |ms|
  {
    if ms == [] then s == InitState(buffer)
    else
      var front, last := ms[..|ms| - 1], ms[|ms| - 1];
      exists p: State :: Reachable(p, front, buffer, instant) && Enabled(p, last, instant)
                        && s == After(p, last, instant)
  }

  /** Nothing but a new request can change the state. */
  ghost predicate Stuck(s: State, instant: bool) {
    forall m :: Enabled(s, m, instant) ==> m.Request?
  }

  // Room accounting ----------------------------------------------------------------------

  function Sum(s: seq<nat>): nat {
    if s == [] then 0 else Sum(s[..|s| - 1]) + s[|s| - 1]
  }

  lemma SumAppend(s: seq<nat>, x: nat)
    ensures Sum(s + [x]) == Sum(s) + x
  {
    assert (s + [x])[..|s|] == s;
  }

  lemma {:induction false} SumRemove(s: seq<nat>, k: nat)
    requires k < |s|
    ensures Sum(Remove(s, k)) + s[k] == Sum(s)
  {
    var front := s[..|s| - 1];
    if k == |s| - 1 {
      assert Remove(s, k) == front;
    } else {
      SumRemove(front, k);
      assert Remove(s, k) == Remove(front, k) + [s[|s| - 1]];
      SumAppend(Remove(front, k), s[|s| - 1]);
    }
  }

  function InFlight(s: State): nat {
    if s.phase.Sending? || s.phase.Ending? then s.phase.size else 0
  }

  /** Room, queued and travelling sizes make up the buffer. */
  predicate Accounted(s: State, buffer: nat) {
    s.buffer == buffer && s.room + Sum(s.queue) + InFlight(s) == buffer
  }

  lemma TestAccounted(s: State, size: nat, buffer: nat)
    requires Accounted(s, buffer)
    ensures Accounted(Test(s, size), buffer)
  {
    SumAppend(s.queue, size);
  }

  lemma DispatchAccounted(s: State, k: nat, buffer: nat, instant: bool)
    requires Accounted(s, buffer) && Enabled(s, Dispatch(k), instant)
    ensures Accounted(After(s, Dispatch(k), instant), buffer)
  {
    SumRemove(s.queue, k);
  }

  lemma AfterAccounted(s: State, m: Move, buffer: nat, instant: bool)
    requires Accounted(s, buffer) && Enabled(s, m, instant)
    ensures Accounted(After(s, m, instant), buffer)
  {
    match m
    case Request(size) => TestAccounted(s.(notified := true), size, buffer);
    case Dispatch(k) => DispatchAccounted(s, k, buffer, instant);
    case Retest(k) => TestAccounted(s.(woken := Remove(s.woken, k)), s.woken[k], buffer);
    case _ =>
  }

  /** Room accounting holds in every reachable state, instantaneous transfers or not. */
  lemma {:induction false} ReachableInv(s: State, ms: seq<Move>, buffer: nat, instant: bool)
    requires Reachable(s, ms, buffer, instant)
    ensures Accounted(s, buffer)
    decreases |ms|
  {
    if ms == [] {
      assert Sum([]) == 0;
    } else {
      var front, last := ms[..|ms| - 1], ms[|ms| - 1];
      var p: State :| Reachable(p, front, buffer, instant) && Enabled(p, last, instant) && s == After(p, last, instant);
      ReachableInv(p, front, buffer, instant);
      AfterAccounted(p, last, buffer, instant);
    }
  }

  /** The moves ms lead from s to s'. */
  predicate Leads(s: State, ms: seq<Move>, s': State, instant: bool)
    decreases |ms|
  {
    if ms == [] then s' == s
    else Enabled(s, ms[0], instant) && Leads(After(s, ms[0], instant), ms[1..], s', instant)
  }

  predicate NoneComplete(ms: seq<Move>) {
    forall i :: 0 <= i < |ms| ==> !ms[i].Complete?
  }

  predicate NoneRequest(ms: seq<Move>) {
    forall i :: 0 <= i < |ms| ==> !ms[i].Request?
  }

  /** No room is released until a transfer ends. */
  lemma {:induction false} RoomShrinks(s: State, ms: seq<Move>, s': State, instant: bool)
    requires Leads(s, ms, s', instant) && NoneComplete(ms)
    ensures s'.room <= s.room
    decreases |ms|
  {
    if ms == [] {
    } else {
      RoomShrinks(After(s, ms[0], instant), ms[1..], s', instant);
    }
  }

  /**
   A sender that tests the room again after a dispatch and before the transfer
   ends is admitted only if its message fits into the room there was at the
   dispatch: that of the message dispatched is not free yet.
   */
  lemma {:induction false} DispatchAdmitsNone(s: State, k: nat, ms: seq<Move>, s': State, j: nat, instant: bool)
    requires Enabled(s, Dispatch(k), instant) && Leads(After(s, Dispatch(k), instant), ms, s', instant)
    requires NoneComplete(ms) && Enabled(s', Retest(j), instant)
    ensures After(s', Retest(j), instant).queue != s'.queue ==> s'.woken[j] <= s.room
    ensures s.room < s'.woken[j] ==> s'.woken[j] in After(s', Retest(j), instant).blocked
  {
    RoomShrinks(After(s, Dispatch(k), instant), ms, s', instant);
    assert After(s', Retest(j), instant).queue != s'.queue ==> s'.woken[j] <= s'.room;
  }

  /** Every sender about to test the room again will be refused. */
  predicate Refused(s: State, room: nat) {
    s.room <= room && forall i :: 0 <= i < |s.woken| ==> room < s.woken[i]
  }

  /** Once they would all be refused they all are, whatever else happens before the transfer ends. */
  lemma RefusedStays(s: State, m: Move, room: nat, instant: bool)
    requires Refused(s, room) && Enabled(s, m, instant) && !m.Complete? && !m.Dispatch?
    ensures Refused(After(s, m, instant), room)
    ensures m.Retest? ==> After(s, m, instant).queue == s.queue
  {
  }

  // Progress --------------------------------------------------------------------------------

  /** Any two messages fit into the buffer together. */
  ghost predicate PairsFit(z: set<nat>, buffer: nat) {
    forall a, b :: a in z && b in z ==> a + b <= buffer
  }

  predicate AllIn(s: seq<nat>, z: set<nat>) {
    forall i :: 0 <= i < |s| ==> s[i] in z
  }

  /** The requests of a series of moves have their sizes in z. */
  predicate SizesIn(ms: seq<Move>, z: set<nat>) {
    forall i :: 0 <= i < |ms| && ms[i].Request? ==> ms[i].size in z
  }

  predicate Known(s: State, z: set<nat>) {
    && AllIn(s.queue, z) && AllIn(s.woken, z) && AllIn(s.blocked, z)
    && (s.phase.Sending? || s.phase.Ending? ==> s.phase.size in z)
  }

  /** What holds between the moves when any two messages fit and transfers take time. */
  predicate Progressing(s: State) {
    && !s.phase.Failed?
    && (s.woken != [] ==> s.phase.Sending?)
    && (s.queue == [] ==> s.blocked == [] && !s.phase.Top?)
    && (s.queue == [] && s.notified ==> s.phase.Sending?)
    && (s.queue != [] && s.phase.AwaitRequest? ==> s.notified)
  }

  lemma {:induction false} AfterKnown(s: State, m: Move, z: set<nat>, instant: bool)
    requires Known(s, z) && Enabled(s, m, instant) && (m.Request? ==> m.size in z)
    ensures Known(After(s, m, instant), z)
  {
  }

  /** With an empty queue at most one message holds room, so any message fits. */
  lemma {:induction false} FitsAlone(s: State, z: set<nat>, buffer: nat, size: nat)
    requires Accounted(s, buffer) && Known(s, z) && PairsFit(z, buffer) && s.queue == [] && size in z
    ensures size <= s.room
  {
    assert Sum(s.queue) == 0;
    assert size + size <= buffer;
    if s.phase.Sending? || s.phase.Ending? {
      assert size + s.phase.size <= buffer;
    }
  }

  lemma {:induction false} AfterProgressing(s: State, m: Move, z: set<nat>, buffer: nat)
    requires Accounted(s, buffer) && Known(s, z) && PairsFit(z, buffer) && Progressing(s)
    requires Enabled(s, m, false) && (m.Request? ==> m.size in z)
    ensures Progressing(After(s, m, false))
  {
    match m
    case Request(size) =>
      if s.queue == [] {
        FitsAlone(s, z, buffer, size);
      }
    case Retest(k) =>
      if s.queue == [] {
        FitsAlone(s, z, buffer, s.woken[k]);
      }
    case _ =>
  }

  lemma {:induction false} ReachableProgressing(s: State, ms: seq<Move>, z: set<nat>, buffer: nat)
    requires Reachable(s, ms, buffer, false) && SizesIn(ms, z) && PairsFit(z, buffer)
    ensures Accounted(s, buffer) && Known(s, z) && Progressing(s)
    decreases |ms|
  {
    ReachableInv(s, ms, buffer, false);
    if ms != [] {
      var front, last := ms[..|ms| - 1], ms[|ms| - 1];
      var p: State :| Reachable(p, front, buffer, false) && Enabled(p, last, false) && s == After(p, last, false);
      ReachableProgressing(p, front, z, buffer);
      AfterKnown(p, last, z, false);
      AfterProgressing(p, last, z, buffer);
    }
  }

  lemma {:induction false} StuckFacts(s: State, instant: bool)
    requires Stuck(s, instant)
    ensures s.woken == [] && !s.notified && (s.phase.Top? ==> s.queue == [])
    ensures s.phase == AwaitRequest || s.phase == Top || s.phase == Failed
  {
    assert !Enabled(s, Deliver, instant) && !Enabled(s, Retest(0), instant) && !Enabled(s, Dispatch(0), instant);
    assert !Enabled(s, Elapse, instant) && !Enabled(s, Complete, instant);
  }

  /** Some series of moves with sizes in z ends where only a new request can happen and a sender is blocked. */
  ghost predicate Strands(z: set<nat>, buffer: nat) {
    exists s: State, ms: seq<Move> ::
      Reachable(s, ms, buffer, false) && SizesIn(ms, z) && Stuck(s, false) && s.blocked != []
  }

  lemma {:induction false} Extend(s: State, ms: seq<Move>, m: Move, buffer: nat, instant: bool)
    requires Reachable(s, ms, buffer, instant) && Enabled(s, m, instant)
    ensures Reachable(After(s, m, instant), ms + [m], buffer, instant)
  {
    var all := ms + [m];
    assert all[..|all| - 1] == ms && all[|all| - 1] == m;
  }

  lemma {:induction false} QuietIsStuck(s: State)
    requires (s.phase == AwaitRequest || s.phase == Failed) && s.woken == [] && !s.notified
    ensures Stuck(s, false)
  {
  }

  /** A message larger than the buffer blocks its sender and makes the interface fail. */
  lemma OversizeStrands(a: nat, buffer: nat) returns (s: State, ms: seq<Move>)
    requires buffer < a
    ensures Reachable(s, ms, buffer, false) && SizesIn(ms, {a}) && Stuck(s, false) && s.blocked == [a]
  {
    ms := [];
    s := InitState(buffer);
    Extend(s, ms, Request(a), buffer, false);
    s, ms := After(s, Request(a), false), ms + [Request(a)];
    Extend(s, ms, Deliver, buffer, false);
    s, ms := After(s, Deliver, false), ms + [Deliver];
    QuietIsStuck(s);
  }

  /**
   A message that comes while one it does not fit beside is travelling leaves its
   sender blocked before an empty buffer.
   */
  lemma PairStrands(a: nat, b: nat, buffer: nat) returns (s: State, ms: seq<Move>)
    requires a <= buffer < a + b
    ensures Reachable(s, ms, buffer, false) && SizesIn(ms, {a, b}) && Stuck(s, false)
    ensures s == State(buffer, AwaitRequest, [], [], [b], buffer, false)
  {
    ms := Travelling(a, buffer, false);
    s := State(buffer, Ending(a), [], [], [], buffer - a, false);
    Extend(s, ms, Request(b), buffer, false);
    s, ms := After(s, Request(b), false), ms + [Request(b)];
    Extend(s, ms, Deliver, buffer, false);
    s, ms := After(s, Deliver, false), ms + [Deliver];
    Extend(s, ms, Complete, buffer, false);
    s, ms := After(s, Complete, false), ms + [Complete];
    QuietIsStuck(s);
  }

  /** One message, accepted, dispatched and under way. */
  lemma Travelling(a: nat, buffer: nat, instant: bool) returns (ms: seq<Move>)
    requires a <= buffer
    ensures Reachable(State(buffer, Ending(a), [], [], [], buffer - a, false), ms, buffer, instant)
    ensures SizesIn(ms, {a})
  {
    ms := [];
    var s := InitState(buffer);
    Extend(s, ms, Request(a), buffer, instant);
    s, ms := After(s, Request(a), instant), ms + [Request(a)];
    Extend(s, ms, Deliver, buffer, instant);
    s, ms := After(s, Deliver, instant), ms + [Deliver];
    assert Remove([a], 0) == [];
    Extend(s, ms, Dispatch(0), buffer, instant);
    s, ms := After(s, Dispatch(0), instant), ms + [Dispatch(0)];
    Extend(s, ms, Elapse, buffer, instant);
    s, ms := After(s, Elapse, instant), ms + [Elapse];
  }

  /**
   Transfers taking time, and under every interleaving: no state in which only a
   new request can happen leaves a sender blocked, if and only if any two of the
   sizes in use fit into the buffer together.
   */
  lemma ProgressExactly(z: set<nat>, buffer: nat)
    ensures !Strands(z, buffer) <==> PairsFit(z, buffer)
  {
    if PairsFit(z, buffer) && Strands(z, buffer) {
      var s: State, ms: seq<Move> :|
        Reachable(s, ms, buffer, false) && SizesIn(ms, z) && Stuck(s, false) && s.blocked != [];
      PairsProgress(s, ms, z, buffer);
      assert false;
    }
    if !PairsFit(z, buffer) {
      var a, b :| a in z && b in z && a + b > buffer;
      if buffer < a {
        var s, ms := OversizeStrands(a, buffer);
      } else {
        var s, ms := PairStrands(a, b, buffer);
      }
    }
  }

  /** If any two sizes fit, the interface is back in its initial state once only a new request can change it. */
  lemma {:induction false} PairsProgress(s: State, ms: seq<Move>, z: set<nat>, buffer: nat)
    requires Reachable(s, ms, buffer, false) && SizesIn(ms, z) && PairsFit(z, buffer)
    requires Stuck(s, false)
    ensures s == InitState(buffer)
  {
    ReachableProgressing(s, ms, z, buffer);
    StuckFacts(s, false);
    assert Sum([]) == 0;
  }

  /** Some series of moves with sizes in z makes the interface look for a request in an empty queue. */
  ghost predicate Fails(z: set<nat>, buffer: nat) {
    exists s: State, ms: seq<Move> :: Reachable(s, ms, buffer, false) && SizesIn(ms, z) && s.phase == Failed
  }

  /** A refused request wakes the interface up before an empty queue. */
  lemma RefusedFails(z: set<nat>, a: nat, b: nat, buffer: nat)
    requires a in z && b in z && buffer < a + b
    ensures Fails(z, buffer)
  {
    var ms: seq<Move>, s := [], InitState(buffer);
    if buffer < a {
      Extend(s, ms, Request(a), buffer, false);
      s, ms := After(s, Request(a), false), ms + [Request(a)];
    } else {
      ms := Travelling(a, buffer, false);
      s := State(buffer, Ending(a), [], [], [], buffer - a, false);
      Extend(s, ms, Request(b), buffer, false);
      s, ms := After(s, Request(b), false), ms + [Request(b)];
      Extend(s, ms, Complete, buffer, false);
      s, ms := After(s, Complete, false), ms + [Complete];
    }
    Extend(s, ms, Deliver, buffer, false);
    s, ms := After(s, Deliver, false), ms + [Deliver];
  }

  /**
   Transfers taking time, the error for an empty queue can come, by a request that
   is refused, if and only if some two of the sizes in use do not fit together.
   */
  lemma FailsExactly(z: set<nat>, buffer: nat)
    ensures Fails(z, buffer) <==> !PairsFit(z, buffer)
  {
    if PairsFit(z, buffer) && Fails(z, buffer) {
      var s: State, ms: seq<Move> :| Reachable(s, ms, buffer, false) && SizesIn(ms, z) && s.phase == Failed;
      ReachableProgressing(s, ms, z, buffer);
      assert false;
    }
    if !PairsFit(z, buffer) {
      var a, b :| a in z && b in z && a + b > buffer;
      RefusedFails(z, a, b, buffer);
    }
  }

  // When requests cease ------------------------------------------------------------------

  function PhaseRank(p: Phase): nat {
    match p
    case Sending(_) => 3
    case Ending(_) => 2
    case AwaitRequest => 1
    case Top => 1
    case Failed => 0
  }

  /** Messages that have not been dispatched. */
  function Waiting(s: State): nat {
    |s.queue| + |s.woken| + |s.blocked|
  }

  function Measure(s: State): nat {
    Waiting(s) * (Waiting(s) + 5) + PhaseRank(s.phase) + |s.woken| + (if s.notified then 1 else 0)
  }

  lemma OneLess(n: nat)
    ensures (n + 1) * (n + 1 + 5) == n * (n + 5) + 2 * n + 6
  {
  }

  lemma DispatchLowers(s: State, k: nat, instant: bool)
    requires Enabled(s, Dispatch(k), instant)
    ensures Measure(After(s, Dispatch(k), instant)) < Measure(s)
  {
    OneLess(Waiting(s) - 1);
    assert Waiting(After(s, Dispatch(k), instant)) == Waiting(s) - 1;
  }

  lemma MoveLowers(s: State, m: Move, instant: bool)
    requires Enabled(s, m, instant) && !m.Request?
    ensures Measure(After(s, m, instant)) < Measure(s)
  {
    if m.Dispatch? {
      DispatchLowers(s, m.index, instant);
    } else {
      assert Waiting(After(s, m, instant)) == Waiting(s);
    }
  }

  /** Without new requests every series of moves is bounded, whatever its order. */
  lemma {:induction false} QuietBounded(s: State, ms: seq<Move>, s': State, instant: bool)
    requires Leads(s, ms, s', instant) && NoneRequest(ms)
    ensures |ms| + Measure(s') <= Measure(s)
    decreases |ms|
  {
    if ms == [] {
    } else {
      MoveLowers(s, ms[0], instant);
      QuietBounded(After(s, ms[0], instant), ms[1..], s', instant);
    }
  }

  lemma SplitFirst(before: seq<Move>, ms: seq<Move>)
    requires ms != []
    ensures before + [ms[0]] + ms[1..] == before + ms
  {
  }

  lemma {:induction false} ReachableLeads(s: State, before: seq<Move>, ms: seq<Move>, s': State, all: seq<Move>,
                                          buffer: nat, instant: bool)
    requires Reachable(s, before, buffer, instant) && Leads(s, ms, s', instant) && all == before + ms
    ensures Reachable(s', all, buffer, instant)
    decreases |ms|
  {
    if ms == [] {
      assert all == before;
    } else {
      Extend(s, before, ms[0], buffer, instant);
      SplitFirst(before, ms);
      ReachableLeads(After(s, ms[0], instant), before + [ms[0]], ms[1..], s', all, buffer, instant);
    }
  }

  /**
   If any two sizes fit and transfers take time, the buffer empties once requests
   cease: from every reachable state each series of other moves has at most Measure
   steps, and where it can go no further nothing is queued or blocked.
   */
  lemma {:induction false} QuietProgress(s: State, before: seq<Move>, ms: seq<Move>, s': State,
                                         z: set<nat>, buffer: nat)
    requires Reachable(s, before, buffer, false) && SizesIn(before, z) && PairsFit(z, buffer)
    requires Leads(s, ms, s', false) && NoneRequest(ms)
    ensures |ms| <= Measure(s)
    ensures (forall m :: Enabled(s', m, false) ==> m.Request?) ==> s' == InitState(buffer)
  {
    QuietBounded(s, ms, s', false);
    ReachableLeads(s, before, ms, s', before + ms, buffer, false);
    if Stuck(s', false) {
      PairsProgress(s', before + ms, z, buffer);
    }
  }

  // While requests go on --------------------------------------------------------------------

  function Copies(b: nat, n: nat): seq<nat> {
    seq(n, _ => b)
  }

  /** How many messages of size b the buffer holds, and the room that is then left. */
  function Load(b: nat, buffer: nat): nat
    requires 0 < b
  {
    buffer / b
  }

  function Rest(b: nat, buffer: nat): nat
    requires 0 < b
  {
    buffer % b
  }

  /**
   One round of overtaking: a message is dispatched, a new one takes the room before
   the blocked sender tests it, and the transfer ends.
   */
  function Round(b: nat): seq<Move> {
    [Dispatch(0), Request(b), Retest(0), Deliver, Elapse, Complete]
  }

  /** The states of a round over messages of size b, of which `load` fill the buffer but for `rest`. */
  function RoundState(b: nat, load: nat, rest: nat, buffer: nat, j: nat): State
    requires 2 <= load && j <= 6
  {
    var few, many := Copies(b, load - 2), Copies(b, load - 1);
    if j == 1 then State(buffer, Sending(b), few, [b], [], rest + b, false)
    else if j == 2 then State(buffer, Sending(b), many, [b], [], rest, true)
    else if j == 3 then State(buffer, Sending(b), many, [], [b], rest, true)
    else if j == 4 then State(buffer, Sending(b), many, [], [b], rest, false)
    else if j == 5 then State(buffer, Ending(b), many, [], [b], rest, false)
    else State(buffer, Top, many, [], [b], rest + b, false)
  }

  /** Each move of a round is possible, and the test of the blocked sender is refused. */
  lemma RoundStep(b: nat, load: nat, rest: nat, buffer: nat, j: nat)
    requires 2 <= load && rest < b && j < 6
    ensures var s := RoundState(b, load, rest, buffer, j);
            && Enabled(s, Round(b)[j], false)
            && After(s, Round(b)[j], false) == RoundState(b, load, rest, buffer, j + 1)
            && s.woken + s.blocked == [b]
  {
    var s := RoundState(b, load, rest, buffer, j);
    if j == 0 {
      assert Remove(Copies(b, load - 1), 0) == Copies(b, load - 2);
      assert s.woken + s.blocked == [b];
    } else if j == 1 {
      assert Copies(b, load - 2) + [b] == Copies(b, load - 1);
    } else if j == 2 {
      assert Remove([b], 0) == [];
      assert [] + [b] == [b];
    }
  }

  lemma {:induction false} LeadsAppend(s: State, ms: seq<Move>, p: State, m: Move, instant: bool)
    requires Leads(s, ms, p, instant) && Enabled(p, m, instant)
    ensures Leads(s, ms + [m], After(p, m, instant), instant)
    decreases |ms|
  {
    if ms == [] {
      assert (ms + [m])[1..] == [];
    } else {
      LeadsAppend(After(s, ms[0], instant), ms[1..], p, m, instant);
      assert (ms + [m])[1..] == ms[1..] + [m];
    }
  }

  /** A round leads back to where it began. */
  lemma {:induction false} RoundReturns(b: nat, load: nat, rest: nat, buffer: nat, j: nat)
    requires 2 <= load && rest < b && j <= 6
    ensures Leads(RoundState(b, load, rest, buffer, 0), Round(b)[..j], RoundState(b, load, rest, buffer, j), false)
  {
    if j == 0 {
      assert Round(b)[..0] == [];
    } else {
      RoundReturns(b, load, rest, buffer, j - 1);
      RoundStep(b, load, rest, buffer, j - 1);
      LeadsAppend(RoundState(b, load, rest, buffer, 0), Round(b)[..j - 1], RoundState(b, load, rest, buffer, j - 1),
                  Round(b)[j - 1], false);
      assert Round(b)[..j - 1] + [Round(b)[j - 1]] == Round(b)[..j];
    }
  }

  lemma FillRoom(b: nat, buffer: nat, n: nat)
    requires 0 < b && n < Load(b, buffer)
    ensures n * b + b <= buffer && (n + 1) * b == n * b + b
  {
    var q := buffer / b;
    assert q * b <= buffer;
    Scale(n + 1, q, b);
    assert (n + 1) * b == n * b + b;
  }

  lemma Scale(a: nat, c: nat, b: nat)
    requires a <= c
    ensures a * b <= c * b
  {
  }

  /** n accepted messages before the interface wakes up. */
  lemma {:induction false} Filled(b: nat, buffer: nat, n: nat) returns (ms: seq<Move>)
    requires 0 < b && n <= Load(b, buffer) && n * b <= buffer
    ensures Reachable(State(buffer, AwaitRequest, Copies(b, n), [], [], buffer - n * b, 0 < n), ms, buffer, false)
    ensures SizesIn(ms, {b})
  {
    if n == 0 {
      ms := [];
      assert Copies(b, 0) == [];
    } else {
      FillRoom(b, buffer, n - 1);
      ms := Filled(b, buffer, n - 1);
      var s := State(buffer, AwaitRequest, Copies(b, n - 1), [], [], buffer - (n - 1) * b, 0 < n - 1);
      Extend(s, ms, Request(b), buffer, false);
      assert Copies(b, n - 1) + [b] == Copies(b, n);
      ms := ms + [Request(b)];
    }
  }

  lemma Division(b: nat, buffer: nat)
    requires 0 < b && b + b <= buffer
    ensures 2 <= Load(b, buffer) && Rest(b, buffer) < b
    ensures Load(b, buffer) * b + Rest(b, buffer) == buffer
  {
    var q := buffer / b;
    assert q * b + buffer % b == buffer;
    if q <= 1 {
      Scale(q, 1, b);
    }
  }

  /** From the full buffer with one sender blocked, a dispatch, and the sender tests the room in vain. */
  lemma {:induction false} FirstDispatch(b: nat, load: nat, rest: nat, buffer: nat, ms: seq<Move>)
    returns (all: seq<Move>)
    requires 2 <= load && rest < b && SizesIn(ms, {b})
    requires Reachable(State(buffer, Top, Copies(b, load), [], [b], rest, false), ms, buffer, false)
    ensures Reachable(State(buffer, Sending(b), Copies(b, load - 1), [], [b], rest, false), all, buffer, false)
    ensures SizesIn(all, {b})
  {
    var s := State(buffer, Top, Copies(b, load), [], [b], rest, false);
    assert Remove(Copies(b, load), 0) == Copies(b, load - 1);
    assert [] + [b] == [b] && Remove([b], 0) == [];
    Extend(s, ms, Dispatch(0), buffer, false);
    Extend(After(s, Dispatch(0), false), ms + [Dispatch(0)], Retest(0), buffer, false);
    all := ms + [Dispatch(0)] + [Retest(0)];
  }

  /** The transfer ends, and a round can begin. */
  lemma {:induction false} FirstTransfer(b: nat, load: nat, rest: nat, buffer: nat, ms: seq<Move>)
    returns (all: seq<Move>)
    requires 2 <= load && rest < b && SizesIn(ms, {b})
    requires Reachable(State(buffer, Sending(b), Copies(b, load - 1), [], [b], rest, false), ms, buffer, false)
    ensures Reachable(RoundState(b, load, rest, buffer, 0), all, buffer, false) && SizesIn(all, {b})
  {
    var s := State(buffer, Sending(b), Copies(b, load - 1), [], [b], rest, false);
    Extend(s, ms, Elapse, buffer, false);
    Extend(After(s, Elapse, false), ms + [Elapse], Complete, buffer, false);
    all := ms + [Elapse] + [Complete];
  }

  /** The full buffer: one more sender blocks, and the interface wakes up. */
  lemma Crowded(b: nat, buffer: nat) returns (ms: seq<Move>)
    requires 0 < b && b + b <= buffer
    ensures Reachable(State(buffer, Top, Copies(b, Load(b, buffer)), [], [b], Rest(b, buffer), false), ms,
                      buffer, false)
    ensures SizesIn(ms, {b})
  {
    var load, rest := Load(b, buffer), Rest(b, buffer);
    Division(b, buffer);
    ms := Filled(b, buffer, load);
    var s := State(buffer, AwaitRequest, Copies(b, load), [], [], rest, true);
    Extend(s, ms, Request(b), buffer, false);
    s, ms := After(s, Request(b), false), ms + [Request(b)];
    Extend(s, ms, Deliver, buffer, false);
    s, ms := After(s, Deliver, false), ms + [Deliver];
  }

  /**
   Overtaking: for every positive size of which two fit, a state is reachable from
   which a round leads back to it, a newer message being accepted and the blocked
   sender refused each time.
   */
  lemma Overtaken(b: nat, buffer: nat) returns (s: State, ms: seq<Move>)
    requires 0 < b && b + b <= buffer
    ensures Reachable(s, ms, buffer, false) && SizesIn(ms, {b}) && s.blocked == [b]
    ensures Leads(s, Round(b), s, false) && NoneAdmitted(s, Round(b))
  {
    var load, rest := Load(b, buffer), Rest(b, buffer);
    Division(b, buffer);
    s := RoundState(b, load, rest, buffer, 0);
    ms := Crowded(b, buffer);
    ms := FirstDispatch(b, load, rest, buffer, ms);
    ms := FirstTransfer(b, load, rest, buffer, ms);
    RoundReturns(b, load, rest, buffer, 6);
    assert Round(b)[..6] == Round(b);
    RoundAdmitsNone(b, load, rest, buffer, 0);
    assert Round(b)[0..] == Round(b);
  }

  /** No sender that tests the room again is admitted along the moves. */
  predicate NoneAdmitted(s: State, ms: seq<Move>)
    decreases |ms|
  {
    if ms == [] || !Enabled(s, ms[0], false) then true
    else
      var s' := After(s, ms[0], false);
      (ms[0].Retest? ==> s'.queue == s.queue) && NoneAdmitted(s', ms[1..])
  }

  lemma {:induction false} RoundAdmitsNone(b: nat, load: nat, rest: nat, buffer: nat, j: nat)
    requires 2 <= load && rest < b && j <= 6
    ensures NoneAdmitted(RoundState(b, load, rest, buffer, j), Round(b)[j..])
    decreases 6 - j
  {
    if j == 6 {
      assert Round(b)[6..] == [];
    } else {
      RoundStep(b, load, rest, buffer, j);
      RoundAdmitsNone(b, load, rest, buffer, j + 1);
      assert Round(b)[j..][1..] == Round(b)[j + 1..];
    }
  }

  /** From s only a new request can happen, or moves that admit no waiting sender lead back to s. */
  ghost predicate KeepsWaiting(s: State, loop: seq<Move>) {
    Stuck(s, false) || (loop != [] && Leads(s, loop, s, false) && NoneAdmitted(s, loop))
  }

  /** A blocked sender can be kept waiting for ever. */
  ghost predicate KeptWaiting(z: set<nat>, buffer: nat) {
    exists s: State, ms: seq<Move>, loop: seq<Move> ::
      && Reachable(s, ms, buffer, false) && SizesIn(ms, z) && SizesIn(loop, z)
      && s.blocked != [] && KeepsWaiting(s, loop)
  }

  lemma RoundKeepsWaiting(b: nat, buffer: nat) returns (s: State, ms: seq<Move>, loop: seq<Move>)
    requires 0 < b && b + b <= buffer
    ensures Reachable(s, ms, buffer, false) && SizesIn(ms, {b}) && SizesIn(loop, {b})
    ensures s.blocked == [b] && KeepsWaiting(s, loop)
  {
    s, ms := Overtaken(b, buffer);
    loop := Round(b);
  }

  /** Every positive size keeps a sender waiting: overtaken, stranded beside another message, or too large. */
  lemma PositiveKeepsWaiting(b: nat, buffer: nat) returns (s: State, ms: seq<Move>, loop: seq<Move>)
    requires 0 < b
    ensures Reachable(s, ms, buffer, false) && SizesIn(ms, {b}) && SizesIn(loop, {b})
    ensures s.blocked == [b] && KeepsWaiting(s, loop)
  {
    loop := [];
    if b + b <= buffer {
      s, ms, loop := RoundKeepsWaiting(b, buffer);
    } else if buffer < b {
      s, ms := OversizeStrands(b, buffer);
    } else {
      s, ms := PairStrands(b, b, buffer);
      assert {b, b} == {b};
    }
  }

  lemma {:induction false} EmptyNeverBlocks(s: State, ms: seq<Move>, z: set<nat>, buffer: nat)
    requires Reachable(s, ms, buffer, false) && SizesIn(ms, z) && forall b :: b in z ==> b == 0
    ensures s.blocked == [] && s.woken == []
    decreases |ms|
  {
    if ms == [] {
    } else {
      var front, last := ms[..|ms| - 1], ms[|ms| - 1];
      var p: State :| Reachable(p, front, buffer, false) && Enabled(p, last, false) && s == After(p, last, false);
      EmptyNeverBlocks(p, front, z, buffer);
    }
  }

  lemma SizesInMore(ms: seq<Move>, b: nat, z: set<nat>)
    requires SizesIn(ms, {b}) && b in z
    ensures SizesIn(ms, z)
  {
  }

  /** Whatever the buffer, a sender can be kept waiting for ever if and only if some message has a positive size. */
  lemma WaitingExactly(z: set<nat>, buffer: nat)
    ensures KeptWaiting(z, buffer) <==> exists b :: b in z && 0 < b
  {
    if b :| b in z && 0 < b {
      var s, ms, loop := PositiveKeepsWaiting(b, buffer);
      SizesInMore(ms, b, z);
      SizesInMore(loop, b, z);
    } else if KeptWaiting(z, buffer) {
      var s: State, ms: seq<Move>, loop: seq<Move> :|
        && Reachable(s, ms, buffer, false) && SizesIn(ms, z) && SizesIn(loop, z)
        && s.blocked != [] && KeepsWaiting(s, loop);
      EmptyNeverBlocks(s, ms, z, buffer);
    }
  }

  // Examples -----------------------------------------------------------------------------------

  /** Two messages of size 3 through a buffer of 4: the second sender stays blocked before an empty buffer. */
  lemma LostWakeUp() returns (ms: seq<Move>)
    ensures SizesIn(ms, {3})
    ensures Reachable(State(4, AwaitRequest, [], [], [3], 4, false), ms, 4, false)
    ensures Stuck(State(4, AwaitRequest, [], [], [3], 4, false), false)
  {
    var s;
    s, ms := PairStrands(3, 3, 4);
    assert {3, 3} == {3};
  }

  /**
   With transfers that take no time the condition is not enough: three messages of
   size 1 through a buffer of 2 can leave the third in the queue for good, its
   sender having tested the room after the interface went to sleep.
   */
  lemma InstantTransferForgotten() returns (s: State, ms: seq<Move>)
    ensures PairsFit({1}, 2) && SizesIn(ms, {1})
    ensures Reachable(s, ms, 2, true) && Stuck(s, true) && s.queue == [1] && s.phase == AwaitRequest
  {
    s, ms := SecondTravelling();
    Extend(s, ms, Complete, 2, true);
    s, ms := After(s, Complete, true), ms + [Complete];
    Extend(s, ms, Retest(0), 2, true);
    s, ms := After(s, Retest(0), true), ms + [Retest(0)];
  }

  /** The second message travels while the sender of the third is about to test the room again. */
  lemma SecondTravelling() returns (s: State, ms: seq<Move>)
    ensures SizesIn(ms, {1}) && Reachable(s, ms, 2, true)
    ensures s == State(2, Sending(1), [], [1], [], 1, false)
  {
    s, ms := TwoQueued();
    Extend(s, ms, Complete, 2, true);
    s, ms := After(s, Complete, true), ms + [Complete];
    assert Remove([1], 0) == [];
    Extend(s, ms, Dispatch(0), 2, true);
    s, ms := After(s, Dispatch(0), true), ms + [Dispatch(0)];
  }

  /** One message travelling, one queued and one blocked. */
  lemma TwoQueued() returns (s: State, ms: seq<Move>)
    ensures SizesIn(ms, {1}) && Reachable(s, ms, 2, true)
    ensures s == State(2, Ending(1), [1], [], [1], 0, false)
  {
    ms := Travelling(1, 2, true);
    s := State(2, Ending(1), [], [], [], 1, false);
    Extend(s, ms, Request(1), 2, true);
    s, ms := After(s, Request(1), true), ms + [Request(1)];
    Extend(s, ms, Request(1), 2, true);
    s, ms := After(s, Request(1), true), ms + [Request(1)];
    Extend(s, ms, Deliver, 2, true);
    s, ms := After(s, Deliver, true), ms + [Deliver];
  }
}
