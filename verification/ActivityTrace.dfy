/**
 The activity recorder of tikz_activity_trace.cpp: a sparse table of state
 changes per task that agrees with the full history at every recorded time
 stamp, and the horizontal positions at which the changes are drawn.
 */
module ActivityTrace {
  import opened Options
  import opened Arith

  type TaskState = char

  /** States of all tasks at an activation of the recorder. */
  datatype Sample = Sample(time: nat, states: seq<TaskState>)

  predicate Increasing(stamps: seq<nat>) {
    forall j, k :: 0 <= j < k < |stamps| ==> stamps[j] < stamps[k]
  }

  /** The history of n tasks: at least the first sample, with times that never decrease. */
  predicate History(hs: seq<Sample>, n: nat) {
    && hs != []
    && (forall k :: 0 <= k < |hs| ==> |hs[k].states| == n)
    && (forall j, k :: 0 <= j <= k < |hs| ==> hs[j].time <= hs[k].time)
  }

  /** Final state of task i at time t: that of the last sample not after t. */
  function Final(hs: seq<Sample>, n: nat, t: nat, i: nat): TaskState
    requires History(hs, n) && hs[0].time <= t && i < n
  {
    if |hs| == 1 || hs[|hs| - 1].time <= t then hs[|hs| - 1].states[i]
    else Final(hs[..|hs| - 1], n, t, i)
  }

  /** Key of the last table entry at or before t. */
  ghost predicate LastEntry(table: map<nat, TaskState>, t: nat, key: nat) {
    && key in table && key <= t
    && forall other :: other in table && other <= t ==> other <= key
  }

  /** Looking a recorded stamp up: the entry at the stamp or at the nearest stamp before it. */
  function EntryAt(stamps: seq<nat>, table: map<nat, TaskState>, k: nat): Option<TaskState>
    requires k < |stamps|
  {
    if stamps[k] in table then Some(table[stamps[k]])
    else if k == 0 then None
    else EntryAt(stamps, table, k - 1)
  }

  predicate KeysRecorded(stamps: seq<nat>, table: map<nat, TaskState>) {
    forall key :: key in table ==> key in stamps
  }

  lemma {:induction false} LatestEntry(stamps: seq<nat>, table: map<nat, TaskState>, k: nat) returns (key: nat)
    requires Increasing(stamps) && KeysRecorded(stamps, table) && k < |stamps| && stamps[0] in table
    ensures LastEntry(table, stamps[k], key) && EntryAt(stamps, table, k) == Some(table[key])
  {
    if stamps[k] in table {
      key := stamps[k];
    } else {
      key := LatestEntry(stamps, table, k - 1);
      forall other | other in table && other <= stamps[k]
        ensures other <= key
      {
        var j :| 0 <= j < |stamps| && stamps[j] == other;
        assert j < k;
      }
    }
  }

  /** The table of task i agrees with the history at every stamp. */
  ghost predicate Agrees(stamps: seq<nat>, table: map<nat, TaskState>, hs: seq<Sample>, n: nat, i: nat) {
    && History(hs, n) && i < n && 0 < |stamps| && stamps[0] in table
    && KeysRecorded(stamps, table)
    && forall k :: 0 <= k < |stamps| ==>
         hs[0].time <= stamps[k] && EntryAt(stamps, table, k) == Some(Final(hs, n, stamps[k], i))
  }

  /** A sample after t does not change the final state at t; one at or before t sets it. */
  lemma FinalAppend(hs: seq<Sample>, s: Sample, n: nat, t: nat, i: nat)
    requires History(hs, n) && History(hs + [s], n) && |s.states| == n && hs[0].time <= t && i < n
    ensures Final(hs + [s], n, t, i) == if s.time <= t then s.states[i] else Final(hs, n, t, i)
  {
    assert (hs + [s])[..|hs|] == hs;
  }

  /** Entries added at or after stamp k + 1 do not affect lookups up to k. */
  lemma {:induction false} EntryUnaffected(stamps: seq<nat>, stamps': seq<nat>, table: map<nat, TaskState>,
                                           t: nat, st: TaskState, k: nat)
    requires k < |stamps| && stamps <= stamps' && forall j :: 0 <= j <= k ==> stamps[j] < t
    ensures EntryAt(stamps', table[t := st], k) == EntryAt(stamps, table, k)
    ensures EntryAt(stamps', table, k) == EntryAt(stamps, table, k)
  {
    if k == 0 {
    } else {
      EntryUnaffected(stamps, stamps', table, t, st, k - 1);
    }
  }

  /** The table of one task after an activation at time s.time. */
  function Recorded(table: map<nat, TaskState>, s: Sample, event: bool, i: nat): map<nat, TaskState>
    requires i < |s.states|
  {
    if event then table[s.time := s.states[i]] else table
  }

  /** An activation at the last stamp overwrites the entry of that stamp. */
  lemma AgreesAtLast(stamps: seq<nat>, table: map<nat, TaskState>, hs: seq<Sample>,
                     n: nat, s: Sample, event: bool, i: nat)
    requires |s.states| == n && Increasing(stamps) && Agrees(stamps, table, hs, n, i) && History(hs + [s], n)
    requires s.time == stamps[|stamps| - 1] && hs[|hs| - 1].time == s.time
    requires !event ==> s.states[i] == hs[|hs| - 1].states[i]
    ensures Agrees(stamps, Recorded(table, s, event, i), hs + [s], n, i)
  {
    var table' := Recorded(table, s, event, i);
    forall k | 0 <= k < |stamps|
      ensures EntryAt(stamps, table', k) == Some(Final(hs + [s], n, stamps[k], i))
    {
      FinalAppend(hs, s, n, stamps[k], i);
      if k < |stamps| - 1 {
        EntryUnaffected(stamps, stamps, table, s.time, s.states[i], k);
      }
    }
  }

  /** An activation at a new stamp. */
  lemma AgreesAtNew(stamps: seq<nat>, table: map<nat, TaskState>, hs: seq<Sample>,
                    n: nat, s: Sample, event: bool, i: nat)
    requires |s.states| == n && Increasing(stamps) && Agrees(stamps, table, hs, n, i) && History(hs + [s], n)
    requires stamps[|stamps| - 1] < s.time && hs[|hs| - 1].time == stamps[|stamps| - 1]
    requires !event ==> s.states[i] == hs[|hs| - 1].states[i]
    ensures Agrees(stamps + [s.time], Recorded(table, s, event, i), hs + [s], n, i)
  {
    var table', stamps', last := Recorded(table, s, event, i), stamps + [s.time], |stamps| - 1;
    forall k | 0 <= k < |stamps'|
      ensures hs[0].time <= stamps'[k]
      ensures EntryAt(stamps', table', k) == Some(Final(hs + [s], n, stamps'[k], i))
    {
      if k < |stamps| {
        FinalAppend(hs, s, n, stamps[k], i);
        EntryUnaffected(stamps, stamps', table, s.time, s.states[i], k);
      } else {
        FinalAppend(hs, s, n, s.time, i);
        EntryUnaffected(stamps, stamps', table, s.time, s.states[i], last);
        assert Final(hs, n, stamps[last], i) == hs[|hs| - 1].states[i];
        assert s.time !in table;
      }
    }
    assert stamps'[0] == stamps[0];
    forall key | key in table'
      ensures key in stamps'
    {
      if key == s.time {
        assert stamps'[|stamps|] == key;
      }
    }
  }

  ghost predicate AllAgree(stamps: seq<nat>, tables: seq<map<nat, TaskState>>, hs: seq<Sample>, n: nat) {
    |tables| == n && forall i :: 0 <= i < n ==> Agrees(stamps, tables[i], hs, n, i)
  }

  /** An activation keeps every table in agreement, whether or not it adds a stamp. */
  lemma AllAgreeNext(stamps: seq<nat>, stamps': seq<nat>, tables: seq<map<nat, TaskState>>,
                     tables': seq<map<nat, TaskState>>, hs: seq<Sample>, n: nat, s: Sample, events: seq<bool>)
    requires Increasing(stamps) && 0 < |stamps| && AllAgree(stamps, tables, hs, n)
    requires History(hs, n) && History(hs + [s], n) && hs[|hs| - 1].time == stamps[|stamps| - 1]
    requires |s.states| == |events| == |tables'| == n
    requires forall i :: 0 <= i < n && !events[i] ==> s.states[i] == hs[|hs| - 1].states[i]
    requires forall i :: 0 <= i < n ==> tables'[i] == Recorded(tables[i], s, events[i], i)
    requires stamps' == if s.time == stamps[|stamps| - 1] then stamps else stamps + [s.time]
    requires stamps[|stamps| - 1] <= s.time
    ensures AllAgree(stamps', tables', hs + [s], n)
  {
    forall i | 0 <= i < n
      ensures Agrees(stamps', tables'[i], hs + [s], n, i)
    {
      if s.time == stamps[|stamps| - 1] {
        AgreesAtLast(stamps, tables[i], hs, n, s, events[i], i);
      } else {
        AgreesAtNew(stamps, tables[i], hs, n, s, events[i], i);
      }
    }
  }

  /** time_stamps_index inverts time_stamps. */
  predicate Inverts(index: map<nat, nat>, stamps: seq<nat>) {
    && (forall k :: 0 <= k < |stamps| ==> stamps[k] in index && index[stamps[k]] == k)
    && (forall t :: t in index ==> index[t] < |stamps| && stamps[index[t]] == t)
  }

  lemma AppendHistory(hs: seq<Sample>, s: Sample, n: nat)
    requires History(hs, n) && |s.states| == n && hs[|hs| - 1].time <= s.time
    ensures History(hs + [s], n)
  {
  }

  lemma AppendStamp(stamps: seq<nat>, index: map<nat, nat>, t: nat)
    requires Increasing(stamps) && Inverts(index, stamps) && 0 < |stamps| && stamps[|stamps| - 1] < t
    ensures Increasing(stamps + [t]) && Inverts(index[t := |stamps|], stamps + [t])
  {
    assert forall k :: 0 <= k < |stamps| ==> stamps[k] < t;
  }

  class Recorder {
    const limit: nat
    const n: nat
    var stamps: seq<nat>
    var index: map<nat, nat>
    var tables: seq<map<nat, TaskState>>
    var finished: bool
    /** Every activation until the collection ended. */
    ghost var history: seq<Sample>

    ghost predicate Valid()
      reads this
    {
      && 0 < |stamps| && (|stamps| <= limit || |stamps| == 1)
      && Increasing(stamps) && Inverts(index, stamps)
      && History(history, n) && history[|history| - 1].time == stamps[|stamps| - 1]
      && AllAgree(stamps, tables, history, n)
    }

    /** Start of the collection: the states at the configured start time are dumped. */
    constructor (limit: nat, start: Sample)
      ensures Valid() && this.limit == limit && n == |start.states| && !finished
      ensures history == [start] && stamps == [start.time]
    {
      this.limit, n := limit, |start.states|;
      stamps, index, finished, history := [start.time], map[start.time := 0], false, [start];
      tables := seq(|start.states|, i requires 0 <= i < |start.states| => map[start.time := start.states[i]]);
    }

    /** The state changes of an activation are entered in the tables. */
    method RecordEvents(s: Sample, events: seq<bool>)
      requires |tables| == |s.states| == |events|
      modifies this`tables
      ensures |tables| == |events|
      ensures forall k :: 0 <= k < |tables| ==> tables[k] == Recorded(old(tables)[k], s, events[k], k)
    {
      ghost var before := tables;
      var i := 0;
      while i < |events|
        invariant i <= |events| == |tables|
        invariant forall k :: 0 <= k < i ==> tables[k] == Recorded(before[k], s, events[k], k)
        invariant forall k :: i <= k < |events| ==> tables[k] == before[k]
      {
        if events[i] {
          var table: map<nat, TaskState> := tables[i][s.time := s.states[i]];
          tables := tables[i := table];
        }
        i := i + 1;
      }
    }

    /**
     One activation, caused by a change of at least one of the observed states:
     events[i] tells whether the state of task i changed. The collection ends
     when a further stamp would exceed the limit.
     */
    method Activate(s: Sample, events: seq<bool>)
      requires Valid() && |s.states| == |events| == n && history[|history| - 1].time <= s.time
      requires forall i :: 0 <= i < n && !events[i] ==> s.states[i] == history[|history| - 1].states[i]
      modifies this`stamps, this`index, this`tables, this`finished, this`history
      ensures Valid()
      ensures finished <==> old(finished) || (s.time > old(stamps)[|old(stamps)| - 1] && |old(stamps)| >= limit)
      ensures history == if finished then old(history) else old(history) + [s]
      ensures old(stamps) <= stamps <= old(stamps) + [s.time]
    {
      if finished {
        return;
      }
      if s.time > stamps[|stamps| - 1] && |stamps| >= limit {
        finished := true;
      } else {
        Record(s, events);
      }
    }

    /** An activation at the last stamp, or at a new one for which there is room. */
    method Record(s: Sample, events: seq<bool>)
      requires Valid() && |s.states| == |events| == n && stamps[|stamps| - 1] <= s.time
      requires forall i :: 0 <= i < n && !events[i] ==> s.states[i] == history[|history| - 1].states[i]
      requires s.time == stamps[|stamps| - 1] || |stamps| < limit
      modifies this`stamps, this`index, this`tables, this`history
      ensures Valid() && history == old(history) + [s]
      ensures old(stamps) <= stamps <= old(stamps) + [s.time]
    {
      ghost var before, stampsBefore := tables, stamps;
      if s.time > stamps[|stamps| - 1] {
        AppendStamp(stamps, index, s.time);
        index := index[s.time := |stamps|];
        stamps := stamps + [s.time];
      }
      RecordEvents(s, events);
      AppendHistory(history, s, n);
      AllAgreeNext(stampsBefore, stamps, before, tables, history, n, s, events);
      history := history + [s];
    }

    /** The recorded data reproduce the history: the last entry at or before any stamp is the final state there. */
    lemma TraceAgrees(k: nat, i: nat) returns (key: nat)
      requires Valid() && k < |stamps| && i < |tables|
      ensures LastEntry(tables[i], stamps[k], key) && tables[i][key] == Final(history, n, stamps[k], i)
    {
      assert Agrees(stamps, tables[i], history, n, i);
      key := LatestEntry(stamps, tables[i], k);
    }
  }

  // Horizontal positions ---------------------------------------------------------------------

  /**
   span_time_gap: the largest gap divided by the separation. The quotient is a time,
   rounded to the nearest whole unit, halves up.
   */
  function TimeUnit(largest: nat, separation: nat): nat
    requires 0 < separation
  {
    (2 * largest + separation) / (2 * separation)
  }

  /** Distance drawn for a gap: the time units in it, rounded down, plus one, and capped. */
  function Span(gap: nat, unit: nat, separation: nat): nat
    requires 0 < unit
  {
    var s := gap / unit + 1;
    if s > separation then separation else s
  }

  /** The unit is a nearest one to the exact quotient, and 0 exactly if the separation exceeds twice the largest gap. */
  lemma UnitNearest(largest: nat, separation: nat)
    requires 0 < separation
    ensures var scaled := TimeUnit(largest, separation) * (2 * separation);
            scaled <= 2 * largest + separation < scaled + 2 * separation
    ensures TimeUnit(largest, separation) == 0 <==> 2 * largest < separation
  {
    var u := TimeUnit(largest, separation);
    DivBounds(2 * largest + separation, 2 * separation);
    AddOne(u, 2 * separation);
    if 0 < u {
      MulMono(1, u, 2 * separation);
    }
  }

  /** Spans lie between 1 and the separation and grow with the gap. */
  lemma SpanBounds(gap: nat, gap': nat, unit: nat, separation: nat)
    requires 0 < separation && gap <= gap' && 0 < unit
    ensures 1 <= Span(gap, unit, separation) <= Span(gap', unit, separation) <= separation
  {
    DivMono(0, gap, unit);
    DivMono(gap, gap', unit);
    DivUnique(0, unit, 0);
  }

  /** s units are the fewest that exceed the gap, or the separation if the gap holds all but one of that many. */
  predicate FewestUnits(s: nat, gap: nat, unit: nat, separation: nat)
    requires 0 < unit
  {
    1 <= s <= separation && (s - 1) * unit <= gap && (s < separation ==> gap < s * unit)
  }

  /** A gap is drawn with the fewest units that exceed it, up to the separation, and with no other number. */
  lemma SpanExact(gap: nat, unit: nat, separation: nat, s: nat)
    requires 0 < separation && 0 < unit
    ensures s == Span(gap, unit, separation) <==> FewestUnits(s, gap, unit, separation)
  {
    var q := gap / unit;
    DivBounds(gap, unit);
    AddOne(q, unit);
    SpanBounds(gap, gap, unit, separation);
    if separation < q + 1 {
      MulMono(separation - 1, q, unit);
    }
    if FewestUnits(s, gap, unit, separation) {
      if q + 1 < s {
        MulMono(q + 1, s - 1, unit);
      } else if s < separation && s < q + 1 {
        MulMono(s, q, unit);
      }
    }
  }

  /** A gap is drawn with the whole separation if and only if it holds all but one of that many units. */
  lemma WholeSeparation(gap: nat, unit: nat, separation: nat)
    requires 0 < separation && 0 < unit
    ensures Span(gap, unit, separation) == separation <==> (separation - 1) * unit <= gap
  {
    var q := gap / unit;
    DivBounds(gap, unit);
    AddOne(q, unit);
    if separation - 1 <= q {
      MulMono(separation - 1, q, unit);
    } else {
      MulMono(q + 1, separation - 1, unit);
    }
  }

  /** So is the largest gap, in particular, whenever the unit was not rounded up. */
  lemma LargestWhole(largest: nat, separation: nat)
    requires 0 < separation && 0 < TimeUnit(largest, separation)
    requires TimeUnit(largest, separation) * separation <= largest
    ensures Span(largest, TimeUnit(largest, separation), separation) == separation
  {
    var u := TimeUnit(largest, separation);
    WholeSeparation(largest, u, separation);
    AddOne(separation - 1, u);
    assert separation * u == u * separation;
  }

  /** A largest gap of 15 at a separation of 10 is drawn with 8, its unit being rounded up to 2. */
  lemma LargestFallsShort()
    ensures TimeUnit(15, 10) == 2 && Span(15, TimeUnit(15, 10), 10) == 8
  {
  }

  /** Gap k lies between stamps k and k + 1. */
  function Gap(stamps: seq<nat>, k: nat): nat
    requires Increasing(stamps) && k + 1 < |stamps|
  {
    stamps[k + 1] - stamps[k]
  }

  ghost predicate IsLargest(stamps: seq<nat>, largest: nat)
    requires Increasing(stamps)
  {
    && (exists k :: 0 <= k < |stamps| - 1 && Gap(stamps, k) == largest)
    && (forall k :: 0 <= k < |stamps| - 1 ==> Gap(stamps, k) <= largest)
  }

  /** The spans of the first n gaps. */
  function SpansOf(stamps: seq<nat>, unit: nat, separation: nat, n: nat): (spans: seq<nat>)
    requires Increasing(stamps) && 0 < unit && n < |stamps|
    ensures |spans| == n
  {
    if n == 0 then []
    else SpansOf(stamps, unit, separation, n - 1) + [Span(Gap(stamps, n - 1), unit, separation)]
  }

  /** Gap k holds all but one of as many units as the separation. */
  predicate FillsSeparation(stamps: seq<nat>, unit: nat, separation: nat, k: nat)
    requires Increasing(stamps) && k + 1 < |stamps|
  {
    (separation - 1) * unit <= Gap(stamps, k)
  }

  /** All spans are between 1 and the separation, which exactly the gaps that fill it get. */
  lemma {:induction false} SpansWithin(stamps: seq<nat>, unit: nat, separation: nat, n: nat)
    requires Increasing(stamps) && 0 < unit && n < |stamps| && 0 < separation
    ensures forall k :: 0 <= k < n ==> 1 <= SpansOf(stamps, unit, separation, n)[k] <= separation
    ensures forall k :: 0 <= k < n ==>
              (SpansOf(stamps, unit, separation, n)[k] == separation <==> FillsSeparation(stamps, unit, separation, k))
  {
    if n == 0 {
    } else {
      SpansWithin(stamps, unit, separation, n - 1);
      SpanBounds(Gap(stamps, n - 1), Gap(stamps, n - 1), unit, separation);
      WholeSeparation(Gap(stamps, n - 1), unit, separation);
    }
  }

  /** The span vector added up between two stamp indices. */
  function SumSpans(spans: seq<nat>, from: nat, to: nat): nat
    requires from <= to <= |spans|
  {
    if from == to then 0 else SumSpans(spans, from, to - 1) + spans[to - 1]
  }

  ghost predicate Located(spans: seq<nat>, x: seq<nat>) {
    && |x| == |spans| + 1 && x[0] == 0
    && forall k :: 0 <= k < |spans| ==> x[k + 1] == x[k] + spans[k]
  }

  lemma LocatedNext(spans: seq<nat>, x: seq<nat>, span: nat)
    requires Located(spans, x)
    ensures Located(spans + [span], x + [x[|x| - 1] + span])
  {
  }

  method LargestGap(stamps: seq<nat>) returns (maxGap: nat)
    requires Increasing(stamps) && 2 <= |stamps|
    ensures IsLargest(stamps, maxGap) && 0 < maxGap
  {
    maxGap := stamps[1] - stamps[0];
    assert Gap(stamps, 0) == maxGap;
    for i := 2 to |stamps|
      invariant exists k :: 0 <= k < i - 1 && Gap(stamps, k) == maxGap
      invariant forall k :: 0 <= k < i - 1 ==> Gap(stamps, k) <= maxGap
    {
      var gap := stamps[i] - stamps[i - 1];
      assert gap == Gap(stamps, i - 1);
      if gap > maxGap {
        maxGap := gap;
      }
    }
  }

  /**
   Spans and positions. With fewer than two stamps an error is reported; when the
   unit rounds to 0, a division by it follows and no span is defined.
   */
  datatype Locations = TooFewStamps | NoTimeUnit | Locations(unit: nat, spans: seq<nat>, x: seq<nat>)

  /** The computation at the end of the simulation. */
  method ComputeLocations(stamps: seq<nat>, separation: nat) returns (r: Locations, ghost largest: nat)
    requires Increasing(stamps) && 0 < separation
    ensures r.TooFewStamps? <==> |stamps| < 2
    ensures 2 <= |stamps| ==> IsLargest(stamps, largest) && 0 < largest
    ensures r.NoTimeUnit? <==> 2 <= |stamps| && 2 * largest < separation
    ensures r.Locations? ==>
              && 0 < r.unit == TimeUnit(largest, separation)
              && r.spans == SpansOf(stamps, r.unit, separation, |stamps| - 1)
              && Located(r.spans, r.x)
  {
    if |stamps| < 2 {
      return TooFewStamps, 0;
    }
    var maxGap := LargestGap(stamps);
    largest := maxGap;
    var unit := (2 * maxGap + separation) / (2 * separation);
    UnitNearest(maxGap, separation);
    if unit == 0 {
      return NoTimeUnit, largest;
    }
    var spans, x := PlaceStamps(stamps, unit, separation);
    return Locations(unit, spans, x), largest;
  }

  /** The loop over the gaps that fills the span and the position vectors. */
  method PlaceStamps(stamps: seq<nat>, unit: nat, separation: nat) returns (spans: seq<nat>, x: seq<nat>)
    requires Increasing(stamps) && 2 <= |stamps| && 0 < unit
    ensures spans == SpansOf(stamps, unit, separation, |stamps| - 1) && Located(spans, x)
  {
    spans, x := [], [0];
    for i := 1 to |stamps|
      invariant spans == SpansOf(stamps, unit, separation, i - 1) && Located(spans, x)
    {
      var gap := stamps[i] - stamps[i - 1];
      var span := gap / unit + 1;
      if span > separation {
        span := separation;
      }
      assert span == Span(Gap(stamps, i - 1), unit, separation);
      LocatedNext(spans, x, span);
      spans := spans + [span];
      x := x + [x[|x| - 1] + span];
    }
  }

  /** The difference of two positions is the sum of the spans between them. */
  lemma {:induction false} SpanIsDifference(spans: seq<nat>, x: seq<nat>, from: nat, to: nat)
    requires Located(spans, x) && from <= to <= |spans|
    ensures x[from] + SumSpans(spans, from, to) == x[to]
  {
    if from == to {
    } else {
      SpanIsDifference(spans, x, from, to - 1);
    }
  }

  method GetSpan(spans: seq<nat>, x: seq<nat>, current: nat, next: nat) returns (span: nat)
    requires Located(spans, x) && current <= next <= |spans|
    ensures span == SumSpans(spans, current, next)
  {
    SpanIsDifference(spans, x, current, next);
    span := x[next] - x[current];
  }

  function Sum(ds: seq<nat>): nat {
    if ds == [] then 0 else Sum(ds[..|ds| - 1]) + ds[|ds| - 1]
  }

  /**
   The path of a task: one relative move per entry of its table after the first,
   and one more to the last stamp. The k-th move ends at the position of the
   k-th entry, and the whole path at the last position.
   */
  method WriteActivityPath(keys: seq<nat>, stamps: seq<nat>, index: map<nat, nat>, spans: seq<nat>, x: seq<nat>)
    returns (moves: seq<nat>)
    requires Increasing(stamps) && Inverts(index, stamps) && Increasing(keys)
    requires 0 < |stamps| == |x| && Located(spans, x)
    requires 0 < |keys| && keys[0] == stamps[0] && forall k :: 0 <= k < |keys| ==> keys[k] in index
    ensures Sum(moves) == x[|x| - 1]
    ensures |moves| == |keys| - (if keys[|keys| - 1] == stamps[|stamps| - 1] then 1 else 0)
    ensures Placed(moves, keys, index, x, |keys|)
  {
    moves := [];
    var evIndex := index[keys[0]];
    var i := 1;
    while i < |keys|
      invariant 1 <= i <= |keys| && |moves| == i - 1
      invariant evIndex == index[keys[i - 1]] && Placed(moves, keys, index, x, i)
    {
      var prevIndex := evIndex;
      evIndex := index[keys[i]];
      IndexMonotone(index, stamps, keys[i - 1], keys[i]);
      var span := GetSpan(spans, x, prevIndex, evIndex);
      SpanIsDifference(spans, x, prevIndex, evIndex);
      PlacedStep(moves, span, keys, index, x, i);
      moves := moves + [span];
      i := i + 1;
    }
    PlacedLast(moves, keys, index, x);
    if keys[|keys| - 1] != stamps[|stamps| - 1] {
      IndexLast(index, stamps, keys[|keys| - 1]);
      var span := GetSpan(spans, x, evIndex, |stamps| - 1);
      SpanIsDifference(spans, x, evIndex, |stamps| - 1);
      PlacedEnd(moves, span, keys, index, x);
      moves := moves + [span];
    }
  }

  /** The first i entries are drawn at the positions of their stamps. */
  ghost predicate Placed(moves: seq<nat>, keys: seq<nat>, index: map<nat, nat>, x: seq<nat>, i: nat) {
    && i <= |keys| && i <= |moves| + 1
    && forall k :: 0 <= k < i ==> keys[k] in index && index[keys[k]] < |x| && Sum(moves[..k]) == x[index[keys[k]]]
  }

  lemma SumAppend(moves: seq<nat>, span: nat)
    ensures Sum(moves + [span]) == Sum(moves) + span
  {
    assert (moves + [span])[..|moves|] == moves;
  }

  lemma PlacedStep(moves: seq<nat>, span: nat, keys: seq<nat>, index: map<nat, nat>, x: seq<nat>, i: nat)
    requires 0 < i < |keys| && |moves| == i - 1 && Placed(moves, keys, index, x, i)
    requires keys[i] in index && index[keys[i]] < |x| && x[index[keys[i - 1]]] + span == x[index[keys[i]]]
    ensures Placed(moves + [span], keys, index, x, i + 1)
  {
    SumAppend(moves, span);
    assert moves[..i - 1] == moves && (moves + [span])[..i] == moves + [span];
    assert forall k :: 0 <= k < i ==> (moves + [span])[..k] == moves[..k];
  }

  lemma PlacedLast(moves: seq<nat>, keys: seq<nat>, index: map<nat, nat>, x: seq<nat>)
    requires 0 < |keys| == |moves| + 1 && Placed(moves, keys, index, x, |keys|)
    ensures Sum(moves) == x[index[keys[|keys| - 1]]]
  {
    assert moves[..|keys| - 1] == moves;
  }

  lemma PlacedEnd(moves: seq<nat>, span: nat, keys: seq<nat>, index: map<nat, nat>, x: seq<nat>)
    requires 0 < |keys| == |moves| + 1 && Placed(moves, keys, index, x, |keys|)
    requires 0 < |x| && Sum(moves) + span == x[|x| - 1]
    ensures Placed(moves + [span], keys, index, x, |keys|) && Sum(moves + [span]) == x[|x| - 1]
  {
    SumAppend(moves, span);
    assert forall k :: 0 <= k < |keys| ==> (moves + [span])[..k] == moves[..k];
  }

  lemma IndexMonotone(index: map<nat, nat>, stamps: seq<nat>, s: nat, t: nat)
    requires Increasing(stamps) && Inverts(index, stamps) && s in index && t in index && s <= t
    ensures index[s] <= index[t]
  {
    assert stamps[index[s]] == s && stamps[index[t]] == t;
  }

  lemma IndexLast(index: map<nat, nat>, stamps: seq<nat>, s: nat)
    requires Increasing(stamps) && Inverts(index, stamps) && 0 < |stamps| && s in index
    ensures index[s] <= |stamps| - 1
  {
  }
}
