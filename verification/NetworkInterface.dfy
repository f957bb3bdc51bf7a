/**
 The network interface of a processing element: room accounting of its transmit
 buffer, the send queue keyed by request time, and the choice of the next
 transfer by the static communication schedule.
 */
module NetworkInterface {
  import opened Options

  /** Values of an unsigned int. */
  const WORD: nat := 0x1_0000_0000

  type Word = n: nat | n < WORD witness 0

  /** A send request: request_time, logic_link, message_size and the semaphore to post on completion. */
  datatype Request = Request(time: nat, link: nat, size: Word, semaphore: nat)

  // Send queue -----------------------------------------------------------------------

  predicate TimeOrdered(q: seq<Request>) {
    forall i, j :: 0 <= i <= j < |q| ==> q[i].time <= q[j].time
  }

  /** Insertion into the multimap: behind the requests with the same or an earlier time. */
  function Insert(q: seq<Request>, r: Request): seq<Request> {
    if q == [] then [r]
    else if q[|q| - 1].time <= r.time then q + [r]
    else Insert(q[..|q| - 1], r) + [q[|q| - 1]]
  }

  lemma {:induction false} InsertMembers(q: seq<Request>, r: Request)
    ensures multiset(Insert(q, r)) == multiset(q) + multiset{r}
    ensures forall x :: x in Insert(q, r) ==> x in q || x == r
  {
    if q == [] {
    } else if r.time < q[|q| - 1].time {
      assert q == q[..|q| - 1] + [q[|q| - 1]];
      InsertMembers(q[..|q| - 1], r);
    }
  }

  lemma {:induction false} InsertOrdered(q: seq<Request>, r: Request)
    requires TimeOrdered(q)
    ensures TimeOrdered(Insert(q, r))
  {
    if q != [] && r.time < q[|q| - 1].time {
      InsertOrdered(q[..|q| - 1], r);
      InsertMembers(q[..|q| - 1], r);
      var q' := Insert(q[..|q| - 1], r);
      forall i | 0 <= i < |q'|
        ensures q'[i].time <= q[|q| - 1].time
      {
        assert q'[i] in q[..|q| - 1] || q'[i] == r;
      }
    }
  }

  /** The requests made at time t, in queue order. */
  function AtTime(q: seq<Request>, t: nat): seq<Request> {
    if q == [] then []
    else AtTime(q[..|q| - 1], t) + (if q[|q| - 1].time == t then [q[|q| - 1]] else [])
  }

  lemma AtTimeLast(q: seq<Request>, r: Request, t: nat)
    ensures AtTime(q + [r], t) == AtTime(q, t) + (if r.time == t then [r] else [])
  {
    assert (q + [r])[..|q|] == q;
  }

  /** A new request goes behind the earlier requests of its own time and leaves the others in place. */
  lemma {:induction false} InsertStable(q: seq<Request>, r: Request, t: nat)
    requires TimeOrdered(q)
    ensures AtTime(Insert(q, r), t) == AtTime(q, t) + (if r.time == t then [r] else [])
  {
    if q == [] || q[|q| - 1].time <= r.time {
      AtTimeLast(q, r, t);
      assert q == [] ==> q + [r] == [r];
    } else {
      var front, last := q[..|q| - 1], q[|q| - 1];
      InsertStable(front, r, t);
      AtTimeLast(Insert(front, r), last, t);
      AtTimeSwap(AtTime(front, t), r, last, t);
    }
  }

  /** Requests of different times do not compete for a place among those of time t. */
  lemma AtTimeSwap(a: seq<Request>, r: Request, last: Request, t: nat)
    requires r.time != last.time
    ensures a + (if r.time == t then [r] else []) + (if last.time == t then [last] else []) ==
            a + (if last.time == t then [last] else []) + (if r.time == t then [r] else [])
  {
  }

  // Choice of the next transfer ---------------------------------------------------------

  /** First position of a link in the static communication schedule; its length if the link is not scheduled. */
  function Rank(schedule: seq<nat>, link: nat): nat {
    if schedule == [] then 0
    else
      var k := Rank(schedule[..|schedule| - 1], link);
      if k < |schedule| - 1 then k
      else if schedule[|schedule| - 1] == link then |schedule| - 1 else |schedule|
  }

  lemma {:induction false} RankIsFirst(schedule: seq<nat>, link: nat)
    ensures Rank(schedule, link) <= |schedule|
    ensures Rank(schedule, link) < |schedule| ==> schedule[Rank(schedule, link)] == link
    ensures forall j :: 0 <= j < Rank(schedule, link) ==> schedule[j] != link
  {
    if schedule == [] {
    } else {
      RankIsFirst(schedule[..|schedule| - 1], link);
    }
  }

  /** Order of transfer: by request time, then by schedule position. */
  predicate Before(schedule: seq<nat>, a: Request, b: Request) {
    a.time < b.time || (a.time == b.time && Rank(schedule, a.link) < Rank(schedule, b.link))
  }

  predicate SameKey(schedule: seq<nat>, a: Request, b: Request) {
    a.time == b.time && Rank(schedule, a.link) == Rank(schedule, b.link)
  }

  /** Request k is the first of least key. */
  predicate Foremost(q: seq<Request>, schedule: seq<nat>, k: nat) {
    && k < |q|
    && (forall j :: 0 <= j < |q| ==> !Before(schedule, q[j], q[k]))
    && (forall j :: 0 <= j < k ==> Before(schedule, q[k], q[j]))
  }

  predicate Unscheduled(schedule: seq<nat>, r: Request) {
    schedule != [] && Rank(schedule, r.link) == |schedule|
  }

  /** Two requests of the earliest time and none of that time in the schedule: nothing to dispatch. */
  predicate Unresolved(q: seq<Request>, schedule: seq<nat>) {
    && 1 < |q| && q[1].time == q[0].time
    && forall j :: 0 <= j < |q| && q[j].time == q[0].time ==> Unscheduled(schedule, q[j])
  }

  function Remove(q: seq<Request>, k: nat): seq<Request>
    requires k < |q|
  {
    q[..k] + q[k + 1..]
  }

  lemma RemoveMultiset(q: seq<Request>, k: nat)
    requires k < |q|
    ensures multiset(q) == multiset(Remove(q, k)) + multiset{q[k]}
  {
    assert q == q[..k] + [q[k]] + q[k + 1..];
  }

  // The interface ---------------------------------------------------------------------------

  function SumSizes(q: seq<Request>): nat {
    if q == [] then 0 else SumSizes(q[..|q| - 1]) + q[|q| - 1].size
  }

  lemma {:induction false} SumSizesConcat(p: seq<Request>, q: seq<Request>)
    ensures SumSizes(p + q) == SumSizes(p) + SumSizes(q)
  {
    if q == [] {
      assert p + q == p;
    } else {
      SumSizesConcat(p, q[..|q| - 1]);
      assert (p + q)[..|p + q| - 1] == p + q[..|q| - 1];
    }
  }

  lemma SumSizesOne(r: Request)
    ensures SumSizes([r]) == r.size
  {
    assert [r][..0] == [];
  }

  lemma {:induction false} SumSizesRemove(q: seq<Request>, k: nat)
    requires k < |q|
    ensures SumSizes(q) == SumSizes(Remove(q, k)) + q[k].size
  {
    var front := q[..|q| - 1];
    if k == |q| - 1 {
      assert Remove(q, k) == front;
    } else {
      SumSizesRemove(front, k);
      assert Remove(q, k)[..|q| - 2] == Remove(front, k);
    }
  }

  lemma {:induction false} SumSizesInsert(q: seq<Request>, r: Request)
    ensures SumSizes(Insert(q, r)) == SumSizes(q) + r.size
  {
    if q == [] {
      assert [r][..0] == [];
    } else if q[|q| - 1].time <= r.time {
      assert (q + [r])[..|q|] == q;
    } else {
      SumSizesInsert(q[..|q| - 1], r);
      var q' := Insert(q[..|q| - 1], r);
      assert (q' + [q[|q| - 1]])[..|q'|] == q';
    }
  }

  /** Unsigned subtraction and addition. */
  function Minus(a: Word, b: Word): Word { if b <= a then a - b else a + WORD - b }

  function Plus(a: Word, b: Word): Word { if a + b < WORD then a + b else a + b - WORD }

  /** Queued requests and the one in flight. */
  function Pending(q: seq<Request>, flight: Option<Request>): seq<Request> {
    if flight.Some? then q + [flight.value] else q
  }

  lemma PendingInsert(q: seq<Request>, flight: Option<Request>, r: Request)
    ensures SumSizes(Pending(Insert(q, r), flight)) == SumSizes(Pending(q, flight)) + r.size
    ensures multiset(Pending(Insert(q, r), flight)) == multiset(Pending(q, flight)) + multiset{r}
  {
    SumSizesInsert(q, r);
    InsertMembers(q, r);
    if flight.Some? {
      SumSizesConcat(q, [flight.value]);
      SumSizesConcat(Insert(q, r), [flight.value]);
    }
  }

  lemma PendingDispatch(q: seq<Request>, k: nat)
    requires k < |q|
    ensures SumSizes(Pending(Remove(q, k), Some(q[k]))) == SumSizes(Pending(q, None))
    ensures multiset(Pending(Remove(q, k), Some(q[k]))) == multiset(Pending(q, None))
  {
    SumSizesRemove(q, k);
    RemoveMultiset(q, k);
    SumSizesConcat(Remove(q, k), [q[k]]);
    SumSizesOne(q[k]);
  }

  lemma PendingComplete(q: seq<Request>, r: Request)
    ensures SumSizes(Pending(q, Some(r))) == SumSizes(Pending(q, None)) + r.size
    ensures multiset(Pending(q, Some(r))) == multiset(Pending(q, None)) + multiset{r}
  {
    SumSizesConcat(q, [r]);
    SumSizesOne(r);
  }

  /** What the dispatcher decides, with k the request taken. */
  ghost predicate Dispatches(q: seq<Request>, schedule: seq<nat>, r: Option<Request>, k: nat, q': seq<Request>) {
    match r
    case None => (q == [] || Unresolved(q, schedule)) && q' == q
    case Some(x) => q != [] && !Unresolved(q, schedule) && Foremost(q, schedule, k) && x == q[k] && q' == Remove(q, k)
  }

  /** The first `count` requests are those of the earliest time. */
  predicate FirstCount(q: seq<Request>, count: nat) {
    && 0 < count <= |q|
    && (forall j :: 0 <= j < count ==> q[j].time == q[0].time)
    && (forall j :: count <= j < |q| ==> q[0].time < q[j].time)
  }

  /** Among the first `count` requests, k is the first of least schedule position. */
  predicate FirstRanked(q: seq<Request>, schedule: seq<nat>, count: nat, k: nat)
    requires count <= |q|
  {
    && k < count && Rank(schedule, q[k].link) < |schedule|
    && (forall j :: 0 <= j < count ==> Rank(schedule, q[k].link) <= Rank(schedule, q[j].link))
    && (forall j :: 0 <= j < k ==> Rank(schedule, q[k].link) < Rank(schedule, q[j].link))
  }

  lemma RankedIsForemost(q: seq<Request>, schedule: seq<nat>, count: nat, k: nat)
    requires FirstCount(q, count) && FirstRanked(q, schedule, count, k)
    ensures Foremost(q, schedule, k) && !Unresolved(q, schedule)
  {
    assert !Unscheduled(schedule, q[k]) && q[k].time == q[0].time;
  }

  lemma FirstIsForemost(q: seq<Request>, schedule: seq<nat>, count: nat)
    requires FirstCount(q, count) && (count == 1 || schedule == [])
    ensures Foremost(q, schedule, 0) && !Unresolved(q, schedule)
  {
    assert schedule == [] ==> !Unscheduled(schedule, q[0]);
  }

  lemma NoneRanked(q: seq<Request>, schedule: seq<nat>, count: nat)
    requires FirstCount(q, count) && 1 < count && schedule != []
    requires forall j :: 0 <= j < count ==> Rank(schedule, q[j].link) == |schedule|
    ensures Unresolved(q, schedule)
  {
  }

  /** q times the number of values of a word. */
  function Words(q: nat): nat { q * WORD }

  /**
   Room and data make up the buffer and the data are the sizes held, both modulo
   the word; exactly so in finite mode.
   */
  ghost predicate Counters(finite: bool, size: Word, room: Word, data: Word, sum: nat) {
    && Plus(room, data) == size
    && (exists q: nat :: sum == data + Words(q))
    && (finite ==> data == sum && room + data == size)
  }

  lemma CountersUp(finite: bool, size: Word, room: Word, data: Word, sum: nat, x: Word)
    requires Counters(finite, size, room, data, sum) && (finite ==> x <= room)
    ensures Counters(finite, size, Minus(room, x), Plus(data, x), sum + x)
  {
    var q: nat :| sum == data + Words(q);
    var q' := if data + x < WORD then q else q + 1;
    assert sum + x == Plus(data, x) + Words(q');
  }

  lemma CountersDown(finite: bool, size: Word, room: Word, data: Word, sum: nat, x: Word)
    requires Counters(finite, size, room, data, sum + x)
    ensures Counters(finite, size, Plus(room, x), Minus(data, x), sum)
  {
    var q: nat :| sum + x == data + Words(q);
    var q' := if x <= data then q else q - 1;
    assert sum == Minus(data, x) + Words(q');
  }

  lemma CountersModulo(finite: bool, size: Word, room: Word, data: Word, sum: nat)
    requires Counters(finite, size, room, data, sum)
    ensures data == sum % WORD && room == (size - sum) % WORD
  {
    var q: nat :| sum == data + Words(q);
    Remainder(sum, q, data);
    var p: int := q;
    Remainder(size - sum, if data <= size then -p else -p - 1, room);
  }

  lemma Remainder(x: int, q: int, r: Word)
    requires x == q * WORD + r
    ensures x % WORD == r
  {
  }

  /** Every accepted request is held or has been posted, once. */
  ghost predicate Posts(held: seq<Request>, accepted: seq<Request>, posted: seq<Request>) {
    multiset(accepted) == multiset(posted) + multiset(held)
  }

  ghost predicate Books(finite: bool, size: Word, room: Word, data: Word,
                        held: seq<Request>, accepted: seq<Request>, posted: seq<Request>) {
    Counters(finite, size, room, data, SumSizes(held)) && Posts(held, accepted, posted)
  }

  lemma {:induction false} BooksAccept(finite: bool, size: Word, room: Word, data: Word,
                                       q: seq<Request>, flight: Option<Request>,
                                       accepted: seq<Request>, posted: seq<Request>, r: Request)
    requires Books(finite, size, room, data, Pending(q, flight), accepted, posted) && (finite ==> r.size <= room)
    ensures Books(finite, size, Minus(room, r.size), Plus(data, r.size), Pending(Insert(q, r), flight),
                  accepted + [r], posted)
  {
    PendingInsert(q, flight, r);
    CountersUp(finite, size, room, data, SumSizes(Pending(q, flight)), r.size);
  }

  lemma {:induction false} BooksDispatch(finite: bool, size: Word, room: Word, data: Word, q: seq<Request>, k: nat,
                                         accepted: seq<Request>, posted: seq<Request>)
    requires k < |q| && Books(finite, size, room, data, Pending(q, None), accepted, posted)
    ensures Books(finite, size, room, data, Pending(Remove(q, k), Some(q[k])), accepted, posted)
  {
    PendingDispatch(q, k);
  }

  lemma {:induction false} BooksComplete(finite: bool, size: Word, room: Word, data: Word,
                                         q: seq<Request>, r: Request,
                                         accepted: seq<Request>, posted: seq<Request>)
    requires Books(finite, size, room, data, Pending(q, Some(r)), accepted, posted)
    ensures Books(finite, size, Plus(room, r.size), Minus(data, r.size), Pending(q, None), accepted, posted + [r])
  {
    PendingComplete(q, r);
    CountersDown(finite, size, room, data, SumSizes(Pending(q, None)), r.size);
  }

  class Interface {
    const finite: bool
    const bufferSize: Word
    const schedule: seq<nat>
    var queue: seq<Request>
    var room: Word
    var data: Word
    var inFlight: Option<Request>
    /** Requests accepted and semaphores posted so far. */
    ghost var accepted: seq<Request>
    ghost var posted: seq<Request>

    ghost predicate Valid()
      reads this
    {
      && TimeOrdered(queue)
      && Books(finite, bufferSize, room, data, Pending(queue, inFlight), accepted, posted)
    }

    constructor (finite: bool, bufferSize: Word, schedule: seq<nat>)
      ensures Valid() && this.finite == finite && this.bufferSize == bufferSize && this.schedule == schedule
      ensures accepted == [] && posted == []
    {
      this.finite, this.bufferSize, this.schedule := finite, bufferSize, schedule;
      queue, room, data, inFlight := [], bufferSize, 0, None;
      accepted, posted := [], [];
      new;
      assert SumSizes([]) == 0 + Words(0);
    }

    /** A request that fits, or any in unbounded mode, enters the queue and takes its room. */
    method Admit(r: Request)
      requires Valid() && (finite ==> r.size <= room)
      modifies this`queue, this`room, this`data, this`accepted
      ensures Valid()
      ensures queue == Insert(old(queue), r) && accepted == old(accepted) + [r]
    {
      BooksAccept(finite, bufferSize, room, data, queue, inFlight, accepted, posted, r);
      InsertOrdered(queue, r);
      queue := Insert(queue, r);
      room := Minus(room, r.size);
      data := Plus(data, r.size);
      accepted := accepted + [r];
    }

    /** One evaluation of request_sending: the request enters the queue unless the finite buffer lacks room for it. */
    method RequestSending(r: Request) returns (ok: bool)
      requires Valid()
      modifies this`queue, this`room, this`data, this`accepted
      ensures Valid()
      ensures ok <==> !(finite && old(room) < r.size)
      ensures ok ==> queue == Insert(old(queue), r) && accepted == old(accepted) + [r]
      ensures !ok ==> queue == old(queue) && room == old(room) && data == old(data) && accepted == old(accepted)
    {
      if finite && r.size > room {
        return false;
      }
      Admit(r);
      return true;
    }

    /** static_comm_dispatch over the first `count` requests, all of the same time; `count` if none is scheduled. */
    method StaticCommDispatch(count: nat) returns (k: nat)
      requires 0 < count <= |queue|
      ensures k == count ==> forall j :: 0 <= j < count ==> Rank(schedule, queue[j].link) == |schedule|
      ensures k == count || FirstRanked(queue, schedule, count, k)
    {
      var i := 0;
      while i < |schedule|
        invariant i <= |schedule|
        invariant forall j :: 0 <= j < count ==> i <= Rank(schedule, queue[j].link)
      {
        k := 0;
        while k < count
          invariant k <= count
          invariant forall j :: 0 <= j < count ==> i <= Rank(schedule, queue[j].link)
          invariant forall j :: 0 <= j < k ==> i < Rank(schedule, queue[j].link)
        {
          RankIsFirst(schedule, queue[k].link);
          if schedule[i] == queue[k].link {
            return;
          }
          k := k + 1;
        }
        i := i + 1;
      }
      forall j | 0 <= j < count
        ensures Rank(schedule, queue[j].link) == |schedule|
      {
        RankIsFirst(schedule, queue[j].link);
      }
      k := count;
    }

    /** Position of the next transfer in the queue; the length of the queue in the error branches. */
    method NextTransfer() returns (k: nat)
      requires TimeOrdered(queue)
      ensures k <= |queue|
      ensures k == |queue| <==> queue == [] || Unresolved(queue, schedule)
      ensures k < |queue| ==> Foremost(queue, schedule, k)
    {
      if |queue| == 0 {
        return 0;
      }
      var count := 1;
      while count < |queue| && queue[count].time == queue[0].time
        invariant 1 <= count <= |queue|
        invariant forall j :: 0 <= j < count ==> queue[j].time == queue[0].time
      {
        count := count + 1;
      }
      if count > 1 && schedule != [] {
        k := StaticCommDispatch(count);
        if k == count {
          NoneRanked(queue, schedule, count);
          return |queue|;
        }
        RankedIsForemost(queue, schedule, count, k);
      } else {
        FirstIsForemost(queue, schedule, count);
        return 0;
      }
    }

    /**
     dispatch: the request to transfer next leaves the queue. None is the error
     branch: an empty queue, or simultaneous requests none of which is scheduled.
     */
    method Dispatch() returns (r: Option<Request>, ghost k: nat)
      requires Valid() && inFlight == None
      modifies this`queue, this`inFlight
      ensures Valid() && inFlight == r
      ensures Dispatches(old(queue), schedule, r, k, queue)
    {
      var next := NextTransfer();
      k := next;
      if next == |queue| {
        return None, k;
      }
      BooksDispatch(finite, bufferSize, room, data, queue, next, accepted, posted);
      RemoveOrdered(queue, next);
      r := Some(queue[next]);
      queue := queue[..next] + queue[next + 1..];
      inFlight := r;
    }

    /** End of a transfer: its semaphore is posted, then its room is released. */
    method Complete() returns (semaphore: nat)
      requires Valid() && inFlight.Some?
      modifies this`room, this`data, this`inFlight, this`posted
      ensures Valid() && inFlight == None
      ensures posted == old(posted) + [old(inFlight).value] && semaphore == old(inFlight).value.semaphore
    {
      var r := inFlight.value;
      semaphore := r.semaphore;
      BooksComplete(finite, bufferSize, room, data, queue, r, accepted, posted);
      room := Plus(room, r.size);
      data := Minus(data, r.size);
      posted := posted + [r];
      inFlight := None;
    }
  }

  // Draining a fixed queue ---------------------------------------------------------------------

  /** Index the dispatcher chooses. */
  ghost function Choice(q: seq<Request>, schedule: seq<nat>): (k: nat)
    requires q != [] && TimeOrdered(q)
    ensures Foremost(q, schedule, k)
  {
    ForemostExists(q, schedule);
    var k :| 0 <= k < |q| && Foremost(q, schedule, k);
    k
  }

  lemma {:induction false} ForemostExists(q: seq<Request>, schedule: seq<nat>)
    requires q != []
    ensures exists k :: 0 <= k < |q| && Foremost(q, schedule, k)
  {
    var front, last := q[..|q| - 1], q[|q| - 1];
    if front == [] {
      assert Foremost(q, schedule, 0);
    } else {
      ForemostExists(front, schedule);
      var k :| 0 <= k < |front| && Foremost(front, schedule, k);
      if Before(schedule, last, q[k]) {
        assert Foremost(q, schedule, |q| - 1);
      } else {
        assert Foremost(q, schedule, k);
      }
    }
  }

  lemma ForemostUnique(q: seq<Request>, schedule: seq<nat>, k: nat, k': nat)
    requires Foremost(q, schedule, k) && Foremost(q, schedule, k')
    ensures k == k'
  {
    assert !Before(schedule, q[k], q[k']) && !Before(schedule, q[k'], q[k]);
  }

  lemma RemoveOrdered(q: seq<Request>, k: nat)
    requires TimeOrdered(q) && k < |q|
    ensures TimeOrdered(Remove(q, k))
  {
  }

  /** The transfers of a queue to which nothing is added; None if the error branch is met on the way. */
  ghost function Drain(q: seq<Request>, schedule: seq<nat>): Option<seq<Request>>
    requires TimeOrdered(q)
    decreases |q|
  {
    if q == [] then Some([])
    else if Unresolved(q, schedule) then None
    else
      var k := Choice(q, schedule);
      RemoveOrdered(q, k);
      var rest := Drain(Remove(q, k), schedule);
      if rest.None? then None else Some([q[k]] + rest.value)
  }

  /** The requests with the key of x, in order. */
  function WithKey(q: seq<Request>, schedule: seq<nat>, x: Request): seq<Request> {
    if q == [] then []
    else (if SameKey(schedule, q[0], x) then [q[0]] else []) + WithKey(q[1..], schedule, x)
  }

  lemma {:induction false} WithKeySplit(q: seq<Request>, schedule: seq<nat>, r: Request, rest: seq<Request>, x: Request)
    requires q == [r] + rest
    ensures WithKey(q, schedule, x) == (if SameKey(schedule, r, x) then [r] else []) + WithKey(rest, schedule, x)
  {
    assert q[1..] == rest;
  }

  lemma {:induction false} WithKeyConcat(p: seq<Request>, q: seq<Request>, schedule: seq<nat>, x: Request)
    ensures WithKey(p + q, schedule, x) == WithKey(p, schedule, x) + WithKey(q, schedule, x)
  {
    if p == [] {
      assert p + q == q;
    } else {
      var head, tail := p[0], p[1..];
      assert p == [head] + tail && p + q == [head] + (tail + q);
      WithKeyConcat(tail, q, schedule, x);
      WithKeySplit(p, schedule, head, tail, x);
      WithKeySplit(p + q, schedule, head, tail + q, x);
    }
  }

  lemma {:induction false} WithKeyNone(q: seq<Request>, schedule: seq<nat>, x: Request)
    requires forall j :: 0 <= j < |q| ==> !SameKey(schedule, q[j], x)
    ensures WithKey(q, schedule, x) == []
  {
    if q == [] {
    } else {
      WithKeyNone(q[1..], schedule, x);
    }
  }

  /** Taking the foremost request first does not reorder requests of equal key. */
  lemma WithKeyChoice(q: seq<Request>, schedule: seq<nat>, k: nat, x: Request)
    requires Foremost(q, schedule, k)
    ensures WithKey(q, schedule, x) == WithKey([q[k]] + Remove(q, k), schedule, x)
  {
    var a, c := q[..k], q[k + 1..];
    assert q == a + ([q[k]] + c);
    assert [q[k]] + Remove(q, k) == [q[k]] + (a + c);
    WithKeyConcat(a, [q[k]] + c, schedule, x);
    WithKeyConcat([q[k]], c, schedule, x);
    WithKeyConcat([q[k]], a + c, schedule, x);
    WithKeyConcat(a, c, schedule, x);
    if SameKey(schedule, q[k], x) {
      WithKeyNone(a, schedule, x);
    } else {
      WithKeyNone([q[k]], schedule, x);
    }
  }

  predicate KeyOrdered(q: seq<Request>, schedule: seq<nat>) {
    forall i, j :: 0 <= i <= j < |q| ==> !Before(schedule, q[j], q[i])
  }

  /** A drained queue comes out as a permutation ordered by request time and then by schedule position. */
  lemma {:induction false} DrainSorted(q: seq<Request>, schedule: seq<nat>)
    requires TimeOrdered(q) && Drain(q, schedule).Some?
    ensures multiset(Drain(q, schedule).value) == multiset(q)
    ensures KeyOrdered(Drain(q, schedule).value, schedule)
    decreases |q|
  {
    if q == [] {
    } else {
      var k := Choice(q, schedule);
      RemoveOrdered(q, k);
      DrainSorted(Remove(q, k), schedule);
      var rest := Drain(Remove(q, k), schedule).value;
      RemoveMultiset(q, k);
      ForemostLeads(q, schedule, k, rest);
    }
  }

  /** The foremost request followed by the others in key order is in key order. */
  lemma {:induction false} ForemostLeads(q: seq<Request>, schedule: seq<nat>, k: nat, rest: seq<Request>)
    requires Foremost(q, schedule, k) && multiset(rest) == multiset(Remove(q, k)) && KeyOrdered(rest, schedule)
    ensures KeyOrdered([q[k]] + rest, schedule)
  {
    var all := [q[k]] + rest;
    RemoveMultiset(q, k);
    forall i, j | 0 <= i <= j < |all|
      ensures !Before(schedule, all[j], all[i])
    {
      if i == 0 && 0 < j {
        assert all[j] in multiset(rest);
        assert all[j] in multiset(q);
      } else if 0 < i {
        assert !Before(schedule, rest[j - 1], rest[i - 1]);
      }
    }
  }

  /** Requests of equal key keep their order. */
  lemma {:induction false} DrainStable(q: seq<Request>, schedule: seq<nat>, x: Request)
    requires TimeOrdered(q) && Drain(q, schedule).Some?
    ensures WithKey(Drain(q, schedule).value, schedule, x) == WithKey(q, schedule, x)
    decreases |q|
  {
    if q == [] {
    } else {
      var k := Choice(q, schedule);
      RemoveOrdered(q, k);
      DrainStable(Remove(q, k), schedule, x);
      var rest := Drain(Remove(q, k), schedule).value;
      WithKeyChoice(q, schedule, k, x);
      WithKeySplit([q[k]] + rest, schedule, q[k], rest, x);
      WithKeySplit([q[k]] + Remove(q, k), schedule, q[k], Remove(q, k), x);
    }
  }

  /** Two requests of one instant over links missing from the schedule in use. */
  predicate BothUnscheduled(q: seq<Request>, schedule: seq<nat>, i: nat, j: nat)
    requires i < |q| && j < |q|
  {
    i != j && q[i].time == q[j].time && Unscheduled(schedule, q[i]) && Unscheduled(schedule, q[j])
  }

  ghost predicate Ambiguous(q: seq<Request>, schedule: seq<nat>) {
    exists i: nat, j: nat :: i < |q| && j < |q| && BothUnscheduled(q, schedule, i, j)
  }

  lemma AmbiguousFromRest(q: seq<Request>, schedule: seq<nat>, k: nat)
    requires k < |q| && Ambiguous(Remove(q, k), schedule)
    ensures Ambiguous(q, schedule)
  {
    var rest := Remove(q, k);
    var i: nat, j: nat :| i < |rest| && j < |rest| && BothUnscheduled(rest, schedule, i, j);
    var i', j' := if i < k then i else i + 1, if j < k then j else j + 1;
    assert q[i'] == rest[i] && q[j'] == rest[j];
    assert BothUnscheduled(q, schedule, i', j');
  }

  lemma AmbiguousInRest(q: seq<Request>, schedule: seq<nat>, k: nat)
    requires TimeOrdered(q) && !Unresolved(q, schedule) && Foremost(q, schedule, k)
    requires Ambiguous(q, schedule)
    ensures Ambiguous(Remove(q, k), schedule)
  {
    var rest := Remove(q, k);
    var i: nat, j: nat :| i < |q| && j < |q| && BothUnscheduled(q, schedule, i, j);
    if i == k {
      FirstGroup(q, schedule, k, j);
    } else if j == k {
      FirstGroup(q, schedule, k, i);
    } else {
      var i', j' := if i < k then i else i - 1, if j < k then j else j - 1;
      assert rest[i'] == q[i] && rest[j'] == q[j];
      assert BothUnscheduled(rest, schedule, i', j');
    }
  }

  /** If the foremost request is unscheduled and not alone at its time, nothing of that time is scheduled. */
  lemma FirstGroup(q: seq<Request>, schedule: seq<nat>, k: nat, i: nat)
    requires TimeOrdered(q) && Foremost(q, schedule, k) && i < |q| && i != k
    requires q[i].time == q[k].time && Unscheduled(schedule, q[k])
    ensures Unresolved(q, schedule)
  {
    assert !Before(schedule, q[0], q[k]);
    assert q[0].time == q[k].time;
    assert q[1].time == q[0].time;
    forall m | 0 <= m < |q| && q[m].time == q[0].time
      ensures Unscheduled(schedule, q[m])
    {
      assert !Before(schedule, q[m], q[k]);
    }
  }

  /** Draining meets the error branch if and only if some instant has two unscheduled requests. */
  lemma {:induction false} DrainFails(q: seq<Request>, schedule: seq<nat>)
    requires TimeOrdered(q)
    ensures Drain(q, schedule).None? <==> Ambiguous(q, schedule)
    decreases |q|
  {
    if q == [] {
    } else {
      if Unresolved(q, schedule) {
        assert BothUnscheduled(q, schedule, 0, 1);
      } else {
        var k := Choice(q, schedule);
        RemoveOrdered(q, k);
        DrainFails(Remove(q, k), schedule);
        if Ambiguous(q, schedule) {
          AmbiguousInRest(q, schedule, k);
        }
        if Ambiguous(Remove(q, k), schedule) {
          AmbiguousFromRest(q, schedule, k);
        }
      }
    }
  }

  /** One dispatch takes the first request of the drained order. */
  lemma {:induction false} DrainStep(q: seq<Request>, schedule: seq<nat>, k: nat)
    requires TimeOrdered(q) && q != [] && !Unresolved(q, schedule) && Foremost(q, schedule, k)
    ensures TimeOrdered(Remove(q, k))
    ensures Drain(q, schedule).Some? <==> Drain(Remove(q, k), schedule).Some?
    ensures Drain(q, schedule).Some? ==>
              Drain(q, schedule).value == [q[k]] + Drain(Remove(q, k), schedule).value
  {
    RemoveOrdered(q, k);
    ForemostUnique(q, schedule, k, Choice(q, schedule));
  }

  /** What has been posted, followed by what is still to drain; None if draining fails. */
  ghost function Outcome(posted: seq<Request>, q: seq<Request>, schedule: seq<nat>): Option<seq<Request>>
    requires TimeOrdered(q)
  {
    var d := Drain(q, schedule);
    if d.None? then None else Some(posted + d.value)
  }

  lemma Associative(a: seq<Request>, b: seq<Request>, c: seq<Request>)
    ensures (a + b) + c == a + (b + c)
  {
  }

  lemma {:induction false} OutcomeStep(posted: seq<Request>, q: seq<Request>, schedule: seq<nat>, k: nat)
    requires TimeOrdered(q) && q != [] && !Unresolved(q, schedule) && Foremost(q, schedule, k)
    ensures TimeOrdered(Remove(q, k))
    ensures Outcome(posted + [q[k]], Remove(q, k), schedule) == Outcome(posted, q, schedule)
  {
    DrainStep(q, schedule, k);
    if Drain(q, schedule).Some? {
      Associative(posted, [q[k]], Drain(Remove(q, k), schedule).value);
    }
  }

  /** One transfer from dispatch to completion; the outcome of draining stays the same. */
  method Transfer(ni: Interface) returns (ok: bool)
    requires ni.Valid() && ni.inFlight == None && ni.queue != []
    modifies ni
    ensures ni.Valid()
    ensures ok <==> !Unresolved(old(ni.queue), ni.schedule)
    ensures ok ==> ni.inFlight == None && |ni.queue| == |old(ni.queue)| - 1
    ensures ok ==> Outcome(ni.posted, ni.queue, ni.schedule) == old(Outcome(ni.posted, ni.queue, ni.schedule))
  {
    ghost var q := ni.queue;
    var r, k := ni.Dispatch();
    if r == None {
      return false;
    }
    OutcomeStep(ni.posted, q, ni.schedule, k);
    var s := ni.Complete();
    return true;
  }

  /** Repeated transfers of an interface to which nothing is added follow exactly the drained order. */
  method DrainAll(ni: Interface) returns (ok: bool)
    requires ni.Valid() && ni.inFlight == None
    modifies ni
    ensures ni.Valid()
    ensures ok <==> Drain(old(ni.queue), ni.schedule).Some?
    ensures ok ==> ni.queue == [] && ni.posted == old(ni.posted) + Drain(old(ni.queue), ni.schedule).value
  {
    while |ni.queue| > 0
      invariant ni.Valid() && ni.inFlight == None
      invariant Outcome(ni.posted, ni.queue, ni.schedule) == old(Outcome(ni.posted, ni.queue, ni.schedule))
      decreases |ni.queue|
    {
      var transferred := Transfer(ni);
      if !transferred {
        return false;
      }
    }
    return true;
  }
}
