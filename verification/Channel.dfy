/**
 The buffered channel of fifo_buffer.hpp: a bounded FIFO, a semaphore that counts
 completed transfers, one writer and one reader. The FIFO follows the delta
 cycles of sc_fifo (IEEE Std 1666-2011, section 6.23): what is written becomes
 readable, and what is read becomes free, in the next update phase.
 */
module Channel {
  import opened Options

  /** Values readable now, values written in this delta cycle, and slots read in it. */
  datatype Fifo<T> = Fifo(readable: seq<T>, written: seq<T>, taken: nat)

  function Occupied<T>(f: Fifo<T>): nat {
    |f.readable| + |f.written| + f.taken
  }

  function Contents<T>(f: Fifo<T>): seq<T> {
    f.readable + f.written
  }

  function Stored<T>(f: Fifo<T>, v: T): Fifo<T> {
    f.(written := f.written + [v])
  }

  function Loaded<T>(f: Fifo<T>): Fifo<T>
    requires f.readable != []
  {
    f.(readable := f.readable[1..], taken := f.taken + 1)
  }

  function Updated<T>(f: Fifo<T>): Fifo<T> {
    Fifo(f.readable + f.written, [], 0)
  }

  /** The object shared by the writer, the reader and the network interface; one method per segment between waits. */
  class Buffer<T> {
    const capacity: nat
    const mapped: bool
    var readable: seq<T>
    var written: seq<T>
    var taken: nat
    /** completed_transactions */
    var completed: nat

    ghost predicate Valid()
      reads this
    {
      0 < capacity && Occupied(Value()) <= capacity
    }

    ghost function Value(): Fifo<T>
      reads this
    {
      Fifo(readable, written, taken)
    }

    constructor (capacity: nat, mapped: bool)
      requires 0 < capacity
      ensures Valid() && this.capacity == capacity && this.mapped == mapped
      ensures Value() == Fifo([], [], 0) && completed == 0
    {
      this.capacity, this.mapped := capacity, mapped;
      readable, written, taken, completed := [], [], 0, 0;
    }

    /** sc_fifo write: false when the writer has to wait for a free slot. */
    method Store(v: T) returns (ok: bool)
      requires Valid()
      modifies this`written
      ensures Valid() && (ok <==> Occupied(old(Value())) < capacity)
      ensures Contents(Value()) == Contents(old(Value())) + (if ok then [v] else [])
      ensures Value() == if ok then Stored(old(Value()), v) else old(Value())
    {
      ok := |readable| + |written| + taken < capacity;
      if ok {
        written := written + [v];
        assert readable + written == (readable + old(written)) + [v];
      }
    }

    /** sc_fifo read: None when the reader has to wait for data. */
    method Load() returns (r: Option<T>)
      requires Valid()
      modifies this`readable, this`taken
      ensures Valid() && (r == None <==> old(readable) == [])
      ensures r == None ==> Value() == old(Value())
      ensures r.Some? ==> Value() == Loaded(old(Value())) && Contents(old(Value())) == [r.value] + Contents(Value())
      ensures Occupied(Value()) == Occupied(old(Value()))
    {
      if |readable| == 0 {
        return None;
      }
      r := Some(readable[0]);
      assert readable + written == [readable[0]] + (readable[1..] + written);
      readable := readable[1..];
      taken := taken + 1;
    }

    /** The update phase of the FIFO. */
    method Update()
      requires Valid()
      modifies this`readable, this`written, this`taken
      ensures Valid() && Value() == Updated(old(Value())) && Contents(Value()) == Contents(old(Value()))
      ensures Occupied(Value()) == |Contents(Value())| && readable == Contents(Value())
    {
      readable, written, taken := readable + written, [], 0;
      assert readable + [] == readable;
    }

    /** Semaphore wait: false when the reader has to wait for a completed transfer. */
    method TakeTransfer() returns (ok: bool)
      modifies this`completed
      ensures ok <==> 0 < old(completed)
      ensures completed == old(completed) - (if ok then 1 else 0)
    {
      ok := completed > 0;
      if ok {
        completed := completed - 1;
      }
    }

    method Post()
      modifies this`completed
      ensures completed == old(completed) + 1
    {
      completed := completed + 1;
    }

    /** initial_write, before the simulation starts: the token counts as transferred if the channel is mapped. */
    method InitialWrite(v: T) returns (ok: bool)
      requires Valid()
      modifies this`written, this`completed
      ensures Valid() && (ok <==> Occupied(old(Value())) < capacity)
      ensures Contents(Value()) == Contents(old(Value())) + (if ok then [v] else [])
      ensures completed == old(completed) + (if ok && mapped then 1 else 0)
    {
      ok := Store(v);
      if ok && mapped {
        Post();
      }
    }
  }

  // The protocol -----------------------------------------------------------------------

  /**
   No physical link; the writing processor does the transfer; or a network
   interface does, with an unbounded or a finite transmit buffer.
   */
  datatype Route = Unmapped | Direct | ViaInterface | ViaFiniteInterface

  /** Requesting: held in request_sending by a transmit buffer without room. */
  datatype Writer<T> = WriterIdle | Transferring(value: T) | Requesting(value: T) | Storing(value: T)

  datatype Reader = ReaderIdle | AwaitingTransfer | AwaitingData

  /** A transfer of the network interface: of this channel or of another. */
  datatype Transfer = Own | Other

  datatype State<T> = State(
    fifo: Fifo<T>, completed: nat, writer: Writer<T>, reader: Reader,
    queue: seq<Transfer>, flight: Option<Transfer>,
    // history: values the writer has started to write, values read, transfers completed
    begun: seq<T>, received: seq<T>, transfers: nat)

  datatype Move<T> =
    | BeginWrite(value: T) | EndTransfer | Store | BeginRead | TakeTransfer | Load | Update
    | Admit | OtherRequest | Dispatch(index: nat) | Complete

  datatype Params<T> = Params(capacity: nat, route: Route, initial: seq<T>)

  ghost predicate ValidParams<T(!new)>(p: Params<T>) {
    0 < p.capacity && |p.initial| <= p.capacity
  }

  predicate CanStore<T>(p: Params<T>, s: State<T>) {
    s.writer.Storing? && Occupied(s.fifo) < p.capacity
  }

  predicate Enabled<T>(p: Params<T>, s: State<T>, m: Move<T>) {
    match m
    case BeginWrite(_) => s.writer.WriterIdle?
    case EndTransfer => s.writer.Transferring?
    case Store => CanStore(p, s)
    case BeginRead => s.reader.ReaderIdle?
    case TakeTransfer => s.reader.AwaitingTransfer? && 0 < s.completed
    case Load => s.reader.AwaitingData? && s.fifo.readable != []
    case Update => s.fifo.written != [] || s.fifo.taken != 0
    case Admit => s.writer.Requesting?
    case OtherRequest => true
    case Dispatch(k) => s.flight.None? && k < |s.queue|
    case Complete => s.flight.Some?
  }

  function After<T>(p: Params<T>, s: State<T>, m: Move<T>): State<T>
    requires Enabled(p, s, m)
  {
    match m
    case BeginWrite(v) =>
      s.(begun := s.begun + [v],
         writer := if p.route.Direct? then Transferring(v)
                   else if p.route.ViaFiniteInterface? then Requesting(v) else Storing(v),
         queue := if p.route.ViaInterface? then s.queue + [Own] else s.queue)
    case EndTransfer =>
      s.(writer := Storing(s.writer.value), completed := s.completed + 1, transfers := s.transfers + 1)
    case Store =>
      s.(writer := WriterIdle, fifo := Stored(s.fifo, s.writer.value))
    case BeginRead => s.(reader := if p.route.Unmapped? then AwaitingData else AwaitingTransfer)
    case TakeTransfer => s.(reader := AwaitingData, completed := s.completed - 1)
    case Load =>
      s.(reader := ReaderIdle, received := s.received + [s.fifo.readable[0]],
         fifo := Loaded(s.fifo))
    case Update => s.(fifo := Updated(s.fifo))
    case Admit => s.(writer := Storing(s.writer.value), queue := s.queue + [Own])
    case OtherRequest => s.(queue := s.queue + [Other])
    case Dispatch(k) => s.(flight := Some(s.queue[k]), queue := s.queue[..k] + s.queue[k + 1..])
    case Complete =>
      if s.flight.value.Own? then s.(flight := None, completed := s.completed + 1, transfers := s.transfers + 1)
      else s.(flight := None)
  }

  function InitState<T>(p: Params<T>): State<T> {
    var tokens := if p.route.Unmapped? then 0 else |p.initial|;
    State(Fifo([], p.initial, 0), tokens, WriterIdle, ReaderIdle, [], None, [], [], tokens)
  }

  /** The states reached by a sequence of moves in any order. */
  ghost predicate Reachable<T(!new)>(p: Params<T>, s: State<T>, ms: seq<Move<T>>)
    decreases |ms|
  {
    if ms == [] then s == InitState(p)
    else
      var front, last := ms[..|ms| - 1], ms[|ms| - 1];
      exists q: State<T> :: Reachable(p, q, front) && Enabled(p, q, last) && s == After(p, q, last)
  }

  // Invariants ------------------------------------------------------------------------------

  function OwnCount(q: seq<Transfer>): nat {
    if q == [] then 0 else OwnCount(q[..|q| - 1]) + (if q[|q| - 1].Own? then 1 else 0)
  }

  lemma {:induction false} OwnCountConcat(a: seq<Transfer>, b: seq<Transfer>)
    ensures OwnCount(a + b) == OwnCount(a) + OwnCount(b)
  {
    if b == [] {
      assert a + b == a;
    } else {
      OwnCountConcat(a, b[..|b| - 1]);
      assert (a + b)[..|a + b| - 1] == a + b[..|b| - 1];
    }
  }

  lemma OwnCountOne(t: Transfer)
    ensures OwnCount([t]) == if t.Own? then 1 else 0
  {
    assert [t][..0] == [];
  }

  lemma {:induction false} OwnCountRemove(q: seq<Transfer>, k: nat)
    requires k < |q|
    ensures OwnCount(q[..k] + q[k + 1..]) + (if q[k].Own? then 1 else 0) == OwnCount(q)
  {
    var front, rest := q[..|q| - 1], q[..k] + q[k + 1..];
    if k == |q| - 1 {
      assert rest == front;
    } else {
      OwnCountRemove(front, k);
      assert rest[..|rest| - 1] == front[..k] + front[k + 1..];
    }
  }

  /** The value the writer still has to store. */
  function InHand<T>(w: Writer<T>): seq<T> {
    if w.WriterIdle? then [] else [w.value]
  }

  /**
   Nothing is lost, duplicated or reordered: read, buffered and in the writer's hands make up the
   initial tokens and the writes.
   */
  predicate InOrder<T(==)>(p: Params<T>, s: State<T>) {
    s.received + Contents(s.fifo) + InHand(s.writer) == p.initial + s.begun
  }

  /** Transfers still to complete for the writes begun. */
  function Outstanding<T>(s: State<T>): nat {
    OwnCount(s.queue) + (if s.flight == Some(Own) then 1 else 0)
    + (if s.writer.Transferring? || s.writer.Requesting? then 1 else 0)
  }

  /** Every write has one transfer, and every read past its semaphore has consumed one. */
  predicate Counted<T>(p: Params<T>, s: State<T>) {
    if p.route.Unmapped?
    then
      Outstanding(s) == 0 && !s.reader.AwaitingTransfer?
    else
      && s.transfers + Outstanding(s) == |p.initial| + |s.begun|
      && s.completed + |s.received| + (if s.reader.AwaitingData? then 1 else 0) == s.transfers
  }

  predicate WriterFits<T>(p: Params<T>, s: State<T>) {
    && (s.writer.Transferring? ==> p.route.Direct?)
    && (s.writer.Requesting? ==> p.route.ViaFiniteInterface?)
  }

  predicate Inv<T(==)>(p: Params<T>, s: State<T>) {
    && InOrder(p, s)
    && Counted(p, s)
    && Occupied(s.fifo) <= p.capacity
    && WriterFits(p, s)
  }

  lemma AfterKeepsOrder<T>(p: Params<T>, s: State<T>, m: Move<T>)
    requires Inv(p, s) && Enabled(p, s, m)
    ensures InOrder(p, After(p, s, m))
  {
    var s' := After(p, s, m);
    var all := p.initial + s.begun;
    match m
    case BeginWrite(v) =>
      assert s'.received + Contents(s'.fifo) + InHand(s'.writer) == all + [v];
      assert all + [v] == p.initial + s'.begun;
    case Store =>
      assert s.received + Contents(s'.fifo) + [] == s.received + Contents(s.fifo) + InHand(s.writer);
    case Load =>
      assert s'.received + Contents(s'.fifo) == s.received + Contents(s.fifo);
    case Update =>
      assert Contents(s'.fifo) == Contents(s.fifo);
    case _ =>
  }

  lemma {:induction false} CountBeginWrite<T>(p: Params<T>, s: State<T>, v: T)
    requires Counted(p, s) && s.writer.WriterIdle?
    ensures Counted(p, After(p, s, BeginWrite(v)))
  {
    OwnCountConcat(s.queue, [Own]);
    OwnCountOne(Own);
  }

  lemma {:induction false} CountAdmit<T>(p: Params<T>, s: State<T>)
    requires Counted(p, s) && WriterFits(p, s) && s.writer.Requesting?
    ensures Counted(p, After(p, s, Admit))
  {
    OwnCountConcat(s.queue, [Own]);
    OwnCountOne(Own);
  }

  lemma {:induction false} CountTransferEnds<T>(p: Params<T>, s: State<T>, m: Move<T>)
    requires Counted(p, s) && WriterFits(p, s) && Enabled(p, s, m)
    requires m.EndTransfer? || m.Complete?
    ensures Counted(p, After(p, s, m))
  {
  }

  lemma {:induction false} CountReader<T>(p: Params<T>, s: State<T>, m: Move<T>)
    requires Counted(p, s) && Enabled(p, s, m)
    requires m.BeginRead? || m.TakeTransfer? || m.Load?
    ensures Counted(p, After(p, s, m))
  {
  }

  /** Storing a value, the update phase and the transfers of other channels leave the count alone. */
  lemma {:induction false} CountOthers<T>(p: Params<T>, s: State<T>, m: Move<T>)
    requires Counted(p, s) && Enabled(p, s, m)
    requires m.Store? || m.Update? || m.OtherRequest? || m.Dispatch?
    ensures Counted(p, After(p, s, m))
  {
    if m.OtherRequest? {
      OwnCountConcat(s.queue, [Other]);
      OwnCountOne(Other);
    } else if m.Dispatch? {
      OwnCountRemove(s.queue, m.index);
    }
  }

  lemma {:induction false} AfterKeepsCount<T>(p: Params<T>, s: State<T>, m: Move<T>)
    requires Counted(p, s) && WriterFits(p, s) && Enabled(p, s, m)
    ensures Counted(p, After(p, s, m))
  {
    match m
    case BeginWrite(v) => CountBeginWrite(p, s, v);
    case Admit => CountAdmit(p, s);
    case EndTransfer => CountTransferEnds(p, s, m);
    case Complete => CountTransferEnds(p, s, m);
    case BeginRead => CountReader(p, s, m);
    case TakeTransfer => CountReader(p, s, m);
    case Load => CountReader(p, s, m);
    case _ => CountOthers(p, s, m);
  }

  /** Every move keeps the invariant. */
  lemma AfterKeepsInv<T>(p: Params<T>, s: State<T>, m: Move<T>)
    requires Inv(p, s) && Enabled(p, s, m)
    ensures Inv(p, After(p, s, m))
  {
    AfterKeepsOrder(p, s, m);
    AfterKeepsCount(p, s, m);
  }

  lemma {:induction false} ReachableInv<T(!new)>(p: Params<T>, s: State<T>, ms: seq<Move<T>>)
    requires ValidParams(p) && Reachable(p, s, ms)
    ensures Inv(p, s)
    decreases |ms|
  {
    if ms == [] {
      assert [] + ([] + p.initial) + [] == p.initial + [];
    } else {
      var front, last := ms[..|ms| - 1], ms[|ms| - 1];
      var q: State<T> :| Reachable(p, q, front) && Enabled(p, q, last) && s == After(p, q, last);
      ReachableInv(p, q, front);
      AfterKeepsInv(p, q, last);
    }
  }

  // What a slot is held for --------------------------------------------------------------------

  function Stores<T>(ms: seq<Move<T>>): nat {
    if ms == [] then 0 else Stores(ms[..|ms| - 1]) + (if ms[|ms| - 1].Store? then 1 else 0)
  }

  function Loads<T>(ms: seq<Move<T>>): nat {
    if ms == [] then 0 else Loads(ms[..|ms| - 1]) + (if ms[|ms| - 1].Load? then 1 else 0)
  }

  /** The moves up to the last update phase; none if there was no such phase. */
  function Settled<T>(ms: seq<Move<T>>): seq<Move<T>> {
    if ms == [] || ms[|ms| - 1].Update? then ms else Settled(ms[..|ms| - 1])
  }

  /**
   A slot is occupied from the store of a value to the first update phase after its
   read, and a value is readable from the first update phase after its store.
   */
  lemma {:induction false} SlotsHeld<T(!new)>(p: Params<T>, s: State<T>, ms: seq<Move<T>>)
    requires Reachable(p, s, ms)
    ensures Occupied(s.fifo) + Loads(Settled(ms)) == |p.initial| + Stores(ms)
    ensures |s.fifo.readable| + Loads(ms) == if Settled(ms) == [] then 0 else |p.initial| + Stores(Settled(ms))
    decreases |ms|
  {
    if ms == [] {
    } else {
      var front, last := ms[..|ms| - 1], ms[|ms| - 1];
      var q: State<T> :| Reachable(p, q, front) && Enabled(p, q, last) && s == After(p, q, last);
      SlotsHeld(p, q, front);
      TakenSince(p, q, front);
      FifoStep(p, q, last);
      assert Settled(ms) == if last.Update? then ms else Settled(front);
    }
  }

  lemma {:induction false} TakenSince<T(!new)>(p: Params<T>, s: State<T>, ms: seq<Move<T>>)
    requires Reachable(p, s, ms)
    ensures s.fifo.taken + Loads(Settled(ms)) == Loads(ms)
    decreases |ms|
  {
    if ms == [] {
    } else {
      var front, last := ms[..|ms| - 1], ms[|ms| - 1];
      var q: State<T> :| Reachable(p, q, front) && Enabled(p, q, last) && s == After(p, q, last);
      TakenSince(p, q, front);
      FifoStep(p, q, last);
    }
  }

  lemma FifoStep<T>(p: Params<T>, q: State<T>, m: Move<T>)
    requires Enabled(p, q, m)
    ensures var f, f' := q.fifo, After(p, q, m).fifo;
            && f'.taken == (if m.Update? then 0 else f.taken + (if m.Load? then 1 else 0))
            && Occupied(f') == Occupied(f) + (if m.Store? then 1 else 0) - (if m.Update? then f.taken else 0)
            && |f'.readable| ==
               if m.Update? then Occupied(f) - f.taken else |f.readable| - (if m.Load? then 1 else 0)
  {
  }

  // Main results ------------------------------------------------------------------------------

  /** The values read are a prefix of the initial tokens followed by the values written, under every interleaving. */
  lemma ReadsArePrefix<T(!new)>(p: Params<T>, s: State<T>, ms: seq<Move<T>>)
    requires ValidParams(p) && Reachable(p, s, ms)
    ensures s.received <= p.initial + s.begun
  {
    ReachableInv(p, s, ms);
    assert s.received + (Contents(s.fifo) + InHand(s.writer)) == p.initial + s.begun;
  }

  /**
   On a mapped channel the k-th read completes only after k completed transfers,
   initial tokens included, and no more transfers complete than writes have begun.
   */
  lemma ReadsAfterTransfers<T(!new)>(p: Params<T>, s: State<T>, ms: seq<Move<T>>)
    requires ValidParams(p) && Reachable(p, s, ms) && !p.route.Unmapped?
    ensures |s.received| <= s.transfers <= |p.initial| + |s.begun|
    ensures |s.received| == s.transfers ==> s.completed == 0 && !s.reader.AwaitingData?
  {
    ReachableInv(p, s, ms);
  }

  /**
   No step is possible except a new call of the writer, the reader or another
   channel, or the admission of a request by a finite transmit buffer, which may
   never come.
   */
  ghost predicate Quiescent<T(!new)>(p: Params<T>, s: State<T>) {
    forall m :: Enabled(p, s, m) ==> m.BeginWrite? || m.BeginRead? || m.OtherRequest? || m.Admit?
  }

  lemma QuiescentFacts<T(!new)>(p: Params<T>, s: State<T>)
    requires Quiescent(p, s)
    ensures !s.writer.Transferring? && !CanStore(p, s) && s.queue == [] && s.flight == None
    ensures s.reader.AwaitingTransfer? ==> s.completed == 0
    ensures s.reader.AwaitingData? ==> s.fifo.readable == []
    ensures s.fifo.written == [] && s.fifo.taken == 0
  {
    assert !Enabled(p, s, EndTransfer) && !Enabled(p, s, Store) && !Enabled(p, s, TakeTransfer);
    assert !Enabled(p, s, Load) && !Enabled(p, s, Update) && !Enabled(p, s, Complete);
    assert !Enabled(p, s, Dispatch(0));
  }

  lemma QuiescentLengths<T(!new)>(p: Params<T>, s: State<T>)
    requires Inv(p, s) && Quiescent(p, s)
    ensures |s.received| + |s.fifo.readable| + |InHand(s.writer)| == |p.initial| + |s.begun|
    ensures !p.route.Unmapped? ==>
              s.transfers + (if s.writer.Requesting? then 1 else 0) == |p.initial| + |s.begun|
  {
    QuiescentFacts(p, s);
    assert |s.received + Contents(s.fifo) + InHand(s.writer)| == |p.initial| + |s.begun|;
    assert OwnCount(s.queue) == 0;
  }

  /**
   No deadlock: when nothing can move and the writer is not held by a finite transmit
   buffer, a writer inside the channel faces a full buffer and an idle reader, and a
   reader inside the channel has read every value ever written and faces an idle
   writer. With the writer held, a reader inside the channel has read every value
   but the one held.
   */
  lemma NoDeadlock<T(!new)>(p: Params<T>, s: State<T>, ms: seq<Move<T>>)
    requires ValidParams(p) && Reachable(p, s, ms) && Quiescent(p, s)
    ensures s.writer.Requesting? ==> p.route.ViaFiniteInterface?
    ensures s.writer.WriterIdle? || s.writer.Requesting? || s.reader.ReaderIdle?
    ensures s.writer.Storing? ==> |s.fifo.readable| == p.capacity
    ensures s.writer.WriterIdle? || s.writer.Requesting? || s.writer.Storing?
    ensures !s.reader.ReaderIdle? ==> s.fifo.readable == [] && s.received + InHand(s.writer) == p.initial + s.begun
  {
    ReachableInv(p, s, ms);
    QuiescentFacts(p, s);
    QuiescentLengths(p, s);
    if !s.reader.ReaderIdle? {
      assert s.fifo.readable == [];
      assert s.received + ([] + []) + InHand(s.writer) == s.received + InHand(s.writer);
    }
  }
}
