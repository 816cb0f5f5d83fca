/**
 * The lock-free ring between the hot path and the sync thread (src/event_promoter.cpp), at the
 * level of single loads, stores and word copies, sequentially consistent. One producer, and
 * consumers that take turns under the consumer mutex. A run is any list of moves.
 */
module EventRing {
  import opened Common

  const RING_SLOTS: nat := 512

  /** The constructor's clamp of the configured capacity. */
  function Capacity(configured: nat): nat {
    Min(Max(configured, 2), RING_SLOTS)
  }

  lemma CapacityFits(configured: nat)
    ensures 2 <= Capacity(configured) <= RING_SLOTS
    ensures 2 <= configured <= RING_SLOTS ==> Capacity(configured) == configured
  {}

  /** An event as the words it is copied by. */
  type Item = seq<int>

  /** Where enqueue is: between calls, past the load of head, or copying word by word. */
  datatype Producer =
    | Waiting
    | Called(obs: Item)
    | SawHead(obs: Item, head: nat, pendingThen: int)
    | Filling(obs: Item, slot: nat, copied: nat)

  /** Where tryDequeue is. */
  datatype Consumer = Resting | SawOwnHead(at: nat) | Draining(slot: nat, out: Item)

  /** `enqueued` and `dequeued` list the completed calls; `rejected` counts refused enqueues. */
  datatype Ring = Ring(
    cap: nat, width: nat, slots: seq<Item>, head: nat, tail: nat,
    producer: Producer, consumer: Consumer,
    enqueued: seq<Item>, dequeued: seq<Item>, rejected: nat)

  datatype Move = Call(obs: Item) | ProducerMove | ConsumerMove

  /** The next access of enqueue. */
  function ProducerStep(s: Ring): Ring
    requires s.cap > 0 && |s.slots| == RING_SLOTS
  {
    match s.producer
    case Waiting => s
    case Called(obs) => s.(producer := SawHead(obs, s.head, Distance(s.head, s.tail, s.cap)))
    case SawHead(obs, h, _) =>
      if (s.tail + 1) % s.cap == h then s.(producer := Waiting, rejected := s.rejected + 1)
      else s.(producer := Filling(obs, s.tail, 0))
    case Filling(obs, t, n) =>
      if n < |obs| && t < |s.slots| && n < |s.slots[t]| then
        s.(slots := s.slots[t := s.slots[t][n := obs[n]]], producer := Filling(obs, t, n + 1))
      else
        s.(tail := (t + 1) % s.cap, producer := Waiting, enqueued := s.enqueued + [obs])
  }

  /** The next access of tryDequeue. */
  function ConsumerStep(s: Ring): Ring
    requires s.cap > 0 && |s.slots| == RING_SLOTS
  {
    match s.consumer
    case Resting => s.(consumer := SawOwnHead(s.head))
    case SawOwnHead(h) =>
      if h == s.tail then s.(consumer := Resting) else s.(consumer := Draining(h, []))
    case Draining(h, out) =>
      if |out| < s.width && h < |s.slots| && |out| < |s.slots[h]| then
        s.(consumer := Draining(h, out + [s.slots[h][|out|]]))
      else
        s.(head := (h + 1) % s.cap, consumer := Resting, dequeued := s.dequeued + [out])
  }

  function Act(s: Ring, m: Move): Ring
    requires s.cap > 0 && |s.slots| == RING_SLOTS
  {
    match m
    case Call(obs) => if s.producer == Waiting && |obs| == s.width then s.(producer := Called(obs)) else s
    case ProducerMove => ProducerStep(s)
    case ConsumerMove => ConsumerStep(s)
  }

  // ----- positions on the ring

  /** How many slots from `a` round to `b`. */
  function Distance(a: nat, b: nat, cap: nat): int {
    if a <= b then b - a else cap - a + b
  }

  /** The slot `i` places after `from`. */
  function Slot(from: nat, i: nat, cap: nat): int {
    if from + i < cap then from + i else from + i - cap
  }

  lemma NextSlot(x: nat, cap: nat)
    requires x < cap
    ensures (x + 1) % cap == Slot(x, 1, cap)
  {
    if x + 1 < cap {
      SmallMod(x + 1, cap);
    } else {
      assert (x + 1) % cap == 0;
    }
  }

  lemma SmallMod(x: nat, m: nat)
    requires x < m
    ensures x % m == x
  {}

  // ----- what every interleaving keeps

  function Pending(s: Ring): int { Distance(s.head, s.tail, s.cap) }

  ghost predicate Shape(s: Ring) {
    && 2 <= s.cap <= RING_SLOTS == |s.slots|
    && s.head < s.cap && s.tail < s.cap
    && (forall i :: 0 <= i < |s.slots| ==> |s.slots[i]| == s.width)
  }

  /** Between head and tail lie, in order, exactly the events not yet dequeued. */
  ghost predicate Fifo(s: Ring)
    requires Shape(s)
  {
    && |s.enqueued| == |s.dequeued| + Pending(s)
    && s.dequeued <= s.enqueued
    && (forall i :: 0 <= i < Pending(s) ==> s.slots[Slot(s.head, i, s.cap)] == s.enqueued[|s.dequeued| + i])
  }

  ghost predicate ProducerInv(s: Ring)
    requires Shape(s)
  {
    match s.producer
    case Waiting => true
    case Called(obs) => |obs| == s.width
    case SawHead(obs, h, n) =>
      |obs| == s.width && h < s.cap && n == Distance(h, s.tail, s.cap) && Pending(s) <= n
    case Filling(obs, t, n) =>
      |obs| == s.width && t == s.tail && n <= s.width && Pending(s) <= s.cap - 2 && s.slots[t][..n] == obs[..n]
  }

  ghost predicate ConsumerInv(s: Ring)
    requires Shape(s)
  {
    match s.consumer
    case Resting => true
    case SawOwnHead(h) => h == s.head
    case Draining(h, out) => h == s.head && Pending(s) >= 1 && |out| <= s.width && out == s.slots[h][..|out|]
  }

  ghost predicate Inv(s: Ring) {
    Shape(s) && Fifo(s) && ProducerInv(s) && ConsumerInv(s)
  }

  lemma CopyKeeps(s: Ring)
    requires Inv(s) && s.producer.Filling? && s.producer.copied < s.width
    ensures Inv(ProducerStep(s))
  {
    var Filling(obs, at, n) := s.producer;
    assert ProducerStep(s).slots[at][..n + 1] == obs[..n] + [obs[n]];
    assert forall i :: 0 <= i < Pending(s) ==> Slot(s.head, i, s.cap) != at;
  }

  lemma PublishKeeps(s: Ring)
    requires Inv(s) && s.producer.Filling? && s.producer.copied == s.width
    ensures Inv(ProducerStep(s))
  {
    NextSlot(s.tail, s.cap);
    var t := ProducerStep(s);
    var Filling(obs, at, n) := s.producer;
    assert s.slots[at] == s.slots[at][..n] == obs[..n] == obs;
    assert Slot(s.head, Pending(s), s.cap) == at;
    forall i | 0 <= i < Pending(t)
      ensures t.slots[Slot(t.head, i, t.cap)] == t.enqueued[|t.dequeued| + i]
    {
      if i < Pending(s) {
        assert s.slots[Slot(s.head, i, s.cap)] == s.enqueued[|s.dequeued| + i];
      }
    }
  }

  lemma ProducerKeeps(s: Ring)
    requires Inv(s)
    ensures Inv(ProducerStep(s))
  {
    if s.producer.Filling? {
      if s.producer.copied < s.width {
        CopyKeeps(s);
      } else {
        PublishKeeps(s);
      }
    } else {
      NextSlot(s.tail, s.cap);
    }
  }

  lemma ReleaseKeeps(s: Ring)
    requires Inv(s) && s.consumer.Draining? && |s.consumer.out| == s.width
    ensures Inv(ConsumerStep(s))
  {
    NextSlot(s.head, s.cap);
    var t := ConsumerStep(s);
    var Draining(h, out) := s.consumer;
    assert s.slots[h][..|out|] == s.slots[h];
    assert s.slots[Slot(s.head, 0, s.cap)] == s.enqueued[|s.dequeued|];
    forall i | 0 <= i < Pending(t)
      ensures t.slots[Slot(t.head, i, t.cap)] == t.enqueued[|t.dequeued| + i]
    {
      assert Slot(t.head, i, t.cap) == Slot(s.head, i + 1, s.cap);
    }
  }

  lemma ConsumerKeeps(s: Ring)
    requires Inv(s)
    ensures Inv(ConsumerStep(s))
  {
    if s.consumer.Draining? {
      var Draining(h, out) := s.consumer;
      if |out| < s.width {
        assert s.slots[h][..|out| + 1] == out + [s.slots[h][|out|]];
      } else {
        ReleaseKeeps(s);
      }
    }
  }

  /** A fresh ring of configured capacity `configured`, for events of `width` words. */
  function Fresh(configured: nat, width: nat): Ring {
    Ring(Capacity(configured), width, seq(RING_SLOTS, _ => seq(width, _ => 0)), 0, 0, Waiting, Resting, [], [], 0)
  }

  function Run(s: Ring, moves: seq<Move>): Ring
    requires s.cap > 0 && |s.slots| == RING_SLOTS
    ensures Run(s, moves).cap == s.cap && |Run(s, moves).slots| == RING_SLOTS
  {
    if moves == [] then s else Act(Run(s, moves[..|moves| - 1]), moves[|moves| - 1])
  }

  lemma {:induction false} RunKeeps(s: Ring, moves: seq<Move>)
    requires Inv(s)
    ensures Inv(Run(s, moves))
  {
    hide Act, Fifo, ProducerInv, ConsumerInv;
    if moves != [] {
      RunKeeps(s, moves[..|moves| - 1]);
      ActKeeps(Run(s, moves[..|moves| - 1]), moves[|moves| - 1]);
    }
  }

  lemma ActKeeps(s: Ring, m: Move)
    requires Inv(s)
    ensures Inv(Act(s, m))
  {
    match m {
      case Call(_) =>
      case ProducerMove => ProducerKeeps(s);
      case ConsumerMove => ConsumerKeeps(s);
    }
  }

  /**
   * Under every interleaving, for every configured capacity: what was dequeued followed by what
   * lies between head and tail is what was enqueued, each event whole; at most capacity - 1
   * events are pending; and no slot is written while it is being read.
   */
  lemma EveryInterleavingIsFifo(configured: nat, width: nat, moves: seq<Move>)
    ensures var s := Run(Fresh(configured, width), moves);
            && 0 <= Pending(s) <= s.cap - 1 && s.cap == Capacity(configured)
            && Shape(s)
            && s.dequeued + seq(Pending(s), i requires 0 <= i < Pending(s) => s.slots[Slot(s.head, i, s.cap)])
               == s.enqueued
            && (s.producer.Filling? && s.consumer.Draining? ==> s.producer.slot != s.consumer.slot)
  {
    var s0 := Fresh(configured, width);
    assert Inv(s0);
    assert s0.cap == Capacity(configured);
    hide Act, Run, Fresh, Capacity;
    RunKeeps(s0, moves);
  }

  /** A refused enqueue saw a full ring when it loaded head; an empty dequeue sees an empty one. */
  lemma RefusalsAreTrue(s: Ring)
    requires Inv(s)
    ensures ProducerStep(s).rejected > s.rejected ==> s.producer.pendingThen == s.cap - 1
    ensures s.consumer.SawOwnHead? && ConsumerStep(s).consumer == Resting ==> s.enqueued == s.dequeued
    ensures s.producer.Called? ==> ProducerStep(s).producer.pendingThen == |s.enqueued| - |s.dequeued|
  {
    NextSlot(s.tail, s.cap);
  }

  // ----- the atomic queue that the ring implements

  /** A call and its result, taking effect at one moment. */
  datatype Op<T> = Enqueue(item: T, ok: bool) | Dequeue(result: Option<T>)

  /** The result is the one a bounded queue holding `q` gives. */
  predicate Truthful<T(==)>(q: seq<T>, cap: nat, op: Op<T>) {
    match op
    case Enqueue(_, ok) => ok <==> |q| + 1 < cap
    case Dequeue(result) => result == if q == [] then None else Some(q[0])
  }

  function Effect<T>(q: seq<T>, op: Op<T>): seq<T> {
    match op
    case Enqueue(item, ok) => if ok then q + [item] else q
    case Dequeue(_) => if q == [] then q else q[1..]
  }

  function Played<T>(ops: seq<Op<T>>): seq<T> {
    if ops == [] then [] else Effect(Played(ops[..|ops| - 1]), ops[|ops| - 1])
  }

  /** Every result is the one of a bounded queue that starts empty and takes the calls one after the other. */
  predicate Legal<T(==)>(cap: nat, ops: seq<Op<T>>) {
    ops == [] || (Legal(cap, ops[..|ops| - 1]) && Truthful(Played(ops[..|ops| - 1]), cap, ops[|ops| - 1]))
  }

  lemma LegalSnoc<T>(cap: nat, ops: seq<Op<T>>, op: Op<T>)
    ensures Legal(cap, ops + [op]) <==> Legal(cap, ops) && Truthful(Played(ops), cap, op)
    ensures Played(ops + [op]) == Effect(Played(ops), op)
  {
    hide Truthful, Effect;
    assert (ops + [op])[..|ops|] == ops;
  }

  /** The events enqueued and not yet dequeued. */
  function Queue(s: Ring): seq<Item> {
    if |s.dequeued| <= |s.enqueued| then s.enqueued[|s.dequeued|..] else []
  }

  predicate LastCopy(s: Ring)
    requires s.producer.Filling?
  {
    var Filling(obs, t, n) := s.producer;
    !(n < |obs| && t < |s.slots| && n < |s.slots[t]|)
  }

  predicate LastRead(s: Ring)
    requires s.consumer.Draining?
  {
    var Draining(h, out) := s.consumer;
    !(|out| < s.width && h < |s.slots| && |out| < |s.slots[h]|)
  }

  /**
   * The call that takes effect with a move, if any: a refused enqueue when it loads head, an
   * accepted one when it stores tail, an empty dequeue when it loads tail, another when it stores head.
   */
  function Effects(s: Ring, m: Move): seq<Op<Item>>
    requires s.cap > 0
  {
    match m
    case Call(_) => []
    case ProducerMove =>
      if s.producer.Called? && (s.tail + 1) % s.cap == s.head then [Enqueue(s.producer.obs, false)]
      else if s.producer.Filling? && LastCopy(s) then [Enqueue(s.producer.obs, true)]
      else []
    case ConsumerMove =>
      if s.consumer.SawOwnHead? && s.consumer.at == s.tail then [Dequeue(None)]
      else if s.consumer.Draining? && LastRead(s) then [Dequeue(Some(s.consumer.out))]
      else []
  }

  /** Every move leaves the queue alone or is one call on it, with the result it would have atomically. */
  lemma ActIsAtomic(s: Ring, m: Move)
    requires Inv(s)
    ensures var t, ops := Act(s, m), Effects(s, m);
            if ops == [] then Queue(t) == Queue(s)
            else |ops| == 1 && Truthful(Queue(s), s.cap, ops[0]) && Queue(t) == Effect(Queue(s), ops[0])
  {
    if m.ProducerMove? {
      NextSlot(s.tail, s.cap);
      if s.producer.Filling? && LastCopy(s) {
        assert (s.enqueued + [s.producer.obs])[|s.dequeued|..] == Queue(s) + [s.producer.obs];
      }
    } else if m.ConsumerMove? && s.consumer.Draining? && LastRead(s) {
      FirstIsRead(s);
    }
  }

  /** A finished read has the oldest event. */
  lemma FirstIsRead(s: Ring)
    requires Inv(s) && s.consumer.Draining? && LastRead(s)
    ensures Queue(s) != [] && s.consumer.out == Queue(s)[0]
    ensures Queue(ConsumerStep(s)) == Queue(s)[1..]
  {
    var Draining(h, out) := s.consumer;
    assert out == s.slots[h][..|out|] == s.slots[h];
    assert s.slots[Slot(s.head, 0, s.cap)] == s.enqueued[|s.dequeued|];
  }

  /** The calls of a run in the order in which they take effect. */
  function Linearized(s: Ring, moves: seq<Move>): seq<Op<Item>>
    requires s.cap > 0 && |s.slots| == RING_SLOTS
  {
    if moves == [] then []
    else
      var before := moves[..|moves| - 1];
      Linearized(s, before) + Effects(Run(s, before), moves[|moves| - 1])
  }

  function Stored(ops: seq<Op<Item>>): seq<Item> {
    if ops == [] then []
    else
      var op := ops[|ops| - 1];
      Stored(ops[..|ops| - 1]) + if op.Enqueue? && op.ok then [op.item] else []
  }

  function Taken(ops: seq<Op<Item>>): seq<Item> {
    if ops == [] then []
    else
      var op := ops[|ops| - 1];
      Taken(ops[..|ops| - 1]) + if op.Dequeue? && op.result.Some? then [op.result.value] else []
  }

  function Refused(ops: seq<Op<Item>>): nat {
    if ops == [] then 0
    else
      var op := ops[|ops| - 1];
      Refused(ops[..|ops| - 1]) + if op.Enqueue? && !op.ok then 1 else 0
  }

  /** The producer has loaded a head that makes the ring full, and is about to return false. */
  predicate AboutToRefuse(s: Ring) {
    s.cap > 0 && s.producer.SawHead? && (s.tail + 1) % s.cap == s.producer.head
  }

  /** Refusals returned or about to be. */
  function Pledged(s: Ring): nat { s.rejected + if AboutToRefuse(s) then 1 else 0 }

  /** The calls of the run explain what was stored, taken and refused, and what is pending. */
  ghost predicate Explains(s: Ring, ops: seq<Op<Item>>) {
    && Legal(s.cap, ops) && Played(ops) == Queue(s)
    && Stored(ops) == s.enqueued && Taken(ops) == s.dequeued
    && Refused(ops) == Pledged(s)
  }

  lemma OpSnoc(ops: seq<Op<Item>>, op: Op<Item>)
    ensures Stored(ops + [op]) == Stored(ops) + if op.Enqueue? && op.ok then [op.item] else []
    ensures Taken(ops + [op]) == Taken(ops) + if op.Dequeue? && op.result.Some? then [op.result.value] else []
    ensures Refused(ops + [op]) == Refused(ops) + if op.Enqueue? && !op.ok then 1 else 0
  {
    assert (ops + [op])[..|ops|] == ops;
  }

  /** The lists of completed calls grow by what takes effect. */
  lemma ListsFollow(s: Ring, m: Move)
    requires Inv(s)
    ensures var t, ops := Act(s, m), Effects(s, m);
            && t.cap == s.cap
            && (ops == [] ==> t.enqueued == s.enqueued && t.dequeued == s.dequeued && Pledged(t) == Pledged(s))
            && (ops != [] ==>
                  && t.enqueued == s.enqueued + (if ops[0].Enqueue? && ops[0].ok then [ops[0].item] else [])
                  && t.dequeued == s.dequeued
                                   + (if ops[0].Dequeue? && ops[0].result.Some? then [ops[0].result.value] else [])
                  && Pledged(t) == Pledged(s) + (if ops[0].Enqueue? && !ops[0].ok then 1 else 0))
  {
    hide Fifo;
    assert s.enqueued + [] == s.enqueued && s.dequeued + [] == s.dequeued;
  }

  lemma ActIsExplained(s: Ring, m: Move, ops: seq<Op<Item>>)
    requires Inv(s) && Explains(s, ops)
    ensures Explains(Act(s, m), ops + Effects(s, m))
  {
    ActIsAtomic(s, m);
    ListsFollow(s, m);
    hide Act, Effects, Inv, Legal, Played, Queue, Truthful, Effect, Stored, Taken, Refused, Pledged;
    if Effects(s, m) == [] {
      assert ops + [] == ops;
    } else {
      LegalSnoc(s.cap, ops, Effects(s, m)[0]);
      OpSnoc(ops, Effects(s, m)[0]);
      assert ops + Effects(s, m) == ops + [Effects(s, m)[0]];
    }
  }

  /**
   * Every interleaving of single accesses is a sequence of atomic calls on a bounded queue: each
   * call takes effect at one of its own accesses, with the result it returns.
   */
  lemma {:induction false} EveryInterleavingIsAtomic(configured: nat, width: nat, moves: seq<Move>)
    ensures Explains(Run(Fresh(configured, width), moves), Linearized(Fresh(configured, width), moves))
  {
    var s0 := Fresh(configured, width);
    assert Inv(s0);
    hide Act, Inv, Effects, Explains, Fresh;
    if moves == [] {
      FreshIsExplained(configured, width);
    } else {
      var before := moves[..|moves| - 1];
      EveryInterleavingIsAtomic(configured, width, before);
      RunKeeps(s0, before);
      ActIsExplained(Run(s0, before), moves[|moves| - 1], Linearized(s0, before));
    }
  }

  lemma FreshIsExplained(configured: nat, width: nat)
    ensures Explains(Fresh(configured, width), [])
  {}
}
