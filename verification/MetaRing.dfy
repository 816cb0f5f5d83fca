/**
 * The per-frame metadata ring (frame_metadata_ring.hpp) and the serializer that unrolls a
 * snapshot of it (anti_death_node.cpp). The reader's `continue` jumps to the loop test, so an
 * attempt that finds the lock odd may leave the loop on the strength of a stale second reading.
 */
module MetaRing {
  import opened Common
  import opened Seqlock

  const DEPTH: nat := 300
  const RECORD_BYTES: nat := 101

  /** A packed metadata record, byte for byte. */
  type Record = r: seq<byte> | |r| == RECORD_BYTES witness seq(RECORD_BYTES, _ => 0)

  datatype Addr = WriteIdx | Byte(slot: nat, offset: nat)

  const BLANK_RECORD: Record := seq(RECORD_BYTES, _ => 0)

  // ----- the writer

  /** The copy of one record into its slot. */
  function RecordStores(slot: nat, r: Record, n: nat): seq<Store<Addr>>
    requires n <= RECORD_BYTES
  {
    if n == 0 then [] else RecordStores(slot, r, n - 1) + [Store(Byte(slot, n - 1), r[n - 1])]
  }

  /** The stores of write_metadata between its two increments of the lock. */
  function Program(mem: map<Addr, int>, r: Record): seq<Store<Addr>> {
    var idx := Read(mem, WriteIdx);
    RecordStores(idx % DEPTH, r, RECORD_BYTES) + [Store(WriteIdx, (idx + 1) % TWO32)]
  }

  class FrameMetadataRing {
    const shared: Region<Addr>

    constructor ()
      ensures fresh(shared) && shared.mem == map[] && shared.lock == 0 && shared.trace == []
    {
      shared := new Region();
    }

    /** Exactly one write of the protocol: lock, the record byte by byte, the index, unlock. */
    method WriteMetadata(meta: Record)
      modifies shared
      ensures shared.trace == old(shared.trace) + [Bump] + Puts(Program(old(shared.mem), meta)) + [Bump]
      ensures shared.mem == Apply(old(shared.mem), Program(old(shared.mem), meta))
      ensures shared.lock == (old(shared.lock) + 2) % TWO32
    {
      hide Apply;
      ghost var before, begun := shared.mem, shared.trace + [Bump];
      var idx := Read(shared.mem, WriteIdx);
      var slot := idx % DEPTH;
      ghost var done: seq<Store<Addr>> := [];
      shared.FetchAdd();
      ApplyNothing(before);
      assert Puts(done) == [];
      for i := 0 to RECORD_BYTES
        invariant done == RecordStores(slot, meta, i)
        invariant shared.trace == begun + Puts(done) && shared.mem == Apply(before, done)
        invariant shared.lock == (old(shared.lock) + 1) % TWO32
      {
        shared.Write(Byte(slot, i), meta[i]);
        PutMore(before, done, Store(Byte(slot, i), meta[i]));
        done := done + [Store(Byte(slot, i), meta[i])];
      }
      shared.Write(WriteIdx, (idx + 1) % TWO32);
      PutMore(before, done, Store(WriteIdx, (idx + 1) % TWO32));
      shared.FetchAdd();
      TwoBumps(old(shared.lock));
    }
  }

  /** The memory once `records` have been written to a ring that started as `first`, zero-filled if not given. */
  function MemoryAfter(records: seq<Record>, first: map<Addr, int> := map[]): map<Addr, int> {
    if records == [] then first
    else
      var mem := MemoryAfter(records[..|records| - 1], first);
      Apply(mem, Program(mem, records[|records| - 1]))
  }

  function Writes(records: seq<Record>, first: map<Addr, int> := map[]): seq<seq<Store<Addr>>> {
    seq(|records|, i requires 0 <= i < |records| => Program(MemoryAfter(records[..i], first), records[i]))
  }

  lemma {:induction false} RecordStored(mem: map<Addr, int>, slot: nat, r: Record, n: nat)
    requires n <= RECORD_BYTES
    ensures var m := Apply(mem, RecordStores(slot, r, n));
            forall a: Addr :: Read(m, a) ==
              if a.Byte? && a.slot == slot && a.offset < n then r[a.offset] else Read(mem, a)
    decreases n
  {
    if n > 0 {
      RecordStored(mem, slot, r, n - 1);
      hide Apply;
      ApplySnoc(mem, RecordStores(slot, r, n - 1), Store(Byte(slot, n - 1), r[n - 1]));
    }
  }

  /** The slot of the `i`-th record; the index wraps at 2^32, which 300 does not divide. */
  function SlotOf(i: nat): nat { i % TWO32 % DEPTH }

  /** The newest of `records` that was written to slot `slot`. */
  function InSlot(records: seq<Record>, slot: nat): Option<Record> {
    if records == [] then None
    else if SlotOf(|records| - 1) == slot then Some(records[|records| - 1])
    else InSlot(records[..|records| - 1], slot)
  }

  /** The ring in memory is the index and, slot by slot, the newest records. */
  lemma {:induction false} MemoryHoldsRing(records: seq<Record>)
    ensures Read(MemoryAfter(records), WriteIdx) == |records| % TWO32
    ensures forall slot: nat, o: nat :: o < RECORD_BYTES ==>
              Read(MemoryAfter(records), Byte(slot, o)) ==
              match InSlot(records, slot) case None => 0 case Some(r) => r[o]
    decreases |records|
  {
    if records != [] {
      var n := |records| - 1;
      MemoryHoldsRing(records[..n]);
      var mem := MemoryAfter(records[..n]);
      var slot := SlotOf(n);
      IndexWraps(n);
      RecordStored(mem, slot, records[n], RECORD_BYTES);
      hide Apply;
      ApplySnoc(mem, RecordStores(slot, records[n], RECORD_BYTES), Store(WriteIdx, (n + 1) % TWO32));
      assert Program(mem, records[n]) ==
             RecordStores(slot, records[n], RECORD_BYTES) + [Store(WriteIdx, (n + 1) % TWO32)];
      hide SlotOf;
    }
  }

  lemma IndexWraps(n: nat)
    ensures (n % TWO32 + 1) % TWO32 == (n + 1) % TWO32
  {}

  lemma BoundaryIsMemoryAfter(records: seq<Record>, run: seq<Shared<Addr>>, i: nat, k: nat)
    requires Run(run, Writes(records)) && run[0].mem == map[]
    requires i < |run| && k <= Completed(run[i])
    ensures k <= |records| && run[i].history[k] == MemoryAfter(records[..k])
  {
    hide Program, Apply, Run;
    var stages := seq(|records| + 1, j requires 0 <= j <= |records| => MemoryAfter(records[..j]));
    forall j | 0 <= j < |records| ensures stages[j + 1] == Apply(stages[j], Writes(records)[j]) {
      assert records[..j + 1][..j] == records[..j];
    }
    BoundariesAre(run, Writes(records), stages, i, k);
  }

  // ----- the reader

  /** All frame bytes in slot order, then the index. */
  function PlanAt(j: nat): Addr {
    if j < DEPTH * RECORD_BYTES then Byte(j / RECORD_BYTES, j % RECORD_BYTES) else WriteIdx
  }

  const PLAN_WORDS: nat := DEPTH * RECORD_BYTES + 1

  function Plan(): seq<Addr> { seq(PLAN_WORDS, j requires 0 <= j => PlanAt(j)) }

  /** How a call ends: the schedule is used up, or the loop is left after reading `s1`. */
  datatype Exit = Exhausted | Left(words: seq<int>, s1: nat, accesses: nat)

  /** snapshot from access `clock` on; `out` and `s2` are left over from earlier attempts. */
  function Snapshot(run: seq<Shared<Addr>>, at: seq<nat>, plan: seq<Addr>, clock: nat, out: seq<int>, s2: nat): Exit
    requires forall i :: 0 <= i < |at| ==> at[i] < |run|
    decreases |at| - clock
  {
    if clock >= |at| then Exhausted
    else
      var s1 := Lock(run[at[clock]]);
      if s1 % 2 == 1 then
        if s1 == s2 then Left(out, s1, clock + 1) else Snapshot(run, at, plan, clock + 1, out, s2)
      else if clock + |plan| + 1 >= |at| then Exhausted
      else
        var again := Lock(run[at[clock + |plan| + 1]]);
        if s1 == again then Left(CopyAt(run, at, plan, clock + 1), s1, clock + |plan| + 2)
        else Snapshot(run, at, plan, clock + |plan| + 2, CopyAt(run, at, plan, clock + 1), again)
  }

  /** The do-while loop itself. */
  method SnapshotLoop(run: seq<Shared<Addr>>, at: seq<nat>, plan: seq<Addr>, buffer: seq<int>) returns (r: Exit)
    requires forall i :: 0 <= i < |at| ==> at[i] < |run|
    ensures r == Snapshot(run, at, plan, 0, buffer, 0)
  {
    var out, s1, s2, clock := buffer, 0, 0, 0;
    var again := true;
    while again
      invariant 0 <= clock && 0 <= s2 && 0 <= s1
      invariant again ==> Snapshot(run, at, plan, 0, buffer, 0) == Snapshot(run, at, plan, clock, out, s2)
      invariant !again ==> Snapshot(run, at, plan, 0, buffer, 0) == Left(out, s1, clock)
      decreases |at| - clock, again
    {
      ghost var start, stale := clock, out;
      if clock >= |at| {
        return Exhausted;
      }
      s1 := Lock(run[at[clock]]);
      clock := clock + 1;
      if s1 % 2 == 0 {
        out := [];
        for i := 0 to |plan|
          invariant clock == start + 1 + i <= |at|
          invariant out == seq(i, j requires 0 <= j < i => Read(run[at[start + 1 + j]].mem, plan[j]))
        {
          if clock >= |at| {
            return Exhausted;
          }
          out := out + [Read(run[at[clock]].mem, plan[i])];
          clock := clock + 1;
        }
        if clock >= |at| {
          return Exhausted;
        }
        assert out == CopyAt(run, at, plan, start + 1);
        s2 := Lock(run[at[clock]]);
        clock := clock + 1;
      }
      again := s1 != s2;
    }
    return Left(out, s1, clock);
  }

  /** The promise of the header: what is returned is the ring between two writes. */
  ghost predicate Kept(run: seq<Shared<Addr>>, at: seq<nat>, plan: seq<Addr>, e: Exit)
    requires e.Left? && 0 < e.accesses <= |at|
    requires Schedule(run, at)
  {
    Consistent(e.words, plan, run[at[0]], run[at[e.accesses - 1]])
  }

  lemma {:induction false} AccessesInRange(
      run: seq<Shared<Addr>>, at: seq<nat>, plan: seq<Addr>, clock: nat, out: seq<int>, s2: nat)
    requires forall i :: 0 <= i < |at| ==> at[i] < |run|
    ensures var e := Snapshot(run, at, plan, clock, out, s2); e.Left? ==> clock < e.accesses <= |at|
    decreases |at| - clock
  {
    hide CopyAt, Lock;
    if clock < |at| {
      if Lock(run[at[clock]]) % 2 == 1 {
        AccessesInRange(run, at, plan, clock + 1, out, s2);
      } else if clock + |plan| + 1 < |at| {
        AccessesInRange(run, at, plan, clock + |plan| + 2, CopyAt(run, at, plan, clock + 1),
                        Lock(run[at[clock + |plan| + 1]]));
      }
    }
  }

  /** A call whose final attempt read an even lock keeps the promise, under every interleaving. */
  lemma {:induction false} EvenExitKeeps(
      run: seq<Shared<Addr>>, writes: seq<seq<Store<Addr>>>, at: seq<nat>, plan: seq<Addr>,
      clock: nat, out: seq<int>, s2: nat)
    requires Run(run, writes) && Schedule(run, at) && NoWrap(run, at, |plan|)
    requires var e := Snapshot(run, at, plan, clock, out, s2); e.Left? && e.s1 % 2 == 0
    ensures var e := Snapshot(run, at, plan, clock, out, s2);
            0 < e.accesses <= |at| && Kept(run, at, plan, e)
    decreases |at| - clock
  {
    hide CopyAt, Lock, Consistent;
    if Lock(run[at[clock]]) % 2 == 1 {
      EvenExitKeeps(run, writes, at, plan, clock + 1, out, s2);
    } else if Lock(run[at[clock]]) == Lock(run[at[clock + |plan| + 1]]) {
      AttemptIsConsistent(run, writes, at, plan, clock);
    } else {
      EvenExitKeeps(run, writes, at, plan, clock + |plan| + 2, CopyAt(run, at, plan, clock + 1),
                    Lock(run[at[clock + |plan| + 1]]));
    }
  }

  // ----- an odd exit breaks it

  /** The states of one write that has not released the lock yet. */
  function Midwrite(s: Shared<Addr>, n: nat): seq<Shared<Addr>>
    requires n <= |s.todo|
    decreases n
  {
    if n == 0 then [s]
    else Midwrite(s, n - 1) + [Shared(s.count, Apply(s.mem, s.todo[..n]), s.todo[n..], s.history)]
  }

  lemma {:induction false} MidwriteSteps(s: Shared<Addr>, writes: seq<seq<Store<Addr>>>, n: nat)
    requires n <= |s.todo| && Writing(s)
    ensures var m := Midwrite(s, n);
            && |m| == n + 1 && m[0] == s
            && m[n] == Shared(s.count, Apply(s.mem, s.todo[..n]), s.todo[n..], s.history)
            && forall i :: 0 <= i < n ==> Step(m[i], m[i + 1], writes)
    decreases n
  {
    hide Apply;
    assert s.todo[..0] == [] && s.todo[0..] == s.todo;
    assert Apply(s.mem, []) == s.mem by { ApplyNothing(s.mem); }
    if n > 0 {
      MidwriteSteps(s, writes, n - 1);
      assert s.todo[..n] == s.todo[..n - 1] + [s.todo[n - 1]];
      ApplySnoc(s.mem, s.todo[..n - 1], s.todo[n - 1]);
      var m := Midwrite(s, n);
      assert m[..n] == Midwrite(s, n - 1);
      assert Step(m[n - 1], m[n], writes);
    }
  }

  /** The slot to be written next holds `r` already. */
  ghost predicate SlotHolds(mem: map<Addr, int>, r: Record) {
    forall o: nat :: o < RECORD_BYTES ==> Read(mem, Byte(Read(mem, WriteIdx) % DEPTH, o)) == r[o]
  }

  /** The lock and the frames are read first of all; the index and the lock, twice, at `end`. */
  function TornSchedule(end: nat): seq<nat> {
    seq(PLAN_WORDS, _ => 0) + [end, end, end]
  }

  /**
   * Any record about to be written to any ring can tear a snapshot: the reader copies the frames,
   * the writer locks and stores, and the reader then picks up the new index, an odd second reading
   * and the same odd first reading, which ends the loop. The copy matches no boundary, neither
   * the one before that write nor the one after it unless the record was already in the slot.
   */
  lemma OddExitTears(s: Shared<Addr>, r: Record, buffer: seq<int>)
    returns (run: seq<Shared<Addr>>, at: seq<nat>)
    requires Initial(s) && 0 <= Read(s.mem, WriteIdx) < TWO32
    ensures Run(run, [Program(s.mem, r)]) && run[0] == s
    ensures Schedule(run, at) && NoWrap(run, at, PLAN_WORDS)
    ensures var e := Snapshot(run, at, Plan(), 0, buffer, 0);
            && e.Left? && e.s1 % 2 == 1 && 0 < e.accesses <= |at|
            && !Kept(run, at, Plan(), e)
            && e.words != Values(s.mem, Plan())
            && (e.words == Values(Apply(s.mem, Program(s.mem, r)), Plan()) ==>
                  SlotHolds(s.mem, r))
  {
    hide Apply, RecordStores;
    var prog := Program(s.mem, r);
    var n := |prog|;
    var locked := s.(count := s.count + 1, todo := prog);
    MidwriteSteps(locked, [prog], n);
    run := [s] + Midwrite(locked, n);
    forall i | 0 <= i < |run| - 1 ensures Step(run[i], run[i + 1], [prog]) {
      if i > 0 {
        assert run[i] == Midwrite(locked, n)[i - 1] && run[i + 1] == Midwrite(locked, n)[i];
      }
    }
    at := TornSchedule(n + 1);
    assert run[n + 1] == Midwrite(locked, n)[n];
    assert prog[..n] == prog;
    forall i | 0 <= i && i + PLAN_WORDS + 1 < |at|
      ensures run[at[i + PLAN_WORDS + 1]].count - run[at[i]].count < TWO32
    {
      assert at[i] == 0 && at[i + PLAN_WORDS + 1] == n + 1;
    }
    TornWords(s, r, run, at, buffer);
  }

  lemma TornWords(s: Shared<Addr>, r: Record, run: seq<Shared<Addr>>, at: seq<nat>, buffer: seq<int>)
    requires Initial(s) && 0 <= Read(s.mem, WriteIdx) < TWO32
    requires var n := |Program(s.mem, r)|;
             && |run| == n + 2 && run[0] == s
             && run[n + 1] == s.(count := s.count + 1, mem := Apply(s.mem, Program(s.mem, r)))
             && at == TornSchedule(n + 1)
    ensures Schedule(run, at)
    ensures var e := Snapshot(run, at, Plan(), 0, buffer, 0);
            && e.Left? && e.s1 % 2 == 1 && 0 < e.accesses <= |at|
            && !Kept(run, at, Plan(), e)
            && e.words != Values(s.mem, Plan())
            && (e.words == Values(Apply(s.mem, Program(s.mem, r)), Plan()) ==>
                  SlotHolds(s.mem, r))
  {
    hide Apply, RecordStores, Snapshot;
    var n := |Program(s.mem, r)|;
    var after := run[n + 1];
    var idx := Read(s.mem, WriteIdx);
    var stores := RecordStores(idx % DEPTH, r, RECORD_BYTES);
    RecordStored(s.mem, idx % DEPTH, r, RECORD_BYTES);
    ApplySnoc(s.mem, stores, Store(WriteIdx, (idx + 1) % TWO32));
    assert Program(s.mem, r) == stores + [Store(WriteIdx, (idx + 1) % TWO32)];
    var torn := CopyAt(run, at, Plan(), 1);
    assert torn[PLAN_WORDS - 1] == Read(after.mem, WriteIdx) == (idx + 1) % TWO32;
    assert Values(s.mem, Plan())[PLAN_WORDS - 1] == idx;
    ParityOfLock(s.count);
    ParityOfLock(s.count + 1);
    TornRun(run, at, buffer, n + 1);
    hide PlanAt;
    if torn == Values(after.mem, Plan()) {
      TornSlot(s, r, after.mem, torn);
    }
  }

  /** A copy with the old frames can only be the new ring if the record was there already. */
  lemma TornSlot(s: Shared<Addr>, r: Record, after: map<Addr, int>, torn: seq<int>)
    requires 0 <= Read(s.mem, WriteIdx)
    requires forall o: nat :: o < RECORD_BYTES ==> Read(after, Byte(Read(s.mem, WriteIdx) % DEPTH, o)) == r[o]
    requires torn == Values(after, Plan())
    requires forall j :: 0 <= j < PLAN_WORDS - 1 ==> torn[j] == Read(s.mem, PlanAt(j))
    ensures SlotHolds(s.mem, r)
  {
    var slot := Read(s.mem, WriteIdx) % DEPTH;
    forall o: nat | o < RECORD_BYTES
      ensures Read(s.mem, Byte(slot, o)) == r[o]
    {
      var j := slot * RECORD_BYTES + o;
      assert PlanAt(j) == Byte(slot, o);
      assert torn[j] == Read(s.mem, Byte(slot, o));
      assert Values(after, Plan())[j] == Read(after, Byte(slot, o));
    }
  }

  /** The loop on that schedule: one full attempt, then an odd reading equal to the stale one. */
  lemma TornRun(run: seq<Shared<Addr>>, at: seq<nat>, buffer: seq<int>, end: nat)
    requires 0 < end < |run| && at == TornSchedule(end)
    requires Lock(run[0]) % 2 == 0 && Lock(run[end]) % 2 == 1
    ensures forall i :: 0 <= i < |at| ==> at[i] < |run|
    ensures Snapshot(run, at, Plan(), 0, buffer, 0) ==
            Left(CopyAt(run, at, Plan(), 1), Lock(run[end]), PLAN_WORDS + 3)
  {
    hide Lock, CopyAt, PlanAt;
    var copied := CopyAt(run, at, Plan(), 1);
    assert at[0] == 0 && at[PLAN_WORDS + 1] == end && at[PLAN_WORDS + 2] == end;
    assert Snapshot(run, at, Plan(), PLAN_WORDS + 2, copied, Lock(run[end])) ==
           Left(copied, Lock(run[end]), PLAN_WORDS + 3);
    assert Snapshot(run, at, Plan(), 0, buffer, 0) ==
           Snapshot(run, at, Plan(), PLAN_WORDS + 2, copied, Lock(run[end]));
  }

  /** On this run and schedule the copy is neither the ring before the write nor, unless the slot held `r`, after it. */
  ghost predicate Tears(s: Shared<Addr>, r: Record, buffer: seq<int>, run: seq<Shared<Addr>>, at: seq<nat>) {
    && Run(run, [Program(s.mem, r)]) && run[0] == s && Schedule(run, at) && NoWrap(run, at, PLAN_WORDS)
    && var e := Snapshot(run, at, Plan(), 0, buffer, 0);
       && e.Left? && e.words != Values(s.mem, Plan())
       && (e.words == Values(Apply(s.mem, Program(s.mem, r)), Plan()) ==> SlotHolds(s.mem, r))
  }

  /** Every write to every ring can be interleaved with a snapshot so that the snapshot is torn. */
  lemma AnyWriteCanTear(s: Shared<Addr>, r: Record, buffer: seq<int>)
    requires Initial(s) && 0 <= Read(s.mem, WriteIdx) < TWO32
    ensures exists run: seq<Shared<Addr>>, at: seq<nat> :: Tears(s, r, buffer, run, at)
  {
    hide Snapshot, Program, Apply, Run, NoWrap, SlotHolds;
    var run, at := OddExitTears(s, r, buffer);
    assert Tears(s, r, buffer, run, at);
  }

  ghost predicate FaithfulOn(parity: nat, run: seq<Shared<Addr>>, at: seq<nat>, e: Exit)
    requires Schedule(run, at)
  {
    e.Left? && e.s1 % 2 == parity ==> 0 < e.accesses <= |at| && Kept(run, at, Plan(), e)
  }

  /** This call, if it ends on a first reading of this parity, keeps the promise. */
  ghost predicate KeepsOn(parity: nat, records: seq<Record>, run: seq<Shared<Addr>>, at: seq<nat>, buffer: seq<int>) {
    Run(run, Writes(records)) && Schedule(run, at) && NoWrap(run, at, PLAN_WORDS) ==>
      FaithfulOn(parity, run, at, Snapshot(run, at, Plan(), 0, buffer, 0))
  }

  ghost predicate Trustworthy(parity: nat) {
    forall records, run, at, buffer :: KeepsOn(parity, records, run, at, buffer)
  }

  /** The header's promise holds for a final attempt exactly when that attempt read an even lock. */
  lemma OnlyEvenExitsAreTrustworthy(parity: nat)
    requires parity < 2
    ensures Trustworthy(parity) <==> parity == 0
  {
    hide Snapshot, Kept, Run, NoWrap, Writes;
    if parity == 0 {
      forall records, run, at, buffer ensures KeepsOn(parity, records, run, at, buffer) {
        if Run(run, Writes(records)) && Schedule(run, at) && NoWrap(run, at, PLAN_WORDS) {
          var e := Snapshot(run, at, Plan(), 0, buffer, 0);
          if e.Left? && e.s1 % 2 == 0 {
            EvenExitKeeps(run, Writes(records), at, Plan(), 0, buffer, 0);
          }
        }
      }
    } else {
      var s := Shared(0, map[], [], [map[]]);
      var run, at := OddExitTears(s, BLANK_RECORD, []);
      OneWrite(BLANK_RECORD);
      assert !KeepsOn(parity, [BLANK_RECORD], run, at, []);
    }
  }

  lemma OneWrite(r: Record)
    ensures Writes([r]) == [Program(map[], r)]
  {
    hide Program;
    assert [r][..0] == [];
  }

  /** Any snapshot taken while `records` are written to the ring `s` keeps the promise. */
  ghost predicate AllKept(s: Shared<Addr>, records: seq<Record>) {
    forall run, at, buffer :: CallIsKept(s, records, run, at, buffer)
  }

  ghost predicate CallIsKept(
      s: Shared<Addr>, records: seq<Record>, run: seq<Shared<Addr>>, at: seq<nat>, buffer: seq<int>) {
    Run(run, Writes(records, s.mem)) && run[0] == s && Schedule(run, at) && NoWrap(run, at, PLAN_WORDS) ==>
      var e := Snapshot(run, at, Plan(), 0, buffer, 0);
      e.Left? ==> 0 < e.accesses <= |at| && Kept(run, at, Plan(), e)
  }

  /** Where every lock reading is even, so is the last. */
  lemma {:induction false} EvenLocksEvenExit(
      run: seq<Shared<Addr>>, at: seq<nat>, plan: seq<Addr>, clock: nat, out: seq<int>, s2: nat)
    requires forall i :: 0 <= i < |at| ==> at[i] < |run|
    requires forall i :: 0 <= i < |run| ==> Lock(run[i]) % 2 == 0
    ensures var e := Snapshot(run, at, plan, clock, out, s2); e.Left? ==> e.s1 % 2 == 0
    decreases |at| - clock
  {
    hide CopyAt, Lock;
    if clock + |plan| + 1 < |at| {
      EvenLocksEvenExit(run, at, plan, clock + |plan| + 2, CopyAt(run, at, plan, clock + 1),
                        Lock(run[at[clock + |plan| + 1]]));
    }
  }

  lemma QuietCallIsKept(s: Shared<Addr>, run: seq<Shared<Addr>>, at: seq<nat>, buffer: seq<int>)
    requires Initial(s) && Run(run, []) && run[0] == s && Schedule(run, at) && NoWrap(run, at, PLAN_WORDS)
    ensures var e := Snapshot(run, at, Plan(), 0, buffer, 0);
            e.Left? ==> 0 < e.accesses <= |at| && Kept(run, at, Plan(), e)
  {
    assert |run| > 1 ==> !Step(run[0], run[1], []);
    assert run == [s];
    ParityOfLock(s.count);
    hide Snapshot, Kept, PlanAt, Lock, NoWrap;
    EvenLocksEvenExit(run, at, Plan(), 0, buffer, 0);
    if Snapshot(run, at, Plan(), 0, buffer, 0).Left? {
      EvenExitKeeps(run, [], at, Plan(), 0, buffer, 0);
    }
  }

  /**
   * What a caller can tell beforehand: on any ring, the snapshots taken while `records` are written
   * keep the promise under every interleaving exactly when nothing is written at all.
   */
  lemma KeptIffNothingIsWritten(s: Shared<Addr>, records: seq<Record>)
    requires Initial(s) && 0 <= Read(s.mem, WriteIdx) < TWO32
    ensures AllKept(s, records) <==> records == []
  {
    hide Snapshot, Kept, NoWrap, Program, Apply;
    var writes := Writes(records, s.mem);
    if records == [] {
      assert writes == [];
      forall run, at, buffer ensures CallIsKept(s, records, run, at, buffer) {
        if Run(run, writes) && run[0] == s && Schedule(run, at) && NoWrap(run, at, PLAN_WORDS) {
          QuietCallIsKept(s, run, at, buffer);
        }
      }
    } else {
      var run, at := OddExitTears(s, records[0], []);
      assert records[..0] == [];
      RunOfMoreWrites(run, [Program(s.mem, records[0])], writes);
      assert !CallIsKept(s, records, run, at, []);
    }
  }

  // ----- unrolling a snapshot

  /** The frame array inside the words a snapshot returned. */
  function FramesOf(words: seq<int>): (frames: seq<seq<int>>)
    requires |words| == PLAN_WORDS
    ensures |frames| == DEPTH && forall s :: 0 <= s < DEPTH ==> |frames[s]| == RECORD_BYTES
  {
    seq(DEPTH, s requires 0 <= s < DEPTH => words[s * RECORD_BYTES..(s + 1) * RECORD_BYTES])
  }

  /** A serialized record: field names and the bytes of their values, in the order they are packed. */
  type PackedRecord = seq<(string, seq<int>)>

  /** The 14 fields that are serialized, at their offsets in the packed record. */
  function PackedFields(m: seq<int>): PackedRecord
    requires |m| == RECORD_BYTES
  {
    [("frame_id", m[8..12]), ("timestamp_us", m[0..8]), ("rri_score", m[12..16]), ("iss_score", m[16..20]),
     ("q_w", m[20..24]), ("q_x", m[24..28]), ("q_y", m[28..32]), ("q_z", m[32..36]),
     ("accel_x", m[36..40]), ("accel_y", m[40..44]), ("accel_z", m[44..48]),
     ("lat", m[52..60]), ("lon", m[60..68]), ("depth_hash", m[93..101])]
  }

  /** The records packed for a snapshot, oldest first. */
  method PackFrameMetadataArray(frames: seq<seq<int>>, writeIdx: nat) returns (packed: seq<PackedRecord>)
    requires |frames| == DEPTH && forall s :: 0 <= s < DEPTH ==> |frames[s]| == RECORD_BYTES
    ensures |packed| == if writeIdx <= DEPTH then writeIdx else DEPTH
    ensures forall i :: 0 <= i < |packed| ==> packed[i] == PackedFields(frames[(writeIdx - |packed| + i) % DEPTH])
  {
    hide PackedFields;
    var n := if writeIdx <= DEPTH then writeIdx else DEPTH;
    var startIdx := if writeIdx > DEPTH then writeIdx - DEPTH else 0;
    packed := [];
    for i := 0 to n
      invariant |packed| == i
      invariant forall j :: 0 <= j < i ==> packed[j] == PackedFields(frames[(startIdx + j) % DEPTH])
    {
      packed := packed + [PackedFields(frames[(startIdx + i) % DEPTH])];
    }
  }

  /** The last 300 records since the index was last 0 are each the newest in their slot. */
  lemma {:induction false} NewestInSlot(records: seq<Record>, i: nat)
    requires |records| - DEPTH <= i < |records| <= i + |records| % TWO32
    ensures InSlot(records, SlotOf(i)) == Some(records[i])
    decreases |records|
  {
    var n := |records| - 1;
    if i < n {
      SlotsDiffer(i, n);
      hide SlotOf;
      NewestInSlot(records[..n], i);
    }
  }

  lemma SlotsDiffer(i: nat, n: nat)
    requires i < n < i + DEPTH && n + 1 <= i + (n + 1) % TWO32
    ensures SlotOf(i) != SlotOf(n) && n <= i + n % TWO32
  {
    var b := n % TWO32;
    assert (n + 1) % TWO32 == b + 1;
    assert i % TWO32 == b - (n - i);
    NearResidues(i % TWO32, b);
  }

  lemma NearResidues(a: nat, b: nat)
    requires a < b < a + DEPTH
    ensures a % DEPTH != b % DEPTH
  {}

  lemma FramesAreSlots(records: seq<Record>, slot: nat)
    requires slot < DEPTH
    ensures InSlot(records, slot).Some? ==>
              FramesOf(Values(MemoryAfter(records), Plan()))[slot] == InSlot(records, slot).value
    ensures Values(MemoryAfter(records), Plan())[PLAN_WORDS - 1] == |records| % TWO32
  {
    MemoryHoldsRing(records);
    hide MemoryAfter, InSlot;
    var words := Values(MemoryAfter(records), Plan());
    if InSlot(records, slot).Some? {
      var r := InSlot(records, slot).value;
      forall o | 0 <= o < RECORD_BYTES ensures FramesOf(words)[slot][o] == r[o] {
        assert PlanAt(slot * RECORD_BYTES + o) == Byte(slot, o);
        assert words[slot * RECORD_BYTES + o] == r[o];
      }
      assert FramesOf(words)[slot] == r;
    }
  }

  /** Position `i` of the last `n` records since the index was last 0 is where the packer looks for it. */
  lemma PackedSlot(k: nat, n: nat, i: nat)
    requires i < n <= k % TWO32 && n <= DEPTH
    ensures k - DEPTH <= k - n + i < k <= k - n + i + k % TWO32
    ensures SlotOf(k - n + i) == (k % TWO32 - n + i) % DEPTH
  {
    assert (k - n + i) % TWO32 == k % TWO32 - n + i;
  }

  /**
   * A snapshot whose final attempt read an even lock packs to exactly the last 300 records, or all
   * since the index was last 0, of some prefix of the writes, oldest first, the prefix completed
   * between call and return.
   */
  method SnapshotAndPack(
      records: seq<Record>, run: seq<Shared<Addr>>, at: seq<nat>, buffer: seq<int>)
    returns (e: Exit, packed: seq<PackedRecord>, ghost k: nat)
    requires Run(run, Writes(records)) && run[0].mem == map[]
    requires Schedule(run, at) && NoWrap(run, at, PLAN_WORDS)
    ensures e == Snapshot(run, at, Plan(), 0, buffer, 0)
    ensures e.Left? && e.s1 % 2 == 0 ==>
              && 0 < e.accesses <= |at| && Completed(run[at[0]]) <= k <= Completed(run[at[e.accesses - 1]])
              && k <= |records| && |packed| == (if k % TWO32 <= DEPTH then k % TWO32 else DEPTH)
              && forall i :: 0 <= i < |packed| ==> packed[i] == PackedFields(records[k - |packed| + i])
  {
    hide Snapshot, PlanAt, MemoryAfter, Program, Run, FramesOf, InSlot, NoWrap, Writes, PackedFields, SlotOf;
    e := SnapshotLoop(run, at, Plan(), buffer);
    packed, k := [], 0;
    if e.Left? && e.s1 % 2 == 0 {
      EvenExitKeeps(run, Writes(records), at, Plan(), 0, buffer, 0);
      ghost var end := run[at[e.accesses - 1]];
      k :| Completed(run[at[0]]) <= k <= Completed(end) && e.words == Values(end.history[k], Plan());
      BoundaryIsMemoryAfter(records, run, at[e.accesses - 1], k);
      ghost var prefix := records[..k];
      FramesAreSlots(prefix, 0);
      packed := PackFrameMetadataArray(FramesOf(e.words), e.words[PLAN_WORDS - 1]);
      forall i | 0 <= i < |packed|
        ensures packed[i] == PackedFields(records[k - |packed| + i])
      {
        var from := k - |packed| + i;
        PackedSlot(k, |packed|, i);
        FramesAreSlots(prefix, SlotOf(from));
        NewestInSlot(prefix, from);
      }
    }
  }
}
