/**
 * The camera frame ring in shared memory (shm_ring_buffer.hpp): one writer, and the bulk reader
 * that must see all slots as they were between two frames.
 */
module ShmRing {
  import opened Common
  import opened Seqlock

  /** Every word of the region except the lock. Pixels are bytes, copied one at a time. */
  datatype Addr =
    | WriteHead
    | SlotSeq(slot: nat)
    | TimestampUs(slot: nat)
    | FrameId(slot: nat)
    | Width(slot: nat)
    | Height(slot: nat)
    | Channels(slot: nat)
    | Pixel(slot: nat, offset: nat)

  datatype Config = Config(depth: nat, width: nat, height: nat) {
    function PixelBytes(): nat { width * height * 3 }
  }

  /** One call of write_frame. */
  datatype FrameCall = FrameCall(id: nat, timestampUs: nat, data: seq<byte>)

  // ----- the writer

  function CopiedBytes(cfg: Config, f: FrameCall): nat {
    if |f.data| <= cfg.PixelBytes() then |f.data| else cfg.PixelBytes()
  }

  function PixelStores(slot: nat, data: seq<byte>, n: nat): seq<Store<Addr>>
    requires n <= |data|
  {
    if n == 0 then [] else PixelStores(slot, data, n - 1) + [Store(Pixel(slot, n - 1), data[n - 1])]
  }

  function MetaStores(cfg: Config, slot: nat, f: FrameCall, slotSeq: int): seq<Store<Addr>> {
    [Store(SlotSeq(slot), (slotSeq + 1) % TWO32), Store(FrameId(slot), f.id),
     Store(TimestampUs(slot), f.timestampUs), Store(Width(slot), cfg.width), Store(Height(slot), cfg.height)]
  }

  /** The stores of write_frame, in program order, between its two increments of the global lock. */
  function Program(cfg: Config, mem: map<Addr, int>, f: FrameCall): seq<Store<Addr>>
    requires cfg.depth > 0
  {
    var slot := f.id % cfg.depth;
    var slotSeq := Read(mem, SlotSeq(slot));
    MetaStores(cfg, slot, f, slotSeq) + PixelStores(slot, f.data, CopiedBytes(cfg, f))
    + [Store(SlotSeq(slot), (slotSeq + 2) % TWO32), Store(WriteHead, slot)]
  }

  class ShmRingBuffer {
    const cfg: Config
    const shared: Region<Addr>

    constructor (cfg: Config)
      requires cfg.depth > 0
      ensures this.cfg == cfg && fresh(shared)
      ensures shared.mem == map[] && shared.lock == 0 && shared.trace == []
    {
      this.cfg := cfg;
      shared := new Region();
    }

    method WriteMeta(slot: nat, f: FrameCall, s: int)
      modifies shared
      ensures shared.lock == old(shared.lock)
      ensures shared.trace == old(shared.trace) + Puts(MetaStores(cfg, slot, f, s))
      ensures shared.mem == Apply(old(shared.mem), MetaStores(cfg, slot, f, s))
    {
      hide Apply;
      MetaApplied(shared.mem, cfg, slot, f, s);
      shared.Write(SlotSeq(slot), (s + 1) % TWO32);
      shared.Write(FrameId(slot), f.id);
      shared.Write(TimestampUs(slot), f.timestampUs);
      shared.Write(Width(slot), cfg.width);
      shared.Write(Height(slot), cfg.height);
    }

    /** Exactly one write of the protocol: lock, the program's stores in order, unlock. */
    method WriteFrame(f: FrameCall)
      requires cfg.depth > 0
      modifies shared
      ensures shared.trace == old(shared.trace) + [Bump] + Puts(Program(cfg, old(shared.mem), f)) + [Bump]
      ensures shared.mem == Apply(old(shared.mem), Program(cfg, old(shared.mem), f))
      ensures shared.lock == (old(shared.lock) + 2) % TWO32
    {
      hide Apply;
      ghost var before, begun := shared.mem, shared.trace + [Bump];
      ghost var done: seq<Store<Addr>> := [];
      var slot := f.id % cfg.depth;
      shared.FetchAdd();
      var s := Read(shared.mem, SlotSeq(slot));
      WriteMeta(slot, f, s);
      done := MetaStores(cfg, slot, f, s);
      var n := if |f.data| <= cfg.PixelBytes() then |f.data| else cfg.PixelBytes();
      for i := 0 to n
        invariant done == MetaStores(cfg, slot, f, s) + PixelStores(slot, f.data, i)
        invariant shared.trace == begun + Puts(done) && shared.mem == Apply(before, done)
        invariant shared.lock == (old(shared.lock) + 1) % TWO32
      {
        shared.Write(Pixel(slot, i), f.data[i]);
        PutMore(before, done, Store(Pixel(slot, i), f.data[i]));
        done := done + [Store(Pixel(slot, i), f.data[i])];
      }
      WriteTail(slot, s, before, done);
      assert done + [Store(SlotSeq(slot), (s + 2) % TWO32)] + [Store(WriteHead, slot)] == Program(cfg, before, f);
      shared.FetchAdd();
      TwoBumps(old(shared.lock));
    }

    method WriteTail(slot: nat, s: int, ghost before: map<Addr, int>, ghost done: seq<Store<Addr>>)
      requires shared.mem == Apply(before, done)
      modifies shared
      ensures shared.lock == old(shared.lock)
      ensures var stores := [Store(SlotSeq(slot), (s + 2) % TWO32)] + [Store(WriteHead, slot)];
              shared.trace == old(shared.trace) + Puts(stores)
              && shared.mem == Apply(before, done + [Store(SlotSeq(slot), (s + 2) % TWO32)] + [Store(WriteHead, slot)])
    {
      hide Apply;
      ghost var a, b := Store(SlotSeq(slot), (s + 2) % TWO32), Store(WriteHead, slot);
      PutMore(before, done, a);
      PutMore(before, done + [a], b);
      shared.Write(SlotSeq(slot), (s + 2) % TWO32);
      shared.Write(WriteHead, slot);
    }
  }

  lemma MetaApplied(mem: map<Addr, int>, cfg: Config, slot: nat, f: FrameCall, s: int)
    ensures Apply(mem, MetaStores(cfg, slot, f, s)) ==
            mem[SlotSeq(slot) := (s + 1) % TWO32][FrameId(slot) := f.id][TimestampUs(slot) := f.timestampUs]
               [Width(slot) := cfg.width][Height(slot) := cfg.height]
  {
    hide Apply;
    var m := MetaStores(cfg, slot, f, s);
    ApplyNothing(mem);
    ApplySnoc(mem, [], m[0]);
    ApplySnoc(mem, m[..1], m[1]);
    ApplySnoc(mem, m[..2], m[2]);
    ApplySnoc(mem, m[..3], m[3]);
    ApplySnoc(mem, m[..4], m[4]);
    assert m[..1] == [] + [m[0]] && m[..2] == m[..1] + [m[1]] && m[..3] == m[..2] + [m[2]];
    assert m[..4] == m[..3] + [m[3]] && m == m[..4] + [m[4]];
  }

  // ----- what the ring holds after some frames

  /** The memory once `frames` have been written, from zero-filled memory. */
  function MemoryAfter(cfg: Config, frames: seq<FrameCall>): map<Addr, int>
    requires cfg.depth > 0
  {
    if frames == [] then map[]
    else
      var mem := MemoryAfter(cfg, frames[..|frames| - 1]);
      Apply(mem, Program(cfg, mem, frames[|frames| - 1]))
  }

  /** The writes, as the lock's writer makes them. */
  function Writes(cfg: Config, frames: seq<FrameCall>): seq<seq<Store<Addr>>>
    requires cfg.depth > 0
  {
    seq(|frames|, i requires 0 <= i < |frames| => Program(cfg, MemoryAfter(cfg, frames[..i]), frames[i]))
  }

  lemma BoundaryIsMemoryAfter(cfg: Config, frames: seq<FrameCall>, run: seq<Shared<Addr>>, i: nat, k: nat)
    requires cfg.depth > 0 && Run(run, Writes(cfg, frames)) && run[0].mem == map[]
    requires i < |run| && k <= Completed(run[i])
    ensures k <= |frames| && run[i].history[k] == MemoryAfter(cfg, frames[..k])
  {
    hide Program, Apply, Run;
    var stages := seq(|frames| + 1, j requires 0 <= j <= |frames| => MemoryAfter(cfg, frames[..j]));
    forall j | 0 <= j < |frames| ensures stages[j + 1] == Apply(stages[j], Writes(cfg, frames)[j]) {
      assert frames[..j + 1][..j] == frames[..j];
    }
    BoundariesAre(run, Writes(cfg, frames), stages, i, k);
  }

  lemma {:induction false} PixelsApplied(mem: map<Addr, int>, slot: nat, data: seq<byte>, n: nat)
    requires n <= |data|
    ensures var m := Apply(mem, PixelStores(slot, data, n));
            && (forall o: nat :: Read(m, Pixel(slot, o)) == if o < n then data[o] else Read(mem, Pixel(slot, o)))
            && (forall a: Addr :: !(a.Pixel? && a.slot == slot) ==> Read(m, a) == Read(mem, a))
    decreases n
  {
    hide Apply;
    ApplyNothing(mem);
    if n > 0 {
      PixelsApplied(mem, slot, data, n - 1);
      ApplySnoc(mem, PixelStores(slot, data, n - 1), Store(Pixel(slot, n - 1), data[n - 1]));
    }
  }

  /** The slot shows frame `f`; pixels the frame did not supply are not constrained. */
  ghost predicate Shows(cfg: Config, mem: map<Addr, int>, slot: nat, f: FrameCall) {
    && Read(mem, FrameId(slot)) == f.id
    && Read(mem, TimestampUs(slot)) == f.timestampUs
    && Read(mem, Width(slot)) == cfg.width
    && Read(mem, Height(slot)) == cfg.height
    && (forall o: nat :: o < CopiedBytes(cfg, f) ==> Read(mem, Pixel(slot, o)) == f.data[o])
  }

  /** One frame replaces its own slot and the head, and leaves every other slot alone. */
  lemma ProgramEffect(cfg: Config, mem: map<Addr, int>, f: FrameCall)
    requires cfg.depth > 0
    ensures var m, slot := Apply(mem, Program(cfg, mem, f)), f.id % cfg.depth;
            && Shows(cfg, m, slot, f)
            && Read(m, WriteHead) == slot
            && (forall a: Addr :: a != WriteHead && a.slot != slot ==> Read(m, a) == Read(mem, a))
            && (forall o: nat :: CopiedBytes(cfg, f) <= o ==> Read(m, Pixel(slot, o)) == Read(mem, Pixel(slot, o)))
  {
    hide Apply;
    var slot := f.id % cfg.depth;
    var s := Read(mem, SlotSeq(slot));
    var n := CopiedBytes(cfg, f);
    var m1 := Apply(mem, MetaStores(cfg, slot, f, s));
    MetaApplied(mem, cfg, slot, f, s);
    PixelsApplied(m1, slot, f.data, n);
    var body := MetaStores(cfg, slot, f, s) + PixelStores(slot, f.data, n);
    ApplyAppend(mem, MetaStores(cfg, slot, f, s), PixelStores(slot, f.data, n));
    var a, b := Store(SlotSeq(slot), (s + 2) % TWO32), Store(WriteHead, slot);
    ApplySnoc(mem, body, a);
    ApplySnoc(mem, body + [a], b);
    assert Program(cfg, mem, f) == body + [a] + [b];
  }

  /** No frame after the `i`-th used its slot. */
  ghost predicate NewestInSlot(cfg: Config, frames: seq<FrameCall>, i: nat)
    requires cfg.depth > 0 && i < |frames|
  {
    forall j :: i < j < |frames| ==> frames[j].id % cfg.depth != frames[i].id % cfg.depth
  }

  /** A slot other than the one being written keeps showing its frame. */
  lemma OthersKeepShowing(cfg: Config, mem: map<Addr, int>, f: FrameCall, slot: nat, shown: FrameCall)
    requires cfg.depth > 0 && slot != f.id % cfg.depth && Shows(cfg, mem, slot, shown)
    ensures Shows(cfg, Apply(mem, Program(cfg, mem, f)), slot, shown)
  {
    ProgramEffect(cfg, mem, f);
    hide Program, Apply, CopiedBytes;
  }

  /** After any frames, each slot written to shows the newest frame of its residue. */
  lemma {:induction false} SlotShowsNewest(cfg: Config, frames: seq<FrameCall>, i: nat)
    requires cfg.depth > 0 && i < |frames| && NewestInSlot(cfg, frames, i)
    ensures Shows(cfg, MemoryAfter(cfg, frames), frames[i].id % cfg.depth, frames[i])
    ensures Read(MemoryAfter(cfg, frames), WriteHead) == frames[|frames| - 1].id % cfg.depth
    decreases |frames|
  {
    var n := |frames| - 1;
    var mem := MemoryAfter(cfg, frames[..n]);
    ProgramEffect(cfg, mem, frames[n]);
    hide Program, Apply, Shows;
    if i < n {
      NewestInFront(cfg, frames, i);
      SlotShowsNewest(cfg, frames[..n], i);
      OthersKeepShowing(cfg, mem, frames[n], frames[i].id % cfg.depth, frames[i]);
    }
  }

  lemma NewestInFront(cfg: Config, frames: seq<FrameCall>, i: nat)
    requires cfg.depth > 0 && i < |frames| - 1 && NewestInSlot(cfg, frames, i)
    ensures NewestInSlot(cfg, frames[..|frames| - 1], i)
    ensures frames[|frames| - 1].id % cfg.depth != frames[i].id % cfg.depth
  {}

  lemma NeighboursDiffer(x: nat, y: nat, depth: nat)
    requires depth > 0 && x < y < x + depth
    ensures x % depth != y % depth
  {
    var q := y / depth - x / depth;
    assert y - x == depth * q + (y % depth - x % depth);
    if q >= 1 {
      Grows(depth, q);
    }
  }

  lemma Grows(depth: nat, q: nat)
    requires q >= 1
    ensures depth * q >= depth
  {
    assert depth * (q - 1) >= 0;
  }

  ghost predicate ConsecutiveIds(frames: seq<FrameCall>) {
    forall i :: 0 <= i < |frames| ==> frames[i].id == frames[0].id + i
  }

  /** With consecutive ids the ring holds exactly the last `depth` frames, each at its residue. */
  lemma {:induction false} RingHoldsLatest(cfg: Config, frames: seq<FrameCall>, i: nat)
    requires cfg.depth > 0 && ConsecutiveIds(frames)
    requires |frames| - cfg.depth <= i < |frames|
    ensures Shows(cfg, MemoryAfter(cfg, frames), frames[i].id % cfg.depth, frames[i])
  {
    hide MemoryAfter;
    forall j | i < j < |frames|
      ensures frames[j].id % cfg.depth != frames[i].id % cfg.depth
    {
      NeighboursDiffer(frames[i].id, frames[j].id, cfg.depth);
    }
    SlotShowsNewest(cfg, frames, i);
  }

  // ----- the bulk reader

  function PixelPlan(slot: nat, n: nat): seq<Addr> {
    if n == 0 then [] else PixelPlan(slot, n - 1) + [Pixel(slot, n - 1)]
  }

  /** The words read for one slot; its pixels only when they fit the caller's buffer. */
  function SlotPlan(cfg: Config, slot: nat, pixelsCap: nat): seq<Addr> {
    [TimestampUs(slot), FrameId(slot), Width(slot), Height(slot), Channels(slot)]
    + if slot * cfg.PixelBytes() + cfg.PixelBytes() <= pixelsCap then PixelPlan(slot, cfg.PixelBytes()) else []
  }

  function SlotsPlan(cfg: Config, slots: nat, pixelsCap: nat): seq<Addr> {
    if slots == 0 then [] else SlotsPlan(cfg, slots - 1, pixelsCap) + SlotPlan(cfg, slots - 1, pixelsCap)
  }

  /** Everything one attempt of snapshot_all reads between its two looks at the lock. */
  function Plan(cfg: Config, pixelsCap: nat): seq<Addr> {
    [WriteHead] + SlotsPlan(cfg, cfg.depth, pixelsCap)
  }

  /** What a snapshot attempt yields: the words read, and how many accesses were made in all. */
  datatype Snapshot = Exhausted | Taken(words: seq<int>, accesses: nat)

  /**
   * snapshot_all from access `clock` on. Exhausted means the schedule ended first, not that the
   * call returned.
   */
  function SnapshotAll(run: seq<Shared<Addr>>, at: seq<nat>, plan: seq<Addr>, clock: nat): Snapshot
    requires forall i :: 0 <= i < |at| ==> at[i] < |run|
    decreases |at| - clock
  {
    if clock >= |at| then Exhausted
    else
      var g1 := Lock(run[at[clock]]);
      if g1 % 2 == 1 then SnapshotAll(run, at, plan, clock + 1)
      else if clock + |plan| + 1 >= |at| then Exhausted
      else if g1 == Lock(run[at[clock + |plan| + 1]]) then
        Taken(CopyAt(run, at, plan, clock + 1), clock + |plan| + 2)
      else SnapshotAll(run, at, plan, clock + |plan| + 2)
  }

  /** The reader's loop; access number `clock` is made when the writer is at `run[at[clock]]`. */
  method SnapshotAllLoop(run: seq<Shared<Addr>>, at: seq<nat>, plan: seq<Addr>) returns (r: Snapshot)
    requires forall i :: 0 <= i < |at| ==> at[i] < |run|
    ensures r == SnapshotAll(run, at, plan, 0)
  {
    var clock := 0;
    while clock < |at|
      invariant 0 <= clock
      invariant SnapshotAll(run, at, plan, 0) == SnapshotAll(run, at, plan, clock)
      decreases |at| - clock
    {
      ghost var start := clock;
      var g1 := Lock(run[at[clock]]);
      clock := clock + 1;
      if g1 % 2 == 1 {
        continue;
      }
      var out: seq<int> := [];
      for i := 0 to |plan|
        invariant clock == start + 1 + i <= |at|
        invariant out == seq(i, j requires 0 <= j < i => Read(run[at[start + 1 + j]].mem, plan[j]))
      {
        if clock >= |at| {
          return Exhausted;
        }
        out := out + [Read(run[at[clock]].mem, plan[i])];
        clock := clock + 1;
      }
      if clock >= |at| {
        return Exhausted;
      }
      var g2 := Lock(run[at[clock]]);
      clock := clock + 1;
      assert out == CopyAt(run, at, plan, start + 1);
      if g1 == g2 {
        return Taken(out, clock);
      }
    }
    return Exhausted;
  }

  /**
   * Whenever snapshot_all returns, whatever the interleaving, its words are those of the ring
   * after some whole number of write_frame calls, completed between the call and the return.
   */
  lemma {:induction false} SnapshotIsOneBoundary(
      run: seq<Shared<Addr>>, writes: seq<seq<Store<Addr>>>, at: seq<nat>, plan: seq<Addr>, clock: nat)
    requires Run(run, writes) && Schedule(run, at) && NoWrap(run, at, |plan|)
    requires SnapshotAll(run, at, plan, clock).Taken?
    ensures var r := SnapshotAll(run, at, plan, clock);
            && 0 < r.accesses <= |at|
            && Consistent(r.words, plan, run[at[0]], run[at[r.accesses - 1]])
    decreases |at| - clock
  {
    hide CopyAt, Consistent, Lock;
    if Lock(run[at[clock]]) % 2 == 1 {
      SnapshotIsOneBoundary(run, writes, at, plan, clock + 1);
    } else if Lock(run[at[clock]]) == Lock(run[at[clock + |plan| + 1]]) {
      AttemptIsConsistent(run, writes, at, plan, clock);
    } else {
      SnapshotIsOneBoundary(run, writes, at, plan, clock + |plan| + 2);
    }
  }

  /** From access `from` on the writer is between writes and stays there. */
  ghost predicate Quiet(run: seq<Shared<Addr>>, at: seq<nat>, from: nat)
    requires forall i :: 0 <= i < |at| ==> at[i] < |run|
  {
    forall i :: from <= i < |at| ==> Lock(run[at[i]]) % 2 == 0 && Lock(run[at[i]]) == Lock(run[at[from]])
  }

  /** The call returns once the writer pauses for as long as two attempts take. */
  lemma {:induction false} SnapshotReturnsWhenQuiet(
      run: seq<Shared<Addr>>, at: seq<nat>, plan: seq<Addr>, clock: nat, from: nat)
    requires forall i :: 0 <= i < |at| ==> at[i] < |run|
    requires Quiet(run, at, from) && from + 2 * (|plan| + 2) <= |at| && clock < from + |plan| + 2
    ensures SnapshotAll(run, at, plan, clock).Taken?
    decreases |at| - clock
  {
    hide CopyAt, Lock;
    if Lock(run[at[clock]]) % 2 == 1 {
      SnapshotReturnsWhenQuiet(run, at, plan, clock + 1, from);
    } else if Lock(run[at[clock]]) != Lock(run[at[clock + |plan| + 1]]) {
      SnapshotReturnsWhenQuiet(run, at, plan, clock + |plan| + 2, from);
    }
  }

  // ----- the ring as a whole

  lemma {:induction false} PlanMentions(cfg: Config, slots: nat, pixelsCap: nat, slot: nat, a: Addr)
    requires slot < slots && a in SlotPlan(cfg, slot, pixelsCap)
    ensures a in SlotsPlan(cfg, slots, pixelsCap)
    decreases slots
  {
    hide SlotPlan;
    if slot < slots - 1 {
      PlanMentions(cfg, slots - 1, pixelsCap, slot, a);
    }
  }

  lemma {:induction false} PixelPlanMentions(slot: nat, n: nat, o: nat)
    requires o < n
    ensures Pixel(slot, o) in PixelPlan(slot, n)
    decreases n
  {
    if o < n - 1 {
      PixelPlanMentions(slot, n - 1, o);
    }
  }

  /** The copy a reader has of word `a`. */
  ghost predicate Got(plan: seq<Addr>, words: seq<int>, a: Addr, value: int)
    requires |words| == |plan|
  {
    exists j :: 0 <= j < |plan| && plan[j] == a && words[j] == value
  }

  lemma GotFrom(plan: seq<Addr>, mem: map<Addr, int>, a: Addr)
    requires a in plan
    ensures Got(plan, Values(mem, plan), a, Read(mem, a))
  {
    var j :| 0 <= j < |plan| && plan[j] == a;
    assert Values(mem, plan)[j] == Read(mem, a);
  }

  /** The reader's copy of a frame: its fields, and its pixels when they were asked for. */
  ghost predicate SlotGot(cfg: Config, pixelsCap: nat, words: seq<int>, f: FrameCall)
    requires cfg.depth > 0
  {
    var plan, slot := Plan(cfg, pixelsCap), f.id % cfg.depth;
    && |words| == |plan|
    && Got(plan, words, FrameId(slot), f.id)
    && Got(plan, words, TimestampUs(slot), f.timestampUs)
    && (slot * cfg.PixelBytes() + cfg.PixelBytes() <= pixelsCap ==>
          forall o: nat :: o < CopiedBytes(cfg, f) ==> Got(plan, words, Pixel(slot, o), f.data[o]))
  }

  /** The words `r` returned are the ring of the first `k` frames, completed between call and return. */
  ghost predicate ShowsPrefix(cfg: Config, frames: seq<FrameCall>, run: seq<Shared<Addr>>, at: seq<nat>,
                              pixelsCap: nat, r: Snapshot, k: nat)
    requires cfg.depth > 0 && Schedule(run, at)
  {
    && r.Taken? && 0 < r.accesses <= |at|
    && Completed(run[at[0]]) <= k <= Completed(run[at[r.accesses - 1]]) && k <= |frames|
    && r.words == Values(MemoryAfter(cfg, frames[..k]), Plan(cfg, pixelsCap))
    && (k > 0 ==> Got(Plan(cfg, pixelsCap), r.words, WriteHead, frames[k - 1].id % cfg.depth))
    && (forall i {:trigger frames[i]} :: 0 <= i < k && k - cfg.depth <= i ==>
          SlotGot(cfg, pixelsCap, r.words, frames[i]))
  }

  /**
   * Frames with consecutive ids, written while a reader snapshots: the reader gets the head of
   * the newest of some prefix of them and, for each of that prefix's last `depth` frames, the id and
   * timestamp, and every pixel when its buffer holds the slot, all from that one prefix.
   */
  lemma SnapshotShowsLatestFrames(
      cfg: Config, frames: seq<FrameCall>, run: seq<Shared<Addr>>, at: seq<nat>, pixelsCap: nat)
    requires cfg.depth > 0 && ConsecutiveIds(frames)
    requires Run(run, Writes(cfg, frames)) && run[0].mem == map[] && Schedule(run, at)
    requires NoWrap(run, at, |Plan(cfg, pixelsCap)|)
    requires SnapshotAll(run, at, Plan(cfg, pixelsCap), 0).Taken?
    ensures exists k: nat ::
              ShowsPrefix(cfg, frames, run, at, pixelsCap, SnapshotAll(run, at, Plan(cfg, pixelsCap), 0), k)
  {
    hide SnapshotAll, MemoryAfter, Plan, Values, Run;
    var plan := Plan(cfg, pixelsCap);
    var r := SnapshotAll(run, at, plan, 0);
    SnapshotIsOneBoundary(run, Writes(cfg, frames), at, plan, 0);
    var end := run[at[r.accesses - 1]];
    var k: nat :| Completed(run[at[0]]) <= k <= Completed(end) && r.words == Values(end.history[k], plan);
    BoundaryIsMemoryAfter(cfg, frames, run, at[r.accesses - 1], k);
    assert ConsecutiveIds(frames[..k]);
    if k > 0 {
      HeadGot(cfg, frames[..k], pixelsCap);
    }
    forall i | 0 <= i < k && k - cfg.depth <= i
      ensures SlotGot(cfg, pixelsCap, r.words, frames[i])
    {
      SlotIsGot(cfg, frames[..k], i, pixelsCap);
    }
    assert ShowsPrefix(cfg, frames, run, at, pixelsCap, r, k);
  }

  lemma {:induction false} HeadGot(cfg: Config, frames: seq<FrameCall>, pixelsCap: nat)
    requires cfg.depth > 0 && frames != []
    ensures Got(Plan(cfg, pixelsCap), Values(MemoryAfter(cfg, frames), Plan(cfg, pixelsCap)),
                WriteHead, frames[|frames| - 1].id % cfg.depth)
  {
    SlotShowsNewest(cfg, frames, |frames| - 1);
    hide MemoryAfter, SlotsPlan;
    assert Plan(cfg, pixelsCap)[0] == WriteHead;
    GotFrom(Plan(cfg, pixelsCap), MemoryAfter(cfg, frames), WriteHead);
  }

  lemma {:induction false} SlotIsGot(cfg: Config, frames: seq<FrameCall>, i: nat, pixelsCap: nat)
    requires cfg.depth > 0 && ConsecutiveIds(frames)
    requires |frames| - cfg.depth <= i < |frames|
    ensures SlotGot(cfg, pixelsCap, Values(MemoryAfter(cfg, frames), Plan(cfg, pixelsCap)), frames[i])
  {
    var f, mem, plan := frames[i], MemoryAfter(cfg, frames), Plan(cfg, pixelsCap);
    assert |Values(mem, plan)| == |plan|;
    hide MemoryAfter, SlotsPlan, PixelPlan, Values;
    var slot := f.id % cfg.depth;
    RingHoldsLatest(cfg, frames, i);
    var fields := SlotPlan(cfg, slot, pixelsCap);
    assert fields[1] == FrameId(slot) && fields[0] == TimestampUs(slot);
    PlanMentions(cfg, cfg.depth, pixelsCap, slot, FrameId(slot));
    PlanMentions(cfg, cfg.depth, pixelsCap, slot, TimestampUs(slot));
    GotFrom(plan, mem, FrameId(slot));
    GotFrom(plan, mem, TimestampUs(slot));
    if slot * cfg.PixelBytes() + cfg.PixelBytes() <= pixelsCap {
      forall o: nat | o < CopiedBytes(cfg, f)
        ensures Got(plan, Values(mem, plan), Pixel(slot, o), f.data[o])
      {
        PixelPlanMentions(slot, cfg.PixelBytes(), o);
        PlanMentions(cfg, cfg.depth, pixelsCap, slot, Pixel(slot, o));
        GotFrom(plan, mem, Pixel(slot, o));
      }
    }
  }
}
