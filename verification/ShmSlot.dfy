/**
 * Reading one slot of the camera frame ring under the slot's own lock (shm_ring_buffer.hpp), while
 * the writer of the ring goes on. The slot's lock is a word that write_frame stores to, so the
 * reader is placed in the same runs as the bulk reader.
 */
module ShmSlot {
  import opened Common
  import opened Seqlock
  import opened ShmRing

  predicate OfSlot(a: Addr, slot: nat) { a != WriteHead && a.slot == slot }

  predicate Goes(cfg: Config, f: FrameCall, slot: nat)
    requires cfg.depth > 0
  {
    f.id % cfg.depth == slot
  }

  /** How many of `frames` go to the slot. */
  function Visits(cfg: Config, frames: seq<FrameCall>, slot: nat): nat
    requires cfg.depth > 0
  {
    if frames == [] then 0
    else Visits(cfg, frames[..|frames| - 1], slot) + if Goes(cfg, frames[|frames| - 1], slot) then 1 else 0
  }

  lemma VisitsNext(cfg: Config, frames: seq<FrameCall>, k: nat, slot: nat)
    requires cfg.depth > 0 && k < |frames|
    ensures Visits(cfg, frames[..k + 1], slot)
            == Visits(cfg, frames[..k], slot) + if Goes(cfg, frames[k], slot) then 1 else 0
  {
    hide Goes;
    assert frames[..k + 1][..k] == frames[..k];
  }

  lemma {:induction false} VisitsGrow(cfg: Config, frames: seq<FrameCall>, j: nat, k: nat, slot: nat)
    requires cfg.depth > 0 && j <= k <= |frames|
    ensures Visits(cfg, frames[..j], slot) <= Visits(cfg, frames[..k], slot) <= Visits(cfg, frames[..j], slot) + k - j
    decreases k
  {
    hide Goes, Visits;
    if j < k {
      VisitsGrow(cfg, frames, j, k - 1, slot);
      VisitsNext(cfg, frames, k - 1, slot);
    }
  }

  // ----- what part of a frame's stores does to a slot

  lemma {:induction false} ApplyMisses(mem: map<Addr, int>, stores: seq<Store<Addr>>, a: Addr)
    requires forall j :: 0 <= j < |stores| ==> stores[j].at != a
    ensures Read(Apply(mem, stores), a) == Read(mem, a)
    decreases |stores|
  {
    if stores == [] {
      ApplyNothing(mem);
    } else {
      var n := |stores| - 1;
      assert stores == stores[..n] + [stores[n]];
      hide Apply;
      ApplyMisses(mem, stores[..n], a);
      ApplySnoc(mem, stores[..n], stores[n]);
    }
  }

  lemma {:induction false} PixelStoresAre(slot: nat, data: seq<byte>, n: nat)
    requires n <= |data|
    ensures |PixelStores(slot, data, n)| == n
    ensures forall j :: 0 <= j < n ==> PixelStores(slot, data, n)[j].at == Pixel(slot, j)
    decreases n
  {
    if n > 0 {
      PixelStoresAre(slot, data, n - 1);
    }
  }

  /** The stores of a frame: the slot's lock first and, but for the head, last, and only its own slot in between. */
  lemma ProgramIs(cfg: Config, mem: map<Addr, int>, f: FrameCall)
    requires cfg.depth > 0
    ensures var w, slot := Program(cfg, mem, f), f.id % cfg.depth;
            && |w| >= 7
            && w[0] == Store(SlotSeq(slot), (Read(mem, SlotSeq(slot)) + 1) % TWO32)
            && w[|w| - 2] == Store(SlotSeq(slot), (Read(mem, SlotSeq(slot)) + 2) % TWO32)
            && w[|w| - 1].at == WriteHead
            && (forall j :: 0 <= j < |w| - 1 ==> OfSlot(w[j].at, slot))
            && (forall j :: 0 < j < |w| - 2 ==> w[j].at != SlotSeq(slot))
  {
    PixelStoresAre(f.id % cfg.depth, f.data, CopiedBytes(cfg, f));
  }

  /** A frame of another slot, however far it has come, changes no word of this one. */
  lemma OthersDoNotTouch(cfg: Config, mem: map<Addr, int>, f: FrameCall, n: nat, slot: nat, a: Addr)
    requires cfg.depth > 0 && n <= |Program(cfg, mem, f)| && !Goes(cfg, f, slot) && OfSlot(a, slot)
    ensures Read(Apply(mem, Program(cfg, mem, f)[..n]), a) == Read(mem, a)
  {
    ProgramIs(cfg, mem, f);
    hide Program, Apply;
    ApplyMisses(mem, Program(cfg, mem, f)[..n], a);
  }

  /** While a frame of this slot is being written, the slot's lock is one up. */
  lemma LockIsTaken(cfg: Config, mem: map<Addr, int>, f: FrameCall, n: nat)
    requires cfg.depth > 0 && 1 <= n <= |Program(cfg, mem, f)| - 2
    ensures var slot := f.id % cfg.depth;
            Read(Apply(mem, Program(cfg, mem, f)[..n]), SlotSeq(slot)) == (Read(mem, SlotSeq(slot)) + 1) % TWO32
  {
    ProgramIs(cfg, mem, f);
    hide Program, Apply;
    var w, slot := Program(cfg, mem, f), f.id % cfg.depth;
    assert w[..n] == w[..1] + w[1..n] && w[..1] == [] + [w[0]];
    ApplyNothing(mem);
    ApplySnoc(mem, [], w[0]);
    ApplyAppend(mem, w[..1], w[1..n]);
    ApplyMisses(Apply(mem, w[..1]), w[1..n], SlotSeq(slot));
  }

  /** Once the lock is released, the slot is as the whole frame leaves it, before the head moves and after. */
  lemma LockIsReleased(cfg: Config, mem: map<Addr, int>, f: FrameCall, n: nat, a: Addr)
    requires cfg.depth > 0 && |Program(cfg, mem, f)| - 1 <= n <= |Program(cfg, mem, f)| && OfSlot(a, f.id % cfg.depth)
    ensures Read(Apply(mem, Program(cfg, mem, f)[..n]), a) == Read(Apply(mem, Program(cfg, mem, f)), a)
  {
    ProgramIs(cfg, mem, f);
    hide Program, Apply;
    var w := Program(cfg, mem, f);
    var m := |w| - 1;
    assert w == w[..m] + [w[m]] && w[..|w|] == w;
    ApplySnoc(mem, w[..m], w[m]);
  }

  lemma WholeFrameAddsTwo(cfg: Config, mem: map<Addr, int>, f: FrameCall)
    requires cfg.depth > 0
    ensures var slot := f.id % cfg.depth;
            Read(Apply(mem, Program(cfg, mem, f)), SlotSeq(slot)) == (Read(mem, SlotSeq(slot)) + 2) % TWO32
  {
    ProgramIs(cfg, mem, f);
    var w, slot := Program(cfg, mem, f), f.id % cfg.depth;
    LockIsReleased(cfg, mem, f, |w| - 1, SlotSeq(slot));
    hide Program, Apply;
    var m := |w| - 2;
    assert w[..m + 1] == w[..m] + [w[m]];
    ApplySnoc(mem, w[..m], w[m]);
  }

  /** Between frames the slot's lock is twice the number of frames it has had, modulo 2^32. */
  lemma {:induction false} LockCountsVisits(cfg: Config, frames: seq<FrameCall>, slot: nat)
    requires cfg.depth > 0
    ensures Read(MemoryAfter(cfg, frames), SlotSeq(slot)) == 2 * Visits(cfg, frames, slot) % TWO32
    decreases |frames|
  {
    if frames != [] {
      var n := |frames| - 1;
      var mem := MemoryAfter(cfg, frames[..n]);
      LockCountsVisits(cfg, frames[..n], slot);
      hide Program, Apply;
      if Goes(cfg, frames[n], slot) {
        WholeFrameAddsTwo(cfg, mem, frames[n]);
        AddTwo(2 * Visits(cfg, frames[..n], slot));
      } else {
        var w := Program(cfg, mem, frames[n]);
        assert w[..|w|] == w;
        OthersDoNotTouch(cfg, mem, frames[n], |w|, slot, SlotSeq(slot));
      }
    }
  }

  lemma AddTwo(v: nat)
    ensures (v % TWO32 + 2) % TWO32 == (v + 2) % TWO32
    ensures (v % TWO32 + 1) % TWO32 == (v + 1) % TWO32
  {}

  /** Prefixes with equally many frames of a slot leave the slot the same. */
  lemma {:induction false} SlotDependsOnVisits(cfg: Config, frames: seq<FrameCall>, j: nat, k: nat, slot: nat, a: Addr)
    requires cfg.depth > 0 && j <= k <= |frames| && OfSlot(a, slot)
    requires Visits(cfg, frames[..j], slot) == Visits(cfg, frames[..k], slot)
    ensures Read(MemoryAfter(cfg, frames[..j]), a) == Read(MemoryAfter(cfg, frames[..k]), a)
    decreases k
  {
    if j < k {
      VisitsGrow(cfg, frames, j, k - 1, slot);
      VisitsNext(cfg, frames, k - 1, slot);
      SlotDependsOnVisits(cfg, frames, j, k - 1, slot, a);
      var mem := MemoryAfter(cfg, frames[..k - 1]);
      var w := Program(cfg, mem, frames[k - 1]);
      assert frames[..k][..k - 1] == frames[..k - 1] && w[..|w|] == w;
      hide Program, Apply, Visits;
      OthersDoNotTouch(cfg, mem, frames[k - 1], |w|, slot, a);
    }
  }

  // ----- the slot's lock in a run

  /** A ring written from zero-filled memory, and one of its slots. */
  ghost predicate Written(cfg: Config, frames: seq<FrameCall>, run: seq<Shared<Addr>>) {
    cfg.depth > 0 && Run(run, Writes(cfg, frames)) && run[0].mem == map[]
  }

  /** The writer is in the middle of a frame, with `n` of its stores made. */
  ghost predicate Midway(cfg: Config, frames: seq<FrameCall>, s: Shared<Addr>, n: nat) {
    && cfg.depth > 0 && Writing(s) && 0 <= Completed(s) < |frames|
    && var w := Program(cfg, MemoryAfter(cfg, frames[..Completed(s)]), frames[Completed(s)]);
       n <= |w| && |s.todo| == |w| - n && s.mem == Apply(MemoryAfter(cfg, frames[..Completed(s)]), w[..n])
  }

  lemma StateIs(cfg: Config, frames: seq<FrameCall>, run: seq<Shared<Addr>>, i: nat) returns (n: nat)
    requires Written(cfg, frames, run) && i < |run|
    ensures 0 <= Completed(run[i]) <= |frames|
    ensures Writing(run[i]) ==> Midway(cfg, frames, run[i], n)
    ensures !Writing(run[i]) ==> run[i].mem == MemoryAfter(cfg, frames[..Completed(run[i])])
  {
    var s := run[i];
    RunProgresses(run, Writes(cfg, frames), i);
    RunInv(run, Writes(cfg, frames), i);
    RunChained(run, Writes(cfg, frames), i);
    hide Program, Apply, Run;
    BoundaryIsMemoryAfter(cfg, frames, run, i, Completed(s));
    n := 0;
    if Writing(s) {
      n := |Writes(cfg, frames)[Completed(s)]| - |s.todo|;
    }
  }

  /** How far the slot itself has come in the write in progress: untouched, taken, or released again. */
  ghost function Stage(cfg: Config, frames: seq<FrameCall>, s: Shared<Addr>, slot: nat): (stage: int)
    requires cfg.depth > 0
    ensures 0 <= stage <= 2
  {
    var k := Completed(s);
    if !(Writing(s) && 0 <= k < |frames| && Goes(cfg, frames[k], slot)) then 0
    else
      var w := Program(cfg, MemoryAfter(cfg, frames[..k]), frames[k]);
      if |s.todo| >= |w| then 0 else if |s.todo| >= 2 then 1 else 2
  }

  /** How often the slot's lock has been incremented, without wrapping. */
  ghost function Epoch(cfg: Config, frames: seq<FrameCall>, s: Shared<Addr>, slot: nat): int
    requires cfg.depth > 0 && 0 <= Completed(s) <= |frames|
  {
    2 * Visits(cfg, frames[..Completed(s)], slot) + Stage(cfg, frames, s, slot)
  }

  /** How many frames the slot shows the effect of while its lock is free. */
  ghost function Shown(cfg: Config, frames: seq<FrameCall>, s: Shared<Addr>, slot: nat): int
    requires cfg.depth > 0
  {
    Completed(s) + if Stage(cfg, frames, s, slot) == 2 then 1 else 0
  }

  /** The slot is touched only in a write of one of its own frames. */
  ghost predicate StageFits(cfg: Config, frames: seq<FrameCall>, s: Shared<Addr>, slot: nat) {
    && cfg.depth > 0 && 0 <= Completed(s) <= |frames|
    && (Stage(cfg, frames, s, slot) != 0 ==> Completed(s) < |frames| && Goes(cfg, frames[Completed(s)], slot))
  }

  /** The lock word is the epoch modulo 2^32; a word of the free slot is that of a whole number of frames. */
  ghost predicate SlotFits(cfg: Config, frames: seq<FrameCall>, s: Shared<Addr>, slot: nat, a: Addr) {
    && StageFits(cfg, frames, s, slot)
    && Read(s.mem, SlotSeq(slot)) == Epoch(cfg, frames, s, slot) % TWO32
    && (Stage(cfg, frames, s, slot) != 1 ==>
          Read(s.mem, a) == Read(MemoryAfter(cfg, frames[..Shown(cfg, frames, s, slot)]), a))
  }

  lemma SlotInRun(cfg: Config, frames: seq<FrameCall>, run: seq<Shared<Addr>>, i: nat, slot: nat, a: Addr)
    requires Written(cfg, frames, run) && i < |run| && OfSlot(a, slot)
    ensures SlotFits(cfg, frames, run[i], slot, a)
  {
    var s := run[i];
    var n := StateIs(cfg, frames, run, i);
    hide Run, Writes, MemoryAfter, Program, Apply, Visits, OfSlot, Goes;
    if !Writing(s) {
      LockCountsVisits(cfg, frames[..Completed(s)], slot);
    } else if Goes(cfg, frames[Completed(s)], slot) {
      OwnSlotInRun(cfg, frames, s, n, slot, a);
    } else {
      OtherSlotInRun(cfg, frames, s, n, slot, a);
    }
  }

  lemma OtherSlotInRun(cfg: Config, frames: seq<FrameCall>, s: Shared<Addr>, n: nat, slot: nat, a: Addr)
    requires Midway(cfg, frames, s, n) && !Goes(cfg, frames[Completed(s)], slot) && OfSlot(a, slot)
    ensures SlotFits(cfg, frames, s, slot, a)
  {
    var mem, f := MemoryAfter(cfg, frames[..Completed(s)]), frames[Completed(s)];
    LockCountsVisits(cfg, frames[..Completed(s)], slot);
    OthersDoNotTouch(cfg, mem, f, n, slot, a);
    OthersDoNotTouch(cfg, mem, f, n, slot, SlotSeq(slot));
    hide MemoryAfter, Program, Apply, Visits, Goes;
  }

  lemma OwnSlotInRun(cfg: Config, frames: seq<FrameCall>, s: Shared<Addr>, n: nat, slot: nat, a: Addr)
    requires Midway(cfg, frames, s, n) && Goes(cfg, frames[Completed(s)], slot) && OfSlot(a, slot)
    ensures SlotFits(cfg, frames, s, slot, a)
  {
    var k := Completed(s);
    var mem, f := MemoryAfter(cfg, frames[..k]), frames[k];
    var w := Program(cfg, mem, f);
    ProgramIs(cfg, mem, f);
    LockCountsVisits(cfg, frames[..k], slot);
    AddTwo(2 * Visits(cfg, frames[..k], slot));
    hide MemoryAfter, Program, Apply, Visits;
    if n == 0 {
      assert w[..0] == [];
      ApplyNothing(mem);
    } else if n <= |w| - 2 {
      LockIsTaken(cfg, mem, f, n);
    } else {
      SlotAfterFrame(cfg, frames, k);
      WholeFrameAddsTwo(cfg, mem, f);
      LockIsReleased(cfg, mem, f, n, a);
      LockIsReleased(cfg, mem, f, n, SlotSeq(slot));
    }
  }

  lemma SlotAfterFrame(cfg: Config, frames: seq<FrameCall>, k: nat)
    requires cfg.depth > 0 && k < |frames|
    ensures MemoryAfter(cfg, frames[..k + 1])
            == Apply(MemoryAfter(cfg, frames[..k]), Program(cfg, MemoryAfter(cfg, frames[..k]), frames[k]))
  {
    hide Program, Apply;
    assert frames[..k + 1][..k] == frames[..k];
  }

  lemma {:induction false} TodoShrinks(run: seq<Shared<Addr>>, writes: seq<seq<Store<Addr>>>, i: nat, j: nat)
    requires Run(run, writes) && i <= j < |run| && run[i].count == run[j].count
    ensures |run[j].todo| <= |run[i].todo|
    decreases j
  {
    if i < j {
      RunGrows(run, writes, i, j - 1);
      RunGrows(run, writes, j - 1, j);
      TodoShrinks(run, writes, i, j - 1);
      assert Step(run[j - 1], run[j], writes);
    }
  }

  lemma StageGrows(cfg: Config, frames: seq<FrameCall>, run: seq<Shared<Addr>>, i: nat, j: nat, slot: nat)
    requires Written(cfg, frames, run) && i <= j < |run| && Completed(run[i]) == Completed(run[j])
    ensures Stage(cfg, frames, run[i], slot) <= Stage(cfg, frames, run[j], slot)
  {
    var writes := Writes(cfg, frames);
    RunGrows(run, writes, i, j);
    RunInv(run, writes, i);
    RunInv(run, writes, j);
    if run[i].count == run[j].count {
      TodoShrinks(run, writes, i, j);
    }
    hide Run, Writes, MemoryAfter, Program, Goes;
  }

  /** The epoch never falls, and in `d` frames it grows by at most 2 * d + 2. */
  lemma EpochGrows(cfg: Config, frames: seq<FrameCall>, run: seq<Shared<Addr>>, i: nat, j: nat, slot: nat)
    requires Written(cfg, frames, run) && i <= j < |run|
    requires StageFits(cfg, frames, run[i], slot) && StageFits(cfg, frames, run[j], slot)
    ensures Completed(run[i]) <= Completed(run[j])
    ensures Epoch(cfg, frames, run[i], slot) <= Epoch(cfg, frames, run[j], slot)
            <= Epoch(cfg, frames, run[i], slot) + 2 * (Completed(run[j]) - Completed(run[i])) + 2
  {
    var k, l := Completed(run[i]), Completed(run[j]);
    RunGrows(run, Writes(cfg, frames), i, j);
    hide Run, Writes, Visits, MemoryAfter, Program, Stage, Goes;
    VisitsGrow(cfg, frames, k, l, slot);
    if k == l {
      StageGrows(cfg, frames, run, i, j, slot);
    } else {
      VisitsNext(cfg, frames, k, slot);
      VisitsGrow(cfg, frames, k + 1, l, slot);
    }
  }

  /** While the epoch is even, it is twice the visits of the frames shown. */
  lemma EvenEpoch(cfg: Config, frames: seq<FrameCall>, s: Shared<Addr>, slot: nat)
    requires StageFits(cfg, frames, s, slot) && Epoch(cfg, frames, s, slot) % 2 == 0
    ensures Stage(cfg, frames, s, slot) != 1 && 0 <= Shown(cfg, frames, s, slot) <= |frames|
    ensures Epoch(cfg, frames, s, slot) == 2 * Visits(cfg, frames[..Shown(cfg, frames, s, slot)], slot)
  {
    hide Visits, Stage, Goes;
    if Stage(cfg, frames, s, slot) == 2 {
      VisitsNext(cfg, frames, Completed(s), slot);
    }
  }

  // ----- the reader

  /** What is read for the slot: its fields, and as many pixel bytes as fit the caller's buffer. */
  function SlotReads(cfg: Config, slot: nat, pixelsCap: nat): seq<Addr> {
    [TimestampUs(slot), FrameId(slot), Width(slot), Height(slot), Channels(slot)]
    + PixelPlan(slot, if pixelsCap <= cfg.PixelBytes() then pixelsCap else cfg.PixelBytes())
  }

  lemma {:induction false} PixelPlanIsOfSlot(slot: nat, n: nat)
    ensures forall a :: a in PixelPlan(slot, n) ==> OfSlot(a, slot)
    decreases n
  {
    if n > 0 {
      PixelPlanIsOfSlot(slot, n - 1);
    }
  }

  lemma SlotReadsAreOfSlot(cfg: Config, slot: nat, pixelsCap: nat)
    ensures forall j :: 0 <= j < |SlotReads(cfg, slot, pixelsCap)| ==> OfSlot(SlotReads(cfg, slot, pixelsCap)[j], slot)
  {
    var n := if pixelsCap <= cfg.PixelBytes() then pixelsCap else cfg.PixelBytes();
    PixelPlanIsOfSlot(slot, n);
    hide PixelPlan;
    assert forall j :: 0 <= j < |PixelPlan(slot, n)| ==> PixelPlan(slot, n)[j] in PixelPlan(slot, n);
  }

  /** How a call ends: the schedule is used up, or it returns `ok` with the words in the buffers. */
  datatype SlotRead = Unfinished | Returned(ok: bool, words: seq<int>)

  function SnapshotSlot(run: seq<Shared<Addr>>, at: seq<nat>, slot: nat, plan: seq<Addr>): SlotRead
    requires forall i :: 0 <= i < |at| ==> at[i] < |run|
  {
    if |at| == 0 then Unfinished
    else
      var seq1 := Read(run[at[0]].mem, SlotSeq(slot));
      if seq1 % 2 == 1 then Returned(false, [])
      else if |plan| + 1 >= |at| then Unfinished
      else
        Returned(seq1 == Read(run[at[|plan| + 1]].mem, SlotSeq(slot)), CopyAt(run, at, plan, 1))
  }

  /** One attempt, without a loop around it. */
  method SnapshotSlotOnce(run: seq<Shared<Addr>>, at: seq<nat>, slot: nat, plan: seq<Addr>) returns (r: SlotRead)
    requires forall i :: 0 <= i < |at| ==> at[i] < |run|
    ensures r == SnapshotSlot(run, at, slot, plan)
  {
    if |at| == 0 {
      return Unfinished;
    }
    var seq1 := Read(run[at[0]].mem, SlotSeq(slot));
    if seq1 % 2 == 1 {
      return Returned(false, []);
    }
    var words: seq<int> := [];
    for i := 0 to |plan|
      invariant i + 1 <= |at|
      invariant words == seq(i, j requires 0 <= j < i => Read(run[at[1 + j]].mem, plan[j]))
    {
      if i + 1 >= |at| {
        return Unfinished;
      }
      words := words + [Read(run[at[1 + i]].mem, plan[i])];
    }
    if |plan| + 1 >= |at| {
      return Unfinished;
    }
    assert words == CopyAt(run, at, plan, 1);
    var seq2 := Read(run[at[|plan| + 1]].mem, SlotSeq(slot));
    return Returned(seq1 == seq2, words);
  }

  /** The words of the plan are those of the ring after `k` frames. */
  ghost predicate IsBoundary(cfg: Config, frames: seq<FrameCall>, plan: seq<Addr>, words: seq<int>, k: nat)
    requires cfg.depth > 0
  {
    k <= |frames| && words == Values(MemoryAfter(cfg, frames[..k]), plan)
  }

  /**
   * Whenever snapshot returns true, its words are those of the slot after one whole number of
   * frames, for every placement of the writer's steps: no fewer than were completed at the call and
   * at most one more than at the return, when the slot is finished before the frame's write is.
   */
  lemma SlotSnapshotIsOneBoundary(
      cfg: Config, frames: seq<FrameCall>, run: seq<Shared<Addr>>, at: seq<nat>, slot: nat, pixelsCap: nat)
    requires Written(cfg, frames, run) && Schedule(run, at)
    requires var plan := SlotReads(cfg, slot, pixelsCap);
             && SnapshotSlot(run, at, slot, plan).Returned? && SnapshotSlot(run, at, slot, plan).ok
             && |plan| + 1 < |at| && Completed(run[at[|plan| + 1]]) - Completed(run[at[0]]) < TWO32 / 2 - 1
    ensures var plan := SlotReads(cfg, slot, pixelsCap);
            exists k: nat ::
              && Completed(run[at[0]]) <= k <= Completed(run[at[|plan| + 1]]) + 1
              && IsBoundary(cfg, frames, plan, SnapshotSlot(run, at, slot, plan).words, k)
  {
    var plan := SlotReads(cfg, slot, pixelsCap);
    var last := at[|plan| + 1];
    SlotReadsAreOfSlot(cfg, slot, pixelsCap);
    SameWordSameEpoch(cfg, frames, run, at[0], last, slot);
    var k := Shown(cfg, frames, run[last], slot);
    hide SlotReads, Written, StageFits, Epoch, Stage, MemoryAfter;
    forall j | 0 <= j < |plan|
      ensures CopyAt(run, at, plan, 1)[j] == Read(MemoryAfter(cfg, frames[..k]), plan[j])
    {
      ReadsTheSame(cfg, frames, run, at[0], at[1 + j], last, slot, plan[j]);
    }
    assert CopyAt(run, at, plan, 1) == Values(MemoryAfter(cfg, frames[..k]), plan);
    assert IsBoundary(cfg, frames, plan, SnapshotSlot(run, at, slot, plan).words, k);
  }

  /** Equal even readings of the lock word are equal epochs, when too few frames fall in between to wrap it. */
  lemma SameWordSameEpoch(cfg: Config, frames: seq<FrameCall>, run: seq<Shared<Addr>>, i: nat, j: nat, slot: nat)
    requires Written(cfg, frames, run) && i <= j < |run|
    requires Read(run[i].mem, SlotSeq(slot)) == Read(run[j].mem, SlotSeq(slot))
    requires Read(run[i].mem, SlotSeq(slot)) % 2 == 0
    requires Completed(run[j]) - Completed(run[i]) < TWO32 / 2 - 1
    ensures StageFits(cfg, frames, run[i], slot) && StageFits(cfg, frames, run[j], slot)
    ensures Epoch(cfg, frames, run[i], slot) == Epoch(cfg, frames, run[j], slot)
    ensures Epoch(cfg, frames, run[i], slot) % 2 == 0
    ensures Completed(run[i]) <= Completed(run[j])
    ensures 0 <= Shown(cfg, frames, run[j], slot) <= |frames|
  {
    SlotInRun(cfg, frames, run, i, slot, SlotSeq(slot));
    SlotInRun(cfg, frames, run, j, slot, SlotSeq(slot));
    EpochGrows(cfg, frames, run, i, j, slot);
    hide Written, MemoryAfter, Visits, Stage;
    EpochIsNat(cfg, frames, run[i], slot);
    ResidueTells(Epoch(cfg, frames, run[i], slot), Epoch(cfg, frames, run[j], slot));
    ParityOfLock(Epoch(cfg, frames, run[i], slot));
    EvenEpoch(cfg, frames, run[j], slot);
  }

  lemma EpochIsNat(cfg: Config, frames: seq<FrameCall>, s: Shared<Addr>, slot: nat)
    requires StageFits(cfg, frames, s, slot)
    ensures Epoch(cfg, frames, s, slot) >= 0
  {
    hide Visits, Stage, Goes;
  }

  /** While the epoch stays even and the same, a word of the slot stays the same. */
  lemma ReadsTheSame(
      cfg: Config, frames: seq<FrameCall>, run: seq<Shared<Addr>>, i: nat, m: nat, j: nat, slot: nat, a: Addr)
    requires Written(cfg, frames, run) && i <= m <= j < |run| && OfSlot(a, slot)
    requires StageFits(cfg, frames, run[i], slot) && StageFits(cfg, frames, run[j], slot)
    requires Epoch(cfg, frames, run[i], slot) == Epoch(cfg, frames, run[j], slot)
    requires Epoch(cfg, frames, run[i], slot) % 2 == 0
    ensures 0 <= Shown(cfg, frames, run[j], slot) <= |frames|
    ensures Read(run[m].mem, a) == Read(MemoryAfter(cfg, frames[..Shown(cfg, frames, run[j], slot)]), a)
  {
    SlotInRun(cfg, frames, run, m, slot, a);
    EpochIsPinned(cfg, frames, run, i, m, j, slot);
    EvenEpoch(cfg, frames, run[m], slot);
    EvenEpoch(cfg, frames, run[j], slot);
    hide Written, MemoryAfter, Visits, Stage, Epoch, Goes, OfSlot, Shown, StageFits;
    var k, l := Shown(cfg, frames, run[m], slot), Shown(cfg, frames, run[j], slot);
    if k <= l {
      SlotDependsOnVisits(cfg, frames, k, l, slot, a);
    } else {
      SlotDependsOnVisits(cfg, frames, l, k, slot, a);
    }
  }

  lemma EpochIsPinned(
      cfg: Config, frames: seq<FrameCall>, run: seq<Shared<Addr>>, i: nat, m: nat, j: nat, slot: nat)
    requires Written(cfg, frames, run) && i <= m <= j < |run|
    requires StageFits(cfg, frames, run[i], slot) && StageFits(cfg, frames, run[j], slot)
    requires StageFits(cfg, frames, run[m], slot)
    requires Epoch(cfg, frames, run[i], slot) == Epoch(cfg, frames, run[j], slot)
    ensures Epoch(cfg, frames, run[m], slot) == Epoch(cfg, frames, run[j], slot)
  {
    EpochGrows(cfg, frames, run, i, m, slot);
    EpochGrows(cfg, frames, run, m, j, slot);
    hide Written, Visits, Stage, Epoch, Goes, StageFits;
  }

  // ----- what a true return shows

  /** The newest frame of a slot that has had one. */
  lemma {:induction false} NewestVisit(cfg: Config, frames: seq<FrameCall>, slot: nat) returns (i: nat)
    requires cfg.depth > 0 && Visits(cfg, frames, slot) > 0
    ensures i < |frames| && Goes(cfg, frames[i], slot) && NewestInSlot(cfg, frames, i)
    decreases |frames|
  {
    var n := |frames| - 1;
    i := n;
    if !Goes(cfg, frames[n], slot) {
      i := NewestVisit(cfg, frames[..n], slot);
    }
  }

  /** The buffers hold the fields of `f`, and its pixels as far as both it and the buffer reach. */
  ghost predicate SlotGotFrame(cfg: Config, words: seq<int>, f: FrameCall) {
    && |words| >= 5
    && words[0] == f.timestampUs && words[1] == f.id && words[2] == cfg.width && words[3] == cfg.height
    && forall j :: 5 <= j < |words| && j - 5 < CopiedBytes(cfg, f) ==> words[j] == f.data[j - 5]
  }

  lemma {:induction false} PixelPlanAt(slot: nat, n: nat)
    ensures |PixelPlan(slot, n)| == n && forall o :: 0 <= o < n ==> PixelPlan(slot, n)[o] == Pixel(slot, o)
    decreases n
  {
    if n > 0 {
      PixelPlanAt(slot, n - 1);
    }
  }

  lemma PixelReadAt(cfg: Config, slot: nat, pixelsCap: nat, j: nat)
    requires 5 <= j < |SlotReads(cfg, slot, pixelsCap)|
    ensures SlotReads(cfg, slot, pixelsCap)[j] == Pixel(slot, j - 5)
  {
    var n := if pixelsCap <= cfg.PixelBytes() then pixelsCap else cfg.PixelBytes();
    PixelPlanAt(slot, n);
    hide PixelPlan, Config.PixelBytes;
    assert SlotReads(cfg, slot, pixelsCap)[j] == PixelPlan(slot, n)[j - 5];
  }

  lemma SlotValuesShow(cfg: Config, mem: map<Addr, int>, slot: nat, pixelsCap: nat, f: FrameCall)
    requires Shows(cfg, mem, slot, f)
    ensures SlotGotFrame(cfg, Values(mem, SlotReads(cfg, slot, pixelsCap)), f)
  {
    var plan := SlotReads(cfg, slot, pixelsCap);
    assert |plan| >= 5 && plan[0] == TimestampUs(slot) && plan[1] == FrameId(slot);
    assert plan[2] == Width(slot) && plan[3] == Height(slot);
    hide SlotReads, CopiedBytes;
    forall j | 5 <= j < |plan| && j - 5 < CopiedBytes(cfg, f)
      ensures Values(mem, plan)[j] == f.data[j - 5]
    {
      PixelReadAt(cfg, slot, pixelsCap, j);
      PixelShown(cfg, mem, slot, f, j - 5);
    }
  }

  lemma PixelShown(cfg: Config, mem: map<Addr, int>, slot: nat, f: FrameCall, o: nat)
    requires Shows(cfg, mem, slot, f) && o < CopiedBytes(cfg, f)
    ensures Read(mem, Pixel(slot, o)) == f.data[o]
  {
    hide Read;
  }

  /** `i` is the newest of the first `k` frames to go to the slot, and `words` show it. */
  ghost predicate ShowsNewest(cfg: Config, frames: seq<FrameCall>, slot: nat, words: seq<int>, k: nat, i: nat) {
    && cfg.depth > 0 && i < k <= |frames| && Goes(cfg, frames[i], slot) && NewestInSlot(cfg, frames[..k], i)
    && SlotGotFrame(cfg, words, frames[i])
  }

  /**
   * When the slot had a frame before the call, a true return shows one frame whole: the newest of
   * the slot after some number of frames between those completed at the call and one more than
   * those completed at the return.
   */
  lemma SlotSnapshotShowsOneFrame(
      cfg: Config, frames: seq<FrameCall>, run: seq<Shared<Addr>>, at: seq<nat>, slot: nat, pixelsCap: nat)
    requires Written(cfg, frames, run) && Schedule(run, at)
    requires var plan := SlotReads(cfg, slot, pixelsCap);
             && SnapshotSlot(run, at, slot, plan).Returned? && SnapshotSlot(run, at, slot, plan).ok
             && |plan| + 1 < |at| && Completed(run[at[|plan| + 1]]) - Completed(run[at[0]]) < TWO32 / 2 - 1
    requires 0 <= Completed(run[at[0]]) <= |frames|
    requires Visits(cfg, frames[..Completed(run[at[0]])], slot) > 0
    ensures var plan := SlotReads(cfg, slot, pixelsCap);
            exists k: nat, i: nat ::
              && Completed(run[at[0]]) <= k <= Completed(run[at[|plan| + 1]]) + 1
              && ShowsNewest(cfg, frames, slot, SnapshotSlot(run, at, slot, plan).words, k, i)
  {
    var plan := SlotReads(cfg, slot, pixelsCap);
    var words := SnapshotSlot(run, at, slot, plan).words;
    SlotSnapshotIsOneBoundary(cfg, frames, run, at, slot, pixelsCap);
    hide SlotReads, Written, MemoryAfter, Visits, SnapshotSlot, Values;
    var k: nat :| && Completed(run[at[0]]) <= k <= Completed(run[at[|plan| + 1]]) + 1
                  && IsBoundary(cfg, frames, plan, words, k);
    VisitsGrow(cfg, frames, Completed(run[at[0]]), k, slot);
    var i := NewestVisit(cfg, frames[..k], slot);
    SlotShowsNewest(cfg, frames[..k], i);
    SlotValuesShow(cfg, MemoryAfter(cfg, frames[..k]), slot, pixelsCap, frames[i]);
    assert ShowsNewest(cfg, frames, slot, words, k, i);
  }
}
