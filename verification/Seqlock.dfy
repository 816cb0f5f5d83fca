/**
 * A sequence lock over shared words: one writer, any number of readers, sequential consistency.
 * The writer moves in single stores. A reader's accesses are placed anywhere in the writer's run
 * by a schedule, so every interleaving is some run and schedule.
 */
module Seqlock {
  import opened Common

  datatype Store<A> = Store(at: A, value: int)

  /**
   * `count` is the number of increments made to the lock, which itself holds `count` modulo 2^32;
   * `todo` is what the write in progress has left to store; `history` is the memory at each
   * boundary between writes, the oldest first.
   */
  datatype Shared<!A> = Shared(count: nat, mem: map<A, int>, todo: seq<Store<A>>, history: seq<map<A, int>>)

  /** Shared memory starts zero-filled. */
  function Read<A>(mem: map<A, int>, at: A): int {
    if at in mem then mem[at] else 0
  }

  function Apply<A>(mem: map<A, int>, stores: seq<Store<A>>): map<A, int>
    decreases |stores|
  {
    if stores == [] then mem else Apply(mem[stores[0].at := stores[0].value], stores[1..])
  }

  function Lock<A>(s: Shared<A>): nat { s.count % TWO32 }

  predicate Writing<A>(s: Shared<A>) { s.count % 2 == 1 }

  ghost predicate Initial<A>(s: Shared<A>) {
    !Writing(s) && s.todo == [] && s.history == [s.mem]
  }

  /** How many writes have been completed. */
  function Completed<A>(s: Shared<A>): int { |s.history| - 1 }

  /** The writer's next step: take the lock, make one store, or release the lock. */
  ghost predicate Step<A>(s: Shared<A>, t: Shared<A>, writes: seq<seq<Store<A>>>) {
    if !Writing(s) then
      0 <= Completed(s) < |writes| && t == s.(count := s.count + 1, todo := writes[Completed(s)])
    else if s.todo != [] then
      t == s.(mem := s.mem[s.todo[0].at := s.todo[0].value], todo := s.todo[1..])
    else
      t == s.(count := s.count + 1, history := s.history + [s.mem])
  }

  ghost predicate Run<A>(run: seq<Shared<A>>, writes: seq<seq<Store<A>>>) {
    && run != [] && Initial(run[0])
    && forall i :: 0 <= i < |run| - 1 ==> Step(run[i], run[i + 1], writes)
  }

  /** A run is also a run of any longer list of writes. */
  lemma RunOfMoreWrites<A>(run: seq<Shared<A>>, writes: seq<seq<Store<A>>>, more: seq<seq<Store<A>>>)
    requires Run(run, writes) && writes <= more
    ensures Run(run, more)
  {
    forall i | 0 <= i < |run| - 1 ensures Step(run[i], run[i + 1], more) {
      assert Step(run[i], run[i + 1], writes);
    }
  }

  /** Between writes the memory is the newest boundary; the lock counts two for each write. */
  ghost predicate Inv<A>(first: Shared<A>, s: Shared<A>) {
    && s.history != []
    && s.count == first.count + 2 * Completed(s) + (if Writing(s) then 1 else 0)
    && (!Writing(s) ==> s.todo == [] && s.mem == s.history[Completed(s)])
  }

  lemma {:induction false} RunInv<A>(run: seq<Shared<A>>, writes: seq<seq<Store<A>>>, i: nat)
    requires Run(run, writes) && i < |run|
    ensures Inv(run[0], run[i])
    decreases i
  {
    if i > 0 {
      RunInv(run, writes, i - 1);
      assert Step(run[i - 1], run[i], writes);
    }
  }

  lemma {:induction false} RunGrows<A>(run: seq<Shared<A>>, writes: seq<seq<Store<A>>>, i: nat, j: nat)
    requires Run(run, writes) && i <= j < |run|
    ensures run[i].count <= run[j].count
    ensures run[i].history <= run[j].history
    decreases j
  {
    if i < j {
      RunGrows(run, writes, i, j - 1);
      assert Step(run[j - 1], run[j], writes);
    }
  }

  /** What is released at each boundary is the writes applied so far, whole and in order. */
  ghost predicate Chained<A>(s: Shared<A>, writes: seq<seq<Store<A>>>) {
    && 1 <= |s.history| <= |writes| + 1
    && (forall k :: 0 <= k < Completed(s) ==> s.history[k + 1] == Apply(s.history[k], writes[k]))
    && (Writing(s) ==> Completed(s) < |writes|
                       && Apply(s.mem, s.todo) == Apply(s.history[Completed(s)], writes[Completed(s)]))
  }

  lemma {:induction false} RunChained<A>(run: seq<Shared<A>>, writes: seq<seq<Store<A>>>, i: nat)
    requires Run(run, writes) && i < |run|
    ensures Chained(run[i], writes)
    decreases i
  {
    if i > 0 {
      RunChained(run, writes, i - 1);
      RunInv(run, writes, i - 1);
      var s, t := run[i - 1], run[i];
      assert Step(s, t, writes);
      if Writing(s) && s.todo == [] {
        forall k | 0 <= k < Completed(t)
          ensures t.history[k + 1] == Apply(t.history[k], writes[k])
        {
          if k < Completed(s) {
            assert t.history[k + 1] == s.history[k + 1];
          }
        }
      }
    }
  }

  /** When `stages` starts at the initial memory and each write leads from one to the next, they are the boundaries. */
  lemma {:induction false} BoundariesAre<A>(
      run: seq<Shared<A>>, writes: seq<seq<Store<A>>>, stages: seq<map<A, int>>, i: nat, k: nat)
    requires Run(run, writes) && |stages| == |writes| + 1 && stages[0] == run[0].mem
    requires forall j :: 0 <= j < |writes| ==> stages[j + 1] == Apply(stages[j], writes[j])
    requires i < |run| && k <= Completed(run[i])
    ensures k <= |writes| && run[i].history[k] == stages[k]
    decreases k
  {
    hide Apply;
    RunChained(run, writes, i);
    if k == 0 {
      RunGrows(run, writes, 0, i);
      assert run[0].history[0] == run[i].history[0];
    } else {
      BoundariesAre(run, writes, stages, i, k - 1);
      assert run[i].history[k - 1 + 1] == Apply(run[i].history[k - 1], writes[k - 1]);
      assert stages[k - 1 + 1] == Apply(stages[k - 1], writes[k - 1]);
    }
  }

  /** During a write, memory is the last boundary with the stores made so far. */
  ghost predicate InProgress<A>(s: Shared<A>, writes: seq<seq<Store<A>>>) {
    && 0 <= Completed(s) && (Completed(s) < |writes| || !Writing(s))
    && (Writing(s) ==>
          var w := writes[Completed(s)];
          && |s.todo| <= |w| && s.todo == w[|w| - |s.todo|..]
          && s.mem == Apply(s.history[Completed(s)], w[..|w| - |s.todo|]))
  }

  lemma {:induction false} RunProgresses<A>(run: seq<Shared<A>>, writes: seq<seq<Store<A>>>, i: nat)
    requires Run(run, writes) && i < |run|
    ensures InProgress(run[i], writes)
    decreases i
  {
    if i > 0 {
      RunProgresses(run, writes, i - 1);
      RunInv(run, writes, i - 1);
      var s, t := run[i - 1], run[i];
      assert Step(s, t, writes);
      hide Apply;
      if !Writing(s) {
        var w := writes[Completed(s)];
        assert w[..0] == [] && w[0..] == w;
        ApplyNothing(s.mem);
      } else if s.todo != [] {
        var w := writes[Completed(s)];
        var n := |w| - |s.todo|;
        assert w[..n + 1] == w[..n] + [w[n]] && w[n] == s.todo[0];
        ApplySnoc(s.history[Completed(s)], w[..n], w[n]);
        assert w[n + 1..] == s.todo[1..];
      }
    }
  }

  // ----- sequences of stores

  lemma ApplyNothing<A>(mem: map<A, int>)
    ensures Apply(mem, []) == mem
  {}

  lemma {:induction false} ApplySnoc<A>(mem: map<A, int>, stores: seq<Store<A>>, last: Store<A>)
    ensures Apply(mem, stores + [last]) == Apply(mem, stores)[last.at := last.value]
    decreases |stores|
  {
    if stores == [] {
      assert stores + [last] == [last] && [last][1..] == [];
    } else {
      assert (stores + [last])[1..] == stores[1..] + [last];
      ApplySnoc(mem[stores[0].at := stores[0].value], stores[1..], last);
    }
  }

  lemma {:induction false} ApplyAppend<A>(mem: map<A, int>, first: seq<Store<A>>, second: seq<Store<A>>)
    ensures Apply(mem, first + second) == Apply(Apply(mem, first), second)
    decreases |second|
  {
    if second == [] {
      assert first + second == first;
    } else {
      var n := |second| - 1;
      ApplyAppend(mem, first, second[..n]);
      ApplySnoc(mem, first + second[..n], second[n]);
      ApplySnoc(Apply(mem, first), second[..n], second[n]);
      assert first + second == first + second[..n] + [second[n]];
      assert second == second[..n] + [second[n]];
    }
  }

  /** What a writer does to shared memory: increments of the lock and stores. */
  datatype Access<A> = Bump | Put(store: Store<A>)

  function Puts<A>(stores: seq<Store<A>>): seq<Access<A>> {
    seq(|stores|, i requires 0 <= i < |stores| => Put(stores[i]))
  }

  lemma PutMore<A>(mem: map<A, int>, done: seq<Store<A>>, last: Store<A>)
    ensures Puts(done + [last]) == Puts(done) + [Put(last)]
    ensures Apply(mem, done + [last]) == Apply(mem, done)[last.at := last.value]
  {
    ApplySnoc(mem, done, last);
  }

  /** The lock and the words of a region, and what has been done to them. */
  class Region<A(==)> {
    var lock: nat
    var mem: map<A, int>
    /** The accesses made, in order. */
    ghost var trace: seq<Access<A>>

    constructor ()
      ensures mem == map[] && lock == 0 && trace == []
    {
      lock, mem, trace := 0, map[], [];
    }

    method FetchAdd()
      modifies this
      ensures lock == (old(lock) + 1) % TWO32 && mem == old(mem)
      ensures trace == old(trace) + [Bump]
    {
      lock := (lock + 1) % TWO32;
      trace := trace + [Bump];
    }

    method Write(at: A, value: int)
      modifies this
      ensures lock == old(lock) && mem == old(mem)[at := value]
      ensures trace == old(trace) + [Put(Store(at, value))]
    {
      mem := mem[at := value];
      trace := trace + [Put(Store(at, value))];
    }
  }

  lemma TwoBumps(g: nat)
    ensures ((g + 1) % TWO32 + 1) % TWO32 == (g + 2) % TWO32
  {}

  // ----- readers

  /** Where in the run a reader's successive accesses fall. */
  ghost predicate Schedule<A>(run: seq<Shared<A>>, at: seq<nat>) {
    && (forall i :: 0 <= i < |at| ==> at[i] < |run|)
    && (forall i, j :: 0 <= i <= j < |at| ==> at[i] <= at[j])
  }

  /** Fewer than 2^31 writes fall within one attempt: two lock reads and one read per word. */
  ghost predicate NoWrap<A>(run: seq<Shared<A>>, at: seq<nat>, words: nat)
    requires Schedule(run, at)
  {
    forall i :: 0 <= i && i + words + 1 < |at| ==>
      run[at[i + words + 1]].count - run[at[i]].count < TWO32
  }

  /** The words of `plan` as they are in `mem`. */
  function Values<A>(mem: map<A, int>, plan: seq<A>): seq<int> {
    seq(|plan|, j requires 0 <= j < |plan| => Read(mem, plan[j]))
  }

  /** The words of `plan`, each read at its own moment, the first at access `clock`. */
  function CopyAt<A>(run: seq<Shared<A>>, at: seq<nat>, plan: seq<A>, clock: nat): seq<int>
    requires forall i :: 0 <= i < |at| ==> at[i] < |run|
    requires clock + |plan| <= |at|
  {
    seq(|plan|, j requires 0 <= j < |plan| => Read(run[at[clock + j]].mem, plan[j]))
  }

  /** The copy is one boundary, completed no earlier than `from` and no later than `to`. */
  ghost predicate Consistent<A>(values: seq<int>, plan: seq<A>, from: Shared<A>, to: Shared<A>) {
    exists k: nat {:trigger to.history[k]} ::
      Completed(from) <= k <= Completed(to) && values == Values(to.history[k], plan)
  }

  lemma ResidueTells(c: nat, d: nat)
    requires c <= d < c + TWO32 && c % TWO32 == d % TWO32
    ensures c == d
  {}

  lemma ParityOfLock(c: nat)
    ensures c % TWO32 % 2 == c % 2
  {}

  /**
   * An attempt that began with an even lock and found it unchanged copied one boundary,
   * wherever the writer's steps fell between the reads.
   */
  lemma AttemptIsConsistent<A>(
      run: seq<Shared<A>>, writes: seq<seq<Store<A>>>, at: seq<nat>, plan: seq<A>, clock: nat)
    requires Run(run, writes) && Schedule(run, at) && NoWrap(run, at, |plan|)
    requires clock + |plan| + 1 < |at|
    requires Lock(run[at[clock]]) % 2 == 0 && Lock(run[at[clock]]) == Lock(run[at[clock + |plan| + 1]])
    ensures Consistent(CopyAt(run, at, plan, clock + 1), plan, run[at[0]], run[at[clock + |plan| + 1]])
  {
    var last := clock + |plan| + 1;
    var s, t := run[at[clock]], run[at[last]];
    RunGrows(run, writes, at[clock], at[last]);
    ResidueTells(s.count, t.count);
    ParityOfLock(s.count);
    RunInv(run, writes, at[clock]);
    RunInv(run, writes, at[last]);
    RunGrows(run, writes, at[0], at[clock]);
    var k := Completed(t);
    forall j | 0 <= j < |plan|
      ensures CopyAt(run, at, plan, clock + 1)[j] == Values(t.history[k], plan)[j]
    {
      var m := at[clock + 1 + j];
      RunGrows(run, writes, at[clock], m);
      RunGrows(run, writes, m, at[last]);
      RunInv(run, writes, m);
    }
    assert CopyAt(run, at, plan, clock + 1) == Values(t.history[k], plan);
  }
}
