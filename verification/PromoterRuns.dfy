/**
 * Whole runs of the promoter: any candidates, any clock readings that do not go back, and a
 * consumer taking events out at any point between submissions.
 */
module PromoterRuns {
  import opened Common
  import opened EventPromoter
  import Ring = EventRing

  datatype Step = Candidate(c: Observation, checkNow: nat, stampNow: nat) | Take

  /** The promoter after some steps, what it has accepted and what has been taken, and its last clock reading. */
  datatype Trace = Trace(book: Book, accepted: seq<Observation>, taken: seq<Observation>, clock: nat)

  /** A promoter's fixed surroundings. */
  datatype Setup = Setup(cfg: Config, dist: Distance, capacity: nat)

  function Advance(u: Setup, t: Trace, s: Step): Trace {
    match s
    case Candidate(c, checkNow, stampNow) =>
      var r := Submit(u.cfg, u.dist, u.capacity, t.book, c, checkNow, stampNow);
      Trace(r.book, t.accepted + (if r.accepted.Some? then [r.accepted.value] else []), t.taken, stampNow)
    case Take =>
      if t.book.pending == [] then t
      else t.(book := t.book.(pending := t.book.pending[1..]), taken := t.taken + [t.book.pending[0]])
  }

  function After(u: Setup, steps: seq<Step>): Trace {
    if steps == [] then Trace(Book([], [], 0), [], [], 0)
    else Advance(u, After(u, steps[..|steps| - 1]), steps[|steps| - 1])
  }

  lemma AfterCandidate(u: Setup, steps: seq<Step>, c: Observation, checkNow: nat, stampNow: nat)
    ensures After(u, steps + [Candidate(c, checkNow, stampNow)]) ==
            Advance(u, After(u, steps), Candidate(c, checkNow, stampNow))
  {
    hide Advance;
    assert (steps + [Candidate(c, checkNow, stampNow)])[..|steps|] == steps;
  }

  lemma AfterTake(u: Setup, steps: seq<Step>)
    ensures After(u, steps + [Take]) == Advance(u, After(u, steps), Take)
  {
    hide Advance;
    assert (steps + [Take])[..|steps|] == steps;
  }

  // ----- order and numbering

  ghost predicate Numbered(t: Trace) {
    && t.accepted == t.taken + t.book.pending
    && t.book.deviceSeq == |t.accepted|
    && (forall i :: 0 <= i < |t.accepted| ==> t.accepted[i].deviceSeq == i + 1)
  }

  /** A submission either leaves queue and number alone or appends one event with the next number. */
  lemma SubmitAppends(u: Setup, b: Book, c: Observation, checkNow: nat, stampNow: nat)
    ensures var r := Submit(u.cfg, u.dist, u.capacity, b, c, checkNow, stampNow);
            if r.accepted.None? then r.book.pending == b.pending && r.book.deviceSeq == b.deviceSeq
            else r.book.pending == b.pending + [r.accepted.value]
                 && r.accepted.value.deviceSeq == r.book.deviceSeq == b.deviceSeq + 1
  {
    hide Pruned, Recorded, Near, PassesGates;
  }

  lemma AdvanceKeepsNumbers(u: Setup, t: Trace, s: Step)
    requires Numbered(t)
    ensures Numbered(Advance(u, t, s))
  {
    hide Submit;
    match s {
      case Candidate(c, checkNow, stampNow) =>
        SubmitAppends(u, t.book, c, checkNow, stampNow);
      case Take =>
        if t.book.pending != [] {
          assert t.book.pending == [t.book.pending[0]] + t.book.pending[1..];
        }
    }
  }

  /** Taken events followed by pending ones are the accepted ones, numbered 1, 2, 3 and so on. */
  lemma {:induction false} AcceptedAreNumbered(u: Setup, steps: seq<Step>)
    ensures Numbered(After(u, steps))
    decreases |steps|
  {
    hide Advance;
    if steps != [] {
      AcceptedAreNumbered(u, steps[..|steps| - 1]);
      AdvanceKeepsNumbers(u, After(u, steps[..|steps| - 1]), steps[|steps| - 1]);
    }
  }

  // ----- the same queue as the ring's

  /** A candidate that passes the gates and is no duplicate, so that submit tries to enqueue it. */
  predicate ReachesRing(u: Setup, b: Book, c: Observation, checkNow: nat) {
    var kept := Pruned(b.history, CheckTime(c, checkNow), u.cfg.dedupWindowUs);
    PassesGates(u.cfg, c) && forall i :: 0 <= i < |kept| ==> !Near(u.cfg, u.dist, c, kept[i])
  }

  /** The calls that a step makes on the ring, with their results. */
  function CallsOf(u: Setup, b: Book, s: Step): seq<Ring.Op<Observation>> {
    match s
    case Candidate(c, checkNow, stampNow) =>
      if !ReachesRing(u, b, c, checkNow) then []
      else
        var accepted := Submit(u.cfg, u.dist, u.capacity, b, c, checkNow, stampNow).accepted.Some?;
        [Ring.Enqueue(Promoted(c, stampNow, b.deviceSeq + 1), accepted)]
    case Take => [Ring.Dequeue(if b.pending == [] then None else Some(b.pending[0]))]
  }

  function Calls(u: Setup, steps: seq<Step>): seq<Ring.Op<Observation>> {
    if steps == [] then []
    else
      var before := steps[..|steps| - 1];
      Calls(u, before) + CallsOf(u, After(u, before).book, steps[|steps| - 1])
  }

  lemma StepIsAtomicCall(u: Setup, t: Trace, s: Step)
    ensures var ops, p := CallsOf(u, t.book, s), Advance(u, t, s).book.pending;
            if ops == [] then p == t.book.pending
            else |ops| == 1 && Ring.Truthful(t.book.pending, u.capacity, ops[0])
                 && p == Ring.Effect(t.book.pending, ops[0])
  {
    hide Pruned, Recorded, Near, PassesGates;
  }

  /**
   * In every run of whole submissions and takes, the calls made on the ring are a legal history of
   * the atomic queue that every interleaving of the ring's single accesses is a history of.
   */
  lemma {:induction false} RunsPlayTheAtomicQueue(u: Setup, steps: seq<Step>)
    ensures Ring.Legal(u.capacity, Calls(u, steps)) && Ring.Played(Calls(u, steps)) == After(u, steps).book.pending
  {
    hide Advance, CallsOf, Ring.Legal, Ring.Played, Ring.Truthful, Ring.Effect;
    if steps == [] {
      NoCallsAreLegal(u.capacity);
    } else {
      var before, s := steps[..|steps| - 1], steps[|steps| - 1];
      var ops := CallsOf(u, After(u, before).book, s);
      RunsPlayTheAtomicQueue(u, before);
      StepIsAtomicCall(u, After(u, before), s);
      if ops == [] {
        assert Calls(u, before) + [] == Calls(u, before);
      } else {
        Ring.LegalSnoc(u.capacity, Calls(u, before), ops[0]);
        assert Calls(u, before) + ops == Calls(u, before) + [ops[0]];
      }
    }
  }

  lemma NoCallsAreLegal(cap: nat)
    ensures Ring.Legal<Observation>(cap, []) && Ring.Played<Observation>([]) == []
  {}

  // ----- when the check prunes at the candidate's own timestamp

  /**
   * Pruning at `c` keeps every entry stamped up to `newest` that the clock reading `now` would
   * keep, exactly under a condition a caller can test: nothing that old is live, or `c` lies
   * between the newest stamp and the later of the clock and the window.
   */
  predicate SafeCheckTime(c: nat, now: nat, newest: nat, window: nat) {
    now - newest > window || newest <= c <= Max(now, window)
  }

  lemma CheckTimeIsSafe(c: nat, now: nat, newest: nat, window: nat)
    requires newest <= now && c < TWO64 && now + window < TWO64
    ensures SafeCheckTime(c, now, newest, window) <==>
            forall then_: nat :: then_ <= newest && now - then_ <= window ==> Age(c, then_) <= window
  {
    if SafeCheckTime(c, now, newest, window) {
      forall then_: nat | then_ <= newest && now - then_ <= window ensures Age(c, then_) <= window {
        assert c - then_ >= 0;
      }
    } else if c < newest {
      assert Age(c, newest) == c - newest + TWO64;
    } else {
      var then_ := Max(0, now - window);
      assert Age(c, then_) == c - then_;
    }
  }

  /** A candidate as the coordinator builds it, or one stamped so that the check cannot go wrong. */
  predicate Timely(t: Trace, s: Step, window: nat) {
    s.Candidate? ==>
      && t.clock <= s.checkNow <= s.stampNow && s.stampNow + window < TWO64
      && s.c.timestampUs < TWO64
      && (s.c.timestampUs == 0 || t.accepted == []
          || SafeCheckTime(s.c.timestampUs, s.checkNow, t.accepted[|t.accepted| - 1].timestampUs, window))
  }

  predicate AllTimely(u: Setup, steps: seq<Step>)
    decreases |steps|
  {
    steps == []
    || (AllTimely(u, steps[..|steps| - 1])
        && Timely(After(u, steps[..|steps| - 1]), steps[|steps| - 1], u.cfg.dedupWindowUs))
  }

  // ----- the history is what it should be

  /** Entry k of the history is accepted event number `idx[k]`, in order of acceptance. */
  ghost predicate Indexes(h: seq<DedupEntry>, acc: seq<Observation>, idx: seq<nat>) {
    && |idx| == |h|
    && (forall k :: 0 <= k < |h| ==> idx[k] < |acc| && h[k] == EntryOf(acc[idx[k]]))
    && (forall k, l :: 0 <= k < l < |idx| ==> idx[k] < idx[l])
  }

  /** Of the last 128 accepted events only those older than the window are missing. */
  ghost predicate Covers(acc: seq<Observation>, idx: seq<nat>, now: nat, window: nat) {
    forall i: nat :: |acc| - DEDUP_HISTORY <= i < |acc| ==> i in idx || now - acc[i].timestampUs > window
  }

  ghost predicate Stamped(acc: seq<Observation>, clock: nat) {
    && (forall i :: 0 <= i < |acc| ==> acc[i].timestampUs <= clock)
    && (forall i, j :: 0 <= i <= j < |acc| ==> acc[i].timestampUs <= acc[j].timestampUs)
  }

  lemma FrontIndexes(h: seq<DedupEntry>, acc: seq<Observation>, idx: seq<nat>)
    requires Indexes(h, acc, idx) && h != []
    ensures var n := |h| - 1;
            && |idx| == n + 1 && Indexes(h[..n], acc, idx[..n])
            && idx[n] < |acc| && h[n] == EntryOf(acc[idx[n]])
            && (forall i :: i in idx <==> i in idx[..n] || i == idx[n])
            && (forall i :: i in idx[..n] ==> i < idx[n])
  {
    assert idx == idx[..|h| - 1] + [idx[|h| - 1]];
  }

  lemma {:induction false} PruneIndexes(h: seq<DedupEntry>, acc: seq<Observation>, idx: seq<nat>, at: nat, window: nat)
    returns (kept: seq<nat>)
    requires Indexes(h, acc, idx)
    ensures Indexes(Pruned(h, at, window), acc, kept)
    ensures forall i :: i in kept ==> i in idx
    ensures forall i :: i in idx ==> i < |acc|
    ensures forall i :: i in idx && Live(at, window, EntryOf(acc[i])) ==> i in kept
    decreases |h|
  {
    if h == [] {
      kept := [];
    } else {
      FrontIndexes(h, acc, idx);
      hide Indexes, Live;
      var n := |h| - 1;
      kept := PruneIndexes(h[..n], acc, idx[..n], at, window);
      if Live(at, window, h[n]) {
        AppendIndex(Pruned(h[..n], at, window), acc, kept, idx[n]);
        kept := kept + [idx[n]];
      } else {
        assert Pruned(h[..n], at, window) + [] == Pruned(h[..n], at, window);
      }
    }
  }

  lemma AppendIndex(h: seq<DedupEntry>, acc: seq<Observation>, idx: seq<nat>, i: nat)
    requires Indexes(h, acc, idx) && i < |acc|
    requires forall k :: k in idx ==> k < i
    ensures Indexes(h + [EntryOf(acc[i])], acc, idx + [i])
  {
    assert forall k :: 0 <= k < |idx| ==> idx[k] in idx;
  }

  /** Pruning at a safe time drops nothing the clock would not drop. */
  lemma PruneCovers(acc: seq<Observation>, idx: seq<nat>, kept: seq<nat>, clock: nat, at: nat, now: nat, window: nat)
    requires Covers(acc, idx, clock, window) && Stamped(acc, clock) && clock <= now
    requires forall i :: i in idx ==> i < |acc|
    requires forall i :: i in idx && Live(at, window, EntryOf(acc[i])) ==> i in kept
    requires at < TWO64 && now + window < TWO64
    requires acc == [] || SafeCheckTime(at, now, acc[|acc| - 1].timestampUs, window)
    ensures Covers(acc, kept, now, window)
  {
    if acc != [] {
      CheckTimeIsSafe(at, now, acc[|acc| - 1].timestampUs, window);
    }
    forall i: nat | |acc| - DEDUP_HISTORY <= i < |acc|
      ensures i in kept || now - acc[i].timestampUs > window
    {
      if i in idx && now - acc[i].timestampUs <= window {
        assert Live(at, window, EntryOf(acc[i]));
      }
    }
  }

  lemma {:induction false} IncreasingIsWide(idx: seq<nat>, bound: nat)
    requires forall k, l :: 0 <= k < l < |idx| ==> idx[k] < idx[l]
    requires forall k :: 0 <= k < |idx| ==> idx[k] < bound
    ensures idx != [] ==> idx[0] + |idx| <= bound
    decreases |idx|
  {
    if |idx| > 1 {
      IncreasingIsWide(idx[..|idx| - 1], idx[|idx| - 1]);
    }
  }

  /** Recording the newest event evicts at most one entry, and that one is 128 acceptances old. */
  lemma RecordIndexes(h: seq<DedupEntry>, acc: seq<Observation>, idx: seq<nat>, o: Observation, window: nat)
    returns (kept: seq<nat>)
    requires Indexes(h, acc, idx) && |h| <= DEDUP_HISTORY
    requires Covers(acc, idx, o.timestampUs, window) && Stamped(acc, o.timestampUs)
    requires o.timestampUs + window < TWO64
    ensures Indexes(Recorded(h, EntryOf(o), window), acc + [o], kept)
    ensures Covers(acc + [o], kept, o.timestampUs, window)
    ensures |Recorded(h, EntryOf(o), window)| <= DEDUP_HISTORY
  {
    hide Live, Covers, Pruned, Recorded;
    var p := PruneIndexes(h, acc, idx, o.timestampUs, window);
    PruneCovers(acc, idx, p, o.timestampUs, o.timestampUs, o.timestampUs, window);
    IncreasingIsWide(p, |acc|);
    var evicted := if |p| < DEDUP_HISTORY then 0 else 1;
    RecordedIs(h, EntryOf(o), window, evicted);
    TailIndexes(Pruned(h, o.timestampUs, window), acc, p, evicted, o);
    hide Indexes;
    kept := p[evicted..] + [|acc|];
    KeptCovers(acc, p, kept, o, window);
  }

  lemma RecordedIs(h: seq<DedupEntry>, e: DedupEntry, window: nat, evicted: nat)
    requires |h| <= DEDUP_HISTORY
    requires evicted == if |Pruned(h, e.timestampUs, window)| < DEDUP_HISTORY then 0 else 1
    ensures Recorded(h, e, window) == Pruned(h, e.timestampUs, window)[evicted..] + [e]
    ensures |Recorded(h, e, window)| <= DEDUP_HISTORY
  {
    hide Pruned;
  }

  lemma TailIndexes(h: seq<DedupEntry>, acc: seq<Observation>, idx: seq<nat>, from: nat, o: Observation)
    requires Indexes(h, acc, idx) && from <= |h|
    ensures Indexes(h[from..] + [EntryOf(o)], acc + [o], idx[from..] + [|acc|])
    ensures from <= 1 ==> forall i :: i in idx ==> i in idx[from..] || i == idx[0]
  {
    if from == 1 {
      assert idx == [idx[0]] + idx[1..];
    }
  }

  lemma KeptCovers(acc: seq<Observation>, p: seq<nat>, kept: seq<nat>, o: Observation, window: nat)
    requires Covers(acc, p, o.timestampUs, window)
    requires |acc| in kept
    requires forall i :: i in p ==> i in kept || i <= |acc| - DEDUP_HISTORY
    ensures Covers(acc + [o], kept, o.timestampUs, window)
  {}

  /** Any two events accepted close together in number and in time are far apart in space. */
  ghost predicate SpreadOut(u: Setup, acc: seq<Observation>) {
    forall i, j :: 0 <= i < j < |acc| && j - i <= DEDUP_HISTORY
                   && acc[j].timestampUs - acc[i].timestampUs <= u.cfg.dedupWindowUs ==>
      u.dist(acc[j].lat, acc[j].lon, acc[i].lat, acc[i].lon) > u.cfg.dedupRadiusM
  }

  ghost predicate Sound(u: Setup, t: Trace, idx: seq<nat>) {
    && Indexes(t.book.history, t.accepted, idx) && |t.book.history| <= DEDUP_HISTORY
    && Covers(t.accepted, idx, t.clock, u.cfg.dedupWindowUs)
    && Stamped(t.accepted, t.clock)
    && SpreadOut(u, t.accepted)
  }

  /** A candidate that passed a check against a covering history is far from all it must be. */
  lemma AcceptedSpreadsOut(
      u: Setup, acc: seq<Observation>, kept: seq<DedupEntry>, idx: seq<nat>, o: Observation, now: nat)
    requires SpreadOut(u, acc) && Indexes(kept, acc, idx)
    requires now <= o.timestampUs && Covers(acc, idx, now, u.cfg.dedupWindowUs)
    requires forall k :: 0 <= k < |kept| ==> !Near(u.cfg, u.dist, o, kept[k])
    ensures SpreadOut(u, acc + [o])
  {
    var all := acc + [o];
    forall i, j | 0 <= i < j < |all| && j - i <= DEDUP_HISTORY
                  && all[j].timestampUs - all[i].timestampUs <= u.cfg.dedupWindowUs
      ensures u.dist(all[j].lat, all[j].lon, all[i].lat, all[i].lon) > u.cfg.dedupRadiusM
    {
      if j == |acc| {
        assert i in idx;
        var k :| 0 <= k < |idx| && idx[k] == i;
        assert !Near(u.cfg, u.dist, o, kept[k]);
      }
    }
  }

  lemma AcceptKeepsSound(
      u: Setup, acc: seq<Observation>, kept: seq<DedupEntry>, idx: seq<nat>, o: Observation, now: nat)
    returns (idx': seq<nat>)
    requires Indexes(kept, acc, idx) && |kept| <= DEDUP_HISTORY
    requires Stamped(acc, now) && now <= o.timestampUs && o.timestampUs + u.cfg.dedupWindowUs < TWO64
    requires SpreadOut(u, acc) && Covers(acc, idx, now, u.cfg.dedupWindowUs)
    requires forall k :: 0 <= k < |kept| ==> !Near(u.cfg, u.dist, o, kept[k])
    ensures var h := Recorded(kept, EntryOf(o), u.cfg.dedupWindowUs);
            && Indexes(h, acc + [o], idx') && |h| <= DEDUP_HISTORY
            && Covers(acc + [o], idx', o.timestampUs, u.cfg.dedupWindowUs)
            && Stamped(acc + [o], o.timestampUs) && SpreadOut(u, acc + [o])
  {
    AcceptedSpreadsOut(u, acc, kept, idx, o, now);
    CoversLater(acc, idx, now, o.timestampUs, u.cfg.dedupWindowUs);
    hide Recorded, SpreadOut, Covers, Near, Indexes;
    idx' := RecordIndexes(kept, acc, idx, o, u.cfg.dedupWindowUs);
  }

  /** What submit does with the history, case by case. */
  lemma SubmitCases(u: Setup, b: Book, c: Observation, checkNow: nat, stampNow: nat)
    ensures var r := Submit(u.cfg, u.dist, u.capacity, b, c, checkNow, stampNow);
            var kept := Pruned(b.history, CheckTime(c, checkNow), u.cfg.dedupWindowUs);
            var o := Promoted(c, stampNow, b.deviceSeq + 1);
            && (r.accepted.None? ==> r.book.history == (if PassesGates(u.cfg, c) then kept else b.history))
            && (r.accepted.Some? ==>
                  && PassesGates(u.cfg, c) && r.accepted.value == o
                  && r.book.history == Recorded(kept, EntryOf(o), u.cfg.dedupWindowUs)
                  && forall k :: 0 <= k < |kept| ==> !Near(u.cfg, u.dist, o, kept[k]))
  {
    hide Pruned, Recorded, PassesGates;
    var o := Promoted(c, stampNow, b.deviceSeq + 1);
    assert forall e :: Near(u.cfg, u.dist, o, e) == Near(u.cfg, u.dist, c, e);
    hide Near;
  }

  lemma {:induction false} CandidateKeepsSound(u: Setup, t: Trace, idx: seq<nat>, s: Step)
    returns (idx': seq<nat>)
    requires Sound(u, t, idx) && s.Candidate? && Timely(t, s, u.cfg.dedupWindowUs)
    ensures Sound(u, Advance(u, t, s), idx')
  {
    hide Pruned, Recorded, SpreadOut, Submit, Near, PassesGates, EntryOf;
    var w, acc := u.cfg.dedupWindowUs, t.accepted;
    SubmitCases(u, t.book, s.c, s.checkNow, s.stampNow);
    assert acc + [] == acc;
    if !PassesGates(u.cfg, s.c) {
      idx' := idx;
      CoversLater(acc, idx, t.clock, s.stampNow, w);
    } else {
      var at := CheckTime(s.c, s.checkNow);
      var p := PruneIndexes(t.book.history, acc, idx, at, w);
      PruneCovers(acc, idx, p, t.clock, at, s.checkNow, w);
      CoversLater(acc, p, s.checkNow, s.stampNow, w);
      hide Covers, Indexes;
      var r := Submit(u.cfg, u.dist, u.capacity, t.book, s.c, s.checkNow, s.stampNow);
      if r.accepted.None? {
        idx' := p;
      } else {
        idx' := AcceptKeepsSound(u, acc, Pruned(t.book.history, at, w), p, r.accepted.value, s.checkNow);
      }
    }
  }

  lemma CoversLater(acc: seq<Observation>, idx: seq<nat>, now: nat, later: nat, window: nat)
    requires Covers(acc, idx, now, window) && now <= later
    ensures Covers(acc, idx, later, window)
  {}

  /**
   * Over any run with a clock that does not go back, two accepted events at most 128 acceptances
   * apart, stamped within the dedup window of each other, are farther apart than the dedup radius.
   */
  lemma {:induction false} AcceptedEventsAreSpreadOut(u: Setup, steps: seq<Step>) returns (idx: seq<nat>)
    requires AllTimely(u, steps)
    ensures Sound(u, After(u, steps), idx)
    ensures SpreadOut(u, After(u, steps).accepted)
    decreases |steps|
  {
    hide Submit, SpreadOut;
    if steps == [] {
      idx := [];
      NothingIsSpreadOut(u);
    } else {
      idx := AcceptedEventsAreSpreadOut(u, steps[..|steps| - 1]);
      if steps[|steps| - 1].Candidate? {
        idx := CandidateKeepsSound(u, After(u, steps[..|steps| - 1]), idx, steps[|steps| - 1]);
      }
    }
  }

  lemma NothingIsSpreadOut(u: Setup)
    ensures SpreadOut(u, [])
  {}

  // ----- the condition is exact

  lemma {:induction false} PrunedAreLive(h: seq<DedupEntry>, now: nat, window: nat, e: DedupEntry)
    requires e in Pruned(h, now, window)
    ensures e in h && Live(now, window, e)
  {
    hide Live;
    if e in Pruned(h[..|h| - 1], now, window) {
      PrunedAreLive(h[..|h| - 1], now, window, e);
    }
  }

  lemma RecordedAreOld(h: seq<DedupEntry>, e: DedupEntry, window: nat, x: DedupEntry)
    requires x in Recorded(h, e, window)
    ensures x in h || x == e
  {
    hide Pruned;
    if x != e {
      PrunedAreLive(h, e.timestampUs, window, x);
    }
  }

  lemma TimelySnoc(u: Setup, steps: seq<Step>, s: Step)
    ensures AllTimely(u, steps + [s]) <==> AllTimely(u, steps) && Timely(After(u, steps), s, u.cfg.dedupWindowUs)
    ensures After(u, steps + [s]) == Advance(u, After(u, steps), s)
  {
    hide Timely, Advance;
    assert (steps + [s])[..|steps|] == steps;
  }

  /** No entry that the check of `c` still sees is within the radius. */
  ghost predicate Clear(u: Setup, h: seq<DedupEntry>, c: Observation, now: nat) {
    forall e :: e in Pruned(h, CheckTime(c, now), u.cfg.dedupWindowUs) ==> !Near(u.cfg, u.dist, c, e)
  }

  /** A clear candidate is accepted by a promoter with nothing pending. */
  lemma ClearIsAccepted(u: Setup, t: Trace, c: Observation, now: nat)
    requires u.capacity >= 2 && t.book.pending == [] && PassesGates(u.cfg, c) && Clear(u, t.book.history, c, now)
    ensures var o, r := Promoted(c, now, t.book.deviceSeq + 1), Advance(u, t, Candidate(c, now, now));
            && r.accepted == t.accepted + [o] && r.book.pending == [o] && r.clock == now
            && forall e :: e in r.book.history ==> e in t.book.history || e == EntryOf(o)
  {
    hide Pruned, Recorded, PassesGates, Near;
    var w := u.cfg.dedupWindowUs;
    var kept, o := Pruned(t.book.history, CheckTime(c, now), w), Promoted(c, now, t.book.deviceSeq + 1);
    assert forall i :: 0 <= i < |kept| ==> kept[i] in kept;
    forall e | e in Recorded(kept, EntryOf(o), w) ensures e in t.book.history || e == EntryOf(o) {
      RecordedAreOld(kept, EntryOf(o), w, e);
      if e in kept {
        PrunedAreLive(t.book.history, CheckTime(c, now), w, e);
      }
    }
  }

  /** One more accepted event at the place of `c`, stamped `now` and taken at once. */
  lemma AcceptAndTake(u: Setup, steps: seq<Step>, c: Observation, now: nat) returns (more: seq<Step>)
    requires u.capacity >= 2 && AllTimely(u, steps) && After(u, steps).book.pending == []
    requires PassesGates(u.cfg, c) && c.timestampUs == 0 && Clear(u, After(u, steps).book.history, c, now)
    requires After(u, steps).clock <= now && now + u.cfg.dedupWindowUs < TWO64
    ensures AllTimely(u, more)
    ensures var s, t := After(u, steps), After(u, more);
            && t.book.pending == [] && t.clock == now && |t.accepted| == |s.accepted| + 1 && s.accepted <= t.accepted
            && EntryOf(t.accepted[|s.accepted|]) == DedupEntry(c.lat, c.lon, now)
            && forall e :: e in t.book.history ==> e in s.book.history || e == DedupEntry(c.lat, c.lon, now)
  {
    var step := Candidate(c, now, now);
    more := steps + [step, Take];
    assert more == steps + [step] + [Take];
    TimelySnoc(u, steps, step);
    TimelySnoc(u, steps + [step], Take);
    ClearIsAccepted(u, After(u, steps), c, now);
    hide After, AllTimely, Clear, PassesGates, Submit;
  }

  /** Two places on the map for events that pass the gates: `p` is within the radius of itself, `q` is not. */
  ghost predicate Places(u: Setup, p: Observation, q: Observation) {
    && PassesGates(u.cfg, p) && PassesGates(u.cfg, q) && p.timestampUs == 0 && q.timestampUs == 0
    && Near(u.cfg, u.dist, p, EntryOf(p))
    && u.dist(p.lat, p.lon, q.lat, q.lon) > u.cfg.dedupRadiusM
    && u.dist(q.lat, q.lon, p.lat, p.lon) > u.cfg.dedupRadiusM
  }

  /**
   * A run that ends with nothing pending and its last event stamped `newest`; its first event is at
   * `p`, stamped `first`.
   */
  ghost predicate Prepared(u: Setup, steps: seq<Step>, p: Observation, q: Observation, first: nat, newest: nat) {
    var t := After(u, steps);
    && AllTimely(u, steps) && t.book.pending == [] && t.clock == newest
    && 1 <= |t.accepted| <= 2 && t.accepted[|t.accepted| - 1].timestampUs == newest
    && EntryOf(t.accepted[0]) == DedupEntry(p.lat, p.lon, first)
    && forall e :: e in t.book.history ==> e == DedupEntry(p.lat, p.lon, first) || e == DedupEntry(q.lat, q.lon, newest)
  }

  lemma Prepare(u: Setup, p: Observation, q: Observation, first: nat, newest: nat) returns (steps: seq<Step>)
    requires u.capacity >= 2 && Places(u, p, q) && first <= newest && newest + u.cfg.dedupWindowUs < TWO64
    ensures Prepared(u, steps, p, q, first, newest)
  {
    var w := u.cfg.dedupWindowUs;
    assert AllTimely(u, []) && After(u, []) == Trace(Book([], [], 0), [], [], 0);
    assert Pruned([], first, w) == [];
    hide PassesGates, Pruned, AllTimely, After;
    steps := AcceptAndTake(u, [], p, first);
    if first < newest {
      var h := After(u, steps).book.history;
      forall e | e in Pruned(h, newest, w) ensures !Near(u.cfg, u.dist, q, e) {
        PrunedAreLive(h, newest, w, e);
      }
      steps := AcceptAndTake(u, steps, q, newest);
    }
  }

  /** An unsafe check time hides the first event, so its place is clear again. */
  lemma FirstIsForgotten(u: Setup, h: seq<DedupEntry>, p: Observation, q: Observation,
                         c: nat, now: nat, newest: nat, first: nat)
    requires Places(u, p, q) && newest <= now && now + u.cfg.dedupWindowUs < TWO64 && 0 < c < TWO64
    requires !SafeCheckTime(c, now, newest, u.cfg.dedupWindowUs)
    requires first == if c < newest then newest else Max(0, now - u.cfg.dedupWindowUs)
    requires forall e :: e in h ==> e == DedupEntry(p.lat, p.lon, first) || e == DedupEntry(q.lat, q.lon, newest)
    ensures Clear(u, h, p.(timestampUs := c), now)
  {
    hide PassesGates, Pruned;
    var w := u.cfg.dedupWindowUs;
    assert Age(c, first) > w;
    forall e | e in Pruned(h, c, w) ensures !Near(u.cfg, u.dist, p.(timestampUs := c), e) {
      PrunedAreLive(h, c, w, e);
    }
  }

  /** The run on which an unsafe check time lets a place through twice. */
  lemma UnsafeCheckBreaksSpacing(u: Setup, p: Observation, q: Observation, c: nat, now: nat, newest: nat)
    returns (steps: seq<Step>)
    requires u.capacity >= 2 && Places(u, p, q)
    requires newest <= now && now + u.cfg.dedupWindowUs < TWO64 && 0 < c < TWO64
    requires !SafeCheckTime(c, now, newest, u.cfg.dedupWindowUs)
    ensures AllTimely(u, steps) && After(u, steps).clock <= now && LastStamp(u, steps, newest)
    ensures !SpreadOut(u, After(u, steps + [Candidate(p.(timestampUs := c), now, now)]).accepted)
  {
    var w, last := u.cfg.dedupWindowUs, p.(timestampUs := c);
    var first := if c < newest then newest else Max(0, now - w);
    steps := Prepare(u, p, q, first, newest);
    hide After, AllTimely, SpreadOut, Clear, PassesGates;
    var t, s := After(u, steps), Candidate(last, now, now);
    FirstIsForgotten(u, t.book.history, p, q, c, now, newest, first);
    TimelySnoc(u, steps, s);
    ClearIsAccepted(u, t, last, now);
    PlaceTwice(u, After(u, steps + [s]).accepted, p, first, now);
  }

  lemma PlaceTwice(u: Setup, acc: seq<Observation>, p: Observation, first: nat, now: nat)
    requires 2 <= |acc| <= DEDUP_HISTORY && Near(u.cfg, u.dist, p, EntryOf(p)) && now - first <= u.cfg.dedupWindowUs
    requires EntryOf(acc[0]) == DedupEntry(p.lat, p.lon, first)
    requires EntryOf(acc[|acc| - 1]) == DedupEntry(p.lat, p.lon, now)
    ensures !SpreadOut(u, acc)
  {
    var j := |acc| - 1;
    assert !(u.dist(acc[j].lat, acc[j].lon, acc[0].lat, acc[0].lon) > u.cfg.dedupRadiusM);
  }

  ghost predicate LastStamp(u: Setup, steps: seq<Step>, newest: nat) {
    var acc := After(u, steps).accepted;
    acc != [] && acc[|acc| - 1].timestampUs == newest
  }

  /** `s` is a candidate stamped `c` and checked at `now`, after events the last of which is stamped `newest`. */
  ghost predicate ChecksAt(u: Setup, steps: seq<Step>, s: Step, c: nat, now: nat, newest: nat) {
    && AllTimely(u, steps) && LastStamp(u, steps, newest)
    && s.Candidate? && s.c.timestampUs == c && s.checkNow == now
    && After(u, steps).clock <= now <= s.stampNow && s.stampNow + u.cfg.dedupWindowUs < TWO64
  }

  /** No run breaks the spacing of events by such a candidate. */
  ghost predicate SpacingSurvives(u: Setup, c: nat, now: nat, newest: nat) {
    forall steps: seq<Step>, s: Step :: ChecksAt(u, steps, s, c, now, newest) ==>
      SpreadOut(u, After(u, steps + [s]).accepted)
  }

  /**
   * For every configuration that has two such places, a check at a candidate's own stamp can never
   * break the spacing of events if and only if that stamp is safe.
   */
  lemma SafeCheckTimeIsExact(u: Setup, p: Observation, q: Observation, c: nat, now: nat, newest: nat)
    requires u.capacity >= 2 && Places(u, p, q)
    requires newest <= now && now + u.cfg.dedupWindowUs < TWO64 && 0 < c < TWO64
    ensures SafeCheckTime(c, now, newest, u.cfg.dedupWindowUs) <==> SpacingSurvives(u, c, now, newest)
  {
    hide AllTimely, After, SpreadOut, Places;
    if SafeCheckTime(c, now, newest, u.cfg.dedupWindowUs) {
      forall steps: seq<Step>, s: Step | ChecksAt(u, steps, s, c, now, newest)
        ensures SpreadOut(u, After(u, steps + [s]).accepted)
      {
        TimelySnoc(u, steps, s);
        var idx := AcceptedEventsAreSpreadOut(u, steps + [s]);
      }
    } else {
      var steps := UnsafeCheckBreaksSpacing(u, p, q, c, now, newest);
      assert ChecksAt(u, steps, Candidate(p.(timestampUs := c), now, now), c, now, newest);
    }
  }

  /**
   * Without that condition the promise fails: a candidate stamped before the last event makes its
   * age wrap round, the history is emptied, and the same place is accepted twice in a row.
   */
  lemma EarlyStampDefeatsDedup(dist: Distance)
    returns (u: Setup, steps: seq<Step>)
    requires dist(0.0, 0.0, 0.0, 0.0) == 0.0
    ensures u.dist == dist && |steps| == 2 && AllTimely(u, steps[..1]) && steps[1].Candidate?
    ensures var t := After(u, steps[..1]);
            && |t.accepted| == 1
            && !SafeCheckTime(steps[1].c.timestampUs, steps[1].checkNow, t.accepted[0].timestampUs, u.cfg.dedupWindowUs)
    ensures |After(u, steps).accepted| == 2 && !SpreadOut(u, After(u, steps).accepted)
  {
    u := Setup(Config(0.75, 5.0, 30_000_000, true, 2.5), dist, 512);
    var c := Observation(0, 0, 0.9, 0.5, 0.0, 0.0, 1.0, 3, true, 0);
    var first, second := Candidate(c, 10, 10), Candidate(c.(timestampUs := 5), 11, 11);
    steps := [first, second];
    var t0 := After(u, []);
    assert steps[..1] == [first] && [first][..0] == [];
    var t1 := Advance(u, t0, first);
    var o := Promoted(c, 10, 1);
    assert t1 == After(u, [first]);
    assert AllTimely(u, []) && AllTimely(u, [first]);
    assert t1.book.history == [EntryOf(o)] && t1.accepted == [o];
    assert [EntryOf(o)][..0] == [];
    assert Age(5, 10) == TWO64 - 5;
    assert Pruned([EntryOf(o)], 5, 30_000_000) == [];
    var t2 := Advance(u, t1, second);
    assert t2 == After(u, steps);
    var p := Promoted(second.c, 11, 2);
    assert t2.accepted == [o, p];
    assert dist(t2.accepted[1].lat, t2.accepted[1].lon, t2.accepted[0].lat, t2.accepted[0].lon) == 0.0;
  }
}
