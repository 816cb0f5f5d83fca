/**
 * Promotion of hazard candidates to events: gates, spatial dedup against a bounded history, and
 * the ring to the sync thread (src/event_promoter.cpp). Distances are an arbitrary function.
 */
module EventPromoter {
  import opened Common
  import Ring = EventRing

  const DEDUP_HISTORY: nat := 128

  /** The fields the pipeline looks at; `rest` stands for all the others. */
  datatype Observation = Observation(
    deviceSeq: nat, timestampUs: nat, rri: real, geometryConf: real,
    lat: real, lon: real, hdop: real, gpsFixType: nat, gpsValid: bool, rest: int)

  datatype DedupEntry = DedupEntry(lat: real, lon: real, timestampUs: nat)

  datatype Config = Config(
    rriThreshold: real, dedupRadiusM: real, dedupWindowUs: nat, requireGps: bool, maxHdop: real)

  /** Metres between two places, as (lat, lon, lat, lon). */
  type Distance = (real, real, real, real) -> real

  function EntryOf(o: Observation): DedupEntry { DedupEntry(o.lat, o.lon, o.timestampUs) }

  // ----- the dedup history

  /** `now - then` in unsigned 64-bit arithmetic. */
  function Age(now: nat, then_: nat): nat { (now - then_) % TWO64 }

  predicate Live(now: nat, window: nat, e: DedupEntry) { Age(now, e.timestampUs) <= window }

  /** The entries still inside the window, in order. */
  function Pruned(h: seq<DedupEntry>, now: nat, window: nat): (p: seq<DedupEntry>)
    ensures |p| <= |h|
  {
    if h == [] then []
    else
      Pruned(h[..|h| - 1], now, window) + if Live(now, window, h[|h| - 1]) then [h[|h| - 1]] else []
  }

  function Recorded(h: seq<DedupEntry>, e: DedupEntry, window: nat): seq<DedupEntry> {
    var p := Pruned(h, e.timestampUs, window);
    if |p| < DEDUP_HISTORY then p + [e] else p[1..] + [e]
  }

  predicate Near(cfg: Config, dist: Distance, o: Observation, e: DedupEntry) {
    dist(o.lat, o.lon, e.lat, e.lon) <= cfg.dedupRadiusM
  }

  predicate PassesGates(cfg: Config, o: Observation) {
    && o.rri >= cfg.rriThreshold
    && o.geometryConf > 0.0
    && (cfg.requireGps ==> o.gpsValid && o.gpsFixType >= 2 && o.hdop <= cfg.maxHdop)
  }

  // ----- submit, on values

  /** What the promoter holds: dedup entries, events waiting in the ring, and the last sequence number. */
  datatype Book = Book(history: seq<DedupEntry>, pending: seq<Observation>, deviceSeq: nat)

  /** The clock reading the dedup check prunes at. */
  function CheckTime(c: Observation, now: nat): nat {
    if c.timestampUs != 0 then c.timestampUs else now
  }

  function Promoted(c: Observation, now: nat, deviceSeq: nat): Observation {
    c.(timestampUs := now, deviceSeq := deviceSeq)
  }

  datatype Outcome = Outcome(book: Book, accepted: Option<Observation>)

  /** submit, its dedup check reading the clock at `checkNow` and its stamp at `stampNow`. */
  function Submit(
      cfg: Config, dist: Distance, capacity: nat, b: Book, c: Observation, checkNow: nat, stampNow: nat): Outcome
  {
    if !PassesGates(cfg, c) then Outcome(b, None)
    else
      var kept := Pruned(b.history, CheckTime(c, checkNow), cfg.dedupWindowUs);
      if exists i :: 0 <= i < |kept| && Near(cfg, dist, c, kept[i]) then Outcome(b.(history := kept), None)
      else if |b.pending| + 1 >= capacity then Outcome(b.(history := kept), None)
      else
        var o := Promoted(c, stampNow, b.deviceSeq + 1);
        Outcome(Book(Recorded(kept, EntryOf(o), cfg.dedupWindowUs), b.pending + [o], b.deviceSeq + 1), Some(o))
  }

  // ----- the code

  class EventPromoter {
    const cfg: Config
    const dist: Distance
    const ring: array<Observation>
    const ringCapacity: nat
    const dedup: array<DedupEntry>
    var head: nat
    var tail: nat
    var dedupCount: nat
    var deviceSeq: nat

    ghost predicate RingValid()
      reads this`head, this`tail
    {
      && ring.Length == Ring.RING_SLOTS && 2 <= ringCapacity <= Ring.RING_SLOTS
      && head < ringCapacity && tail < ringCapacity
    }

    ghost predicate HistoryValid()
      reads this`dedupCount
    {
      dedup.Length == DEDUP_HISTORY && dedupCount <= DEDUP_HISTORY
    }

    ghost predicate Valid()
      reads this`head, this`tail, this`dedupCount
    {
      RingValid() && HistoryValid()
    }

    ghost function History(): seq<DedupEntry>
      requires HistoryValid()
      reads this`dedupCount, dedup
    {
      dedup[..dedupCount]
    }

    ghost function Pending(): seq<Observation>
      requires RingValid()
      reads this`head, this`tail, ring
    {
      if head <= tail then ring[head..tail] else ring[head..ringCapacity] + ring[..tail]
    }

    ghost function State(): Book
      requires Valid()
      reads this, ring, dedup
    {
      Book(History(), Pending(), deviceSeq)
    }

    constructor (cfg: Config, dist: Distance, configuredCapacity: nat)
      ensures Valid() && fresh(ring) && fresh(dedup)
      ensures this.cfg == cfg && this.dist == dist && ringCapacity == Ring.Capacity(configuredCapacity)
      ensures State() == Book([], [], 0)
    {
      this.cfg, this.dist := cfg, dist;
      ring := new Observation[Ring.RING_SLOTS](_ => Observation(0, 0, 0.0, 0.0, 0.0, 0.0, 0.0, 0, false, 0));
      ringCapacity := Ring.Capacity(configuredCapacity);
      dedup := new DedupEntry[DEDUP_HISTORY](_ => DedupEntry(0.0, 0.0, 0));
      head, tail, dedupCount, deviceSeq := 0, 0, 0, 0;
    }

    /** Compacts the history in place. */
    method PruneDedup(now: nat)
      requires Valid()
      modifies this`dedupCount, dedup
      ensures Valid() && History() == Pruned(old(History()), now, cfg.dedupWindowUs)
    {
      ghost var was := History();
      var write := 0;
      for i := 0 to dedupCount
        invariant write <= i && dedup.Length == DEDUP_HISTORY && dedupCount == |was|
        invariant dedup[..write] == Pruned(was[..i], now, cfg.dedupWindowUs)
        invariant dedup[i..dedupCount] == was[i..]
      {
        assert was[..i + 1][..i] == was[..i];
        assert dedup[i] == dedup[i..dedupCount][0] == was[i];
        if Live(now, cfg.dedupWindowUs, dedup[i]) {
          dedup[write] := dedup[i];
          assert dedup[..write + 1] == dedup[..write] + [was[i]];
          write := write + 1;
        }
        assert dedup[i + 1..dedupCount] == was[i + 1..];
      }
      assert was[..|was|] == was;
      dedupCount := write;
    }

    method IsDuplicate(c: Observation, now: nat) returns (duplicate: bool)
      requires Valid()
      modifies this`dedupCount, dedup
      ensures Valid() && History() == Pruned(old(History()), CheckTime(c, now), cfg.dedupWindowUs)
      ensures duplicate <==> exists i :: 0 <= i < |History()| && Near(cfg, dist, c, History()[i])
    {
      PruneDedup(CheckTime(c, now));
      for i := 0 to dedupCount
        invariant forall j :: 0 <= j < i ==> !Near(cfg, dist, c, History()[j])
      {
        if Near(cfg, dist, c, dedup[i]) {
          assert Near(cfg, dist, c, History()[i]);
          return true;
        }
      }
      return false;
    }

    method RecordDedup(e: DedupEntry)
      requires Valid()
      modifies this`dedupCount, dedup
      ensures Valid() && History() == Recorded(old(History()), e, cfg.dedupWindowUs)
    {
      hide Pruned;
      PruneDedup(e.timestampUs);
      ghost var p := History();
      if dedupCount < DEDUP_HISTORY {
        dedup[dedupCount] := e;
        dedupCount := dedupCount + 1;
        assert History() == p + [e];
        return;
      }
      for i := 1 to dedupCount
        invariant Valid() && dedupCount == |p|
        invariant dedup[..i - 1] == p[1..i]
        invariant dedup[i - 1..dedupCount] == p[i - 1..]
      {
        assert dedup[i] == dedup[i - 1..dedupCount][1] == p[i];
        dedup[i - 1] := dedup[i];
        assert dedup[..i] == dedup[..i - 1] + [p[i]];
        assert dedup[i..dedupCount] == p[i..];
      }
      dedup[dedupCount - 1] := e;
      assert History() == p[1..] + [e];
    }

    method Enqueue(o: Observation) returns (ok: bool)
      requires Valid()
      modifies this`tail, ring
      ensures Valid()
      ensures ok <==> |old(Pending())| + 1 < ringCapacity
      ensures Pending() == if ok then old(Pending()) + [o] else old(Pending())
      ensures Ring.Truthful(old(Pending()), ringCapacity, Ring.Enqueue(o, ok))
      ensures Pending() == Ring.Effect(old(Pending()), Ring.Enqueue(o, ok))
    {
      Ring.NextSlot(tail, ringCapacity);
      var next := (tail + 1) % ringCapacity;
      if next == head {
        return false;
      }
      ring[tail] := o;
      tail := next;
      return true;
    }

    method TryDequeue() returns (r: Option<Observation>)
      requires Valid()
      modifies this`head
      ensures Valid()
      ensures if old(Pending()) == [] then r == None && Pending() == []
              else r == Some(old(Pending())[0]) && Pending() == old(Pending())[1..]
      ensures Ring.Truthful(old(Pending()), ringCapacity, Ring.Dequeue(r))
      ensures Pending() == Ring.Effect(old(Pending()), Ring.Dequeue(r))
    {
      if head == tail {
        return None;
      }
      Ring.NextSlot(head, ringCapacity);
      r := Some(ring[head]);
      head := (head + 1) % ringCapacity;
    }

    /** With nobody else moving, the count is exact. */
    method PendingCount() returns (n: nat)
      requires Valid()
      ensures n == |Pending()|
    {
      if tail >= head {
        return tail - head;
      }
      return ringCapacity - head + tail;
    }

    method SubmitCandidate(c: Observation, checkNow: nat, stampNow: nat) returns (accepted: Option<Observation>)
      requires Valid()
      modifies this, ring, dedup
      ensures Valid()
      ensures Outcome(State(), accepted) ==
              Submit(cfg, dist, ringCapacity, old(State()), c, checkNow, stampNow)
    {
      hide Pruned, Recorded, Near, Promoted, EntryOf, CheckTime, PassesGates, History, Pending,
        Ring.Truthful, Ring.Effect;
      if !PassesGates(cfg, c) {
        return None;
      }
      var duplicate := IsDuplicate(c, checkNow);
      if duplicate {
        return None;
      }
      var o := Promoted(c, stampNow, deviceSeq + 1);
      var ok := Enqueue(o);
      if !ok {
        return None;
      }
      deviceSeq := deviceSeq + 1;
      RecordDedup(EntryOf(o));
      return Some(o);
    }
  }
}
