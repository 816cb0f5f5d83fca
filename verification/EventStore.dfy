/**
 * The sync thread that batches promoted events and posts them (src/event_store.cpp), over the
 * promoter itself. What the producer, the clock and the deadline do between two looks at the ring
 * is a script, so every schedule of whole queue operations is some script.
 */
module EventStore {
  import opened Common
  import opened EventPromoter
  import opened PromoterRuns

  datatype Arrival = Arrival(c: Observation, checkNow: nat, stampNow: nat)

  /** One round of the loop: submissions that land before the ring is polled, whether it is, and the timer. */
  datatype Tick = Tick(arrivals: seq<Arrival>, polled: bool, intervalElapsed: bool)

  /** The submissions among some steps. */
  function Submitted(steps: seq<Step>): seq<Arrival> {
    if steps == [] then []
    else
      var s := steps[|steps| - 1];
      Submitted(steps[..|steps| - 1])
      + if s.Candidate? then [Arrival(s.c, s.checkNow, s.stampNow)] else []
  }

  lemma SubmittedSnoc(steps: seq<Step>, s: Step)
    ensures Submitted(steps + [s]) ==
            Submitted(steps) + if s.Candidate? then [Arrival(s.c, s.checkNow, s.stampNow)] else []
  {
    assert (steps + [s])[..|steps|] == steps;
  }

  function AllArrivals(script: seq<Tick>): seq<Arrival> {
    if script == [] then [] else AllArrivals(script[..|script| - 1]) + script[|script| - 1].arrivals
  }

  class EventStore {
    const promoter: EventPromoter
    const batchSize: nat
    var batch: seq<Observation>
    /** The batches handed to postBatch, in order; whether the network took them is not modelled. */
    var posted: seq<seq<Observation>>
    /** What has happened at the promoter so far. */
    ghost var steps: seq<Step>

    ghost function Surroundings(): Setup
    {
      Setup(promoter.cfg, promoter.dist, promoter.ringCapacity)
    }

    /** The largest batch the loop lets grow. */
    function Limit(): nat { Max(1, batchSize) }

    /**
     * The promoter is where its run of steps leads, and what it has given out is what has been
     * posted followed by the current batch.
     */
    ghost predicate Valid()
      reads this, promoter, promoter.ring, promoter.dedup
    {
      && promoter.Valid()
      && After(Surroundings(), steps).book == promoter.State()
      && After(Surroundings(), steps).taken == Flatten(posted) + batch
    }

    ghost predicate SmallBatches()
      reads this`posted
    {
      forall i :: 0 <= i < |posted| ==> 1 <= |posted[i]| <= Limit()
    }

    constructor (cfg: Config, dist: Distance, configuredCapacity: nat, batchSize: nat)
      ensures Valid() && fresh(promoter) && fresh(promoter.ring) && fresh(promoter.dedup)
      ensures this.batchSize == batchSize && batch == [] && posted == [] && steps == []
    {
      promoter := new EventPromoter(cfg, dist, configuredCapacity);
      this.batchSize := batchSize;
      batch, posted, steps := [], [], [];
    }

    method Arrive(a: Arrival)
      requires Valid()
      modifies this`steps, promoter, promoter.ring, promoter.dedup
      ensures Valid() && steps == old(steps) + [Candidate(a.c, a.checkNow, a.stampNow)]
      ensures Submitted(steps) == Submitted(old(steps)) + [a]
    {
      hide Submit, After, Submitted, Flatten;
      AfterCandidate(Surroundings(), steps, a.c, a.checkNow, a.stampNow);
      SubmittedSnoc(steps, Candidate(a.c, a.checkNow, a.stampNow));
      var r := promoter.SubmitCandidate(a.c, a.checkNow, a.stampNow);
      steps := steps + [Candidate(a.c, a.checkNow, a.stampNow)];
    }

    /** One tryDequeue; a dequeued event goes into the batch. */
    method Poll() returns (got: bool)
      requires Valid()
      modifies this`steps, this`batch, promoter`head
      ensures Valid()
      ensures got <==> old(promoter.Pending()) != []
      ensures got ==> |batch| == |old(batch)| + 1 && |promoter.Pending()| == |old(promoter.Pending())| - 1
      ensures !got ==> batch == old(batch) && promoter.Pending() == old(promoter.Pending())
      ensures Submitted(steps) == Submitted(old(steps))
    {
      hide Submit, After, Submitted, Flatten;
      AfterTake(Surroundings(), steps);
      SubmittedSnoc(steps, Take);
      var r := promoter.TryDequeue();
      match r {
        case None => return false;
        case Some(o) =>
          batch := batch + [o];
          steps := steps + [Take];
          assert Flatten(posted) + old(batch) + [o] == Flatten(posted) + batch;
          return true;
      }
    }

    method FlushBatch()
      requires Valid()
      modifies this`batch, this`posted
      ensures Valid() && batch == []
      ensures posted == if old(batch) == [] then old(posted) else old(posted) + [old(batch)]
      ensures old(SmallBatches()) && |old(batch)| <= Limit() ==> SmallBatches()
    {
      hide After, Flatten;
      if batch == [] {
        return;
      }
      FlattenSnoc(posted, batch);
      posted := posted + [batch];
      batch := [];
    }

    method ArriveAll(arrivals: seq<Arrival>)
      requires Valid()
      modifies this`steps, promoter, promoter.ring, promoter.dedup
      ensures Valid() && Submitted(steps) == Submitted(old(steps)) + arrivals
    {
      hide Valid, After, Submitted, Flatten;
      for a := 0 to |arrivals|
        invariant Valid() && Submitted(steps) == Submitted(old(steps)) + arrivals[..a]
      {
        Arrive(arrivals[a]);
        assert arrivals[..a + 1] == arrivals[..a] + [arrivals[a]];
      }
      assert arrivals[..|arrivals|] == arrivals;
    }

    /** One pass of the loop's body. */
    method Round(tick: Tick)
      requires Valid() && SmallBatches() && |batch| < Limit()
      modifies this, promoter, promoter.ring, promoter.dedup
      ensures Valid() && SmallBatches() && |batch| < Limit()
      ensures Submitted(steps) == Submitted(old(steps)) + tick.arrivals
      ensures tick.intervalElapsed ==> batch == []
    {
      hide Valid, SmallBatches, After, Submitted, Flatten;
      ArriveAll(tick.arrivals);
      if tick.polled {
        var got := Poll();
        if got && |batch| >= batchSize {
          FlushBatch();
        }
      }
      if batch != [] && tick.intervalElapsed {
        FlushBatch();
      }
    }

    /** The loop until stop. */
    method RunUntilStop(script: seq<Tick>)
      requires Valid() && SmallBatches() && |batch| < Limit()
      modifies this, promoter, promoter.ring, promoter.dedup
      ensures Valid() && SmallBatches() && |batch| < Limit()
      ensures Submitted(steps) == Submitted(old(steps)) + AllArrivals(script)
    {
      hide Valid, SmallBatches, After, Flatten, Submitted;
      for t := 0 to |script|
        invariant Valid() && SmallBatches() && |batch| < Limit()
        invariant Submitted(steps) == Submitted(old(steps)) + AllArrivals(script[..t])
      {
        Round(script[t]);
        assert script[..t + 1][..t] == script[..t];
      }
      assert script[..|script|] == script;
    }

    /** Empties the ring into the batch, nobody adding to it. */
    method Drain()
      requires Valid()
      modifies this`steps, this`batch, promoter`head
      ensures Valid() && promoter.Pending() == []
      ensures Submitted(steps) == Submitted(old(steps))
    {
      hide After, Submitted, Flatten;
      var more := true;
      while more
        invariant Valid() && Submitted(steps) == Submitted(old(steps))
        invariant !more ==> promoter.Pending() == []
        decreases |promoter.Pending()|, more
      {
        more := Poll();
      }
    }

    /** When the ring and the batch are empty, everything accepted has been posted. */
    lemma NothingIsLost()
      requires Valid() && batch == [] && promoter.Pending() == []
      ensures Flatten(posted) == After(Surroundings(), steps).accepted
      ensures forall i :: 0 <= i < |Flatten(posted)| ==> Flatten(posted)[i].deviceSeq == i + 1
    {
      AcceptedAreNumbered(Surroundings(), steps);
      hide After, Flatten;
      assert Flatten(posted) + [] == Flatten(posted);
    }

    /**
     * The loop until stop, then the drain and the last flush with the producer gone. Everything
     * the promoter ever accepted has been posted exactly once and in order, numbered from 1
     * without gaps; no batch flushed before stop is longer than max(1, batch size).
     */
    method SyncLoop(script: seq<Tick>) returns (beforeStop: nat)
      requires Valid() && batch == [] && SmallBatches()
      modifies this, promoter, promoter.ring, promoter.dedup
      ensures Valid() && batch == [] && promoter.Pending() == []
      ensures Submitted(steps) == Submitted(old(steps)) + AllArrivals(script)
      ensures Flatten(posted) == After(Surroundings(), steps).accepted
      ensures forall i :: 0 <= i < |Flatten(posted)| ==> Flatten(posted)[i].deviceSeq == i + 1
      ensures beforeStop <= |posted| <= beforeStop + 1
      ensures forall i :: 0 <= i < beforeStop ==> 1 <= |posted[i]| <= Limit()
    {
      hide Valid, After, Flatten, Submitted, AllArrivals;
      RunUntilStop(script);
      beforeStop := |posted|;
      Drain();
      FlushBatch();
      NothingIsLost();
    }
  }
}
