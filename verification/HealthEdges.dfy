/** Examples in which the health ring and the log of checks part: totals cleared by a read, a clock that
    crosses a bucket boundary inside one update, and records loaded newest first over a whole day. */
module HealthEdges {
  import opened HealthRing
  import opened HealthLog
  import opened HealthRuns
  import opened HealthLoad

  lemma {:induction false} SumOfOne(r: seq<RingItem>, s: nat)
    requires s < |r| && forall k :: 0 <= k < |r| && k != s ==> r[k].counter == 0
    ensures Sum(r) == r[s].counter
  {
    var m := |r| - 1;
    if s < m {
      SumOfOne(r[..m], s);
    } else {
      SumOfNone(r[..m]);
    }
  }

  lemma {:induction false} SumOfNone(r: seq<RingItem>)
    requires forall k :: 0 <= k < |r| ==> r[k].counter == 0
    ensures Sum(r) == 0
  {
    if r != [] {
      SumOfNone(r[..|r| - 1]);
    }
  }

  /** The record after two healthy checks and, a day and fifteen minutes later, an unhealthy one. */
  function ThreeChecks(): (r: Rings)
    ensures r.lastCheck == 173700
    ensures forall s :: 0 <= s < RING_SIZE ==>
              && r.total[s] == (if s == 0 then RingItem(2, 1) else if s == 1 then RingItem(1, 2)
                                else RingItem(0, 0))
              && r.healthy[s].counter == if s == 0 then 2 else 0
  {
    var r0 := Rings(NewRing(), NewRing(), 86400);
    var r1 := UpdateSpec(r0, true, 86400, 86400);
    var r2 := UpdateSpec(r1, true, 86400, 86400);
    UpdateSpec(r2, false, 173700, 173700)
  }

  /** Reading clears the first slot: bucket 192 is a new round for it. */
  lemma ReadAfterThree(s: nat)
    requires s < RING_SIZE
    ensures ReadTotals(ThreeChecks().total, 173700, RING_SIZE)[s].counter == if s == 1 then 1 else 0
  {
    var i := EntryOfSlot(173700, s);
    WindowBucket(173700, i);
    RoundAndSlot(RingTime(173700, i));
    ReadTotalsRead(ThreeChecks().total, 173700, RING_SIZE, i);
  }

  lemma SumsAfterRead()
    ensures WindowExists(ThreeChecks().lastCheck)
    ensures Sum(Apply(ThreeChecks(), ReadRing).total) == 1
    ensures Sum(Apply(ThreeChecks(), ReadRing).healthy) == 2
  {
    var r := Apply(ThreeChecks(), ReadRing);
    forall s | 0 <= s < RING_SIZE ensures r.total[s].counter == if s == 1 then 1 else 0 {
      ReadAfterThree(s);
    }
    SumOfOne(r.total, 1);
    SumOfOne(r.healthy, 0);
  }

  lemma RunSnoc(states: seq<Rings>, ops: seq<Op>, op: Op)
    requires IsRun(states, ops) && WindowExists(states[|ops|].lastCheck)
    requires Allowed(states[|ops|], LogFrom([], ops), op)
    ensures IsRun(states + [Apply(states[|ops|], op)], ops + [op])
  {
    var states', ops' := states + [Apply(states[|ops|], op)], ops + [op];
    forall i | 0 <= i < |ops'| ensures StepAt(states', ops', i) {
      if i < |ops| {
        assert ops'[..i] == ops[..i];
        assert StepAt(states, ops, i);
      } else {
        assert ops'[..i] == ops;
      }
    }
  }

  lemma AddUpdate(states: seq<Rings>, ops: seq<Op>, log: seq<Check>, op: Op)
    returns (states': seq<Rings>, ops': seq<Op>)
    requires IsRun(states, ops) && LogFrom([], ops) == log && op.Update?
    requires WindowExists(states[|ops|].lastCheck) && Allowed(states[|ops|], log, op)
    ensures IsRun(states', ops') && |ops'| == |ops| + 1 && states'[0] == states[0]
    ensures states'[|ops'|] == UpdateSpec(states[|ops|], op.healthy, op.checked, op.now)
    ensures LogFrom([], ops') == log + [Check(op.now, op.healthy)]
  {
    RunSnoc(states, ops, op);
    states', ops' := states + [Apply(states[|ops|], op)], ops + [op];
    assert ops'[..|ops|] == ops;
  }

  /** Two healthy checks and an unhealthy one as a run from a new record. */
  lemma ThreeUpdates(t1: nat, t2: nat) returns (states: seq<Rings>, ops: seq<Op>)
    requires WindowExists(t1) && t1 <= t2
    ensures |ops| == 3 && IsRun(states, ops) && states[0] == Rings(NewRing(), NewRing(), t1)
    ensures var r1 := UpdateSpec(Rings(NewRing(), NewRing(), t1), true, t1, t1);
            var r2 := UpdateSpec(r1, true, t1, t1);
            states[3] == UpdateSpec(r2, false, t2, t2)
  {
    NewStarts(t1);
    states, ops := [Rings(NewRing(), NewRing(), t1)], [];
    states, ops := AddUpdate(states, ops, [], Update(true, t1, t1));
    states, ops := AddUpdate(states, ops, [Check(t1, true)], Update(true, t1, t1));
    states, ops := AddUpdate(states, ops, [Check(t1, true), Check(t1, true)], Update(false, t2, t2));
  }

  /** One read of the ring later, the record counts more healthy checks than checks. */
  lemma ReadCanUnderflow() returns (states: seq<Rings>, ops: seq<Op>)
    ensures |ops| == 4 && ops[3].ReadRing? && IsRun(states, ops)
    ensures states[0] == Rings(NewRing(), NewRing(), states[0].lastCheck)
    ensures Sum(states[4].healthy) > Sum(states[4].total)
  {
    states, ops := ThreeUpdates(86400, 173700);
    SumsAfterRead();
    assert states[3] == ThreeChecks();
    RunSnoc(states, ops, ReadRing);
    states, ops := states + [Apply(states[3], ReadRing)], ops + [ReadRing];
  }

  /** A new record after one healthy check whose clock readings straddle a bucket boundary. */
  function Straddled(): (r: Rings)
    ensures r.lastCheck == 87299
    ensures forall s :: 0 <= s < RING_SIZE ==>
              && r.total[s] == (if s == 1 then RingItem(1, 1) else RingItem(0, 0))
              && r.healthy[s] == (if s == 1 then RingItem(1, 1) else RingItem(0, 0))
  {
    UpdateSpec(Rings(NewRing(), NewRing(), 86400), true, 87299, 87300)
  }

  lemma StraddledRead(s: nat)
    requires s < RING_SIZE
    ensures ReadTotals(Straddled().total, 87299, RING_SIZE)[s].counter == 0
  {
    var i := EntryOfSlot(87299, s);
    WindowBucket(87299, i);
    RoundAndSlot(RingTime(87299, i));
    ReadTotalsRead(Straddled().total, 87299, RING_SIZE, i);
  }

  /** A read right after a straddling check forgets it, but not that it was healthy. */
  lemma StraddleCanUnderflow() returns (states: seq<Rings>, ops: seq<Op>)
    ensures |ops| == 2 && ops[1].ReadRing? && IsRun(states, ops)
    ensures states[0] == Rings(NewRing(), NewRing(), states[0].lastCheck)
    ensures Sum(states[2].healthy) == 1 && Sum(states[2].total) == 0
  {
    NewStarts(86400);
    states, ops := [Rings(NewRing(), NewRing(), 86400)], [];
    states, ops := AddUpdate(states, ops, [], Update(true, 87299, 87300));
    assert states[1] == Straddled();
    RunSnoc(states, ops, ReadRing);
    var r := Apply(states[1], ReadRing);
    forall s | 0 <= s < RING_SIZE ensures r.total[s].counter == 0 {
      StraddledRead(s);
    }
    SumOfNone(r.total);
    SumOfOne(r.healthy, 1);
    states, ops := states + [r], ops + [ReadRing];
  }

  /** An update whose two clock readings straddle a bucket boundary: a read in between forgets its
      check. */
  lemma SplitClockLosesCheck()
    ensures var r0 := Rings(NewRing(), NewRing(), 86400);
            var r1 := UpdateSpec(r0, true, 87299, 87300);
            && WindowExists(r1.lastCheck)
            && var r2 := Apply(r1, ReadRing);
               var r3 := UpdateSpec(r2, true, 87300, 87300);
               && WindowExists(r3.lastCheck)
               && Bucket(87300) == Bucket(r3.lastCheck)
               && TotalEntry(r3, 0) == 1
  {
    var r0 := Rings(NewRing(), NewRing(), 86400);
    var r1 := UpdateSpec(r0, true, 87299, 87300);
    var i := EntryOfSlot(87299, 1);
    WindowBucket(87299, i);
    RoundAndSlot(RingTime(87299, i));
    ReadTotalsRead(r1.total, 87299, RING_SIZE, i);
    assert r1.total[1] == RingItem(1, 1);
    assert Apply(r1, ReadRing).total[1] == RingItem(0, 0);
  }

  // --- Two records 96 buckets apart ---

  lemma TwoRecords(later: Check, earlier: Check, now: nat)
    requires Recent(later, now) && Recent(earlier, now)
    requires Bucket(later.time) == Bucket(earlier.time) + RING_SIZE
    ensures var records := [later] + [earlier];
            && NewestFirst(records) && RecentOnly(records, now) == records
            && Slot(later.time) == Slot(earlier.time)
            && Oldest(records, Slot(later.time)).Some?
            && Oldest(records, Slot(later.time)).value == Bucket(earlier.time)
            && Count(records, Bucket(later.time)) == 1
            && CountHealthy(records, Bucket(earlier.time)) == (if earlier.healthy then 1 else 0)
            && CountHealthy(records, Bucket(later.time)) == (if later.healthy then 1 else 0)
  {
    RecentSnoc([], later, now);
    RecentSnoc([later], earlier, now);
    assert [] + [later] == [later];
    CountSnoc([], later, Bucket(later.time));
    CountSnoc([later], earlier, Bucket(later.time));
    CountSnoc([], later, Bucket(earlier.time));
    CountSnoc([later], earlier, Bucket(earlier.time));
    RoundAndSlot(later.time);
    RoundAndSlot(earlier.time);
    if later.time < earlier.time {
      BucketMonotone(later.time, earlier.time);
    }
  }

  /** Loaded newest first, the older record wipes the newer one out. */
  lemma NewestFirstLosesCheck(later: Check, earlier: Check, created: nat, now: nat)
    requires Recent(later, now) && Recent(earlier, now) && WindowExists(later.time)
    requires Bucket(later.time) == Bucket(earlier.time) + RING_SIZE
    ensures var records := [later] + [earlier];
            && NewestFirst(records) && FromDb(records, created, now).lastCheck == later.time
            && Count(RecentOnly(records, now), Bucket(later.time)) == 1
            && TotalEntry(FromDb(records, created, now), 0) != 1
  {
    var records := [later] + [earlier];
    assert records[0] == later;
    TwoRecords(later, earlier, now);
    RoundAndSlot(later.time);
    LoadedTotals(records, created, now, 0);
  }

  /** Loaded newest first, the healthy check of the older record is reported for the bucket of the newer
      one, which was unhealthy. */
  lemma StaleHealthyAfterLoad(later: Check, earlier: Check, created: nat, now: nat)
    requires Recent(later, now) && Recent(earlier, now) && WindowExists(later.time)
    requires Bucket(later.time) == Bucket(earlier.time) + RING_SIZE && earlier.healthy && !later.healthy
    ensures var records := [later] + [earlier];
            && NewestFirst(records) && FromDb(records, created, now).lastCheck == later.time
            && CountHealthy(RecentOnly(records, now), Bucket(later.time)) == 0
            && HealthyEntry(FromDb(records, created, now), 0) == 1
  {
    var records := [later] + [earlier];
    assert records[0] == later;
    TwoRecords(later, earlier, now);
    RoundAndSlot(later.time);
    HealthyOnlySnoc([later], earlier);
    HealthyOnlySnoc([], later);
    assert [] + [later] == [later];
    assert HealthyOnly(records) == [earlier];
    LoadedHealthy(records, created, now, 0);
  }

  /** Checks all of one slot fill no other. */
  lemma OneSlotSum(checks: seq<Check>, s: nat)
    requires NewestFirst(checks) && s < RING_SIZE && Oldest(checks, s).Some?
    requires forall c <- checks :: Slot(c.time) == s
    ensures Sum(Fill(NewRing(), checks)) == Count(checks, Oldest(checks, s).value)
  {
    forall k | 0 <= k < RING_SIZE && k != s ensures Fill(NewRing(), checks)[k].counter == 0 {
      NewestFirstFill(checks, k);
      OldestIsOldest(checks, k);
    }
    NewestFirstFill(checks, s);
    SumOfOne(Fill(NewRing(), checks), s);
  }

  /** Loaded newest first, two healthy checks of the newest bucket and an unhealthy one 96 buckets before:
      the older record wipes the two totals out but not the healthy counts. No read is needed. */
  lemma LoadCanUnderflow(later: Check, earlier: Check, created: nat, now: nat)
    requires Recent(later, now) && Recent(earlier, now) && WindowExists(later.time)
    requires Bucket(later.time) == Bucket(earlier.time) + RING_SIZE && later.healthy && !earlier.healthy
    ensures var r := FromDb([later, later, earlier], created, now);
            NewestFirst([later, later, earlier]) && Sum(r.healthy) == 2 && Sum(r.total) == 1
  {
    LoadIsFill(Rings(NewRing(), NewRing(), later.time), [later, later, earlier], now);
    ThreeRecent(later, earlier, now);
    ThreeSlots(later, earlier);
    OneSlotSum([later, later, earlier], Slot(later.time));
    OneSlotSum([later, later], Slot(later.time));
  }

  lemma ThreeSlots(later: Check, earlier: Check)
    requires Bucket(later.time) == Bucket(earlier.time) + RING_SIZE
    ensures NewestFirst([later, later, earlier]) && NewestFirst([later, later])
    ensures var s := Slot(later.time);
            && (forall c <- [later, later, earlier] :: Slot(c.time) == s)
            && Oldest([later, later, earlier], s).Some? && Oldest([later, later], s).Some?
            && Oldest([later, later, earlier], s).value == Bucket(earlier.time)
            && Oldest([later, later], s).value == Bucket(later.time)
  {
    RoundAndSlot(later.time);
    RoundAndSlot(earlier.time);
    if later.time < earlier.time {
      BucketMonotone(later.time, earlier.time);
    }
  }

  lemma ThreeRecent(later: Check, earlier: Check, now: nat)
    requires Recent(later, now) && Recent(earlier, now) && later.healthy && !earlier.healthy
    requires Bucket(later.time) == Bucket(earlier.time) + RING_SIZE
    ensures RecentOnly([later, later, earlier], now) == [later, later, earlier]
    ensures HealthyOnly([later, later, earlier]) == [later, later]
    ensures Count([later, later, earlier], Bucket(earlier.time)) == 1
    ensures Count([later, later], Bucket(later.time)) == 2
  {
    assert [later, later, earlier] == [later, later] + [earlier] && [later, later] == [later] + [later];
    assert [later] == [] + [later];
    RecentSnoc([], later, now);
    RecentSnoc([later], later, now);
    RecentSnoc([later, later], earlier, now);
    HealthyOnlySnoc([], later);
    HealthyOnlySnoc([later], later);
    HealthyOnlySnoc([later, later], earlier);
    CountSnoc([], later, Bucket(earlier.time));
    CountSnoc([later], later, Bucket(earlier.time));
    CountSnoc([later, later], earlier, Bucket(earlier.time));
    CountSnoc([], later, Bucket(later.time));
    CountSnoc([later], later, Bucket(later.time));
  }

  /** Such a pair of records exists within one day. */
  lemma DayTouches97Buckets()
    ensures Recent(Check(172850, true), 172900) && Recent(Check(86501, true), 172900)
    ensures WindowExists(172850) && Bucket(172850) == Bucket(86501) + RING_SIZE
  {
  }
}
