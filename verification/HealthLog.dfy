/** A plain log of checks, what it means for the ring to be true to it, and which updates and reads keep
    it so. */
module HealthLog {
  import opened Options
  import opened HealthRing

  // --- The log ---

  function Count(log: seq<Check>, b: nat): nat {
    if log == [] then 0
    else Count(log[..|log| - 1], b) + if Bucket(log[|log| - 1].time) == b then 1 else 0
  }

  function CountHealthy(log: seq<Check>, b: nat): nat {
    if log == [] then 0
    else
      var c := log[|log| - 1];
      CountHealthy(log[..|log| - 1], b) + if c.healthy && Bucket(c.time) == b then 1 else 0
  }

  lemma {:induction false} HealthyAmongAll(log: seq<Check>, b: nat)
    ensures CountHealthy(log, b) <= Count(log, b)
  {
    if log != [] {
      HealthyAmongAll(log[..|log| - 1], b);
    }
  }

  lemma CountSnoc(log: seq<Check>, c: Check, b: nat)
    ensures Count(log + [c], b) == Count(log, b) + if Bucket(c.time) == b then 1 else 0
    ensures CountHealthy(log + [c], b)
         == CountHealthy(log, b) + if c.healthy && Bucket(c.time) == b then 1 else 0
  {
    assert (log + [c])[..|log|] == log;
  }

  lemma {:induction false} CountPositive(log: seq<Check>, b: nat)
    ensures Count(log, b) > 0 <==> exists c :: c in log && Bucket(c.time) == b
  {
    if log != [] {
      var init, last := log[..|log| - 1], log[|log| - 1];
      CountPositive(init, b);
      assert log == init + [last];
      if Count(init, b) > 0 {
        var c :| c in init && Bucket(c.time) == b;
        assert c in log;
      } else if Bucket(last.time) == b {
        assert last in log;
      }
    }
  }

  lemma {:induction false} HealthyPositive(log: seq<Check>, b: nat)
    ensures CountHealthy(log, b) > 0 <==> exists c :: c in log && c.healthy && Bucket(c.time) == b
  {
    if log != [] {
      var init, last := log[..|log| - 1], log[|log| - 1];
      HealthyPositive(init, b);
      assert log == init + [last];
      if CountHealthy(init, b) > 0 {
        var c :| c in init && c.healthy && Bucket(c.time) == b;
        assert c in log;
      } else if last.healthy && Bucket(last.time) == b {
        assert last in log;
      }
    }
  }

  /** No check of slot s came after bucket b. */
  ghost predicate NoneAfter(log: seq<Check>, s: nat, b: nat) {
    forall c <- log :: Slot(c.time) == s ==> Bucket(c.time) <= b
  }

  ghost predicate NoneHealthyAfter(log: seq<Check>, s: nat, b: nat) {
    forall c <- log :: c.healthy && Slot(c.time) == s ==> Bucket(c.time) <= b
  }

  lemma CountNone(log: seq<Check>, s: nat, last: nat, b: nat)
    requires NoneAfter(log, s, last) && b % RING_SIZE == s && last < b
    ensures Count(log, b) == 0
  {
    CountPositive(log, b);
    forall c | c in log ensures Bucket(c.time) != b {
      RoundAndSlot(c.time);
    }
  }

  lemma CountHealthyNone(log: seq<Check>, s: nat, last: nat, b: nat)
    requires NoneHealthyAfter(log, s, last) && b % RING_SIZE == s && last < b
    ensures CountHealthy(log, b) == 0
  {
    HealthyPositive(log, b);
    forall c | c in log && c.healthy ensures Bucket(c.time) != b {
      RoundAndSlot(c.time);
    }
  }

  /** The latest bucket of slot s that saw a check. */
  function Latest(log: seq<Check>, s: nat): Option<nat> {
    if log == [] then None
    else
      var before, c := Latest(log[..|log| - 1], s), log[|log| - 1];
      if Slot(c.time) != s then before
      else if before.Some? && before.value > Bucket(c.time) then before
      else Some(Bucket(c.time))
  }

  lemma {:induction false} LatestIsLatest(log: seq<Check>, s: nat)
    ensures match Latest(log, s)
            case None => forall c <- log :: Slot(c.time) != s
            case Some(b) => b % RING_SIZE == s && NoneAfter(log, s, b) && Count(log, b) > 0
  {
    if log != [] {
      var init, c := log[..|log| - 1], log[|log| - 1];
      LatestIsLatest(init, s);
      assert log == init + [c];
      RoundAndSlot(c.time);
    }
  }

  lemma LatestUnique(log: seq<Check>, s: nat, b: nat)
    requires b % RING_SIZE == s && NoneAfter(log, s, b) && Count(log, b) > 0
    ensures Latest(log, s) == Some(b)
  {
    LatestIsLatest(log, s);
    CountPositive(log, b);
    var c :| c in log && Bucket(c.time) == b;
    RoundAndSlot(c.time);
    if Latest(log, s).Some? {
      CountPositive(log, Latest(log, s).value);
      var d :| d in log && Bucket(d.time) == Latest(log, s).value;
      RoundAndSlot(d.time);
    }
  }

  /** Checks, and healthy checks, of the latest bucket of the slot. */
  function TotalAt(log: seq<Check>, s: nat): nat {
    if Latest(log, s).Some? then Count(log, Latest(log, s).value) else 0
  }

  function HealthyAt(log: seq<Check>, s: nat): nat {
    if Latest(log, s).Some? then CountHealthy(log, Latest(log, s).value) else 0
  }

  // --- Slots true to the log ---

  /** Both items of a slot count their bucket; no check is later than the total's bucket, no healthy one
      later than the healthy one's, and a healthy count that is not zero belongs to the latest check.
      Beyond the bucket of the last check time there is a slot only where a check went. */
  ghost predicate SlotInv(total: RingItem, healthy: RingItem, s: nat, log: seq<Check>, last: nat) {
    var tb, hb := BucketOf(total, s), BucketOf(healthy, s);
    && NoneAfter(log, s, tb) && total.counter == Count(log, tb)
    && (tb <= last || Count(log, tb) > 0)
    && hb <= tb && healthy.counter == CountHealthy(log, hb)
    && NoneHealthyAfter(log, s, hb)
    && (healthy.counter > 0 ==> NoneAfter(log, s, hb))
    && (healthy.round > 0 ==> Count(log, hb) > 0)
  }

  ghost predicate Inv(r: Rings, log: seq<Check>) {
    && WindowExists(r.lastCheck)
    && forall s :: 0 <= s < RING_SIZE ==> SlotInv(r.total[s], r.healthy[s], s, log, Bucket(r.lastCheck))
  }

  lemma SlotOfBucket(item: RingItem, s: nat)
    requires s < RING_SIZE
    ensures BucketOf(item, s) % RING_SIZE == s
  {
  }

  /** Buckets of one slot are a ring apart. */
  lemma SameSlot(a: nat, b: nat)
    requires a % RING_SIZE == b % RING_SIZE && a != b
    ensures a + RING_SIZE <= b || b + RING_SIZE <= a
  {
    assert a == 96 * (a / 96) + a % 96 && b == 96 * (b / 96) + b % 96;
  }

  /** The healthy count of a slot is that of its latest bucket. */
  lemma HealthyIsLatest(total: RingItem, healthy: RingItem, s: nat, log: seq<Check>, last: nat)
    requires s < RING_SIZE && SlotInv(total, healthy, s, log, last)
    ensures healthy.counter == HealthyAt(log, s)
  {
    var hb := BucketOf(healthy, s);
    SlotOfBucket(healthy, s);
    LatestIsLatest(log, s);
    HealthyAmongAll(log, hb);
    if healthy.counter > 0 {
      LatestUnique(log, s, hb);
    } else if Latest(log, s).Some? {
      var b := Latest(log, s).value;
      if b > hb {
        CountHealthyNone(log, s, hb, b);
      } else if b < hb {
        CountNone(log, s, b, hb);
      }
    }
  }

  // --- Updates ---

  datatype Op = Update(healthy: bool, checked: nat, now: nat) | ReadRing

  function Apply(r: Rings, op: Op): Rings
    requires WindowExists(r.lastCheck)
  {
    match op
    case Update(healthy, checked, now) => UpdateSpec(r, healthy, checked, now)
    case ReadRing => r.(total := ReadTotals(r.total, r.lastCheck, RING_SIZE))
  }

  /** The clock does not go back; an update reads it twice, and a bucket may end in between. */
  ghost predicate Allowed(r: Rings, log: seq<Check>, op: Op) {
    op.Update? ==>
      && WindowExists(op.checked) && r.lastCheck <= op.checked <= op.now
      && forall c <- log :: c.time <= op.checked
  }

  function LogOf(op: Op): seq<Check> {
    if op.Update? then [Check(op.now, op.healthy)] else []
  }

  lemma BucketMonotone(a: nat, b: nat)
    requires a <= b
    ensures Bucket(a) <= Bucket(b)
  {
  }

  lemma UpdateSlot(total: RingItem, healthy: RingItem, log: seq<Check>, last: nat, last': nat, c: Check)
    requires SlotInv(total, healthy, Slot(c.time), log, last) && last <= last' <= Bucket(c.time)
    requires forall d <- log :: Bucket(d.time) <= Bucket(c.time)
    ensures var h := Updated(healthy, c.time);
            SlotInv(Inc(total, c.time), if c.healthy then Inc(h, c.time) else h, Slot(c.time), log + [c], last')
  {
    var s, b := Slot(c.time), Bucket(c.time);
    RoundAndSlot(c.time);
    CountSnoc(log, c, b);
    CountPositive(log, BucketOf(total, s));
    assert BucketOf(total, s) <= b;
    if BucketOf(total, s) < b {
      CountNone(log, s, BucketOf(total, s), b);
    }
    if BucketOf(healthy, s) < b {
      CountHealthyNone(log, s, BucketOf(healthy, s), b);
    }
  }

  lemma OtherSlot(total: RingItem, healthy: RingItem, s: nat, log: seq<Check>, last: nat, last': nat, c: Check)
    requires s < RING_SIZE && SlotInv(total, healthy, s, log, last) && last <= last'
    requires Slot(c.time) != s
    ensures SlotInv(total, healthy, s, log + [c], last')
  {
    RoundAndSlot(c.time);
    SlotOfBucket(total, s);
    SlotOfBucket(healthy, s);
    CountSnoc(log, c, BucketOf(total, s));
    CountSnoc(log, c, BucketOf(healthy, s));
  }

  lemma UpdateKeepsInv(r: Rings, log: seq<Check>, op: Op)
    requires op.Update? && Inv(r, log) && Allowed(r, log, op)
    ensures Inv(Apply(r, op), log + LogOf(op))
  {
    var r', c := Apply(r, op), Check(op.now, op.healthy);
    BucketMonotone(r.lastCheck, op.checked);
    BucketMonotone(op.checked, op.now);
    forall d | d in log ensures Bucket(d.time) <= Bucket(op.now) {
      BucketMonotone(d.time, op.now);
    }
    forall s | 0 <= s < RING_SIZE
      ensures SlotInv(r'.total[s], r'.healthy[s], s, log + [c], Bucket(op.checked))
    {
      assert SlotInv(r.total[s], r.healthy[s], s, log, Bucket(r.lastCheck));
      if s == Slot(op.now) {
        UpdateSlot(r.total[s], r.healthy[s], log, Bucket(r.lastCheck), Bucket(op.checked), c);
      } else {
        OtherSlot(r.total[s], r.healthy[s], s, log, Bucket(r.lastCheck), Bucket(op.checked), c);
      }
    }
  }

  // --- Reads ---

  /** Which entry of the window a slot is reported as. */
  lemma EntryOfSlot(last: nat, s: nat) returns (i: nat)
    requires WindowExists(last) && s < RING_SIZE
    ensures i < RING_SIZE && i * GRANULARITY <= last && Slot(RingTime(last, i)) == s
  {
    var b := Bucket(last);
    i := (b - s) % 96;
    WindowBucket(last, i);
    assert (b - i) % 96 == s by {
      assert b - s == 96 * ((b - s) / 96) + i;
      assert b - i == 96 * ((b - s) / 96) + s;
    }
  }

  /** No check has been logged after the bucket of the last check time. */
  ghost predicate Current(r: Rings, log: seq<Check>) {
    forall c <- log :: Bucket(c.time) <= Bucket(r.lastCheck)
  }

  lemma ReadSlot(total: RingItem, healthy: RingItem, log: seq<Check>, last: nat, t: nat)
    requires SlotInv(total, healthy, Slot(t), log, last) && last - RING_SIZE < Bucket(t) <= last
    requires NoneAfter(log, Slot(t), last)
    ensures SlotInv(Updated(total, t), healthy, Slot(t), log, last)
    ensures Updated(total, t).counter == Count(log, Bucket(t))
    ensures BucketOf(Updated(total, t), Slot(t)) == Bucket(t)
  {
    var s, b := Slot(t), Bucket(t);
    RoundAndSlot(t);
    SlotOfBucket(total, s);
    CountPositive(log, BucketOf(total, s));
    assert BucketOf(total, s) <= last by {
      if Count(log, BucketOf(total, s)) > 0 {
        var c :| c in log && Bucket(c.time) == BucketOf(total, s);
        RoundAndSlot(c.time);
      }
    }
    if total.round != Round(t) {
      SameSlot(BucketOf(total, s), b);
      CountNone(log, s, BucketOf(total, s), b);
    }
  }

  lemma CleanReadKeepsInv(r: Rings, log: seq<Check>)
    requires Inv(r, log) && Current(r, log)
    ensures Inv(Apply(r, ReadRing), log)
  {
    var r' := Apply(r, ReadRing);
    forall s | 0 <= s < RING_SIZE
      ensures SlotInv(r'.total[s], r'.healthy[s], s, log, Bucket(r.lastCheck))
    {
      var i := EntryOfSlot(r.lastCheck, s);
      WindowBucket(r.lastCheck, i);
      ReadTotalsRead(r.total, r.lastCheck, RING_SIZE, i);
      assert SlotInv(r.total[s], r.healthy[s], s, log, Bucket(r.lastCheck));
      ReadSlot(r.total[s], r.healthy[s], log, Bucket(r.lastCheck), RingTime(r.lastCheck, i));
    }
  }

  /** A read moves the slot of a later check back. */
  lemma LateCheckBreaksRead(r: Rings, log: seq<Check>, c: Check)
    requires Inv(r, log) && c in log && Bucket(c.time) > Bucket(r.lastCheck)
    ensures !Inv(Apply(r, ReadRing), log)
  {
    var s := Slot(c.time);
    var i := EntryOfSlot(r.lastCheck, s);
    var t := RingTime(r.lastCheck, i);
    WindowBucket(r.lastCheck, i);
    RoundAndSlot(t);
    ReadTotalsRead(r.total, r.lastCheck, RING_SIZE, i);
    assert BucketOf(Updated(r.total[s], t), s) == Bucket(t);
    var r' := Apply(r, ReadRing);
    assert !NoneAfter(log, s, BucketOf(r'.total[s], s));
    assert !SlotInv(r'.total[s], r'.healthy[s], s, log, Bucket(r.lastCheck));
  }

  /** A read keeps the ring true to the log if and only if no check lies in a bucket after that of the
      last check time. */
  lemma ReadExact(r: Rings, log: seq<Check>)
    requires Inv(r, log)
    ensures Inv(Apply(r, ReadRing), log) <==> Current(r, log)
  {
    if Current(r, log) {
      CleanReadKeepsInv(r, log);
    } else {
      var c :| c in log && Bucket(c.time) > Bucket(r.lastCheck);
      LateCheckBreaksRead(r, log, c);
    }
  }

  /** An update followed by a read keeps the ring true to the log if and only if both clock readings of
      the update fall into one bucket. */
  lemma SplitClockExact(r: Rings, log: seq<Check>, op: Op)
    requires op.Update? && Inv(r, log) && Allowed(r, log, op)
    ensures Inv(Apply(Apply(r, op), ReadRing), log + LogOf(op)) <==> Bucket(op.checked) == Bucket(op.now)
  {
    UpdateKeepsInv(r, log, op);
    ReadExact(Apply(r, op), log + LogOf(op));
    BucketMonotone(op.checked, op.now);
    forall c | c in log ensures Bucket(c.time) <= Bucket(op.checked) {
      BucketMonotone(c.time, op.checked);
    }
    var all, c := log + LogOf(op), Check(op.now, op.healthy);
    assert c in all && forall d <- all :: d in log || d == c;
  }
}
