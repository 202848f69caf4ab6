/** Whole runs of the health ring, from any beginning not ahead of its clock and with reads at any time:
    what every slot counts, what is reported, and when healthy checks outnumber checks. */
module HealthRuns {
  import opened Options
  import opened HealthRing
  import opened HealthLog

  // --- Runs ---

  /** The checks made by updates, in order. */
  function LogFrom(log: seq<Check>, ops: seq<Op>): seq<Check> {
    if ops == [] then log else LogFrom(log, ops[..|ops| - 1]) + LogOf(ops[|ops| - 1])
  }

  /** Where a run may begin: no slot is ahead of the last check time. New records and records loaded
      newest first are like that. */
  ghost predicate Grounded(r: Rings) {
    && WindowExists(r.lastCheck)
    && forall s :: 0 <= s < RING_SIZE ==>
         BucketOf(r.total[s], s) <= Bucket(r.lastCheck) && BucketOf(r.healthy[s], s) <= Bucket(r.lastCheck)
  }

  /** Updates and reads one after the other, in any order, under a clock that does not go back. */
  ghost predicate IsRun(states: seq<Rings>, ops: seq<Op>) {
    && |states| == |ops| + 1
    && Grounded(states[0])
    && forall i :: 0 <= i < |ops| ==> StepAt(states, ops, i)
  }

  ghost predicate StepAt(states: seq<Rings>, ops: seq<Op>, i: nat)
    requires |states| == |ops| + 1 && i < |ops|
  {
    && WindowExists(states[i].lastCheck)
    && Allowed(states[i], LogFrom([], ops[..i]), ops[i])
    && states[i + 1] == Apply(states[i], ops[i])
  }

  lemma LogSnoc(start: seq<Check>, ops: seq<Op>, n: nat)
    requires n < |ops|
    ensures LogFrom(start, ops[..n + 1]) == LogFrom(start, ops[..n]) + LogOf(ops[n])
  {
    assert ops[..n + 1][..n] == ops[..n];
  }

  lemma {:induction false} LogSplits(start: seq<Check>, ops: seq<Op>)
    ensures LogFrom(start, ops) == start + LogFrom([], ops)
  {
    if ops != [] {
      LogSplits(start, ops[..|ops| - 1]);
    }
  }

  lemma {:induction false} CountJoins(a: seq<Check>, b: seq<Check>, bucket: nat)
    ensures Count(a + b, bucket) == Count(a, bucket) + Count(b, bucket)
    ensures CountHealthy(a + b, bucket) == CountHealthy(a, bucket) + CountHealthy(b, bucket)
  {
    if b == [] {
      assert a + b == a;
    } else {
      var m := |b| - 1;
      assert a + b == (a + b[..m]) + [b[m]];
      CountJoins(a, b[..m], bucket);
      CountSnoc(a + b[..m], b[m], bucket);
    }
  }

  /** Times only grow: the window exists, and everything logged is behind the clock. */
  lemma {:induction false} ClockGrows(states: seq<Rings>, ops: seq<Op>, n: nat)
    requires IsRun(states, ops) && n < |states|
    ensures WindowExists(states[n].lastCheck) && states[0].lastCheck <= states[n].lastCheck
    ensures forall c <- LogFrom([], ops[..n]) :: states[0].lastCheck <= c.time
  {
    if n > 0 {
      ClockGrows(states, ops, n - 1);
      LogSnoc([], ops, n - 1);
      assert StepAt(states, ops, n - 1);
    }
  }

  // --- What every slot counts ---

  /** A read up to bucket `last` looks at another bucket than b. */
  predicate Misses(last: nat, b: nat) {
    b > last || b + RING_SIZE <= last
  }

  /** How many operations there were up to the last read that missed bucket b. */
  function LastMiss(states: seq<Rings>, ops: seq<Op>, n: nat, b: nat): (r: Option<nat>)
    requires |states| == |ops| + 1 && n <= |ops|
    ensures r.Some? ==> 0 < r.value <= n
  {
    if n == 0 then None
    else if ops[n - 1].ReadRing? && Misses(Bucket(states[n - 1].lastCheck), b) then Some(n)
    else LastMiss(states, ops, n - 1, b)
  }

  /** The checks logged since that read. */
  function SinceMiss(states: seq<Rings>, ops: seq<Op>, n: nat, b: nat): seq<Check>
    requires |states| == |ops| + 1 && n <= |ops|
  {
    var miss := LastMiss(states, ops, n, b);
    if miss.Some? then LogFrom([], ops[miss.value..n]) else LogFrom([], ops[..n])
  }

  /** The bucket a slot stands for: that of its latest check, or the one it began with. */
  function Top(first: RingItem, log: seq<Check>, s: nat): nat {
    if Latest(log, s).Some? then Latest(log, s).value else BucketOf(first, s)
  }

  /** What an item contributes to bucket b. */
  function CountFor(item: RingItem, s: nat, b: nat): nat {
    if BucketOf(item, s) == b then item.counter else 0
  }

  /** The total of a slot: the checks of its bucket logged since the last read that missed that bucket,
      and what the slot began with if there was none. */
  function TotalLaw(states: seq<Rings>, ops: seq<Op>, n: nat, s: nat): nat
    requires |states| == |ops| + 1 && n <= |ops| && s < RING_SIZE
  {
    Remembered(states, ops, n, s, Top(states[0].total[s], LogFrom([], ops[..n]), s))
  }

  function Remembered(states: seq<Rings>, ops: seq<Op>, n: nat, s: nat, b: nat): nat
    requires |states| == |ops| + 1 && n <= |ops| && s < RING_SIZE
  {
    Count(SinceMiss(states, ops, n, b), b)
    + if LastMiss(states, ops, n, b).None? then CountFor(states[0].total[s], s, b) else 0
  }

  /** The healthy count of a slot: the healthy checks of its bucket, and what it began with for it. Reads
      play no part. */
  function HealthyLaw(states: seq<Rings>, ops: seq<Op>, n: nat, s: nat): nat
    requires |states| == |ops| + 1 && n <= |ops| && s < RING_SIZE
  {
    var log := LogFrom([], ops[..n]);
    var b := Top(states[0].healthy[s], log, s);
    CountHealthy(log, b) + CountFor(states[0].healthy[s], s, b)
  }

  ghost predicate SlotKnown(states: seq<Rings>, ops: seq<Op>, n: nat, s: nat)
    requires |states| == |ops| + 1 && n <= |ops| && s < RING_SIZE
  {
    var log := LogFrom([], ops[..n]);
    && states[n].total[s].counter == TotalLaw(states, ops, n, s)
    && (BucketOf(states[n].total[s], s) != Top(states[0].total[s], log, s) ==> states[n].total[s].counter == 0)
    && states[n].healthy[s].counter == HealthyLaw(states, ops, n, s)
    && BucketOf(states[n].healthy[s], s) == Top(states[0].healthy[s], log, s)
  }

  lemma SinceSnoc(states: seq<Rings>, ops: seq<Op>, n: nat, b: nat)
    requires |states| == |ops| + 1 && n < |ops| && ops[n].Update?
    ensures SinceMiss(states, ops, n + 1, b) == SinceMiss(states, ops, n, b) + LogOf(ops[n])
    ensures LastMiss(states, ops, n + 1, b) == LastMiss(states, ops, n, b)
  {
    var miss := LastMiss(states, ops, n, b);
    if miss.Some? {
      assert ops[miss.value..n + 1][..n - miss.value] == ops[miss.value..n];
    } else {
      LogSnoc([], ops, n);
    }
  }

  lemma LogOfRead(ops: seq<Op>, m: nat, n: nat)
    requires m <= n < |ops| && ops[n].ReadRing?
    ensures LogFrom([], ops[m..n + 1]) == LogFrom([], ops[m..n])
  {
    assert ops[m..n + 1][..n - m] == ops[m..n];
    assert LogFrom([], ops[m..n]) + [] == LogFrom([], ops[m..n]);
  }

  lemma SinceRead(states: seq<Rings>, ops: seq<Op>, n: nat, b: nat)
    requires |states| == |ops| + 1 && n < |ops| && ops[n].ReadRing?
    ensures if Misses(Bucket(states[n].lastCheck), b)
            then LastMiss(states, ops, n + 1, b) == Some(n + 1) && SinceMiss(states, ops, n + 1, b) == []
            else && LastMiss(states, ops, n + 1, b) == LastMiss(states, ops, n, b)
                 && SinceMiss(states, ops, n + 1, b) == SinceMiss(states, ops, n, b)
    ensures LogFrom([], ops[..n + 1]) == LogFrom([], ops[..n])
  {
    LogOfRead(ops, 0, n);
    assert ops[0..n + 1] == ops[..n + 1] && ops[0..n] == ops[..n];
    if Misses(Bucket(states[n].lastCheck), b) {
      assert ops[n + 1..n + 1] == [];
    } else if LastMiss(states, ops, n, b).Some? {
      LogOfRead(ops, LastMiss(states, ops, n, b).value, n);
    }
  }

  /** The log since a read is part of the log. */
  lemma SinceCounts(states: seq<Rings>, ops: seq<Op>, n: nat, b: nat)
    requires |states| == |ops| + 1 && n <= |ops|
    ensures Count(SinceMiss(states, ops, n, b), b) <= Count(LogFrom([], ops[..n]), b)
  {
    var miss := LastMiss(states, ops, n, b);
    if miss.Some? {
      SegmentCounts(ops[..n], miss.value, b);
      assert ops[..n][miss.value..] == ops[miss.value..n];
    }
  }

  lemma SegmentCounts(ops: seq<Op>, m: nat, b: nat)
    requires m <= |ops|
    ensures Count(LogFrom([], ops), b) == Count(LogFrom([], ops[..m]), b) + Count(LogFrom([], ops[m..]), b)
  {
    LogJoins(ops[..m], ops[m..]);
    assert ops[..m] + ops[m..] == ops;
    CountJoins(LogFrom([], ops[..m]), LogFrom([], ops[m..]), b);
  }

  lemma {:induction false} LogJoins(a: seq<Op>, b: seq<Op>)
    ensures LogFrom([], a + b) == LogFrom([], a) + LogFrom([], b)
  {
    if b == [] {
      assert a + b == a;
    } else {
      var m := |b| - 1;
      LogJoins(a, b[..m]);
      assert (a + b)[..|a + b| - 1] == a + b[..m];
    }
  }

  lemma RememberedElsewhere(states: seq<Rings>, ops: seq<Op>, n: nat, s: nat, b: nat)
    requires |states| == |ops| + 1 && n < |ops| && s < RING_SIZE && ops[n].Update?
    requires Slot(ops[n].now) != s && b % RING_SIZE == s
    ensures Remembered(states, ops, n + 1, s, b) == Remembered(states, ops, n, s, b)
  {
    RoundAndSlot(ops[n].now);
    SinceSnoc(states, ops, n, b);
    CountSnoc(SinceMiss(states, ops, n, b), Check(ops[n].now, ops[n].healthy), b);
  }

  /** A check of another slot in the log. */
  lemma LogElsewhere(ops: seq<Op>, n: nat, s: nat, first: RingItem)
    requires n < |ops| && s < RING_SIZE && ops[n].Update? && Slot(ops[n].now) != s
    ensures var log, log' := LogFrom([], ops[..n]), LogFrom([], ops[..n + 1]);
            && Top(first, log', s) == Top(first, log, s)
            && CountHealthy(log', Top(first, log, s)) == CountHealthy(log, Top(first, log, s))
  {
    var log, c := LogFrom([], ops[..n]), Check(ops[n].now, ops[n].healthy);
    LogSnoc([], ops, n);
    LatestSnoc(log, c, s);
    TopInSlot(first, log, s);
    RoundAndSlot(c.time);
    CountSnoc(log, c, Top(first, log, s));
  }

  /** An update in another slot. */
  lemma UpdateElsewhere(states: seq<Rings>, ops: seq<Op>, n: nat, s: nat)
    requires IsRun(states, ops) && n < |ops| && s < RING_SIZE && SlotKnown(states, ops, n, s)
    requires ops[n].Update? && Slot(ops[n].now) != s
    ensures SlotKnown(states, ops, n + 1, s)
  {
    assert StepAt(states, ops, n);
    assert states[n + 1].total[s] == states[n].total[s] && states[n + 1].healthy[s] == states[n].healthy[s];
    LogElsewhere(ops, n, s, states[0].total[s]);
    LogElsewhere(ops, n, s, states[0].healthy[s]);
    TopInSlot(states[0].total[s], LogFrom([], ops[..n]), s);
    RememberedElsewhere(states, ops, n, s, Top(states[0].total[s], LogFrom([], ops[..n]), s));
  }

  lemma LatestSnoc(log: seq<Check>, c: Check, s: nat)
    requires forall d <- log :: Bucket(d.time) <= Bucket(c.time) || Slot(c.time) != s
    ensures Latest(log + [c], s) == if Slot(c.time) == s then Some(Bucket(c.time)) else Latest(log, s)
  {
    assert (log + [c])[..|log|] == log;
    LatestIsLatest(log, s);
    if Slot(c.time) == s && Latest(log, s).Some? {
      CountPositive(log, Latest(log, s).value);
    }
  }

  lemma TopInSlot(first: RingItem, log: seq<Check>, s: nat)
    requires s < RING_SIZE
    ensures Top(first, log, s) % RING_SIZE == s
  {
    LatestIsLatest(log, s);
    SlotOfBucket(first, s);
  }

  /** What an update leaves in its slot. */
  lemma Touched(item: RingItem, t: nat)
    ensures var s, b := Slot(t), Bucket(t);
            && BucketOf(Updated(item, t), s) == b && BucketOf(Inc(item, t), s) == b
            && Updated(item, t).counter == CountFor(item, s, b)
            && Inc(item, t).counter == CountFor(item, s, b) + 1
  {
    RoundAndSlot(t);
    RoundsAndBuckets(item, t);
  }

  lemma RoundsAndBuckets(item: RingItem, t: nat)
    ensures BucketOf(item, Slot(t)) == Bucket(t) <==> item.round == Round(t)
  {
    RoundAndSlot(t);
    assert item.round * 96 + Slot(t) == Round(t) * 96 + Slot(t) <==> item.round == Round(t);
  }

  /** The clock is behind no bucket of the slot: neither of its checks nor of what it began with. */
  lemma TopBehind(states: seq<Rings>, ops: seq<Op>, n: nat, s: nat, first: RingItem)
    requires IsRun(states, ops) && n < |ops| && s < RING_SIZE && ops[n].Update?
    requires BucketOf(first, s) <= Bucket(states[0].lastCheck)
    ensures var log := LogFrom([], ops[..n]);
            && (forall d <- log :: Bucket(d.time) <= Bucket(ops[n].now))
            && Top(first, log, s) <= Bucket(ops[n].now)
            && (Latest(log, s).Some? ==> BucketOf(first, s) <= Latest(log, s).value)
  {
    var log := LogFrom([], ops[..n]);
    assert StepAt(states, ops, n);
    ClockGrows(states, ops, n);
    BucketMonotone(states[0].lastCheck, ops[n].now);
    forall d | d in log
      ensures Bucket(states[0].lastCheck) <= Bucket(d.time) <= Bucket(ops[n].now)
    {
      BucketMonotone(d.time, ops[n].now);
      BucketMonotone(states[0].lastCheck, d.time);
    }
    LatestIsLatest(log, s);
    if Latest(log, s).Some? {
      CountPositive(log, Latest(log, s).value);
    }
  }

  /** A bucket later than everything in the slot has nothing yet. */
  lemma NothingYet(states: seq<Rings>, ops: seq<Op>, n: nat, s: nat, first: RingItem, b: nat)
    requires |states| == |ops| + 1 && n <= |ops| && s < RING_SIZE && b % RING_SIZE == s
    requires var log := LogFrom([], ops[..n]);
             && Top(first, log, s) < b && (Latest(log, s).Some? ==> BucketOf(first, s) <= Latest(log, s).value)
    ensures Count(SinceMiss(states, ops, n, b), b) == 0 && CountHealthy(LogFrom([], ops[..n]), b) == 0
    ensures CountFor(first, s, b) == 0
  {
    var log := LogFrom([], ops[..n]);
    LatestIsLatest(log, s);
    if Latest(log, s).Some? {
      CountNone(log, s, Latest(log, s).value, b);
    } else {
      CountPositive(log, b);
      forall c | c in log ensures Bucket(c.time) != b {
        RoundAndSlot(c.time);
      }
    }
    HealthyAmongAll(log, b);
    SinceCounts(states, ops, n, b);
  }

  /** What a slot holds for the bucket of an update about to come. */
  lemma BeforeUpdate(states: seq<Rings>, ops: seq<Op>, n: nat, s: nat)
    requires IsRun(states, ops) && n < |ops| && s < RING_SIZE && SlotKnown(states, ops, n, s)
    requires ops[n].Update? && Slot(ops[n].now) == s
    ensures CountFor(states[n].total[s], s, Bucket(ops[n].now))
         == Remembered(states, ops, n, s, Bucket(ops[n].now))
  {
    var b, first := Bucket(ops[n].now), states[0].total[s];
    var top := Top(first, LogFrom([], ops[..n]), s);
    TopBehind(states, ops, n, s, first);
    RoundAndSlot(ops[n].now);
    if top < b {
      NothingYet(states, ops, n, s, first, b);
    }
    Held(states[n].total[s], s, top, b, TotalLaw(states, ops, n, s), Remembered(states, ops, n, s, b));
  }

  lemma Held(item: RingItem, s: nat, top: nat, b: nat, atTop: nat, atB: nat)
    requires item.counter == atTop && (BucketOf(item, s) != top ==> item.counter == 0)
    requires top <= b && (top < b ==> atB == 0) && (top == b ==> atB == atTop)
    ensures CountFor(item, s, b) == atB
  {
  }

  lemma RememberedSnoc(states: seq<Rings>, ops: seq<Op>, n: nat, s: nat)
    requires |states| == |ops| + 1 && n < |ops| && s < RING_SIZE && ops[n].Update?
    ensures Remembered(states, ops, n + 1, s, Bucket(ops[n].now))
         == Remembered(states, ops, n, s, Bucket(ops[n].now)) + 1
  {
    var b, c := Bucket(ops[n].now), Check(ops[n].now, ops[n].healthy);
    SinceSnoc(states, ops, n, b);
    CountSnoc(SinceMiss(states, ops, n, b), c, b);
  }

  /** The total of the slot an update falls into. */
  lemma UpdateTotal(states: seq<Rings>, ops: seq<Op>, n: nat, s: nat)
    requires IsRun(states, ops) && n < |ops| && s < RING_SIZE && SlotKnown(states, ops, n, s)
    requires ops[n].Update? && Slot(ops[n].now) == s
    ensures states[n + 1].total[s].counter == TotalLaw(states, ops, n + 1, s)
    ensures BucketOf(states[n + 1].total[s], s)
         == Top(states[0].total[s], LogFrom([], ops[..n + 1]), s) == Bucket(ops[n].now)
  {
    assert StepAt(states, ops, n);
    BeforeUpdate(states, ops, n, s);
    RememberedSnoc(states, ops, n, s);
    Touched(states[n].total[s], ops[n].now);
    TopBehind(states, ops, n, s, states[0].total[s]);
    LogSnoc([], ops, n);
    LatestSnoc(LogFrom([], ops[..n]), Check(ops[n].now, ops[n].healthy), s);
  }

  /** The healthy count of the slot an update falls into. */
  lemma UpdateHealthy(states: seq<Rings>, ops: seq<Op>, n: nat, s: nat)
    requires IsRun(states, ops) && n < |ops| && s < RING_SIZE && SlotKnown(states, ops, n, s)
    requires ops[n].Update? && Slot(ops[n].now) == s
    ensures states[n + 1].healthy[s].counter == HealthyLaw(states, ops, n + 1, s)
    ensures BucketOf(states[n + 1].healthy[s], s) == Top(states[0].healthy[s], LogFrom([], ops[..n + 1]), s)
  {
    var log, c, first := LogFrom([], ops[..n]), Check(ops[n].now, ops[n].healthy), states[0].healthy[s];
    var b := Bucket(ops[n].now);
    assert StepAt(states, ops, n);
    TopBehind(states, ops, n, s, first);
    LogSnoc([], ops, n);
    LatestSnoc(log, c, s);
    CountSnoc(log, c, b);
    Touched(states[n].healthy[s], c.time);
    Touched(Updated(states[n].healthy[s], c.time), c.time);
    RoundAndSlot(c.time);
    if Top(first, log, s) < b {
      NothingYet(states, ops, n, s, first, b);
    }
  }

  /** A read of a slot: it moves to the bucket of the window, and keeps its count if it was there. */
  lemma ReadKnown(states: seq<Rings>, ops: seq<Op>, n: nat, s: nat)
    requires IsRun(states, ops) && n < |ops| && s < RING_SIZE && SlotKnown(states, ops, n, s)
    requires ops[n].ReadRing?
    ensures SlotKnown(states, ops, n + 1, s)
  {
    assert StepAt(states, ops, n);
    var last, first := states[n].lastCheck, states[0].total[s];
    var b := Top(first, LogFrom([], ops[..n]), s);
    var i := EntryOfSlot(last, s);
    var t := RingTime(last, i);
    WindowBucket(last, i);
    ReadTotalsRead(states[n].total, last, RING_SIZE, i);
    Touched(states[n].total[s], t);
    SinceRead(states, ops, n, b);
    TopInSlot(first, LogFrom([], ops[..n]), s);
    MissesWindow(Bucket(last), b, Bucket(t));
  }

  lemma MissesWindow(last: nat, b: nat, w: nat)
    requires b % RING_SIZE == w % RING_SIZE && last - RING_SIZE < w <= last
    ensures Misses(last, b) <==> w != b
  {
    if w != b {
      SameSlot(w, b);
    }
  }

  lemma UpdateKnown(states: seq<Rings>, ops: seq<Op>, n: nat, s: nat)
    requires IsRun(states, ops) && n < |ops| && s < RING_SIZE && SlotKnown(states, ops, n, s)
    requires ops[n].Update?
    ensures SlotKnown(states, ops, n + 1, s)
  {
    if Slot(ops[n].now) == s {
      UpdateTotal(states, ops, n, s);
      UpdateHealthy(states, ops, n, s);
    } else {
      UpdateElsewhere(states, ops, n, s);
    }
  }

  /** The law of slots: in every state of every run, from whatever it began with, every slot counts what
      the history of checks and reads says. */
  lemma EverySlot(states: seq<Rings>, ops: seq<Op>, n: nat, s: nat)
    requires IsRun(states, ops) && n < |states| && s < RING_SIZE
    ensures SlotKnown(states, ops, n, s)
  {
    assert ops[..0] == [];
    for k := 0 to n
      invariant SlotKnown(states, ops, k, s)
    {
      if ops[k].ReadRing? {
        ReadKnown(states, ops, k, s);
      } else {
        UpdateKnown(states, ops, k, s);
      }
    }
  }

  // --- What is reported ---

  /** In every state of every run, the i-th total reported is the slot's total if its bucket is the i-th
      back, and zero otherwise; the i-th healthy count is the slot's, whatever its bucket. */
  lemma EntriesKnown(states: seq<Rings>, ops: seq<Op>, n: nat, i: nat, b: nat, s: nat)
    requires IsRun(states, ops) && n < |states| && i < RING_SIZE
    requires b == Bucket(states[n].lastCheck) - i && s == b % RING_SIZE
    ensures WindowExists(states[n].lastCheck)
    ensures TotalEntry(states[n], i)
         == if Top(states[0].total[s], LogFrom([], ops[..n]), s) == b then TotalLaw(states, ops, n, s) else 0
    ensures HealthyEntry(states[n], i) == HealthyLaw(states, ops, n, s)
  {
    ClockGrows(states, ops, n);
    EntryOf(states[n], i, b, s);
    SlotEntry(states, ops, n, s, b);
  }

  /** What a slot holds for any bucket of it. */
  lemma SlotEntry(states: seq<Rings>, ops: seq<Op>, n: nat, s: nat, b: nat)
    requires IsRun(states, ops) && n < |states| && s < RING_SIZE
    ensures CountFor(states[n].total[s], s, b)
         == if Top(states[0].total[s], LogFrom([], ops[..n]), s) == b then TotalLaw(states, ops, n, s) else 0
    ensures states[n].healthy[s].counter == HealthyLaw(states, ops, n, s)
  {
    EverySlot(states, ops, n, s);
    HeldOnly(states[n].total[s], s, Top(states[0].total[s], LogFrom([], ops[..n]), s), b,
             TotalLaw(states, ops, n, s));
  }

  lemma HeldOnly(item: RingItem, s: nat, top: nat, b: nat, atTop: nat)
    requires item.counter == atTop && (BucketOf(item, s) != top ==> item.counter == 0)
    ensures CountFor(item, s, b) == if top == b then atTop else 0
  {
  }

  lemma EntryOf(r: Rings, i: nat, b: nat, s: nat)
    requires WindowExists(r.lastCheck) && i < RING_SIZE && b == Bucket(r.lastCheck) - i && s == b % RING_SIZE
    ensures TotalEntry(r, i) == CountFor(r.total[s], s, b) && HealthyEntry(r, i) == r.healthy[s].counter
  {
    WindowBucket(r.lastCheck, i);
    Touched(r.total[s], RingTime(r.lastCheck, i));
  }

  // --- Unhealthy checks: the difference of the two sums ---

  /** The difference of totals and healthy counts of the first k slots. */
  function Unhealthy(states: seq<Rings>, ops: seq<Op>, n: nat, k: nat): int
    requires |states| == |ops| + 1 && n <= |ops| && k <= RING_SIZE
  {
    if k == 0 then 0
    else Unhealthy(states, ops, n, k - 1) + TotalLaw(states, ops, n, k - 1) - HealthyLaw(states, ops, n, k - 1)
  }

  lemma SumStep(items: seq<RingItem>, k: nat)
    requires 0 < k <= |items|
    ensures Sum(items[..k]) == Sum(items[..k - 1]) + items[k - 1].counter
  {
    assert items[..k][..k - 1] == items[..k - 1];
  }

  lemma CountsKnown(states: seq<Rings>, ops: seq<Op>, n: nat, s: nat)
    requires IsRun(states, ops) && n < |states| && s < RING_SIZE
    ensures states[n].total[s].counter == TotalLaw(states, ops, n, s)
    ensures states[n].healthy[s].counter == HealthyLaw(states, ops, n, s)
  {
    EverySlot(states, ops, n, s);
  }

  lemma SumsDiffer(states: seq<Rings>, ops: seq<Op>, n: nat, k: nat)
    requires IsRun(states, ops) && n < |states| && k <= RING_SIZE
    ensures Sum(states[n].total[..k]) - Sum(states[n].healthy[..k]) == Unhealthy(states, ops, n, k)
  {
    for j := 0 to k
      invariant Sum(states[n].total[..j]) - Sum(states[n].healthy[..j]) == Unhealthy(states, ops, n, j)
    {
      CountsKnown(states, ops, n, j);
      SumStep(states[n].total, j + 1);
      SumStep(states[n].healthy, j + 1);
    }
  }

  /** In every state of every run, total checks less healthy ones is what the history makes of it, and not
      below zero if and only if the slots that count more healthy checks than checks are made up for by
      the others. */
  lemma UnhealthyExact(states: seq<Rings>, ops: seq<Op>, n: nat)
    requires IsRun(states, ops) && n < |states|
    ensures var r := states[n];
            && Sum(r.total) - Sum(r.healthy) == Unhealthy(states, ops, n, RING_SIZE)
            && (Sum(r.healthy) <= Sum(r.total) <==> Unhealthy(states, ops, n, RING_SIZE) >= 0)
  {
    SumsDiffer(states, ops, n, RING_SIZE);
    var r := states[n];
    assert r.total[..RING_SIZE] == r.total && r.healthy[..RING_SIZE] == r.healthy;
  }

  /** A slot begins in order: nothing healthy is left over in it, or its two items are of one bucket and
      the healthy ones no more. */
  predicate BeginsInOrder(r: Rings, s: nat)
    requires s < RING_SIZE
  {
    || r.healthy[s].counter == 0
    || (r.healthy[s].round == r.total[s].round && r.healthy[s].counter <= r.total[s].counter)
  }

  /** No read has missed the bucket the slot stands for. */
  predicate NeverMissed(states: seq<Rings>, ops: seq<Op>, n: nat, s: nat)
    requires |states| == |ops| + 1 && n <= |ops| && s < RING_SIZE
  {
    var b := Top(states[0].total[s], LogFrom([], ops[..n]), s);
    LastMiss(states, ops, n, b).None?
  }

  /** A slot that began in order can get out of order only by a read that misses its bucket. */
  lemma OrderKept(states: seq<Rings>, ops: seq<Op>, n: nat, s: nat)
    requires IsRun(states, ops) && n < |states| && s < RING_SIZE
    requires BeginsInOrder(states[0], s) && NeverMissed(states, ops, n, s)
    ensures states[n].healthy[s].counter <= states[n].total[s].counter
  {
    EverySlot(states, ops, n, s);
    var log := LogFrom([], ops[..n]);
    HealthyAmongAll(log, Top(states[0].total[s], log, s));
    HealthyAmongAll(log, Top(states[0].healthy[s], log, s));
    LatestIsLatest(log, s);
    if Latest(log, s).None? {
      SlotOfBucket(states[0].healthy[s], s);
      NoCheckNoCount(log, s, BucketOf(states[0].healthy[s], s));
    }
  }

  lemma NoCheckNoCount(log: seq<Check>, s: nat, b: nat)
    requires b % RING_SIZE == s && forall c <- log :: Slot(c.time) != s
    ensures Count(log, b) == 0 && CountHealthy(log, b) == 0
  {
    CountPositive(log, b);
    HealthyAmongAll(log, b);
    forall c | c in log ensures Bucket(c.time) != b {
      RoundAndSlot(c.time);
    }
  }

  lemma {:induction false} NoReadNoMiss(states: seq<Rings>, ops: seq<Op>, n: nat, b: nat)
    requires |states| == |ops| + 1 && n <= |ops| && forall i :: 0 <= i < n ==> ops[i].Update?
    ensures LastMiss(states, ops, n, b).None?
  {
    if n > 0 {
      NoReadNoMiss(states, ops, n - 1, b);
    }
  }

  /** Without reads, a record all of whose slots began in order never counts below zero. */
  lemma UpdatesNeverBelowZero(states: seq<Rings>, ops: seq<Op>, n: nat)
    requires IsRun(states, ops) && n < |states| && forall i :: 0 <= i < n ==> ops[i].Update?
    requires forall s :: 0 <= s < RING_SIZE ==> BeginsInOrder(states[0], s)
    ensures Sum(states[n].healthy) <= Sum(states[n].total)
  {
    var r := states[n];
    forall s | 0 <= s < RING_SIZE ensures r.healthy[s].counter <= r.total[s].counter {
      NoReadNoMiss(states, ops, n, Top(states[0].total[s], LogFrom([], ops[..n]), s));
      OrderKept(states, ops, n, s);
    }
    SumBelow(r.healthy, r.total);
  }

  lemma {:induction false} SumBelow(a: seq<RingItem>, b: seq<RingItem>)
    requires |a| == |b| && forall s :: 0 <= s < |a| ==> a[s].counter <= b[s].counter
    ensures Sum(a) <= Sum(b)
  {
    if a != [] {
      SumBelow(a[..|a| - 1], b[..|b| - 1]);
    }
  }

  // --- Slots that began true to a log ---

  /** The slot is true to the checks it starts with, its total included. */
  ghost predicate SlotStarts(r: Rings, start: seq<Check>, s: nat)
    requires s < RING_SIZE
  {
    SlotInv(r.total[s], r.healthy[s], s, start, Bucket(r.lastCheck)) && r.total[s].counter == TotalAt(start, s)
  }

  ghost predicate Starts(r: Rings, start: seq<Check>) {
    WindowExists(r.lastCheck) && forall s :: 0 <= s < RING_SIZE ==> SlotStarts(r, start, s)
  }

  lemma NewStarts(now: nat)
    requires WindowExists(now)
    ensures var r := Rings(NewRing(), NewRing(), now);
            Grounded(r) && Starts(r, []) && forall s :: 0 <= s < RING_SIZE ==> BeginsInOrder(r, s)
  {
    var r := Rings(NewRing(), NewRing(), now);
    assert Bucket(now) >= 95;
    forall s | 0 <= s < RING_SIZE ensures SlotStarts(r, [], s) {
      assert r.total[s] == RingItem(0, 0) && r.healthy[s] == RingItem(0, 0);
    }
  }

  /** What of bucket b was logged before the last read that missed it. */
  function Forgotten(start: seq<Check>, states: seq<Rings>, ops: seq<Op>, n: nat, b: nat): nat
    requires |states| == |ops| + 1 && n <= |ops|
  {
    var miss := LastMiss(states, ops, n, b);
    if miss.Some? then Count(LogFrom(start, ops[..miss.value]), b) else 0
  }

  lemma WholeCount(start: seq<Check>, states: seq<Rings>, ops: seq<Op>, n: nat, b: nat)
    requires |states| == |ops| + 1 && n <= |ops|
    ensures Count(LogFrom(start, ops[..n]), b)
         == Forgotten(start, states, ops, n, b) + Count(SinceMiss(states, ops, n, b), b)
            + if LastMiss(states, ops, n, b).None? then Count(start, b) else 0
  {
    LogSplits(start, ops[..n]);
    CountJoins(start, LogFrom([], ops[..n]), b);
    var miss := LastMiss(states, ops, n, b);
    if miss.Some? {
      SegmentCounts(ops[..n], miss.value, b);
      assert ops[..n][..miss.value] == ops[..miss.value] && ops[..n][miss.value..] == ops[miss.value..n];
      LogSplits(start, ops[..miss.value]);
      CountJoins(start, LogFrom([], ops[..miss.value]), b);
    }
  }

  /** What a slot began with, for the bucket it stands for. */
  lemma BeganWith(states: seq<Rings>, ops: seq<Op>, n: nat, s: nat, start: seq<Check>)
    requires IsRun(states, ops) && n < |states| && s < RING_SIZE && SlotStarts(states[0], start, s)
    ensures var log := LogFrom([], ops[..n]);
            var b, h := Top(states[0].total[s], log, s), Top(states[0].healthy[s], log, s);
            && CountFor(states[0].total[s], s, b) == Count(start, b) && NoneAfter(start, s, b)
            && CountFor(states[0].healthy[s], s, h) == CountHealthy(start, h)
  {
    var log := LogFrom([], ops[..n]);
    var tb, hb := BucketOf(states[0].total[s], s), BucketOf(states[0].healthy[s], s);
    LatestIsLatest(log, s);
    if Latest(log, s).Some? {
      var b := Latest(log, s).value;
      BeganBehind(states, ops, n, s);
      if tb < b {
        CountNone(start, s, tb, b);
      }
      if hb < b {
        CountHealthyNone(start, s, hb, b);
      }
    }
  }

  lemma BeganBehind(states: seq<Rings>, ops: seq<Op>, n: nat, s: nat)
    requires IsRun(states, ops) && n < |states| && s < RING_SIZE && Latest(LogFrom([], ops[..n]), s).Some?
    ensures BucketOf(states[0].total[s], s) <= Latest(LogFrom([], ops[..n]), s).value
    ensures BucketOf(states[0].healthy[s], s) <= Latest(LogFrom([], ops[..n]), s).value
  {
    var log := LogFrom([], ops[..n]);
    LatestIsLatest(log, s);
    CountPositive(log, Latest(log, s).value);
    var c :| c in log && Bucket(c.time) == Latest(log, s).value;
    ClockGrows(states, ops, n);
    BucketMonotone(states[0].lastCheck, c.time);
  }

  /** In a slot that began true to a log, some other bucket than the one it stands for cannot be the
      latest with a check. */
  lemma TopIsLatest(states: seq<Rings>, ops: seq<Op>, n: nat, s: nat, start: seq<Check>, b: nat)
    requires IsRun(states, ops) && n < |states| && s < RING_SIZE && SlotStarts(states[0], start, s)
    requires b % RING_SIZE == s && Count(LogFrom(start, ops[..n]), b) > 0
    requires NoneAfter(LogFrom(start, ops[..n]), s, b)
    ensures b == Top(states[0].total[s], LogFrom([], ops[..n]), s)
  {
    var log := LogFrom([], ops[..n]);
    LogSplits(start, ops[..n]);
    CountJoins(start, log, b);
    LatestIsLatest(log, s);
    assert forall c <- log :: c in start + log;
    assert forall c <- start :: c in start + log;
    if Latest(log, s).Some? {
      var top := Latest(log, s).value;
      BeganBehind(states, ops, n, s);
      CountPositive(log, top);
      var c :| c in log && Bucket(c.time) == top;
      RoundAndSlot(c.time);
      assert top <= b;
      if top < b {
        CountNone(log, s, top, b);
        CountNone(start, s, BucketOf(states[0].total[s], s), b);
      }
    } else {
      NoCheckNoCount(log, s, b);
      assert NoneAfter(start, s, b);
      LatestUnique(start, s, b);
      var tb := BucketOf(states[0].total[s], s);
      SlotOfBucket(states[0].total[s], s);
      CountPositive(start, b);
      if tb > b {
        CountNone(start, s, b, tb);
      }
    }
  }

  /** The bucket a slot stands for is right if and only if nothing of it was forgotten. */
  lemma TopExact(start: seq<Check>, states: seq<Rings>, ops: seq<Op>, n: nat, s: nat, b: nat)
    requires IsRun(states, ops) && n < |states| && s < RING_SIZE && SlotStarts(states[0], start, s)
    requires b == Top(states[0].total[s], LogFrom([], ops[..n]), s)
    ensures Remembered(states, ops, n, s, b) == Count(LogFrom(start, ops[..n]), b)
       <==> Forgotten(start, states, ops, n, b) == 0
    ensures NoneAfter(LogFrom(start, ops[..n]), s, b)
    ensures Forgotten(start, states, ops, n, b) <= Count(LogFrom(start, ops[..n]), b)
  {
    WholeCount(start, states, ops, n, b);
    BeganWith(states, ops, n, s, start);
    LogSplits(start, ops[..n]);
    LatestIsLatest(LogFrom([], ops[..n]), s);
  }

  /** The ring against the log: in every state of every run, the i-th total reported is the number of
      checks in the i-th bucket back, if and only if that is zero, or no check of the slot is later and
      none of that bucket was logged before a read that missed it. */
  lemma RingEqualsLog(start: seq<Check>, states: seq<Rings>, ops: seq<Op>, n: nat, i: nat, b: nat, s: nat)
    requires IsRun(states, ops) && n < |states| && i < RING_SIZE
    requires b == Bucket(states[n].lastCheck) - i && s == b % RING_SIZE && SlotStarts(states[0], start, s)
    ensures WindowExists(states[n].lastCheck)
    ensures TotalEntry(states[n], i) == Count(LogFrom(start, ops[..n]), b)
       <==> || Count(LogFrom(start, ops[..n]), b) == 0
            || (NoneAfter(LogFrom(start, ops[..n]), s, b) && Forgotten(start, states, ops, n, b) == 0)
  {
    EntriesKnown(states, ops, n, i, b, s);
    if b == Top(states[0].total[s], LogFrom([], ops[..n]), s) {
      TopExact(start, states, ops, n, s, b);
    } else if Count(LogFrom(start, ops[..n]), b) > 0 && NoneAfter(LogFrom(start, ops[..n]), s, b) {
      TopIsLatest(states, ops, n, s, start, b);
    }
  }

  lemma {:induction false} LatestOfStart(start: seq<Check>, log: seq<Check>, s: nat)
    requires Latest(log, s).None?
    ensures Latest(start + log, s) == Latest(start, s)
  {
    if log == [] {
      assert start + log == start;
    } else {
      var m := |log| - 1;
      assert (start + log)[..|start + log| - 1] == start + log[..m];
      LatestOfStart(start, log[..m], s);
    }
  }

  /** In every state of every run, the healthy count of a slot that began true to a log is that of its
      latest bucket with a check; so the i-th reported is right if and only if the i-th bucket back saw as
      many healthy checks as that one. */
  lemma HealthyExactness(start: seq<Check>, states: seq<Rings>, ops: seq<Op>, n: nat, i: nat, b: nat, s: nat)
    requires IsRun(states, ops) && n < |states| && i < RING_SIZE
    requires b == Bucket(states[n].lastCheck) - i && s == b % RING_SIZE && SlotStarts(states[0], start, s)
    ensures WindowExists(states[n].lastCheck)
    ensures HealthyEntry(states[n], i) == HealthyAt(LogFrom(start, ops[..n]), s)
    ensures HealthyEntry(states[n], i) == CountHealthy(LogFrom(start, ops[..n]), b)
       <==> HealthyAt(LogFrom(start, ops[..n]), s) == CountHealthy(LogFrom(start, ops[..n]), b)
  {
    EntriesKnown(states, ops, n, i, b, s);
    HealthyOfSlot(start, states, ops, n, s);
  }

  lemma HealthyOfSlot(start: seq<Check>, states: seq<Rings>, ops: seq<Op>, n: nat, s: nat)
    requires IsRun(states, ops) && n < |states| && s < RING_SIZE && SlotStarts(states[0], start, s)
    ensures HealthyLaw(states, ops, n, s) == HealthyAt(LogFrom(start, ops[..n]), s)
  {
    LogSplits(start, ops[..n]);
    BeganWith(states, ops, n, s, start);
    if Latest(LogFrom([], ops[..n]), s).Some? {
      JoinedHealthy(start, LogFrom([], ops[..n]), s);
    } else {
      UncheckedHealthy(start, states[0], LogFrom([], ops[..n]), s);
    }
  }

  /** Checks of the slot that are all behind its latest later check do not count. */
  lemma JoinedHealthy(start: seq<Check>, since: seq<Check>, s: nat)
    requires Latest(since, s).Some? && NoneAfter(start, s, Latest(since, s).value)
    ensures var b := Latest(since, s).value;
            HealthyAt(start + since, s) == CountHealthy(start, b) + CountHealthy(since, b)
  {
    var b := Latest(since, s).value;
    LatestIsLatest(since, s);
    CountJoins(start, since, b);
    LatestUnique(start + since, s, b);
  }

  lemma UncheckedHealthy(start: seq<Check>, r: Rings, since: seq<Check>, s: nat)
    requires s < RING_SIZE && SlotStarts(r, start, s) && Latest(since, s).None?
    ensures r.healthy[s].counter == HealthyAt(start + since, s)
    ensures CountHealthy(since, BucketOf(r.healthy[s], s)) == 0
  {
    LatestOfStart(start, since, s);
    LatestIsLatest(since, s);
    LatestIsLatest(start, s);
    HealthyIsLatest(r.total[s], r.healthy[s], s, start, Bucket(r.lastCheck));
    SlotOfBucket(r.healthy[s], s);
    NoCheckNoCount(since, s, BucketOf(r.healthy[s], s));
    if Latest(start, s).Some? {
      var b := Latest(start, s).value;
      CountJoins(start, since, b);
      NoCheckNoCount(since, s, b);
    }
  }

  /** The checks of a slot's latest bucket that a read has made it forget. */
  function ForgottenAt(start: seq<Check>, states: seq<Rings>, ops: seq<Op>, n: nat, s: nat): nat
    requires |states| == |ops| + 1 && n <= |ops|
  {
    var latest := Latest(LogFrom(start, ops[..n]), s);
    if latest.Some? then Forgotten(start, states, ops, n, latest.value) else 0
  }

  lemma TotalOfSlot(start: seq<Check>, states: seq<Rings>, ops: seq<Op>, n: nat, s: nat)
    requires IsRun(states, ops) && n < |states| && s < RING_SIZE && SlotStarts(states[0], start, s)
    ensures TotalLaw(states, ops, n, s)
         == TotalAt(LogFrom(start, ops[..n]), s) - ForgottenAt(start, states, ops, n, s)
  {
    var log := LogFrom(start, ops[..n]);
    var b := Top(states[0].total[s], LogFrom([], ops[..n]), s);
    LatestIsLatest(log, s);
    WholeCount(start, states, ops, n, b);
    BeganWith(states, ops, n, s, start);
    if Latest(log, s).Some? {
      TopIsLatest(states, ops, n, s, start, Latest(log, s).value);
    } else {
      TopInSlot(states[0].total[s], LogFrom([], ops[..n]), s);
      NoCheckNoCount(log, s, b);
    }
  }

  /** In every state of every run, a slot that began true to a log counts the checks of its latest bucket
      but for those a read made it forget, and all the healthy ones; so it counts no more healthy checks
      than checks if and only if it has forgotten no more than were unhealthy. */
  lemma SlotInOrder(start: seq<Check>, states: seq<Rings>, ops: seq<Op>, n: nat, s: nat)
    requires IsRun(states, ops) && n < |states| && s < RING_SIZE && SlotStarts(states[0], start, s)
    ensures var log, forgotten := LogFrom(start, ops[..n]), ForgottenAt(start, states, ops, n, s);
            && states[n].total[s].counter == TotalAt(log, s) - forgotten
            && states[n].healthy[s].counter == HealthyAt(log, s)
            && (states[n].healthy[s].counter <= states[n].total[s].counter
                <==> forgotten <= TotalAt(log, s) - HealthyAt(log, s))
  {
    CountsKnown(states, ops, n, s);
    TotalOfSlot(start, states, ops, n, s);
    HealthyOfSlot(start, states, ops, n, s);
  }

  /** Unhealthy checks of the latest buckets of the first k slots. */
  function UnhealthyChecks(log: seq<Check>, k: nat): int {
    if k == 0 then 0 else UnhealthyChecks(log, k - 1) + TotalAt(log, k - 1) - HealthyAt(log, k - 1)
  }

  function AllForgotten(start: seq<Check>, states: seq<Rings>, ops: seq<Op>, n: nat, k: nat): nat
    requires |states| == |ops| + 1 && n <= |ops|
  {
    if k == 0 then 0 else AllForgotten(start, states, ops, n, k - 1) + ForgottenAt(start, states, ops, n, k - 1)
  }

  lemma UnhealthyOfLog(start: seq<Check>, states: seq<Rings>, ops: seq<Op>, n: nat, k: nat)
    requires IsRun(states, ops) && n < |states| && k <= RING_SIZE && Starts(states[0], start)
    ensures Unhealthy(states, ops, n, k)
         == UnhealthyChecks(LogFrom(start, ops[..n]), k) - AllForgotten(start, states, ops, n, k)
  {
    for j := 0 to k
      invariant Unhealthy(states, ops, n, j)
             == UnhealthyChecks(LogFrom(start, ops[..n]), j) - AllForgotten(start, states, ops, n, j)
    {
      assert SlotStarts(states[0], start, j);
      SlotOfLog(start, states, ops, n, j);
    }
  }

  lemma SlotOfLog(start: seq<Check>, states: seq<Rings>, ops: seq<Op>, n: nat, s: nat)
    requires IsRun(states, ops) && n < |states| && s < RING_SIZE && SlotStarts(states[0], start, s)
    ensures TotalLaw(states, ops, n, s) - HealthyLaw(states, ops, n, s)
         == TotalAt(LogFrom(start, ops[..n]), s) - HealthyAt(LogFrom(start, ops[..n]), s)
            - ForgottenAt(start, states, ops, n, s)
  {
    TotalOfSlot(start, states, ops, n, s);
    HealthyOfSlot(start, states, ops, n, s);
  }

  /** In every state of every run from a record true to its checks, the count of unhealthy checks is that of
      the latest buckets less all that reads made the ring forget, and not below zero if and only if no
      more was forgotten than was unhealthy. */
  lemma UnhealthyFromLog(start: seq<Check>, states: seq<Rings>, ops: seq<Op>, n: nat)
    requires IsRun(states, ops) && n < |states| && Starts(states[0], start)
    ensures var r := states[n];
            var unhealthy := UnhealthyChecks(LogFrom(start, ops[..n]), RING_SIZE);
            var forgotten := AllForgotten(start, states, ops, n, RING_SIZE);
            && Sum(r.total) - Sum(r.healthy) == unhealthy - forgotten
            && (Sum(r.healthy) <= Sum(r.total) <==> forgotten <= unhealthy)
  {
    UnhealthyExact(states, ops, n);
    UnhealthyOfLog(start, states, ops, n, RING_SIZE);
  }

  // --- Runs that stay true to the log ---

  ghost predicate TrueUpTo(start: seq<Check>, states: seq<Rings>, ops: seq<Op>, n: nat)
    requires |states| == |ops| + 1 && n <= |ops|
  {
    forall k :: 0 <= k <= n ==> Inv(states[k], LogFrom(start, ops[..k]))
  }

  ghost predicate CleanUpTo(start: seq<Check>, states: seq<Rings>, ops: seq<Op>, n: nat)
    requires |states| == |ops| + 1 && n <= |ops|
  {
    forall k :: 0 <= k < n && ops[k].ReadRing? ==> Current(states[k], LogFrom(start, ops[..k]))
  }

  /** From a ring true to checks that are not ahead of its clock, the ring is true to the log in all
      states of a run if and only if every read came when no check was logged after the last check time. */
  lemma {:induction false} RunTrueExact(start: seq<Check>, states: seq<Rings>, ops: seq<Op>, n: nat)
    requires IsRun(states, ops) && n < |states| && Starts(states[0], start)
    requires forall c <- start :: c.time <= states[0].lastCheck
    ensures TrueUpTo(start, states, ops, n) <==> CleanUpTo(start, states, ops, n)
  {
    if n == 0 {
      assert Inv(states[0], LogFrom(start, ops[..0])) by {
        assert ops[..0] == [];
        forall s | 0 <= s < RING_SIZE
          ensures SlotInv(states[0].total[s], states[0].healthy[s], s, start, Bucket(states[0].lastCheck))
        {
          assert SlotStarts(states[0], start, s);
        }
      }
    } else {
      RunTrueExact(start, states, ops, n - 1);
      TrueStep(start, states, ops, n - 1);
      assert TrueUpTo(start, states, ops, n)
        <==> TrueUpTo(start, states, ops, n - 1) && Inv(states[n], LogFrom(start, ops[..n]));
    }
  }

  lemma TrueStep(start: seq<Check>, states: seq<Rings>, ops: seq<Op>, n: nat)
    requires IsRun(states, ops) && n < |ops|
    requires forall c <- start :: c.time <= states[0].lastCheck
    ensures Inv(states[n], LogFrom(start, ops[..n])) ==>
              (Inv(states[n + 1], LogFrom(start, ops[..n + 1]))
               <==> (ops[n].ReadRing? ==> Current(states[n], LogFrom(start, ops[..n]))))
  {
    var log := LogFrom(start, ops[..n]);
    LogSnoc(start, ops, n);
    LogSplits(start, ops[..n]);
    ClockGrows(states, ops, n);
    assert StepAt(states, ops, n);
    if Inv(states[n], log) {
      if ops[n].Update? {
        UpdateKeepsInv(states[n], log, ops[n]);
      } else {
        ReadExact(states[n], log);
        assert log + [] == log;
      }
    }
  }
}
