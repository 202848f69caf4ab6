/** Health checks counted in a ring of 96 slots of fifteen minutes. A slot remembers the round (day) it
    belongs to and is cleared lazily, when it is next touched in another round. Times are in seconds. */
module HealthRing {
  import opened Options

  const GRANULARITY := 900
  const RING_SIZE := 96
  const MAX_DURATION := 86400

  datatype RingItem = RingItem(counter: nat, round: nat)

  function Round(t: nat): nat {
    t / (GRANULARITY * RING_SIZE)
  }

  function Bucket(t: nat): nat {
    t / GRANULARITY
  }

  function Slot(t: nat): (s: nat)
    ensures s < RING_SIZE
  {
    t / GRANULARITY % RING_SIZE
  }

  /** The bucket an item of slot s counts. */
  function BucketOf(item: RingItem, s: nat): nat {
    item.round * RING_SIZE + s
  }

  /** Round and slot together are the bucket, and nothing less. */
  lemma RoundAndSlot(t: nat)
    ensures Bucket(t) == Round(t) * RING_SIZE + Slot(t)
    ensures Bucket(t) / RING_SIZE == Round(t) && Bucket(t) % RING_SIZE == Slot(t)
  {
    var b := t / 900;
    assert t == 900 * b + t % 900;
    assert b == 96 * (b / 96) + b % 96;
    assert t == 86400 * (b / 96) + (900 * (b % 96) + t % 900);
  }

  function Updated(item: RingItem, t: nat): RingItem {
    if item.round != Round(t) then RingItem(0, Round(t)) else item
  }

  function Inc(item: RingItem, t: nat): RingItem {
    var u := Updated(item, t);
    u.(counter := u.counter + 1)
  }

  type Ring = r: seq<RingItem> | |r| == RING_SIZE witness seq(RING_SIZE, _ => RingItem(0, 0))

  function NewRing(): Ring {
    seq(RING_SIZE, _ => RingItem(0, 0))
  }

  datatype Rings = Rings(total: Ring, healthy: Ring, lastCheck: nat)

  datatype Check = Check(time: nat, healthy: bool)

  function UpdateSpec(r: Rings, healthy: bool, checked: nat, now: nat): Rings {
    var s := Slot(now);
    var h := Updated(r.healthy[s], now);
    Rings(r.total[s := Inc(r.total[s], now)],
          r.healthy[s := if healthy then Inc(h, now) else h], checked)
  }

  /** The time the i-th reported entry stands for. */
  function RingTime(last: nat, i: nat): nat
    requires i * GRANULARITY <= last
  {
    last - i * GRANULARITY
  }

  /** Early enough in time the window would start before time zero. */
  predicate WindowExists(last: nat) {
    last >= (RING_SIZE - 1) * GRANULARITY
  }

  lemma WindowBucket(last: nat, i: nat)
    requires WindowExists(last) && i < RING_SIZE
    ensures i * GRANULARITY <= last && i <= Bucket(last)
    ensures Bucket(RingTime(last, i)) == Bucket(last) - i
    ensures Slot(RingTime(last, i)) == (Bucket(last) - i) % RING_SIZE
  {
    var b := last / 900;
    assert last == 900 * b + last % 900;
  }

  /** The 96 entries of a window come from 96 different slots. */
  lemma WindowSlotsDiffer(last: nat, i: nat, j: nat)
    requires WindowExists(last) && i < j < RING_SIZE
    ensures i * GRANULARITY <= last && j * GRANULARITY <= last
    ensures Slot(RingTime(last, i)) != Slot(RingTime(last, j))
  {
    WindowBucket(last, i);
    WindowBucket(last, j);
    var b := Bucket(last);
    assert (b - i) % 96 != (b - j) % 96;
  }

  /** The total ring after the entries before n have been read; reading clears outdated slots. */
  function ReadTotals(ring: Ring, last: nat, n: nat): Ring
    requires WindowExists(last) && n <= RING_SIZE
  {
    if n == 0 then ring
    else
      WindowBucket(last, n - 1);
      var t := RingTime(last, n - 1);
      var before := ReadTotals(ring, last, n - 1);
      before[Slot(t) := Updated(before[Slot(t)], t)]
  }

  lemma {:induction false} ReadTotalsUnread(ring: Ring, last: nat, n: nat, i: nat)
    requires WindowExists(last) && n <= i < RING_SIZE
    ensures i * GRANULARITY <= last
    ensures ReadTotals(ring, last, n)[Slot(RingTime(last, i))] == ring[Slot(RingTime(last, i))]
  {
    WindowBucket(last, i);
    if n > 0 {
      ReadTotalsUnread(ring, last, n - 1, i);
      WindowSlotsDiffer(last, n - 1, i);
    }
  }

  lemma {:induction false} ReadTotalsRead(ring: Ring, last: nat, n: nat, i: nat)
    requires WindowExists(last) && i < n <= RING_SIZE
    ensures i * GRANULARITY <= last
    ensures var t := RingTime(last, i); ReadTotals(ring, last, n)[Slot(t)] == Updated(ring[Slot(t)], t)
  {
    WindowBucket(last, i);
    if i == n - 1 {
      ReadTotalsUnread(ring, last, n - 1, i);
    } else {
      ReadTotalsRead(ring, last, n - 1, i);
      WindowSlotsDiffer(last, i, n - 1);
    }
  }

  function Sum(r: seq<RingItem>): nat {
    if r == [] then 0 else Sum(r[..|r| - 1]) + r[|r| - 1].counter
  }

  /** Records in the last day of the clock; a record from the future counts as now. */
  predicate Recent(c: Check, now: nat) {
    now < c.time + MAX_DURATION
  }

  function LoadSpec(r: Rings, records: seq<Check>, now: nat): (loaded: Rings)
    ensures loaded.lastCheck == r.lastCheck
  {
    if records == [] then r
    else
      var before := LoadSpec(r, records[..|records| - 1], now);
      var c := records[|records| - 1];
      var s := Slot(c.time);
      if !Recent(c, now) then before
      else before.(total := before.total[s := Inc(before.total[s], c.time)],
                   healthy := if c.healthy then before.healthy[s := Inc(before.healthy[s], c.time)]
                              else before.healthy)
  }

  /** A record as the service loads it; the first record is the latest check. */
  function FromDb(records: seq<Check>, created: nat, now: nat): Rings {
    LoadSpec(Rings(NewRing(), NewRing(), if records == [] then created else records[0].time), records, now)
  }

  class HealthyMemRecord {
    var total: Ring
    var healthy: Ring
    var lastCheck: nat

    ghost function State(): Rings
      reads this
    {
      Rings(total, healthy, lastCheck)
    }

    constructor (now: nat)
      ensures State() == Rings(NewRing(), NewRing(), now)
    {
      total, healthy, lastCheck := NewRing(), NewRing(), now;
    }

    /** A record loaded from the database. */
    constructor FromDbRecords(records: seq<Check>, created: nat, now: nat)
      ensures State() == FromDb(records, created, now)
    {
      total, healthy := NewRing(), NewRing();
      lastCheck := if records == [] then created else records[0].time;
      new;
      PopulateRingFromRecords(records, now);
    }

    /** The clock is read twice: for the time of the check and for the rings. */
    method UpdateHealthStatus(isHealthy: bool, checked: nat, now: nat)
      modifies this
      ensures State() == UpdateSpec(old(State()), isHealthy, checked, now)
    {
      lastCheck := checked;
      var s := now / GRANULARITY % RING_SIZE;
      total := total[s := Inc(total[s], now)];
      healthy := healthy[s := Updated(healthy[s], now)];
      if isHealthy {
        healthy := healthy[s := Inc(healthy[s], now)];
      }
    }

    /** No result stands for a count of unhealthy checks below zero. */
    method GetHealthStats() returns (totalChecks: nat, healthyCount: nat, unhealthy: Option<nat>)
      ensures totalChecks == Sum(total) && healthyCount == Sum(healthy)
      ensures unhealthy == if Sum(healthy) <= Sum(total) then Some(Sum(total) - Sum(healthy)) else None
    {
      totalChecks, healthyCount := 0, 0;
      for i := 0 to RING_SIZE
        invariant totalChecks == Sum(total[..i]) && healthyCount == Sum(healthy[..i])
      {
        assert total[..i + 1][..i] == total[..i] && healthy[..i + 1][..i] == healthy[..i];
        totalChecks := totalChecks + total[i].counter;
        healthyCount := healthyCount + healthy[i].counter;
      }
      assert total[..RING_SIZE] == total && healthy[..RING_SIZE] == healthy;
      unhealthy := if healthyCount <= totalChecks then Some(totalChecks - healthyCount) else None;
    }

    method GetCounterRing() returns (totals: seq<nat>, healthies: seq<nat>)
      requires WindowExists(lastCheck)
      modifies this`total
      ensures total == ReadTotals(old(total), lastCheck, RING_SIZE)
      ensures |totals| == |healthies| == RING_SIZE
      ensures forall i :: 0 <= i < RING_SIZE ==>
                && totals[i] == TotalEntry(State().(total := old(total)), i)
                && healthies[i] == HealthyEntry(State(), i)
    {
      totals, healthies := [], [];
      for i := 0 to RING_SIZE
        invariant |totals| == |healthies| == i && total == ReadTotals(old(total), lastCheck, i)
        invariant forall j :: 0 <= j < i ==>
                    && totals[j] == TotalEntry(State().(total := old(total)), j)
                    && healthies[j] == HealthyEntry(State(), j)
      {
        WindowBucket(lastCheck, i);
        var t := lastCheck - i * GRANULARITY;
        var s := t / GRANULARITY % RING_SIZE;
        ReadTotalsUnread(old(total), lastCheck, i, i);
        total := total[s := Updated(total[s], t)];
        totals := totals + [total[s].counter];
        healthies := healthies + [healthy[s].counter];
      }
    }

    method PopulateRingFromRecords(records: seq<Check>, now: nat)
      modifies this
      ensures State() == LoadSpec(old(State()), records, now)
    {
      for i := 0 to |records|
        invariant State() == LoadSpec(old(State()), records[..i], now)
      {
        assert records[..i + 1][..i] == records[..i];
        var c := records[i];
        var timeDiff := if now >= c.time then now - c.time else 0;
        if timeDiff < MAX_DURATION {
          var s := c.time / GRANULARITY % RING_SIZE;
          total := total[s := Inc(total[s], c.time)];
          if c.healthy {
            healthy := healthy[s := Inc(healthy[s], c.time)];
          }
        }
      }
      assert records[..|records|] == records;
    }
  }

  /** What is reported for the i-th bucket back: totals after clearing, healthy counts as they are. */
  function TotalEntry(r: Rings, i: nat): nat
    requires WindowExists(r.lastCheck) && i < RING_SIZE
  {
    WindowBucket(r.lastCheck, i);
    var t := RingTime(r.lastCheck, i);
    Updated(r.total[Slot(t)], t).counter
  }

  function HealthyEntry(r: Rings, i: nat): nat
    requires WindowExists(r.lastCheck) && i < RING_SIZE
  {
    WindowBucket(r.lastCheck, i);
    r.healthy[Slot(RingTime(r.lastCheck, i))].counter
  }
}
