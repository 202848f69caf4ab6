/** Records loaded from the database, newest first: what the ring reports then, and when it can go on as
    if it had seen the checks itself. */
module HealthLoad {
  import opened Options
  import opened HealthRing
  import opened HealthLog
  import opened HealthRuns

  /** The ring after counting all the checks in order. */
  function Fill(ring: Ring, checks: seq<Check>): Ring {
    if checks == [] then ring
    else
      var before := Fill(ring, checks[..|checks| - 1]);
      var t := checks[|checks| - 1].time;
      before[Slot(t) := Inc(before[Slot(t)], t)]
  }

  function RecentOnly(records: seq<Check>, now: nat): seq<Check> {
    if records == [] then []
    else
      var before := RecentOnly(records[..|records| - 1], now);
      var c := records[|records| - 1];
      if Recent(c, now) then before + [c] else before
  }

  function HealthyOnly(checks: seq<Check>): seq<Check> {
    if checks == [] then []
    else
      var before := HealthyOnly(checks[..|checks| - 1]);
      var c := checks[|checks| - 1];
      if c.healthy then before + [c] else before
  }

  lemma FillSnoc(ring: Ring, checks: seq<Check>, c: Check)
    ensures Fill(ring, checks + [c])
         == Fill(ring, checks)[Slot(c.time) := Inc(Fill(ring, checks)[Slot(c.time)], c.time)]
  {
    assert (checks + [c])[..|checks|] == checks;
  }

  lemma HealthyOnlySnoc(checks: seq<Check>, c: Check)
    ensures HealthyOnly(checks + [c]) == HealthyOnly(checks) + if c.healthy then [c] else []
  {
    assert (checks + [c])[..|checks|] == checks;
  }

  lemma RecentSnoc(records: seq<Check>, c: Check, now: nat)
    ensures RecentOnly(records + [c], now) == RecentOnly(records, now) + if Recent(c, now) then [c] else []
  {
    assert (records + [c])[..|records|] == records;
  }

  /** Loading counts the recent records in one ring and the recent healthy ones in the other. */
  lemma {:induction false} LoadIsFill(r: Rings, records: seq<Check>, now: nat)
    ensures LoadSpec(r, records, now)
         == r.(total := Fill(r.total, RecentOnly(records, now)),
               healthy := Fill(r.healthy, HealthyOnly(RecentOnly(records, now))))
  {
    if records != [] {
      var init, c := records[..|records| - 1], records[|records| - 1];
      LoadIsFill(r, init, now);
      if Recent(c, now) {
        var kept := RecentOnly(init, now);
        FillSnoc(r.total, kept, c);
        HealthyOnlySnoc(kept, c);
        if c.healthy {
          FillSnoc(r.healthy, HealthyOnly(kept), c);
        }
      }
    }
  }

  /** Exactly the records of the last day count, those from the future included. */
  lemma {:induction false} RecentMembers(records: seq<Check>, now: nat, c: Check)
    ensures c in RecentOnly(records, now) <==> c in records && (now < c.time || now - c.time < 86400)
  {
    if records != [] {
      RecentMembers(records[..|records| - 1], now, c);
      assert records == records[..|records| - 1] + [records[|records| - 1]];
    }
  }

  lemma {:induction false} HealthyMembers(checks: seq<Check>, c: Check)
    ensures c in HealthyOnly(checks) <==> c in checks && c.healthy
  {
    if checks != [] {
      HealthyMembers(checks[..|checks| - 1], c);
      assert checks == checks[..|checks| - 1] + [checks[|checks| - 1]];
    }
  }

  lemma {:induction false} HealthyOnlyCount(checks: seq<Check>, b: nat)
    ensures Count(HealthyOnly(checks), b) == CountHealthy(checks, b)
  {
    if checks != [] {
      var init, c := checks[..|checks| - 1], checks[|checks| - 1];
      HealthyOnlyCount(init, b);
      CountSnoc(HealthyOnly(init), c, b);
    }
  }

  lemma FillStep(init: seq<Check>, c: Check, b: nat)
    ensures var before := Fill(NewRing(), init)[b % RING_SIZE];
            && Fill(NewRing(), init + [c])[b % RING_SIZE]
               == (if Slot(c.time) == b % RING_SIZE then Inc(before, c.time) else before)
            && Count(init + [c], b) == Count(init, b) + (if Bucket(c.time) == b then 1 else 0)
            && (Bucket(c.time) == b <==> Slot(c.time) == b % RING_SIZE && Round(c.time) == b / RING_SIZE)
  {
    FillSnoc(NewRing(), init, c);
    assert (init + [c])[..|init|] == init;
    RoundAndSlot(c.time);
  }

  // --- Records in any order ---

  /** Once a check of bucket b has been counted, every later check of its slot is of bucket b too. */
  ghost predicate Undisturbed(checks: seq<Check>, b: nat) {
    checks != [] ==>
      && Undisturbed(checks[..|checks| - 1], b)
      && var c := checks[|checks| - 1];
         (Slot(c.time) == b % RING_SIZE && Bucket(c.time) != b ==> Count(checks[..|checks| - 1], b) == 0)
  }

  lemma {:induction false} NothingToDisturb(checks: seq<Check>, b: nat)
    requires Count(checks, b) == 0
    ensures Undisturbed(checks, b)
  {
    if checks != [] {
      NothingToDisturb(checks[..|checks| - 1], b);
    }
  }

  /** A slot's count of bucket b is exact precisely when the checks of bucket b were not disturbed. */
  lemma {:induction false} FillExact(checks: seq<Check>, b: nat)
    ensures var item := Fill(NewRing(), checks)[b % RING_SIZE];
            && (item.round == b / RING_SIZE && Count(checks, b) == 0 ==> item.counter == 0)
            && (Count(checks, b) > 0 ==>
                  (item == RingItem(Count(checks, b), b / RING_SIZE) <==> Undisturbed(checks, b)))
  {
    if checks != [] {
      var init, c := checks[..|checks| - 1], checks[|checks| - 1];
      FillExact(init, b);
      assert checks == init + [c];
      FillStep(init, c, b);
      if Count(init, b) == 0 {
        NothingToDisturb(init, b);
      }
    }
  }

  /** A total reported after loading, whatever the order of the records, is exact if and only if its
      bucket has no recent record, or no record of another bucket in the same slot comes after one of its
      own. */
  lemma LoadedTotalExact(records: seq<Check>, created: nat, now: nat, i: nat)
    requires WindowExists(FromDb(records, created, now).lastCheck) && i < RING_SIZE
    ensures var r := FromDb(records, created, now);
            && i <= Bucket(r.lastCheck)
            && var kept, b := RecentOnly(records, now), Bucket(r.lastCheck) - i;
               TotalEntry(r, i) == Count(kept, b) <==> Count(kept, b) == 0 || Undisturbed(kept, b)
  {
    LoadedTotalEntry(records, created, now, i);
    FillExact(RecentOnly(records, now), Bucket(FromDb(records, created, now).lastCheck) - i);
  }

  // --- Records newest first, as the database returns them ---

  ghost predicate NewestFirst(checks: seq<Check>) {
    forall i, j :: 0 <= i < j < |checks| ==> checks[i].time >= checks[j].time
  }

  lemma {:induction false} RecentNewestFirst(records: seq<Check>, now: nat)
    requires NewestFirst(records)
    ensures NewestFirst(RecentOnly(records, now))
  {
    if records != [] {
      var init, c := records[..|records| - 1], records[|records| - 1];
      RecentNewestFirst(init, now);
      var kept := RecentOnly(init, now);
      forall k | 0 <= k < |kept| ensures kept[k].time >= c.time {
        RecentMembers(init, now, kept[k]);
      }
    }
  }

  lemma {:induction false} HealthyNewestFirst(checks: seq<Check>)
    requires NewestFirst(checks)
    ensures NewestFirst(HealthyOnly(checks))
  {
    if checks != [] {
      var init, c := checks[..|checks| - 1], checks[|checks| - 1];
      HealthyNewestFirst(init);
      var good := HealthyOnly(init);
      forall k | 0 <= k < |good| ensures good[k].time >= c.time {
        HealthyMembers(init, good[k]);
      }
    }
  }

  /** The oldest bucket of slot s, which is that of its last check when the newest comes first. */
  function Oldest(checks: seq<Check>, s: nat): Option<nat> {
    if checks == [] then None
    else if Slot(checks[|checks| - 1].time) == s then Some(Bucket(checks[|checks| - 1].time))
    else Oldest(checks[..|checks| - 1], s)
  }

  lemma {:induction false} OldestIsOldest(checks: seq<Check>, s: nat)
    requires NewestFirst(checks)
    ensures match Oldest(checks, s)
            case None => forall c <- checks :: Slot(c.time) != s
            case Some(b) => && (exists c <- checks :: Slot(c.time) == s && Bucket(c.time) == b)
                            && (forall c <- checks :: Slot(c.time) == s ==> b <= Bucket(c.time))
  {
    if checks != [] {
      var init, c := checks[..|checks| - 1], checks[|checks| - 1];
      assert checks == init + [c];
      OldestIsOldest(init, s);
      forall d | d in init ensures Bucket(c.time) <= Bucket(d.time) {
        BucketMonotone(c.time, d.time);
      }
      assert c in checks;
    }
  }

  /** Filled newest first, a slot ends up with its oldest bucket and all the checks of it. */
  lemma {:induction false} NewestFirstFill(checks: seq<Check>, s: nat)
    requires NewestFirst(checks) && s < RING_SIZE
    ensures Fill(NewRing(), checks)[s] == match Oldest(checks, s)
                                          case None => RingItem(0, 0)
                                          case Some(b) => RingItem(Count(checks, b), b / RING_SIZE)
  {
    if checks != [] {
      var init, c := checks[..|checks| - 1], checks[|checks| - 1];
      NewestFirstFill(init, s);
      assert checks == init + [c];
      FillSnoc(NewRing(), init, c);
      if Slot(c.time) == s {
        OldestJoins(init, c, s);
      } else if Oldest(init, s).Some? {
        OldestOfSlot(init, s);
        CountSnoc(init, c, Oldest(init, s).value);
        RoundAndSlot(c.time);
      }
    }
  }

  lemma OldestOfSlot(checks: seq<Check>, s: nat)
    requires NewestFirst(checks) && Oldest(checks, s).Some?
    ensures Oldest(checks, s).value % RING_SIZE == s
  {
    OldestIsOldest(checks, s);
    var c :| c in checks && Slot(c.time) == s && Bucket(c.time) == Oldest(checks, s).value;
    RoundAndSlot(c.time);
  }

  /** No check of the slot is older than its oldest bucket. */
  lemma NoneOlder(checks: seq<Check>, s: nat, b: nat)
    requires NewestFirst(checks) && b % RING_SIZE == s
    requires Oldest(checks, s).None? || b < Oldest(checks, s).value
    ensures Count(checks, b) == 0
  {
    OldestIsOldest(checks, s);
    CountPositive(checks, b);
    forall c | c in checks ensures Bucket(c.time) != b {
      RoundAndSlot(c.time);
    }
  }

  lemma OldestJoins(init: seq<Check>, c: Check, s: nat)
    requires NewestFirst(init) && Slot(c.time) == s && s < RING_SIZE
    requires forall d <- init :: c.time <= d.time
    requires Fill(NewRing(), init)[s] == match Oldest(init, s)
                                         case None => RingItem(0, 0)
                                         case Some(b) => RingItem(Count(init, b), b / RING_SIZE)
    ensures Inc(Fill(NewRing(), init)[s], c.time)
         == RingItem(Count(init + [c], Bucket(c.time)), Bucket(c.time) / RING_SIZE)
  {
    var b := Bucket(c.time);
    RoundAndSlot(c.time);
    CountSnoc(init, c, b);
    if Oldest(init, s).None? {
      NoneOlder(init, s, b);
    } else {
      var first := Oldest(init, s).value;
      OldestOfSlot(init, s);
      OldestIsOldest(init, s);
      var d :| d in init && Slot(d.time) == s && Bucket(d.time) == first;
      BucketMonotone(c.time, d.time);
      RoundOfBucket(first, b);
      if b < first {
        NoneOlder(init, s, b);
      }
    }
  }

  lemma LoadedTotalEntry(records: seq<Check>, created: nat, now: nat, i: nat)
    requires WindowExists(FromDb(records, created, now).lastCheck) && i < RING_SIZE
    ensures var r := FromDb(records, created, now);
            && i <= Bucket(r.lastCheck)
            && var b := Bucket(r.lastCheck) - i;
               var item := Fill(NewRing(), RecentOnly(records, now))[b % RING_SIZE];
               TotalEntry(r, i) == if item.round == b / RING_SIZE then item.counter else 0
  {
    var last := FromDb(records, created, now).lastCheck;
    LoadIsFill(Rings(NewRing(), NewRing(), last), records, now);
    WindowBucket(last, i);
    RoundAndSlot(RingTime(last, i));
  }

  lemma NewestFirstTotal(kept: seq<Check>, b: nat)
    requires NewestFirst(kept)
    ensures var item := Fill(NewRing(), kept)[b % RING_SIZE];
            (if item.round == b / RING_SIZE then item.counter else 0) == Count(kept, b)
            <==> Count(kept, b) == 0 || Oldest(kept, b % RING_SIZE) == Some(b)
  {
    var s := b % RING_SIZE;
    NewestFirstFill(kept, s);
    if Oldest(kept, s).Some? {
      OldestOfSlot(kept, s);
      RoundOfBucket(Oldest(kept, s).value, b);
    }
  }

  /** A total of a loaded record is exact if and only if its bucket has no recent record or is the oldest
      of its slot that has. */
  lemma LoadedTotals(records: seq<Check>, created: nat, now: nat, i: nat)
    requires NewestFirst(records) && WindowExists(FromDb(records, created, now).lastCheck) && i < RING_SIZE
    ensures var r := FromDb(records, created, now);
            && i <= Bucket(r.lastCheck)
            && var kept, b := RecentOnly(records, now), Bucket(r.lastCheck) - i;
               TotalEntry(r, i) == Count(kept, b)
               <==> Count(kept, b) == 0 || Oldest(kept, b % RING_SIZE) == Some(b)
  {
    LoadedTotalEntry(records, created, now, i);
    RecentNewestFirst(records, now);
    NewestFirstTotal(RecentOnly(records, now), Bucket(FromDb(records, created, now).lastCheck) - i);
  }

  lemma RoundOfBucket(a: nat, b: nat)
    requires a % RING_SIZE == b % RING_SIZE
    ensures a / RING_SIZE == b / RING_SIZE <==> a == b
  {
    assert a == 96 * (a / 96) + a % 96 && b == 96 * (b / 96) + b % 96;
  }

  /** The healthy checks of the oldest bucket of the slot that has any. */
  function OldestHealthy(kept: seq<Check>, s: nat): nat {
    var from := Oldest(HealthyOnly(kept), s);
    if from.Some? then CountHealthy(kept, from.value) else 0
  }

  lemma HealthyFill(kept: seq<Check>, s: nat)
    requires NewestFirst(kept) && s < RING_SIZE
    ensures Fill(NewRing(), HealthyOnly(kept))[s].counter == OldestHealthy(kept, s)
  {
    HealthyNewestFirst(kept);
    NewestFirstFill(HealthyOnly(kept), s);
    if Oldest(HealthyOnly(kept), s).Some? {
      HealthyOnlyCount(kept, Oldest(HealthyOnly(kept), s).value);
    }
  }

  lemma LoadedHealthyEntry(records: seq<Check>, created: nat, now: nat, i: nat)
    requires WindowExists(FromDb(records, created, now).lastCheck) && i < RING_SIZE
    ensures var r := FromDb(records, created, now);
            && i <= Bucket(r.lastCheck)
            && HealthyEntry(r, i) == Fill(NewRing(), HealthyOnly(RecentOnly(records, now)))
                                         [(Bucket(r.lastCheck) - i) % RING_SIZE].counter
  {
    var last := FromDb(records, created, now).lastCheck;
    LoadIsFill(Rings(NewRing(), NewRing(), last), records, now);
    WindowBucket(last, i);
  }

  /** A healthy count of a loaded record is that of the oldest bucket of its slot with a healthy record;
      so it is exact if and only if its own bucket has as many of them. */
  lemma LoadedHealthy(records: seq<Check>, created: nat, now: nat, i: nat)
    requires NewestFirst(records) && WindowExists(FromDb(records, created, now).lastCheck) && i < RING_SIZE
    ensures var r := FromDb(records, created, now);
            && i <= Bucket(r.lastCheck)
            && var kept, b := RecentOnly(records, now), Bucket(r.lastCheck) - i;
               && HealthyEntry(r, i) == OldestHealthy(kept, b % RING_SIZE)
               && (HealthyEntry(r, i) == CountHealthy(kept, b)
                   <==> OldestHealthy(kept, b % RING_SIZE) == CountHealthy(kept, b))
  {
    LoadedHealthyEntry(records, created, now, i);
    RecentNewestFirst(records, now);
    HealthyFill(RecentOnly(records, now), (Bucket(FromDb(records, created, now).lastCheck) - i) % RING_SIZE);
  }

  // --- Within the window ---

  /** All the checks fall into the window that ends with the latest check. */
  ghost predicate InWindow(checks: seq<Check>, last: nat) {
    forall c <- checks :: Bucket(last) - RING_SIZE < Bucket(c.time) <= Bucket(last)
  }

  /** In a window, a slot has one bucket only. */
  lemma OneBucketEach(checks: seq<Check>, last: nat, b: nat)
    requires InWindow(checks, last) && Bucket(last) - RING_SIZE < b <= Bucket(last)
    ensures forall c <- checks :: Slot(c.time) == b % RING_SIZE ==> Bucket(c.time) == b
  {
    forall c | c in checks && Slot(c.time) == b % RING_SIZE ensures Bucket(c.time) == b {
      RoundAndSlot(c.time);
      if Bucket(c.time) != b {
        SameSlot(Bucket(c.time), b);
      }
    }
  }

  /** Filled in any order, a slot of the window counts its bucket. */
  lemma {:induction false} WindowFill(checks: seq<Check>, last: nat, b: nat)
    requires InWindow(checks, last) && Bucket(last) - RING_SIZE < b <= Bucket(last)
    ensures Fill(NewRing(), checks)[b % RING_SIZE]
         == if Count(checks, b) > 0 then RingItem(Count(checks, b), b / RING_SIZE) else RingItem(0, 0)
  {
    if checks != [] {
      var init, c := checks[..|checks| - 1], checks[|checks| - 1];
      assert checks == init + [c];
      assert InWindow(init, last);
      WindowFill(init, last, b);
      FillStep(init, c, b);
      OneBucketEach(checks, last, b);
    }
  }

  /** The bucket of the window that a slot stands for. */
  lemma BucketInWindow(last: nat, s: nat) returns (b: nat)
    requires WindowExists(last) && s < RING_SIZE
    ensures Bucket(last) - RING_SIZE < b <= Bucket(last) && b % RING_SIZE == s
  {
    var i := EntryOfSlot(last, s);
    WindowBucket(last, i);
    b := Bucket(last) - i;
  }

  lemma HealthyInWindow(checks: seq<Check>, last: nat)
    requires InWindow(checks, last)
    ensures InWindow(HealthyOnly(checks), last)
  {
    forall c | c in HealthyOnly(checks) ensures Bucket(last) - RING_SIZE < Bucket(c.time) <= Bucket(last) {
      HealthyMembers(checks, c);
    }
  }

  /** What WindowFill leaves in a slot. */
  function Filled(count: nat, b: nat): RingItem {
    if count > 0 then RingItem(count, b / RING_SIZE) else RingItem(0, 0)
  }

  lemma FilledBucket(count: nat, b: nat, s: nat)
    requires b % RING_SIZE == s
    ensures BucketOf(Filled(count, b), s) == if count > 0 then b else s
    ensures s <= b
  {
    assert b == 96 * (b / 96) + b % 96;
  }

  lemma UsedSlot(kept: seq<Check>, last: nat, s: nat, b: nat)
    requires s < RING_SIZE && b % RING_SIZE == s && b <= last && Count(kept, b) > 0
    requires forall c <- kept :: Slot(c.time) == s ==> Bucket(c.time) == b
    ensures SlotInv(Filled(Count(kept, b), b), Filled(CountHealthy(kept, b), b), s, kept, last)
    ensures TotalAt(kept, s) == Count(kept, b)
  {
    LoadedUsed(kept, s, b);
    LatestUnique(kept, s, b);
    FilledBucket(Count(kept, b), b, s);
    FilledBucket(CountHealthy(kept, b), b, s);
  }

  lemma UnusedSlot(kept: seq<Check>, last: nat, s: nat, b: nat)
    requires s < RING_SIZE && b % RING_SIZE == s && b <= last && Count(kept, b) == 0
    requires forall c <- kept :: Slot(c.time) == s ==> Bucket(c.time) == b
    ensures SlotInv(Filled(Count(kept, b), b), Filled(CountHealthy(kept, b), b), s, kept, last)
    ensures TotalAt(kept, s) == 0
  {
    LoadedUnused(kept, s, b);
    LatestIsLatest(kept, s);
    FilledBucket(0, b, s);
    if Latest(kept, s).Some? {
      CountPositive(kept, Latest(kept, s).value);
    }
  }

  /** One slot of a record loaded within the window, against its records as a log. */
  lemma LoadedSlot(kept: seq<Check>, last: nat, s: nat, b: nat)
    requires WindowExists(last) && InWindow(kept, last) && s < RING_SIZE
    requires Bucket(last) - RING_SIZE < b <= Bucket(last) && b % RING_SIZE == s
    ensures var total, healthy := Fill(NewRing(), kept)[s], Fill(NewRing(), HealthyOnly(kept))[s];
            SlotInv(total, healthy, s, kept, Bucket(last)) && total.counter == TotalAt(kept, s)
  {
    HealthyInWindow(kept, last);
    WindowFill(kept, last, b);
    WindowFill(HealthyOnly(kept), last, b);
    HealthyOnlyCount(kept, b);
    OneBucketEach(kept, last, b);
    if Count(kept, b) > 0 {
      UsedSlot(kept, Bucket(last), s, b);
    } else {
      UnusedSlot(kept, Bucket(last), s, b);
    }
  }

  lemma LoadedUsed(kept: seq<Check>, s: nat, b: nat)
    requires s < RING_SIZE && b % RING_SIZE == s && Count(kept, b) > 0
    requires forall c <- kept :: Slot(c.time) == s ==> Bucket(c.time) == b
    ensures CountHealthy(kept, b) == 0 ==> CountHealthy(kept, s) == 0 && NoneHealthyAfter(kept, s, s)
    ensures NoneAfter(kept, s, b)
    ensures s <= b
  {
    HealthyPositive(kept, b);
    HealthyPositive(kept, s);
    forall c | c in kept && c.healthy && CountHealthy(kept, b) == 0 ensures Slot(c.time) != s && Bucket(c.time) != s {
      RoundAndSlot(c.time);
    }
  }

  lemma LoadedUnused(kept: seq<Check>, s: nat, b: nat)
    requires s < RING_SIZE && b % RING_SIZE == s && Count(kept, b) == 0
    requires forall c <- kept :: Slot(c.time) == s ==> Bucket(c.time) == b
    ensures forall c <- kept :: Slot(c.time) != s
    ensures Count(kept, s) == 0 && CountHealthy(kept, s) == 0 && CountHealthy(kept, b) == 0
  {
    CountPositive(kept, b);
    CountPositive(kept, s);
    HealthyAmongAll(kept, s);
    HealthyAmongAll(kept, b);
    forall c | c in kept ensures Slot(c.time) != s && Bucket(c.time) != s {
      RoundAndSlot(c.time);
    }
  }

  /** A record whose recent records lie within one window starts a run true to them: all laws of runs
      hold from there on. */
  lemma LoadedStarts(records: seq<Check>, created: nat, now: nat)
    requires var r := FromDb(records, created, now);
             WindowExists(r.lastCheck) && InWindow(RecentOnly(records, now), r.lastCheck)
    ensures var r := FromDb(records, created, now); Grounded(r) && Starts(r, RecentOnly(records, now))
  {
    var r, kept := FromDb(records, created, now), RecentOnly(records, now);
    LoadIsFill(Rings(NewRing(), NewRing(), r.lastCheck), records, now);
    assert Bucket(r.lastCheck) >= 95;
    forall s | 0 <= s < RING_SIZE
      ensures SlotStarts(r, kept, s)
      ensures BucketOf(r.total[s], s) <= Bucket(r.lastCheck) && BucketOf(r.healthy[s], s) <= Bucket(r.lastCheck)
    {
      var b := BucketInWindow(r.lastCheck, s);
      LoadedSlot(kept, r.lastCheck, s, b);
      WindowFill(kept, r.lastCheck, b);
      HealthyInWindow(kept, r.lastCheck);
      WindowFill(HealthyOnly(kept), r.lastCheck, b);
      FilledBucket(Count(kept, b), b, s);
      FilledBucket(Count(HealthyOnly(kept), b), b, s);
    }
  }

  /** Within one window everything reported after loading is exact. */
  lemma WindowExact(records: seq<Check>, created: nat, now: nat, i: nat)
    requires var r := FromDb(records, created, now);
             WindowExists(r.lastCheck) && InWindow(RecentOnly(records, now), r.lastCheck)
    requires i < RING_SIZE
    ensures var r, kept := FromDb(records, created, now), RecentOnly(records, now);
            && i <= Bucket(r.lastCheck)
            && TotalEntry(r, i) == Count(kept, Bucket(r.lastCheck) - i)
            && HealthyEntry(r, i) == CountHealthy(kept, Bucket(r.lastCheck) - i)
  {
    var kept, last := RecentOnly(records, now), FromDb(records, created, now).lastCheck;
    LoadedTotalEntry(records, created, now, i);
    LoadedHealthyEntry(records, created, now, i);
    WindowCounts(kept, last, Bucket(last) - i);
  }

  lemma WindowCounts(kept: seq<Check>, last: nat, b: nat)
    requires InWindow(kept, last) && Bucket(last) - RING_SIZE < b <= Bucket(last)
    ensures var item := Fill(NewRing(), kept)[b % RING_SIZE];
            (if item.round == b / RING_SIZE then item.counter else 0) == Count(kept, b)
    ensures Fill(NewRing(), HealthyOnly(kept))[b % RING_SIZE].counter == CountHealthy(kept, b)
  {
    HealthyInWindow(kept, last);
    WindowFill(kept, last, b);
    WindowFill(HealthyOnly(kept), last, b);
    HealthyOnlyCount(kept, b);
  }

  // --- Only the newest bucket can be wrong ---

  /** A recent record reaches back no further than 96 buckets before the clock. */
  lemma RecentReach(c: Check, now: nat, last: nat, i: nat)
    requires Recent(c, now) && last <= now && 0 < i <= Bucket(last)
    ensures Bucket(c.time) > Bucket(last) - i - RING_SIZE
  {
  }

  /** For records newest first and none of them from the future, all entries but the newest are exact. */
  lemma OlderEntriesExact(records: seq<Check>, created: nat, now: nat, i: nat)
    requires NewestFirst(records) && records != [] && records[0].time <= now
    requires WindowExists(records[0].time) && 0 < i < RING_SIZE
    ensures var r, kept := FromDb(records, created, now), RecentOnly(records, now);
            && i <= Bucket(r.lastCheck)
            && TotalEntry(r, i) == Count(kept, Bucket(r.lastCheck) - i)
            && HealthyEntry(r, i) == CountHealthy(kept, Bucket(r.lastCheck) - i)
  {
    var last, kept := records[0].time, RecentOnly(records, now);
    WindowBucket(last, i);
    var b := Bucket(last) - i;
    LoadedTotals(records, created, now, i);
    LoadedHealthy(records, created, now, i);
    RecentNewestFirst(records, now);
    HealthyNewestFirst(kept);
    OnlyBucket(records, now, last, i);
    SlotExact(kept, b);
    SlotExact(HealthyOnly(kept), b);
    HealthyOnlyCount(kept, b);
  }

  lemma OnlyBucket(records: seq<Check>, now: nat, last: nat, i: nat)
    requires NewestFirst(records) && records != [] && records[0].time == last <= now
    requires 0 < i < RING_SIZE && i <= Bucket(last)
    ensures var kept, b := RecentOnly(records, now), Bucket(last) - i;
            && (forall c <- kept :: Slot(c.time) == b % RING_SIZE ==> Bucket(c.time) == b)
            && (forall c <- HealthyOnly(kept) :: Slot(c.time) == b % RING_SIZE ==> Bucket(c.time) == b)
  {
    var kept, b := RecentOnly(records, now), Bucket(last) - i;
    forall c | c in kept && Slot(c.time) == b % RING_SIZE ensures Bucket(c.time) == b {
      RecentMembers(records, now, c);
      RecentReach(c, now, last, i);
      BucketMonotone(c.time, last);
      RoundAndSlot(c.time);
      if Bucket(c.time) != b {
        SameSlot(Bucket(c.time), b);
      }
    }
    forall c | c in HealthyOnly(kept) ensures c in kept {
      HealthyMembers(kept, c);
    }
  }

  lemma SlotExact(checks: seq<Check>, b: nat)
    requires NewestFirst(checks)
    requires forall c <- checks :: Slot(c.time) == b % RING_SIZE ==> Bucket(c.time) == b
    ensures Oldest(checks, b % RING_SIZE).Some? ==> Oldest(checks, b % RING_SIZE) == Some(b)
    ensures Count(checks, b) > 0 ==> Oldest(checks, b % RING_SIZE) == Some(b)
  {
    OldestIsOldest(checks, b % RING_SIZE);
    CountPositive(checks, b);
    if Count(checks, b) > 0 {
      var c :| c in checks && Bucket(c.time) == b;
      RoundAndSlot(c.time);
    }
  }

  // --- Runs from records newest first ---

  lemma NewestFirstBucket(checks: seq<Check>, s: nat, last: nat)
    requires NewestFirst(checks) && s < RING_SIZE && WindowExists(last) && forall c <- checks :: c.time <= last
    ensures BucketOf(Fill(NewRing(), checks)[s], s) <= Bucket(last)
  {
    NewestFirstFill(checks, s);
    assert Bucket(last) >= 95;
    if Oldest(checks, s).Some? {
      var b := Oldest(checks, s).value;
      OldestOfSlot(checks, s);
      OldestIsOldest(checks, s);
      var c :| c in checks && Slot(c.time) == s && Bucket(c.time) == b;
      BucketMonotone(c.time, last);
      assert b == 96 * (b / 96) + b % 96;
    }
  }

  /** A record loaded newest first may begin a run. */
  lemma LoadedGrounded(records: seq<Check>, created: nat, now: nat)
    requires NewestFirst(records) && WindowExists(FromDb(records, created, now).lastCheck)
    ensures Grounded(FromDb(records, created, now))
  {
    var r, kept := FromDb(records, created, now), RecentOnly(records, now);
    LoadIsFill(Rings(NewRing(), NewRing(), r.lastCheck), records, now);
    RecentNewestFirst(records, now);
    HealthyNewestFirst(kept);
    forall c | c in kept ensures c.time <= r.lastCheck {
      RecentMembers(records, now, c);
    }
    forall c | c in HealthyOnly(kept) ensures c.time <= r.lastCheck {
      HealthyMembers(kept, c);
    }
    forall s | 0 <= s < RING_SIZE
      ensures BucketOf(r.total[s], s) <= Bucket(r.lastCheck) && BucketOf(r.healthy[s], s) <= Bucket(r.lastCheck)
    {
      NewestFirstBucket(kept, s, r.lastCheck);
      NewestFirstBucket(HealthyOnly(kept), s, r.lastCheck);
    }
  }

  /** A loaded record was last checked with its newest record, and was created when there is none; without
      recent records it counts nothing. */
  lemma LoadedDate(records: seq<Check>, created: nat, now: nat)
    requires NewestFirst(records)
    ensures var r := FromDb(records, created, now);
            && (records == [] ==> r.lastCheck == created)
            && (forall c <- records :: c.time <= r.lastCheck)
            && (records != [] ==> exists c <- records :: c.time == r.lastCheck)
            && ((forall c <- records :: c.time <= now && now - c.time >= 86400) ==>
                  Sum(r.total) == 0 && Sum(r.healthy) == 0)
  {
    var r, kept := FromDb(records, created, now), RecentOnly(records, now);
    LoadIsFill(Rings(NewRing(), NewRing(), r.lastCheck), records, now);
    if forall c <- records :: c.time <= now && now - c.time >= 86400 {
      if kept != [] {
        RecentMembers(records, now, kept[0]);
      }
      SumOfEmpty(NewRing());
    }
  }

  lemma {:induction false} SumOfEmpty(items: seq<RingItem>)
    requires forall i :: 0 <= i < |items| ==> items[i].counter == 0
    ensures Sum(items) == 0
  {
    if items != [] {
      SumOfEmpty(items[..|items| - 1]);
    }
  }

  lemma OnlyBucketFill(checks: seq<Check>, s: nat, b: nat)
    requires NewestFirst(checks) && b % RING_SIZE == s
    requires forall c <- checks :: Slot(c.time) == s ==> Bucket(c.time) == b
    ensures Fill(NewRing(), checks)[s] == Filled(Count(checks, b), b)
  {
    NewestFirstFill(checks, s);
    SlotExact(checks, b);
    OldestIsOldest(checks, s);
    CountPositive(checks, b);
    if Oldest(checks, s).Some? {
      var c :| c in checks && Slot(c.time) == s && Bucket(c.time) == b;
    }
  }

  /** However many buckets the records of a day touch: for records newest first and none of them from the
      future, every slot but that of the newest record begins true to them and in order, so the laws of
      runs hold for it. */
  lemma OtherSlotsStart(records: seq<Check>, created: nat, now: nat, s: nat)
    requires NewestFirst(records) && records != [] && records[0].time <= now && WindowExists(records[0].time)
    requires s < RING_SIZE && s != Slot(records[0].time)
    ensures var r := FromDb(records, created, now);
            SlotStarts(r, RecentOnly(records, now), s) && BeginsInOrder(r, s)
  {
    var last, kept := records[0].time, RecentOnly(records, now);
    LoadIsFill(Rings(NewRing(), NewRing(), last), records, now);
    var i := EntryOfSlot(last, s);
    WindowBucket(last, i);
    var b := Bucket(last) - i;
    OnlyBucket(records, now, last, i);
    RecentNewestFirst(records, now);
    HealthyNewestFirst(kept);
    OnlyBucketFill(kept, s, b);
    OnlyBucketFill(HealthyOnly(kept), s, b);
    HealthyOnlyCount(kept, b);
    HealthyAmongAll(kept, b);
    if Count(kept, b) > 0 {
      UsedSlot(kept, Bucket(last), s, b);
    } else {
      UnusedSlot(kept, Bucket(last), s, b);
    }
  }

  // --- Unhealthy checks of a loaded record ---

  /** The checks of the oldest bucket of the slot. */
  function OldestTotal(kept: seq<Check>, s: nat): nat {
    if Oldest(kept, s).Some? then Count(kept, Oldest(kept, s).value) else 0
  }

  /** The difference of totals and healthy counts of the first k slots. */
  function LoadedUnhealthy(kept: seq<Check>, k: nat): int {
    if k == 0 then 0 else LoadedUnhealthy(kept, k - 1) + OldestTotal(kept, k - 1) - OldestHealthy(kept, k - 1)
  }

  lemma {:induction false} LoadedSums(kept: seq<Check>, k: nat)
    requires NewestFirst(kept) && k <= RING_SIZE
    ensures Sum(Fill(NewRing(), kept)[..k]) - Sum(Fill(NewRing(), HealthyOnly(kept))[..k])
         == LoadedUnhealthy(kept, k)
  {
    if k > 0 {
      LoadedSums(kept, k - 1);
      NewestFirstFill(kept, k - 1);
      HealthyFill(kept, k - 1);
      var total, healthy := Fill(NewRing(), kept), Fill(NewRing(), HealthyOnly(kept));
      assert total[..k][..k - 1] == total[..k - 1] && healthy[..k][..k - 1] == healthy[..k - 1];
    }
  }

  /** Right after loading newest first, total checks less healthy ones is, slot by slot, the checks of the
      oldest bucket less the healthy checks of the oldest bucket that has any; it is not below zero if and
      only if these differences add up to no less. */
  lemma LoadedUnhealthyExact(records: seq<Check>, created: nat, now: nat)
    requires NewestFirst(records)
    ensures var r, kept := FromDb(records, created, now), RecentOnly(records, now);
            && Sum(r.total) - Sum(r.healthy) == LoadedUnhealthy(kept, RING_SIZE)
            && (Sum(r.healthy) <= Sum(r.total) <==> LoadedUnhealthy(kept, RING_SIZE) >= 0)
  {
    var r, kept := FromDb(records, created, now), RecentOnly(records, now);
    LoadIsFill(Rings(NewRing(), NewRing(), r.lastCheck), records, now);
    RecentNewestFirst(records, now);
    LoadedSums(kept, RING_SIZE);
    assert r.total[..RING_SIZE] == r.total && r.healthy[..RING_SIZE] == r.healthy;
  }
}
