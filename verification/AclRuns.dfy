/** Whole runs of one live processor: the cache changes nothing that matters, a cached packet always
    finds its bucket, and the cache stays bounded. */
module AclRuns {
  import opened Options
  import opened PortSpecs
  import opened AclRules
  import opened AclProcessor

  datatype Event =
    | Packet(p: PacketInfo, chain: ChainType, clock: Clock)
    | CleanCache(now: nat)
    | SweepBuckets(now: nat)
    | SweepConns(wall: nat)
    | RefillBucket(key: RateKey, amount: nat)

  /** The processor, the last instant read, and when the cache was last cleaned by the sweeper. */
  datatype Sys = Sys(proc: Proc, time: nat, cleanedAt: Option<nat>)

  const START := Sys(Proc(Shared(map[], map[], map[]), map[], map[]), 0, None)

  function RefillSpec(limiters: map<RateKey, Limiter>, key: RateKey, amount: nat): map<RateKey, Limiter> {
    if key in limiters then Refill(limiters, key, amount) else limiters
  }

  ghost predicate Next(cfg: Config, s: Sys, e: Event, s': Sys, out: Option<AclResult>) {
    match e
    case Packet(p, t, c) =>
      && s.time <= c.accessed <= c.now == s'.time
      && Processed(cfg, s.proc, p, t, c, s'.proc, out)
      && s'.cleanedAt == s.cleanedAt
    case CleanCache(now) =>
      && s.time <= now == s'.time
      && Cleaned(s.proc.cache, cfg.maxSize, now, s'.proc.cache)
      && s'.proc == s.proc.(cache := s'.proc.cache)
      && s'.cleanedAt == Some(now)
      && out == None
    case SweepBuckets(now) =>
      && s.time <= now
      && s' == Sys(s.proc.(shared := s.proc.shared.(
                     limiters := FreshLimiters(s.proc.shared.limiters, now))), now, s.cleanedAt)
      && out == None
    case SweepConns(wall) =>
      && s' == s.(proc := s.proc.(shared := s.proc.shared.(conns := FreshConns(s.proc.shared.conns, wall))))
      && out == None
    case RefillBucket(key, amount) =>
      && s' == s.(proc := s.proc.(shared := s.proc.shared.(
                    limiters := RefillSpec(s.proc.shared.limiters, key, amount))))
      && out == None
  }

  /** The sweeper cleans the cache and sweeps the buckets right after; how much later it may be. */
  const SWEEP_DELAY := 5000

  ghost predicate Prompt(delay: nat, s: Sys, e: Event) {
    e.SweepBuckets? ==> s.cleanedAt.Some? && e.now <= s.cleanedAt.value + delay
  }

  /** Which ports of a packet are present; one choice for each cache key means that a run never mixes
      absent and zero ports. */
  datatype Presence = Presence(src: bool, dst: bool)

  function PresenceOf(p: PacketInfo): Presence {
    Presence(p.srcPort.Some?, p.dstPort.Some?)
  }

  ghost predicate Unmixed(e: Event, presence: CacheKey -> Presence) {
    e.Packet? ==> PresenceOf(e.p) == presence(KeyOf(e.p, e.chain))
  }

  /** Every sweep of the run comes within the delay of a cleanup, and every packet is unmixed. */
  ghost predicate Disciplined(delay: nat, presence: CacheKey -> Presence, states: seq<Sys>, events: seq<Event>) {
    |states| == |events| + 1
    && forall i :: 0 <= i < |events| ==> DisciplinedAt(delay, presence, states, events, i)
  }

  ghost predicate DisciplinedAt(delay: nat, presence: CacheKey -> Presence, states: seq<Sys>,
                                events: seq<Event>, i: nat)
    requires |states| == |events| + 1 && i < |events|
  {
    Unmixed(events[i], presence) && Prompt(delay, states[i], events[i])
  }

  ghost predicate IsRun(cfg: Config, states: seq<Sys>, events: seq<Event>, outs: seq<Option<AclResult>>) {
    && |states| == |events| + 1 && |outs| == |events|
    && states[0] == START
    && forall i :: 0 <= i < |events| ==> StepAt(cfg, states, events, outs, i)
  }

  ghost predicate StepAt(cfg: Config, states: seq<Sys>, events: seq<Event>, outs: seq<Option<AclResult>>,
                         i: nat)
    requires |states| == |events| + 1 && |outs| == |events| && i < |events|
  {
    Next(cfg, states[i], events[i], states[i + 1], outs[i])
  }

  // --- The reference: no cache at all ---

  function ReferenceStep(cfg: Config, sh: Shared, e: Event): (Shared, Option<AclResult>) {
    match e
    case Packet(p, t, c) =>
      if t == UnspecifiedChain then (sh, Some(UNSUPPORTED))
      else var (shared, result, _) := ScanSpec(cfg, sh, p, t, c); (shared, Some(result))
    case CleanCache(_) => (sh, None)
    case SweepBuckets(now) => (sh.(limiters := FreshLimiters(sh.limiters, now)), None)
    case SweepConns(wall) => (sh.(conns := FreshConns(sh.conns, wall)), None)
    case RefillBucket(key, amount) => (sh.(limiters := RefillSpec(sh.limiters, key, amount)), None)
  }

  function ReferenceState(cfg: Config, events: seq<Event>): Shared {
    if events == [] then START.proc.shared
    else ReferenceStep(cfg, ReferenceState(cfg, events[..|events| - 1]), events[|events| - 1]).0
  }

  /** The same decision; a rate drop of a stateful rule is reported under another name on a hit. */
  ghost predicate Agrees(r: Option<AclResult>, reference: Option<AclResult>) {
    || r == reference
    || (&& r.Some? && reference.Some?
        && r.value.log == RateLimitDrop && reference.value.log == RateLimitDrop
        && r.value.action == Drop && reference.value.action == Drop
        && reference.value.matchedRule.Priority?
        && r.value.matchedRule == Stateful(reference.value.matchedRule.priority))
  }

  // --- What a cache key determines ---

  /** The packet a key stands for once it is known which ports are present. */
  function Canon(k: CacheKey, pr: Presence): PacketInfo {
    PacketInfo(k.srcIp, k.dstIp, if pr.src then Some(k.srcPort) else None,
               if pr.dst then Some(k.dstPort) else None, k.protocol, 0, k.srcGroups, k.dstGroups)
  }

  lemma {:induction false} SizeIrrelevant(rules: seq<FastRule>, p: PacketInfo)
    ensures FirstMatch(rules, p.(size := 0)) == FirstMatch(rules, p)
  {
    var q := p.(size := 0);
    assert forall r: FastRule :: Applies(r, q) == Applies(r, p);
    FirstMatchUnique(rules, p, FirstMatch(rules, q));
  }

  lemma DecisionOfKey(cfg: Config, p: PacketInfo, t: ChainType)
    ensures Decide(cfg, p, t) == Decide(cfg, Canon(KeyOf(p, t), PresenceOf(p)), t)
  {
    assert Canon(KeyOf(p, t), PresenceOf(p)) == p.(size := 0);
    SizeIrrelevant(RulesOf(cfg, t), p);
  }

  function AnyRule(srcPorts: seq<PortRange>, dstPorts: seq<PortRange>, rate: nat): FastRule {
    FastRule(0, Any, [], [], srcPorts, dstPorts, {}, {}, Allow, true, false, rate, 5)
  }

  function OneRule(rule: FastRule): Config {
    Config([rule], [rule], [rule], Drop, Drop, Drop, 1024)
  }

  lemma OneRuleDecides(rule: FastRule, p: PacketInfo, t: ChainType)
    requires t != UnspecifiedChain
    ensures Decide(OneRule(rule), p, t)
         == if Applies(rule, p) then RuleDecision(rule, 0, p, t) else DefaultDecision(Drop)
  {
    FirstMatchUnique([rule], p, if Applies(rule, p) then 0 else 1);
  }

  /** Exactly when sharing a cache key is harmless: two packets with one key are decided alike under
      every configuration if and only if they have the same ports present. */
  lemma KeyFaithful(p: PacketInfo, q: PacketInfo, t: ChainType)
    requires KeyOf(p, t) == KeyOf(q, t) && t != UnspecifiedChain
    ensures (forall cfg :: Decide(cfg, p, t) == Decide(cfg, q, t)) <==> PresenceOf(p) == PresenceOf(q)
  {
    if PresenceOf(p) == PresenceOf(q) {
      forall cfg ensures Decide(cfg, p, t) == Decide(cfg, q, t) {
        DecisionOfKey(cfg, p, t);
        DecisionOfKey(cfg, q, t);
      }
    } else {
      var one := [PortRange(1, 1)];
      var rule := if p.srcPort.Some? != q.srcPort.Some? then AnyRule(one, [], 0) else AnyRule([], one, 0);
      assert PortMatches(one, None) && !PortMatches(one, Some(0));
      OneRuleDecides(rule, p, t);
      OneRuleDecides(rule, q, t);
      assert Applies(rule, p) != Applies(rule, q);
    }
  }

  // --- The invariant ---

  ghost predicate EntryInv(cfg: Config, presence: CacheKey -> Presence, s: Sys, k: CacheKey)
    requires k in s.proc.cache
  {
    var e := s.proc.cache[k];
    && k.chain != UnspecifiedChain
    && e.decision == Decide(cfg, Canon(k, presence(k)), k.chain)
    && e.lastAccess <= s.time
    && (s.cleanedAt.Some? ==> e.lastAccess + CACHE_LIFETIME > s.cleanedAt.value)
    && forall key <- e.decision.rateKeys :: BucketCovers(s.proc.shared.limiters, key, e.lastAccess)
  }

  /** The bucket exists and was used at least as recently as the cache entry. */
  ghost predicate BucketCovers(limiters: map<RateKey, Limiter>, key: RateKey, lastAccess: nat) {
    key in limiters && limiters[key].lastUpdate >= lastAccess
  }

  ghost predicate Inv(cfg: Config, presence: CacheKey -> Presence, s: Sys) {
    && (forall k <- s.proc.cache :: EntryInv(cfg, presence, s, k))
    && |s.proc.cache| <= 2 * cfg.maxSize
    && (s.cleanedAt.Some? ==> s.cleanedAt.value <= s.time)
  }

  lemma CleanedSubset(cache: map<CacheKey, CacheEntry>, maxSize: nat, now: nat,
                      cache': map<CacheKey, CacheEntry>)
    requires Cleaned(cache, maxSize, now, cache')
    ensures cache'.Keys <= cache.Keys && forall k <- cache' :: cache'[k] == cache[k]
    ensures |cache'| <= maxSize
    ensures forall k <- cache' :: cache'[k].lastAccess + CACHE_LIFETIME > now
  {
  }

  /** Whatever a new entry pushes out, the cache holds no more than twice its size. */
  lemma CachedBound(cache: map<CacheKey, CacheEntry>, key: CacheKey, entry: CacheEntry, maxSize: nat,
                    now: nat, cache': map<CacheKey, CacheEntry>)
    requires Cached(cache, key, entry, maxSize, now, cache')
    ensures |cache'| <= 2 * maxSize
    ensures forall k <- cache' :: if k == key then cache'[k] == entry else k in cache && cache'[k] == cache[k]
  {
    var added := cache[key := entry];
    if |added| > maxSize * 2 {
      CleanedSubset(added, maxSize, now, cache');
    }
  }

  lemma RateKeysOfDecision(cfg: Config, p: PacketInfo, t: ChainType)
    ensures var rules := RulesOf(cfg, t);
            var i := FirstMatch(rules, p);
            Decide(cfg, p, t).rateKeys == if i < |rules| && rules[i].rateLimit > 0
                                          then [RateKey(t, rules[i].priority)] else []
  {
  }

  lemma OneRate(limiters: map<RateKey, Limiter>, key: RateKey, now: nat)
    ensures CheckRates(limiters, [key], now) == CheckRate(limiters, key, 1, 1, false, now)
  {
    assert [key][1..] == [];
  }

  /** With the bucket in place a hit does what the scan does. */
  lemma HitMatchesScan(cfg: Config, sh: Shared, p: PacketInfo, t: ChainType, c: Clock)
    requires t != UnspecifiedChain
    requires forall key <- Decide(cfg, p, t).rateKeys :: key in sh.limiters
    ensures var (shared, r) := HitSpec(sh, Decide(cfg, p, t), p, c);
            && shared == ScanSpec(cfg, sh, p, t, c).0
            && Agrees(r, Some(ScanSpec(cfg, sh, p, t, c).1))
  {
    var d := Decide(cfg, p, t);
    var rules := RulesOf(cfg, t);
    var i := FirstMatch(rules, p);
    if i < |rules| && rules[i].rateLimit > 0 {
      var key := RateKey(t, rules[i].priority);
      assert d.rateKeys == [key];
      assert key in sh.limiters;
      OneRate(sh.limiters, key, c.now);
      assert CheckRate(sh.limiters, key, 1, 1, false, c.now)
          == CheckRate(sh.limiters, key, rules[i].rateLimit, rules[i].burstLimit, true, c.now);
    } else {
      assert d.rateKeys == [];
    }
  }

  /** Checking a rate only makes buckets more recent. */
  lemma RatesMakeRecent(limiters: map<RateKey, Limiter>, keys: seq<RateKey>, now: nat)
    requires |keys| <= 1 && forall key <- keys :: key in limiters
    ensures var after := CheckRates(limiters, keys, now).0;
            && after.Keys == limiters.Keys
            && (forall key <- limiters :: after[key].lastUpdate
                                          == if key in keys then now else limiters[key].lastUpdate)
  {
    if keys != [] {
      assert keys == [keys[0]] && keys[0] in limiters;
      OneRate(limiters, keys[0], now);
    }
  }

  lemma HitAgrees(cfg: Config, presence: CacheKey -> Presence, s: Sys, p: PacketInfo, t: ChainType,
                  c: Clock)
    requires KeyOf(p, t) in s.proc.cache && EntryInv(cfg, presence, s, KeyOf(p, t))
    requires PresenceOf(p) == presence(KeyOf(p, t))
    ensures var d := s.proc.cache[KeyOf(p, t)].decision;
            var (shared, r) := HitSpec(s.proc.shared, d, p, c);
            && t != UnspecifiedChain
            && shared == ScanSpec(cfg, s.proc.shared, p, t, c).0
            && Agrees(r, Some(ScanSpec(cfg, s.proc.shared, p, t, c).1))
            && |d.rateKeys| <= 1
            && (forall key <- d.rateKeys :: key in s.proc.shared.limiters)
  {
    DecisionOfKey(cfg, p, t);
    RateKeysOfDecision(cfg, p, t);
    var e := s.proc.cache[KeyOf(p, t)];
    forall key | key in e.decision.rateKeys ensures key in s.proc.shared.limiters {
      assert BucketCovers(s.proc.shared.limiters, key, e.lastAccess);
    }
    HitMatchesScan(cfg, s.proc.shared, p, t, c);
  }

  /** What a hit does to the buckets. */
  lemma HitMakesRecent(cfg: Config, presence: CacheKey -> Presence, s: Sys, p: PacketInfo, t: ChainType,
                       c: Clock)
    requires KeyOf(p, t) in s.proc.cache && EntryInv(cfg, presence, s, KeyOf(p, t))
    requires PresenceOf(p) == presence(KeyOf(p, t))
    ensures var d := s.proc.cache[KeyOf(p, t)].decision;
            var before, after := s.proc.shared.limiters, HitSpec(s.proc.shared, d, p, c).0.limiters;
            && MoreRecent(before, after, c.now)
            && (forall key <- d.rateKeys :: BucketCovers(after, key, c.now))
  {
    var d := s.proc.cache[KeyOf(p, t)].decision;
    HitAgrees(cfg, presence, s, p, t, c);
    RatesMakeRecent(s.proc.shared.limiters, d.rateKeys, c.now);
    assert HitSpec(s.proc.shared, d, p, c).0.limiters
        == CheckRates(s.proc.shared.limiters, d.rateKeys, c.now).0;
  }

  lemma HitRefines(cfg: Config, presence: CacheKey -> Presence, s: Sys, e: Event, s': Sys,
                   out: Option<AclResult>)
    requires Inv(cfg, presence, s) && Next(cfg, s, e, s', out)
    requires e.Packet? && Unmixed(e, presence) && KeyOf(e.p, e.chain) in s.proc.cache
    ensures s'.proc.shared == ReferenceStep(cfg, s.proc.shared, e).0
    ensures Agrees(out, ReferenceStep(cfg, s.proc.shared, e).1)
  {
    HitAgrees(cfg, presence, s, e.p, e.chain, e.clock);
  }

  /** Buckets keep their age or were used just now. */
  ghost predicate MoreRecent(before: map<RateKey, Limiter>, after: map<RateKey, Limiter>, now: nat) {
    forall key <- before ::
      key in after && (after[key].lastUpdate == before[key].lastUpdate || after[key].lastUpdate == now)
  }

  lemma TouchedKeepsInv(cfg: Config, presence: CacheKey -> Presence, s: Sys, k: CacheKey, accessed: nat,
                        s': Sys)
    requires Inv(cfg, presence, s) && k in s.proc.cache
    requires s.time <= accessed <= s'.time && s'.cleanedAt == s.cleanedAt
    requires s'.proc.cache == s.proc.cache[k := CacheEntry(s.proc.cache[k].decision, accessed)]
    requires MoreRecent(s.proc.shared.limiters, s'.proc.shared.limiters, s'.time)
    requires forall key <- s.proc.cache[k].decision.rateKeys ::
               BucketCovers(s'.proc.shared.limiters, key, s'.time)
    ensures Inv(cfg, presence, s')
  {
    assert s'.proc.cache.Keys == s.proc.cache.Keys;
    forall k' | k' in s'.proc.cache ensures EntryInv(cfg, presence, s', k') {
      assert EntryInv(cfg, presence, s, k');
      if k' != k {
        OlderEntryStays(cfg, presence, s, s', k');
      } else {
        forall key | key in s'.proc.cache[k].decision.rateKeys
          ensures BucketCovers(s'.proc.shared.limiters, key, accessed)
        {
          assert BucketCovers(s'.proc.shared.limiters, key, s'.time);
        }
      }
    }
  }

  lemma HitKeepsInv(cfg: Config, presence: CacheKey -> Presence, s: Sys, e: Event, s': Sys,
                    out: Option<AclResult>)
    requires Inv(cfg, presence, s) && Next(cfg, s, e, s', out)
    requires e.Packet? && Unmixed(e, presence) && KeyOf(e.p, e.chain) in s.proc.cache
    ensures Inv(cfg, presence, s')
  {
    HitMakesRecent(cfg, presence, s, e.p, e.chain, e.clock);
    TouchedKeepsInv(cfg, presence, s, KeyOf(e.p, e.chain), e.clock.accessed, s');
  }

  lemma ScanMakesRecent(cfg: Config, sh: Shared, p: PacketInfo, t: ChainType, c: Clock)
    requires t != UnspecifiedChain
    ensures var after := ScanSpec(cfg, sh, p, t, c).0.limiters;
            && MoreRecent(sh.limiters, after, c.now)
            && (forall key <- Decide(cfg, p, t).rateKeys :: BucketCovers(after, key, c.now))
  {
    RateKeysOfDecision(cfg, p, t);
  }

  /** A miss that caches its decision. */
  lemma NewEntryKeepsInv(cfg: Config, presence: CacheKey -> Presence, s: Sys, k: CacheKey, entry: CacheEntry,
                         s': Sys)
    requires Inv(cfg, presence, s) && s.time <= s'.time && s'.cleanedAt == s.cleanedAt
    requires MoreRecent(s.proc.shared.limiters, s'.proc.shared.limiters, s'.time)
    requires Cached(s.proc.cache, k, entry, cfg.maxSize, s'.time, s'.proc.cache)
    requires k in s'.proc.cache && s'.proc.cache[k] == entry ==> EntryInv(cfg, presence, s', k)
    ensures Inv(cfg, presence, s')
  {
    CachedBound(s.proc.cache, k, entry, cfg.maxSize, s'.time, s'.proc.cache);
    forall k' | k' in s'.proc.cache ensures EntryInv(cfg, presence, s', k') {
      if k' != k {
        OlderEntryStays(cfg, presence, s, s', k');
      }
    }
  }

  lemma SameCacheKeepsInv(cfg: Config, presence: CacheKey -> Presence, s: Sys, s': Sys)
    requires Inv(cfg, presence, s) && s.time <= s'.time && s'.cleanedAt == s.cleanedAt
    requires MoreRecent(s.proc.shared.limiters, s'.proc.shared.limiters, s'.time)
    requires s'.proc.cache == s.proc.cache
    ensures Inv(cfg, presence, s')
  {
    forall k' | k' in s'.proc.cache ensures EntryInv(cfg, presence, s', k') {
      OlderEntryStays(cfg, presence, s, s', k');
    }
  }

  lemma MissKeepsInv(cfg: Config, presence: CacheKey -> Presence, s: Sys, e: Event, s': Sys,
                     out: Option<AclResult>)
    requires Inv(cfg, presence, s) && Next(cfg, s, e, s', out)
    requires e.Packet? && Unmixed(e, presence) && KeyOf(e.p, e.chain) !in s.proc.cache
    ensures Inv(cfg, presence, s')
  {
    if e.chain != UnspecifiedChain {
      var entry := ScanSpec(cfg, s.proc.shared, e.p, e.chain, e.clock).2;
      DecisionOfKey(cfg, e.p, e.chain);
      ScanMakesRecent(cfg, s.proc.shared, e.p, e.chain, e.clock);
      if entry.Some? {
        NewEntryKeepsInv(cfg, presence, s, KeyOf(e.p, e.chain), entry.value, s');
      } else {
        SameCacheKeepsInv(cfg, presence, s, s');
      }
    } else {
      SameCacheKeepsInv(cfg, presence, s, s');
    }
  }

  lemma MissRefines(cfg: Config, s: Sys, e: Event, s': Sys, out: Option<AclResult>)
    requires Next(cfg, s, e, s', out) && e.Packet? && KeyOf(e.p, e.chain) !in s.proc.cache
    ensures s'.proc.shared == ReferenceStep(cfg, s.proc.shared, e).0
    ensures out == ReferenceStep(cfg, s.proc.shared, e).1
  {
  }

  /** An untouched entry stays good while time passes and buckets only get more recent. */
  lemma OlderEntryStays(cfg: Config, presence: CacheKey -> Presence, s: Sys, s': Sys, k: CacheKey)
    requires k in s.proc.cache && k in s'.proc.cache && s'.proc.cache[k] == s.proc.cache[k]
    requires EntryInv(cfg, presence, s, k) && s.time <= s'.time && s'.cleanedAt == s.cleanedAt
    requires MoreRecent(s.proc.shared.limiters, s'.proc.shared.limiters, s'.time)
    ensures EntryInv(cfg, presence, s', k)
  {
    forall key | key in s'.proc.cache[k].decision.rateKeys
      ensures BucketCovers(s'.proc.shared.limiters, key, s'.proc.cache[k].lastAccess)
    {
      assert BucketCovers(s.proc.shared.limiters, key, s.proc.cache[k].lastAccess);
    }
  }

  lemma CleanKeepsInv(cfg: Config, presence: CacheKey -> Presence, s: Sys, e: Event, s': Sys,
                      out: Option<AclResult>)
    requires Inv(cfg, presence, s) && Next(cfg, s, e, s', out) && e.CleanCache?
    ensures Inv(cfg, presence, s')
  {
    CleanedSubset(s.proc.cache, cfg.maxSize, e.now, s'.proc.cache);
    forall k | k in s'.proc.cache ensures EntryInv(cfg, presence, s', k) {
      assert EntryInv(cfg, presence, s, k);
    }
  }

  /** A bucket that a cache entry still needs is too recent to be swept promptly. */
  lemma SweepKeepsInv(cfg: Config, presence: CacheKey -> Presence, s: Sys, e: Event, s': Sys,
                      out: Option<AclResult>)
    requires Inv(cfg, presence, s) && Next(cfg, s, e, s', out)
    requires e.SweepBuckets? && Prompt(SWEEP_DELAY, s, e)
    ensures Inv(cfg, presence, s')
  {
    forall k | k in s'.proc.cache ensures EntryInv(cfg, presence, s', k) {
      assert EntryInv(cfg, presence, s, k);
      forall key | key in s'.proc.cache[k].decision.rateKeys
        ensures BucketCovers(s'.proc.shared.limiters, key, s'.proc.cache[k].lastAccess)
      {
        assert BucketCovers(s.proc.shared.limiters, key, s.proc.cache[k].lastAccess);
      }
    }
  }

  lemma QuietKeepsInv(cfg: Config, presence: CacheKey -> Presence, s: Sys, e: Event, s': Sys,
                      out: Option<AclResult>)
    requires Inv(cfg, presence, s) && Next(cfg, s, e, s', out) && (e.SweepConns? || e.RefillBucket?)
    ensures Inv(cfg, presence, s')
  {
    SameCacheKeepsInv(cfg, presence, s, s');
  }

  lemma StepRefines(cfg: Config, presence: CacheKey -> Presence, s: Sys, e: Event, s': Sys,
                    out: Option<AclResult>)
    requires Inv(cfg, presence, s) && Next(cfg, s, e, s', out)
    requires Unmixed(e, presence) && Prompt(SWEEP_DELAY, s, e)
    ensures Inv(cfg, presence, s')
    ensures s'.proc.shared == ReferenceStep(cfg, s.proc.shared, e).0
    ensures Agrees(out, ReferenceStep(cfg, s.proc.shared, e).1)
  {
    match e
    case Packet(p, t, _) =>
      if KeyOf(p, t) in s.proc.cache {
        HitRefines(cfg, presence, s, e, s', out);
        HitKeepsInv(cfg, presence, s, e, s', out);
      } else {
        MissRefines(cfg, s, e, s', out);
        MissKeepsInv(cfg, presence, s, e, s', out);
      }
    case CleanCache(_) => CleanKeepsInv(cfg, presence, s, e, s', out);
    case SweepBuckets(_) => SweepKeepsInv(cfg, presence, s, e, s', out);
    case SweepConns(_) => QuietKeepsInv(cfg, presence, s, e, s', out);
    case RefillBucket(_, _) => QuietKeepsInv(cfg, presence, s, e, s', out);
  }

  lemma StartInv(cfg: Config, presence: CacheKey -> Presence)
    ensures Inv(cfg, presence, START)
  {
  }

  lemma ReferenceSnoc(cfg: Config, events: seq<Event>, n: nat, before: Shared, after: Shared)
    requires n < |events| && before == ReferenceState(cfg, events[..n])
    requires after == ReferenceStep(cfg, before, events[n]).0
    ensures after == ReferenceState(cfg, events[..n + 1])
  {
    assert events[..n + 1][..n] == events[..n];
  }

  /** State n of a run is good and agrees with the reference. */
  ghost predicate RefinedAt(cfg: Config, presence: CacheKey -> Presence, states: seq<Sys>,
                            events: seq<Event>, n: nat)
    requires |states| == |events| + 1 && n <= |events|
  {
    Inv(cfg, presence, states[n]) && states[n].proc.shared == ReferenceState(cfg, events[..n])
  }

  lemma StepOfRun(cfg: Config, delay: nat, presence: CacheKey -> Presence, states: seq<Sys>, events: seq<Event>,
                  outs: seq<Option<AclResult>>, n: nat)
    requires IsRun(cfg, states, events, outs) && n < |events|
    requires delay <= SWEEP_DELAY && Disciplined(delay, presence, states, events)
    requires RefinedAt(cfg, presence, states, events, n)
    ensures RefinedAt(cfg, presence, states, events, n + 1)
    ensures Agrees(outs[n], ReferenceStep(cfg, ReferenceState(cfg, events[..n]), events[n]).1)
  {
    assert StepAt(cfg, states, events, outs, n) && DisciplinedAt(delay, presence, states, events, n);
    StepRefines(cfg, presence, states[n], events[n], states[n + 1], outs[n]);
    ReferenceSnoc(cfg, events, n, states[n].proc.shared, states[n + 1].proc.shared);
  }

  lemma RunRefines(cfg: Config, delay: nat, presence: CacheKey -> Presence, states: seq<Sys>, events: seq<Event>,
                   outs: seq<Option<AclResult>>, n: nat)
    requires IsRun(cfg, states, events, outs) && n <= |events|
    requires delay <= SWEEP_DELAY && Disciplined(delay, presence, states, events)
    ensures RefinedAt(cfg, presence, states, events, n)
  {
    StartInv(cfg, presence);
    for i := 0 to n
      invariant RefinedAt(cfg, presence, states, events, i)
    {
      StepOfRun(cfg, delay, presence, states, events, outs, i);
    }
  }

  /** The cache is invisible: over every run that sweeps promptly and never mixes absent and zero
      ports, the buckets, connections and rule counters are those of the cache-free scan, every packet
      gets the decision of the scan (so no bucket is ever missing), and the cache stays within twice
      its size. */
  lemma CacheRefinement(cfg: Config, delay: nat, presence: CacheKey -> Presence, states: seq<Sys>,
                        events: seq<Event>, outs: seq<Option<AclResult>>)
    requires IsRun(cfg, states, events, outs)
    requires delay <= SWEEP_DELAY && Disciplined(delay, presence, states, events)
    ensures forall i :: 0 <= i < |states| ==>
              && states[i].proc.shared == ReferenceState(cfg, events[..i])
              && |states[i].proc.cache| <= 2 * cfg.maxSize
    ensures forall i :: 0 <= i < |events| ==>
              && Agrees(outs[i], ReferenceStep(cfg, ReferenceState(cfg, events[..i]), events[i]).1)
              && (events[i].Packet? ==> outs[i].Some?)
  {
    forall i | 0 <= i < |states|
      ensures Inv(cfg, presence, states[i]) && states[i].proc.shared == ReferenceState(cfg, events[..i])
    {
      RunRefines(cfg, delay, presence, states, events, outs, i);
    }
    forall i | 0 <= i < |events|
      ensures Agrees(outs[i], ReferenceStep(cfg, ReferenceState(cfg, events[..i]), events[i]).1)
    {
      StepOfRun(cfg, delay, presence, states, events, outs, i);
    }
  }

  // --- Both conditions are needed ---

  const SAMPLE := PacketInfo(V4(1), V4(2), None, None, Tcp, 0, [], [])

  /** The run of two packets with one cache key through an empty processor, the second a hit. */
  ghost function AfterFirst(cfg: Config, p: PacketInfo, c: Clock): Sys {
    var d := Decide(cfg, p, Inbound);
    Sys(Proc(ScanSpec(cfg, START.proc.shared, p, Inbound, c).0,
             map[KeyOf(p, Inbound) := CacheEntry(d, c.accessed)], Bump(map[], DecisionCounter(d))),
        c.now, None)
  }

  lemma FirstPacketCached(rule: FastRule, p: PacketInfo, c: Clock)
    requires Applies(rule, p) && rule.burstLimit > 0 && c.accessed <= c.now
    ensures var cfg := OneRule(rule);
            && Decide(cfg, p, Inbound) == RuleDecision(rule, 0, p, Inbound)
            && Next(cfg, START, Packet(p, Inbound, c), AfterFirst(cfg, p, c),
                    Some(Decide(cfg, p, Inbound).result))
  {
    OneRuleDecides(rule, p, Inbound);
    FirstMatchUnique([rule], p, 0);
    var entry := CacheEntry(RuleDecision(rule, 0, p, Inbound), c.accessed);
    var cache: map<CacheKey, CacheEntry> := map[];
    assert cache[KeyOf(p, Inbound) := entry] == map[KeyOf(p, Inbound) := entry];
  }

  /** A packet without ports fills the cache; a packet with port zero then takes its place and is
      allowed although the scan drops it. */
  lemma MixedPortsMisdecide()
    returns (cfg: Config, states: seq<Sys>, events: seq<Event>, outs: seq<Option<AclResult>>)
    ensures |events| == 2 && IsRun(cfg, states, events, outs)
    ensures outs[1].Some? && outs[1].value.action == Allow
    ensures var reference := ReferenceStep(cfg, ReferenceState(cfg, events[..1]), events[1]).1;
            reference.Some? && reference.value.action == Drop
  {
    var rule := AnyRule([], [PortRange(1, 1)], 0);
    var p, q, c := SAMPLE, SAMPLE.(dstPort := Some(0)), Clock(0, 0, 0);
    cfg := OneRule(rule);
    FirstPacketCached(rule, p, c);
    OneRuleDecides(rule, q, Inbound);
    FirstMatchUnique([rule], q, 1);
    var s1 := AfterFirst(cfg, p, c);
    var d := Decide(cfg, p, Inbound);
    assert CheckRates(s1.proc.shared.limiters, d.rateKeys, 0) == (s1.proc.shared.limiters, Pass);
    var s2 := Sys(Proc(HitSpec(s1.proc.shared, d, q, c).0, s1.proc.cache[KeyOf(q, Inbound) := CacheEntry(d, 0)],
                       Bump(s1.proc.counters, CacheHits)), 0, None);
    states := [START, s1, s2];
    events := [Packet(p, Inbound, c), Packet(q, Inbound, c)];
    outs := [Some(d.result), Some(d.result)];
  }

  /** One millisecond later than promised, the sweep takes a bucket that a cached packet still needs. */
  lemma LateSweepPanics()
    returns (cfg: Config, states: seq<Sys>, events: seq<Event>, outs: seq<Option<AclResult>>)
    ensures |events| == 4 && IsRun(cfg, states, events, outs)
    ensures states[2].cleanedAt.Some? && events[2].SweepBuckets?
            && events[2].now == states[2].cleanedAt.value + SWEEP_DELAY + 1
    ensures events[0].Packet? && events[3].Packet? && events[3].p == events[0].p && outs[3] == None
    ensures events[1].CleanCache? && PresenceOf(events[0].p) == Presence(false, false)
  {
    var rule := AnyRule([], [], 1);
    var p, c, late := SAMPLE, Clock(20000, 20000, 0), Clock(40000, 40000, 0);
    cfg := OneRule(rule);
    FirstPacketCached(rule, p, c);
    var s1 := AfterFirst(cfg, p, c);
    var d := Decide(cfg, p, Inbound);
    var s2 := Sys(s1.proc, 34999, Some(34999));
    assert Retained(s1.proc.cache, 34999) == s1.proc.cache;
    var limiters := FreshLimiters(s1.proc.shared.limiters, 40000);
    FirstMatchUnique([rule], p, 0);
    assert s1.proc.shared.limiters.Keys == {RateKey(Inbound, 0)};
    assert limiters == map[];
    var s3 := Sys(s1.proc.(shared := s1.proc.shared.(limiters := limiters)), 40000, Some(34999));
    assert d.rateKeys == [RateKey(Inbound, 0)];
    OneRate(limiters, RateKey(Inbound, 0), 40000);
    var s4 := Sys(Proc(HitSpec(s3.proc.shared, d, p, late).0,
                       s3.proc.cache[KeyOf(p, Inbound) := CacheEntry(d, 40000)],
                       Bump(s3.proc.counters, CacheHits)), 40000, Some(34999));
    states := [START, s1, s2, s3, s4];
    events := [Packet(p, Inbound, c), CleanCache(34999), SweepBuckets(40000), Packet(p, Inbound, late)];
    outs := [Some(d.result), None, None, None];
  }

  /** No run whose sweeps come within the delay of a cleanup, and that never mixes absent and zero ports,
      makes a packet panic. */
  ghost predicate PanicFree(delay: nat) {
    forall cfg, presence, states, events, outs ::
      IsRun(cfg, states, events, outs) && Disciplined(delay, presence, states, events) ==>
        NoPanic(events, outs)
  }

  ghost predicate NoPanic(events: seq<Event>, outs: seq<Option<AclResult>>) {
    |outs| == |events| && forall i :: 0 <= i < |events| && events[i].Packet? ==> outs[i].Some?
  }

  lemma PromptIsPanicFree(delay: nat)
    requires delay <= SWEEP_DELAY
    ensures PanicFree(delay)
  {
    forall cfg, presence, states, events, outs
      | IsRun(cfg, states, events, outs) && Disciplined(delay, presence, states, events)
      ensures NoPanic(events, outs)
    {
      CacheRefinement(cfg, delay, presence, states, events, outs);
    }
  }

  /** The run with the late sweep is disciplined but for its delay. */
  lemma LateRunDisciplined(delay: nat)
    returns (cfg: Config, presence: CacheKey -> Presence, states: seq<Sys>, events: seq<Event>,
             outs: seq<Option<AclResult>>)
    requires delay > SWEEP_DELAY
    ensures IsRun(cfg, states, events, outs) && Disciplined(delay, presence, states, events)
    ensures |events| == 4 && events[3].Packet? && outs[3] == None
  {
    cfg, states, events, outs := LateSweepPanics();
    presence := _ => Presence(false, false);
    assert DisciplinedAt(delay, presence, states, events, 0);
    assert DisciplinedAt(delay, presence, states, events, 1);
    assert DisciplinedAt(delay, presence, states, events, 2);
    assert DisciplinedAt(delay, presence, states, events, 3);
  }

  /** Five seconds are exactly what the sweeper has. */
  lemma SweepDelayExact(delay: nat)
    ensures PanicFree(delay) <==> delay <= SWEEP_DELAY
  {
    if delay <= SWEEP_DELAY {
      PromptIsPanicFree(delay);
    } else {
      var cfg, presence, states, events, outs := LateRunDisciplined(delay);
      assert !NoPanic(events, outs);
    }
  }

  // --- What the decision is, said about the configuration ---

  /** Index of the first chain of a type, enabled or not. */
  ghost predicate FirstOfType(chains: seq<Chain>, t: ChainType, b: nat) {
    && b < |chains|
    && chains[b].chainType == t
    && forall a :: 0 <= a < b ==> chains[a].chainType != t
  }

  lemma {:induction false} DefaultIsFirstChain(chains: seq<Chain>, t: ChainType, b: nat)
    requires FirstOfType(chains, t, b)
    ensures DefaultFor(chains, t) == chains[b].defaultAction
  {
    if b > 0 {
      assert chains[0].chainType != t;
      assert forall a :: 0 <= a < |chains| - 1 ==> chains[1..][a] == chains[a + 1];
      DefaultIsFirstChain(chains[1..], t, b - 1);
    }
  }

  lemma {:induction false} DefaultWithoutChain(chains: seq<Chain>, t: ChainType)
    requires forall a :: 0 <= a < |chains| ==> chains[a].chainType != t
    ensures DefaultFor(chains, t) == Allow
  {
    if chains != [] {
      DefaultWithoutChain(chains[1..], t);
    }
  }

  /** A packet of a run is decided like a scan in the state of the reference. */
  lemma DecidedLikeScan(cfg: Config, delay: nat, presence: CacheKey -> Presence, states: seq<Sys>,
                        events: seq<Event>, outs: seq<Option<AclResult>>, i: nat)
    requires IsRun(cfg, states, events, outs)
    requires delay <= SWEEP_DELAY && Disciplined(delay, presence, states, events)
    requires i < |events| && events[i].Packet? && events[i].chain != UnspecifiedChain
    ensures var result := ScanSpec(cfg, ReferenceState(cfg, events[..i]), events[i].p, events[i].chain,
                                   events[i].clock).1;
            && outs[i].Some? && outs[i].value.action == result.action && outs[i].value.log == result.log
  {
    CacheRefinement(cfg, delay, presence, states, events, outs);
    assert Agrees(outs[i], ReferenceStep(cfg, ReferenceState(cfg, events[..i]), events[i]).1);
  }
}
