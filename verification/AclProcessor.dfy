/** Deciding packets: a first-match scan with rate limiters, connection tracking and rule counters
    as side effects, and a cache in front of it. Instants are in milliseconds, wall-clock times in
    seconds. */
module AclProcessor {
  import opened Options
  import opened AclRules
  import opened Sets

  datatype Config = Config(inbound: seq<FastRule>, outbound: seq<FastRule>, forwarded: seq<FastRule>,
                           defaultInbound: Action, defaultOutbound: Action, defaultForward: Action,
                           maxSize: nat)

  function ConfigOf(chains: seq<Chain>, maxSize: nat): Config {
    Config(RulesFor(chains, Inbound), RulesFor(chains, Outbound), RulesFor(chains, Forward),
           DefaultFor(chains, Inbound), DefaultFor(chains, Outbound), DefaultFor(chains, Forward),
           maxSize)
  }

  function RulesOf(cfg: Config, t: ChainType): seq<FastRule> {
    match t
    case Inbound => cfg.inbound
    case Outbound => cfg.outbound
    case Forward => cfg.forwarded
    case UnspecifiedChain => []
  }

  function DefaultOf(cfg: Config, t: ChainType): Action {
    match t
    case Inbound => cfg.defaultInbound
    case Outbound => cfg.defaultOutbound
    case Forward => cfg.defaultForward
    case UnspecifiedChain => Allow
  }

  datatype RateKey = RateKey(chain: ChainType, priority: nat)

  /** The token bucket between two refills. */
  datatype Bucket = Bucket(capacity: nat, rate: nat, tokens: nat)

  datatype Limiter = Limiter(bucket: Bucket, lastUpdate: nat)

  datatype RuleId = Priority(priority: nat) | Stateful(priority: nat) | Default

  datatype LogContext =
    | StatefulMatch(src: IpAddr, dst: IpAddr)
    | RuleMatch(src: IpAddr, dst: IpAddr, action: Action)
    | DefaultDrop | DefaultAllow | UnsupportedChainType | RateLimitDrop

  datatype AclResult = AclResult(action: Action, matchedRule: RuleId, log: LogContext)

  datatype CacheKey = CacheKey(chain: ChainType, protocol: Protocol, srcIp: IpAddr, dstIp: IpAddr,
                               srcPort: nat, dstPort: nat, srcGroups: seq<string>, dstGroups: seq<string>)

  function PortOr0(port: Option<nat>): nat {
    if port.Some? then port.value else 0
  }

  /** An absent port and port zero give the same key. */
  function KeyOf(p: PacketInfo, t: ChainType): CacheKey {
    CacheKey(t, p.protocol, p.srcIp, p.dstIp, PortOr0(p.srcPort), PortOr0(p.dstPort),
             p.srcGroups, p.dstGroups)
  }

  datatype ConnKey = ConnKey(srcIp: IpAddr, srcPort: nat, dstIp: IpAddr, dstPort: nat)

  function ConnKeyOf(p: PacketInfo): ConnKey {
    ConnKey(p.srcIp, PortOr0(p.srcPort), p.dstIp, PortOr0(p.dstPort))
  }

  datatype ConnState = New | Established

  datatype ConnEntry = ConnEntry(key: ConnKey, protocol: Protocol, state: ConnState, createdAt: nat,
                                 lastSeen: nat, packets: nat, bytes: nat)

  /** Which counters a packet counts for: those of a rule by its place in its list, or the default's. */
  datatype StatHandle = RuleStat(chain: ChainType, index: nat) | DefaultStat

  datatype Stat = Stat(packets: nat, bytes: nat)

  /** Everything a scan decides about a packet before touching any state. */
  datatype Decision = Decision(matchedRule: RuleId, connKey: Option<ConnKey>, rateKeys: seq<RateKey>,
                               stats: seq<StatHandle>, result: AclResult)

  datatype CacheEntry = CacheEntry(decision: Decision, lastAccess: nat)

  datatype StatKey = CacheHits | RuleMatchCount | DefaultAllows | DefaultDrops

  /** State that exists with or without the cache. */
  datatype Shared = Shared(conns: map<ConnKey, ConnEntry>, limiters: map<RateKey, Limiter>,
                           ruleStats: map<StatHandle, Stat>)

  datatype Proc = Proc(shared: Shared, cache: map<CacheKey, CacheEntry>, counters: map<StatKey, nat>)

  /** Clock readings while one packet is processed: at the cache lookup, later, and the wall clock. */
  datatype Clock = Clock(accessed: nat, now: nat, wall: nat)

  // --- Decisions ---

  function RuleDecision(rule: FastRule, i: nat, p: PacketInfo, t: ChainType): Decision {
    var stat := RuleStat(t, i);
    var limited := rule.rateLimit > 0;
    var rateKeys := if limited then [RateKey(t, rule.priority)] else [];
    var stats := if limited then [stat, stat] else [stat];
    if rule.stateful && rule.action == Allow then
      Decision(Stateful(rule.priority), Some(ConnKeyOf(p)), rateKeys, stats,
               AclResult(Allow, Stateful(rule.priority), StatefulMatch(p.srcIp, p.dstIp)))
    else
      Decision(Priority(rule.priority), None, rateKeys, stats,
               AclResult(rule.action, Priority(rule.priority), RuleMatch(p.srcIp, p.dstIp, rule.action)))
  }

  function DefaultDecision(action: Action): Decision {
    Decision(Default, None, [], [DefaultStat],
             AclResult(action, Default, if action == Drop then DefaultDrop else DefaultAllow))
  }

  function Decide(cfg: Config, p: PacketInfo, t: ChainType): Decision {
    var rules := RulesOf(cfg, t);
    var i := FirstMatch(rules, p);
    if i < |rules| then RuleDecision(rules[i], i, p, t) else DefaultDecision(DefaultOf(cfg, t))
  }

  function LimitDrop(rule: RuleId): AclResult {
    AclResult(Drop, rule, RateLimitDrop)
  }

  const UNSUPPORTED := AclResult(Drop, Default, UnsupportedChainType)

  // --- Effects ---

  /** Missing stands for the panic on a bucket that should exist. */
  datatype RateCheck = Pass | Limited | Missing

  function CheckRate(limiters: map<RateKey, Limiter>, key: RateKey, rate: nat, burst: nat,
                     create: bool, now: nat): (map<RateKey, Limiter>, RateCheck) {
    if rate == 0 then (limiters, Pass)
    else if key !in limiters && !create then (limiters, Missing)
    else
      var bucket := if key in limiters then limiters[key].bucket else Bucket(burst, rate, burst);
      if 1 > bucket.capacity || bucket.tokens < 1 then (limiters[key := Limiter(bucket, now)], Limited)
      else (limiters[key := Limiter(bucket.(tokens := bucket.tokens - 1), now)], Pass)
  }

  /** A cached packet checks its keys one by one and stops at the first that does not pass. */
  function CheckRates(limiters: map<RateKey, Limiter>, keys: seq<RateKey>, now: nat)
    : (map<RateKey, Limiter>, RateCheck)
  {
    if keys == [] then (limiters, Pass)
    else
      var (limiters', check) := CheckRate(limiters, keys[0], 1, 1, false, now);
      if check.Pass? then CheckRates(limiters', keys[1..], now) else (limiters', check)
  }

  function Track(conns: map<ConnKey, ConnEntry>, key: ConnKey, p: PacketInfo, wall: nat)
    : map<ConnKey, ConnEntry>
  {
    if key in conns then
      var c := conns[key];
      conns[key := c.(lastSeen := wall, packets := c.packets + 1, bytes := c.bytes + p.size,
                      state := Established)]
    else conns[key := ConnEntry(ConnKeyOf(p), p.protocol, New, wall, wall, 1, p.size)]
  }

  function Count(stats: map<StatHandle, Stat>, handles: seq<StatHandle>, size: nat)
    : map<StatHandle, Stat>
  {
    if handles == [] then stats
    else
      var before := Count(stats, handles[..|handles| - 1], size);
      var h := handles[|handles| - 1];
      var s := if h in before then before[h] else Stat(0, 0);
      before[h := Stat(s.packets + 1, s.bytes + size)]
  }

  /** What happens to a packet that no limiter stopped. */
  function Finish(sh: Shared, d: Decision, p: PacketInfo, wall: nat): Shared {
    Shared(if d.connKey.Some? then Track(sh.conns, d.connKey.value, p, wall) else sh.conns,
           sh.limiters, Count(sh.ruleStats, d.stats, p.size))
  }

  /** The scan without any cache; the third component is what a miss would cache. */
  function ScanSpec(cfg: Config, sh: Shared, p: PacketInfo, t: ChainType, c: Clock)
    : (Shared, AclResult, Option<CacheEntry>)
    requires t != UnspecifiedChain
  {
    var rules := RulesOf(cfg, t);
    var i := FirstMatch(rules, p);
    var d := Decide(cfg, p, t);
    var (limiters, check) :=
      if i < |rules|
      then CheckRate(sh.limiters, RateKey(t, rules[i].priority), rules[i].rateLimit,
                     rules[i].burstLimit, true, c.now)
      else (sh.limiters, Pass);
    if check.Limited? then (sh.(limiters := limiters), LimitDrop(Priority(rules[i].priority)), None)
    else (Finish(sh.(limiters := limiters), d, p, c.wall), d.result, Some(CacheEntry(d, c.accessed)))
  }

  /** A cached packet; no result stands for the panic. */
  function HitSpec(sh: Shared, d: Decision, p: PacketInfo, c: Clock): (Shared, Option<AclResult>) {
    var (limiters, check) := CheckRates(sh.limiters, d.rateKeys, c.now);
    match check
    case Missing => (sh.(limiters := limiters), None)
    case Limited => (sh.(limiters := limiters), Some(LimitDrop(d.matchedRule)))
    case Pass => (Finish(sh.(limiters := limiters), d, p, c.wall), Some(d.result))
  }

  // --- The cache ---

  const CACHE_LIFETIME := 15000
  const BUCKET_LIFETIME := 20000

  /** Entries survive when used within the lifetime; early in the process none do. */
  function Retained(cache: map<CacheKey, CacheEntry>, now: nat): map<CacheKey, CacheEntry> {
    var expired := if now >= CACHE_LIFETIME then now - CACHE_LIFETIME else now;
    map k | k in cache && cache[k].lastAccess > expired :: cache[k]
  }

  /** What a cleanup may leave: all retained entries when they are few enough, otherwise a fixed
      number of them, none of them older than one that was evicted. */
  ghost predicate Cleaned(cache: map<CacheKey, CacheEntry>, maxSize: nat, now: nat,
                          cache': map<CacheKey, CacheEntry>) {
    var kept := Retained(cache, now);
    if |kept| <= maxSize then cache' == kept
    else
      && cache'.Keys <= kept.Keys
      && (forall k <- cache' :: cache'[k] == kept[k])
      && |cache'| == maxSize - maxSize / 5
      && forall evicted, survivor :: evicted in kept && evicted !in cache' && survivor in cache' ==>
           kept[evicted].lastAccess <= kept[survivor].lastAccess
  }

  /** A new entry, with a cleanup once the cache holds more than twice its size. */
  ghost predicate Cached(cache: map<CacheKey, CacheEntry>, key: CacheKey, entry: CacheEntry,
                         maxSize: nat, now: nat, cache': map<CacheKey, CacheEntry>) {
    var added := cache[key := entry];
    if |added| > maxSize * 2 then Cleaned(added, maxSize, now, cache') else cache' == added
  }

  function Bump(counters: map<StatKey, nat>, key: StatKey): map<StatKey, nat> {
    counters[key := if key in counters then counters[key] + 1 else 1]
  }

  function DecisionCounter(d: Decision): StatKey {
    if !d.matchedRule.Default? then RuleMatchCount
    else if d.result.action == Drop then DefaultDrops else DefaultAllows
  }

  /** One packet through the processor. */
  ghost predicate Processed(cfg: Config, s: Proc, p: PacketInfo, t: ChainType, c: Clock, s': Proc,
                            r: Option<AclResult>) {
    var key := KeyOf(p, t);
    if key in s.cache then
      var d := s.cache[key].decision;
      var (shared, result) := HitSpec(s.shared, d, p, c);
      && s' == Proc(shared, s.cache[key := CacheEntry(d, c.accessed)], Bump(s.counters, CacheHits))
      && r == result
    else if t == UnspecifiedChain then s' == s && r == Some(UNSUPPORTED)
    else
      var (shared, result, entry) := ScanSpec(cfg, s.shared, p, t, c);
      && s'.shared == shared
      && r == Some(result)
      && match entry
         case None => s'.cache == s.cache && s'.counters == s.counters
         case Some(e) =>
           && Cached(s.cache, key, e, cfg.maxSize, c.now, s'.cache)
           && s'.counters == Bump(s.counters, DecisionCounter(e.decision))
  }

  // --- Sorting by age ---

  datatype Aged = Aged(key: CacheKey, lastAccess: nat)

  function InsertByAge(s: seq<Aged>, a: Aged): (r: seq<Aged>)
    ensures |r| == |s| + 1
  {
    if s == [] then [a]
    else if s[|s| - 1].lastAccess <= a.lastAccess then s + [a]
    else InsertByAge(s[..|s| - 1], a) + [s[|s| - 1]]
  }

  ghost predicate Ascending(s: seq<Aged>) {
    forall i, j :: 0 <= i < j < |s| ==> s[i].lastAccess <= s[j].lastAccess
  }

  lemma {:induction false} InsertAscends(s: seq<Aged>, a: Aged)
    requires Ascending(s)
    ensures Ascending(InsertByAge(s, a))
    ensures forall x :: x in InsertByAge(s, a) <==> x in s || x == a
  {
    if s != [] && s[|s| - 1].lastAccess > a.lastAccess {
      var init, last := s[..|s| - 1], s[|s| - 1];
      InsertAscends(init, a);
      assert s == init + [last];
      var t := InsertByAge(init, a);
      forall i | 0 <= i < |t| ensures t[i].lastAccess <= last.lastAccess {
        assert t[i] in t;
      }
    }
  }

  ghost function KeysOf(s: seq<Aged>): set<CacheKey> {
    set a <- s :: a.key
  }

  /** The retained entries, oldest first. */
  method SortedByAge(kept: map<CacheKey, CacheEntry>) returns (entries: seq<Aged>)
    ensures Ascending(entries) && Lists(kept, entries)
  {
    entries := [];
    var rest := kept.Keys;
    while rest != {}
      invariant rest <= kept.Keys && |entries| + |rest| == |kept|
      invariant Ascending(entries)
      invariant forall a <- entries :: a.key in kept && a.lastAccess == kept[a.key].lastAccess
      invariant forall k <- kept :: k in rest || Aged(k, kept[k].lastAccess) in entries
      decreases rest
    {
      var k :| k in rest;
      InsertAscends(entries, Aged(k, kept[k].lastAccess));
      entries := InsertByAge(entries, Aged(k, kept[k].lastAccess));
      rest := rest - {k};
    }
  }

  /** The keys of the first n entries of a listing are gone, all others are there. */
  ghost predicate PrefixRemoved(kept: map<CacheKey, CacheEntry>, entries: seq<Aged>, n: nat,
                                cache: map<CacheKey, CacheEntry>)
    requires n <= |entries|
  {
    && cache.Keys <= kept.Keys
    && (forall k <- cache :: cache[k] == kept[k])
    && |cache| == |kept| - n
    && (forall k <- kept :: k !in cache <==> Aged(k, kept[k].lastAccess) in entries[..n])
  }

  ghost predicate Lists(kept: map<CacheKey, CacheEntry>, entries: seq<Aged>) {
    && |entries| == |kept|
    && (forall a <- entries :: a.key in kept && a.lastAccess == kept[a.key].lastAccess)
    && (forall k <- kept :: Aged(k, kept[k].lastAccess) in entries)
  }

  lemma RemoveNext(kept: map<CacheKey, CacheEntry>, entries: seq<Aged>, n: nat,
                   cache: map<CacheKey, CacheEntry>)
    requires n < |entries| && Lists(kept, entries) && PrefixRemoved(kept, entries, n, cache)
    ensures PrefixRemoved(kept, entries, n + 1, cache - {entries[n].key})
  {
    var k := entries[n].key;
    StillCached(kept, entries, n, cache);
    assert cache.Keys == (cache - {k}).Keys + {k};
    forall j | j in kept
      ensures j !in cache - {k} <==> Aged(j, kept[j].lastAccess) in entries[..n + 1]
    {
      InLongerPrefix(entries, n, Aged(j, kept[j].lastAccess));
      assert entries[n] in entries;
    }
  }

  lemma InLongerPrefix(entries: seq<Aged>, n: nat, a: Aged)
    requires n < |entries|
    ensures a in entries[..n + 1] <==> a in entries[..n] || a == entries[n]
  {
    assert entries[..n + 1] == entries[..n] + [entries[n]];
  }

  lemma StillCached(kept: map<CacheKey, CacheEntry>, entries: seq<Aged>, n: nat,
                    cache: map<CacheKey, CacheEntry>)
    requires n < |entries| && Lists(kept, entries) && PrefixRemoved(kept, entries, n, cache)
    ensures entries[n].key in cache
  {
    ListingDistinct(kept, entries);
    assert entries[n] in entries;
  }

  lemma OldestRemoved(kept: map<CacheKey, CacheEntry>, entries: seq<Aged>, n: nat,
                      cache: map<CacheKey, CacheEntry>, evicted: CacheKey, survivor: CacheKey)
    requires n <= |entries| && Lists(kept, entries) && Ascending(entries)
    requires PrefixRemoved(kept, entries, n, cache)
    requires evicted in kept && evicted !in cache && survivor in cache
    ensures kept[evicted].lastAccess <= kept[survivor].lastAccess
  {
    var a, b := Aged(evicted, kept[evicted].lastAccess), Aged(survivor, kept[survivor].lastAccess);
    var i :| 0 <= i < n && entries[i] == a;
    var j :| 0 <= j < |entries| && entries[j] == b;
    assert n <= j || entries[..n][j] == b;
  }

  /** Removing the first n entries of an age-ordered listing. */
  method RemoveOldest(kept: map<CacheKey, CacheEntry>, entries: seq<Aged>, n: nat)
    returns (cache: map<CacheKey, CacheEntry>)
    requires n <= |entries| && Lists(kept, entries) && Ascending(entries)
    ensures cache.Keys <= kept.Keys && (forall k <- cache :: cache[k] == kept[k])
    ensures |cache| == |kept| - n
    ensures forall evicted, survivor ::
              evicted in kept && evicted !in cache && survivor in cache ==>
                kept[evicted].lastAccess <= kept[survivor].lastAccess
  {
    cache := kept;
    for i := 0 to n
      invariant PrefixRemoved(kept, entries, i, cache)
    {
      RemoveNext(kept, entries, i, cache);
      cache := cache - {entries[i].key};
    }
    forall evicted, survivor | evicted in kept && evicted !in cache && survivor in cache
      ensures kept[evicted].lastAccess <= kept[survivor].lastAccess
    {
      OldestRemoved(kept, entries, n, cache, evicted, survivor);
    }
  }

  /** A listing as long as the map it lists has no repeats. */
  lemma ListingDistinct(kept: map<CacheKey, CacheEntry>, entries: seq<Aged>)
    requires |entries| == |kept|
    requires forall k <- kept :: Aged(k, kept[k].lastAccess) in entries
    ensures forall i, j :: 0 <= i < j < |entries| ==> entries[i] != entries[j]
  {
    forall i, j | 0 <= i < j < |entries| ensures entries[i] != entries[j] {
      if entries[i] == entries[j] {
        var shorter := entries[..j] + entries[j + 1..];
        forall k | k in kept ensures k in KeysOf(shorter) {
          var a := Aged(k, kept[k].lastAccess);
          var m :| 0 <= m < |entries| && entries[m] == a;
          assert a == shorter[if m < j then m else if m == j then i else m - 1];
        }
        KeysOfSize(shorter);
        assert kept.Keys <= KeysOf(shorter);
        SubsetSize(kept.Keys, KeysOf(shorter));
      }
    }
  }

  lemma {:induction false} KeysOfSize(s: seq<Aged>)
    ensures |KeysOf(s)| <= |s|
  {
    if s != [] {
      var init := s[..|s| - 1];
      KeysOfSize(init);
      assert s == init + [s[|s| - 1]];
      assert KeysOf(s) == KeysOf(init) + {s[|s| - 1].key};
    }
  }

  class AclProcessor {
    const cfg: Config
    var conns: map<ConnKey, ConnEntry>
    var limiters: map<RateKey, Limiter>
    var ruleStats: map<StatHandle, Stat>
    var cache: map<CacheKey, CacheEntry>
    var counters: map<StatKey, nat>

    ghost function State(): Proc
      reads this
    {
      Proc(Shared(conns, limiters, ruleStats), cache, counters)
    }

    constructor (chains: seq<Chain>)
      ensures cfg == ConfigOf(chains, 1024)
      ensures State() == Proc(Shared(map[], map[], map[]), map[], map[])
    {
      var inbound, outbound, forwarded := BuildRules(chains);
      cfg := Config(inbound, outbound, forwarded, DefaultFor(chains, Inbound),
                    DefaultFor(chains, Outbound), DefaultFor(chains, Forward), 1024);
      conns, limiters, ruleStats, cache, counters := map[], map[], map[], map[], map[];
    }

    method CheckRateLimit(key: RateKey, rate: nat, burst: nat, allowCreate: bool, now: nat)
      returns (r: RateCheck)
      modifies this`limiters
      ensures (limiters, r) == CheckRate(old(limiters), key, rate, burst, allowCreate, now)
    {
      if rate == 0 {
        return Pass;
      }
      if key !in limiters && !allowCreate {
        return Missing;
      }
      var bucket := if key in limiters then limiters[key].bucket else Bucket(burst, rate, burst);
      if 1 > bucket.capacity || bucket.tokens < 1 {
        r := Limited;
      } else {
        bucket := bucket.(tokens := bucket.tokens - 1);
        r := Pass;
      }
      limiters := limiters[key := Limiter(bucket, now)];
    }

    method CheckConnectionState(key: ConnKey, p: PacketInfo, wall: nat)
      modifies this`conns
      ensures conns == Track(old(conns), key, p, wall)
    {
      if key in conns {
        var c := conns[key];
        conns := conns[key := c.(lastSeen := wall, packets := c.packets + 1, bytes := c.bytes + p.size,
                                 state := Established)];
      } else {
        conns := conns[key := ConnEntry(ConnKeyOf(p), p.protocol, New, wall, wall, 1, p.size)];
      }
    }

    method IncCacheEntryStats(handles: seq<StatHandle>, size: nat)
      modifies this`ruleStats
      ensures ruleStats == Count(old(ruleStats), handles, size)
    {
      for i := 0 to |handles|
        invariant ruleStats == Count(old(ruleStats), handles[..i], size)
      {
        assert handles[..i + 1][..i] == handles[..i];
        var h := handles[i];
        var s := if h in ruleStats then ruleStats[h] else Stat(0, 0);
        ruleStats := ruleStats[h := Stat(s.packets + 1, s.bytes + size)];
      }
      assert handles[..|handles|] == handles;
    }

    method IncrementStat(key: StatKey)
      modifies this`counters
      ensures counters == Bump(old(counters), key)
    {
      counters := counters[key := if key in counters then counters[key] + 1 else 1];
    }

    method CleanupCache(now: nat)
      modifies this`cache
      ensures Cleaned(old(cache), cfg.maxSize, now, cache)
    {
      cache := Retained(cache, now);
      var currentSize := |cache|;
      if currentSize <= cfg.maxSize {
        return;
      }
      var entries := SortedByAge(cache);
      var toRemove := currentSize - cfg.maxSize + cfg.maxSize / 5;
      cache := RemoveOldest(cache, entries, toRemove);
    }

    method CacheResult(key: CacheKey, entry: CacheEntry, now: nat)
      modifies this`cache
      ensures Cached(old(cache), key, entry, cfg.maxSize, now, cache)
    {
      cache := cache[key := entry];
      if |cache| > cfg.maxSize * 2 {
        CleanupCache(now);
      }
    }

    method ProcessPacketWithCacheEntry(p: PacketInfo, d: Decision, c: Clock)
      returns (r: Option<AclResult>)
      modifies this`conns, this`limiters, this`ruleStats
      ensures (Shared(conns, limiters, ruleStats), r)
           == HitSpec(Shared(old(conns), old(limiters), old(ruleStats)), d, p, c)
    {
      var i := 0;
      while i < |d.rateKeys|
        invariant i <= |d.rateKeys| && conns == old(conns) && ruleStats == old(ruleStats)
        invariant CheckRates(old(limiters), d.rateKeys, c.now)
               == CheckRates(limiters, d.rateKeys[i..], c.now)
      {
        var check := CheckRateLimit(d.rateKeys[i], 1, 1, false, c.now);
        if check.Missing? {
          return None;
        }
        if check.Limited? {
          return Some(LimitDrop(d.matchedRule));
        }
        i := i + 1;
      }
      if d.connKey.Some? {
        CheckConnectionState(d.connKey.value, p, c.wall);
      }
      IncCacheEntryStats(d.stats, p.size);
      r := Some(d.result);
    }

    /** Tracking, counting and caching for a packet that no limiter stopped. */
    method Settle(d: Decision, p: PacketInfo, t: ChainType, c: Clock)
      modifies this`conns, this`ruleStats, this`cache, this`counters
      ensures Shared(conns, limiters, ruleStats)
           == Finish(Shared(old(conns), limiters, old(ruleStats)), d, p, c.wall)
      ensures Cached(old(cache), KeyOf(p, t), CacheEntry(d, c.accessed), cfg.maxSize, c.now, cache)
      ensures counters == Bump(old(counters), DecisionCounter(d))
    {
      if d.connKey.Some? {
        CheckConnectionState(d.connKey.value, p, c.wall);
      }
      IncrementStat(if !d.matchedRule.Default? then RuleMatchCount
                    else if d.result.action == Drop then DefaultDrops else DefaultAllows);
      IncCacheEntryStats(d.stats, p.size);
      CacheResult(KeyOf(p, t), CacheEntry(d, c.accessed), c.now);
    }

    /** The body of the rule loop for the rule that matched. */
    method ProcessMatch(i: nat, p: PacketInfo, t: ChainType, c: Clock) returns (r: AclResult)
      requires t != UnspecifiedChain && KeyOf(p, t) !in cache
      requires i < |RulesOf(cfg, t)| && i == FirstMatch(RulesOf(cfg, t), p)
      modifies this
      ensures Processed(cfg, old(State()), p, t, c, State(), Some(r))
    {
      var rule := RulesOf(cfg, t)[i];
      var stat := RuleStat(t, i);
      var rateKeys, stats := [], [];
      if rule.rateLimit > 0 {
        rateKeys := rateKeys + [RateKey(t, rule.priority)];
        stats := stats + [stat];
        var check := CheckRateLimit(rateKeys[0], rule.rateLimit, rule.burstLimit, true, c.now);
        if !check.Pass? {
          return LimitDrop(Priority(rule.priority));
        }
      }
      stats := stats + [stat];
      assert stats == if rule.rateLimit > 0 then [stat, stat] else [stat];
      var d: Decision;
      if rule.stateful && rule.action == Allow {
        d := Decision(Stateful(rule.priority), Some(ConnKeyOf(p)), rateKeys, stats,
                      AclResult(Allow, Stateful(rule.priority), StatefulMatch(p.srcIp, p.dstIp)));
      } else {
        d := Decision(Priority(rule.priority), None, rateKeys, stats,
                      AclResult(rule.action, Priority(rule.priority),
                                RuleMatch(p.srcIp, p.dstIp, rule.action)));
      }
      assert d == Decide(cfg, p, t);
      Settle(d, p, t, c);
      r := d.result;
    }

    method ProcessDefault(p: PacketInfo, t: ChainType, c: Clock) returns (r: AclResult)
      requires t != UnspecifiedChain && KeyOf(p, t) !in cache
      requires FirstMatch(RulesOf(cfg, t), p) == |RulesOf(cfg, t)|
      modifies this
      ensures Processed(cfg, old(State()), p, t, c, State(), Some(r))
    {
      var action := DefaultOf(cfg, t);
      var d := Decision(Default, None, [], [DefaultStat],
                        AclResult(action, Default, if action == Drop then DefaultDrop else DefaultAllow));
      Settle(d, p, t, c);
      r := d.result;
    }

    method ProcessPacket(p: PacketInfo, t: ChainType, c: Clock) returns (r: Option<AclResult>)
      modifies this
      ensures Processed(cfg, old(State()), p, t, c, State(), r)
    {
      var key := KeyOf(p, t);
      if key in cache {
        var d := cache[key].decision;
        cache := cache[key := CacheEntry(d, c.accessed)];
        IncrementStat(CacheHits);
        r := ProcessPacketWithCacheEntry(p, d, c);
        return;
      }
      if t == UnspecifiedChain {
        return Some(UNSUPPORTED);
      }
      var rules := RulesOf(cfg, t);
      for i := 0 to |rules|
        invariant State() == old(State())
        invariant forall j :: 0 <= j < i ==> !Applies(rules[j], p)
      {
        if !rules[i].enabled || !RuleMatches(rules[i], p) {
          continue;
        }
        FirstMatchUnique(rules, p, i);
        var result := ProcessMatch(i, p, t, c);
        return Some(result);
      }
      FirstMatchUnique(rules, p, |rules|);
      var result := ProcessDefault(p, t, c);
      r := Some(result);
    }

    method SweepLimiters(now: nat)
      modifies this`limiters
      ensures limiters == FreshLimiters(old(limiters), now)
    {
      limiters := map k | k in limiters && now - limiters[k].lastUpdate < BUCKET_LIFETIME :: limiters[k];
    }

    method CleanupExpiredConnections(wall: nat)
      modifies this`conns
      ensures conns == FreshConns(old(conns), wall)
    {
      var expired := set k | k in conns && Expired(conns[k], wall);
      conns := conns - expired;
    }
  }

  const CONN_TIMEOUT := 60

  function FreshLimiters(limiters: map<RateKey, Limiter>, now: nat): map<RateKey, Limiter> {
    map k | k in limiters && now - limiters[k].lastUpdate < BUCKET_LIFETIME :: limiters[k]
  }

  /** The age is a 64-bit difference: with the wall clock set back it wraps around and is huge. */
  predicate Expired(c: ConnEntry, wall: nat) {
    (wall - c.lastSeen) % 0x1_0000_0000_0000_0000 > CONN_TIMEOUT
  }

  function FreshConns(conns: map<ConnKey, ConnEntry>, wall: nat): map<ConnKey, ConnEntry> {
    map k | k in conns && !Expired(conns[k], wall) :: conns[k]
  }

  /** A refill adds tokens up to the capacity. */
  function Refill(limiters: map<RateKey, Limiter>, key: RateKey, amount: nat): map<RateKey, Limiter>
    requires key in limiters
  {
    var l := limiters[key];
    var tokens := l.bucket.tokens + amount;
    limiters[key := l.(bucket := l.bucket.(tokens :=
                                   if tokens < l.bucket.capacity then tokens else l.bucket.capacity))]
  }

  /** The action of a scan, from the rule it found. */
  lemma ScanAction(cfg: Config, sh: Shared, p: PacketInfo, t: ChainType, c: Clock)
    requires t != UnspecifiedChain
    ensures var found, result := Found(RulesOf(cfg, t), p), ScanSpec(cfg, sh, p, t, c).1;
            && (found.None? ==> result.action == DefaultOf(cfg, t) && result.log != RateLimitDrop)
            && (found.Some? && result.log != RateLimitDrop ==> result.action == found.value.action)
            && (found.Some? && found.value.rateLimit == 0 ==> result.log != RateLimitDrop)
  {
  }
}
