/** Laws of the side effects of a decision: counters, tracked connections and rate limits. */
module AclLaws {
  import opened Options
  import opened AclRules
  import opened AclProcessor
  import opened AclRuns

  function StatOf(stats: map<StatHandle, Stat>, h: StatHandle): Stat {
    if h in stats then stats[h] else Stat(0, 0)
  }

  /** Each handle is counted as often as it is listed. */
  lemma {:induction false} CountAdds(stats: map<StatHandle, Stat>, handles: seq<StatHandle>, size: nat,
                                     h: StatHandle)
    ensures var before, after := StatOf(stats, h), StatOf(Count(stats, handles, size), h);
            && after.packets == before.packets + multiset(handles)[h]
            && after.bytes == before.bytes + multiset(handles)[h] * size
  {
    if handles != [] {
      var init, last := handles[..|handles| - 1], handles[|handles| - 1];
      CountAdds(stats, init, size, h);
      assert handles == init + [last];
      assert (multiset(init)[h] + 1) * size == multiset(init)[h] * size + size;
    }
  }

  /** How often a passing packet counts for a handle: for the rule it matched once or twice, for the
      default once when it matched none. */
  function Share(cfg: Config, p: PacketInfo, t: ChainType, h: StatHandle): nat {
    var rules := RulesOf(cfg, t);
    var i := FirstMatch(rules, p);
    match h
    case RuleStat(u, j) => if u != t || j != i || i == |rules| then 0 else if rules[i].rateLimit > 0 then 2 else 1
    case DefaultStat => if i == |rules| then 1 else 0
  }

  lemma ShareOfDecision(cfg: Config, p: PacketInfo, t: ChainType, h: StatHandle)
    ensures multiset(Decide(cfg, p, t).stats)[h] == Share(cfg, p, t, h)
  {
    var rules := RulesOf(cfg, t);
    var k := FirstMatch(rules, p);
    if k < |rules| {
      var stat := RuleStat(t, k);
      assert Decide(cfg, p, t).stats == if rules[k].rateLimit > 0 then [stat, stat] else [stat];
    } else {
      assert Decide(cfg, p, t).stats == [DefaultStat];
    }
  }

  lemma PassingCounts(cfg: Config, sh: Shared, p: PacketInfo, t: ChainType, c: Clock)
    requires t != UnspecifiedChain && ScanSpec(cfg, sh, p, t, c).1.log != RateLimitDrop
    ensures ScanSpec(cfg, sh, p, t, c).0.ruleStats
         == Count(sh.ruleStats, Decide(cfg, p, t).stats, p.size)
  {
  }

  /** A packet that passes counts once for an unlimited rule and twice for a rate-limited one, in packets
      and in bytes, and for no other rule of any chain. */
  lemma PacketCounts(cfg: Config, sh: Shared, p: PacketInfo, t: ChainType, c: Clock, h: StatHandle)
    requires t != UnspecifiedChain && ScanSpec(cfg, sh, p, t, c).1.log != RateLimitDrop
    ensures var before, after := StatOf(sh.ruleStats, h), StatOf(ScanSpec(cfg, sh, p, t, c).0.ruleStats, h);
            && after.packets == before.packets + Share(cfg, p, t, h)
            && after.bytes == before.bytes + Share(cfg, p, t, h) * p.size
  {
    PassingCounts(cfg, sh, p, t, c);
    ShareOfDecision(cfg, p, t, h);
    CountAdds(sh.ruleStats, Decide(cfg, p, t).stats, p.size, h);
  }

  // --- The processor's own counters ---

  function CounterOf(counters: map<StatKey, nat>, key: StatKey): nat {
    if key in counters then counters[key] else 0
  }

  /** What a packet counts as, from what its caller sees: a hit, or what the log says about a miss. */
  function CountsAs(s: Sys, e: Event, out: Option<AclResult>): Option<StatKey> {
    if !e.Packet? then None
    else if KeyOf(e.p, e.chain) in s.proc.cache then Some(CacheHits)
    else if out.None? then None
    else LogCounts(out.value.log)
  }

  function LogCounts(log: LogContext): Option<StatKey> {
    match log
    case StatefulMatch(_, _) => Some(RuleMatchCount)
    case RuleMatch(_, _, _) => Some(RuleMatchCount)
    case DefaultDrop => Some(DefaultDrops)
    case DefaultAllow => Some(DefaultAllows)
    case UnsupportedChainType => None
    case RateLimitDrop => None
  }

  /** How many of the first n events of a run count as the key. */
  function Tally(states: seq<Sys>, events: seq<Event>, outs: seq<Option<AclResult>>, n: nat, key: StatKey): nat
    requires n <= |events| == |outs| && |states| == |events| + 1
  {
    if n == 0 then 0
    else
      Tally(states, events, outs, n - 1, key)
      + if CountsAs(states[n - 1], events[n - 1], outs[n - 1]) == Some(key) then 1 else 0
  }

  lemma StepCounts(cfg: Config, s: Sys, e: Event, s': Sys, out: Option<AclResult>, key: StatKey)
    requires Next(cfg, s, e, s', out)
    ensures CounterOf(s'.proc.counters, key)
         == CounterOf(s.proc.counters, key) + if CountsAs(s, e, out) == Some(key) then 1 else 0
  {
    if e.Packet? && KeyOf(e.p, e.chain) !in s.proc.cache && e.chain != UnspecifiedChain {
      MissCounts(cfg, s.proc.shared, e.p, e.chain, e.clock);
    }
  }

  /** What a miss is counted as is what its log says. */
  lemma MissCounts(cfg: Config, sh: Shared, p: PacketInfo, t: ChainType, c: Clock)
    requires t != UnspecifiedChain
    ensures var (_, result, entry) := ScanSpec(cfg, sh, p, t, c);
            LogCounts(result.log) == if entry.Some? then Some(DecisionCounter(entry.value.decision)) else None
  {
  }

  /** In every run each counter is the number of packets that were what it counts: hits of the cache,
      misses that matched a rule, and misses that fell to the default and were dropped or allowed. */
  lemma {:induction false} CountersTally(cfg: Config, states: seq<Sys>, events: seq<Event>,
                                         outs: seq<Option<AclResult>>, n: nat, key: StatKey)
    requires IsRun(cfg, states, events, outs) && n <= |events|
    ensures CounterOf(states[n].proc.counters, key) == Tally(states, events, outs, n, key)
  {
    if n > 0 {
      CountersTally(cfg, states, events, outs, n - 1, key);
      assert StepAt(cfg, states, events, outs, n - 1);
      StepCounts(cfg, states[n - 1], events[n - 1], states[n], outs[n - 1], key);
    }
  }

  // --- Connections ---

  /** The tracking table after a sequence of packets of one connection, each with its time. */
  function TrackAll(conns: map<ConnKey, ConnEntry>, packets: seq<(PacketInfo, nat)>): map<ConnKey, ConnEntry> {
    if packets == [] then conns
    else
      var (p, wall) := packets[|packets| - 1];
      Track(TrackAll(conns, packets[..|packets| - 1]), ConnKeyOf(p), p, wall)
  }

  function Bytes(packets: seq<(PacketInfo, nat)>): nat {
    if packets == [] then 0 else Bytes(packets[..|packets| - 1]) + packets[|packets| - 1].0.size
  }

  /** A connection is new with its first packet and established from the second on; it dates from the
      first, was last seen with the last, and counts them all. */
  lemma {:induction false} TrackedConnection(packets: seq<(PacketInfo, nat)>, key: ConnKey)
    requires packets != [] && forall i :: 0 <= i < |packets| ==> ConnKeyOf(packets[i].0) == key
    ensures TrackAll(map[], packets)
         == map[key := ConnEntry(key, packets[0].0.protocol, if |packets| == 1 then New else Established,
                                 packets[0].1, packets[|packets| - 1].1, |packets|, Bytes(packets))]
  {
    var m := |packets| - 1;
    if m > 0 {
      TrackedConnection(packets[..m], key);
    } else {
      assert packets[..0] == [];
    }
  }

  // --- Rate limits ---

  /** What happens to one limiter: a packet asks, or a refill arrives. */
  datatype Use = Ask(now: nat) | Gain(amount: nat)

  /** Limiters and the number of packets passed after a sequence of uses of one key. */
  function UseAll(limiters: map<RateKey, Limiter>, key: RateKey, rate: nat, burst: nat, uses: seq<Use>)
    : (map<RateKey, Limiter>, nat)
  {
    if uses == [] then (limiters, 0)
    else
      var (before, passed) := UseAll(limiters, key, rate, burst, uses[..|uses| - 1]);
      match uses[|uses| - 1]
      case Ask(now) =>
        var (after, check) := CheckRate(before, key, rate, burst, true, now);
        (after, passed + if check.Pass? then 1 else 0)
      case Gain(amount) => (RefillSpec(before, key, amount), passed)
  }

  function Gained(uses: seq<Use>): nat {
    if uses == [] then 0
    else Gained(uses[..|uses| - 1]) + match uses[|uses| - 1] case Ask(_) => 0 case Gain(amount) => amount
  }

  /** Every refill gives back no more than has been taken. */
  ghost predicate Fits(key: RateKey, rate: nat, burst: nat, uses: seq<Use>) {
    uses != [] ==>
      && Fits(key, rate, burst, uses[..|uses| - 1])
      && (uses[|uses| - 1].Gain? ==> Gained(uses) <= UseAll(map[], key, rate, burst, uses[..|uses| - 1]).1)
  }

  /** No more packets of a limited rule pass than its burst and the refills together allow, and exactly as
      many are still to come as its bucket has tokens, as long as no refill is more than what was taken. */
  lemma {:induction false} PassesBounded(key: RateKey, rate: nat, burst: nat, uses: seq<Use>)
    requires rate > 0
    ensures var (limiters, passed) := UseAll(map[], key, rate, burst, uses);
            && passed <= burst + Gained(uses)
            && (Fits(key, rate, burst, uses) ==> Gained(uses) <= passed)
            && (key in limiters <==> exists u <- uses :: u.Ask?)
            && (key in limiters ==>
                  && limiters[key].bucket.capacity == burst
                  && limiters[key].bucket.tokens <= burst
                  && passed + limiters[key].bucket.tokens <= burst + Gained(uses)
                  && (Fits(key, rate, burst, uses) ==>
                        passed + limiters[key].bucket.tokens == burst + Gained(uses)))
            && (key !in limiters ==> passed == 0)
  {
    if uses != [] {
      var init, last := uses[..|uses| - 1], uses[|uses| - 1];
      PassesBounded(key, rate, burst, init);
      assert uses == init + [last];
    }
  }

  /** A refill that is more than what was taken leaves the bucket full. */
  lemma OverfullRefill(limiters: map<RateKey, Limiter>, key: RateKey, amount: nat)
    requires key in limiters && limiters[key].bucket.tokens <= limiters[key].bucket.capacity
    ensures var before, after := limiters[key].bucket, RefillSpec(limiters, key, amount);
            && key in after && after == limiters[key := after[key]]
            && after[key].lastUpdate == limiters[key].lastUpdate
            && after[key].bucket.capacity == before.capacity && after[key].bucket.rate == before.rate
            && (after[key].bucket.tokens == before.tokens + amount
                || (after[key].bucket.tokens == before.capacity && before.tokens + amount > before.capacity))
  {
  }
}
