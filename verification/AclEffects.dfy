/** What packets are decided and what they do to limiters and connections, said about the configured rules
    and about what callers see. */
module AclEffects {
  import opened Options
  import opened AclRules
  import opened AclProcessor
  import opened AclRuns
  import opened AclLaws

  // --- One packet against the rule the configuration chooses ---

  /** Tokens there are for a limited rule: those of its bucket, or its burst when it has none yet. */
  function Left(limiters: map<RateKey, Limiter>, t: ChainType, r: Rule): nat {
    var key := RateKey(t, r.priority);
    if key in limiters then limiters[key].bucket.tokens else r.burstLimit
  }

  /** The rule drops a packet for want of a token. */
  predicate Limits(limiters: map<RateKey, Limiter>, t: ChainType, r: Rule) {
    r.rateLimit > 0 && Left(limiters, t, r) == 0
  }

  predicate Tracks(r: Rule) {
    r.stateful && r.action == Allow
  }

  /** What a packet gets from a rule that does not drop it for want of a token. */
  function ResultOf(r: Rule, p: PacketInfo): AclResult {
    if Tracks(r) then AclResult(Allow, Stateful(r.priority), StatefulMatch(p.srcIp, p.dstIp))
    else AclResult(r.action, Priority(r.priority), RuleMatch(p.srcIp, p.dstIp, r.action))
  }

  /** No bucket holds more than its capacity. */
  ghost predicate Filled(limiters: map<RateKey, Limiter>) {
    forall key <- limiters :: limiters[key].bucket.tokens <= limiters[key].bucket.capacity
  }

  /** Nothing but this key changed, and this key is there now. */
  ghost predicate OnlyAt<K(!new), V>(before: map<K, V>, after: map<K, V>, key: K) {
    key in after && forall k :: k != key ==> (k in after <==> k in before) && (k in before ==> after[k] == before[k])
  }

  /** An unlimited rule touches no bucket; a limited one takes a token out of its own if there is one, and
      marks it used. */
  ghost predicate BucketTaken(r: Rule, t: ChainType, before: map<RateKey, Limiter>,
                              after: map<RateKey, Limiter>, now: nat) {
    if r.rateLimit == 0 then after == before
    else
      var key, left := RateKey(t, r.priority), Left(before, t, r);
      && OnlyAt(before, after, key)
      && after[key].lastUpdate == now
      && after[key].bucket.tokens == (if left > 0 then left - 1 else 0)
      && (key in before ==> after[key].bucket.capacity == before[key].bucket.capacity
                            && after[key].bucket.rate == before[key].bucket.rate)
      && (key !in before ==> after[key].bucket.capacity == r.burstLimit && after[key].bucket.rate == r.rateLimit)
  }

  /** The packet was noted as one of its connection, and nothing else. */
  ghost predicate Noted(before: map<ConnKey, ConnEntry>, after: map<ConnKey, ConnEntry>, p: PacketInfo, wall: nat) {
    var key := ConnKeyOf(p);
    && OnlyAt(before, after, key)
    && after[key].lastSeen == wall
    && (key in before ==>
          && after[key] == before[key].(state := Established, lastSeen := wall,
                                        packets := before[key].packets + 1, bytes := before[key].bytes + p.size))
    && (key !in before ==> after[key] == ConnEntry(key, p.protocol, New, wall, wall, 1, p.size))
  }

  /** Everything this rule does with a packet. */
  ghost predicate DoneBy(r: Rule, t: ChainType, p: PacketInfo, c: Clock, before: Shared, after: Shared,
                         result: AclResult) {
    && (result.log == RateLimitDrop <==> Limits(before.limiters, t, r))
    && (if Limits(before.limiters, t, r) then result.action == Drop else result == ResultOf(r, p))
    && BucketTaken(r, t, before.limiters, after.limiters, c.now)
    && (if Tracks(r) && !Limits(before.limiters, t, r) then Noted(before.conns, after.conns, p, c.wall)
        else after.conns == before.conns)
  }

  /** Everything the default does with a packet. */
  ghost predicate DoneByDefault(action: Action, before: Shared, after: Shared, result: AclResult) {
    && result == AclResult(action, Default, if action == Drop then DefaultDrop else DefaultAllow)
    && after.limiters == before.limiters && after.conns == before.conns
  }

  ghost predicate DoneAsConfigured(chains: seq<Chain>, t: ChainType, p: PacketInfo, c: Clock, before: Shared,
                                   after: Shared, result: AclResult) {
    if NothingChosen(chains, t, p) then DoneByDefault(DefaultFor(chains, t), before, after, result)
    else exists ch: nat, r: nat ::
           Chosen(chains, t, p, ch, r) && DoneBy(chains[ch].rules[r], t, p, c, before, after, result)
  }

  /** The scan with the rule it found does what the configured rule says. */
  lemma ScanDoes(cfg: Config, sh: Shared, p: PacketInfo, t: ChainType, c: Clock, r: Rule)
    requires t != UnspecifiedChain && Filled(sh.limiters)
    requires Found(RulesOf(cfg, t), p) == Some(ConvertRule(r))
    ensures var (after, result, _) := ScanSpec(cfg, sh, p, t, c);
            DoneBy(r, t, p, c, sh, after, result) && Filled(after.limiters)
  {
    var key := RateKey(t, r.priority);
    TakeToken(sh.limiters, t, r, c.now);
    NoteConnection(sh.conns, p, c.wall);
  }

  lemma TakeToken(limiters: map<RateKey, Limiter>, t: ChainType, r: Rule, now: nat)
    requires Filled(limiters)
    ensures var (after, check) := CheckRate(limiters, RateKey(t, r.priority), r.rateLimit, r.burstLimit, true, now);
            && check == (if Limits(limiters, t, r) then Limited else Pass)
            && BucketTaken(r, t, limiters, after, now) && Filled(after)
  {
  }

  lemma NoteConnection(conns: map<ConnKey, ConnEntry>, p: PacketInfo, wall: nat)
    ensures Noted(conns, Track(conns, ConnKeyOf(p), p, wall), p, wall)
  {
  }

  lemma ScanDefaults(cfg: Config, sh: Shared, p: PacketInfo, t: ChainType, c: Clock)
    requires t != UnspecifiedChain && Found(RulesOf(cfg, t), p).None?
    ensures var (after, result, _) := ScanSpec(cfg, sh, p, t, c);
            DoneByDefault(DefaultOf(cfg, t), sh, after, result)
  {
  }

  /** A scan drops the packet for want of a token exactly when the rule the configuration chooses is limited
      and has none left, and otherwise gives the result of that rule, or the default when it chooses none; it
      takes one token from the bucket of that rule and from no other, and notes the connection of the packet
      exactly when that rule is stateful and allows it. */
  lemma ActionFromConfiguration(chains: seq<Chain>, maxSize: nat, sh: Shared, p: PacketInfo,
                                t: ChainType, c: Clock)
    requires t != UnspecifiedChain && Filled(sh.limiters)
    ensures var (after, result, _) := ScanSpec(ConfigOf(chains, maxSize), sh, p, t, c);
            DoneAsConfigured(chains, t, p, c, sh, after, result) && Filled(after.limiters)
  {
    var cfg := ConfigOf(chains, maxSize);
    var ch, r := RuleOrder(chains, t, p);
    assert RulesOf(cfg, t) == RulesFor(chains, t) && DefaultOf(cfg, t) == DefaultFor(chains, t);
    if NothingChosen(chains, t, p) {
      ScanDefaults(cfg, sh, p, t, c);
    } else {
      ScanDoes(cfg, sh, p, t, c, chains[ch].rules[r]);
    }
  }

  // --- Through the cache ---

  lemma ReferenceKeepsFilled(cfg: Config, sh: Shared, e: Event)
    requires Filled(sh.limiters)
    ensures Filled(ReferenceStep(cfg, sh, e).0.limiters)
  {
  }

  lemma {:induction false} ReferenceFilled(cfg: Config, events: seq<Event>)
    ensures Filled(ReferenceState(cfg, events).limiters)
  {
    if events != [] {
      ReferenceFilled(cfg, events[..|events| - 1]);
      ReferenceKeepsFilled(cfg, ReferenceState(cfg, events[..|events| - 1]), events[|events| - 1]);
    }
  }

  /** Through the cache: every packet of a run is decided, and limiters and connections change, as the rule
      the configuration chooses says, with the buckets as they are before the packet. A chain of unspecified
      type drops and changes nothing. */
  lemma RunActionFromConfiguration(chains: seq<Chain>, maxSize: nat, delay: nat,
                                   presence: CacheKey -> Presence, states: seq<Sys>, events: seq<Event>,
                                   outs: seq<Option<AclResult>>, i: nat)
    requires IsRun(ConfigOf(chains, maxSize), states, events, outs)
    requires delay <= SWEEP_DELAY && Disciplined(delay, presence, states, events)
    requires i < |events| && events[i].Packet?
    ensures var e, before, after := events[i], states[i].proc.shared, states[i + 1].proc.shared;
            && outs[i].Some?
            && if e.chain == UnspecifiedChain
               then outs[i].value == AclResult(Drop, Default, UnsupportedChainType) && after == before
               else DoneAsConfigured(chains, e.chain, e.p, e.clock, before, after, outs[i].value)
  {
    var cfg, e := ConfigOf(chains, maxSize), events[i];
    var sh := ReferenceState(cfg, events[..i]);
    CacheRefinement(cfg, delay, presence, states, events, outs);
    ReferenceSnoc(cfg, events, i, sh, ReferenceStep(cfg, sh, e).0);
    assert states[i].proc.shared == sh && states[i + 1].proc.shared == ReferenceStep(cfg, sh, e).0;
    assert Agrees(outs[i], ReferenceStep(cfg, sh, e).1);
    if e.chain != UnspecifiedChain {
      ReferenceFilled(cfg, events[..i]);
      ActionFromConfiguration(chains, maxSize, sh, e.p, e.chain, e.clock);
    }
  }

  // --- Connections over whole runs, from what callers see ---

  /** A connection last seen then is too old for a sweep now: by more than a minute, or by a clock set back,
      unless so far that the 64-bit difference comes out small again. */
  predicate Stale(lastSeen: nat, wall: nat) {
    if lastSeen <= wall then wall - lastSeen > 60 else lastSeen - wall < 0x1_0000_0000_0000_0000 - 60
  }

  lemma ExpiredExact(c: ConnEntry, wall: nat)
    requires c.lastSeen < 0x1_0000_0000_0000_0000 && wall < 0x1_0000_0000_0000_0000
    ensures Expired(c, wall) <==> Stale(c.lastSeen, wall)
  {
    if wall < c.lastSeen {
      assert (wall - c.lastSeen) % 0x1_0000_0000_0000_0000 == wall - c.lastSeen + 0x1_0000_0000_0000_0000;
    }
  }

  /** Callers see that the packet was allowed as one of its connection. */
  predicate SeenTracked(e: Event, out: Option<AclResult>, key: ConnKey) {
    e.Packet? && out.Some? && out.value.log.StatefulMatch? && ConnKeyOf(e.p) == key
  }

  /** The packets of a connection since it was last swept away, each with its time. */
  function Followed(events: seq<Event>, outs: seq<Option<AclResult>>, n: nat, key: ConnKey): seq<(PacketInfo, nat)>
    requires n <= |events| == |outs|
  {
    if n == 0 then []
    else
      var before, e := Followed(events, outs, n - 1, key), events[n - 1];
      if SeenTracked(e, outs[n - 1], key) then before + [(e.p, e.clock.wall)]
      else if e.SweepConns? && before != [] && Stale(before[|before| - 1].1, e.wall) then []
      else before
  }

  /** Wall-clock readings are 64-bit counts of seconds. */
  predicate ShortWall(e: Event) {
    && (e.Packet? ==> e.clock.wall < 0x1_0000_0000_0000_0000)
    && (e.SweepConns? ==> e.wall < 0x1_0000_0000_0000_0000)
  }

  /** The entry a connection should have after these packets, if it should have one. */
  ghost predicate Kept(conns: map<ConnKey, ConnEntry>, key: ConnKey, packets: seq<(PacketInfo, nat)>) {
    && (forall i :: 0 <= i < |packets| ==> ConnKeyOf(packets[i].0) == key)
    && (key in conns <==> packets != [])
    && (packets != [] ==>
          var last := packets[|packets| - 1];
          && last.1 < 0x1_0000_0000_0000_0000
          && conns[key] == ConnEntry(key, packets[0].0.protocol, if |packets| == 1 then New else Established,
                                     packets[0].1, last.1, |packets|, Bytes(packets)))
  }

  /** A cached decision notes a connection exactly when it says so, and then that of every packet of its key. */
  ghost predicate Candid(s: Sys) {
    forall k <- s.proc.cache :: CandidAbout(k, s.proc.cache[k].decision)
  }

  ghost predicate CandidAbout(k: CacheKey, d: Decision) {
    && (d.connKey.Some? <==> d.result.log.StatefulMatch?)
    && (d.connKey.Some? ==> d.connKey.value == ConnKey(k.srcIp, k.srcPort, k.dstIp, k.dstPort))
  }

  lemma DecisionCandid(cfg: Config, p: PacketInfo, t: ChainType)
    ensures CandidAbout(KeyOf(p, t), Decide(cfg, p, t))
  {
  }

  lemma StepKeepsCandid(cfg: Config, s: Sys, e: Event, s': Sys, out: Option<AclResult>)
    requires Candid(s) && Next(cfg, s, e, s', out)
    ensures Candid(s')
  {
    match e
    case Packet(p, t, c) =>
      var key := KeyOf(p, t);
      if key !in s.proc.cache && t != UnspecifiedChain {
        DecisionCandid(cfg, p, t);
        var entry := ScanSpec(cfg, s.proc.shared, p, t, c).2;
        if entry.Some? {
          CachedBound(s.proc.cache, key, entry.value, cfg.maxSize, c.now, s'.proc.cache);
        }
      }
    case CleanCache(now) => CleanedSubset(s.proc.cache, cfg.maxSize, now, s'.proc.cache);
    case _ =>
  }

  /** What a packet does to the table of connections, by its log. */
  lemma PacketNotes(cfg: Config, s: Sys, e: Event, s': Sys, out: Option<AclResult>)
    requires Candid(s) && Next(cfg, s, e, s', out) && e.Packet?
    ensures s'.proc.shared.conns == if SeenTracked(e, out, ConnKeyOf(e.p))
                                    then Track(s.proc.shared.conns, ConnKeyOf(e.p), e.p, e.clock.wall)
                                    else s.proc.shared.conns
  {
    var key := KeyOf(e.p, e.chain);
    if key in s.proc.cache {
      assert CandidAbout(key, s.proc.cache[key].decision);
    } else if e.chain != UnspecifiedChain {
      DecisionCandid(cfg, e.p, e.chain);
    }
  }

  lemma KeptTrack(conns: map<ConnKey, ConnEntry>, p: PacketInfo, wall: nat, key: ConnKey,
                  packets: seq<(PacketInfo, nat)>)
    requires Kept(conns, key, packets) && wall < 0x1_0000_0000_0000_0000
    ensures Kept(Track(conns, ConnKeyOf(p), p, wall), key,
                 if ConnKeyOf(p) == key then packets + [(p, wall)] else packets)
  {
    var more := packets + [(p, wall)];
    assert more[..|packets|] == packets;
    assert Bytes(more) == Bytes(packets) + p.size;
  }

  lemma KeptStep(cfg: Config, s: Sys, e: Event, s': Sys, out: Option<AclResult>, key: ConnKey,
                 packets: seq<(PacketInfo, nat)>)
    requires Candid(s) && Next(cfg, s, e, s', out) && ShortWall(e) && Kept(s.proc.shared.conns, key, packets)
    ensures Kept(s'.proc.shared.conns, key,
                 if SeenTracked(e, out, key) then packets + [(e.p, e.clock.wall)]
                 else if e.SweepConns? && packets != [] && Stale(packets[|packets| - 1].1, e.wall) then []
                 else packets)
  {
    if e.Packet? {
      PacketNotes(cfg, s, e, s', out);
      if SeenTracked(e, out, ConnKeyOf(e.p)) {
        KeptTrack(s.proc.shared.conns, e.p, e.clock.wall, key, packets);
      }
    } else if e.SweepConns? && packets != [] {
      ExpiredExact(s.proc.shared.conns[key], e.wall);
    }
  }

  /** In every run, whatever its sweeps and ports, a connection is in the table if and only if callers have
      seen a packet of it allowed as such since a sweep last found it stale; its entry dates from the first of
      these packets, was last seen with the last, is established from the second on, and counts them all. */
  lemma {:induction false} ConnectionHistory(cfg: Config, states: seq<Sys>, events: seq<Event>,
                                             outs: seq<Option<AclResult>>, n: nat, key: ConnKey)
    requires IsRun(cfg, states, events, outs) && n <= |events|
    requires forall e <- events :: ShortWall(e)
    ensures Candid(states[n])
    ensures Kept(states[n].proc.shared.conns, key, Followed(events, outs, n, key))
  {
    if n > 0 {
      ConnectionHistory(cfg, states, events, outs, n - 1, key);
      assert StepAt(cfg, states, events, outs, n - 1);
      StepKeepsCandid(cfg, states[n - 1], events[n - 1], states[n], outs[n - 1]);
      assert events[n - 1] in events;
      KeptStep(cfg, states[n - 1], events[n - 1], states[n], outs[n - 1], key, Followed(events, outs, n - 1, key));
    }
  }
}
