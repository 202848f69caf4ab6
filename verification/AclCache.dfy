/** What the cache holds over whole runs: when an entry was last used, what puts one in and what takes one
    out. */
module AclCache {
  import opened Options
  import opened AclRules
  import opened AclProcessor
  import opened AclRuns

  /** When the latest packet with this key was looked up. */
  function LastUsed(events: seq<Event>, n: nat, key: CacheKey): Option<nat>
    requires n <= |events|
  {
    if n == 0 then None
    else
      var e := events[n - 1];
      if e.Packet? && KeyOf(e.p, e.chain) == key then Some(e.clock.accessed) else LastUsed(events, n - 1, key)
  }

  ghost predicate Dated(s: Sys, events: seq<Event>, n: nat)
    requires n <= |events|
  {
    forall k <- s.proc.cache ::
      LastUsed(events, n, k) == Some(s.proc.cache[k].lastAccess) && s.proc.cache[k].lastAccess <= s.time
  }

  /** A packet leaves the entries of other keys as they are, and its own as just used. */
  lemma PacketInCache(cfg: Config, s: Sys, e: Event, s': Sys, out: Option<AclResult>, k: CacheKey)
    requires Next(cfg, s, e, s', out) && e.Packet? && k in s'.proc.cache
    ensures if k == KeyOf(e.p, e.chain) then s'.proc.cache[k].lastAccess == e.clock.accessed
            else k in s.proc.cache && s'.proc.cache[k] == s.proc.cache[k]
  {
    var key := KeyOf(e.p, e.chain);
    if key !in s.proc.cache && e.chain != UnspecifiedChain {
      var entry := ScanSpec(cfg, s.proc.shared, e.p, e.chain, e.clock).2;
      if entry.Some? {
        CachedBound(s.proc.cache, key, entry.value, cfg.maxSize, e.clock.now, s'.proc.cache);
      }
    }
  }

  lemma OthersInCache(cfg: Config, s: Sys, e: Event, s': Sys, out: Option<AclResult>, k: CacheKey)
    requires Next(cfg, s, e, s', out) && !e.Packet? && k in s'.proc.cache
    ensures k in s.proc.cache && s'.proc.cache[k] == s.proc.cache[k] && s.time <= s'.time
  {
    if e.CleanCache? {
      CleanedSubset(s.proc.cache, cfg.maxSize, e.now, s'.proc.cache);
    }
  }

  /** In every run an entry is as old as the latest packet of its key. */
  lemma {:induction false} EntriesDated(cfg: Config, states: seq<Sys>, events: seq<Event>,
                                        outs: seq<Option<AclResult>>, n: nat)
    requires IsRun(cfg, states, events, outs) && n <= |events|
    ensures Dated(states[n], events, n)
  {
    if n > 0 {
      EntriesDated(cfg, states, events, outs, n - 1);
      assert StepAt(cfg, states, events, outs, n - 1);
      var s, e, s' := states[n - 1], events[n - 1], states[n];
      forall k | k in s'.proc.cache
        ensures LastUsed(events, n, k) == Some(s'.proc.cache[k].lastAccess)
        ensures s'.proc.cache[k].lastAccess <= s'.time
      {
        if e.Packet? {
          PacketInCache(cfg, s, e, s', outs[n - 1], k);
        } else {
          OthersInCache(cfg, s, e, s', outs[n - 1], k);
        }
      }
    }
  }

  /** The key was used within fifteen seconds of a time that leaves room for them. */
  predicate UsedLately(events: seq<Event>, n: nat, k: CacheKey, now: nat)
    requires n <= |events|
  {
    now >= 15000 && LastUsed(events, n, k).Some? && now - LastUsed(events, n, k).value < 15000
  }

  /** In every run a cleanup keeps entries of keys used within the last fifteen seconds only, and none in the
      first fifteen seconds of the clock: all such entries if they are no more than the maximum, otherwise
      four fifths of the maximum, rounded up, of those used last. */
  lemma CleanupExact(cfg: Config, states: seq<Sys>, events: seq<Event>, outs: seq<Option<AclResult>>, n: nat)
    requires IsRun(cfg, states, events, outs) && n < |events| && events[n].CleanCache?
    ensures var before, after, now := states[n].proc.cache, states[n + 1].proc.cache, events[n].now;
            var lately := set k <- before.Keys | UsedLately(events, n, k, now);
            && after.Keys <= lately && (forall k <- after :: after[k] == before[k])
            && (|lately| <= cfg.maxSize ==> after.Keys == lately)
            && (|lately| > cfg.maxSize ==>
                  && 4 * cfg.maxSize <= 5 * |after| < 4 * cfg.maxSize + 5
                  && forall gone, kept :: gone in lately && gone !in after && kept in after ==>
                       LastUsed(events, n, gone).value <= LastUsed(events, n, kept).value)
  {
    EntriesDated(cfg, states, events, outs, n);
    assert StepAt(cfg, states, events, outs, n);
    var before, now := states[n].proc.cache, events[n].now;
    var lately := set k <- before.Keys | UsedLately(events, n, k, now);
    assert Retained(before, now).Keys == lately;
    assert |Retained(before, now)| == |lately|;
  }

  /** A packet that was looked up in vain and passed is cached; nothing else leaves the cache unless it already
      held twice its maximum. */
  lemma MissCaches(cfg: Config, states: seq<Sys>, events: seq<Event>, outs: seq<Option<AclResult>>, n: nat)
    requires IsRun(cfg, states, events, outs) && n < |events|
    requires events[n].Packet? && events[n].chain != UnspecifiedChain
    requires KeyOf(events[n].p, events[n].chain) !in states[n].proc.cache
    requires |states[n].proc.cache| < 2 * cfg.maxSize
    ensures var e, before, after := events[n], states[n].proc.cache, states[n + 1].proc.cache;
            && outs[n].Some?
            && after.Keys == before.Keys + (if outs[n].value.log == RateLimitDrop then {} else {KeyOf(e.p, e.chain)})
            && forall k <- before :: k in after && after[k] == before[k]
  {
    assert StepAt(cfg, states, events, outs, n);
  }
}
