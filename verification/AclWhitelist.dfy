/** The inbound chain generated from port whitelists, and what it means for packets. */
module AclWhitelist {
  import opened Options
  import opened PortSpecs
  import opened AclRules
  import opened AclProcessor
  import opened AclRuns
  import opened AclEffects

  /** A configuration; without a first version it holds no chains. */
  datatype Acl = Acl(v1: Option<seq<Chain>>)

  function Chains(acl: Option<Acl>): seq<Chain> {
    if acl.Some? && acl.value.v1.Some? then acl.value.v1.value else []
  }

  function WhitelistRule(protocol: Protocol, ports: seq<string>, priority: nat, stateful: bool): Rule {
    Rule(priority, true, protocol, ports, [], [], [], Allow, 0, 0, stateful, {}, {})
  }

  /** `priority -= 1` on a 32-bit number, as a release build performs it. */
  function Below(priority: nat): nat {
    if priority == 0 then 0xFFFF_FFFF else priority - 1
  }

  /** The chain for two acceptable whitelists. */
  ghost function WhitelistChain(tcp: seq<string>, udp: seq<string>, priority: nat): Chain
    requires AllAccepted(tcp) && AllAccepted(udp)
  {
    var tcpRules := if tcp == [] then [] else [WhitelistRule(Tcp, Texts(tcp), priority, true)];
    var udpPriority := if tcp == [] then priority else Below(priority);
    var udpRules := if udp == [] then [] else [WhitelistRule(Udp, Texts(udp), udpPriority, false)];
    Chain(Inbound, true, tcpRules + udpRules, Drop)
  }

  class AclRuleBuilder {
    var acl: Option<Acl>
    const tcpWhitelist: seq<string>
    const udpWhitelist: seq<string>
    const whitelistPriority: Option<nat>

    constructor (acl: Option<Acl>, tcp: seq<string>, udp: seq<string>, priority: Option<nat>)
      ensures this.acl == acl && tcpWhitelist == tcp && udpWhitelist == udp
      ensures whitelistPriority == priority
    {
      this.acl, tcpWhitelist, udpWhitelist, whitelistPriority := acl, tcp, udp, priority;
    }

    /** A bad entry is an error that leaves the configuration alone; otherwise the chain goes behind
        the configured ones. */
    method GenerateAclFromWhitelists() returns (ok: bool)
      modifies this
      ensures ok <==> AllAccepted(tcpWhitelist) && AllAccepted(udpWhitelist)
      ensures !ok || (tcpWhitelist == [] && udpWhitelist == []) ==> acl == old(acl)
      ensures ok && (tcpWhitelist != [] || udpWhitelist != []) ==>
                && acl.Some? && acl.value.v1.Some?
                && Chains(acl) == Chains(old(acl)) + [WhitelistChain(tcpWhitelist, udpWhitelist,
                     if whitelistPriority.Some? then whitelistPriority.value else 1000)]
    {
      if tcpWhitelist == [] && udpWhitelist == [] {
        return true;
      }
      var rules: seq<Rule> := [];
      var priority := if whitelistPriority.Some? then whitelistPriority.value else 1000;
      if tcpWhitelist != [] {
        var ports := ParsePortList(tcpWhitelist);
        if ports.None? {
          return false;
        }
        rules := rules + [WhitelistRule(Tcp, ports.value, priority, true)];
        priority := Below(priority);
      }
      if udpWhitelist != [] {
        var ports := ParsePortList(udpWhitelist);
        if ports.None? {
          return false;
        }
        rules := rules + [WhitelistRule(Udp, ports.value, priority, false)];
      }
      var chain := Chain(Inbound, true, rules, Drop);
      assert rules == WhitelistChain(tcpWhitelist, udpWhitelist,
                                     if whitelistPriority.Some? then whitelistPriority.value else 1000).rules;
      if acl.None? {
        acl := Some(Acl(None));
      }
      acl := Some(Acl(Some((if acl.value.v1.Some? then acl.value.v1.value else []) + [chain])));
      ok := true;
    }
  }

  // --- The meaning of the chain ---

  /** The ranges the specifications were accepted as. */
  ghost function Ranges(specs: seq<string>): (r: seq<PortRange>)
    requires AllAccepted(specs)
    ensures |r| == |specs|
  {
    if specs == [] then []
    else Ranges(specs[..|specs| - 1]) + [Accepted(specs[|specs| - 1]).value.1]
  }

  /** The port lies in a listed range. */
  ghost predicate Listed(specs: seq<string>, port: nat)
    requires AllAccepted(specs)
  {
    exists r <- Ranges(specs) :: r.start <= port <= r.end
  }

  /** What the whitelists are for: the protocol has a list, and a packet that names a destination port
      names a listed one. */
  ghost predicate Permitted(tcp: seq<string>, udp: seq<string>, p: PacketInfo)
    requires AllAccepted(tcp) && AllAccepted(udp)
  {
    || (p.protocol == Tcp && tcp != [] && (p.dstPort.None? || Listed(tcp, p.dstPort.value)))
    || (p.protocol == Udp && udp != [] && (p.dstPort.None? || Listed(udp, p.dstPort.value)))
  }

  lemma ParseRangesSnoc(texts: seq<string>, last: string, r: PortRange)
    requires ParsePortRange(last) == Some(r)
    ensures ParseRanges(texts + [last]) == ParseRanges(texts) + [r]
  {
    assert (texts + [last])[..|texts|] == texts;
  }

  /** Every accepted specification becomes exactly one range of the rule. */
  lemma {:induction false} RangesOfTexts(specs: seq<string>)
    requires AllAccepted(specs)
    ensures ParseRanges(Texts(specs)) == Ranges(specs)
  {
    if specs != [] {
      var n := |specs| - 1;
      RangesOfTexts(specs[..n]);
      AcceptedReadsBack(specs[n]);
      ParseRangesSnoc(Texts(specs[..n]), Accepted(specs[n]).value.0, Accepted(specs[n]).value.1);
    }
  }

  lemma WhitelistRuleMatches(protocol: Protocol, specs: seq<string>, priority: nat, stateful: bool,
                             p: PacketInfo)
    requires AllAccepted(specs) && specs != [] && protocol != Any
    ensures RuleMatches(ConvertRule(WhitelistRule(protocol, Texts(specs), priority, stateful)), p)
       <==> p.protocol == protocol && (p.dstPort.None? || Listed(specs, p.dstPort.value))
  {
    RangesOfTexts(specs);
    var ranges := ParseRanges(Texts(specs));
    if p.dstPort.Some? {
      assert PortMatches(ranges, p.dstPort) <==> Listed(specs, p.dstPort.value);
    }
  }

  lemma WhitelistRuleAdmits(protocol: Protocol, specs: seq<string>, priority: nat, stateful: bool,
                            p: PacketInfo)
    requires AllAccepted(specs) && specs != [] && protocol != Any
    ensures Admits(WhitelistRule(protocol, Texts(specs), priority, stateful), p)
       <==> p.protocol == protocol && (p.dstPort.None? || Listed(specs, p.dstPort.value))
  {
    WhitelistRuleMatches(protocol, specs, priority, stateful, p);
    ConversionFaithful(WhitelistRule(protocol, Texts(specs), priority, stateful), p);
  }

  /** Up to two enabled rules, and whether one of them is eligible. */
  lemma UpToTwoRules(first: seq<Rule>, second: seq<Rule>, p: PacketInfo)
    requires |first| <= 1 && |second| <= 1
    requires (first != [] ==> first[0].enabled) && (second != [] ==> second[0].enabled)
    ensures NoneIn(first + second, p)
       <==> (first != [] ==> !Admits(first[0], p)) && (second != [] ==> !Admits(second[0], p))
  {
    var rules := first + second;
    if first != [] {
      assert rules[0] == first[0];
      assert Eligible(rules, 0, p) <==> Admits(first[0], p);
    }
    if second != [] {
      assert rules[|first|] == second[0];
      assert Eligible(rules, |first|, p) <==> Admits(second[0], p);
    }
  }

  /** Some rule of the chain is eligible exactly for the permitted packets, and every rule allows. */
  lemma ChainMeaning(tcp: seq<string>, udp: seq<string>, priority: nat, p: PacketInfo)
    requires AllAccepted(tcp) && AllAccepted(udp)
    ensures var rules := WhitelistChain(tcp, udp, priority).rules;
            && (forall r <- rules :: r.action == Allow && r.rateLimit == 0)
            && (NoneIn(rules, p) <==> !Permitted(tcp, udp, p))
  {
    var udpPriority := if tcp == [] then priority else Below(priority);
    var tcpRules := if tcp == [] then [] else [WhitelistRule(Tcp, Texts(tcp), priority, true)];
    var udpRules := if udp == [] then [] else [WhitelistRule(Udp, Texts(udp), udpPriority, false)];
    UpToTwoRules(tcpRules, udpRules, p);
    if tcp != [] {
      WhitelistRuleAdmits(Tcp, tcp, priority, true, p);
    }
    if udp != [] {
      WhitelistRuleAdmits(Udp, udp, udpPriority, false, p);
    }
  }

  /** With a single chain the choice is the choice inside that chain. */
  lemma SingleChain(chain: Chain, p: PacketInfo)
    requires Live(chain, Inbound)
    ensures NothingChosen([chain], Inbound, p) <==> NoneIn(chain.rules, p)
    ensures forall ch: nat, r: nat :: Chosen([chain], Inbound, p, ch, r) ==> ch == 0 && r < |chain.rules|
  {
    assert [chain][0] == chain;
  }

  /** A single inbound chain of unlimited rules that all allow. */
  lemma SingleChainScan(chain: Chain, maxSize: nat, sh: Shared, p: PacketInfo, c: Clock)
    requires Live(chain, Inbound) && forall r <- chain.rules :: r.action == Allow && r.rateLimit == 0
    ensures ScanSpec(ConfigOf([chain], maxSize), sh, p, Inbound, c).1.action
         == if NoneIn(chain.rules, p) then chain.defaultAction else Allow
  {
    SingleChain(chain, p);
    var ch, r := RuleOrder([chain], Inbound, p);
    ScanAction(ConfigOf([chain], maxSize), sh, p, Inbound, c);
    if !NoneIn(chain.rules, p) {
      assert chain.rules[r] in chain.rules;
    }
  }

  lemma WhitelistScan(tcp: seq<string>, udp: seq<string>, priority: nat, maxSize: nat, sh: Shared,
                      p: PacketInfo, c: Clock)
    requires AllAccepted(tcp) && AllAccepted(udp) && (tcp != [] || udp != [])
    ensures var cfg := ConfigOf([WhitelistChain(tcp, udp, priority)], maxSize);
            ScanSpec(cfg, sh, p, Inbound, c).1.action == if Permitted(tcp, udp, p) then Allow else Drop
  {
    ChainMeaning(tcp, udp, priority, p);
    SingleChainScan(WhitelistChain(tcp, udp, priority), maxSize, sh, p, c);
  }

  /** What a packet gets: denied by the default, or allowed by the rule of its protocol, which follows the
      connection for TCP and not for UDP. */
  ghost function WhitelistResult(tcp: seq<string>, udp: seq<string>, priority: nat, p: PacketInfo): AclResult
    requires AllAccepted(tcp) && AllAccepted(udp)
  {
    if !Permitted(tcp, udp, p) then AclResult(Drop, Default, DefaultDrop)
    else if p.protocol == Tcp then
      AclResult(Allow, Stateful(priority), StatefulMatch(p.srcIp, p.dstIp))
    else
      AclResult(Allow, Priority(if tcp == [] then priority else if priority == 0 then 0xFFFF_FFFF else priority - 1),
                RuleMatch(p.srcIp, p.dstIp, Allow))
  }

  lemma RuleOfProtocol(tcp: seq<string>, udp: seq<string>, priority: nat, r: nat, p: PacketInfo)
    requires AllAccepted(tcp) && AllAccepted(udp)
    requires var rules := WhitelistChain(tcp, udp, priority).rules; r < |rules| && Admits(rules[r], p)
    requires Permitted(tcp, udp, p)
    ensures var rule := WhitelistChain(tcp, udp, priority).rules[r];
            && rule.rateLimit == 0 && (Tracks(rule) <==> p.protocol == Tcp)
            && ResultOf(rule, p) == WhitelistResult(tcp, udp, priority, p)
  {
  }

  /** With a single live chain a packet is dealt with by a rule of it that admits the packet, or by its
      default when there is none. */
  lemma SingleChainDone(chain: Chain, p: PacketInfo, c: Clock, before: Shared, after: Shared, result: AclResult)
    returns (r: nat)
    requires Live(chain, Inbound) && DoneAsConfigured([chain], Inbound, p, c, before, after, result)
    ensures if NoneIn(chain.rules, p) then DoneByDefault(chain.defaultAction, before, after, result)
            else && r < |chain.rules| && Admits(chain.rules[r], p)
                 && DoneBy(chain.rules[r], Inbound, p, c, before, after, result)
  {
    r := 0;
    SingleChain(chain, p);
    if !NoneIn(chain.rules, p) {
      var ch: nat, best: nat :| Chosen([chain], Inbound, p, ch, best)
                                && DoneBy([chain][ch].rules[best], Inbound, p, c, before, after, result);
      assert Eligible(chain.rules, best, p);
      r := best;
    }
  }

  /** What the generated chain does with a packet. */
  ghost predicate DoneByWhitelists(tcp: seq<string>, udp: seq<string>, priority: nat, p: PacketInfo, wall: nat,
                                   before: Shared, after: Shared, result: AclResult)
    requires AllAccepted(tcp) && AllAccepted(udp)
  {
    && result == WhitelistResult(tcp, udp, priority, p)
    && after.limiters == before.limiters
    && if Permitted(tcp, udp, p) && p.protocol == Tcp then Noted(before.conns, after.conns, p, wall)
       else after.conns == before.conns
  }

  lemma WhitelistDone(tcp: seq<string>, udp: seq<string>, priority: nat, p: PacketInfo, c: Clock,
                      before: Shared, after: Shared, result: AclResult)
    requires AllAccepted(tcp) && AllAccepted(udp)
    requires DoneAsConfigured([WhitelistChain(tcp, udp, priority)], Inbound, p, c, before, after, result)
    ensures DoneByWhitelists(tcp, udp, priority, p, c.wall, before, after, result)
  {
    ChainMeaning(tcp, udp, priority, p);
    var r := SingleChainDone(WhitelistChain(tcp, udp, priority), p, c, before, after, result);
    if Permitted(tcp, udp, p) {
      RuleOfProtocol(tcp, udp, priority, r, p);
      RuleDone(WhitelistChain(tcp, udp, priority).rules[r], p, c, before, after, result);
    }
  }

  /** An unlimited rule never drops for want of a token. */
  lemma RuleDone(rule: Rule, p: PacketInfo, c: Clock, before: Shared, after: Shared, result: AclResult)
    requires rule.rateLimit == 0 && DoneBy(rule, Inbound, p, c, before, after, result)
    ensures result == ResultOf(rule, p) && after.limiters == before.limiters
    ensures if Tracks(rule) then Noted(before.conns, after.conns, p, c.wall) else after.conns == before.conns
  {
  }

  /** End to end, cache and sweeps included: with no configuration before and some non-empty whitelist, every
      inbound packet of every run is allowed exactly when the whitelists permit it and dropped otherwise;
      no limiter is touched, and exactly the permitted TCP packets are noted as those of a connection. */
  lemma WhitelistMeaning(tcp: seq<string>, udp: seq<string>, priority: nat, maxSize: nat, delay: nat,
                         presence: CacheKey -> Presence, states: seq<Sys>, events: seq<Event>,
                         outs: seq<Option<AclResult>>, i: nat)
    requires AllAccepted(tcp) && AllAccepted(udp) && (tcp != [] || udp != [])
    requires IsRun(ConfigOf([WhitelistChain(tcp, udp, priority)], maxSize), states, events, outs)
    requires delay <= SWEEP_DELAY && Disciplined(delay, presence, states, events)
    requires i < |events| && events[i].Packet? && events[i].chain == Inbound
    ensures outs[i].Some?
    ensures DoneByWhitelists(tcp, udp, priority, events[i].p, events[i].clock.wall, states[i].proc.shared,
                             states[i + 1].proc.shared, outs[i].value)
    ensures outs[i].value.action == if Permitted(tcp, udp, events[i].p) then Allow else Drop
  {
    var e := events[i];
    RunActionFromConfiguration([WhitelistChain(tcp, udp, priority)], maxSize, delay, presence, states, events,
                               outs, i);
    WhitelistDone(tcp, udp, priority, e.p, e.clock, states[i].proc.shared, states[i + 1].proc.shared,
                  outs[i].value);
  }
}
