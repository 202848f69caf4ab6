/** Rules, how they match packets, and how rule lists are built from a configuration. */
module AclRules {
  import opened Options
  import opened PortSpecs

  datatype Protocol = UnspecifiedProtocol | Tcp | Udp | Icmp | IcmpV6 | Any
  datatype Action = Noop | Allow | Drop
  datatype ChainType = UnspecifiedChain | Inbound | Outbound | Forward

  datatype IpAddr = V4(bits: nat) | V6(bits: nat)

  /** A prefix, as the interval of addresses it stands for. */
  datatype IpCidr = V4Cidr(first: nat, last: nat) | V6Cidr(first: nat, last: nat)

  /** An address text of a rule, by what is written: an address of 32 or 128 bits and a prefix length, or
      nothing of the kind. */
  datatype IpText = Written(v6: bool, address: nat, length: nat) | Garbled {
    function Width(): nat {
      if Written? && v6 then 128 else 32
    }
  }

  function Pow2(k: nat): (r: nat)
    ensures r > 0
  {
    if k == 0 then 1 else 2 * Pow2(k - 1)
  }

  /** Only the first address of a prefix is taken for it; anything else is an error. */
  function ReadIp(text: IpText): Option<IpCidr> {
    if text.Garbled? || text.length > text.Width() then None
    else
      var size := Pow2(text.Width() - text.length);
      if text.address % size != 0 then None
      else if text.v6 then Some(V6Cidr(text.address, text.address + size - 1))
      else Some(V4Cidr(text.address, text.address + size - 1))
  }

  /** A rule as configured; port specifications are still text. */
  datatype Rule = Rule(priority: nat, enabled: bool, protocol: Protocol, ports: seq<string>,
                       sourceIps: seq<IpText>, destinationIps: seq<IpText>, sourcePorts: seq<string>,
                       action: Action, rateLimit: nat, burstLimit: nat, stateful: bool,
                       sourceGroups: set<string>, destinationGroups: set<string>)

  datatype Chain = Chain(chainType: ChainType, enabled: bool, rules: seq<Rule>, defaultAction: Action)

  datatype FastRule = FastRule(priority: nat, protocol: Protocol,
                               srcIps: seq<IpCidr>, dstIps: seq<IpCidr>,
                               srcPorts: seq<PortRange>, dstPorts: seq<PortRange>,
                               sourceGroups: set<string>, destinationGroups: set<string>,
                               action: Action, enabled: bool, stateful: bool,
                               rateLimit: nat, burstLimit: nat)

  datatype PacketInfo = PacketInfo(srcIp: IpAddr, dstIp: IpAddr, srcPort: Option<nat>,
                                   dstPort: Option<nat>, protocol: Protocol, size: nat,
                                   srcGroups: seq<string>, dstGroups: seq<string>)

  predicate CidrContains(c: IpCidr, ip: IpAddr) {
    match (c, ip)
    case (V4Cidr(first, last), V4(bits)) => first <= bits <= last
    case (V6Cidr(first, last), V6(bits)) => first <= bits <= last
    case _ => false
  }

  /** An empty list of ranges puts no condition on the address. */
  predicate IpMatches(ranges: seq<IpCidr>, ip: IpAddr) {
    ranges == [] || exists c <- ranges :: CidrContains(c, ip)
  }

  /** The text names a prefix: an address without bits behind the prefix length. */
  predicate Readable(text: IpText) {
    text.Written? && text.length <= text.Width() && text.address % Pow2(text.Width() - text.length) == 0
  }

  /** The address is of the same kind and agrees with the text in the bits of the prefix. */
  predicate Covers(text: IpText, ip: IpAddr)
    requires text.Written? && text.length <= text.Width()
  {
    var size := Pow2(text.Width() - text.length);
    ip.V6? == text.v6 && ip.bits / size == text.address / size
  }

  predicate InRange(r: PortRange, port: nat) {
    r.start <= port <= r.end
  }

  /** Neither an empty list nor an absent port puts a condition on the packet. */
  predicate PortMatches(ranges: seq<PortRange>, port: Option<nat>) {
    port.None? || ranges == [] || exists r <- ranges :: InRange(r, port.value)
  }

  predicate GroupMatches(wanted: set<string>, groups: seq<string>) {
    wanted == {} || exists g <- groups :: g in wanted
  }

  predicate RuleMatches(rule: FastRule, p: PacketInfo) {
    && (rule.protocol == Any || rule.protocol == p.protocol)
    && IpMatches(rule.srcIps, p.srcIp)
    && IpMatches(rule.dstIps, p.dstIp)
    && PortMatches(rule.srcPorts, p.srcPort)
    && PortMatches(rule.dstPorts, p.dstPort)
    && GroupMatches(rule.sourceGroups, p.srcGroups)
    && GroupMatches(rule.destinationGroups, p.dstGroups)
  }

  predicate Applies(rule: FastRule, p: PacketInfo) {
    rule.enabled && RuleMatches(rule, p)
  }

  /** Index of the first rule that applies, or the length of the list. */
  function FirstMatch(rules: seq<FastRule>, p: PacketInfo): (i: nat)
    ensures i <= |rules|
    ensures forall j :: 0 <= j < i ==> !Applies(rules[j], p)
    ensures i < |rules| ==> Applies(rules[i], p)
  {
    if rules == [] then 0
    else if Applies(rules[0], p) then 0
    else
      var i := FirstMatch(rules[1..], p);
      assert forall j :: 0 < j < i + 1 ==> rules[j] == rules[1..][j - 1];
      i + 1
  }

  lemma FirstMatchUnique(rules: seq<FastRule>, p: PacketInfo, i: nat)
    requires i <= |rules| && (forall j :: 0 <= j < i ==> !Applies(rules[j], p))
    requires i < |rules| ==> Applies(rules[i], p)
    ensures FirstMatch(rules, p) == i
  {
  }

  // --- Building rule lists ---

  /** The results of f in order, without those that are absent. */
  function FilterMap<A, B>(f: A -> Option<B>, s: seq<A>): seq<B> {
    if s == [] then []
    else
      var rest := FilterMap(f, s[..|s| - 1]);
      match f(s[|s| - 1])
      case Some(r) => rest + [r]
      case None => rest
  }

  /** Specifications that do not parse are left out. */
  function ParseRanges(specs: seq<string>): seq<PortRange> {
    FilterMap(ParsePortRange, specs)
  }

  function ConvertRule(r: Rule): FastRule {
    FastRule(r.priority, r.protocol, FilterMap(ReadIp, r.sourceIps), FilterMap(ReadIp, r.destinationIps),
             ParseRanges(r.sourcePorts), ParseRanges(r.ports),
             r.sourceGroups, r.destinationGroups, r.action, r.enabled, r.stateful,
             r.rateLimit, r.burstLimit)
  }

  function EnabledRules(rules: seq<Rule>): seq<FastRule> {
    if rules == [] then []
    else
      var rest := EnabledRules(rules[..|rules| - 1]);
      var last := rules[|rules| - 1];
      if last.enabled then rest + [ConvertRule(last)] else rest
  }

  /** Insertion behind everything of the same or a higher priority keeps the sort stable. */
  function InsertByPriority(s: seq<FastRule>, r: FastRule): seq<FastRule> {
    if s == [] then [r]
    else if s[|s| - 1].priority >= r.priority then s + [r]
    else InsertByPriority(s[..|s| - 1], r) + [s[|s| - 1]]
  }

  function SortByPriority(s: seq<FastRule>): seq<FastRule> {
    if s == [] then [] else InsertByPriority(SortByPriority(s[..|s| - 1]), s[|s| - 1])
  }

  /** Rules are sorted inside each chain; chains of one type keep the configured order. */
  function RulesFor(chains: seq<Chain>, t: ChainType): seq<FastRule> {
    if chains == [] then []
    else
      var last := chains[|chains| - 1];
      RulesFor(chains[..|chains| - 1], t)
      + if last.enabled && last.chainType == t then SortByPriority(EnabledRules(last.rules)) else []
  }

  method BuildRules(chains: seq<Chain>)
    returns (inbound: seq<FastRule>, outbound: seq<FastRule>, forwarded: seq<FastRule>)
    ensures inbound == RulesFor(chains, Inbound)
    ensures outbound == RulesFor(chains, Outbound)
    ensures forwarded == RulesFor(chains, Forward)
  {
    inbound, outbound, forwarded := [], [], [];
    for i := 0 to |chains|
      invariant inbound == RulesFor(chains[..i], Inbound)
      invariant outbound == RulesFor(chains[..i], Outbound)
      invariant forwarded == RulesFor(chains[..i], Forward)
    {
      var chain := chains[i];
      assert chains[..i + 1][..i] == chains[..i];
      if !chain.enabled {
        continue;
      }
      var rules := SortByPriority(EnabledRules(chain.rules));
      match chain.chainType {
        case Inbound => inbound := inbound + rules;
        case Outbound => outbound := outbound + rules;
        case Forward => forwarded := forwarded + rules;
        case UnspecifiedChain =>
      }
    }
    assert chains[..|chains|] == chains;
  }

  /** The default comes from the first chain of the type, enabled or not. */
  function DefaultFor(chains: seq<Chain>, t: ChainType): Action {
    if chains == [] then Allow
    else if chains[0].chainType == t then chains[0].defaultAction
    else DefaultFor(chains[1..], t)
  }

  // --- Which rule is chosen, said about the configuration ---

  /** A port condition as configured: absent ports and lists without a readable range admit. */
  ghost predicate PortAdmitted(specs: seq<string>, port: Option<nat>) {
    || port.None?
    || (forall r :: !Reads(specs, r))
    || exists r :: Reads(specs, r) && r.start <= port.value <= r.end
  }

  /** An address condition as configured: a list without a readable prefix admits every address. */
  ghost predicate IpAdmitted(texts: seq<IpText>, ip: IpAddr) {
    || (forall t <- texts :: !Readable(t))
    || exists t <- texts :: Readable(t) && Covers(t, ip)
  }

  /** The conditions of a configured rule, read off the rule itself. */
  ghost predicate Admits(r: Rule, p: PacketInfo) {
    && (r.protocol == Any || p.protocol == r.protocol)
    && IpAdmitted(r.sourceIps, p.srcIp)
    && IpAdmitted(r.destinationIps, p.dstIp)
    && PortAdmitted(r.sourcePorts, p.srcPort)
    && PortAdmitted(r.ports, p.dstPort)
    && (r.sourceGroups == {} || exists g <- p.srcGroups :: g in r.sourceGroups)
    && (r.destinationGroups == {} || exists g <- p.dstGroups :: g in r.destinationGroups)
  }

  /** Some specification reads as this range. */
  ghost predicate Reads(specs: seq<string>, r: PortRange) {
    exists spec <- specs :: ParsePortRange(spec) == Some(r)
  }

  lemma {:induction false} FilterMapMembers<A, B>(f: A -> Option<B>, s: seq<A>, b: B)
    ensures b in FilterMap(f, s) <==> exists a <- s :: f(a) == Some(b)
  {
    if s != [] {
      var init, last := s[..|s| - 1], s[|s| - 1];
      FilterMapMembers(f, init, b);
      assert s == init + [last];
      if b in FilterMap(f, init) {
        var a :| a in init && f(a) == Some(b);
        assert a in s;
      } else if f(last) == Some(b) {
        assert last in s;
      }
    }
  }

  lemma FilterMapEmpty<A, B>(f: A -> Option<B>, s: seq<A>)
    ensures FilterMap(f, s) == [] <==> forall b :: b !in FilterMap(f, s)
  {
    if FilterMap(f, s) != [] {
      assert FilterMap(f, s)[0] in FilterMap(f, s);
    }
  }

  lemma PortConversion(specs: seq<string>, port: Option<nat>)
    ensures PortMatches(ParseRanges(specs), port) <==> PortAdmitted(specs, port)
  {
    var ranges := ParseRanges(specs);
    forall r ensures r in ranges <==> Reads(specs, r) {
      FilterMapMembers(ParsePortRange, specs, r);
    }
    FilterMapEmpty(ParsePortRange, specs);
  }

  /** A readable text stands for the addresses that share its prefix. */
  lemma PrefixExact(text: IpText, ip: IpAddr)
    requires Readable(text)
    ensures ReadIp(text).Some? && (CidrContains(ReadIp(text).value, ip) <==> Covers(text, ip))
  {
    SamePrefix(text.address, ip.bits, Pow2(text.Width() - text.length));
  }

  lemma SamePrefix(first: nat, b: nat, size: nat)
    requires size > 0 && first % size == 0
    ensures first <= b <= first + size - 1 <==> b / size == first / size
  {
    var q, k := first / size, b / size;
    assert first == q * size && k * size <= b < k * size + size;
    if k < q {
      assert (k + 1) * size <= q * size;
    } else if q < k {
      assert (q + 1) * size <= k * size;
    }
  }

  lemma IpConversion(texts: seq<IpText>, ip: IpAddr)
    ensures IpMatches(FilterMap(ReadIp, texts), ip) <==> IpAdmitted(texts, ip)
  {
    var prefixes := FilterMap(ReadIp, texts);
    forall c ensures c in prefixes <==> exists t <- texts :: ReadIp(t) == Some(c) {
      FilterMapMembers(ReadIp, texts, c);
    }
    FilterMapEmpty(ReadIp, texts);
    forall t | t in texts ensures ReadIp(t).Some? <==> Readable(t)
      ensures Readable(t) ==> ReadIp(t).value in prefixes && (CidrContains(ReadIp(t).value, ip) <==> Covers(t, ip))
    {
      if Readable(t) {
        FilterMapMembers(ReadIp, texts, ReadIp(t).value);
        PrefixExact(t, ip);
      }
    }
    if IpMatches(prefixes, ip) && prefixes != [] {
      var c :| c in prefixes && CidrContains(c, ip);
      var t :| t in texts && ReadIp(t) == Some(c);
      assert Readable(t) && Covers(t, ip);
    }
  }

  /** Converting a rule changes nothing about which packets it admits. */
  lemma ConversionFaithful(r: Rule, p: PacketInfo)
    ensures RuleMatches(ConvertRule(r), p) <==> Admits(r, p)
  {
    PortConversion(r.sourcePorts, p.srcPort);
    PortConversion(r.ports, p.dstPort);
    IpConversion(r.sourceIps, p.srcIp);
    IpConversion(r.destinationIps, p.dstIp);
  }

  /** Rule j of the list is enabled and admits the packet. */
  ghost predicate Eligible(rules: seq<Rule>, j: nat, p: PacketInfo)
    requires j < |rules|
  {
    rules[j].enabled && Admits(rules[j], p)
  }

  /** Rule r is the eligible rule of highest priority, the earliest of those. */
  ghost predicate BestIn(rules: seq<Rule>, r: nat, p: PacketInfo) {
    && r < |rules|
    && Eligible(rules, r, p)
    && forall j :: 0 <= j < |rules| && Eligible(rules, j, p) ==>
         rules[j].priority < rules[r].priority || (rules[j].priority == rules[r].priority && r <= j)
  }

  ghost predicate NoneIn(rules: seq<Rule>, p: PacketInfo) {
    forall j :: 0 <= j < |rules| ==> !Eligible(rules, j, p)
  }

  ghost predicate Live(c: Chain, t: ChainType) {
    c.enabled && c.chainType == t
  }

  /** Chain c is the first live chain of the type with an eligible rule, and r its best rule. */
  ghost predicate Chosen(chains: seq<Chain>, t: ChainType, p: PacketInfo, c: nat, r: nat) {
    && c < |chains|
    && Live(chains[c], t)
    && BestIn(chains[c].rules, r, p)
    && forall b :: 0 <= b < c && Live(chains[b], t) ==> NoneIn(chains[b].rules, p)
  }

  ghost predicate NothingChosen(chains: seq<Chain>, t: ChainType, p: PacketInfo) {
    forall b :: 0 <= b < |chains| && Live(chains[b], t) ==> NoneIn(chains[b].rules, p)
  }

  ghost predicate Descending(s: seq<FastRule>) {
    forall i, j :: 0 <= i < j < |s| ==> s[i].priority >= s[j].priority
  }

  lemma {:induction false} InsertDescends(s: seq<FastRule>, r: FastRule)
    requires Descending(s)
    ensures Descending(InsertByPriority(s, r))
    ensures forall x :: x in InsertByPriority(s, r) <==> x in s || x == r
  {
    if s != [] && s[|s| - 1].priority < r.priority {
      var init, last := s[..|s| - 1], s[|s| - 1];
      InsertDescends(init, r);
      assert s == init + [last];
      var t := InsertByPriority(init, r);
      forall i | 0 <= i < |t| ensures t[i].priority >= last.priority {
        assert t[i] in t;
      }
    }
  }

  /** The rule found first, if any. */
  function Found(s: seq<FastRule>, p: PacketInfo): Option<FastRule> {
    var i := FirstMatch(s, p);
    if i < |s| then Some(s[i]) else None
  }

  function Better(found: Option<FastRule>, r: FastRule, p: PacketInfo): Option<FastRule> {
    if Applies(r, p) && (found.None? || found.value.priority < r.priority) then Some(r) else found
  }

  lemma FoundInAppend(s: seq<FastRule>, t: seq<FastRule>, p: PacketInfo)
    ensures Found(s + t, p) == if Found(s, p).Some? then Found(s, p) else Found(t, p)
  {
    var i := FirstMatch(s, p);
    if i < |s| {
      FirstMatchUnique(s + t, p, i);
    } else {
      FirstMatchUnique(s + t, p, |s| + FirstMatch(t, p));
    }
  }

  lemma {:induction false} FoundInInsert(s: seq<FastRule>, r: FastRule, p: PacketInfo)
    requires Descending(s)
    ensures Found(InsertByPriority(s, r), p) == Better(Found(s, p), r, p)
  {
    if s == [] {
      FoundInAppend([], [r], p);
    } else if s[|s| - 1].priority >= r.priority {
      FoundInAppend(s, [r], p);
    } else {
      var init, last := s[..|s| - 1], s[|s| - 1];
      FoundInInsert(init, r, p);
      assert s == init + [last];
      FoundInAppend(init, [last], p);
      FoundInAppend(InsertByPriority(init, r), [last], p);
    }
  }

  lemma {:induction false} SortDescends(s: seq<FastRule>)
    ensures Descending(SortByPriority(s))
  {
    if s != [] {
      SortDescends(s[..|s| - 1]);
      InsertDescends(SortByPriority(s[..|s| - 1]), s[|s| - 1]);
    }
  }

  lemma EligibleInPrefix(rules: seq<Rule>, p: PacketInfo)
    requires rules != []
    ensures var n := |rules| - 1;
            && (forall j :: 0 <= j < n ==> (Eligible(rules, j, p) <==> Eligible(rules[..n], j, p)))
            && (NoneIn(rules, p) <==> NoneIn(rules[..n], p) && !Eligible(rules, n, p))
  {
    var n := |rules| - 1;
    assert forall j :: 0 <= j < n ==> rules[j] == rules[..n][j];
    if NoneIn(rules, p) {
      forall j | 0 <= j < n ensures !Eligible(rules[..n], j, p) {
        assert !Eligible(rules, j, p);
      }
    }
  }

  /** Taking one more rule into account. */
  lemma BestExtends(rules: seq<Rule>, p: PacketInfo, r: nat)
    requires rules != []
    requires !NoneIn(rules[..|rules| - 1], p) ==> BestIn(rules[..|rules| - 1], r, p)
    ensures var n := |rules| - 1;
            var better := Eligible(rules, n, p)
                          && (NoneIn(rules[..n], p) || rules[r].priority < rules[n].priority);
            !NoneIn(rules, p) ==> BestIn(rules, if better then n else r, p)
  {
    EligibleInPrefix(rules, p);
    var n := |rules| - 1;
    if !NoneIn(rules, p) {
      if Eligible(rules, n, p) && (NoneIn(rules[..n], p) || rules[r].priority < rules[n].priority) {
        forall j | 0 <= j < n && Eligible(rules, j, p) ensures rules[j].priority < rules[n].priority {
          assert Eligible(rules[..n], j, p);
        }
      } else {
        assert Eligible(rules[..n], r, p);
        forall j | 0 <= j < n && Eligible(rules, j, p)
          ensures rules[j].priority < rules[r].priority || (rules[j].priority == rules[r].priority && r <= j)
        {
          assert Eligible(rules[..n], j, p);
        }
      }
    }
  }

  lemma FoundInSorted(rules: seq<Rule>, p: PacketInfo)
    requires rules != []
    ensures var n := |rules| - 1;
            var before := Found(SortByPriority(EnabledRules(rules[..n])), p);
            Found(SortByPriority(EnabledRules(rules)), p) ==
            if rules[n].enabled then Better(before, ConvertRule(rules[n]), p) else before
  {
    var n := |rules| - 1;
    var init := EnabledRules(rules[..n]);
    if rules[n].enabled {
      assert EnabledRules(rules) == init + [ConvertRule(rules[n])];
      assert (init + [ConvertRule(rules[n])])[..|init|] == init;
      SortDescends(init);
      FoundInInsert(SortByPriority(init), ConvertRule(rules[n]), p);
    }
  }

  /** The first match in a sorted chain is its best rule. */
  lemma {:induction false} FoundInChain(rules: seq<Rule>, p: PacketInfo) returns (r: nat)
    ensures NoneIn(rules, p) ==> Found(SortByPriority(EnabledRules(rules)), p).None?
    ensures !NoneIn(rules, p) ==>
              && BestIn(rules, r, p)
              && Found(SortByPriority(EnabledRules(rules)), p) == Some(ConvertRule(rules[r]))
  {
    r := 0;
    if rules != [] {
      var n := |rules| - 1;
      r := FoundInChain(rules[..n], p);
      EligibleInPrefix(rules, p);
      BestExtends(rules, p, r);
      FoundInSorted(rules, p);
      ConversionFaithful(rules[n], p);
      if Eligible(rules, n, p) && (NoneIn(rules[..n], p) || rules[r].priority < rules[n].priority) {
        r := n;
      }
    }
  }

  lemma ChosenExtends(chains: seq<Chain>, t: ChainType, p: PacketInfo, c: nat, r: nat)
    requires chains != [] && Chosen(chains[..|chains| - 1], t, p, c, r)
    ensures Chosen(chains, t, p, c, r) && !NothingChosen(chains, t, p)
  {
    assert !NoneIn(chains[c].rules, p);
  }

  lemma NothingExtends(chains: seq<Chain>, t: ChainType, p: PacketInfo)
    requires chains != [] && NothingChosen(chains[..|chains| - 1], t, p)
    ensures var n := |chains| - 1;
            && (NothingChosen(chains, t, p) <==> !Live(chains[n], t) || NoneIn(chains[n].rules, p))
            && forall r: nat :: Live(chains[n], t) && BestIn(chains[n].rules, r, p) ==>
                 Chosen(chains, t, p, n, r)
  {
  }

  /** The rule a built list yields is the one the configuration chooses, and none when the
      configuration chooses none. */
  lemma {:induction false} RuleOrder(chains: seq<Chain>, t: ChainType, p: PacketInfo)
    returns (c: nat, r: nat)
    ensures NothingChosen(chains, t, p) ==> Found(RulesFor(chains, t), p).None?
    ensures !NothingChosen(chains, t, p) ==>
              && Chosen(chains, t, p, c, r)
              && Found(RulesFor(chains, t), p) == Some(ConvertRule(chains[c].rules[r]))
  {
    c, r := 0, 0;
    if chains != [] {
      var n := |chains| - 1;
      var init, last := chains[..n], chains[n];
      c, r := RuleOrder(init, t, p);
      var sorted := if Live(last, t) then SortByPriority(EnabledRules(last.rules)) else [];
      FoundInAppend(RulesFor(init, t), sorted, p);
      if !NothingChosen(init, t, p) {
        ChosenExtends(chains, t, p, c, r);
      } else {
        NothingExtends(chains, t, p);
        if Live(last, t) {
          c := n;
          r := FoundInChain(last.rules, p);
        }
      }
    }
  }

  /** At most one rule is chosen. */
  lemma ChosenUnique(chains: seq<Chain>, t: ChainType, p: PacketInfo, c: nat, r: nat, c': nat, r': nat)
    requires Chosen(chains, t, p, c, r) && Chosen(chains, t, p, c', r')
    ensures c == c' && r == r'
  {
    assert Eligible(chains[c].rules, r, p) && Eligible(chains[c'].rules, r', p);
  }
}
