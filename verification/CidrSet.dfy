/** Proxied networks: which addresses are proxied, and the address behind a mapped one. */
module CidrSet {
  import opened Options

  /** An address as its 32 bits, most significant first. */
  type Ip = bits: seq<bool> | |bits| == 32 witness seq(32, _ => false)

  function And(a: Ip, b: Ip): Ip {
    seq(32, k requires 0 <= k < 32 => a[k] && b[k])
  }

  function Or(a: Ip, b: Ip): Ip {
    seq(32, k requires 0 <= k < 32 => a[k] || b[k])
  }

  function Not(a: Ip): Ip {
    seq(32, k requires 0 <= k < 32 => !a[k])
  }

  function Mask(length: nat): Ip {
    seq(32, k requires 0 <= k < 32 => k < length)
  }

  /** A prefix; its network address has no host bits. */
  datatype RawCidr = Cidr(network: Ip, length: nat) {
    predicate Valid() {
      length <= 32 && forall k :: length <= k < 32 ==> !network[k]
    }
  }

  type Cidr = c: RawCidr | c.Valid() witness Cidr(seq(32, _ => false), 0)

  predicate Contains(c: Cidr, ip: Ip) {
    And(ip, Mask(c.length)) == c.network
  }

  datatype ProxyNetwork = ProxyNetwork(cidr: Cidr, mapped: Option<Cidr>) {
    function Mapped(): Cidr {
      if mapped.Some? then mapped.value else cidr
    }
  }

  // --- Configuration ---

  predicate SameLengths(n: ProxyNetwork) {
    n.mapped.Some? ==> n.mapped.value.length == n.cidr.length
  }

  /** What only `add_proxy_cidr` calls can build up. */
  ghost predicate WellFormed(networks: seq<ProxyNetwork>) {
    && (forall n <- networks :: SameLengths(n))
    && (forall i, j :: 0 <= i < j < |networks| ==> networks[i] != networks[j])
  }

  class ProxyConfig {
    var networks: seq<ProxyNetwork>

    constructor ()
      ensures networks == []
    {
      networks := [];
    }

    /** A mapping between different prefix lengths is refused; a pair that is there already is kept
        once. */
    method AddProxyCidr(cidr: Cidr, mapped: Option<Cidr>) returns (ok: bool)
      requires WellFormed(networks)
      modifies this
      ensures WellFormed(networks)
      ensures ok == SameLengths(ProxyNetwork(cidr, mapped))
      ensures networks == if ok && ProxyNetwork(cidr, mapped) !in old(networks)
                          then old(networks) + [ProxyNetwork(cidr, mapped)] else old(networks)
    {
      if mapped.Some? && cidr.length != mapped.value.length {
        return false;
      }
      if !exists n <- networks :: n.cidr == cidr && n.mapped == mapped {
        networks := networks + [ProxyNetwork(cidr, mapped)];
      }
      ok := true;
    }
  }

  // --- The lookup tables ---

  function MappedOf(networks: seq<ProxyNetwork>): (r: seq<Cidr>)
    ensures |r| == |networks|
  {
    seq(|networks|, i requires 0 <= i < |networks| => networks[i].Mapped())
  }

  /** Later pairs overwrite earlier ones with the same mapped prefix. */
  function RealOf(networks: seq<ProxyNetwork>): map<Cidr, Cidr> {
    if networks == [] then map[]
    else
      var last := networks[|networks| - 1];
      var before := RealOf(networks[..|networks| - 1]);
      if last.Mapped() != last.cidr then before[last.Mapped() := last.cidr] else before
  }

  /** The network bits of the real prefix with the host bits of the address. */
  function Remap(ip: Ip, mapped: Cidr, target: Cidr): Ip {
    Or(And(ip, Not(Mask(mapped.length))), target.network)
  }

  /** Position of the first prefix that contains the address, or the number of prefixes. */
  function FirstContaining(cidrs: seq<Cidr>, ip: Ip): (i: nat)
    ensures i <= |cidrs| && (i < |cidrs| ==> Contains(cidrs[i], ip))
    ensures forall j :: 0 <= j < i ==> !Contains(cidrs[j], ip)
  {
    if cidrs == [] || Contains(cidrs[0], ip) then 0 else 1 + FirstContaining(cidrs[1..], ip)
  }

  class CidrTable {
    var cidrs: seq<Cidr>
    var mappedToReal: map<Cidr, Cidr>

    constructor ()
      ensures cidrs == [] && mappedToReal == map[]
    {
      cidrs, mappedToReal := [], map[];
    }

    /** One round of the updater over a changed configuration. */
    method Update(networks: seq<ProxyNetwork>)
      modifies this
      ensures cidrs == MappedOf(networks) && mappedToReal == RealOf(networks)
    {
      cidrs, mappedToReal := [], map[];
      for i := 0 to |networks|
        invariant cidrs == MappedOf(networks[..i]) && mappedToReal == RealOf(networks[..i])
      {
        assert networks[..i + 1][..i] == networks[..i];
        var target := networks[i].cidr;
        var mapped := if networks[i].mapped.Some? then networks[i].mapped.value else target;
        cidrs := cidrs + [mapped];
        if mapped != target {
          mappedToReal := mappedToReal[mapped := target];
        }
      }
      assert networks[..|networks|] == networks;
    }

    /** `realIp` comes back unchanged when no prefix contains the address. */
    method ContainsV4(ip: Ip, realIp: Ip) returns (found: bool, target: Ip)
      ensures (found, target) == Find(cidrs, mappedToReal, ip, realIp)
    {
      for i := 0 to |cidrs|
        invariant forall j :: 0 <= j < i ==> !Contains(cidrs[j], ip)
      {
        var c := cidrs[i];
        if Contains(c, ip) {
          FirstContainingIs(cidrs, ip, i);
          if c in mappedToReal {
            var converted := ip;
            converted := And(converted, Not(Mask(c.length)));
            converted := Or(converted, mappedToReal[c].network);
            return true, converted;
          } else {
            return true, ip;
          }
        }
      }
      FirstContainingIs(cidrs, ip, |cidrs|);
      found, target := false, realIp;
    }
  }

  function Find(cidrs: seq<Cidr>, mappedToReal: map<Cidr, Cidr>, ip: Ip, realIp: Ip): (bool, Ip) {
    var i := FirstContaining(cidrs, ip);
    if i == |cidrs| then (false, realIp)
    else if cidrs[i] in mappedToReal then (true, Remap(ip, cidrs[i], mappedToReal[cidrs[i]]))
    else (true, ip)
  }

  lemma FirstContainingIs(cidrs: seq<Cidr>, ip: Ip, i: nat)
    requires i <= |cidrs| && (i < |cidrs| ==> Contains(cidrs[i], ip))
    requires forall j :: 0 <= j < i ==> !Contains(cidrs[j], ip)
    ensures FirstContaining(cidrs, ip) == i
  {
  }

  // --- Any pairs ---

  /** Pair j is the last that maps this prefix to another one. */
  ghost predicate LastPair(networks: seq<ProxyNetwork>, c: Cidr, j: nat) {
    && j < |networks| && networks[j].Mapped() == c && networks[j].cidr != c
    && forall k :: j < k < |networks| && networks[k].Mapped() == c ==> networks[k].cidr == c
  }

  lemma LastPairOfInit(networks: seq<ProxyNetwork>, c: Cidr, j: nat)
    requires networks != []
    requires var last := networks[|networks| - 1]; last.Mapped() != c || last.cidr == c
    ensures LastPair(networks, c, j) <==> LastPair(networks[..|networks| - 1], c, j)
  {
    var init := networks[..|networks| - 1];
    if j < |init| {
      assert init[j] == networks[j];
      assert forall k :: j < k < |init| ==> init[k] == networks[k];
    }
  }

  /** A mapped prefix leads to the real prefix of the last pair that maps it elsewhere. */
  lemma {:induction false} RealOfLast(networks: seq<ProxyNetwork>, c: Cidr) returns (j: nat)
    ensures if c in RealOf(networks) then LastPair(networks, c, j) && RealOf(networks)[c] == networks[j].cidr
            else forall k: nat :: !LastPair(networks, c, k)
  {
    j := 0;
    if networks != [] {
      var last := networks[|networks| - 1];
      if last.Mapped() == c && last.cidr != c {
        j := |networks| - 1;
      } else {
        j := RealOfLast(networks[..|networks| - 1], c);
        LastPairOfInit(networks, c, j);
        forall k: nat ensures LastPair(networks, c, k) <==> LastPair(networks[..|networks| - 1], c, k) {
          LastPairOfInit(networks, c, k);
        }
      }
    }
  }

  lemma LastPairUnique(networks: seq<ProxyNetwork>, c: Cidr, i: nat, j: nat)
    requires LastPair(networks, c, i) && LastPair(networks, c, j)
    ensures i == j
  {
  }

  /** For any pairs, overlapping and repeated ones included: an address is found if and only if some mapped
      prefix contains it, and is then remapped from the first such prefix to the real prefix of the last
      pair that maps this prefix elsewhere, or left as it is if none does. */
  lemma FindAny(networks: seq<ProxyNetwork>, ip: Ip, realIp: Ip)
    ensures var (found, r) := Find(MappedOf(networks), RealOf(networks), ip, realIp);
            && (found <==> exists i :: 0 <= i < |networks| && Contains(networks[i].Mapped(), ip))
            && (!found ==> r == realIp)
            && (found ==>
                  var first := FirstContaining(MappedOf(networks), ip);
                  && first < |networks| && Contains(networks[first].Mapped(), ip)
                  && (forall j: nat :: LastPair(networks, networks[first].Mapped(), j) ==>
                        r == Remap(ip, networks[first].Mapped(), networks[j].cidr))
                  && ((forall j: nat :: !LastPair(networks, networks[first].Mapped(), j)) ==> r == ip))
  {
    var first := FirstContaining(MappedOf(networks), ip);
    if first < |networks| {
      var c := networks[first].Mapped();
      var j := RealOfLast(networks, c);
      forall k: nat | LastPair(networks, c, k) ensures k == j {
        LastPairUnique(networks, c, j, k);
      }
    } else {
      forall i | 0 <= i < |networks| ensures !Contains(networks[i].Mapped(), ip) {
        assert MappedOf(networks)[i] == networks[i].Mapped();
      }
    }
  }

  // --- The mapping is a bijection ---

  ghost predicate Disjoint(networks: seq<ProxyNetwork>) {
    forall i, j, ip :: 0 <= i < j < |networks| ==>
      !(Contains(networks[i].Mapped(), ip) && Contains(networks[j].Mapped(), ip))
  }

  /** The host bits of an address. */
  function Host(ip: Ip, length: nat): Ip {
    And(ip, Not(Mask(length)))
  }

  lemma ContainsBits(c: Cidr, ip: Ip)
    ensures Contains(c, ip) <==> forall k :: 0 <= k < c.length ==> ip[k] == c.network[k]
  {
    if Contains(c, ip) {
      forall k | 0 <= k < c.length ensures ip[k] == c.network[k] {
        assert And(ip, Mask(c.length))[k] == (ip[k] && k < c.length);
      }
    }
  }

  lemma ContainsOwnNetwork(c: Cidr)
    ensures Contains(c, c.network)
  {
    ContainsBits(c, c.network);
  }

  /** Remapping keeps host bits, lands in the real prefix, and is undone by remapping back. */
  lemma RemapInverts(mapped: Cidr, target: Cidr, ip: Ip)
    requires mapped.length == target.length && Contains(mapped, ip)
    ensures var r := Remap(ip, mapped, target);
            && Contains(target, r)
            && Host(r, target.length) == Host(ip, mapped.length)
            && Remap(r, target, mapped) == ip
  {
    var r := Remap(ip, mapped, target);
    ContainsBits(mapped, ip);
    ContainsBits(target, r);
    assert forall k :: 0 <= k < 32 ==> r[k] == ((k >= mapped.length && ip[k]) || target.network[k]);
  }

  /** A mapped prefix that is nobody else's leads to its own real prefix. */
  lemma {:induction false} RealOfPair(networks: seq<ProxyNetwork>, i: nat)
    requires i < |networks| && forall j :: 0 <= j < |networks| && j != i ==>
                                 networks[j].Mapped() != networks[i].Mapped()
    ensures var n := networks[i];
            if n.Mapped() != n.cidr then n.Mapped() in RealOf(networks) && RealOf(networks)[n.Mapped()] == n.cidr
            else n.Mapped() !in RealOf(networks)
  {
    var m := |networks| - 1;
    if i < m {
      assert networks[..m][i] == networks[i];
      RealOfPair(networks[..m], i);
    } else {
      RealOfOthers(networks[..m], networks[i].Mapped());
    }
  }

  lemma {:induction false} RealOfOthers(networks: seq<ProxyNetwork>, c: Cidr)
    requires forall j :: 0 <= j < |networks| ==> networks[j].Mapped() != c
    ensures c !in RealOf(networks)
  {
    if networks != [] {
      RealOfOthers(networks[..|networks| - 1], c);
    }
  }

  lemma RemapToItself(c: Cidr, ip: Ip)
    requires Contains(c, ip)
    ensures Remap(ip, c, c) == ip
  {
    ContainsBits(c, ip);
  }

  lemma DisjointDistinct(networks: seq<ProxyNetwork>, i: nat, j: nat)
    requires Disjoint(networks) && i < |networks| && j < |networks| && i != j
    ensures networks[j].Mapped() != networks[i].Mapped()
  {
    ContainsOwnNetwork(networks[i].Mapped());
  }

  lemma FoundAt(networks: seq<ProxyNetwork>, i: nat, ip: Ip)
    requires Disjoint(networks) && i < |networks| && Contains(networks[i].Mapped(), ip)
    ensures FirstContaining(MappedOf(networks), ip) == i
  {
    FirstContainingIs(MappedOf(networks), ip, i);
  }

  /** For disjoint mapped prefixes the tables send an address of pair i to its real prefix. */
  lemma FindInPair(networks: seq<ProxyNetwork>, i: nat, ip: Ip, realIp: Ip)
    requires Disjoint(networks) && i < |networks| && Contains(networks[i].Mapped(), ip)
    ensures Find(MappedOf(networks), RealOf(networks), ip, realIp)
         == (true, Remap(ip, networks[i].Mapped(), networks[i].cidr))
  {
    FoundAt(networks, i, ip);
    forall j | 0 <= j < |networks| && j != i ensures networks[j].Mapped() != networks[i].Mapped() {
      DisjointDistinct(networks, i, j);
    }
    RealOfPair(networks, i);
    if networks[i].Mapped() == networks[i].cidr {
      RemapToItself(networks[i].cidr, ip);
    }
  }

  /** The lookup succeeds exactly on addresses of some mapped prefix; on the prefix of each pair it is
      one-to-one onto the real prefix and keeps the host bits. */
  lemma RemapIsBijection(networks: seq<ProxyNetwork>, i: nat, realIp: Ip)
    requires WellFormed(networks) && Disjoint(networks) && i < |networks|
    ensures var cidrs, reals := MappedOf(networks), RealOf(networks);
            var mapped, target := networks[i].Mapped(), networks[i].cidr;
            && (forall ip :: Find(cidrs, reals, ip, realIp).0 <==> exists c <- cidrs :: Contains(c, ip))
            && (forall ip :: Contains(mapped, ip) ==>
                  var (found, r) := Find(cidrs, reals, ip, realIp);
                  found && Contains(target, r) && Host(r, target.length) == Host(ip, mapped.length))
            && (forall ip, ip' ::
                  (Contains(mapped, ip) && Contains(mapped, ip')
                   && Find(cidrs, reals, ip, realIp) == Find(cidrs, reals, ip', realIp)) ==> ip == ip')
            && (forall r :: Contains(target, r) ==>
                  var ip := Remap(r, target, mapped);
                  Contains(mapped, ip) && Find(cidrs, reals, ip, realIp) == (true, r))
  {
    var cidrs, reals := MappedOf(networks), RealOf(networks);
    var mapped, target := networks[i].Mapped(), networks[i].cidr;
    assert SameLengths(networks[i]);
    forall ip | Contains(mapped, ip)
      ensures Find(cidrs, reals, ip, realIp) == (true, Remap(ip, mapped, target))
      ensures Contains(target, Remap(ip, mapped, target))
      ensures Host(Remap(ip, mapped, target), target.length) == Host(ip, mapped.length)
      ensures Remap(Remap(ip, mapped, target), target, mapped) == ip
    {
      FindInPair(networks, i, ip, realIp);
      RemapInverts(mapped, target, ip);
    }
    forall r | Contains(target, r)
      ensures Contains(mapped, Remap(r, target, mapped))
      ensures Remap(Remap(r, target, mapped), mapped, target) == r
    {
      RemapInverts(target, mapped, r);
    }
    forall ip ensures Find(cidrs, reals, ip, realIp).0 <==> exists c <- cidrs :: Contains(c, ip) {
      var k := FirstContaining(cidrs, ip);
      if k < |cidrs| {
        assert cidrs[k] in cidrs;
      }
    }
  }
}
