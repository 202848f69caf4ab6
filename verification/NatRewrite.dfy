/** The way of a packet through the proxy: which packets are taken on and where their connections lead, the
    two rewrites, and when a reply comes back as the peer expects it. */
module NatRewrite {
  import opened Options
  import opened TcpNat
  import CidrSet

  /** An address and the length of its network prefix. */
  datatype Inet = Inet(address: Ip, length: nat) {
    /** The first address of the network. */
    function First(): Ip {
      CidrSet.And(address, CidrSet.Mask(length))
    }
  }

  /** The lowest k bits of a number, the most significant first. */
  function Binary(n: nat, k: nat): (r: seq<bool>)
    ensures |r| == k
  {
    if k == 0 then [] else Binary(n / 2, k - 1) + [n % 2 == 1]
  }

  function Address(a: nat, b: nat, c: nat, d: nat): Ip {
    Binary(((a * 256 + b) * 256 + c) * 256 + d, 32)
  }

  /** The number that bits stand for. */
  function Number(bits: seq<bool>): nat {
    if bits == [] then 0 else Number(bits[..|bits| - 1]) * 2 + if bits[|bits| - 1] then 1 else 0
  }

  function Pow2(k: nat): nat {
    if k == 0 then 1 else 2 * Pow2(k - 1)
  }

  lemma Pow2Octet(k: nat)
    ensures Pow2(k + 8) == 256 * Pow2(k)
  {
    assert Pow2(k + 8) == 4 * Pow2(k + 6) && Pow2(k + 6) == 4 * Pow2(k + 4);
    assert Pow2(k + 4) == 4 * Pow2(k + 2) && Pow2(k + 2) == 4 * Pow2(k);
  }

  lemma {:induction false} NumberOfBinary(n: nat, k: nat)
    requires n < Pow2(k)
    ensures Number(Binary(n, k)) == n
  {
    if k > 0 {
      NumberOfBinary(n / 2, k - 1);
      assert Binary(n, k)[..k - 1] == Binary(n / 2, k - 1);
    }
  }

  /** The virtual address of the node if it has one, whether the built-in TCP stack is used, what else the
      node proxies, and the port the proxy listens on. */
  datatype Net = Net(ipv4: Option<Inet>, smoltcp: bool, exitNode: bool, noTun: bool, localPort: nat) {
    /** The built-in stack has an address of its own. */
    function Local(): Option<Inet> {
      if smoltcp then Some(Inet(Address(192, 88, 99, 254), 24)) else ipv4
    }
  }

  datatype Header = Header(src: SocketAddr, dst: SocketAddr)

  class TcpPacket {
    var srcIp: Ip
    var srcPort: nat
    var dstIp: Ip
    var dstPort: nat

    constructor (h: Header)
      ensures Fields() == h
    {
      srcIp, srcPort, dstIp, dstPort := h.src.ip, h.src.port, h.dst.ip, h.dst.port;
    }

    ghost function Fields(): Header
      reads this
    {
      Header(SocketAddr(srcIp, srcPort), SocketAddr(dstIp, dstPort))
    }

    /** A packet to an address that is not proxied is passed over. A SYN opens an entry under its source; any
        other packet must come from a source that has one. A packet taken on is sent to the listener, and a
        packet from this very node gets a source the local stack will answer. */
    method TryHandlePeerPacket(net: Net, table: CidrSet.CidrTable, s: State, id: Id, isSyn: bool, isAck: bool,
                               toExitNode: bool)
      returns (handled: bool, s': State)
      requires Inv(s) && id !in s.entries
      modifies this
      ensures var h := old(Fields());
              var target := Target(net, table.cidrs, table.mappedToReal, h.dst.ip, toExitNode);
              && (handled <==> && target.Some? && net.Local().Some?
                               && ((isSyn && !isAck) || Lookup(s, h.src).Some?))
              && Fields() == (if handled then Inbound(net, h) else h)
              && s' == if handled && isSyn && !isAck then Opened(s, id, h, target.value) else s
      ensures Inv(s')
    {
      s' := s;
      var local := net.Local();
      var realDstIp := CheckPacketFromPeer(net, table, dstIp, toExitNode);
      if local.None? || realDstIp.None? {
        return false, s;
      }
      var src := SocketAddr(srcIp, srcPort);
      if isSyn && !isAck {
        var mappedDst := SocketAddr(dstIp, dstPort);
        s' := Opened(s, id, Header(src, mappedDst), realDstIp.value);
      } else if src !in s.addrConn && src !in s.syn {
        return false, s;
      }
      if !net.smoltcp && srcIp == local.value.address {
        srcIp := local.value.First();
      }
      dstIp := local.value.address;
      dstPort := net.localPort;
      handled := true;
    }

    /** A packet of the local stack is a reply if it comes from the listener and an entry knows its
        destination; it then leaves under the address the peer connected to. */
    method TryProcessPacketFromNic(net: Net, s: State) returns (handled: bool)
      requires Inv(s)
      modifies this
      ensures handled <==> Outbound(net, s, old(Fields())).Some?
      ensures Fields() == if handled then Outbound(net, s, old(Fields())).value else old(Fields())
    {
      var local := net.Local();
      if local.None? || srcIp != local.value.address || srcPort != net.localPort {
        return false;
      }
      var dstAddr := SocketAddr(dstIp, dstPort);
      var needTransformDst := false;
      if !net.smoltcp && dstAddr.ip == local.value.First() {
        dstAddr := SocketAddr(local.value.address, dstAddr.port);
        needTransformDst := true;
      }
      var found := Lookup(s, dstAddr);
      if found.None? {
        return false;
      }
      FoundEntry(s, dstAddr);
      var entry := s.entries[found.value];
      assert entry.src == dstAddr;
      srcIp := entry.mappedDst.ip;
      if needTransformDst {
        dstIp := local.value.address;
      }
      srcPort := entry.realDst.port;
      handled := true;
    }
  }

  /** The address behind the destination of a packet from a peer, if the packet is for the proxy at all. */
  function Target(net: Net, cidrs: seq<CidrSet.Cidr>, reals: map<CidrSet.Cidr, CidrSet.Cidr>, dst: Ip,
                  toExitNode: bool): Option<Ip>
  {
    var (found, behind) := CidrSet.Find(cidrs, reals, dst, dst);
    if cidrs == [] && !net.exitNode && !net.noTun then None
    else if found || toExitNode || (net.noTun && net.ipv4.Some? && dst == net.ipv4.value.address) then Some(behind)
    else None
  }

  method CheckPacketFromPeer(net: Net, table: CidrSet.CidrTable, dst: Ip, toExitNode: bool)
    returns (realDst: Option<Ip>)
    ensures realDst == Target(net, table.cidrs, table.mappedToReal, dst, toExitNode)
  {
    if table.cidrs == [] && !net.exitNode && !net.noTun {
      return None;
    }
    var found, realDstIp := table.ContainsV4(dst, dst);
    if !(found || toExitNode || (net.noTun && net.ipv4.Some? && dst == net.ipv4.value.address)) {
      return None;
    }
    realDst := Some(realDstIp);
  }

  /** The state after the SYN of a packet has been noted. */
  function Opened(s: State, id: Id, h: Header, realIp: Ip): (r: State)
    requires id !in s.entries
    ensures Inv(s) ==> Inv(r)
  {
    OpenedGood(s, id, h, realIp);
    Apply(s, Syn(id, h.src, h.dst, realIp))
  }

  lemma OpenedGood(s: State, id: Id, h: Header, realIp: Ip)
    requires id !in s.entries
    ensures Inv(s) ==> Inv(Apply(s, Syn(id, h.src, h.dst, realIp)))
  {
    if Inv(s) {
      StepKeepsInv(s, Syn(id, h.src, h.dst, realIp));
    }
  }

  function Inbound(net: Net, h: Header): Header
    requires net.Local().Some?
  {
    var local := net.Local().value;
    Header(SocketAddr(if !net.smoltcp && h.src.ip == local.address then local.First() else h.src.ip, h.src.port),
           SocketAddr(local.address, net.localPort))
  }

  /** The address a reply is looked up under. */
  function ReplyKey(net: Net, dst: SocketAddr): SocketAddr
    requires net.Local().Some?
  {
    var local := net.Local().value;
    if !net.smoltcp && dst.ip == local.First() then SocketAddr(local.address, dst.port) else dst
  }

  function Outbound(net: Net, s: State, h: Header): Option<Header>
    requires Inv(s)
  {
    if net.Local().None? || h.src != SocketAddr(net.Local().value.address, net.localPort) then None
    else
      var key := ReplyKey(net, h.dst);
      var found := Lookup(s, key);
      if found.None? then None
      else
        FoundEntry(s, key);
        var e := s.entries[found.value];
        Some(Header(SocketAddr(e.mappedDst.ip, e.realDst.port), key))
  }

  /** The source under which the accept loop looks up a connection of the local stack. */
  function AcceptKey(net: Net, peer: SocketAddr): SocketAddr {
    if net.ipv4.Some? && peer.ip == net.ipv4.value.First() then SocketAddr(net.ipv4.value.address, peer.port)
    else peer
  }

  /** Where a connection task connects to: a proxied address that is the node's own is reached inside. */
  function ConnectsTo(net: Net, e: Entry): SocketAddr {
    if net.ipv4.Some? && e.realDst.ip == net.ipv4.value.address
    then SocketAddr(Address(127, 0, 0, 1), e.realDst.port) else e.realDst
  }

  lemma FoundEntry(s: State, key: SocketAddr)
    requires Inv(s) && Lookup(s, key).Some?
    ensures Lookup(s, key).value in s.entries && s.entries[Lookup(s, key).value].src == key
  {
    AssertionsHold(s, ReplyConn(key));
    AssertionsHold(s, ReplySyn(key));
  }

  // --- Where connections lead ---

  /** With configured networks a packet is for the proxy if and only if something is proxied and it goes to a
      mapped address, to an exit node, or to the node itself when that has no device; an address in no mapped
      prefix stands for itself, and with disjoint mapped prefixes one inside stands for its image. */
  lemma TargetExact(net: Net, networks: seq<CidrSet.ProxyNetwork>, dst: Ip, toExitNode: bool)
    ensures var target := Target(net, CidrSet.MappedOf(networks), CidrSet.RealOf(networks), dst, toExitNode);
            var mapped := exists i :: 0 <= i < |networks| && CidrSet.Contains(networks[i].Mapped(), dst);
            && (target.Some? <==>
                  && (networks != [] || net.exitNode || net.noTun)
                  && (|| mapped || toExitNode
                      || (net.noTun && net.ipv4.Some? && net.ipv4.value.address == dst)))
            && (target.Some? && !mapped ==> target.value == dst)
            && (target.Some? && CidrSet.Disjoint(networks) ==>
                  forall i :: 0 <= i < |networks| && CidrSet.Contains(networks[i].Mapped(), dst) ==>
                    target.value == CidrSet.Remap(dst, networks[i].Mapped(), networks[i].cidr))
  {
    CidrSet.FindAny(networks, dst, dst);
    if CidrSet.Disjoint(networks) {
      forall i | 0 <= i < |networks| && CidrSet.Contains(networks[i].Mapped(), dst)
        ensures CidrSet.Find(CidrSet.MappedOf(networks), CidrSet.RealOf(networks), dst, dst)
             == (true, CidrSet.Remap(dst, networks[i].Mapped(), networks[i].cidr))
      {
        CidrSet.FindInPair(networks, i, dst, dst);
      }
    }
  }

  /** The step notes the SYN of a packet that was taken on. */
  ghost predicate SynOf(net: Net, networks: seq<CidrSet.ProxyNetwork>, a: Action, h: Header, toExitNode: bool) {
    && a.Syn? && a.src == h.src && a.mappedDst == h.dst
    && Target(net, CidrSet.MappedOf(networks), CidrSet.RealOf(networks), h.dst.ip, toExitNode) == Some(a.realIp)
  }

  /** In every later state of every run, the connection opened by a packet to an address of a mapped prefix
      leads to the address of the real prefix with the same host bits, on the port the peer named, and to the
      loopback address when that is the node's own. */
  lemma ConnectsToReal(net: Net, networks: seq<CidrSet.ProxyNetwork>, states: seq<State>, actions: seq<Action>,
                       j: nat, n: nat, i: nat, h: Header, toExitNode: bool)
    requires IsRun(states, actions) && j < |actions| && j < n < |states|
    requires CidrSet.WellFormed(networks) && CidrSet.Disjoint(networks) && i < |networks|
    requires SynOf(net, networks, actions[j], h, toExitNode)
    requires CidrSet.Contains(if networks[i].mapped.Some? then networks[i].mapped.value else networks[i].cidr,
                              h.dst.ip)
    ensures actions[j].id in states[n].entries
    ensures var e, pair := states[n].entries[actions[j].id], networks[i];
            && e.src == h.src && e.mappedDst == h.dst && e.realDst.port == h.dst.port
            && CidrSet.Contains(pair.cidr, e.realDst.ip)
            && CidrSet.Host(e.realDst.ip, pair.cidr.length) == CidrSet.Host(h.dst.ip, pair.cidr.length)
            && ConnectsTo(net, e).port == h.dst.port
            && ConnectsTo(net, e).ip == if net.ipv4.Some? && net.ipv4.value.address == e.realDst.ip
                                        then Address(127, 0, 0, 1) else e.realDst.ip
  {
    var e := Entry(h.src, SocketAddr(actions[j].realIp, h.dst.port), h.dst, states[j].clock);
    assert MadeBy(states, actions, j, actions[j].id, e);
    EntryHistory(states, actions, n, actions[j].id, e);
    TargetExact(net, networks, h.dst.ip, toExitNode);
    assert CidrSet.SameLengths(networks[i]);
    CidrSet.RemapInverts(networks[i].Mapped(), networks[i].cidr, h.dst.ip);
  }

  // --- The stand-in for the local address ---

  /** The source cannot be confused with the stand-in for the local address. */
  predicate SourceDistinct(net: Net, h: Header)
    requires net.Local().Some?
  {
    var local := net.Local().value;
    net.smoltcp || h.src.ip != local.First() || local.First() == local.address
  }

  /** The first address of a network keeps the network bits and has no others; a node has it if and only if
      its own address has no host bits. */
  lemma FirstAddress(inet: Inet)
    ensures forall k :: 0 <= k < 32 ==> inet.First()[k] == (k < inet.length && inet.address[k])
    ensures inet.First() == inet.address <==> forall k :: inet.length <= k < 32 ==> !inet.address[k]
  {
    if forall k :: inet.length <= k < 32 ==> !inet.address[k] {
      assert forall k :: 0 <= k < 32 ==> inet.First()[k] == inet.address[k];
    } else {
      var k :| inet.length <= k < 32 && inet.address[k];
      assert !inet.First()[k];
    }
  }

  /** The built-in stack sits at a fixed address, whatever virtual address the node has; any other listener
      sits at the virtual address. */
  lemma ListensAt(net: Net)
    ensures net.smoltcp ==> net.Local().Some? && Number(net.Local().value.address) == 0xC058_63FE
    ensures !net.smoltcp ==> net.Local() == net.ipv4
  {
    Pow2Octet(0);
    Pow2Octet(8);
    Pow2Octet(16);
    Pow2Octet(24);
    NumberOfBinary(0xC058_63FE, 32);
  }

  /** Every packet taken on goes to the listener. To the kernel it never seems to come from its own address,
      except for a node whose address is the first of its network; two sources that cannot be confused
      stay apart; and all sources but the local address are kept. */
  lemma InboundSources(net: Net, h: Header, g: Header)
    requires net.Local().Some?
    ensures var local, r := net.Local().value, Inbound(net, h);
            && r.dst == SocketAddr(local.address, net.localPort) && r.src.port == h.src.port
            && (!net.smoltcp && r.src.ip == local.address ==> local.First() == local.address)
            && (net.smoltcp || h.src.ip != local.address ==> r.src == h.src)
            && (!net.smoltcp && h.src.ip == local.address ==> r.src.ip == local.First())
            && (SourceDistinct(net, h) && SourceDistinct(net, g) && r.src == Inbound(net, g).src ==> h.src == g.src)
  {
  }

  /** At every moment of every run the accept loop finds the SYN of a packet under the source that the local
      stack reports, if and only if that source is not the first address of the virtual network. */
  lemma AcceptFindsSyn(net: Net, states: seq<State>, actions: seq<Action>, n: nat, h: Header)
    requires IsRun(states, actions) && n < |states| && net.Local().Some?
    requires h.src in states[n].syn && states[n].acceptor.Waiting?
    ensures var a := Accept(AcceptKey(net, Inbound(net, h).src));
            && AssertionHolds(states[n], a)
            && (Apply(states[n], a).acceptor == Got(states[n].syn[h.src])
                <==> net.ipv4.None? || h.src.ip != net.ipv4.value.First()
                     || net.ipv4.value.First() == net.ipv4.value.address)
  {
    RunKeepsInv(states, actions, n);
    var key := AcceptKey(net, Inbound(net, h).src);
    AssertionsHold(states[n], Accept(key));
    assert SynAt(states[n], h.src);
    assert key in states[n].syn ==> SynAt(states[n], key);
  }

  // --- Replies ---

  /** Endpoints exchanged, as in any answer. */
  function Swap(h: Header): Header {
    Header(h.dst, h.src)
  }

  /** The source is served by an entry that was opened to this destination. */
  ghost predicate Served(s: State, h: Header) {
    var id := Serving(s, h.src);
    id.Some? && id.value in s.entries && s.entries[id.value].mappedDst == h.dst
  }

  lemma RoundTripAt(net: Net, s: State, h: Header)
    requires Inv(s) && net.Local().Some?
    ensures Outbound(net, s, Swap(Inbound(net, h))) == Some(Swap(h)) <==> SourceDistinct(net, h) && Served(s, h)
  {
    var key := ReplyKey(net, Inbound(net, h).src);
    LookupServes(s, key);
    if SourceDistinct(net, h) {
      assert key == h.src;
      if Lookup(s, key).Some? {
        FoundEntry(s, key);
        var e := s.entries[Lookup(s, key).value];
        assert SocketAddr(e.mappedDst.ip, e.realDst.port) == e.mappedDst;
      }
    } else {
      assert key.ip != h.src.ip;
    }
  }

  /** Throughout every run: rewritten on the way in, answered by the local stack and rewritten on the way
      out, a packet comes back with its endpoints exchanged if and only if its source is not the stand-in
      address and the connection its source is served by was opened, by a SYN from that source, to the
      destination of the packet. */
  lemma RewriteRoundTrip(net: Net, states: seq<State>, actions: seq<Action>, n: nat, h: Header)
    requires IsRun(states, actions) && n < |states| && net.Local().Some?
    ensures Inv(states[n])
    ensures Outbound(net, states[n], Swap(Inbound(net, h))) == Some(Swap(h))
       <==> && SourceDistinct(net, h)
            && Serving(states[n], h.src).Some?
            && OpenedTo(actions, n, Serving(states[n], h.src).value, h.src, h.dst)
  {
    RunKeepsInv(states, actions, n);
    RoundTripAt(net, states[n], h);
    LookupServes(states[n], h.src);
    if Lookup(states[n], h.src).Some? {
      FoundEntry(states[n], h.src);
      OpenedToHistory(states, actions, n, Lookup(states[n], h.src).value, h.src, h.dst);
    }
  }

  /** A source that only ever opens connections to one destination gets its replies right through
      accept, copy and close, as long as anything of it is there at all. */
  lemma SingleFlow(net: Net, states: seq<State>, actions: seq<Action>, n: nat, h: Header)
    requires IsRun(states, actions) && n < |states| && net.Local().Some? && SourceDistinct(net, h)
    requires forall j :: 0 <= j < n && actions[j].Syn? && actions[j].src == h.src ==> actions[j].mappedDst == h.dst
    ensures Inv(states[n])
    ensures Outbound(net, states[n], Swap(Inbound(net, h))) == Some(Swap(h))
       <==> h.src in states[n].addrConn || h.src in states[n].syn
  {
    RewriteRoundTrip(net, states, actions, n, h);
    LookupServes(states[n], h.src);
    if Lookup(states[n], h.src).Some? {
      FoundEntry(states[n], h.src);
      var id := Lookup(states[n], h.src).value;
      OpenedToHistory(states, actions, n, id, h.src, states[n].entries[id].mappedDst);
    }
  }

  /** A SYN from a source without a connection gets its answer back right; with an older connection
      still mapped, the answer is rewritten for that one. */
  lemma SynAnswered(net: Net, s: State, id: Id, h: Header, realIp: Ip)
    requires Inv(s) && id !in s.entries && net.Local().Some? && SourceDistinct(net, h)
    ensures var s' := Opened(s, id, h, realIp);
            && Inv(s')
            && (Outbound(net, s', Swap(Inbound(net, h))) == Some(Swap(h))
                <==> h.src !in s.addrConn || Served(s, h))
  {
    var a := Syn(id, h.src, h.dst, realIp);
    var s' := Apply(s, a);
    StepKeepsInv(s, a);
    RoundTripAt(net, s', h);
    LookupServes(s, h.src);
    LookupServes(s', h.src);
    if h.src in s.addrConn {
      FoundEntry(s, h.src);
    }
  }
}
