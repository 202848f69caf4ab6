/** Whole runs of the reassembler over interleaved, repeated, reordered fragments of many composed
    datagrams, with expiry sweeps in between, against a reference that only remembers which pieces
    have come in. */
module ReassemblyRuns {
  import opened Options
  import opened Ipv4Wire
  import opened Ipv4Compose
  import opened Reassembly

  datatype Datagram = Datagram(protocol: byte, mtu: nat, payload: seq<byte>) {
    /** Composition accepts the datagram and its lengths fit the 16-bit fields. */
    predicate Valid() {
      && mtu > 0
      && 0 < |payload| < 0x1_0000
      && Min(mtu, |payload|) + HEADER_LEN < 0x1_0000
      && (|payload| > mtu ==> mtu % 8 == 0)
    }

    function Count(): nat
      requires Valid()
    {
      PieceCount(|payload|, mtu)
    }
  }

  /** One datagram for each source, destination and identification. */
  type Traffic = t: map<Key, Datagram> | forall k <- t :: t[k].Valid()

  datatype Event = Deliver(key: Key, index: nat, now: nat) | Sweep(now: nat)

  predicate ValidEvent(t: Traffic, e: Event) {
    e.Deliver? ==> e.key in t && e.index < t[e.key].Count()
  }

  /** The raw packet composition emitted for a piece. */
  function PacketFor(key: Key, d: Datagram, i: nat): (r: seq<byte>)
    requires d.Valid() && i < d.Count()
    ensures |r| >= HEADER_LEN
  {
    PiecePacket(Flow(key.source, key.destination, d.protocol, key.id, d.mtu), d.payload, i)
  }

  /** A receiver keys a packet by the addresses it reads from it. */
  function Step(entries: map<Key, Entry>, t: Traffic, timeout: nat, e: Event)
    : (r: (map<Key, Entry>, Outcome))
    requires ValidEvent(t, e)
  {
    match e
    case Deliver(key, i, now) =>
      var packet := Parse(PacketFor(key, t[key], i));
      AddSpec(entries, packet.source, packet.destination, packet, now)
    case Sweep(now) => (SweepSpec(entries, timeout, now), Incomplete)
  }

  function Run(t: Traffic, timeout: nat, events: seq<Event>): (r: (map<Key, Entry>, seq<Outcome>))
    requires forall e <- events :: ValidEvent(t, e)
    ensures |r.1| == |events|
  {
    if events == [] then (map[], [])
    else
      var (entries, outcomes) := Run(t, timeout, events[..|events| - 1]);
      var (entries', outcome) := Step(entries, t, timeout, events[|events| - 1]);
      (entries', outcomes + [outcome])
  }

  // --- The reference ---

  datatype Progress = Progress(got: set<nat>, timestamp: nat)

  ghost predicate AllReceived(got: set<nat>, n: nat) {
    forall i: nat :: i < n ==> i in got
  }

  ghost function ReferenceStep(seen: map<Key, Progress>, t: Traffic, timeout: nat, e: Event)
    : (map<Key, Progress>, Outcome)
    requires ValidEvent(t, e)
  {
    match e
    case Deliver(key, i, now) =>
      var got := (if key in seen then seen[key].got else {}) + {i};
      if AllReceived(got, t[key].Count()) then (seen - {key}, Assembled(t[key].payload))
      else (seen[key := Progress(got, now)], Incomplete)
    case Sweep(now) =>
      (map k | k in seen && now - seen[k].timestamp <= timeout :: seen[k], Incomplete)
  }

  ghost function ReferenceRun(t: Traffic, timeout: nat, events: seq<Event>)
    : (r: (map<Key, Progress>, seq<Outcome>))
    requires forall e <- events :: ValidEvent(t, e)
  {
    if events == [] then (map[], [])
    else
      var (seen, outcomes) := ReferenceRun(t, timeout, events[..|events| - 1]);
      var (seen', outcome) := ReferenceStep(seen, t, timeout, events[|events| - 1]);
      (seen', outcomes + [outcome])
  }

  // --- The pieces of one datagram as fragments ---

  function FragmentOf(key: Key, d: Datagram, i: nat): (f: Fragment)
    requires d.Valid() && i < d.Count()
  {
    PieceCountBounds(|d.payload|, d.mtu, i);
    Fragment(key.id, PieceStart(d.mtu, i), Piece(d.payload, d.mtu, i))
  }

  lemma FragmentTruthful(key: Key, d: Datagram, i: nat)
    requires d.Valid() && i < d.Count()
    ensures Truthful(FragmentOf(key, d, i), d.payload)
  {
    PieceCountBounds(|d.payload|, d.mtu, i);
  }

  /** Two pieces are either the same or apart. */
  lemma FragmentsApart(key: Key, d: Datagram, i: nat, j: nat)
    requires d.Valid() && i < d.Count() && j < d.Count() && i != j
    ensures Apart(FragmentOf(key, d, i), FragmentOf(key, d, j))
  {
    PieceCountBounds(|d.payload|, d.mtu, i);
    PieceCountBounds(|d.payload|, d.mtu, j);
    if i < j {
      PiecesOrdered(d.mtu, i, j);
    } else {
      PiecesOrdered(d.mtu, j, i);
    }
  }

  /** The last piece ends where the payload ends. */
  lemma LastPieceEnds(d: Datagram)
    requires d.Valid()
    ensures d.Count() > 0 && PieceEnd(|d.payload|, d.mtu, d.Count() - 1) == |d.payload|
  {
    PieceCountBounds(|d.payload|, d.mtu, 0);
    PieceCountBounds(|d.payload|, d.mtu, d.Count());
    NextPieceStart(d.mtu, d.Count() - 1);
  }

  /** Every position of the payload lies in some piece. */
  lemma PieceAt(d: Datagram, x: nat) returns (i: nat)
    requires d.Valid() && x < |d.payload|
    ensures i < d.Count() && PieceStart(d.mtu, i) <= x < PieceEnd(|d.payload|, d.mtu, i)
  {
    i := x / d.mtu;
    assert x == i * d.mtu + x % d.mtu;
    PieceCountBounds(|d.payload|, d.mtu, i);
  }

  /** What an entry that has seen the pieces in `got` looks like. */
  ghost predicate Matches(p: IpPacket, key: Key, d: Datagram, got: set<nat>)
    requires d.Valid()
  {
    && PairwiseApart(p.fragments)
    && AllTruthful(p.fragments, d.payload)
    && (forall i <- got :: i < d.Count() && FragmentOf(key, d, i) in p.fragments)
    && (forall f <- p.fragments :: FromPiece(f, key, d, got))
    && p.totalLength == if d.Count() - 1 in got then Some(|d.payload|) else None
  }

  ghost predicate FromPiece(f: Fragment, key: Key, d: Datagram, got: set<nat>)
    requires d.Valid()
  {
    exists i <- got :: i < d.Count() && f == FragmentOf(key, d, i)
  }

  function Sized(known: IpPacket, d: Datagram, i: nat): IpPacket
    requires d.Valid()
  {
    if i == d.Count() - 1 then known.(totalLength := Some(|d.payload|)) else known
  }

  /** The header of a composed packet sets the entry up exactly as the piece deserves. */
  lemma ReceivedFields(known: IpPacket, key: Key, d: Datagram, i: nat, flow: Flow)
    requires d.Valid() && i < d.Count() && flow.mtu == d.mtu && flow.id == key.id
    ensures LengthsAgree(PieceFields(flow, d.payload, i))
    ensures Received(known, PieceFields(flow, d.payload, i))
         == WithFragment(Sized(known, d, i), FragmentOf(key, d, i))
  {
    PieceOffset(flow, |d.payload|, i);
    PieceCountBounds(|d.payload|, d.mtu, i);
    LastPieceEnds(d);
    var p := PieceFields(flow, d.payload, i);
    assert Fragment(p.id, U16(p.fragmentOffset * 8), p.payload) == FragmentOf(key, d, i);
    LastFlag(flow, d, i);
  }

  /** The flags of a packet end the datagram exactly on its last piece. */
  lemma LastFlag(flow: Flow, d: Datagram, i: nat)
    requires d.Valid() && i < d.Count() && flow.mtu == d.mtu
    ensures PieceHeader(flow, |d.payload|, i).flags % 2 == 0 <==> i == d.Count() - 1
  {
  }

  lemma ReceivedPiece(known: IpPacket, key: Key, d: Datagram, i: nat)
    requires d.Valid() && i < d.Count()
    ensures var packet := Parse(PacketFor(key, d, i));
            LengthsAgree(packet) && Key(packet.source, packet.destination, packet.id) == key
    ensures Received(known, Parse(PacketFor(key, d, i)))
         == WithFragment(Sized(known, d, i), FragmentOf(key, d, i))
  {
    var flow := Flow(key.source, key.destination, d.protocol, key.id, d.mtu);
    PieceParses(flow, d.payload, i, []);
    ReceivedFields(known, key, d, i, flow);
  }

  /** A packet that lost its end on the way changes nothing. */
  lemma TruncatedIgnored(entries: map<Key, Entry>, key: Key, d: Datagram, i: nat, len: nat,
                         source: Ipv4Addr, destination: Ipv4Addr, now: nat)
    requires d.Valid() && i < d.Count() && HEADER_LEN <= len < |PacketFor(key, d, i)|
    ensures AddSpec(entries, source, destination, Parse(PacketFor(key, d, i)[..len]), now)
         == (entries, Incomplete)
  {
    var flow := Flow(key.source, key.destination, d.protocol, key.id, d.mtu);
    var piece := Piece(d.payload, d.mtu, i);
    PieceCountBounds(|d.payload|, d.mtu, i);
    assert PacketFor(key, d, i)[..len]
        == HeaderBytes(PieceHeader(flow, |d.payload|, i)) + piece[..len - HEADER_LEN];
    ParseTruncated(PieceHeader(flow, |d.payload|, i), piece, len - HEADER_LEN);
  }

  /** Bytes behind the end of a packet make no difference. */
  lemma PaddingIgnored(key: Key, d: Datagram, i: nat, extra: seq<byte>)
    requires d.Valid() && i < d.Count()
    ensures Parse(PacketFor(key, d, i) + extra) == Parse(PacketFor(key, d, i))
  {
    PieceParses(Flow(key.source, key.destination, d.protocol, key.id, d.mtu), d.payload, i, extra);
  }

  /** A packet is treated as a fragment if and only if its datagram was cut, and as the last one if and only
      if it is the last piece. */
  lemma FragmentedExact(key: Key, d: Datagram, i: nat)
    requires d.Valid() && i < d.Count()
    ensures var p := Parse(PacketFor(key, d, i));
            && (IsFragmented(p) <==> d.Count() > 1)
            && (IsLast(p) <==> i == d.Count() - 1)
  {
    var flow := Flow(key.source, key.destination, d.protocol, key.id, d.mtu);
    PieceParses(flow, d.payload, i, []);
    PieceOffset(flow, |d.payload|, i);
    PieceCountBounds(|d.payload|, d.mtu, i);
    LastFlag(flow, d, i);
  }

  /** A repeat is refused, a new piece is kept. */
  lemma MatchesExtends(p: IpPacket, key: Key, d: Datagram, got: set<nat>, i: nat)
    requires d.Valid() && i < d.Count() && Matches(p, key, d, got)
    ensures Matches(WithFragment(Sized(p, d, i), FragmentOf(key, d, i)), key, d, got + {i})
  {
    var g := FragmentOf(key, d, i);
    var sized := Sized(p, d, i);
    FragmentTruthful(key, d, i);
    WithFragmentStaysTruthful(sized, g, d.payload);
    var r := WithFragment(sized, g);
    if i in got {
      OverlapTestExact(g, g, d.payload);
      assert r == sized;
    } else {
      forall f | f in p.fragments ensures !Overlaps(f, g) {
        var j :| j in got && j < d.Count() && f == FragmentOf(key, d, j);
        FragmentsApart(key, d, j, i);
        FragmentTruthful(key, d, j);
        OverlapTestExact(f, g, d.payload);
      }
      assert r.fragments == p.fragments + [g];
    }
    forall f | f in r.fragments ensures FromPiece(f, key, d, got + {i}) {
      if f in p.fragments {
        var j :| j in got && j < d.Count() && f == FragmentOf(key, d, j);
        assert j in got + {i};
      } else {
        assert i in got + {i};
      }
    }
  }

  lemma CoveredStartReceived(p: IpPacket, key: Key, d: Datagram, got: set<nat>, i: nat)
    requires d.Valid() && Matches(p, key, d, got) && i < d.Count()
    requires PieceStart(d.mtu, i) in Covered(p.fragments)
    ensures i in got
  {
    var x := PieceStart(d.mtu, i);
    CoveredMembers(p.fragments, x);
    var f :| f in p.fragments && x in Span(f);
    var j :| j in got && j < d.Count() && f == FragmentOf(key, d, j);
    PieceCountBounds(|d.payload|, d.mtu, i);
    if i != j {
      FragmentsApart(key, d, i, j);
    }
  }

  lemma ReceivedCovers(p: IpPacket, key: Key, d: Datagram, got: set<nat>, x: nat)
    requires d.Valid() && Matches(p, key, d, got) && AllReceived(got, d.Count()) && x < |d.payload|
    ensures x in Covered(p.fragments)
  {
    var i := PieceAt(d, x);
    var f := FragmentOf(key, d, i);
    assert f in p.fragments;
    assert Within(x, f.offset, f.offset + |f.data|);
    CoveredMembers(p.fragments, x);
  }

  lemma CoverageMeansAllReceived(p: IpPacket, key: Key, d: Datagram, got: set<nat>)
    requires d.Valid() && Matches(p, key, d, got)
    ensures Covered(p.fragments) == Range(0, |d.payload|) <==> AllReceived(got, d.Count())
  {
    if Covered(p.fragments) == Range(0, |d.payload|) {
      forall i: nat | i < d.Count() ensures i in got {
        PieceCountBounds(|d.payload|, d.mtu, i);
        assert Within(PieceStart(d.mtu, i), 0, |d.payload|);
        CoveredStartReceived(p, key, d, got, i);
      }
    }
    if AllReceived(got, d.Count()) {
      forall x ensures x in Covered(p.fragments) <==> x in Range(0, |d.payload|) {
        CoveredMembers(p.fragments, x);
        if 0 <= x < |d.payload| {
          ReceivedCovers(p, key, d, got, x);
          assert Within(x, 0, |d.payload|);
        }
      }
    }
  }

  lemma OutcomeOfMatch(p: IpPacket, key: Key, d: Datagram, got: set<nat>)
    requires d.Valid() && Matches(p, key, d, got)
    ensures AssembleSpec(p) == if AllReceived(got, d.Count()) then Assembled(d.payload) else Incomplete
  {
    LastPieceEnds(d);
    if d.Count() - 1 in got {
      AssembleTruth(p, d.payload);
      CoverageMeansAllReceived(p, key, d, got);
    }
  }

  // --- Runs ---

  ghost predicate Related(entries: map<Key, Entry>, seen: map<Key, Progress>, t: Traffic) {
    && entries.Keys == seen.Keys
    && entries.Keys <= t.Keys
    && forall k <- entries ::
         && entries[k].timestamp == seen[k].timestamp
         && Matches(entries[k].packet, k, t[k], seen[k].got)
  }

  lemma DeliverRelated(entries: map<Key, Entry>, seen: map<Key, Progress>, t: Traffic, timeout: nat,
                       e: Event)
    requires e.Deliver? && ValidEvent(t, e) && Related(entries, seen, t)
    ensures var got := (if e.key in seen then seen[e.key].got else {}) + {e.index};
            var packet := Received(Known(entries, e.key), Parse(PacketFor(e.key, t[e.key], e.index)));
            && Matches(packet, e.key, t[e.key], got)
            && AssembleSpec(packet) == if AllReceived(got, t[e.key].Count())
                                       then Assembled(t[e.key].payload) else Incomplete
  {
    var d := t[e.key];
    var known := Known(entries, e.key);
    var got := if e.key in seen then seen[e.key].got else {};
    ReceivedPiece(known, e.key, d, e.index);
    MatchesExtends(known, e.key, d, got, e.index);
    OutcomeOfMatch(WithFragment(Sized(known, d, e.index), FragmentOf(e.key, d, e.index)), e.key, d,
                   got + {e.index});
  }

  lemma StepRelated(entries: map<Key, Entry>, seen: map<Key, Progress>, t: Traffic, timeout: nat,
                    e: Event)
    requires ValidEvent(t, e) && Related(entries, seen, t)
    ensures Step(entries, t, timeout, e).1 == ReferenceStep(seen, t, timeout, e).1
    ensures Related(Step(entries, t, timeout, e).0, ReferenceStep(seen, t, timeout, e).0, t)
  {
    if e.Deliver? {
      DeliverRelated(entries, seen, t, timeout, e);
      ReceivedPiece(Known(entries, e.key), e.key, t[e.key], e.index);
    }
  }

  lemma {:induction false} RunRelated(t: Traffic, timeout: nat, events: seq<Event>)
    requires forall e <- events :: ValidEvent(t, e)
    ensures Run(t, timeout, events).1 == ReferenceRun(t, timeout, events).1
    ensures Related(Run(t, timeout, events).0, ReferenceRun(t, timeout, events).0, t)
  {
    if events != [] {
      var init, e := events[..|events| - 1], events[|events| - 1];
      RunRelated(t, timeout, init);
      StepRelated(Run(t, timeout, init).0, ReferenceRun(t, timeout, init).0, t, timeout, e);
    }
  }

  // --- One datagram, delivered in any order and with repeats ---

  predicate Indices(d: Datagram, indices: seq<nat>)
    requires d.Valid()
  {
    forall j :: 0 <= j < |indices| ==> indices[j] < d.Count()
  }

  function Deliveries(key: Key, d: Datagram, indices: seq<nat>, times: seq<nat>): (r: seq<Event>)
    requires d.Valid() && |indices| == |times| && Indices(d, indices)
    ensures |r| == |indices| && forall e <- r :: ValidEvent(map[key := d], e)
  {
    seq(|indices|, j requires 0 <= j < |indices| => Deliver(key, indices[j], times[j]))
  }

  ghost predicate HasAll(indices: seq<nat>, n: nat) {
    forall i: nat :: i < n ==> i in indices
  }

  /** While a piece is missing the reference has seen exactly the delivered pieces. */
  lemma {:induction false} StillMissing(key: Key, d: Datagram, indices: seq<nat>, times: seq<nat>,
                                        timeout: nat)
    requires d.Valid() && |indices| == |times|
    requires Indices(d, indices)
    requires !HasAll(indices, d.Count())
    ensures var (seen, outcomes) := ReferenceRun(map[key := d], timeout,
                                                 Deliveries(key, d, indices, times));
            && outcomes == seq(|indices|, _ => Incomplete)
            && (if indices == [] then seen == map[]
                else key in seen && forall i: nat :: i in seen[key].got <==> i in indices)
  {
    if indices != [] {
      var m := |indices| - 1;
      assert indices == indices[..m] + [indices[m]];
      StillMissing(key, d, indices[..m], times[..m], timeout);
      assert Deliveries(key, d, indices, times)[..m] == Deliveries(key, d, indices[..m], times[..m]);
      var (seen, _) := ReferenceRun(map[key := d], timeout, Deliveries(key, d, indices[..m], times[..m]));
      var got := (if key in seen then seen[key].got else {}) + {indices[m]};
      var i: nat :| i < d.Count() && i !in indices;
      assert i !in got;
      assert !AllReceived(got, d.Count());
    }
  }

  /** The round trip: the pieces of one composition, delivered in any order and with any repeats,
      give nothing until the last missing piece arrives and then exactly the payload. */
  lemma RoundTrip(key: Key, d: Datagram, indices: seq<nat>, times: seq<nat>, timeout: nat)
    requires d.Valid() && 0 < |indices| == |times|
    requires Indices(d, indices)
    requires HasAll(indices, d.Count()) && !HasAll(indices[..|indices| - 1], d.Count())
    ensures Run(map[key := d], timeout, Deliveries(key, d, indices, times)).1
         == seq(|indices| - 1, _ => Incomplete) + [Assembled(d.payload)]
  {
    var t: Traffic := map[key := d];
    var m := |indices| - 1;
    assert indices == indices[..m] + [indices[m]];
    RunRelated(t, timeout, Deliveries(key, d, indices, times));
    StillMissing(key, d, indices[..m], times[..m], timeout);
    assert Deliveries(key, d, indices, times)[..m] == Deliveries(key, d, indices[..m], times[..m]);
    var (seen, _) := ReferenceRun(t, timeout, Deliveries(key, d, indices[..m], times[..m]));
    var got := (if key in seen then seen[key].got else {}) + {indices[m]};
    forall i: nat | i < d.Count() ensures i in got {
      assert i in indices;
    }
    assert AllReceived(got, d.Count());
  }
}
