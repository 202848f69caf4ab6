/** Rebuilding datagrams from fragments that arrive in any order. */
module Reassembly {
  import opened Options
  import opened Ipv4Wire
  import opened Sets

  datatype Fragment = Fragment(id: u16, offset: u16, data: seq<byte>)

  datatype IpPacket = IpPacket(totalLength: Option<u16>, fragments: seq<Fragment>)

  datatype Key = Key(source: Ipv4Addr, destination: Ipv4Addr, id: u16)

  datatype Entry = Entry(packet: IpPacket, timestamp: nat)

  /** What `assemble` leads to: OutOfRange stands for the panic of a slice outside the packet. */
  datatype Outcome = Incomplete | Assembled(data: seq<byte>) | OutOfRange

  /** The overlap test of the code, u16 wrap-around included. */
  predicate Overlaps(f: Fragment, g: Fragment) {
    || (f.offset <= g.offset < U16(f.offset + U16(|f.data|)))
    || (g.offset <= f.offset < U16(g.offset + U16(|g.data|)))
  }

  function WithFragment(p: IpPacket, g: Fragment): IpPacket {
    if exists f <- p.fragments :: Overlaps(f, g) then p else p.(fragments := p.fragments + [g])
  }

  function TotalData(fragments: seq<Fragment>): nat {
    if fragments == [] then 0
    else TotalData(fragments[..|fragments| - 1]) + |fragments[|fragments| - 1].data|
  }

  predicate IsComplete(p: IpPacket) {
    p.totalLength.Some? && U16(TotalData(p.fragments)) == p.totalLength.value
  }

  /** Stable sort by offset. */
  function InsertByOffset(s: seq<Fragment>, f: Fragment): (r: seq<Fragment>)
    ensures multiset(r) == multiset(s) + multiset{f}
  {
    if s == [] then [f]
    else if s[|s| - 1].offset <= f.offset then s + [f]
    else
      assert s == s[..|s| - 1] + [s[|s| - 1]];
      InsertByOffset(s[..|s| - 1], f) + [s[|s| - 1]]
  }

  function SortByOffset(s: seq<Fragment>): (r: seq<Fragment>)
    ensures multiset(r) == multiset(s)
  {
    if s == [] then []
    else
      assert s == s[..|s| - 1] + [s[|s| - 1]];
      InsertByOffset(SortByOffset(s[..|s| - 1]), s[|s| - 1])
  }

  predicate Fits(f: Fragment, len: nat) {
    f.offset + |f.data| <= len
  }

  predicate AllFit(fragments: seq<Fragment>, len: nat) {
    forall i :: 0 <= i < |fragments| ==> Fits(fragments[i], len)
  }

  function Overwrite(buf: seq<byte>, f: Fragment): (r: seq<byte>)
    requires Fits(f, |buf|)
    ensures |r| == |buf|
  {
    buf[..f.offset] + f.data + buf[f.offset + |f.data|..]
  }

  /** The buffer after copying the fragments into it one after the other. */
  function Blit(buf: seq<byte>, fragments: seq<Fragment>): (r: seq<byte>)
    requires AllFit(fragments, |buf|)
    ensures |r| == |buf|
  {
    if fragments == [] then buf
    else Overwrite(Blit(buf, fragments[..|fragments| - 1]), fragments[|fragments| - 1])
  }

  function Zeros(n: nat): (r: seq<byte>)
    ensures |r| == n
  {
    seq(n, _ => 0)
  }

  function AssembleSpec(p: IpPacket): Outcome {
    if !IsComplete(p) then Incomplete
    else
      var sorted := SortByOffset(p.fragments);
      if AllFit(sorted, p.totalLength.value)
      then Assembled(Blit(Zeros(p.totalLength.value), sorted))
      else OutOfRange
  }

  function Known(entries: map<Key, Entry>, key: Key): IpPacket {
    if key in entries then entries[key].packet else IpPacket(None, [])
  }

  predicate IsFragmented(p: Packet) {
    p.fragmentOffset != 0 || p.flags % 2 == 1
  }

  predicate IsLast(p: Packet) {
    p.flags % 2 == 0
  }

  /** A last fragment tells the total length; then the fragment is added. */
  function Received(known: IpPacket, p: Packet): IpPacket {
    var fragment := Fragment(p.id, U16(p.fragmentOffset * 8), p.payload);
    var len := U16(p.totalLength - p.headerLength * 4);
    var sized := if IsLast(p) then known.(totalLength := Some(U16(len + fragment.offset)))
                 else known;
    WithFragment(sized, fragment)
  }

  /** A packet whose length fields disagree with its payload is ignored. */
  predicate LengthsAgree(p: Packet) {
    U16(p.totalLength - p.headerLength * 4) == U16(|p.payload|)
  }

  function AddSpec(entries: map<Key, Entry>, source: Ipv4Addr, destination: Ipv4Addr, p: Packet,
                   now: nat): (r: (map<Key, Entry>, Outcome)) {
    if !LengthsAgree(p) then (entries, Incomplete)
    else
      var key := Key(source, destination, p.id);
      var packet := Received(Known(entries, key), p);
      var outcome := AssembleSpec(packet);
      if outcome.Assembled? then (entries - {key}, outcome)
      else (entries[key := Entry(packet, now)], outcome)
  }

  function SweepSpec(entries: map<Key, Entry>, timeout: nat, now: nat): map<Key, Entry> {
    map k | k in entries && now - entries[k].timestamp <= timeout :: entries[k]
  }

  method AddFragmentTo(p: IpPacket, g: Fragment) returns (r: IpPacket)
    ensures r == WithFragment(p, g)
  {
    for i := 0 to |p.fragments|
      invariant forall j :: 0 <= j < i ==> !Overlaps(p.fragments[j], g)
    {
      var f := p.fragments[i];
      assert f in p.fragments;
      if f.offset <= g.offset < U16(f.offset + U16(|f.data|)) {
        return p;
      }
      if g.offset <= f.offset < U16(g.offset + U16(|g.data|)) {
        return p;
      }
    }
    r := p.(fragments := p.fragments + [g]);
  }

  /** The running sum is kept in 16 bits. */
  method CheckComplete(p: IpPacket) returns (r: bool)
    ensures r == IsComplete(p)
  {
    if p.totalLength.None? {
      return false;
    }
    var total: u16 := 0;
    for i := 0 to |p.fragments|
      invariant total == U16(TotalData(p.fragments[..i]))
    {
      assert p.fragments[..i + 1][..i] == p.fragments[..i];
      total := U16(total + U16(|p.fragments[i].data|));
    }
    assert p.fragments[..|p.fragments|] == p.fragments;
    r := total == p.totalLength.value;
  }

  method CopyInto(buf: array<byte>, f: Fragment)
    requires Fits(f, buf.Length)
    modifies buf
    ensures buf[..] == Overwrite(old(buf[..]), f)
  {
    forall k | 0 <= k < |f.data| {
      buf[f.offset + k] := f.data[k];
    }
  }

  method CopyAll(packet: array<byte>, fragments: seq<Fragment>) returns (inRange: bool)
    modifies packet
    ensures inRange == AllFit(fragments, packet.Length)
    ensures inRange ==> packet[..] == Blit(old(packet[..]), fragments)
  {
    ghost var start := packet[..];
    for i := 0 to |fragments|
      invariant AllFit(fragments[..i], packet.Length)
      invariant packet[..] == Blit(start, fragments[..i])
    {
      if !Fits(fragments[i], packet.Length) {
        return false;
      }
      assert fragments[..i + 1][..i] == fragments[..i];
      CopyInto(packet, fragments[i]);
    }
    assert fragments[..|fragments|] == fragments;
    inRange := true;
  }

  method Assemble(p: IpPacket) returns (r: Outcome)
    ensures r == AssembleSpec(p)
  {
    var complete := CheckComplete(p);
    if !complete {
      return Incomplete;
    }
    var sorted := SortByOffset(p.fragments);
    var packet := new byte[p.totalLength.value](_ => 0);
    assert packet[..] == Zeros(packet.Length);
    var inRange := CopyAll(packet, sorted);
    r := if inRange then Assembled(packet[..]) else OutOfRange;
  }

  method Receive(known: IpPacket, p: Packet) returns (r: IpPacket)
    ensures r == Received(known, p)
  {
    var fragment := Fragment(p.id, U16(p.fragmentOffset * 8), p.payload);
    r := known;
    if IsLast(p) {
      r := r.(totalLength := Some(U16(U16(p.totalLength - p.headerLength * 4) + fragment.offset)));
    }
    r := AddFragmentTo(r, fragment);
  }

  class IpReassembler {
    var packets: map<Key, Entry>
    const timeout: nat

    constructor (timeout: nat)
      ensures packets == map[] && this.timeout == timeout
    {
      packets := map[];
      this.timeout := timeout;
    }

    method AddFragment(source: Ipv4Addr, destination: Ipv4Addr, p: Packet, now: nat)
      returns (r: Outcome)
      modifies this
      ensures (packets, r) == AddSpec(old(packets), source, destination, p, now)
    {
      var len := U16(p.totalLength - p.headerLength * 4);
      if len != U16(|p.payload|) {
        return Incomplete;
      }
      var key := Key(source, destination, p.id);
      var packet := if key in packets then packets[key].packet else IpPacket(None, []);
      packet := Receive(packet, p);
      r := Assemble(packet);
      if r.Assembled? {
        packets := packets - {key};
      } else {
        packets := packets[key := Entry(packet, now)];
      }
    }

    method RemoveExpiredPackets(now: nat)
      modifies this
      ensures packets == SweepSpec(old(packets), timeout, now)
    {
      packets := map k | k in packets && now - packets[k].timestamp <= timeout :: packets[k];
    }
  }

  // --- Any fragments ---

  /** Whatever fragments are held, they are put together if and only if they hold as many bytes, in 16 bits,
      as the total length says, and then a slice is out of range if and only if one of them ends beyond it. */
  lemma AssembleExact(p: IpPacket)
    ensures AssembleSpec(p).Incomplete?
       <==> p.totalLength.None? || TotalData(p.fragments) % 0x1_0000 != p.totalLength.value
    ensures AssembleSpec(p).OutOfRange?
       <==> !AssembleSpec(p).Incomplete? && exists f <- p.fragments :: f.offset + |f.data| > p.totalLength.value
    ensures AssembleSpec(p).Assembled? ==> |AssembleSpec(p).data| == p.totalLength.value
  {
    var sorted := SortByOffset(p.fragments);
    forall f ensures f in sorted <==> f in p.fragments {
      assert f in multiset(sorted) <==> f in multiset(p.fragments);
    }
    if p.totalLength.Some? && !AllFit(sorted, p.totalLength.value) {
      var i :| 0 <= i < |sorted| && !Fits(sorted[i], p.totalLength.value);
      assert sorted[i] in sorted;
    }
  }

  /** Fragments within 16 bits overlap if and only if they share a position, or one of them is empty and lies
      inside the other. */
  lemma OverlapAny(f: Fragment, g: Fragment)
    requires f.offset + |f.data| < 0x1_0000 && g.offset + |g.data| < 0x1_0000
    ensures Overlaps(f, g)
       <==> || (exists x :: x in Span(f) && x in Span(g))
            || (g.data == [] && g.offset in Span(f))
            || (f.data == [] && f.offset in Span(g))
  {
    var x := if f.offset <= g.offset then g.offset else f.offset;
    assert x in Span(f) && x in Span(g) ==> Overlaps(f, g);
  }

  /** Fragments are put in place by offset. */
  lemma {:induction false} SortAscends(s: seq<Fragment>)
    ensures Ascending(SortByOffset(s))
  {
    if s != [] {
      SortAscends(s[..|s| - 1]);
      InsertAscends(SortByOffset(s[..|s| - 1]), s[|s| - 1], 0xFFFF);
    }
  }

  ghost predicate Ascending(s: seq<Fragment>) {
    forall i, j :: 0 <= i < j < |s| ==> s[i].offset <= s[j].offset
  }

  ghost predicate UpTo(s: seq<Fragment>, offset: nat) {
    forall i :: 0 <= i < |s| ==> s[i].offset <= offset
  }

  lemma SnocAscends(s: seq<Fragment>, f: Fragment)
    requires Ascending(s) && UpTo(s, f.offset)
    ensures Ascending(s + [f])
  {
  }

  lemma {:induction false} InsertAscends(s: seq<Fragment>, f: Fragment, most: nat)
    requires Ascending(s) && UpTo(s, most) && f.offset <= most
    ensures Ascending(InsertByOffset(s, f)) && UpTo(InsertByOffset(s, f), most)
  {
    if s != [] && s[|s| - 1].offset > f.offset {
      var init, last := s[..|s| - 1], s[|s| - 1];
      InsertAscends(init, f, last.offset);
      SnocAscends(InsertByOffset(init, f), last);
    } else {
      SnocAscends(s, f);
    }
  }

  // --- Fragments that all come from one payload ---

  /** f carries the bytes of the payload at its own offset, and something of it. */
  ghost predicate Truthful(f: Fragment, payload: seq<byte>) {
    && Fits(f, |payload|)
    && f.data != []
    && f.data == payload[f.offset..f.offset + |f.data|]
  }

  ghost predicate Apart(f: Fragment, g: Fragment) {
    f.offset + |f.data| <= g.offset || g.offset + |g.data| <= f.offset
  }

  ghost predicate PairwiseApart(fragments: seq<Fragment>) {
    forall i, j :: 0 <= i < j < |fragments| ==> Apart(fragments[i], fragments[j])
  }

  ghost predicate AllTruthful(fragments: seq<Fragment>, payload: seq<byte>) {
    forall i :: 0 <= i < |fragments| ==> Truthful(fragments[i], payload)
  }

  ghost predicate Within(x: int, lo: int, hi: int) {
    lo <= x < hi
  }

  ghost function Range(lo: int, hi: int): set<int> {
    set x | lo <= x < hi && Within(x, lo, hi)
  }

  lemma {:induction false} RangeSize(lo: int, hi: int)
    requires lo <= hi
    ensures |Range(lo, hi)| == hi - lo
    decreases hi - lo
  {
    if lo < hi {
      RangeSize(lo, hi - 1);
      assert Range(lo, hi) == Range(lo, hi - 1) + {hi - 1};
    } else {
      assert Range(lo, hi) == {};
    }
  }

  ghost function Span(f: Fragment): set<int> {
    Range(f.offset, f.offset + |f.data|)
  }

  /** The positions some fragment writes. */
  ghost function Covered(fragments: seq<Fragment>): set<int> {
    if fragments == [] then {}
    else Covered(fragments[..|fragments| - 1]) + Span(fragments[|fragments| - 1])
  }

  lemma {:induction false} CoveredMembers(fragments: seq<Fragment>, x: int)
    ensures x in Covered(fragments) <==> exists f :: f in fragments && x in Span(f)
  {
    if fragments != [] {
      var init, last := fragments[..|fragments| - 1], fragments[|fragments| - 1];
      CoveredMembers(init, x);
      assert fragments == init + [last];
      if x in Covered(init) {
        var f :| f in init && x in Span(f);
        assert f in fragments;
      } else if x in Span(last) {
        assert last in fragments;
      }
    }
  }

  lemma ApartFromAll(fragments: seq<Fragment>, f: Fragment)
    requires forall g <- fragments :: Apart(g, f)
    ensures Covered(fragments) !! Span(f)
  {
    forall x | x in Covered(fragments) ensures x !in Span(f) {
      CoveredMembers(fragments, x);
    }
  }

  /** Apart fragments never write a position twice: positions written and bytes held are equally
      many. */
  lemma {:induction false} ApartCoverExactly(fragments: seq<Fragment>)
    requires PairwiseApart(fragments)
    ensures |Covered(fragments)| == TotalData(fragments)
  {
    if fragments != [] {
      var init, f := fragments[..|fragments| - 1], fragments[|fragments| - 1];
      ApartCoverExactly(init);
      ApartFromAll(init, f);
      RangeSize(f.offset, f.offset + |f.data|);
    }
  }

  /** Summing lengths decides coverage: apart fragments inside a payload hold as many bytes as the
      payload exactly when they cover it. */
  lemma SumDecidesCoverage(fragments: seq<Fragment>, payload: seq<byte>)
    requires PairwiseApart(fragments) && AllTruthful(fragments, payload)
    ensures TotalData(fragments) <= |payload|
    ensures TotalData(fragments) == |payload| <==> Covered(fragments) == Range(0, |payload|)
  {
    var all := Range(0, |payload|);
    RangeSize(0, |payload|);
    ApartCoverExactly(fragments);
    forall x | x in Covered(fragments) ensures x in all {
      CoveredMembers(fragments, x);
    }
    SubsetSize(Covered(fragments), all);
    if TotalData(fragments) == |payload| {
      SubsetOfSameSize(Covered(fragments), all);
    }
  }

  lemma OverwriteAt(buf: seq<byte>, f: Fragment, x: nat)
    requires Fits(f, |buf|) && x < |buf|
    ensures Overwrite(buf, f)[x]
         == if f.offset <= x < f.offset + |f.data| then f.data[x - f.offset] else buf[x]
  {
  }

  lemma {:induction false} BlitTruth(buf: seq<byte>, fragments: seq<Fragment>, payload: seq<byte>,
                                     x: nat)
    requires |buf| == |payload| && AllTruthful(fragments, payload) && x < |payload|
    ensures Blit(buf, fragments)[x] == if x in Covered(fragments) then payload[x] else buf[x]
  {
    if fragments != [] {
      var init, f := fragments[..|fragments| - 1], fragments[|fragments| - 1];
      BlitTruth(buf, init, payload, x);
      OverwriteAt(Blit(buf, init), f, x);
      assert x in Span(f) <==> Within(x, f.offset, f.offset + |f.data|);
    }
  }

  lemma SortKeepsMembers(s: seq<Fragment>, f: Fragment)
    ensures f in SortByOffset(s) <==> f in s
  {
    assert f in SortByOffset(s) <==> f in multiset(SortByOffset(s));
    assert f in s <==> f in multiset(s);
  }

  lemma SortKeepsCoverage(s: seq<Fragment>)
    ensures Covered(SortByOffset(s)) == Covered(s)
  {
    forall f {
      SortKeepsMembers(s, f);
    }
    forall x ensures x in Covered(SortByOffset(s)) <==> x in Covered(s) {
      CoveredMembers(s, x);
      CoveredMembers(SortByOffset(s), x);
    }
  }

  /** Whatever truthful fragments a packet holds and in whatever order they came, assembling it
      yields the whole payload when they cover it and nothing before that; no slice is ever out of
      range. */
  lemma AssembleTruth(p: IpPacket, payload: seq<byte>)
    requires PairwiseApart(p.fragments) && AllTruthful(p.fragments, payload)
    requires |payload| < 0x1_0000 && p.totalLength == Some(|payload|)
    ensures AssembleSpec(p) == if Covered(p.fragments) == Range(0, |payload|)
                               then Assembled(payload) else Incomplete
  {
    SumDecidesCoverage(p.fragments, payload);
    if IsComplete(p) {
      var sorted := SortByOffset(p.fragments);
      forall i | 0 <= i < |sorted| ensures Truthful(sorted[i], payload) {
        SortKeepsMembers(p.fragments, sorted[i]);
      }
      SortKeepsCoverage(p.fragments);
      forall x | 0 <= x < |payload| ensures Blit(Zeros(|payload|), sorted)[x] == payload[x] {
        assert Within(x, 0, |payload|);
        BlitTruth(Zeros(|payload|), sorted, payload, x);
      }
      assert Blit(Zeros(|payload|), sorted) == payload;
    }
  }

  /** For truthful fragments the 16-bit overlap test is exact. */
  lemma OverlapTestExact(f: Fragment, g: Fragment, payload: seq<byte>)
    requires |payload| < 0x1_0000 && Truthful(f, payload) && Truthful(g, payload)
    ensures Overlaps(f, g) <==> !Apart(f, g)
  {
  }

  lemma WithFragmentStaysTruthful(p: IpPacket, g: Fragment, payload: seq<byte>)
    requires PairwiseApart(p.fragments) && AllTruthful(p.fragments, payload)
    requires |payload| < 0x1_0000 && Truthful(g, payload)
    ensures PairwiseApart(WithFragment(p, g).fragments)
    ensures AllTruthful(WithFragment(p, g).fragments, payload)
  {
    forall i | 0 <= i < |p.fragments|
      ensures Overlaps(p.fragments[i], g) <==> !Apart(p.fragments[i], g)
    {
      OverlapTestExact(p.fragments[i], g, payload);
    }
  }
}
