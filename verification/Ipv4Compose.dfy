/** Fragmenting a payload in place: every header overwrites bytes that have already been sent. */
module Ipv4Compose {
  import opened Ipv4Wire

  /** Everything a composition is told apart from the buffer. */
  datatype Flow = Flow(source: Ipv4Addr, destination: Ipv4Addr, protocol: byte, id: u16, mtu: nat)

  function Min(a: int, b: int): int {
    if a < b then a else b
  }

  function PieceCount(len: nat, mtu: nat): nat
    requires mtu > 0
  {
    (len + mtu - 1) / mtu
  }

  /** Byte range of piece i. */
  function PieceStart(mtu: nat, i: nat): nat {
    i * mtu
  }

  function PieceEnd(len: nat, mtu: nat, i: nat): nat {
    Min(PieceStart(mtu, i) + mtu, len)
  }

  lemma PieceCountBounds(len: nat, mtu: nat, i: nat)
    requires mtu > 0
    ensures i < PieceCount(len, mtu) <==> PieceStart(mtu, i) < len
  {
    var n := PieceCount(len, mtu);
    assert len + mtu - 1 == n * mtu + (len + mtu - 1) % mtu;
    if i < n {
      assert i * mtu <= (n - 1) * mtu by { MulMonotone(i, n - 1, mtu); }
      assert (n - 1) * mtu == n * mtu - mtu;
    } else {
      assert n * mtu <= i * mtu by { MulMonotone(n, i, mtu); }
    }
  }

  lemma MulMonotone(a: nat, b: nat, m: nat)
    requires a <= b
    ensures a * m <= b * m
  {
  }

  lemma NextPieceStart(mtu: nat, i: nat)
    ensures PieceStart(mtu, i + 1) == PieceStart(mtu, i) + mtu
  {
  }

  /** Pieces with different indices occupy disjoint ranges. */
  lemma PiecesOrdered(mtu: nat, i: nat, j: nat)
    requires i < j
    ensures PieceStart(mtu, i) + mtu <= PieceStart(mtu, j)
  {
    MulMonotone(i + 1, j, mtu);
    NextPieceStart(mtu, i);
  }

  lemma PieceStartAligned(mtu: nat, i: nat)
    requires mtu % 8 == 0
    ensures PieceStart(mtu, i) % 8 == 0
  {
    var q := mtu / 8;
    assert i * mtu == 8 * (i * q) by {
      assert mtu == 8 * q;
    }
  }

  function Piece(payload: seq<byte>, mtu: nat, i: nat): (r: seq<byte>)
    requires mtu > 0 && i < PieceCount(|payload|, mtu)
    ensures 0 < |r| <= Min(mtu, |payload|)
  {
    PieceCountBounds(|payload|, mtu, i);
    payload[PieceStart(mtu, i)..PieceEnd(|payload|, mtu, i)]
  }

  function PieceHeader(flow: Flow, len: nat, i: nat): (h: Header)
    requires flow.mtu > 0 && i < PieceCount(len, flow.mtu)
    ensures h.Valid()
  {
    PieceCountBounds(len, flow.mtu, i);
    var total := PieceCount(len, flow.mtu);
    Header(U16(PieceEnd(len, flow.mtu, i) - PieceStart(flow.mtu, i) + HEADER_LEN), flow.id,
           if total == 1 then DONT_FRAGMENT else if i != total - 1 then MORE_FRAGMENTS else 0,
           if total == 1 then 0 else U16(PieceStart(flow.mtu, i)) / 8,
           flow.protocol, flow.source, flow.destination)
  }

  /** The i-th packet of a composition. */
  function PiecePacket(flow: Flow, payload: seq<byte>, i: nat): (r: seq<byte>)
    requires flow.mtu > 0 && i < PieceCount(|payload|, flow.mtu)
    ensures |r| >= HEADER_LEN
  {
    HeaderBytes(PieceHeader(flow, |payload|, i)) + Piece(payload, flow.mtu, i)
  }

  function Packets(flow: Flow, payload: seq<byte>, n: nat): (r: seq<seq<byte>>)
    requires flow.mtu > 0 && n <= PieceCount(|payload|, flow.mtu)
    ensures |r| == n
  {
    seq(n, i requires 0 <= i < n => PiecePacket(flow, payload, i))
  }

  function Concat(pieces: seq<seq<byte>>): seq<byte> {
    if pieces == [] then [] else Concat(pieces[..|pieces| - 1]) + pieces[|pieces| - 1]
  }

  /** What the receiver of packet r reads as payload. */
  function PayloadsOf(packets: seq<seq<byte>>): (r: seq<seq<byte>>)
    requires forall p <- packets :: |p| >= HEADER_LEN
    ensures |r| == |packets|
  {
    seq(|packets|, i requires 0 <= i < |packets| => Parse(packets[i]).payload)
  }

  /** The fields a receiver reads from the i-th packet, whatever bytes follow it. */
  lemma PieceParses(flow: Flow, payload: seq<byte>, i: nat, extra: seq<byte>)
    requires flow.mtu > 0 && i < PieceCount(|payload|, flow.mtu)
    requires Min(flow.mtu, |payload|) + HEADER_LEN < 0x1_0000
    ensures Parse(PiecePacket(flow, payload, i) + extra) == PieceFields(flow, payload, i)
    ensures Parse(PiecePacket(flow, payload, i)) == PieceFields(flow, payload, i)
  {
    PieceCountBounds(|payload|, flow.mtu, i);
    ParseInvertsHeaderBytes(PieceHeader(flow, |payload|, i), Piece(payload, flow.mtu, i), extra);
    assert PiecePacket(flow, payload, i) + [] == PiecePacket(flow, payload, i);
  }

  function PieceFields(flow: Flow, payload: seq<byte>, i: nat): Packet
    requires flow.mtu > 0 && i < PieceCount(|payload|, flow.mtu)
    requires Min(flow.mtu, |payload|) + HEADER_LEN < 0x1_0000
  {
    var h := PieceHeader(flow, |payload|, i);
    var piece := Piece(payload, flow.mtu, i);
    Packet(4, 5, 0, 0, |piece| + HEADER_LEN, flow.id, h.flags, h.fragmentOffset, 32, flow.protocol,
           flow.source, flow.destination, piece)
  }

  function Pieces(payload: seq<byte>, mtu: nat, n: nat): (r: seq<seq<byte>>)
    requires mtu > 0 && n <= PieceCount(|payload|, mtu)
    ensures |r| == n
  {
    seq(n, i requires 0 <= i < n => Piece(payload, mtu, i))
  }

  lemma PayloadsArePieces(flow: Flow, payload: seq<byte>, n: nat)
    requires flow.mtu > 0 && n <= PieceCount(|payload|, flow.mtu)
    requires Min(flow.mtu, |payload|) + HEADER_LEN < 0x1_0000
    ensures PayloadsOf(Packets(flow, payload, n)) == Pieces(payload, flow.mtu, n)
  {
    forall i | 0 <= i < n
      ensures PayloadsOf(Packets(flow, payload, n))[i] == Pieces(payload, flow.mtu, n)[i]
    {
      PieceParses(flow, payload, i, []);
    }
  }

  lemma {:induction false} PiecesConcat(payload: seq<byte>, mtu: nat, n: nat)
    requires mtu > 0 && n <= PieceCount(|payload|, mtu)
    ensures Concat(Pieces(payload, mtu, n)) == payload[..Min(PieceStart(mtu, n), |payload|)]
  {
    if n > 0 {
      PiecesConcat(payload, mtu, n - 1);
      PieceCountBounds(|payload|, mtu, n - 1);
      NextPieceStart(mtu, n - 1);
      assert Pieces(payload, mtu, n)[..n - 1] == Pieces(payload, mtu, n - 1);
    }
  }

  /** Laws of a whole composition: as many packets as the payload needs, their payloads concatenate
      to the original, every offset is the length sent so far in units of eight, MoreFragments marks
      all packets but the last, and all carry the addresses, protocol and identification of the flow. */
  lemma CompositionLaws(flow: Flow, payload: seq<byte>)
    requires flow.mtu > 0
    requires |payload| < 0x1_0000 && Min(flow.mtu, |payload|) + HEADER_LEN < 0x1_0000
    requires |payload| > flow.mtu ==> flow.mtu % 8 == 0
    ensures var n := PieceCount(|payload|, flow.mtu);
            var packets := Packets(flow, payload, n);
            && Concat(PayloadsOf(packets)) == payload
            && forall i :: 0 <= i < n ==> FieldsAreRight(flow, packets, i)
  {
    var n := PieceCount(|payload|, flow.mtu);
    PieceCountBounds(|payload|, flow.mtu, n);
    PiecesConcat(payload, flow.mtu, n);
    PayloadsArePieces(flow, payload, n);
    forall i | 0 <= i < n
      ensures FieldsAreRight(flow, Packets(flow, payload, n), i)
    {
      FieldsOfPiece(flow, payload, i);
    }
  }

  /** Packet i of a composition: its offset is the length of what went before it, and of the three flag bits
      the second says not to cut and the last that more follows. */
  ghost predicate FieldsAreRight(flow: Flow, packets: seq<seq<byte>>, i: nat)
    requires i < |packets| && forall p <- packets :: |p| >= HEADER_LEN
  {
    var p := Parse(packets[i]);
    && p.fragmentOffset * 8 == |Concat(PayloadsOf(packets[..i]))|
    && p.id == flow.id && p.protocol == flow.protocol
    && p.source == flow.source && p.destination == flow.destination
    && p.flags == if |packets| == 1 then 2 else if i == |packets| - 1 then 0 else 1
  }

  lemma FieldsOfPiece(flow: Flow, payload: seq<byte>, i: nat)
    requires flow.mtu > 0 && i < PieceCount(|payload|, flow.mtu)
    requires |payload| < 0x1_0000 && Min(flow.mtu, |payload|) + HEADER_LEN < 0x1_0000
    requires |payload| > flow.mtu ==> flow.mtu % 8 == 0
    ensures FieldsAreRight(flow, Packets(flow, payload, PieceCount(|payload|, flow.mtu)), i)
  {
    var n := PieceCount(|payload|, flow.mtu);
    PieceParses(flow, payload, i, []);
    PieceOffset(flow, |payload|, i);
    PiecesConcat(payload, flow.mtu, i);
    PayloadsArePieces(flow, payload, i);
    assert Packets(flow, payload, n)[..i] == Packets(flow, payload, i);
    PieceCountBounds(|payload|, flow.mtu, i);
  }

  /** In units of eight bytes the offset field is exact. */
  lemma PieceOffset(flow: Flow, len: nat, i: nat)
    requires flow.mtu > 0 && i < PieceCount(len, flow.mtu)
    requires len < 0x1_0000
    requires len > flow.mtu ==> flow.mtu % 8 == 0
    ensures PieceHeader(flow, len, i).fragmentOffset * 8 == PieceStart(flow.mtu, i)
  {
    PieceCountBounds(len, flow.mtu, i);
    PieceCountBounds(len, flow.mtu, 1);
    if PieceCount(len, flow.mtu) > 1 {
      PieceStartAligned(flow.mtu, i);
    }
  }

  method WriteHeader(buf: array<byte>, at: nat, h: Header)
    requires h.Valid() && at + HEADER_LEN <= buf.Length
    modifies buf
    ensures buf[at..at + HEADER_LEN] == HeaderBytes(h)
    ensures forall k :: 0 <= k < buf.Length && !(at <= k < at + HEADER_LEN) ==> buf[k] == old(buf[k])
  {
    var bytes := HeaderBytes(h);
    forall k | 0 <= k < HEADER_LEN {
      buf[at + k] := bytes[k];
    }
  }

  /** The payload sits behind room for one header. */
  function PayloadIn(buf: seq<byte>, len: nat): (r: seq<byte>)
    requires len > 0 ==> |buf| >= len + HEADER_LEN
  {
    if len == 0 then [] else buf[HEADER_LEN..HEADER_LEN + len]
  }

  /** The header the loop builds from its running values. */
  method BuildHeader(flow: Flow, len: nat, totalPieces: nat, curPiece: nat, fragmentOffset: nat,
                     fragmentLen: nat) returns (header: Header)
    requires flow.mtu > 0 && curPiece < totalPieces == PieceCount(len, flow.mtu)
    requires len > flow.mtu ==> flow.mtu % 8 == 0
    requires fragmentOffset == PieceStart(flow.mtu, curPiece)
    requires fragmentOffset + fragmentLen == PieceEnd(len, flow.mtu, curPiece)
    ensures header == PieceHeader(flow, len, curPiece)
  {
    var flags, offset := DONT_FRAGMENT, 0;
    if totalPieces > 1 {
      flags := if curPiece != totalPieces - 1 then MORE_FRAGMENTS else 0;
      assert fragmentOffset % 8 == 0 by {
        PieceCountBounds(len, flow.mtu, 1);
        PieceStartAligned(flow.mtu, curPiece);
      }
      offset := U16(fragmentOffset) / 8;
    }
    header := Header(U16(fragmentLen + HEADER_LEN), flow.id, flags, offset, flow.protocol,
                     flow.source, flow.destination);
  }

  /** A header in front of unsent payload makes the packet of that piece. */
  lemma PacketInBuffer(buf: seq<byte>, flow: Flow, payload: seq<byte>, i: nat)
    requires flow.mtu > 0 && i < PieceCount(|payload|, flow.mtu)
    requires |payload| + HEADER_LEN <= |buf|
    requires PieceStart(flow.mtu, i) <= PieceEnd(|payload|, flow.mtu, i) <= |payload|
    requires var from := PieceStart(flow.mtu, i);
             && buf[from..from + HEADER_LEN] == HeaderBytes(PieceHeader(flow, |payload|, i))
             && buf[HEADER_LEN + from..HEADER_LEN + |payload|] == payload[from..]
    ensures buf[PieceStart(flow.mtu, i)..HEADER_LEN + PieceEnd(|payload|, flow.mtu, i)]
         == PiecePacket(flow, payload, i)
  {
    HeaderThenBytes(buf, HeaderBytes(PieceHeader(flow, |payload|, i)), payload,
                    PieceStart(flow.mtu, i), PieceEnd(|payload|, flow.mtu, i));
  }

  lemma HeaderThenBytes(buf: seq<byte>, header: seq<byte>, payload: seq<byte>, from: nat, to: nat)
    requires |header| == HEADER_LEN && from <= to <= |payload| && |payload| + HEADER_LEN <= |buf|
    requires buf[from..from + HEADER_LEN] == header
    requires buf[HEADER_LEN + from..HEADER_LEN + |payload|] == payload[from..]
    ensures buf[from..HEADER_LEN + to] == header + payload[from..to]
  {
    SliceSplits(buf, from, from + HEADER_LEN, HEADER_LEN + to);
    SlicePrefix(buf, HEADER_LEN + from, HEADER_LEN + to, HEADER_LEN + |payload|);
    SlicePrefix(payload, from, to, |payload|);
  }

  lemma SliceSplits(s: seq<byte>, from: nat, mid: nat, to: nat)
    requires from <= mid <= to <= |s|
    ensures s[from..to] == s[from..mid] + s[mid..to]
  {
  }

  lemma SlicePrefix(s: seq<byte>, from: nat, mid: nat, to: nat)
    requires from <= mid <= to <= |s|
    ensures s[from..mid] == s[from..to][..mid - from]
  {
  }

  /** One turn of the loop: writes the header of a piece in front of it and returns the packet. */
  method ComposePiece(buf: array<byte>, flow: Flow, len: nat, totalPieces: nat, curPiece: nat,
                      fragmentOffset: nat, nextOffset: nat, ghost payload: seq<byte>)
    returns (packet: seq<byte>)
    requires flow.mtu > 0 && curPiece < totalPieces == PieceCount(len, flow.mtu)
    requires |payload| == len && len + HEADER_LEN <= buf.Length
    requires len > flow.mtu ==> flow.mtu % 8 == 0
    requires fragmentOffset == PieceStart(flow.mtu, curPiece) <= len
    requires nextOffset == PieceEnd(len, flow.mtu, curPiece)
    requires buf[HEADER_LEN + fragmentOffset..HEADER_LEN + len] == payload[fragmentOffset..]
    modifies buf
    ensures packet == PiecePacket(flow, payload, curPiece)
    ensures fragmentOffset <= nextOffset <= len
    ensures buf[HEADER_LEN + nextOffset..HEADER_LEN + len] == payload[nextOffset..]
  {
    var header := BuildHeader(flow, len, totalPieces, curPiece, fragmentOffset, nextOffset - fragmentOffset);
    ghost var tail := buf[HEADER_LEN + fragmentOffset..HEADER_LEN + len];
    WriteHeader(buf, fragmentOffset, header);
    assert buf[HEADER_LEN + fragmentOffset..HEADER_LEN + len] == tail;
    packet := buf[fragmentOffset..HEADER_LEN + nextOffset];
    PacketInBuffer(buf[..], flow, payload, curPiece);
    assert buf[HEADER_LEN + nextOffset..HEADER_LEN + len] == tail[nextOffset - fragmentOffset..];
  }

  lemma PacketsSnoc(flow: Flow, payload: seq<byte>, n: nat)
    requires flow.mtu > 0 && n < PieceCount(|payload|, flow.mtu)
    ensures Packets(flow, payload, n) + [PiecePacket(flow, payload, n)] == Packets(flow, payload, n + 1)
  {
  }

  /** `cb` tells whether the callback accepts a packet; the first refusal ends the composition. The
      packets handed to it are those of the payload that was in the buffer at the start, although
      every header is written over the buffer itself. */
  method ComposeIpv4Packet(buf: array<byte>, flow: Flow, payloadLen: nat, cb: seq<byte> -> bool)
    returns (ok: bool, sent: seq<seq<byte>>)
    requires flow.mtu > 0
    requires payloadLen > 0 ==> buf.Length >= payloadLen + HEADER_LEN
    requires payloadLen > flow.mtu ==> flow.mtu % 8 == 0
    modifies buf
    ensures |sent| <= PieceCount(payloadLen, flow.mtu)
    ensures sent == Packets(flow, PayloadIn(old(buf[..]), payloadLen), |sent|)
    ensures ok ==> |sent| == PieceCount(payloadLen, flow.mtu) && forall p <- sent :: cb(p)
    ensures !ok ==> |sent| > 0 && !cb(sent[|sent| - 1]) && forall p <- sent[..|sent| - 1] :: cb(p)
  {
    var totalPieces := PieceCount(payloadLen, flow.mtu);
    var bufOffset, fragmentOffset, curPiece := 0, 0, 0;
    ghost var payload := PayloadIn(buf[..], payloadLen);
    sent := [];
    PieceCountBounds(payloadLen, flow.mtu, totalPieces);
    while fragmentOffset < payloadLen
      invariant curPiece <= totalPieces
      invariant bufOffset == fragmentOffset == Min(PieceStart(flow.mtu, curPiece), payloadLen)
      invariant payloadLen > 0 ==>
                  buf[HEADER_LEN + fragmentOffset..HEADER_LEN + payloadLen] == payload[fragmentOffset..]
      invariant sent == Packets(flow, payload, curPiece)
      invariant forall p <- sent :: cb(p)
    {
      PieceCountBounds(payloadLen, flow.mtu, curPiece);
      NextPieceStart(flow.mtu, curPiece);
      var nextFragmentOffset := Min(fragmentOffset + flow.mtu, payloadLen);
      var packet := ComposePiece(buf, flow, payloadLen, totalPieces, curPiece, bufOffset,
                                 nextFragmentOffset, payload);
      PacketsSnoc(flow, payload, curPiece);
      sent := sent + [packet];
      if !cb(packet) {
        return false, sent;
      }
      bufOffset := bufOffset + (nextFragmentOffset - fragmentOffset);
      fragmentOffset := nextFragmentOffset;
      curPiece := curPiece + 1;
    }
    PieceCountBounds(payloadLen, flow.mtu, curPiece);
    ok := true;
  }
}
