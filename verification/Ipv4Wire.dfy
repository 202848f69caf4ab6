/** The IPv4 header as bytes: what composition writes and what the packet accessors read back. */
module Ipv4Wire {

  type byte = x: int | 0 <= x < 256
  type u16 = x: int | 0 <= x < 0x1_0000

  datatype Ipv4Addr = Ipv4Addr(a: byte, b: byte, c: byte, d: byte)

  const MORE_FRAGMENTS := 1
  const DONT_FRAGMENT := 2
  const HEADER_LEN := 20

  /** The fields composition chooses; version, header length, DSCP, ECN and TTL are fixed. */
  datatype Header = Header(totalLength: u16, id: u16, flags: int, fragmentOffset: int,
                           protocol: byte, source: Ipv4Addr, destination: Ipv4Addr) {
    /** The three flag bits and the thirteen offset bits fit their fields. */
    predicate Valid() {
      0 <= flags < 8 && 0 <= fragmentOffset < 0x2000
    }
  }

  /** `x as u16`, and u16 arithmetic as a release build performs it. */
  function U16(x: int): (r: u16)
    ensures 0 <= x < 0x1_0000 ==> r == x
  {
    x % 0x1_0000
  }

  /** One's complement folding of a sum of 16-bit words. */
  function Fold(sum: nat): (r: u16) {
    if sum < 0x1_0000 then sum else Fold(sum / 0x1_0000 + sum % 0x1_0000)
  }

  function Sum(words: seq<u16>): nat {
    if words == [] then 0 else Sum(words[..|words| - 1]) + words[|words| - 1]
  }

  /** The header as 16-bit words; version and header length, then DSCP and ECN, make up the first. */
  function Words(h: Header, checksum: u16): (r: seq<u16>)
    requires h.Valid()
    ensures |r| == HEADER_LEN / 2
  {
    [0x4500, h.totalLength, h.id, h.flags * 0x2000 + h.fragmentOffset, 32 * 256 + h.protocol, checksum,
     h.source.a * 256 + h.source.b, h.source.c * 256 + h.source.d,
     h.destination.a * 256 + h.destination.b, h.destination.c * 256 + h.destination.d]
  }

  function Checksum(h: Header): (r: u16)
    requires h.Valid()
  {
    0xFFFF - Fold(Sum(Words(h, 0)))
  }

  /** Words with the high byte first. */
  function Serialize(words: seq<u16>): (r: seq<byte>)
    ensures |r| == 2 * |words|
  {
    if words == [] then []
    else
      var last := words[|words| - 1];
      Serialize(words[..|words| - 1]) + [last / 256, last % 256]
  }

  function HeaderBytes(h: Header): (r: seq<byte>)
    requires h.Valid()
    ensures |r| == HEADER_LEN
  {
    Serialize(Words(h, Checksum(h)))
  }

  /** A received packet as its accessors show it. */
  datatype Packet = Packet(version: int, headerLength: int, dscp: int, ecn: int, totalLength: u16, id: u16,
                           flags: int, fragmentOffset: int, ttl: byte, protocol: byte,
                           source: Ipv4Addr, destination: Ipv4Addr, payload: seq<byte>)

  function Word(high: int, low: int): int {
    high * 256 + low
  }

  /** The address in the four bytes from a position on. */
  function AddrAt(raw: seq<byte>, at: nat): Ipv4Addr
    requires at + 4 <= |raw|
  {
    Ipv4Addr(raw[at], raw[at + 1], raw[at + 2], raw[at + 3])
  }

  /** The packet accessors over a raw buffer: the payload skips options and stops at the total
      length or at the end of the buffer, whichever comes first. */
  function Parse(raw: seq<byte>): (p: Packet)
    requires |raw| >= HEADER_LEN
  {
    var totalLength := Word(raw[2], raw[3]);
    var headerLength := raw[0] % 16;
    var start := HEADER_LEN + if headerLength > 5 then (headerLength - 5) * 4 else 0;
    var len := if totalLength > headerLength * 4 then totalLength - headerLength * 4 else 0;
    var end := if start + len < |raw| then start + len else |raw|;
    Packet(raw[0] / 16, headerLength, raw[1] / 4, raw[1] % 4, totalLength, Word(raw[4], raw[5]),
           raw[6] / 32, Word(raw[6] % 32, raw[7]), raw[8], raw[9], AddrAt(raw, 12), AddrAt(raw, 16),
           if |raw| <= start then [] else raw[start..end])
  }

  lemma {:induction false} SerializeAt(words: seq<u16>, k: nat)
    requires k < |words|
    ensures var b := Serialize(words); b[2 * k] == words[k] / 256 && b[2 * k + 1] == words[k] % 256
  {
    if k < |words| - 1 {
      SerializeAt(words[..|words| - 1], k);
    }
  }

  lemma HighLow(x: u16)
    ensures Word(x / 256, x % 256) == x
  {
  }

  lemma BytesOfWord(high: byte, low: byte)
    ensures (high * 256 + low) / 256 == high && (high * 256 + low) % 256 == low
  {
  }

  /** Flag bits and the upper offset bits share a byte. */
  lemma FlagsByte(flags: int, offset: int)
    requires 0 <= flags < 8 && 0 <= offset < 0x2000
    ensures var w := flags * 0x2000 + offset;
            && w / 256 / 32 == flags
            && Word(w / 256 % 32, w % 256) == offset
  {
    var w := flags * 0x2000 + offset;
    assert w / 256 == flags * 32 + offset / 256 && w % 256 == offset % 256;
  }

  lemma HeaderFields(h: Header)
    requires h.Valid()
    ensures var b := HeaderBytes(h);
            && b[0] == 0x45 && b[1] == 0
            && Word(b[2], b[3]) == h.totalLength && Word(b[4], b[5]) == h.id
            && b[6] / 32 == h.flags && Word(b[6] % 32, b[7]) == h.fragmentOffset
  {
    var words := Words(h, Checksum(h));
    SerializeAt(words, 0);
    SerializeAt(words, 1);
    SerializeAt(words, 2);
    SerializeAt(words, 3);
    HighLow(h.totalLength);
    HighLow(h.id);
    FlagsByte(h.flags, h.fragmentOffset);
  }

  lemma HeaderAddresses(h: Header)
    requires h.Valid()
    ensures var b := HeaderBytes(h);
            && b[8] == 32 && b[9] == h.protocol
            && AddrAt(b, 12) == h.source && AddrAt(b, 16) == h.destination
  {
    var words := Words(h, Checksum(h));
    SerializeAt(words, 4);
    BytesOfWord(32, h.protocol);
    AddressBytes(words, 6, h.source);
    AddressBytes(words, 8, h.destination);
  }

  /** An address takes two words. */
  lemma AddressBytes(words: seq<u16>, k: nat, addr: Ipv4Addr)
    requires k + 1 < |words|
    requires words[k] == addr.a * 256 + addr.b && words[k + 1] == addr.c * 256 + addr.d
    ensures AddrAt(Serialize(words), 2 * k) == addr
  {
    SerializeAt(words, k);
    SerializeAt(words, k + 1);
    BytesOfWord(addr.a, addr.b);
    BytesOfWord(addr.c, addr.d);
  }

  /** Reading a packet with n words of options behind its fixed header, and bytes of no meaning behind its
      end. */
  lemma ParseSplit(header: seq<byte>, n: nat, options: seq<byte>, payload: seq<byte>, extra: seq<byte>)
    requires |header| == HEADER_LEN && n <= 10 && |options| == 4 * n && header[0] == 0x45 + n
    requires Word(header[2], header[3]) == HEADER_LEN + |options| + |payload|
    ensures Parse(header + options + payload + extra)
         == Packet(4, 5 + n, header[1] / 4, header[1] % 4, Word(header[2], header[3]),
                   Word(header[4], header[5]), header[6] / 32, Word(header[6] % 32, header[7]), header[8],
                   header[9], AddrAt(header, 12), AddrAt(header, 16), payload)
  {
    var raw := header + options + payload + extra;
    PayloadBehind(header, options, payload, extra);
    assert raw[0] / 16 == 4 && raw[0] % 16 == 5 + n;
  }

  lemma PayloadBehind(header: seq<byte>, options: seq<byte>, payload: seq<byte>, extra: seq<byte>)
    ensures var raw, start := header + options + payload + extra, |header| + |options|;
            && raw[start..start + |payload|] == payload
            && forall k :: 0 <= k < |header| ==> raw[k] == header[k]
  {
  }

  /** Reading back a written packet yields the written fields and payload, whatever follows it. */
  lemma ParseInvertsHeaderBytes(h: Header, payload: seq<byte>, extra: seq<byte>)
    requires h.Valid() && h.totalLength == HEADER_LEN + |payload|
    ensures Parse(HeaderBytes(h) + payload + extra)
         == Packet(4, 5, 0, 0, h.totalLength, h.id, h.flags, h.fragmentOffset, 32, h.protocol, h.source,
                   h.destination, payload)
  {
    HeaderFields(h);
    HeaderAddresses(h);
    ParseSplit(HeaderBytes(h), 0, [], payload, extra);
    assert HeaderBytes(h) + [] == HeaderBytes(h);
  }

  /** A written packet that was cut short is read with its total length and what is left of its payload. */
  lemma ParseTruncated(h: Header, payload: seq<byte>, len: nat)
    requires h.Valid() && h.totalLength == HEADER_LEN + |payload| && len <= |payload|
    ensures var p := Parse(HeaderBytes(h) + payload[..len]);
            p.totalLength == h.totalLength && p.headerLength == 5 && p.payload == payload[..len]
  {
    HeaderFields(h);
    var raw := HeaderBytes(h) + payload[..len];
    assert raw[..HEADER_LEN] == HeaderBytes(h);
    assert raw[HEADER_LEN..] == payload[..len];
  }

  // --- The checksum ---

  /** The words a receiver sums up. */
  function Deserialize(bytes: seq<byte>): (r: seq<u16>)
    requires |bytes| % 2 == 0
    ensures |r| == |bytes| / 2
  {
    if bytes == [] then []
    else
      var n := |bytes|;
      Deserialize(bytes[..n - 2]) + [Word(bytes[n - 2], bytes[n - 1])]
  }

  lemma {:induction false} DeserializeInverts(words: seq<u16>)
    ensures Deserialize(Serialize(words)) == words
  {
    if words != [] {
      var n, b := |words|, Serialize(words);
      DeserializeInverts(words[..n - 1]);
      assert b[..2 * n - 2] == Serialize(words[..n - 1]);
      HighLow(words[n - 1]);
      assert words == words[..n - 1] + [words[n - 1]];
    }
  }

  /** Folding takes away a multiple of 0xFFFF, and gives zero for zero only. */
  lemma {:induction false} FoldKeeps(sum: nat) returns (times: nat)
    ensures sum == Fold(sum) + 0xFFFF * times && (Fold(sum) == 0 <==> sum == 0)
  {
    times := 0;
    if sum >= 0x1_0000 {
      var high, low := sum / 0x1_0000, sum % 0x1_0000;
      assert sum == high * 0x1_0000 + low;
      times := FoldKeeps(high + low);
      times := times + high;
    }
  }

  lemma {:induction false} SumOfUpdate(words: seq<u16>, k: nat, word: u16)
    requires k < |words|
    ensures Sum(words[k := word]) == Sum(words) - words[k] + word
  {
    var n := |words| - 1;
    if k < n {
      SumOfUpdate(words[..n], k, word);
      assert words[k := word][..n] == words[..n][k := word];
    } else {
      assert words[k := word][..n] == words[..n];
    }
  }

  /** With the complement of the folded sum in a place that was zero, the sum folds to all ones. */
  lemma ComplementCompletes(words: seq<u16>, k: nat)
    requires k < |words| && words[k] == 0
    ensures Fold(Sum(words[k := 0xFFFF - Fold(Sum(words))])) == 0xFFFF
  {
    var sum := Sum(words);
    var complement := 0xFFFF - Fold(sum);
    SumOfUpdate(words, k, complement);
    var i := FoldKeeps(sum);
    var j := FoldKeeps(sum + complement);
    assert Fold(sum + complement) == 0xFFFF * (i + 1 - j);
  }

  /** A receiver that sums up the words of a written header gets all ones, as section 3.1 of RFC 791
      demands. */
  lemma ChecksumVerifies(h: Header)
    requires h.Valid()
    ensures Fold(Sum(Deserialize(HeaderBytes(h)))) == 0xFFFF
  {
    DeserializeInverts(Words(h, Checksum(h)));
    ComplementCompletes(Words(h, 0), 5);
    assert Words(h, Checksum(h)) == Words(h, 0)[5 := Checksum(h)];
  }
}
