/** The wire form of a TCP segment: building one into an Ethernet frame (`net_send_tcp_segment`, `kernel/net.c`,
    lines 884-946) and taking one apart again (`net_handle_packet`, lines 1271-1342, and the head of
    `net_handle_tcp`, lines 1166-1177). Layout as in RFC 793, section 3.1, and RFC 791, section 3.1. */
module TcpSegment {
  import opened Bytes
  import opened Checksum

  const FIN: nat := 0x01
  const SYN: nat := 0x02
  const RST: nat := 0x04
  const PSH: nat := 0x08
  const ACK: nat := 0x10
  const WINDOW: nat := 8192
  const TX_BUF_SIZE: nat := 2048
  const HEADER: nat := 20

  datatype Segment = Segment(srcPort: u16, dstPort: u16, seqNo: u32, ackNo: u32, flags: byte, payload: seq<byte>) {
    predicate Fin() { flags % 2 == 1 }
    predicate Syn() { flags / SYN % 2 == 1 }
    predicate Rst() { flags / RST % 2 == 1 }
    predicate Ack() { flags / ACK % 2 == 1 }
  }

  function Be16At(s: seq<byte>, o: nat): (v: u16)
    requires o + 2 <= |s|
  {
    0x100 * (s[o] as int) + s[o + 1] as int
  }

  function Be32At(s: seq<byte>, o: nat): (v: u32)
    requires o + 4 <= |s|
  {
    0x1_0000 * (Be16At(s, o) as int) + Be16At(s, o + 2) as int
  }

  // ---- Taking a segment apart ----

  /** The header checks and fields of `net_handle_tcp`; the payload starts where the data offset says. */
  function Parse(b: seq<byte>): (r: Option<Segment>) {
    if |b| < HEADER then None
    else
      var off := b[12] as int / 16 * 4;
      if off < HEADER || off > |b| then None
      else Some(Segment(Be16At(b, 0), Be16At(b, 2), Be32At(b, 4), Be32At(b, 8), b[13], b[off..]))
  }

  /** A TCP segment and the address it came from. */
  datatype Datagram = Datagram(src: seq<byte>, bytes: seq<byte>)

  /** `net_handle_packet`, for IPv4 frames that carry TCP: the segment ends where the IP header says, not where the
      frame does. */
  function Extract(f: seq<byte>): (r: Option<Datagram>) {
    if |f| < 34 || f[12] != 8 || f[13] != 0 then None
    else
      var ihl := f[14] as int % 16 * 4;
      if ihl < 20 || |f| < 14 + ihl then None
      else
        var left := |f| - 14 - ihl;
        var total := Be16At(f, 16);
        var n := if total >= ihl && total - ihl < left then total - ihl else left;
        if f[23] != 6 then None else Some(Datagram(f[26..30], f[14 + ihl..14 + ihl + n]))
  }

  // ---- Building one ----

  /** The TCP header in front of its checksum field: ports, numbers, offset 5, flags, window. */
  function Head(g: Segment): (h: seq<byte>)
    ensures |h| == 16
  {
    [g.srcPort / 0x100, g.srcPort % 0x100, g.dstPort / 0x100, g.dstPort % 0x100,
     g.seqNo / 0x100_0000, g.seqNo / 0x1_0000 % 0x100, g.seqNo / 0x100 % 0x100, g.seqNo % 0x100,
     g.ackNo / 0x100_0000, g.ackNo / 0x1_0000 % 0x100, g.ackNo / 0x100 % 0x100, g.ackNo % 0x100,
     0x50, g.flags, WINDOW / 0x100, WINDOW % 0x100]
  }

  function Pseudo(src: seq<byte>, dst: seq<byte>, n: nat): (p: seq<byte>)
    requires |src| == 4 && |dst| == 4 && n < 0x1_0000
    ensures |p| == 12
  {
    src + dst + [0, 6] + PutBe16(n)
  }

  ghost predicate Fits(payload: seq<byte>) {
    14 + 20 + HEADER + |payload| <= TX_BUF_SIZE
  }

  /** Header and payload with the checksum over pseudo-header and segment in place. */
  function TcpBytes(src: seq<byte>, dst: seq<byte>, g: Segment): (b: seq<byte>)
    requires |src| == 4 && |dst| == 4 && Fits(g.payload)
    ensures |b| == HEADER + |g.payload|
  {
    var zeroed := Head(g) + [0, 0] + ([0, 0] + g.payload);
    var c := OfParts(Pseudo(src, dst, HEADER + |g.payload|), zeroed);
    Head(g) + PutBe16(c) + ([0, 0] + g.payload)
  }

  function IpHead(n: nat): (h: seq<byte>)
    requires n < 0x1_0000
    ensures |h| == 10
  {
    [0x45, 0, n / 0x100, n % 0x100, 0x4D, 0x4C, 0, 0, 64, 6]
  }

  function IpHeader(src: seq<byte>, dst: seq<byte>, n: nat): (h: seq<byte>)
    requires |src| == 4 && |dst| == 4 && n < 0x1_0000
    ensures |h| == 20
  {
    IpHead(n) + PutBe16(Of(IpHead(n) + [0, 0] + (src + dst))) + (src + dst)
  }

  function Zeros(n: nat): (z: seq<byte>)
    ensures |z| == n && forall i :: 0 <= i < n ==> z[i] == 0
  {
    if n == 0 then [] else Zeros(n - 1) + [0]
  }

  /** The frame handed to the network card, padded to the Ethernet minimum of 60 bytes. */
  function Frame(dstMac: seq<byte>, srcMac: seq<byte>, src: seq<byte>, dst: seq<byte>, g: Segment): (f: seq<byte>)
    requires |dstMac| == 6 && |srcMac| == 6 && |src| == 4 && |dst| == 4 && Fits(g.payload)
  {
    var b := TcpBytes(src, dst, g);
    var f := dstMac + srcMac + [8, 0] + IpHeader(src, dst, 20 + |b|) + b;
    f + Zeros(if |f| < 60 then 60 - |f| else 0)
  }

  /** `net_send_tcp_segment` up to the hand-over to the card; too long a payload is refused. */
  method BuildFrame(dstMac: seq<byte>, srcMac: seq<byte>, src: seq<byte>, dst: seq<byte>, g: Segment)
    returns (r: Option<seq<byte>>)
    requires |dstMac| == 6 && |srcMac| == 6 && |src| == 4 && |dst| == 4
    ensures r.Some? <==> |g.payload| <= 1994
    ensures r == if Fits(g.payload) then Some(Frame(dstMac, srcMac, src, dst, g)) else None
  {
    var frameLen := 14 + 20 + HEADER + |g.payload|;
    if frameLen > TX_BUF_SIZE { return None; }
    var ipSum := Checksum16(IpHead(frameLen - 14) + [0, 0] + (src + dst));
    var ip := IpHead(frameLen - 14) + PutBe16(ipSum) + (src + dst);
    var c := ChecksumParts(Pseudo(src, dst, HEADER + |g.payload|), Head(g) + [0, 0] + ([0, 0] + g.payload));
    var frame := dstMac + srcMac + [8, 0] + ip + (Head(g) + PutBe16(c) + ([0, 0] + g.payload));
    frame := frame + Zeros(if |frame| < 60 then 60 - |frame| else 0);
    r := Some(frame);
  }

  // ---- What a receiver finds ----

  /** The segment sums with its pseudo-header, both addresses, protocol 6 and the length, to all ones (RFC 793, section
      3.1). */
  lemma SegmentVerifies(src: seq<byte>, dst: seq<byte>, g: Segment)
    requires |src| == 4 && |dst| == 4 && Fits(g.payload)
    ensures var n := 20 + |g.payload|;
            Fold(WordSum(src + dst + [0, 6, n / 0x100, n % 0x100] + TcpBytes(src, dst, g))) == 0xFFFF
  {
    PseudoIs(src, dst, 20 + |g.payload|);
    PseudoVerifies(src, dst, g);
  }

  lemma PseudoIs(src: seq<byte>, dst: seq<byte>, n: nat)
    requires |src| == 4 && |dst| == 4 && n < 0x1_0000
    ensures Pseudo(src, dst, n) == src + dst + [0, 6, n / 0x100, n % 0x100]
  {
  }

  lemma PseudoVerifies(src: seq<byte>, dst: seq<byte>, g: Segment)
    requires |src| == 4 && |dst| == 4 && Fits(g.payload)
    ensures Fold(WordSum(Pseudo(src, dst, 20 + |g.payload|) + TcpBytes(src, dst, g))) == 0xFFFF
  {
    var p := Pseudo(src, dst, HEADER + |g.payload|);
    var head, post := p + Head(g), [0, 0] + g.payload;
    var zeroed := Head(g) + [0, 0] + post;
    assert p + zeroed == head + [0, 0] + post;
    PartsAreWhole(p, zeroed);
    WordSumBound(head + [0, 0] + post);
    StoredChecksumVerifies(head, post);
    var c := Of(head + [0, 0] + post);
    assert p + TcpBytes(src, dst, g) == head + PutBe16(c) + post;
  }

  lemma IpHeaderVerifies(src: seq<byte>, dst: seq<byte>, n: nat)
    requires |src| == 4 && |dst| == 4 && n < 0x1_0000
    ensures Fold(WordSum(IpHeader(src, dst, n))) == 0xFFFF
  {
    WordSumBound(IpHead(n) + [0, 0] + (src + dst));
    StoredChecksumVerifies(IpHead(n), src + dst);
  }

  /** The flag bits. */
  lemma FlagBits(g: Segment)
    ensures g.Fin() <==> g.flags % 2 == 1
    ensures g.Syn() <==> g.flags % 4 >= 2
    ensures g.Rst() <==> g.flags % 8 >= 4
    ensures g.Ack() <==> g.flags % 32 >= 16
  {
    Bit1(g.flags);
    Bit2(g.flags);
    Bit4(g.flags);
  }

  lemma Bit1(x: byte)
    ensures x / 2 % 2 == 1 <==> x % 4 >= 2
  {
    assert x / 2 == 2 * (x / 4) + x % 4 / 2;
  }

  lemma Bit2(x: byte)
    ensures x / 4 % 2 == 1 <==> x % 8 >= 4
  {
    assert x / 4 == 2 * (x / 8) + x % 8 / 4;
  }

  lemma Bit4(x: byte)
    ensures x / 16 % 2 == 1 <==> x % 32 >= 16
  {
    assert x / 16 == 2 * (x / 32) + x % 32 / 16;
  }

  /** Where everything stands in the frame (RFC 791 and RFC 793, section 3.1). */
  lemma FrameLayout(dstMac: seq<byte>, srcMac: seq<byte>, src: seq<byte>, dst: seq<byte>, g: Segment, f: seq<byte>)
    requires |dstMac| == 6 && |srcMac| == 6 && |src| == 4 && |dst| == 4 && Fits(g.payload)
    requires f == Frame(dstMac, srcMac, src, dst, g)
    ensures |f| == if |g.payload| < 6 then 60 else 54 + |g.payload|
    ensures f[0..6] == dstMac && f[6..12] == srcMac && f[12] == 0x08 && f[13] == 0x00
    ensures f[14] == 0x45 && f[15] == 0 && 0x100 * (f[16] as int) + f[17] as int == 40 + |g.payload|
    ensures f[18] == 0x4D && f[19] == 0x4C && f[20] == 0 && f[21] == 0
    ensures f[22] == 64 && f[23] == 6 && f[26..30] == src && f[30..34] == dst
    ensures SegmentFields(f, g) && f[52] == 0 && f[53] == 0
    ensures f[54..54 + |g.payload|] == g.payload && forall i :: 54 + |g.payload| <= i < |f| ==> f[i] == 0
  {
    var b := TcpBytes(src, dst, g);
    var eth, ip := dstMac + srcMac + [8, 0], IpHeader(src, dst, 20 + |b|);
    var pad := Zeros(if |eth + ip + b| < 60 then 60 - |eth + ip + b| else 0);
    assert f == eth + ip + b + pad;
    FramePlaces(eth, ip, b, pad);
    SegmentPlaces(src, dst, g, f);
  }

  lemma SegmentPlaces(src: seq<byte>, dst: seq<byte>, g: Segment, f: seq<byte>)
    requires |src| == 4 && |dst| == 4 && Fits(g.payload) && |f| >= 54 + |g.payload|
    requires f[34..54 + |g.payload|] == TcpBytes(src, dst, g)
    ensures SegmentFields(f, g) && f[52] == 0 && f[53] == 0 && f[54..54 + |g.payload|] == g.payload
  {
    var b, h := TcpBytes(src, dst, g), Head(g);
    assert b[20..] == g.payload && b[18] == 0 && b[19] == 0;
    assert forall i :: 0 <= i < 16 ==> f[34 + i] == b[i] == h[i];
    assert f[52] == b[18] && f[53] == b[19];
    assert f[54..54 + |g.payload|] == b[20..];
    HeadPlaces(f, g);
  }

  ghost predicate SegmentFields(f: seq<byte>, g: Segment) {
    && |f| >= 54
    && 0x100 * (f[34] as int) + f[35] as int == g.srcPort && 0x100 * (f[36] as int) + f[37] as int == g.dstPort
    && Word(f[38], f[39], f[40], f[41]) == g.seqNo && Word(f[42], f[43], f[44], f[45]) == g.ackNo
    && f[46] == 0x50 && f[47] == g.flags && 0x100 * (f[48] as int) + f[49] as int == 8192
  }

  function Word(a: byte, b: byte, c: byte, d: byte): nat {
    0x100_0000 * (a as int) + 0x1_0000 * (b as int) + 0x100 * (c as int) + d as int
  }

  lemma WordOf(x: u32)
    ensures Word(x / 0x100_0000, x / 0x1_0000 % 0x100, x / 0x100 % 0x100, x % 0x100) == x
  {
    var y, z := x / 0x100, x / 0x1_0000;
    assert x == 0x100 * y + x % 0x100;
    assert y == 0x100 * z + y % 0x100;
    assert z == 0x100 * (x / 0x100_0000) + z % 0x100;
  }

  lemma HeadPlaces(f: seq<byte>, g: Segment)
    requires |f| >= 54 && forall i :: 0 <= i < 16 ==> f[34 + i] == Head(g)[i]
    ensures SegmentFields(f, g)
  {
    WordOf(g.seqNo);
    WordOf(g.ackNo);
    var h := Head(g);
    assert f[34] == h[0] && f[35] == h[1] && f[36] == h[2] && f[37] == h[3];
    assert f[38] == h[4] && f[39] == h[5] && f[40] == h[6] && f[41] == h[7];
    assert f[42] == h[8] && f[43] == h[9] && f[44] == h[10] && f[45] == h[11];
    assert f[46] == h[12] && f[47] == h[13] && f[48] == h[14] && f[49] == h[15];
  }

  lemma FramePlaces(eth: seq<byte>, ip: seq<byte>, b: seq<byte>, pad: seq<byte>)
    requires |eth| == 14 && |ip| == 20
    ensures var f := eth + ip + b + pad;
            && f[0..6] == eth[0..6] && f[6..12] == eth[6..12] && f[12] == eth[12] && f[13] == eth[13]
            && f[26..30] == ip[12..16] && f[30..34] == ip[16..20] && f[34..34 + |b|] == b
            && forall i :: 0 <= i < 20 ==> f[14 + i] == ip[i]
  {
  }

  // ---- Longer headers ----

  /** Options between the TCP header and the payload are passed over. */
  lemma OptionsSkipped(b: seq<byte>, g: Segment, options: seq<byte>)
    requires |b| >= 20 && Parse(b) == Some(g) && b[12] == 0x50 && |options| % 4 == 0 && |options| <= 40
    ensures Parse(b[..12] + [0x50 + 4 * |options|] + b[13..20] + options + b[20..]) == Some(g)
  {
    var c := b[..12] + [0x50 + 4 * |options|] + b[13..20] + options + b[20..];
    assert forall i :: 0 <= i < 20 && i != 12 ==> c[i] == b[i];
    assert c[12] as int / 16 * 4 == 20 + |options|;
    assert c[20 + |options|..] == b[20..];
  }

  /** So are options of the IP header. */
  lemma IpOptionsSkipped(f: seq<byte>, src: seq<byte>, b: seq<byte>, options: seq<byte>)
    requires |f| >= 54 + |options| + |b| && |options| % 4 == 0 && |options| <= 40 && 20 + |options| + |b| < 0x1_0000
    requires f[12] == 8 && f[13] == 0 && f[14] as int == 0x45 + |options| / 4 && f[23] == 6 && f[26..30] == src
    requires 0x100 * (f[16] as int) + f[17] as int == 20 + |options| + |b|
    requires f[34 + |options|..34 + |options| + |b|] == b
    ensures Extract(f) == Some(Datagram(src, b))
  {
    assert f[14] as int % 16 * 4 == 20 + |options|;
  }

  /** Segments and frames that are too short for what their headers say are refused. */
  lemma Refused(b: seq<byte>, f: seq<byte>)
    ensures |b| < 20 || b[12] < 0x50 || 4 * (b[12] as int / 16) > |b| ==> Parse(b).None?
    ensures |f| < 34 || f[14] as int % 16 < 5 || |f| < 14 + 4 * (f[14] as int % 16) ==> Extract(f).None?
    ensures |f| >= 34 && (f[12] != 8 || f[13] != 0 || f[23] != 6) ==> Extract(f).None?
  {
  }

  /** Parsing undoes building. */
  lemma ParseBuilt(src: seq<byte>, dst: seq<byte>, g: Segment)
    requires |src| == 4 && |dst| == 4 && Fits(g.payload)
    ensures Parse(TcpBytes(src, dst, g)) == Some(g)
  {
    var b, h := TcpBytes(src, dst, g), Head(g);
    assert forall i :: 0 <= i < 16 ==> b[i] == h[i];
    HeadFields(b, g);
    assert b[HEADER..] == g.payload;
  }

  lemma HeadFields(b: seq<byte>, g: Segment)
    requires |b| >= HEADER && forall i :: 0 <= i < 16 ==> b[i] == Head(g)[i]
    ensures Be16At(b, 0) == g.srcPort && Be16At(b, 2) == g.dstPort
    ensures Be32At(b, 4) == g.seqNo && Be32At(b, 8) == g.ackNo
    ensures b[12] == 0x50 && b[13] == g.flags
  {
    WordBytes(b, 4, g.seqNo);
    WordBytes(b, 8, g.ackNo);
  }

  lemma WordBytes(b: seq<byte>, at: nat, x: u32)
    requires at + 4 <= |b| && b[at] == x / 0x100_0000 && b[at + 1] == x / 0x1_0000 % 0x100
    requires b[at + 2] == x / 0x100 % 0x100 && b[at + 3] == x % 0x100
    ensures Be32At(b, at) == x
  {
    var y, z := x / 0x100, x / 0x1_0000;
    assert x == 0x100 * y + x % 0x100;
    assert y == 0x100 * z + y % 0x100;
    assert z == 0x100 * (x / 0x100_0000) + z % 0x100;
  }

  /** The whole trip: a frame built for a segment yields exactly that segment, the padding of short frames and
      all, to a receiver on the same wire. */
  lemma FrameRoundTrip(dstMac: seq<byte>, srcMac: seq<byte>, src: seq<byte>, dst: seq<byte>, g: Segment)
    requires |dstMac| == 6 && |srcMac| == 6 && |src| == 4 && |dst| == 4 && Fits(g.payload)
    ensures Extract(Frame(dstMac, srcMac, src, dst, g)) == Some(Datagram(src, TcpBytes(src, dst, g)))
    ensures Parse(TcpBytes(src, dst, g)) == Some(g)
  {
    ParseBuilt(src, dst, g);
    var b := TcpBytes(src, dst, g);
    var ip := IpHeader(src, dst, 20 + |b|);
    var eth := dstMac + srcMac + [8, 0];
    var f := Frame(dstMac, srcMac, src, dst, g);
    var pad := Zeros(if |eth + ip + b| < 60 then 60 - |eth + ip + b| else 0);
    assert f == eth + ip + b + pad;
    FramePieces(eth, ip, b, pad);
    IpFields(src, dst, 20 + |b|);
    ExtractExact(f, src, b);
  }

  lemma ExtractExact(f: seq<byte>, src: seq<byte>, b: seq<byte>)
    requires |f| >= 34 + |b| && 20 + |b| < 0x1_0000
    requires f[12] == 8 && f[13] == 0 && f[14] == 0x45 && f[23] == 6
    requires f[16] == (20 + |b|) / 0x100 && f[17] == (20 + |b|) % 0x100
    requires f[26..30] == src && f[34..34 + |b|] == b
    ensures Extract(f) == Some(Datagram(src, b))
  {
    assert Be16At(f, 16) == 20 + |b|;
  }

  lemma FramePieces(eth: seq<byte>, ip: seq<byte>, b: seq<byte>, pad: seq<byte>)
    requires |eth| == 14 && |ip| == 20
    ensures var f := eth + ip + b + pad;
            && f[12] == eth[12] && f[13] == eth[13]
            && f[14] == ip[0] && f[16] == ip[2] && f[17] == ip[3] && f[23] == ip[9]
            && f[26..30] == ip[12..16] && f[34..34 + |b|] == b
  {
  }

  lemma IpFields(src: seq<byte>, dst: seq<byte>, n: nat)
    requires |src| == 4 && |dst| == 4 && n < 0x1_0000
    ensures var ip := IpHeader(src, dst, n);
            && ip[0] == 0x45 && ip[2] == n / 0x100 && ip[3] == n % 0x100 && ip[9] == 6 && ip[12..16] == src
  {
  }
}
