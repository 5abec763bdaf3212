/** The byte layout of the headers, field by field, as their diagrams draw it. */
module Layout {
  import opened Bytes
  import opened TcpHeader
  import opened Ipv4Header
  import opened Ipv6Header
  import opened SimpleHeaders
  import opened Layers
  import opened FinalizeSpec

  lemma {:induction false} WordPlace(ws: seq<u16>, tail: seq<byte>, i: nat)
    requires i < |ws|
    ensures (WordsBytes(ws) + tail)[2 * i..2 * i + 2] == Word(ws[i])
    decreases |ws|
  {
    hide Word;
    var s, s' := WordsBytes(ws) + tail, WordsBytes(ws[1..]) + tail;
    assert s == Word(ws[0]) + s';
    if i > 0 {
      WordPlace(ws[1..], tail, i - 1);
      assert s[2 * i..2 * i + 2] == s'[2 * (i - 1)..2 * (i - 1) + 2];
    }
  }

  lemma QuadPlace(ws: seq<u16>, tail: seq<byte>, i: nat, v: u32)
    requires i + 1 < |ws| && ws[i] == High(v) && ws[i + 1] == Low(v)
    ensures (WordsBytes(ws) + tail)[2 * i..2 * i + 4] == Quad(v)
  {
    hide WordsBytes, Word, High, Low;
    var s := WordsBytes(ws) + tail;
    WordPlace(ws, tail, i);
    WordPlace(ws, tail, i + 1);
    Adjacent(s, 2 * i, 2 * i + 2, 2 * i + 4);
  }

  lemma Adjacent(s: seq<byte>, i: nat, j: nat, k: nat)
    requires i <= j <= k <= |s|
    ensures s[i..k] == s[i..j] + s[j..k]
  {}

  lemma BytesOfWord(s: seq<byte>, i: nat, w: u16, hi: byte, lo: byte)
    requires i + 1 < |s| && s[i..i + 2] == Word(w) && w == WordOf(hi, lo)
    ensures s[i] == hi && s[i + 1] == lo
  {
    WordOfRoundTrip(hi, lo);
    assert s[i] == s[i..i + 2][0] && s[i + 1] == s[i..i + 2][1];
  }

  lemma EtherLayout(e: Ether)
    ensures var s := EtherBytes(e); s[..6] == e.dst && s[6..12] == e.src && s[12..14] == Word(e.etherType.id)
  {
    hide Word;
  }

  lemma UdpLayout(u: Udp)
    ensures var s := UdpBytes(u);
            && s[..2] == Word(u.sport) && s[2..4] == Word(u.dport)
            && s[4..6] == Word(u.length) && s[6..8] == Word(u.checksum)
  {
    hide Word, WordsBytes;
    var ws := UdpWords(u);
    assert UdpBytes(u) + [] == UdpBytes(u);
    WordPlace(ws, [], 0);
    WordPlace(ws, [], 1);
    WordPlace(ws, [], 2);
    WordPlace(ws, [], 3);
  }

  lemma IcmpLayout(m: Icmp4)
    ensures var s := IcmpBytes(m);
            && s[0] == m.icmpType.id && s[1] == m.code && s[2..4] == Word(m.checksum)
            && s[4..8] == Quad(m.message) && s[8..] == m.data
  {
    hide Word, WordsBytes, Quad, WordOf;
    var ws := IcmpWords(m);
    WordPlace(ws, m.data, 0);
    WordPlace(ws, m.data, 1);
    QuadPlace(ws, m.data, 2, m.message);
    BytesOfWord(IcmpBytes(m), 0, ws[0], m.icmpType.id, m.code);
  }

  // ----- TCP -----

  lemma BitsValueSnoc(bs: seq<u1>, b: u1)
    ensures BitsValue(bs + [b]) == 2 * BitsValue(bs) + b
  {
    assert (bs + [b])[..|bs|] == bs;
  }

  lemma NineBits(b: seq<u1>)
    requires |b| == 9
    ensures BitsValue(b)
            == 0x100 * b[0] as int + 0x80 * b[1] as int + 0x40 * b[2] as int + 0x20 * b[3] as int
               + 0x10 * b[4] as int + 8 * b[5] as int + 4 * b[6] as int + 2 * b[7] as int + b[8]
  {
    hide BitsValue;
    ThreeBits([], b[0], b[1], b[2]);
    ThreeBits([b[0], b[1], b[2]], b[3], b[4], b[5]);
    ThreeBits([b[0], b[1], b[2], b[3], b[4], b[5]], b[6], b[7], b[8]);
    assert b == [b[0], b[1], b[2], b[3], b[4], b[5]] + [b[6], b[7], b[8]];
    assert [b[0], b[1], b[2]] + [b[3], b[4], b[5]] == [b[0], b[1], b[2], b[3], b[4], b[5]];
    assert [] + [b[0], b[1], b[2]] == [b[0], b[1], b[2]];
    NoBits();
  }

  lemma NoBits()
    ensures BitsValue([]) == 0
  {}

  lemma ThreeBits(bs: seq<u1>, x: u1, y: u1, z: u1)
    ensures BitsValue(bs + [x, y, z]) == 8 * BitsValue(bs) + 4 * x + 2 * y + z
  {
    hide BitsValue;
    BitsValueSnoc(bs, x);
    BitsValueSnoc(bs + [x], y);
    BitsValueSnoc(bs + [x] + [y], z);
    assert bs + [x, y, z] == bs + [x] + [y] + [z];
  }

  function LowFlags(f: TcpFlags): byte {
    f.crw * 0x80 + f.ecn * 0x40 + f.urgent * 0x20 + f.ack * 0x10 + f.push * 8 + f.reset * 4 + f.syn * 2 + f.fin
  }

  lemma FlagBitsBytes(f: TcpFlags)
    ensures FlagBits(f) == (f.reserved * 2 + f.nonce) * 0x100 + LowFlags(f)
  {
    hide BitsValue;
    NineBits(SingleBits(f));
  }

  lemma OffsetWordBytes(offset: byte, f: TcpFlags, hi: byte)
    requires hi == offset % 16 * 16 + f.reserved * 2 + f.nonce
    ensures OffsetWord(offset, f) == hi * 0x100 + LowFlags(f)
  {
    hide FlagBits, LowFlags;
    FlagBitsBytes(f);
  }

  /** Of an offset above 15 the low four bits are written. */
  lemma TcpLayout(t: Tcp)
    ensures var s, f := TcpBytes(t), t.flags;
            && s[..2] == Word(t.sport) && s[2..4] == Word(t.dport)
            && s[4..8] == Quad(t.sequence) && s[8..12] == Quad(t.acknowledgment)
            && s[12] == t.offset % 16 * 16 + f.reserved * 2 + f.nonce
            && s[13] == f.crw * 0x80 + f.ecn * 0x40 + f.urgent * 0x20 + f.ack * 0x10
                        + f.push * 8 + f.reset * 4 + f.syn * 2 + f.fin
            && s[14..16] == Word(t.window) && s[16..18] == Word(t.checksum) && s[18..20] == Word(t.urgptr)
            && s[20..] == TcpOptions.OptionsBytes(t.options)
  {
    hide Word, WordOf, WordsBytes, Quad, OffsetWord, TcpOptions.OptionsBytes;
    var ws, tail, f := TcpWords(t), TcpOptions.OptionsBytes(t.options), t.flags;
    WordPlace(ws, tail, 0);
    WordPlace(ws, tail, 1);
    QuadPlace(ws, tail, 2, t.sequence);
    QuadPlace(ws, tail, 4, t.acknowledgment);
    WordPlace(ws, tail, 6);
    WordPlace(ws, tail, 7);
    WordPlace(ws, tail, 8);
    WordPlace(ws, tail, 9);
    OffsetWordBytes(t.offset, f, t.offset % 16 * 16 + f.reserved * 2 + f.nonce);
    WordValue(t.offset % 16 * 16 + f.reserved * 2 + f.nonce, LowFlags(f));
    BytesOfWord(TcpBytes(t), 12, ws[6], t.offset % 16 * 16 + f.reserved * 2 + f.nonce, LowFlags(f));
  }

  // ----- IP -----

  lemma FragmentWordBytes(flags: u3, offset: u13)
    ensures FragmentWord(flags, offset) == WordOf(flags * 0x20 + offset / 0x100, offset % 0x100)
  {
    hide WordOf;
    WordValue(flags * 0x20 + offset / 0x100, offset % 0x100);
  }

  lemma Ipv4Layout(ip: Ipv4)
    ensures var s := Ipv4Bytes(ip);
            && s[0] == ip.version * 16 + ip.ihl && s[1] == ip.dscp * 4 + ip.ecn
            && s[2..4] == Word(ip.length) && s[4..6] == Word(ip.identification)
            && s[6] == ip.flags * 0x20 + ip.offset / 0x100 && s[7] == ip.offset % 0x100
            && s[8] == ip.ttl && s[9] == ip.protocol.id && s[10..12] == Word(ip.checksum)
            && s[12..16] == Quad(ip.src) && s[16..20] == Quad(ip.dst)
            && s[20..] == Ipv4Header.OptionsBytes(ip.options)
  {
    hide Word, WordOf, WordsBytes, Quad, High, Low, FragmentWord, Ipv4Header.OptionsBytes;
    var ws, tail, s := Ipv4Words(ip), Ipv4Header.OptionsBytes(ip.options), Ipv4Bytes(ip);
    WordPlace(ws, tail, 0);
    WordPlace(ws, tail, 1);
    WordPlace(ws, tail, 2);
    WordPlace(ws, tail, 3);
    WordPlace(ws, tail, 4);
    WordPlace(ws, tail, 5);
    QuadPlace(ws, tail, 6, ip.src);
    QuadPlace(ws, tail, 8, ip.dst);
    BytesOfWord(s, 0, ws[0], ip.version * 16 + ip.ihl, ip.dscp * 4 + ip.ecn);
    FragmentWordBytes(ip.flags, ip.offset);
    BytesOfWord(s, 6, ws[3], ip.flags * 0x20 + ip.offset / 0x100, ip.offset % 0x100);
    BytesOfWord(s, 8, ws[4], ip.ttl, ip.protocol.id);
  }

  lemma FirstQuadWords(version: u4, ds: u6, ecn: u2, flowLabel: u20)
    ensures var q := FirstQuad(version, ds, ecn, flowLabel);
            && High(q) == WordOf(version * 16 + ds / 4, ds % 4 * 0x40 + ecn * 0x10 + flowLabel / 0x1_0000)
            && Low(q) == flowLabel % 0x1_0000
  {
    var q := FirstQuad(version, ds, ecn, flowLabel);
    var top := version * 0x1000 + ds * 0x40 + ecn * 0x10 + flowLabel / 0x1_0000;
    assert q == top * 0x1_0000 + flowLabel % 0x1_0000;
    WordValue(version * 16 + ds / 4, ds % 4 * 0x40 + ecn * 0x10 + flowLabel / 0x1_0000);
  }

  lemma Ipv6Layout(ip: Ipv6)
    ensures var s := Ipv6Bytes(ip);
            && s[0] == ip.version * 16 + ip.ds / 4
            && s[1] == ip.ds % 4 * 0x40 + ip.ecn * 0x10 + ip.flowLabel / 0x1_0000
            && s[2..4] == Word(ip.flowLabel % 0x1_0000)
            && s[4..6] == Word(ip.length) && s[6] == ip.nextHeader.id && s[7] == ip.hopLimit
            && s[8..24] == BigEndian(ip.src, 16) && s[24..40] == BigEndian(ip.dst, 16)
  {
    hide Word, WordsBytes, WordOf, BigEndian, FirstQuad, High, Low;
    var ws, tail, s := Ipv6Words(ip), BigEndian(ip.src, 16) + BigEndian(ip.dst, 16), Ipv6Bytes(ip);
    FirstQuadWords(ip.version, ip.ds, ip.ecn, ip.flowLabel);
    WordPlace(ws, tail, 0);
    WordPlace(ws, tail, 1);
    WordPlace(ws, tail, 2);
    WordPlace(ws, tail, 3);
    BytesOfWord(s, 0, ws[0], ip.version * 16 + ip.ds / 4, ip.ds % 4 * 0x40 + ip.ecn * 0x10 + ip.flowLabel / 0x1_0000);
    BytesOfWord(s, 6, ws[3], ip.nextHeader.id, ip.hopLimit);
  }

  // ----- Pseudo headers -----

  lemma ZeroHigh(lo: byte)
    ensures WordOf(0, lo) == lo
  {
    WordValue(0, lo);
  }

  lemma PseudoHeaderV4(src: u32, dst: u32, protocol: byte, length: u16)
    ensures var s := PseudoHeader(V4(src, dst, protocol), length);
            && s[..4] == Quad(src) && s[4..8] == Quad(dst)
            && s[8] == 0 && s[9] == protocol && s[10..12] == Word(length)
  {
    hide Word, WordsBytes, Quad, High, Low;
    SixWords([High(src), Low(src), High(dst), Low(dst), protocol, length], src, dst, protocol);
  }

  lemma SixWords(ws: seq<u16>, src: u32, dst: u32, protocol: byte)
    requires |ws| == 6 && ws[0] == High(src) && ws[1] == Low(src) && ws[2] == High(dst) && ws[3] == Low(dst)
    requires ws[4] == protocol
    ensures var s := WordsBytes(ws);
            && s[..4] == Quad(src) && s[4..8] == Quad(dst)
            && s[8] == 0 && s[9] == protocol && s[10..12] == Word(ws[5])
  {
    ZeroHigh(protocol);
    hide Word, WordsBytes, Quad, High, Low, WordOf;
    assert WordsBytes(ws) + [] == WordsBytes(ws);
    QuadPlace(ws, [], 0, src);
    QuadPlace(ws, [], 2, dst);
    WordPlace(ws, [], 4);
    WordPlace(ws, [], 5);
    BytesOfWord(WordsBytes(ws), 8, ws[4], 0, protocol);
  }

  /** The IPv4 pseudo header repeats the address and protocol bytes of the header it stands for. */
  lemma PseudoHeaderOfIpv4(ip: Ipv4, length: u16)
    ensures var s, h := PseudoHeader(BelowLayer(Ipv4Layer(ip)), length), Ipv4Bytes(ip);
            && s[..8] == h[12..20]
            && s[8] == 0 && s[9] == h[9]
            && s[10..12] == Word(length)
  {
    hide Word, Quad, Ipv4Bytes, PseudoHeader;
    PseudoHeaderV4(ip.src, ip.dst, ip.protocol.id, length);
    Ipv4Layout(ip);
    Adjacent(PseudoHeader(BelowLayer(Ipv4Layer(ip)), length), 0, 4, 8);
    Adjacent(Ipv4Bytes(ip), 12, 16, 20);
  }

  lemma LengthAndNext(length: u32, next: byte)
    ensures var s := WordsBytes([High(length), Low(length), 0, next]);
            && |s| == 8 && s[..4] == Quad(length)
            && s[4] == 0 && s[5] == 0 && s[6] == 0 && s[7] == next
  {
    ZeroHigh(next);
    ZeroHigh(0);
    hide Word, WordsBytes, Quad, High, Low, WordOf;
    var ws := [High(length), Low(length), 0, next];
    var s := WordsBytes(ws);
    assert s + [] == s;
    QuadPlace(ws, [], 0, length);
    WordPlace(ws, [], 2);
    WordPlace(ws, [], 3);
    BytesOfWord(s, 4, ws[2], 0, 0);
    BytesOfWord(s, 6, ws[3], 0, next);
  }

  lemma PseudoHeaderV6(src: u128, dst: u128, next: byte, length: u32)
    ensures var s := PseudoHeader(V6(src, dst, next), length);
            && s[..32] == BigEndian(src, 16) + BigEndian(dst, 16)
            && s[32..36] == Quad(length) && s[36..39] == [0, 0, 0] && s[39] == next
  {
    hide WordsBytes, Quad, High, Low, BigEndian;
    var front, back := BigEndian(src, 16) + BigEndian(dst, 16), WordsBytes([High(length), Low(length), 0, next]);
    var s := PseudoHeader(V6(src, dst, next), length);
    LengthAndNext(length, next);
    assert s == front + back;
    assert s[32..36] == back[..4];
    assert s[36..39] == [back[4], back[5], back[6]];
  }

  /** So does the IPv6 pseudo header, with a 32-bit length. */
  lemma PseudoHeaderOfIpv6(ip: Ipv6, length: u32)
    ensures var s, h := PseudoHeader(BelowLayer(Ipv6Layer(ip)), length), Ipv6Bytes(ip);
            && s[..32] == h[8..40]
            && s[32..36] == Quad(length)
            && s[36..39] == [0, 0, 0] && s[39] == h[6]
  {
    hide Quad, Ipv6Bytes, BigEndian, PseudoHeader;
    PseudoHeaderV6(ip.src, ip.dst, ip.nextHeader.id, length);
    Ipv6Layout(ip);
    Adjacent(Ipv6Bytes(ip), 8, 24, 40);
  }

  /** What a transport checksum over IPv4 covers: addresses, zero, protocol, length, segment. */
  lemma CoveredOverIpv4(ip: Ipv4, segment: seq<byte>)
    requires |segment| <= 0xffff
    ensures var h := Ipv4Bytes(ip);
            Covered(BelowLayer(Ipv4Layer(ip)), segment)
            == h[12..20] + [0x00, h[9]] + Word(|segment|) + segment
  {
    hide Word, Ipv4Bytes, PseudoHeader;
    PseudoHeaderOfIpv4(ip, |segment|);
    var s := PseudoHeader(BelowLayer(Ipv4Layer(ip)), |segment|);
    assert s == s[..8] + [s[8], s[9]] + s[10..12];
  }

  /** Over IPv6: addresses, a 32-bit length, three zeros, next header, segment. */
  lemma CoveredOverIpv6(ip: Ipv6, segment: seq<byte>)
    requires |segment| <= 0xffff_ffff
    ensures var h := Ipv6Bytes(ip);
            Covered(BelowLayer(Ipv6Layer(ip)), segment)
            == h[8..40] + Quad(|segment|) + [0x00, 0x00, 0x00, h[6]] + segment
  {
    hide Quad, Ipv6Bytes, PseudoHeader;
    PseudoHeaderOfIpv6(ip, |segment|);
    var s := PseudoHeader(BelowLayer(Ipv6Layer(ip)), |segment|);
    assert s == s[..32] + s[32..36] + s[36..39] + [s[39]];
  }
}
