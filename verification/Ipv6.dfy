/** The IPv6 header: src/layer/ip/ipv6.rs. */
module Ipv6Header {
  import opened Bytes
  import opened Codes

  datatype Ipv6 = Ipv6(
    version: u4, ds: u6, ecn: u2, flowLabel: u20, length: u16, nextHeader: IpProtocol, hopLimit: byte,
    src: u128, dst: u128)

  function FirstQuad(version: u4, ds: u6, ecn: u2, flowLabel: u20): u32 {
    version * 0x1000_0000 + ds * 0x40_0000 + ecn * 0x10_0000 + flowLabel
  }

  function Ipv6Words(ip: Ipv6): (ws: seq<u16>)
    ensures |ws| == 4
  {
    var q := FirstQuad(ip.version, ip.ds, ip.ecn, ip.flowLabel);
    [High(q), Low(q), ip.length, WordOf(ip.nextHeader.id, ip.hopLimit)]
  }

  function Ipv6Bytes(ip: Ipv6): (s: seq<byte>)
    ensures |s| == 40
  {
    WordsBytes(Ipv6Words(ip)) + (BigEndian(ip.src, 16) + BigEndian(ip.dst, 16))
  }

  function Ipv6Of(ws: seq<u16>, src: u128, dst: u128): Ipv6
    requires |ws| == 4
  {
    var q, next := Join(ws[0], ws[1]), ws[3] / 0x100;
    Ipv6(q / 0x1000_0000, q / 0x40_0000 % 64, q / 0x10_0000 % 4, q % 0x10_0000, ws[2],
         Decode(IsNamedIpProtocol(next), next), ws[3] % 0x100, src, dst)
  }

  function Address(s: seq<byte>): u128
    requires |s| == 16
  {
    BigEndianValueRoundTrip(s);
    Pow256At16();
    BigEndianValue(s)
  }

  function ParseIpv6(s: seq<byte>): Parsed<Ipv6> {
    if |s| < 40 then Failed
    else Parsed(Ipv6Of(BytesWords(s[..8]), Address(s[8..24]), Address(s[24..40])), s[40..])
  }

  predicate WellFormedIpv6(ip: Ipv6) {
    CanonicalIpProtocol(ip.nextHeader)
  }

  lemma FirstQuadSplit(version: u4, ds: u6, ecn: u2, flowLabel: u20)
    ensures var q := FirstQuad(version, ds, ecn, flowLabel);
            && q / 0x1000_0000 == version && q / 0x40_0000 % 64 == ds
            && q / 0x10_0000 % 4 == ecn && q % 0x10_0000 == flowLabel
  {
    var q := FirstQuad(version, ds, ecn, flowLabel);
    assert q == 0x10_0000 * (version * 0x100 + ds * 4 + ecn) + flowLabel;
    assert q == 0x40_0000 * (version * 64 + ds) + (ecn * 0x10_0000 + flowLabel);
    assert q / 0x40_0000 == version * 64 + ds;
    assert q / 0x10_0000 == version * 0x100 + ds * 4 + ecn;
  }

  lemma TopBits(m: nat)
    ensures m == m / 0x100 * 0x100 + m / 4 % 64 * 4 + m % 4
  {
    var b := m / 4;
    assert m == 4 * b + m % 4 && b == 64 * (b / 64) + b % 64;
    QuotientIs(m, 0x100, b / 64, 4 * (b % 64) + m % 4);
  }

  lemma FirstQuadJoin(q: u32)
    ensures FirstQuad(q / 0x1000_0000, q / 0x40_0000 % 64, q / 0x10_0000 % 4, q % 0x10_0000) == q
  {
    var m, low := q / 0x10_0000, q % 0x10_0000;
    assert q == 0x10_0000 * m + low;
    QuotientIs(q, 0x1000_0000, m / 0x100, 0x10_0000 * (m % 0x100) + low);
    QuotientIs(q, 0x40_0000, m / 4, 0x10_0000 * (m % 4) + low);
    TopBits(m);
  }

  lemma AddressOf(a: u128)
    ensures Address(BigEndian(a, 16)) == a
  {
    Pow256At16();
    BigEndianRoundTrip(a, 16);
  }

  lemma WordsOfIpv6(ws: seq<u16>, src: u128, dst: u128)
    requires |ws| == 4
    ensures Ipv6Words(Ipv6Of(ws, src, dst)) == ws
  {
    FirstQuadJoin(Join(ws[0], ws[1]));
    SplitJoin(ws[0], ws[1]);
    WordJoin(ws[3]);
  }

  lemma Ipv6OfWords(ip: Ipv6)
    requires WellFormedIpv6(ip)
    ensures Ipv6Of(Ipv6Words(ip), ip.src, ip.dst) == ip
  {
    var q := FirstQuad(ip.version, ip.ds, ip.ecn, ip.flowLabel);
    FirstQuadSplit(ip.version, ip.ds, ip.ecn, ip.flowLabel);
    assert Join(High(q), Low(q)) == q;
    WordParts(ip.nextHeader.id, ip.hopLimit);
  }

  lemma Ipv6ParsePrint(s: seq<byte>)
    requires |s| >= 40
    ensures ParseIpv6(s).Parsed?
    ensures var Parsed(ip, rest) := ParseIpv6(s); WellFormedIpv6(ip) && s == Ipv6Bytes(ip) + rest
  {
    var Parsed(ip, rest) := ParseIpv6(s);
    WordsOfIpv6(BytesWords(s[..8]), ip.src, ip.dst);
    BytesRoundTrip(s[..8]);
    BigEndianValueRoundTrip(s[8..24]);
    BigEndianValueRoundTrip(s[24..40]);
    Slices(s, 8, 24, 40);
    Rejoin(s, s[..8], s[8..24] + s[24..40], rest);
  }

  lemma Ipv6PrintParse(ip: Ipv6, tail: seq<byte>)
    requires WellFormedIpv6(ip)
    ensures ParseIpv6(Ipv6Bytes(ip) + tail) == Parsed(ip, tail)
  {
    var s := Ipv6Bytes(ip) + tail;
    var src, dst := BigEndian(ip.src, 16), BigEndian(ip.dst, 16);
    var tail' := src + dst + tail;
    assert s == WordsBytes(Ipv6Words(ip)) + tail';
    WordsThen(Ipv6Words(ip), tail');
    Ipv6OfWords(ip);
    assert s[8..24] == src && s[24..40] == dst && s[40..] == tail;
    AddressOf(ip.src);
    AddressOf(ip.dst);
  }
}
