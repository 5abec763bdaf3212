/** The headers with no dependent structure: src/layer/udp/mod.rs, src/layer/icmp/mod.rs,
    src/layer/ether/mod.rs and src/layer/raw/mod.rs. */
module SimpleHeaders {
  import opened Bytes
  import opened Codes

  // ----- UDP -----

  datatype Udp = Udp(sport: u16, dport: u16, length: u16, checksum: u16)

  function UdpWords(u: Udp): (ws: seq<u16>)
    ensures |ws| == 4
  {
    [u.sport, u.dport, u.length, u.checksum]
  }

  function UdpBytes(u: Udp): (s: seq<byte>)
    ensures |s| == 8
  {
    WordsBytes(UdpWords(u))
  }

  function ParseUdp(s: seq<byte>): Parsed<Udp> {
    if |s| < 8 then Failed
    else
      var ws := BytesWords(s[..8]);
      Parsed(Udp(ws[0], ws[1], ws[2], ws[3]), s[8..])
  }

  lemma UdpParsePrint(s: seq<byte>)
    requires ParseUdp(s).Parsed?
    ensures s == UdpBytes(ParseUdp(s).value) + ParseUdp(s).rest
  {
    BytesRoundTrip(s[..8]);
    assert UdpWords(ParseUdp(s).value) == BytesWords(s[..8]);
    assert s == s[..8] + s[8..];
  }

  lemma UdpPrintParse(u: Udp, tail: seq<byte>)
    ensures ParseUdp(UdpBytes(u) + tail) == Parsed(u, tail)
  {
    WordsThen(UdpWords(u), tail);
  }

  // ----- ICMP: reads all of its input -----

  datatype Icmp4 = Icmp4(icmpType: IcmpType, code: byte, checksum: u16, message: u32, data: seq<byte>)

  function IcmpWords(m: Icmp4): (ws: seq<u16>)
    ensures |ws| == 4
  {
    [WordOf(m.icmpType.id, m.code), m.checksum, High(m.message), Low(m.message)]
  }

  function IcmpBytes(m: Icmp4): (s: seq<byte>)
    ensures |s| == 8 + |m.data|
  {
    WordsBytes(IcmpWords(m)) + m.data
  }

  function IcmpOf(ws: seq<u16>, data: seq<byte>): Icmp4
    requires |ws| == 4
  {
    var kind := ws[0] / 0x100;
    Icmp4(Decode(IsNamedIcmpType(kind), kind), ws[0] % 0x100, ws[1], Join(ws[2], ws[3]), data)
  }

  function ParseIcmp(s: seq<byte>): Parsed<Icmp4> {
    if |s| < 8 then Failed else Parsed(IcmpOf(BytesWords(s[..8]), s[8..]), [])
  }

  predicate WellFormedIcmp(m: Icmp4) {
    CanonicalIcmpType(m.icmpType)
  }

  lemma IcmpParsePrint(s: seq<byte>)
    requires ParseIcmp(s).Parsed?
    ensures WellFormedIcmp(ParseIcmp(s).value) && s == IcmpBytes(ParseIcmp(s).value)
  {
    var ws := BytesWords(s[..8]);
    BytesRoundTrip(s[..8]);
    SplitJoin(ws[2], ws[3]);
    WordJoin(ws[0]);
    assert IcmpWords(ParseIcmp(s).value) == ws;
    assert s == s[..8] + s[8..];
  }

  lemma IcmpPrintParse(m: Icmp4)
    requires WellFormedIcmp(m)
    ensures ParseIcmp(IcmpBytes(m)) == Parsed(m, [])
  {
    WordsThen(IcmpWords(m), m.data);
    WordParts(m.icmpType.id, m.code);
  }

  // ----- Ethernet -----

  type MacAddress = s: seq<byte> | |s| == 6 witness [0, 0, 0, 0, 0, 0]

  datatype Ether = Ether(dst: MacAddress, src: MacAddress, etherType: EtherType)

  function EtherBytes(e: Ether): (s: seq<byte>)
    ensures |s| == 14
  {
    e.dst + e.src + Word(e.etherType.id)
  }

  function ParseEther(s: seq<byte>): Parsed<Ether> {
    if |s| < 14 then Failed
    else
      var id := WordOf(s[12], s[13]);
      Parsed(Ether(s[..6], s[6..12], Decode(IsNamedEtherType(id), id)), s[14..])
  }

  predicate WellFormedEther(e: Ether) {
    CanonicalEtherType(e.etherType)
  }

  lemma EtherParsePrint(s: seq<byte>)
    requires ParseEther(s).Parsed?
    ensures WellFormedEther(ParseEther(s).value) && s == EtherBytes(ParseEther(s).value) + ParseEther(s).rest
  {
    WordOfRoundTrip(s[12], s[13]);
    assert s == s[..6] + s[6..12] + [s[12], s[13]] + s[14..];
  }

  lemma EtherPrintParse(e: Ether, tail: seq<byte>)
    requires WellFormedEther(e)
    ensures ParseEther(EtherBytes(e) + tail) == Parsed(e, tail)
  {
    var s := EtherBytes(e) + tail;
    assert s[..6] == e.dst && s[6..12] == e.src && s[14..] == tail;
    WordJoin(e.etherType.id);
  }

  // ----- Raw: reads all of its input; the bit offset is not written -----

  datatype Raw = Raw(data: seq<byte>, bitOffset: nat)

  function RawBytes(r: Raw): seq<byte> {
    r.data
  }

  function ParseRaw(s: seq<byte>): Parsed<Raw> {
    Parsed(Raw(s, 0), [])
  }

  predicate WellFormedRaw(r: Raw) {
    r.bitOffset == 0
  }
}
