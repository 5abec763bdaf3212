/** The built-in layers as one type, their codecs, and src/layer/utils.rs. */
module Layers {
  import opened Bytes
  import opened Codecs
  import opened TcpHeader
  import opened Ipv4Header
  import opened Ipv6Header
  import opened SimpleHeaders

  datatype Layer =
    | EtherLayer(ether: Ether)
    | Ipv4Layer(ipv4: Ipv4)
    | Ipv6Layer(ipv6: Ipv6)
    | TcpLayer(tcp: Tcp)
    | UdpLayer(udp: Udp)
    | IcmpLayer(icmp: Icmp4)
    | RawLayer(raw: Raw)

  /** The type identity that a layer keeps behind its trait object. */
  datatype Kind = EtherKind | Ipv4Kind | Ipv6Kind | TcpKind | UdpKind | IcmpKind | RawKind

  function KindOf(l: Layer): Kind {
    match l
    case EtherLayer(_) => EtherKind
    case Ipv4Layer(_) => Ipv4Kind
    case Ipv6Layer(_) => Ipv6Kind
    case TcpLayer(_) => TcpKind
    case UdpLayer(_) => UdpKind
    case IcmpLayer(_) => IcmpKind
    case RawLayer(_) => RawKind
  }

  function LayerBytes(l: Layer): seq<byte> {
    match l
    case EtherLayer(e) => EtherBytes(e)
    case Ipv4Layer(ip) => Ipv4Bytes(ip)
    case Ipv6Layer(ip) => Ipv6Bytes(ip)
    case TcpLayer(t) => TcpBytes(t)
    case UdpLayer(u) => UdpBytes(u)
    case IcmpLayer(m) => IcmpBytes(m)
    case RawLayer(r) => RawBytes(r)
  }

  function LayersBytes(ls: seq<Layer>): seq<byte> {
    WriteAll(LayerBytes, ls)
  }

  /** The sum of the serialized lengths of the layers. */
  function Size(ls: seq<Layer>): nat {
    if |ls| == 0 then 0 else |LayerBytes(ls[0])| + Size(ls[1..])
  }

  lemma {:induction false} SizeIsLength(ls: seq<Layer>)
    ensures Size(ls) == |LayersBytes(ls)|
  {
    if |ls| > 0 {
      SizeIsLength(ls[1..]);
    }
  }

  method LayersToBytes(layers: seq<Layer>) returns (acc: seq<byte>)
    ensures acc == LayersBytes(layers)
  {
    acc := [];
    for i := 0 to |layers|
      invariant acc == LayersBytes(layers[..i])
    {
      WriteAllConcat(LayerBytes, layers[..i], [layers[i]]);
      assert layers[..i + 1] == layers[..i] + [layers[i]];
      WriteAllCons(LayerBytes, layers[i], [], []);
      acc := acc + LayerBytes(layers[i]);
    }
    assert layers[..|layers|] == layers;
  }

  // ----- Parsing a layer of a given kind -----

  function Lift<T>(r: Parsed<T>, wrap: T -> Layer): Parsed<Layer> {
    match r
    case Failed => Failed
    case Parsed(v, rest) => Parsed(wrap(v), rest)
  }

  function ParseLayer(k: Kind, s: seq<byte>): Parsed<Layer> {
    match k
    case EtherKind => Lift(ParseEther(s), e => EtherLayer(e))
    case Ipv4Kind => Lift(ParseIpv4(s), ip => Ipv4Layer(ip))
    case Ipv6Kind => Lift(ParseIpv6(s), ip => Ipv6Layer(ip))
    case TcpKind => Lift(ParseTcp(s), t => TcpLayer(t))
    case UdpKind => Lift(ParseUdp(s), u => UdpLayer(u))
    case IcmpKind => Lift(ParseIcmp(s), m => IcmpLayer(m))
    case RawKind => Lift(ParseRaw(s), r => RawLayer(r))
  }

  predicate ReadsAll(k: Kind) {
    k == IcmpKind || k == RawKind
  }

  predicate WellFormed(l: Layer) {
    match l
    case EtherLayer(e) => WellFormedEther(e)
    case Ipv4Layer(ip) => WellFormedIpv4(ip)
    case Ipv6Layer(ip) => WellFormedIpv6(ip)
    case TcpLayer(t) => WellFormedTcp(t)
    case UdpLayer(_) => true
    case IcmpLayer(m) => WellFormedIcmp(m)
    case RawLayer(r) => WellFormedRaw(r)
  }

  ghost predicate ReadBack(k: Kind, s: seq<byte>, r: Parsed<Layer>) {
    r.Parsed? ==>
      && KindOf(r.value) == k && WellFormed(r.value)
      && s == LayerBytes(r.value) + r.rest
      && (ReadsAll(k) ==> r.rest == [])
      && (s != [] ==> |r.rest| < |s|)
  }

  lemma TooShort(s: seq<byte>)
    requires |s| < 40
    ensures ParseIpv6(s).Failed?
  {}

  lemma IpParsePrint(s: seq<byte>)
    ensures ReadBack(Ipv4Kind, s, ParseLayer(Ipv4Kind, s))
    ensures ReadBack(Ipv6Kind, s, ParseLayer(Ipv6Kind, s))
  {
    hide Ipv4Bytes, Ipv6Bytes, ParseIpv4, ParseIpv6, WellFormedIpv4, WellFormedIpv6;
    if ParseIpv4(s).Parsed? {
      Ipv4ParsePrint(s);
    }
    if |s| >= 40 {
      Ipv6ParsePrint(s);
    } else {
      TooShort(s);
    }
  }

  lemma TransportParsePrint(s: seq<byte>)
    ensures ReadBack(TcpKind, s, ParseLayer(TcpKind, s))
    ensures ReadBack(UdpKind, s, ParseLayer(UdpKind, s))
  {
    hide TcpBytes, UdpBytes, ParseTcp, ParseUdp, WellFormedTcp;
    if ParseTcp(s).Parsed? {
      TcpParsePrint(s);
    }
    if ParseUdp(s).Parsed? {
      UdpParsePrint(s);
    }
  }

  lemma OuterParsePrint(s: seq<byte>)
    ensures ReadBack(EtherKind, s, ParseLayer(EtherKind, s))
    ensures ReadBack(IcmpKind, s, ParseLayer(IcmpKind, s))
    ensures ReadBack(RawKind, s, ParseLayer(RawKind, s))
  {
    hide EtherBytes, IcmpBytes, ParseEther, IcmpOf, BytesWords, WellFormedEther, WellFormedIcmp;
    if ParseEther(s).Parsed? {
      EtherParsePrint(s);
    }
    if ParseIcmp(s).Parsed? {
      IcmpParsePrint(s);
    }
    assert s == s + [];
  }

  /** Whatever a layer parser accepts, printing the layer gives back the bytes it consumed. */
  lemma LayerParsePrint(k: Kind, s: seq<byte>)
    ensures ReadBack(k, s, ParseLayer(k, s))
  {
    IpParsePrint(s);
    TransportParsePrint(s);
    OuterParsePrint(s);
  }

  /** Every well-formed layer is read back from its bytes; a layer that reads all of its input
      must come last. */
  lemma LayerPrintParse(l: Layer, tail: seq<byte>)
    requires WellFormed(l) && (ReadsAll(KindOf(l)) ==> tail == [])
    ensures ParseLayer(KindOf(l), LayerBytes(l) + tail) == Parsed(l, tail)
  {
    hide EtherBytes, Ipv4Bytes, Ipv6Bytes, TcpBytes, UdpBytes, IcmpBytes;
    hide ParseEther, ParseIpv4, ParseIpv6, ParseTcp, ParseUdp, ParseIcmp;
    hide WellFormedEther, WellFormedIpv4, WellFormedIpv6, WellFormedTcp, WellFormedIcmp;
    match l
    case EtherLayer(e) => EtherPrintParse(e, tail);
    case Ipv4Layer(ip) => Ipv4PrintParse(ip, tail);
    case Ipv6Layer(ip) => Ipv6PrintParse(ip, tail);
    case TcpLayer(t) => TcpPrintParse(t, tail);
    case UdpLayer(u) => UdpPrintParse(u, tail);
    case IcmpLayer(m) => assert IcmpBytes(m) + tail == IcmpBytes(m); IcmpPrintParse(m);
    case RawLayer(r) => assert r.data + tail == r.data;
  }
}
