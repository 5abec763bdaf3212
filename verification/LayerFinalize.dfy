/** The `finalize` method of each layer, in the order in which the source updates things. */
module LayerFinalize {
  import opened Bytes
  import opened InternetChecksum
  import opened ChecksumFields
  import opened TcpOptions
  import opened TcpHeader
  import opened Ipv4Header
  import opened Ipv6Header
  import opened SimpleHeaders
  import opened Layers
  import opened FinalizeSpec

  method LengthOfLayers(layers: seq<Layer>) returns (acc: nat)
    ensures acc == Size(layers)
  {
    acc := 0;
    for i := 0 to |layers|
      invariant acc + Size(layers[i..]) == Size(layers)
    {
      assert layers[i..][1..] == layers[i + 1..];
      acc := acc + |LayerBytes(layers[i])|;
    }
  }

  /** Zeroes the two checksum bytes of a serialized header. */
  method ClearWord(header: seq<byte>, i: nat) returns (data: seq<byte>)
    requires i + 1 < |header|
    ensures data == SetWord(header, i, 0)
  {
    data := header[i := 0x00];
    data := data[i + 1 := 0x00];
  }

  method FinalizeIpv4(self: Ipv4, next: seq<Layer>) returns (ip: Ipv4, ok: bool)
    ensures Update(ip, ok) == FinalIpv4(self, Size(next))
  {
    hide Ipv4Bytes, SetWord, Checksum, Size, WordAt;
    ip := self;
    var nextLength := LengthOfLayers(next);
    var total := |Ipv4Bytes(ip)| + nextLength;
    if total > 0xffff {
      return ip, false;
    }
    ip := ip.(length := total);
    var data := Ipv4Bytes(ip);
    Ipv4ChecksumField(ip, 0);
    data := ClearWord(data, 10);
    var c := ComputeChecksum(data);
    ip := ip.(checksum := c);
    ok := true;
  }

  method FinalizeIpv6(self: Ipv6, next: seq<Layer>) returns (ip: Ipv6, ok: bool)
    ensures Update(ip, ok) == FinalIpv6(self, Size(next))
  {
    var nextLength := LengthOfLayers(next);
    if nextLength > 0xffff {
      return self, false;
    }
    return self.(length := nextLength), true;
  }

  method FinalizeIcmp(self: Icmp4) returns (m: Icmp4)
    ensures m == FinalIcmp(self)
  {
    var data := IcmpBytes(self);
    IcmpChecksumField(self, 0);
    data := ClearWord(data, 2);
    var c := ComputeChecksum(data);
    m := self.(checksum := c);
  }

  /** Appends end-of-list options until the header fills whole 32-bit words. */
  method AlignOptions(self: Tcp) returns (tcp: Tcp)
    ensures tcp == PadTcp(self)
    ensures EolsAdded(self.options, tcp.options) && |TcpBytes(tcp)| % 4 == 0
  {
    PaddedOptions(self);
    PaddedSize(self);
    tcp := self;
    var data := TcpBytes(tcp);
    var padAmount := 4 * ((|data| + 3) / 4) - |data|;
    for i := 0 to padAmount
      invariant tcp == self.(options := self.options + Eols(i))
    {
      assert Eols(i) + [Eol] == Eols(i + 1);
      tcp := tcp.(options := tcp.options + [Eol]);
    }
  }

  /** The checksum of a transport segment over an IP layer; the length may not fit. */
  method ChecksumOver(below: Below, header: seq<byte>, payload: seq<byte>) returns (c: u16, ok: bool)
    requires below.IsIp()
    ensures ok <==> |header + payload| <= below.MaxLength()
    ensures ok ==> c == Checksum(Covered(below, header + payload))
  {
    var length := |header| + |payload|;
    if length > below.MaxLength() {
      return 0, false;
    }
    var data := PseudoHeader(below, length);
    Assoc(data, header, payload);
    data := data + header;
    data := data + payload;
    c := ComputeChecksum(data);
    ok := true;
  }

  method ClearedTcp(tcp: Tcp) returns (header: seq<byte>)
    ensures header == TcpBytes(tcp.(checksum := 0))
  {
    header := TcpBytes(tcp);
    TcpChecksumField(tcp, 0);
    header := ClearWord(header, 16);
  }

  method FinalizeTcp(self: Tcp, prev: seq<Layer>, next: seq<Layer>) returns (tcp: Tcp, ok: bool)
    ensures Update(tcp, ok) == FinalTcp(BelowOf(prev), self, LayersBytes(next))
  {
    tcp := AlignOptions(self);
    var header := ClearedTcp(tcp);

    if |prev| > 0 {
      var payload := LayersToBytes(next);
      var below := BelowLayer(prev[|prev| - 1]);
      if below.IsIp() {
        var c, fits := ChecksumOver(below, header, payload);
        if !fits {
          return tcp, false;
        }
        tcp := tcp.(checksum := c);
      }
    }
    if |header| / 4 > 0xff {
      return tcp, false;
    }
    tcp := tcp.(offset := |header| / 4);
    ok := true;
  }

  method ClearedUdp(udp: Udp) returns (header: seq<byte>)
    ensures header == UdpBytes(udp.(checksum := 0))
  {
    header := UdpBytes(udp);
    UdpChecksumField(udp, 0);
    header := ClearWord(header, 6);
  }

  method FinalizeUdp(self: Udp, prev: seq<Layer>, next: seq<Layer>) returns (udp: Udp, ok: bool)
    ensures Update(udp, ok) == FinalUdp(BelowOf(prev), self, LayersBytes(next))
  {
    udp := self;
    var header := ClearedUdp(udp);
    var payload := LayersToBytes(next);
    var length := |header| + |payload|;
    if length > 0xffff {
      return udp, false;
    }
    udp := udp.(length := length);
    if |prev| > 0 {
      var below := BelowLayer(prev[|prev| - 1]);
      if below.IsIp() {
        var c, fits := ChecksumOver(below, header, payload);
        if !fits {
          return udp, false;
        }
        udp := udp.(checksum := c);
      }
    }
    ok := true;
  }

  method FinalizeLayer(self: Layer, prev: seq<Layer>, next: seq<Layer>) returns (l: Layer, ok: bool)
    ensures Update(l, ok) == FinalLayer(BelowOf(prev), self, next)
  {
    match self
    case EtherLayer(_) => return self, true;
    case RawLayer(_) => return self, true;
    case IcmpLayer(m) =>
      var m' := FinalizeIcmp(m);
      return IcmpLayer(m'), true;
    case Ipv4Layer(ip) =>
      var ip';
      ip', ok := FinalizeIpv4(ip, next);
      l := Ipv4Layer(ip');
    case Ipv6Layer(ip) =>
      var ip';
      ip', ok := FinalizeIpv6(ip, next);
      l := Ipv6Layer(ip');
    case TcpLayer(t) =>
      var t';
      t', ok := FinalizeTcp(t, prev, next);
      l := TcpLayer(t');
    case UdpLayer(u) =>
      var u';
      u', ok := FinalizeUdp(u, prev, next);
      l := UdpLayer(u');
  }
}
