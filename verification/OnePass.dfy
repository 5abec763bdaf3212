/** When a single pass is enough: the checksum of a transport layer covers its own offset or length
    as it was before the pass. */
module OnePass {
  import opened Bytes
  import opened InternetChecksum
  import opened ChecksumFields
  import opened TcpHeader
  import opened Ipv4Header
  import opened SimpleHeaders
  import opened Layers
  import opened FinalizeSpec
  import opened FixedPoint
  import opened Convergence
  import opened PassProperties

  /** Replacing word j of a header whose checksum, at i, was computed with the old word. */
  lemma StaleHeader(below: Below, header: seq<byte>, i: nat, j: nat, v: u16, payload: seq<byte>)
    requires below.IsIp() && i + 1 < |header| && i % 2 == 0 && j + 1 < |header| && j % 2 == 0 && i != j
    requires WordAt(header, i) == 0
    requires |header| + |payload| <= below.MaxLength() && |header| + |payload| <= 0x1_0002
    ensures var c := Checksum(Covered(below, header + payload));
            SegmentVerifies(below, SetWord(SetWord(header, i, c), j, v) + payload)
            <==> WordAt(header, j) % 0xffff == v % 0xffff
  {
    hide PseudoHeader, SetWord, Checksum, WordSum, WordAt;
    var front := PseudoHeader(below, |header| + |payload|);
    var s := Covered(below, header + payload);
    var c := Checksum(s);
    var stored := SetWord(header, i, c);
    FieldBehind(front, header, payload, i, c);
    FieldBehind(front, header, payload, j, v);
    FieldBehind(front, stored, payload, j, v);
    CoveredPositive(below, SetWord(stored, j, v) + payload);
    StaleWordInBound(s, |front| + i, SetWord(s, |front| + i, c), |front| + j, v);
  }

  lemma OffsetWordResidue(a: byte, b: byte, flags: TcpFlags)
    ensures OffsetWord(a, flags) % 0xffff == OffsetWord(b, flags) % 0xffff <==> a % 16 == b % 16
  {
    NibbleResidue(a % 16, b % 16, FlagBits(flags));
  }

  lemma NibbleResidue(a: u4, b: u4, n: nat)
    requires n < 0x1000
    ensures (a * 0x1000 + n) % 0xffff == (b * 0x1000 + n) % 0xffff <==> a == b
  {}

  lemma TcpOnePass(below: Below, t: Tcp, payload: seq<byte>)
    requires below.IsIp() && FinalTcp(below, t, payload).ok
    requires |TcpBytes(t)| + |payload| <= 0xffff
    ensures var out := FinalTcp(below, t, payload).value;
            SegmentVerifies(below, TcpBytes(out) + payload) <==> t.offset % 16 == out.offset % 16
  {
    hide Checksum, Covered, SetWord, WordAt, TcpBytes, PadAmount, OffsetWord, SegmentVerifies;
    PaddedSize(t);
    var cleared := PadTcp(t).(checksum := 0);
    ClearingKeepsSize(PadTcp(t));
    var out := FinalTcp(below, t, payload).value;
    var c := Checksum(Covered(below, TcpBytes(cleared) + payload));
    assert out == cleared.(checksum := c, offset := out.offset);
    TcpChecksumField(cleared, c);
    TcpOffsetField(cleared, out.offset);
    TcpOffsetField(cleared.(checksum := c), out.offset);
    StaleHeader(below, TcpBytes(cleared), 16, 12, OffsetWord(out.offset, t.flags), payload);
    OffsetWordResidue(t.offset, out.offset, t.flags);
  }

  lemma UdpOnePass(below: Below, u: Udp, payload: seq<byte>)
    requires below.IsIp() && FinalUdp(below, u, payload).ok
    ensures var out := FinalUdp(below, u, payload).value;
            SegmentVerifies(below, UdpBytes(out) + payload) <==> u.length % 0xffff == out.length % 0xffff
  {
    hide Checksum, Covered, SetWord, WordAt, UdpBytes, SegmentVerifies;
    var cleared := u.(checksum := 0);
    var out := FinalUdp(below, u, payload).value;
    var c := Checksum(Covered(below, UdpBytes(cleared) + payload));
    assert out == cleared.(checksum := c, length := out.length);
    UdpChecksumField(cleared, c);
    UdpLengthField(cleared, out.length);
    UdpLengthField(cleared.(checksum := c), out.length);
    StaleHeader(below, UdpBytes(cleared), 6, 4, out.length, payload);
  }

  // ----- What never needs a second pass -----

  lemma Ipv4OnePass(ip: Ipv4, nextSize: nat)
    requires FinalIpv4(ip, nextSize).ok
    ensures Checksum(Ipv4Bytes(FinalIpv4(ip, nextSize).value)) == 0
  {
    hide Checksum, Ipv4Bytes, SetWord, WordAt;
    var cleared := ip.(length := |Ipv4Bytes(ip)| + nextSize, checksum := 0);
    var c := Checksum(Ipv4Bytes(cleared));
    assert ip.(length := cleared.length).(checksum := 0) == cleared;
    assert FinalIpv4(ip, nextSize).value == cleared.(checksum := c);
    Ipv4ChecksumField(cleared, c);
    StoringChecksumVerifies(Ipv4Bytes(cleared), 10);
  }

  lemma IcmpOnePass(m: Icmp4)
    ensures Checksum(IcmpBytes(FinalIcmp(m))) == 0
  {
    hide Checksum, IcmpBytes, SetWord, WordAt;
    var cleared := m.(checksum := 0);
    var c := Checksum(IcmpBytes(cleared));
    assert FinalIcmp(m) == cleared.(checksum := c);
    IcmpChecksumField(cleared, c);
    StoringChecksumVerifies(IcmpBytes(cleared), 2);
  }

  /** One pass is enough for every IPv4 header checksum, ICMP checksum and TCP offset. */
  lemma OnePassHeaders(ls: seq<Layer>, i: nat)
    requires i < |ls| && Pass(ls).ok
    ensures var l := Pass(ls).value[i];
            && (ls[i].Ipv4Layer? || ls[i].IcmpLayer? ==> Checksum(LayerBytes(l)) == 0)
            && (ls[i].TcpLayer? ==> l.TcpLayer? && 4 * l.tcp.offset == |TcpBytes(l.tcp)|)
  {
    hide PassFrom, Checksum, Covered, TcpBytes, Ipv4Bytes, IcmpBytes, FinalIpv4, FinalIcmp, PadTcp;
    PassAt(Nothing, ls, i);
    match ls[i]
    case Ipv4Layer(ip) => Ipv4OnePass(ip, Size(ls[i + 1..]));
    case IcmpLayer(m) => IcmpOnePass(m);
    case TcpLayer(t) =>
      PaddedSize(t);
      ClearingKeepsSize(PadTcp(t));
      OffsetAndChecksumKeepSize(PadTcp(t), Pass(ls).value[i].tcp);
    case _ =>
  }

  // ----- In a packet -----

  predicate RawBehind(ls: seq<Layer>, i: nat) {
    forall j :: i < j < |ls| ==> ls[j].RawLayer?
  }

  lemma RawUntouched(ls: seq<Layer>, i: nat)
    requires i < |ls| && RawBehind(ls, i) && Pass(ls).ok
    ensures Pass(ls).value[i + 1..] == ls[i + 1..]
  {
    hide PassFrom;
    forall j | i < j < |ls|
      ensures Pass(ls).value[j] == ls[j]
    {
      PassAt(Nothing, ls, j);
    }
  }

  /** What one pass settled over the IP layer in front of layer i. */
  lemma OverIp(ls: seq<Layer>, i: nat)
    requires 0 < i < |ls| && IsIpLayer(ls[i - 1]) && RawBehind(ls, i) && Pass(ls).ok
    ensures var out, below := Pass(ls).value, BelowLayer(ls[i - 1]);
            && below.IsIp() && BelowLayer(out[i - 1]) == below
            && FinalLayer(below, ls[i], ls[i + 1..]) == Update(out[i], true)
            && out[i + 1..] == ls[i + 1..]
            && |LayerBytes(ls[i])| + Size(ls[i + 1..]) <= 0xffff
  {
    hide PassFrom, FinalLayer, LayerBytes;
    PassAt(Nothing, ls, i - 1);
    PassAt(Nothing, ls, i);
    FinalLayerBelow(BelowAt(Nothing, ls, i - 1), ls[i - 1], ls[i..]);
    IpLayerBounds(BelowAt(Nothing, ls, i - 1), ls[i - 1], ls[i..]);
    assert ls[i..][1..] == ls[i + 1..];
    RawUntouched(ls, i);
  }

  /** A TCP layer over IP and in front of raw data verifies after one pass exactly when its offset
      already counted the aligned header. */
  lemma OnePassTcp(ls: seq<Layer>, i: nat)
    requires 0 < i < |ls| && IsIpLayer(ls[i - 1]) && ls[i].TcpLayer? && RawBehind(ls, i) && Pass(ls).ok
    requires ls[i].tcp.offset < 16 && |TcpBytes(PadTcp(ls[i].tcp))| <= 60
    ensures var out := Pass(ls).value;
            SegmentVerifies(BelowLayer(out[i - 1]), LayerBytes(out[i]) + LayersBytes(out[i + 1..]))
            <==> 4 * ls[i].tcp.offset == |TcpBytes(PadTcp(ls[i].tcp))|
  {
    hide PassFrom, SegmentVerifies, TcpBytes, BelowLayer, PadTcp;
    OverIp(ls, i);
    SizeIsLength(ls[i + 1..]);
    var below, t, payload := BelowLayer(ls[i - 1]), ls[i].tcp, LayersBytes(ls[i + 1..]);
    TcpOnePass(below, t, payload);
    PaddedSize(t);
    ClearingKeepsSize(PadTcp(t));
  }

  /** A UDP layer over IP and in front of raw data verifies after one pass exactly when its length
      was already right modulo 0xffff. */
  lemma OnePassUdp(ls: seq<Layer>, i: nat)
    requires 0 < i < |ls| && IsIpLayer(ls[i - 1]) && ls[i].UdpLayer? && RawBehind(ls, i) && Pass(ls).ok
    ensures var out := Pass(ls).value;
            SegmentVerifies(BelowLayer(out[i - 1]), LayerBytes(out[i]) + LayersBytes(out[i + 1..]))
            <==> ls[i].udp.length % 0xffff == Size(ls[i..]) % 0xffff
  {
    hide PassFrom, SegmentVerifies, UdpBytes, BelowLayer;
    OverIp(ls, i);
    SizeIsLength(ls[i + 1..]);
    UdpOnePass(BelowLayer(ls[i - 1]), ls[i].udp, LayersBytes(ls[i + 1..]));
    assert ls[i..][1..] == ls[i + 1..];
  }
}
