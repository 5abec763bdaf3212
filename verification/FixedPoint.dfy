/** Which stacks a finalization pass leaves alone: exactly those whose lengths, offsets and
    checksums are right. */
module FixedPoint {
  import opened Bytes
  import opened InternetChecksum
  import opened ChecksumFields
  import opened TcpOptions
  import opened TcpHeader
  import opened Ipv4Header
  import opened SimpleHeaders
  import opened Layers
  import opened FinalizeSpec

  // ----- What a receiver checks -----

  predicate SegmentVerifies(below: Below, segment: seq<byte>) {
    below.IsIp() ==> |segment| <= below.MaxLength() && Checksum(Covered(below, segment)) == 0
  }

  /** The layer's length and offset are the true sizes and its checksum, if any, verifies. */
  predicate Verifies(below: Below, l: Layer, next: seq<Layer>) {
    match l
    case EtherLayer(_) => true
    case RawLayer(_) => true
    case IcmpLayer(m) => Checksum(IcmpBytes(m)) == 0
    case Ipv4Layer(ip) => ip.length == |Ipv4Bytes(ip)| + Size(next) && Checksum(Ipv4Bytes(ip)) == 0
    case Ipv6Layer(ip) => ip.length == Size(next)
    case TcpLayer(t) => 4 * t.offset == |TcpBytes(t)| && SegmentVerifies(below, TcpBytes(t) + LayersBytes(next))
    case UdpLayer(u) => u.length == 8 + Size(next) && SegmentVerifies(below, UdpBytes(u) + LayersBytes(next))
  }

  /** The checksum is not the second representation of zero, which a pass replaces by the first.
      Only an ICMP message whose sum is zero has 0xffff as its computed checksum. */
  predicate NoNegativeZero(below: Below, l: Layer) {
    match l
    case Ipv4Layer(ip) => ip.checksum != 0xffff
    case TcpLayer(t) => below.IsIp() ==> t.checksum != 0xffff
    case UdpLayer(u) => below.IsIp() ==> u.checksum != 0xffff
    case IcmpLayer(m) => m.checksum == 0xffff ==> Wrap(WordSum(IcmpBytes(m.(checksum := 0)))) == 0
    case _ => true
  }

  /** The same for a layer that need not be part of a stack: a segment over IPv6 can be long enough
      for its sum to wrap to zero. */
  predicate NoNegativeZeroBefore(below: Below, l: Layer, next: seq<Layer>) {
    match l
    case TcpLayer(t) =>
      var segment := TcpBytes(t.(checksum := 0)) + LayersBytes(next);
      below.IsIp() && |segment| <= below.MaxLength() && t.checksum == 0xffff ==>
        Wrap(WordSum(Covered(below, segment))) == 0
    case _ => NoNegativeZero(below, l)
  }

  // ----- One layer -----

  lemma WordSumAtLeast(s: seq<byte>, i: nat)
    requires i + 1 < |s| && i % 2 == 0
    ensures WordSum(s) >= WordAt(s, i)
  {
    WordSumSetWord(s, i, 0);
  }

  lemma WordsSumAtLeast(ws: seq<u16>, i: nat, tail: seq<byte>)
    requires i < |ws|
    ensures WordSum(WordsBytes(ws) + tail) >= ws[i]
  {
    hide WordOf, WordAt, SetWord, WordSum, WordsBytes;
    SetHeaderWord(ws, i, 0, tail);
    WordSumAtLeast(WordsBytes(ws) + tail, 2 * i);
  }

  lemma PseudoHeaderPositive(below: Below, length: nat)
    requires below.IsIp() && 0 < length <= below.MaxLength()
    ensures WordSum(PseudoHeader(below, length)) > 0
  {
    hide WordSum, WordsBytes, BigEndian;
    match below
    case V4(src, dst, protocol) =>
      var ws := [High(src), Low(src), High(dst), Low(dst), protocol, length];
      WordsSumAtLeast(ws, 5, []);
      assert WordsBytes(ws) + [] == WordsBytes(ws);
    case V6(src, dst, next) =>
      var ws := [High(length), Low(length), 0, next];
      WordsSumAtLeast(ws, 0, []);
      WordsSumAtLeast(ws, 1, []);
      assert WordsBytes(ws) + [] == WordsBytes(ws);
      WordSumConcat(BigEndian(src, 16) + BigEndian(dst, 16), WordsBytes(ws));
  }

  lemma CoveredPositive(below: Below, segment: seq<byte>)
    requires below.IsIp() && 0 < |segment| <= below.MaxLength()
    ensures WordSum(Covered(below, segment)) > 0
  {
    hide PseudoHeader, WordSum;
    PseudoHeaderPositive(below, |segment|);
    WordSumConcat(PseudoHeader(below, |segment|), segment);
  }

  lemma ShortSegmentSums(below: Below, segment: seq<byte>)
    requires below.IsIp() && 0 < |segment| <= 0xffff
    ensures Wrap(WordSum(Covered(below, segment))) > 0
  {
    hide PseudoHeader, WordSum, Wrap;
    CoveredPositive(below, segment);
    NoWrap(Covered(below, segment));
  }

  /** Recomputing a transport checksum gives the stored one exactly when the segment verifies
      and the stored one is not 0xffff over words with a sum. */
  lemma SegmentFixed(below: Below, header: seq<byte>, i: nat, payload: seq<byte>)
    requires below.IsIp() && i + 1 < |header| && i % 2 == 0 && |header| + |payload| <= below.MaxLength()
    ensures var cleared := Covered(below, SetWord(header, i, 0) + payload);
            Checksum(cleared) == WordAt(header, i)
            <==> Checksum(Covered(below, header + payload)) == 0
                 && !(WordAt(header, i) == 0xffff && Wrap(WordSum(cleared)) > 0)
  {
    hide PseudoHeader, SetWord, Checksum, WordSum, Wrap, WordOf, WordAt;
    var front := PseudoHeader(below, |header| + |payload|);
    var whole := Covered(below, header + payload);
    FieldBehind(front, header, payload, i, 0);
    StoredChecksumIsFixed(whole, |front| + i);
  }

  lemma TcpFixed(below: Below, t: Tcp, next: seq<Layer>)
    ensures FinalTcp(below, t, LayersBytes(next)) == Update(t, true)
            <==> Verifies(below, TcpLayer(t), next) && NoNegativeZeroBefore(below, TcpLayer(t), next)
  {
    hide PadAmount, Checksum, WordSum, Wrap, SetWord, WordAt, PseudoHeader, Covered, TcpBytes, Size, LayersBytes;
    PaddedSize(t);
    SizeIsLength(next);
    TcpChecksumField(t, 0);
    if PadAmount(t) == 0 {
      assert PadTcp(t) == t by {
        assert t.options + Eols(0) == t.options;
      }
      if below.IsIp() && |TcpBytes(t)| + Size(next) <= below.MaxLength() {
        SegmentFixed(below, TcpBytes(t), 16, LayersBytes(next));
      }
    } else {
      assert |PadTcp(t).options| != |t.options|;
    }
  }

  lemma UdpFixed(below: Below, u: Udp, next: seq<Layer>)
    ensures FinalUdp(below, u, LayersBytes(next)) == Update(u, true)
            <==> Verifies(below, UdpLayer(u), next) && NoNegativeZero(below, UdpLayer(u))
  {
    hide Checksum, WordSum, Wrap, SetWord, WordAt, PseudoHeader, Covered, UdpBytes, Size, LayersBytes;
    SizeIsLength(next);
    UdpChecksumField(u, 0);
    if below.IsIp() && 8 + Size(next) <= 0xffff {
      SegmentFixed(below, UdpBytes(u), 6, LayersBytes(next));
      ShortSegmentSums(below, UdpBytes(u.(checksum := 0)) + LayersBytes(next));
    }
  }

  lemma Ipv4Fixed(below: Below, ip: Ipv4, next: seq<Layer>)
    ensures FinalIpv4(ip, Size(next)) == Update(ip, true)
            <==> Verifies(below, Ipv4Layer(ip), next) && NoNegativeZero(below, Ipv4Layer(ip))
  {
    hide Checksum, WordSum, Wrap, SetWord, WordAt, WordsBytes, Size;
    if ip.length == |Ipv4Bytes(ip)| + Size(next) {
      Ipv4ChecksumField(ip, 0);
      StoredChecksumIsFixed(Ipv4Bytes(ip), 10);
      var cleared := ip.(checksum := 0);
      WordsSumAtLeast(Ipv4Words(cleared), 1, Ipv4Header.OptionsBytes(ip.options));
      NoWrap(Ipv4Bytes(cleared));
    }
  }

  lemma IcmpFixed(below: Below, m: Icmp4, next: seq<Layer>)
    ensures FinalIcmp(m) == m
            <==> Verifies(below, IcmpLayer(m), next) && NoNegativeZero(below, IcmpLayer(m))
  {
    hide Checksum, WordSum, Wrap, SetWord, WordAt, IcmpBytes;
    IcmpChecksumField(m, 0);
    StoredChecksumIsFixed(IcmpBytes(m), 2);
  }

  /** Finalizing a layer succeeds and changes nothing exactly when the layer verifies and its
      checksum is not a negative zero. */
  lemma LayerFixed(below: Below, l: Layer, next: seq<Layer>)
    ensures FinalLayer(below, l, next) == Update(l, true)
            <==> Verifies(below, l, next) && NoNegativeZeroBefore(below, l, next)
  {
    hide FinalTcp, FinalUdp, FinalIpv4, FinalIcmp, SegmentVerifies, Checksum, WordSum, Wrap, Size;
    match l
    case EtherLayer(_) =>
    case RawLayer(_) =>
    case Ipv6Layer(_) =>
    case IcmpLayer(m) => IcmpFixed(below, m, next);
    case Ipv4Layer(ip) => Ipv4Fixed(below, ip, next);
    case TcpLayer(t) => TcpFixed(below, t, next);
    case UdpLayer(u) => UdpFixed(below, u, next);
  }

  /** In a stack, a segment over IP is short. */
  lemma ShortLayer(below: Below, l: Layer, next: seq<Layer>)
    requires below.IsIp() ==> |LayerBytes(l)| + Size(next) <= 0xffff
    ensures NoNegativeZeroBefore(below, l, next) <==> NoNegativeZero(below, l)
  {
    hide Covered, WordSum, Wrap, TcpBytes, UdpBytes, Ipv4Bytes, IcmpBytes, Size, LayersBytes;
    if l.TcpLayer? && below.IsIp() {
      SizeIsLength(next);
      ClearedTcpSize(l.tcp);
      ShortSegmentSums(below, TcpBytes(l.tcp.(checksum := 0)) + LayersBytes(next));
    }
  }

  lemma ClearedTcpSize(t: Tcp)
    ensures |TcpBytes(t.(checksum := 0))| == |TcpBytes(t)| >= 20
  {
    hide TcpWords, WordsBytes, TcpOptions.OptionsBytes;
  }

  // ----- The whole stack -----

  function BelowAt(below: Below, ls: seq<Layer>, i: nat): Below
    requires i <= |ls|
  {
    if i == 0 then below else BelowLayer(ls[i - 1])
  }

  predicate SettledAt(below: Below, ls: seq<Layer>, i: nat)
    requires i < |ls|
  {
    Verifies(BelowAt(below, ls, i), ls[i], ls[i + 1..]) && NoNegativeZero(BelowAt(below, ls, i), ls[i])
  }

  predicate Settled(below: Below, ls: seq<Layer>) {
    forall i :: 0 <= i < |ls| ==> SettledAt(below, ls, i)
  }

  lemma SettledCons(below: Below, ls: seq<Layer>)
    requires |ls| > 0
    ensures Settled(below, ls) <==> SettledAt(below, ls, 0) && Settled(BelowLayer(ls[0]), ls[1..])
  {
    hide Verifies, NoNegativeZero;
    var below', rest := BelowLayer(ls[0]), ls[1..];
    forall i | 0 <= i < |rest|
      ensures SettledAt(below', rest, i) == SettledAt(below, ls, i + 1)
    {
      assert rest[i + 1..] == ls[i + 2..];
    }
    if SettledAt(below, ls, 0) && Settled(below', rest) {
      forall i | 0 <= i < |ls|
        ensures SettledAt(below, ls, i)
      {
        assert i > 0 ==> SettledAt(below', rest, i - 1);
      }
    }
    if Settled(below, ls) {
      forall i | 0 <= i < |rest|
        ensures SettledAt(below', rest, i)
      {
        assert SettledAt(below, ls, i + 1);
      }
    }
  }

  lemma PassFixedCons(below: Below, ls: seq<Layer>)
    requires |ls| > 0
    ensures PassFrom(below, ls) == Update(ls, true)
            <==> FinalLayer(below, ls[0], ls[1..]) == Update(ls[0], true)
                 && PassFrom(BelowLayer(ls[0]), ls[1..]) == Update(ls[1..], true)
  {
    hide FinalLayer;
    var head := FinalLayer(below, ls[0], ls[1..]);
    assert ls == [ls[0]] + ls[1..];
    if head.ok {
      var tail := PassFrom(BelowLayer(head.value), ls[1..]);
      assert ([head.value] + tail.value)[1..] == tail.value;
      assert ([head.value] + tail.value)[0] == head.value;
    }
  }

  lemma {:induction false} FixedSuffix(below: Below, ls: seq<Layer>)
    requires below.IsIp() ==> Size(ls) <= 0xffff
    ensures PassFrom(below, ls) == Update(ls, true) <==> Settled(below, ls)
    decreases |ls|
  {
    if |ls| > 0 {
      LayerFixed(below, ls[0], ls[1..]);
      ShortLayer(below, ls[0], ls[1..]);
      PassFixedCons(below, ls);
      SettledCons(below, ls);
      if SettledAt(below, ls, 0) {
        FixedSuffix(BelowLayer(ls[0]), ls[1..]);
      }
    }
  }

  /** A pass succeeds and changes nothing exactly when every layer verifies and no checksum is
      a negative zero. */
  lemma FixedPoints(ls: seq<Layer>)
    ensures Pass(ls) == Update(ls, true)
            <==> forall i :: 0 <= i < |ls| ==>
                   Verifies(BelowOf(ls[..i]), ls[i], ls[i + 1..]) && NoNegativeZero(BelowOf(ls[..i]), ls[i])
  {
    FixedSuffix(Nothing, ls);
    forall i | 0 <= i < |ls|
      ensures BelowAt(Nothing, ls, i) == BelowOf(ls[..i])
    {}
    assert forall i :: 0 <= i < |ls| ==>
      (SettledAt(Nothing, ls, i)
       <==> Verifies(BelowOf(ls[..i]), ls[i], ls[i + 1..]) && NoNegativeZero(BelowOf(ls[..i]), ls[i]));
  }
}
