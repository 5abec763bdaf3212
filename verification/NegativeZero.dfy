/** What a pass does to a stack in which everything already verifies: it replaces a stored 0xffff
    by 0, the other representation of the same checksum, and changes nothing else. */
module NegativeZero {
  import opened Bytes
  import opened InternetChecksum
  import opened ChecksumFields
  import opened TcpOptions
  import opened TcpHeader
  import opened Ipv4Header
  import opened SimpleHeaders
  import opened Layers
  import opened FinalizeSpec
  import opened FixedPoint
  import opened OnePass

  // ----- Sums modulo 0xffff, at any alignment (RFC 1071, section 2) -----

  /** Moving bytes by one place multiplies their sum by 256, modulo 0xffff. */
  lemma {:induction false} ShiftedSum(x: byte, s: seq<byte>) returns (k: nat)
    ensures WordSum([x] + s) + 0xffff * k == 0x100 * x + 0x100 * WordSum(s)
    decreases |s|
  {
    if |s| == 0 {
      assert [x] + s == [x];
      WordValue(x, 0x00);
      k := 0;
    } else if |s| == 1 {
      assert [x] + s == [x, s[0]];
      OneWord(x, s[0]);
      WordValue(x, s[0]);
      WordValue(s[0], 0x00);
      k := s[0];
    } else {
      var j := ShiftedSum(s[1], s[2..]);
      assert [x] + s == [x, s[0]] + ([s[1]] + s[2..]);
      assert ([x] + s)[2..] == [s[1]] + s[2..];
      WordValue(x, s[0]);
      WordValue(s[0], s[1]);
      k := j + s[0];
    }
  }

  lemma ConcatSum(a: seq<byte>, b: seq<byte>) returns (k: nat)
    ensures WordSum(a + b) + 0xffff * k == WordSum(a) + (if |a| % 2 == 0 then 1 else 0x100) * WordSum(b)
  {
    hide WordSum;
    if |a| % 2 == 0 {
      WordSumConcat(a, b);
      k := 0;
    } else {
      var front, x := a[..|a| - 1], a[|a| - 1];
      assert a == front + [x] && a + b == front + ([x] + b);
      WordSumConcat(front, [x]);
      WordSumConcat(front, [x] + b);
      OneByte(x);
      WordValue(x, 0x00);
      k := ShiftedSum(x, b);
    }
  }

  /** Two byte strings of one length whose sums agree modulo 0xffff. */
  predicate Alike(a: seq<byte>, b: seq<byte>) {
    |a| == |b| && WordSum(a) % 0xffff == WordSum(b) % 0xffff
  }

  lemma Congruent(x: int, y: int, m: int)
    requires x == y + 0xffff * m
    ensures x % 0xffff == y % 0xffff
  {}

  lemma SameResidueSum(a: nat, a': nat, f: nat, b: nat, b': nat, x: int, y: int, k: nat, k': nat)
    requires a % 0xffff == a' % 0xffff && b % 0xffff == b' % 0xffff
    requires f == 1 || f == 0x100
    requires x + 0xffff * k == a + f * b && y + 0xffff * k' == a' + f * b'
    ensures x % 0xffff == y % 0xffff
  {
    var p, q := a / 0xffff - a' / 0xffff, b / 0xffff - b' / 0xffff;
    assert a - a' == 0xffff * p && b - b' == 0xffff * q;
    if f == 1 {
      Congruent(x, y, p + q - k + k');
    } else {
      Congruent(x, y, p + 0x100 * q - k + k');
    }
  }

  lemma AlikeConcat(a: seq<byte>, a': seq<byte>, b: seq<byte>, b': seq<byte>)
    requires Alike(a, a') && Alike(b, b')
    ensures Alike(a + b, a' + b')
  {
    hide WordSum;
    var k := ConcatSum(a, b);
    var k' := ConcatSum(a', b');
    var f := if |a| % 2 == 0 then 1 else 0x100;
    SameResidueSum(WordSum(a), WordSum(a'), f, WordSum(b), WordSum(b'), WordSum(a + b), WordSum(a' + b'), k, k');
  }

  lemma ClearedAlike(s: seq<byte>, i: nat)
    requires i + 1 < |s| && i % 2 == 0 && WordAt(s, i) == 0xffff
    ensures Alike(SetWord(s, i, 0), s)
  {
    hide WordSum, SetWord, WordAt;
    WordSumSetWord(s, i, 0);
    MultipleDropped(1, WordSum(SetWord(s, i, 0)));
  }

  lemma AlikeVerifies(s: seq<byte>, s': seq<byte>)
    requires Alike(s, s') && |s| <= MAX_EXACT && Checksum(s) == 0 && WordSum(s') > 0
    ensures Checksum(s') == 0
  {
    hide WordSum, Checksum;
    NoWrap(s);
    NoWrap(s');
    ZeroChecksum(s);
    ZeroChecksum(s');
  }

  // ----- One layer -----

  /** The layer with 0 for a stored 0xffff that a pass would not compute. */
  function PositiveZero(below: Below, l: Layer): Layer {
    if NoNegativeZero(below, l) then l
    else
      match l
      case Ipv4Layer(ip) => Ipv4Layer(ip.(checksum := 0))
      case TcpLayer(t) => TcpLayer(t.(checksum := 0))
      case UdpLayer(u) => UdpLayer(u.(checksum := 0))
      case IcmpLayer(m) => IcmpLayer(m.(checksum := 0))
      case _ => l
  }

  lemma PositiveZeroAlike(below: Below, l: Layer)
    ensures Alike(LayerBytes(PositiveZero(below, l)), LayerBytes(l))
    ensures BelowLayer(PositiveZero(below, l)) == BelowLayer(l)
    ensures NoNegativeZero(below, PositiveZero(below, l))
  {
    hide WordSum, Wrap, SetWord, WordAt, TcpBytes, UdpBytes, Ipv4Bytes, IcmpBytes, EtherBytes;
    if !NoNegativeZero(below, l) {
      match l
      case Ipv4Layer(ip) => Ipv4ChecksumField(ip, 0); ClearedAlike(Ipv4Bytes(ip), 10);
      case TcpLayer(t) => TcpChecksumField(t, 0); ClearedAlike(TcpBytes(t), 16);
      case UdpLayer(u) => UdpChecksumField(u, 0); ClearedAlike(UdpBytes(u), 6);
      case IcmpLayer(m) => IcmpChecksumField(m, 0); ClearedAlike(IcmpBytes(m), 2);
    }
  }

  /** Recomputing the checksum of a segment that verifies. */
  lemma SegmentRecomputed(below: Below, header: seq<byte>, i: nat, payload: seq<byte>)
    requires below.IsIp() && i + 1 < |header| && i % 2 == 0 && |header| + |payload| <= 0xffff
    requires Checksum(Covered(below, header + payload)) == 0
    ensures Checksum(Covered(below, SetWord(header, i, 0) + payload))
            == if WordAt(header, i) == 0xffff then 0 else WordAt(header, i)
  {
    hide PseudoHeader, SetWord, Checksum, WordSum, Wrap, WordOf, WordAt;
    var front := PseudoHeader(below, |header| + |payload|);
    var whole, cleared := Covered(below, header + payload), Covered(below, SetWord(header, i, 0) + payload);
    FieldBehind(front, header, payload, i, 0);
    RecomputingVerified(whole, |front| + i);
    CoveredPositive(below, SetWord(header, i, 0) + payload);
    NoWrap(cleared);
  }

  lemma TcpRecomputed(below: Below, t: Tcp, next: seq<Layer>)
    requires below.IsIp() ==> |TcpBytes(t)| + Size(next) <= 0xffff
    requires Verifies(below, TcpLayer(t), next)
    ensures FinalTcp(below, t, LayersBytes(next)) == Update(PositiveZero(below, TcpLayer(t)).tcp, true)
  {
    hide PadAmount, Checksum, WordSum, SetWord, WordAt, PseudoHeader, Covered, TcpBytes, Size, LayersBytes;
    PaddedSize(t);
    SizeIsLength(next);
    TcpChecksumField(t, 0);
    assert PadAmount(t) == 0;
    assert t.options + Eols(0) == t.options;
    assert PadTcp(t) == t;
    if below.IsIp() {
      SegmentRecomputed(below, TcpBytes(t), 16, LayersBytes(next));
    }
  }

  lemma UdpRecomputed(below: Below, u: Udp, next: seq<Layer>)
    requires below.IsIp() ==> 8 + Size(next) <= 0xffff
    requires Verifies(below, UdpLayer(u), next)
    ensures FinalUdp(below, u, LayersBytes(next)) == Update(PositiveZero(below, UdpLayer(u)).udp, true)
  {
    hide Checksum, WordSum, SetWord, WordAt, PseudoHeader, Covered, UdpBytes, Size, LayersBytes;
    SizeIsLength(next);
    UdpChecksumField(u, 0);
    if below.IsIp() {
      SegmentRecomputed(below, UdpBytes(u), 6, LayersBytes(next));
    }
  }

  lemma Ipv4Recomputed(below: Below, ip: Ipv4, next: seq<Layer>)
    requires Verifies(below, Ipv4Layer(ip), next)
    ensures FinalIpv4(ip, Size(next)) == Update(PositiveZero(below, Ipv4Layer(ip)).ipv4, true)
  {
    hide Checksum, WordSum, Wrap, SetWord, WordAt, WordsBytes, Size;
    Ipv4ChecksumField(ip, 0);
    RecomputingVerified(Ipv4Bytes(ip), 10);
    var cleared := ip.(checksum := 0);
    WordsSumAtLeast(Ipv4Words(cleared), 1, Ipv4Header.OptionsBytes(ip.options));
    NoWrap(Ipv4Bytes(cleared));
  }

  lemma IcmpRecomputed(below: Below, m: Icmp4, next: seq<Layer>)
    requires Verifies(below, IcmpLayer(m), next)
    ensures FinalIcmp(m) == PositiveZero(below, IcmpLayer(m)).icmp
  {
    hide Checksum, WordSum, Wrap, SetWord, WordAt, IcmpBytes;
    IcmpChecksumField(m, 0);
    RecomputingVerified(IcmpBytes(m), 2);
  }

  lemma LayerRecomputed(below: Below, l: Layer, next: seq<Layer>)
    requires below.IsIp() ==> |LayerBytes(l)| + Size(next) <= 0xffff
    requires Verifies(below, l, next)
    ensures FinalLayer(below, l, next) == Update(PositiveZero(below, l), true)
  {
    hide FinalTcp, FinalUdp, FinalIpv4, FinalIcmp, SegmentVerifies, Checksum, WordSum, Wrap, Size;
    match l
    case EtherLayer(_) =>
    case RawLayer(_) =>
    case Ipv6Layer(_) =>
    case IcmpLayer(m) => IcmpRecomputed(below, m, next);
    case Ipv4Layer(ip) => Ipv4Recomputed(below, ip, next);
    case TcpLayer(t) => TcpRecomputed(below, t, next);
    case UdpLayer(u) => UdpRecomputed(below, u, next);
  }

  lemma SegmentStillVerifies(below: Below, s: seq<byte>, s': seq<byte>)
    requires SegmentVerifies(below, s) && Alike(s, s') && 0 < |s| <= 0xffff
    ensures SegmentVerifies(below, s')
  {
    hide WordSum, Checksum, PseudoHeader;
    if below.IsIp() {
      var front := PseudoHeader(below, |s|);
      AlikeConcat(front, front, s, s');
      CoveredPositive(below, s');
      AlikeVerifies(Covered(below, s), Covered(below, s'));
    }
  }

  /** Replacing negative zeros, here and behind, keeps a layer verifying. */
  lemma StillVerifies(below: Below, l: Layer, l': Layer, next: seq<Layer>, next': seq<Layer>)
    requires below.IsIp() ==> |LayerBytes(l)| + Size(next) <= 0xffff
    requires Verifies(below, l, next) && Alike(LayersBytes(next), LayersBytes(next'))
    requires l' == PositiveZero(below, l)
    ensures Verifies(below, l', next')
  {
    hide SegmentVerifies, Checksum, WordSum, Wrap, Size, Alike, LayersBytes, TcpBytes, UdpBytes, Ipv4Bytes, IcmpBytes;
    SizeIsLength(next);
    SizeIsLength(next');
    assert |LayersBytes(next)| == |LayersBytes(next')| by {
      AlikeLength(LayersBytes(next), LayersBytes(next'));
    }
    PositiveZeroAlike(below, l);
    AlikeLength(LayerBytes(l'), LayerBytes(l));
    AlikeSymmetric(LayerBytes(l'), LayerBytes(l));
    match l
    case EtherLayer(_) =>
    case RawLayer(_) =>
    case Ipv6Layer(_) =>
    case IcmpLayer(m) =>
      IcmpRecomputed(below, m, next);
      IcmpOnePass(m);
    case Ipv4Layer(ip) =>
      Ipv4Recomputed(below, ip, next);
      Ipv4OnePass(ip, Size(next));
    case TcpLayer(t) => TransportStillVerifies(below, l, l', next, next');
    case UdpLayer(u) => TransportStillVerifies(below, l, l', next, next');
  }

  lemma AlikeLength(a: seq<byte>, b: seq<byte>)
    requires Alike(a, b)
    ensures |a| == |b|
  {}

  lemma AlikeSymmetric(a: seq<byte>, b: seq<byte>)
    requires Alike(a, b)
    ensures Alike(b, a)
  {}

  lemma TransportStillVerifies(below: Below, l: Layer, l': Layer, next: seq<Layer>, next': seq<Layer>)
    requires below.IsIp() ==> |LayerBytes(l)| + Size(next) <= 0xffff
    requires |LayerBytes(l)| > 0 && SegmentVerifies(below, LayerBytes(l) + LayersBytes(next))
    requires Alike(LayerBytes(l), LayerBytes(l')) && Alike(LayersBytes(next), LayersBytes(next'))
    ensures SegmentVerifies(below, LayerBytes(l') + LayersBytes(next'))
  {
    hide LayerBytes, LayersBytes, Alike, Checksum, Covered;
    if below.IsIp() {
      SizeIsLength(next);
      AlikeConcat(LayerBytes(l), LayerBytes(l'), LayersBytes(next), LayersBytes(next'));
      SegmentStillVerifies(below, LayerBytes(l) + LayersBytes(next), LayerBytes(l') + LayersBytes(next'));
    }
  }

  // ----- The whole stack -----

  predicate Verified(below: Below, ls: seq<Layer>) {
    forall i :: 0 <= i < |ls| ==> Verifies(BelowAt(below, ls, i), ls[i], ls[i + 1..])
  }

  lemma VerifiedCons(below: Below, ls: seq<Layer>)
    requires |ls| > 0 && Verified(below, ls)
    ensures Verifies(below, ls[0], ls[1..]) && Verified(BelowLayer(ls[0]), ls[1..])
  {
    hide Verifies, BelowLayer;
    assert Verifies(BelowAt(below, ls, 0), ls[0], ls[0 + 1..]);
    var below', rest := BelowLayer(ls[0]), ls[1..];
    forall i | 0 <= i < |rest|
      ensures Verifies(BelowAt(below', rest, i), rest[i], rest[i + 1..])
    {
      assert Verifies(BelowAt(below, ls, i + 1), ls[i + 1], ls[i + 1 + 1..]);
      assert rest[i + 1..] == ls[i + 1 + 1..];
    }
  }

  /** The stack without negative zeros. */
  function PositiveZeros(below: Below, ls: seq<Layer>): (out: seq<Layer>)
    ensures |out| == |ls|
    ensures forall i :: 0 <= i < |ls| ==> out[i] == PositiveZero(BelowAt(below, ls, i), ls[i])
    decreases |ls|
  {
    if |ls| == 0 then [] else [PositiveZero(below, ls[0])] + PositiveZeros(BelowLayer(ls[0]), ls[1..])
  }

  lemma {:induction false} PositiveZerosAlike(below: Below, ls: seq<Layer>)
    ensures Alike(LayersBytes(ls), LayersBytes(PositiveZeros(below, ls)))
    decreases |ls|
  {
    hide WordSum, LayerBytes, BelowLayer, PositiveZero;
    if |ls| > 0 {
      hide Alike;
      var l', rest' := PositiveZero(below, ls[0]), PositiveZeros(BelowLayer(ls[0]), ls[1..]);
      PositiveZeroAlike(below, ls[0]);
      AlikeSymmetric(LayerBytes(l'), LayerBytes(ls[0]));
      PositiveZerosAlike(BelowLayer(ls[0]), ls[1..]);
      AlikeConcat(LayerBytes(ls[0]), LayerBytes(l'), LayersBytes(ls[1..]), LayersBytes(rest'));
      assert ([l'] + rest')[1..] == rest';
    }
  }

  lemma IpBoundsRest(below: Below, l: Layer, next: seq<Layer>)
    requires Verifies(below, l, next) && BelowLayer(l).IsIp()
    ensures Size(next) <= 0xffff
  {}

  lemma {:induction false} VerifiedSuffix(below: Below, ls: seq<Layer>)
    requires Verified(below, ls) && (below.IsIp() ==> Size(ls) <= 0xffff)
    ensures PassFrom(below, ls) == Update(PositiveZeros(below, ls), true)
    ensures Settled(below, PositiveZeros(below, ls))
    decreases |ls|
  {
    if |ls| > 0 {
      hide Verifies, NoNegativeZero, PositiveZero, FinalLayer, LayerBytes, BelowLayer, Settled, Verified;
      var below', rest := BelowLayer(ls[0]), ls[1..];
      VerifiedCons(below, ls);
      if below'.IsIp() {
        IpBoundsRest(below, ls[0], rest);
      }
      VerifiedSuffix(below', rest);
      LayerRecomputed(below, ls[0], rest);
      PositiveZeroAlike(below, ls[0]);
      PositiveZerosAlike(below', rest);
      StillVerifies(below, ls[0], PositiveZero(below, ls[0]), rest, PositiveZeros(below', rest));
      SettledOnto(below, PositiveZero(below, ls[0]), PositiveZeros(below', rest));
    }
  }

  lemma SettledOnto(below: Below, l: Layer, rest: seq<Layer>)
    requires Verifies(below, l, rest) && NoNegativeZero(below, l) && Settled(BelowLayer(l), rest)
    ensures Settled(below, [l] + rest)
  {
    hide Verifies, NoNegativeZero, Settled, BelowLayer;
    var ls := [l] + rest;
    assert ls[1..] == rest && ls[0] == l;
    assert SettledAt(below, ls, 0);
    SettledCons(below, ls);
  }

  /** If everything verifies, a pass succeeds, replaces stored negative zeros by 0 and changes
      nothing else, and its result is a fixed point. */
  lemma PassOfVerified(ls: seq<Layer>)
    requires forall i :: 0 <= i < |ls| ==> Verifies(BelowOf(ls[..i]), ls[i], ls[i + 1..])
    ensures var out := Pass(ls);
            && out.ok && |out.value| == |ls|
            && (forall i :: 0 <= i < |ls| ==> out.value[i] == PositiveZero(BelowOf(ls[..i]), ls[i]))
            && Pass(out.value) == Update(out.value, true)
  {
    hide Verifies, NoNegativeZero, PositiveZero, PassFrom, BelowLayer, Settled;
    forall i | 0 <= i < |ls|
      ensures BelowAt(Nothing, ls, i) == BelowOf(ls[..i])
    {}
    VerifiedSuffix(Nothing, ls);
    FixedSuffix(Nothing, PositiveZeros(Nothing, ls));
  }
}
