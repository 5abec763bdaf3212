/** What one pass does to the stack as a whole: its frame, the lengths it stores, and the inputs
    it gives to the checksum. */
module PassProperties {
  import opened Bytes
  import opened InternetChecksum
  import opened TcpHeader
  import opened Ipv4Header
  import opened Ipv6Header
  import opened SimpleHeaders
  import opened Layers
  import opened FinalizeSpec
  import opened FixedPoint
  import opened Convergence

  // ----- Each layer of the result -----

  /** A successful pass finalizes every layer over the original layers behind it. */
  lemma {:induction false} PassAt(below: Below, ls: seq<Layer>, i: nat)
    requires i < |ls| && PassFrom(below, ls).ok
    ensures FinalLayer(BelowAt(below, ls, i), ls[i], ls[i + 1..]) == Update(PassFrom(below, ls).value[i], true)
    decreases |ls|
  {
    hide FinalLayer, BelowLayer;
    PassCons(below, ls);
    if i > 0 {
      PassAt(BelowLayer(ls[0]), ls[1..], i - 1);
      assert ls[1..][i..] == ls[i + 1..];
    }
  }

  lemma {:induction false} PassSuffix(below: Below, ls: seq<Layer>, i: nat)
    requires i <= |ls| && PassFrom(below, ls).ok
    ensures PassFrom(BelowAt(below, ls, i), ls[i..]) == Update(PassFrom(below, ls).value[i..], true)
    decreases |ls|
  {
    hide FinalLayer, BelowLayer;
    if i > 0 {
      PassCons(below, ls);
      PassSuffix(BelowLayer(ls[0]), ls[1..], i - 1);
      assert ls[1..][i - 1..] == ls[i..];
    }
  }

  // ----- The frame -----

  /** b is a with other values in its length, checksum and offset fields; a TCP layer also gains
      the end-of-list options that align it. */
  predicate Framed(a: Layer, b: Layer) {
    match (a, b)
    case (IcmpLayer(m), IcmpLayer(m')) => m' == m.(checksum := m'.checksum)
    case (Ipv4Layer(ip), Ipv4Layer(ip')) => ip' == ip.(length := ip'.length, checksum := ip'.checksum)
    case (Ipv6Layer(ip), Ipv6Layer(ip')) => ip' == ip.(length := ip'.length)
    case (UdpLayer(u), UdpLayer(u')) => u' == u.(length := u'.length, checksum := u'.checksum)
    case (TcpLayer(t), TcpLayer(t')) =>
      && t' == t.(offset := t'.offset, checksum := t'.checksum, options := t'.options)
      && EolsAdded(t.options, t'.options) && |TcpBytes(t')| % 4 == 0
    case _ => a == b
  }

  lemma LayerFramed(below: Below, l: Layer, next: seq<Layer>)
    ensures Framed(l, FinalLayer(below, l, next).value)
  {
    hide Checksum, Covered, Size, TcpBytes, UdpBytes, Ipv4Bytes, IcmpBytes;
    if l.TcpLayer? {
      PaddedSize(l.tcp);
      PaddedOptions(l.tcp);
    }
  }

  /** What a failure leaves: the layer as it was, but for the alignment of a TCP header, and its
      checksum if only the offset did not fit. */
  predicate LeftBehind(below: Below, l: Layer, next: seq<Layer>, out: Layer) {
    match l
    case Ipv4Layer(ip) => out == l && |Ipv4Bytes(ip)| + Size(next) > 0xffff
    case Ipv6Layer(_) => out == l && Size(next) > 0xffff
    case UdpLayer(_) => out == l && 8 + Size(next) > 0xffff
    case TcpLayer(t) =>
      && out.TcpLayer? && EolsAdded(t.options, out.tcp.options) && |TcpBytes(out.tcp)| % 4 == 0
      && out.tcp == t.(options := out.tcp.options, checksum := out.tcp.checksum)
      && (out.tcp.checksum == t.checksum || (below.IsIp() && |TcpBytes(out.tcp)| > 0x3fc))
      && (|TcpBytes(out.tcp)| > 0x3fc
          || (below.V4? && |TcpBytes(out.tcp)| + Size(next) > 0xffff)
          || (below.V6? && |TcpBytes(out.tcp)| + Size(next) > 0xffff_ffff))
    case _ => false
  }

  lemma LayerFailed(below: Below, l: Layer, next: seq<Layer>)
    requires !FinalLayer(below, l, next).ok
    ensures LeftBehind(below, l, next, FinalLayer(below, l, next).value)
  {
    hide Checksum, Covered, Size, TcpBytes, UdpBytes, Ipv4Bytes, IcmpBytes, PadAmount, LayersBytes;
    SizeIsLength(next);
    match l
    case TcpLayer(t) =>
      PaddedSize(t);
      PaddedOptions(t);
      ClearingKeepsSize(PadTcp(t));
      OffsetAndChecksumKeepSize(PadTcp(t), FinalLayer(below, l, next).value.tcp);
    case UdpLayer(u) => UdpSizes(u);
    case _ =>
  }

  /** The layer at which a pass stops; the number of layers if it does not. */
  function StopsAt(below: Below, ls: seq<Layer>): nat
    decreases |ls|
  {
    if |ls| == 0 || !FinalLayer(below, ls[0], ls[1..]).ok then 0
    else 1 + StopsAt(BelowLayer(ls[0]), ls[1..])
  }

  /** A pass keeps the number, order and types of the layers and touches dependent fields only.
      It fails exactly when it stops early, and then the layers behind the stop are untouched. */
  lemma {:induction false} FrameOfPass(below: Below, ls: seq<Layer>)
    ensures var out, stop := PassFrom(below, ls), StopsAt(below, ls);
            && |out.value| == |ls| && stop <= |ls|
            && (out.ok <==> stop == |ls|)
            && FramedUpTo(stop, ls, out.value)
            && (stop < |ls| ==> LeftBehind(BelowAt(below, ls, stop), ls[stop], ls[stop + 1..], out.value[stop]))
    decreases |ls|
  {
    if |ls| > 0 {
      hide FinalLayer, Framed, BelowLayer, FramedUpTo, LeftBehind;
      var head := FinalLayer(below, ls[0], ls[1..]);
      LayerFramed(below, ls[0], ls[1..]);
      FinalLayerBelow(below, ls[0], ls[1..]);
      if head.ok {
        FrameOfPass(BelowLayer(ls[0]), ls[1..]);
        var stop := StopsAt(BelowLayer(ls[0]), ls[1..]);
        FramedCons(ls, head.value, PassFrom(BelowLayer(ls[0]), ls[1..]).value, stop);
        assert stop < |ls[1..]| ==> ls[1..][stop + 1..] == ls[stop + 2..];
      } else {
        FramedFirst(ls, head.value);
        LayerFailed(below, ls[0], ls[1..]);
      }
    }
  }

  /** The layers up to and including `stop` are framed and the others are unchanged. */
  predicate FramedUpTo(stop: nat, ls: seq<Layer>, out: seq<Layer>)
    requires |out| == |ls|
  {
    && (forall i :: 0 <= i < |ls| && i <= stop ==> Framed(ls[i], out[i]))
    && (forall i :: stop < i < |ls| ==> out[i] == ls[i])
  }

  lemma FramedFirst(ls: seq<Layer>, head: Layer)
    requires |ls| > 0 && Framed(ls[0], head)
    ensures FramedUpTo(0, ls, [head] + ls[1..])
  {
    hide Framed;
  }

  lemma FramedCons(ls: seq<Layer>, head: Layer, tail: seq<Layer>, stop: nat)
    requires |ls| > 0 && |tail| == |ls| - 1 && Framed(ls[0], head) && FramedUpTo(stop, ls[1..], tail)
    ensures FramedUpTo(stop + 1, ls, [head] + tail)
  {
    hide Framed;
    var out := [head] + tail;
    forall i | 0 < i < |ls|
      ensures out[i] == tail[i - 1] && ls[i] == ls[1..][i - 1]
    {}
  }

  // ----- Lengths -----

  /** The length an IP or UDP layer stores lacks exactly the alignment that the same pass gives to the
      TCP layers behind it. */
  lemma LengthConservation(ls: seq<Layer>, i: nat)
    requires i < |ls| && Pass(ls).ok
    ensures var out, pad := Pass(ls).value, TotalPadding(ls[i + 1..]);
            && |out| == |ls|
            && (ls[i].Ipv4Layer? ==> out[i].Ipv4Layer? && out[i].ipv4.length + pad == Size(out[i..]))
            && (ls[i].Ipv6Layer? ==> out[i].Ipv6Layer? && out[i].ipv6.length + pad == Size(out[i + 1..]))
            && (ls[i].UdpLayer? ==> out[i].UdpLayer? && out[i].udp.length + pad == Size(out[i..]))
  {
    hide PassFrom, Checksum, Covered, Ipv4Bytes, Ipv6Bytes, UdpBytes, LayersBytes;
    var out := Pass(ls).value;
    SizeIsLength(ls[i + 1..]);
    PassAt(Nothing, ls, i);
    PassSuffix(Nothing, ls, i + 1);
    PassSize(BelowAt(Nothing, ls, i + 1), ls[i + 1..]);
    FinalLayerSize(BelowAt(Nothing, ls, i), ls[i], ls[i + 1..]);
    assert out[i..][1..] == out[i + 1..];
  }

  // ----- The inputs of the checksum -----

  /** The argument of the checksum call that finalizing a layer makes, if it makes one. */
  function ChecksumInput(below: Below, l: Layer, next: seq<Layer>): Option<seq<byte>> {
    match l
    case IcmpLayer(m) => Some(IcmpBytes(m.(checksum := 0)))
    case Ipv4Layer(ip) =>
      var total := |Ipv4Bytes(ip)| + Size(next);
      if total > 0xffff then None else Some(Ipv4Bytes(ip.(length := total, checksum := 0)))
    case TcpLayer(t) =>
      var segment := TcpBytes(PadTcp(t).(checksum := 0)) + LayersBytes(next);
      if below.IsIp() && |segment| <= below.MaxLength() then Some(Covered(below, segment)) else None
    case UdpLayer(u) =>
      var segment := UdpBytes(u.(checksum := 0)) + LayersBytes(next);
      if below.IsIp() && |segment| <= 0xffff then Some(Covered(below, segment)) else None
    case _ => None
  }

  function ChecksumOf(l: Layer): Option<u16> {
    match l
    case IcmpLayer(m) => Some(m.checksum)
    case Ipv4Layer(ip) => Some(ip.checksum)
    case TcpLayer(t) => Some(t.checksum)
    case UdpLayer(u) => Some(u.checksum)
    case _ => None
  }

  /** Whether finalizing a layer succeeds or fails: it stores the checksum of the input it calls
      for, and without a call it keeps the one it had. */
  lemma ChecksumInputIsUsed(below: Below, l: Layer, next: seq<Layer>)
    ensures var input := ChecksumInput(below, l, next);
            ChecksumOf(FinalLayer(below, l, next).value)
            == if input.Some? then Some(Checksum(input.value)) else ChecksumOf(l)
  {
    hide Checksum, Covered, TcpBytes, UdpBytes, Ipv4Bytes, IcmpBytes;
    if l.Ipv4Layer? {
      var ip := l.ipv4;
      var total := |Ipv4Bytes(ip)| + Size(next);
      if total <= 0xffff {
        assert ip.(length := total).(checksum := 0) == ip.(length := total, checksum := 0);
      }
    }
  }

  /** Every checksum call up to the end or failure of the pass gets an input of exact size. */
  predicate CallsInBound(below: Below, ls: seq<Layer>)
    decreases |ls|
  {
    |ls| > 0 ==>
      && (var input := ChecksumInput(below, ls[0], ls[1..]); input.Some? ==> |input.value| <= MAX_EXACT)
      && (FinalLayer(below, ls[0], ls[1..]).ok ==> CallsInBound(BelowLayer(ls[0]), ls[1..]))
  }

  predicate IsIpLayer(l: Layer) {
    l.Ipv4Layer? || l.Ipv6Layer?
  }

  predicate IcmpBehindIp(ls: seq<Layer>) {
    forall i :: 0 <= i < |ls| && ls[i].IcmpLayer? ==> exists j :: 0 <= j < i && IsIpLayer(ls[j])
  }

  lemma InputSize(below: Below, l: Layer, next: seq<Layer>)
    requires ChecksumInput(below, l, next).Some? && !l.Ipv4Layer?
    ensures |ChecksumInput(below, l, next).value| <= 43 + |LayerBytes(l)| + Size(next)
  {
    hide WordsBytes, PseudoHeader;
    SizeIsLength(next);
    if l.TcpLayer? {
      PaddedSize(l.tcp);
      ClearingKeepsSize(PadTcp(l.tcp));
    }
  }

  /** Behind an IP layer that was finalized, everything is short. */
  lemma {:induction false} CallsInBoundBehindIp(below: Below, ls: seq<Layer>)
    requires Size(ls) <= 0xffff
    ensures CallsInBound(below, ls)
    decreases |ls|
  {
    if |ls| > 0 {
      hide FinalLayer, Covered, BelowLayer;
      CallsInBoundBehindIp(BelowLayer(ls[0]), ls[1..]);
      if ChecksumInput(below, ls[0], ls[1..]).Some? && !ls[0].Ipv4Layer? {
        InputSize(below, ls[0], ls[1..]);
      }
    }
  }

  lemma IpLayerBounds(below: Below, l: Layer, next: seq<Layer>)
    requires IsIpLayer(l) && FinalLayer(below, l, next).ok
    ensures Size(next) <= 0xffff
  {}

  lemma {:induction false} CallsInBoundFrom(below: Below, ls: seq<Layer>)
    requires !below.IsIp() && IcmpBehindIp(ls)
    ensures CallsInBound(below, ls)
    decreases |ls|
  {
    if |ls| > 0 {
      hide FinalLayer;
      if IsIpLayer(ls[0]) {
        if FinalLayer(below, ls[0], ls[1..]).ok {
          IpLayerBounds(below, ls[0], ls[1..]);
          CallsInBoundBehindIp(BelowLayer(ls[0]), ls[1..]);
        }
      } else {
        assert !ls[0].IcmpLayer?;
        IcmpBehindIpTail(ls);
        CallsInBoundFrom(BelowLayer(ls[0]), ls[1..]);
      }
    }
  }

  lemma IcmpBehindIpTail(ls: seq<Layer>)
    requires |ls| > 0 && !IsIpLayer(ls[0]) && IcmpBehindIp(ls)
    ensures IcmpBehindIp(ls[1..])
  {
    forall i | 0 <= i < |ls[1..]| && ls[1..][i].IcmpLayer?
      ensures exists j :: 0 <= j < i && IsIpLayer(ls[1..][j])
    {
      assert ls[i + 1].IcmpLayer?;
      var j :| 0 <= j < i + 1 && IsIpLayer(ls[j]);
      assert IsIpLayer(ls[1..][j - 1]);
    }
  }

  /** If every ICMP layer has an IP layer somewhere before it, no pass ever wraps the accumulator. */
  lemma PassNeverWraps(ls: seq<Layer>)
    requires IcmpBehindIp(ls)
    ensures CallsInBound(Nothing, ls)
  {
    CallsInBoundFrom(Nothing, ls);
  }

  // ----- After enough passes, everything verifies -----

  lemma {:induction false} PassesKeepLength(ls: seq<Layer>, n: nat)
    requires Passes(ls, n).Some?
    ensures |Passes(ls, n).value| == |ls|
  {
    hide PassFrom;
    if n > 0 {
      PassesKeepLength(ls, n - 1);
    }
  }

  /** After the passes it needs, at most one more than it has transports, every length and offset
      of a stack is the true size and every checksum verifies. */
  lemma ConvergedPacketVerifies(ls: seq<Layer>, n: nat)
    requires n >= PassesNeeded(Nothing, ls) && Passes(ls, n).Some?
    ensures PassesNeeded(Nothing, ls) <= Transports(ls) + 1
    ensures var out := Passes(ls, n).value;
            |out| == |ls| && forall i :: 0 <= i < |out| ==> Verifies(BelowOf(out[..i]), out[i], out[i + 1..])
  {
    hide PassFrom, Verifies, NoNegativeZero;
    NeededBounds(Nothing, ls);
    PassesKeepLength(ls, n);
    ConvergenceFrom(Nothing, ls, n);
    FixedPoints(Passes(ls, n).value);
  }
}
