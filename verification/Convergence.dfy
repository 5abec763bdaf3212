/** Repeating the finalization pass: a stack with k TCP and UDP layers is stable after k + 1
    successful passes. */
module Convergence {
  import opened Bytes
  import opened InternetChecksum
  import opened TcpOptions
  import opened TcpHeader
  import opened Ipv4Header
  import opened SimpleHeaders
  import opened Layers
  import opened FinalizeSpec
  import opened FixedPoint

  predicate IsTransport(l: Layer) {
    l.TcpLayer? || l.UdpLayer?
  }

  function Transports(ls: seq<Layer>): nat {
    if |ls| == 0 then 0 else (if IsTransport(ls[0]) then 1 else 0) + Transports(ls[1..])
  }

  /** A transport layer over IP: the only kind whose checksum a pass computes over other layers. */
  predicate Sums(below: Below, l: Layer) {
    IsTransport(l) && below.IsIp()
  }

  function SummingTransports(below: Below, ls: seq<Layer>): nat
    decreases |ls|
  {
    if |ls| == 0 then 0 else (if Sums(below, ls[0]) then 1 else 0) + SummingTransports(BelowLayer(ls[0]), ls[1..])
  }

  /** Enough passes for a stack. The sizes behind a layer are final after one pass, or from the
      start; the lengths follow one pass later; a checksum follows what it covers. */
  function PassesNeeded(below: Below, ls: seq<Layer>): nat
    decreases |ls|
  {
    if |ls| == 0 then 0
    else
      var rest := PassesNeeded(BelowLayer(ls[0]), ls[1..]);
      var sizes := if TotalPadding(ls[1..]) == 0 then 1 else 2;
      (if rest > sizes then rest else sizes) + if Sums(below, ls[0]) then 1 else 0
  }

  /** The layers after n passes, if all of them succeed. */
  function PassesFrom(below: Below, ls: seq<Layer>, n: nat): Option<seq<Layer>> {
    if n == 0 then Some(ls)
    else
      match PassesFrom(below, ls, n - 1)
      case None => None
      case Some(before) =>
        var out := PassFrom(below, before);
        if out.ok then Some(out.value) else None
  }

  function Passes(ls: seq<Layer>, n: nat): Option<seq<Layer>> {
    PassesFrom(Nothing, ls, n)
  }

  // ----- A layer and the layers behind it evolve side by side -----

  lemma PassCons(below: Below, ls: seq<Layer>)
    requires |ls| > 0 && PassFrom(below, ls).ok
    ensures var out, head := PassFrom(below, ls), FinalLayer(below, ls[0], ls[1..]);
            && head.ok && out.value[0] == head.value
            && PassFrom(BelowLayer(ls[0]), ls[1..]) == Update(out.value[1..], true)
            && BelowLayer(out.value[0]) == BelowLayer(ls[0])
  {
    hide FinalLayer;
    FinalLayerBelow(below, ls[0], ls[1..]);
    var head := FinalLayer(below, ls[0], ls[1..]);
    var tail := PassFrom(BelowLayer(head.value), ls[1..]);
    assert ([head.value] + tail.value)[1..] == tail.value;
  }

  lemma {:induction false} PassesCons(below: Below, ls: seq<Layer>, n: nat)
    requires |ls| > 0 && PassesFrom(below, ls, n).Some?
    ensures var out := PassesFrom(below, ls, n).value;
            && |out| == |ls|
            && BelowLayer(out[0]) == BelowLayer(ls[0])
            && PassesFrom(BelowLayer(ls[0]), ls[1..], n) == Some(out[1..])
    decreases n
  {
    hide PassFrom;
    if n > 0 {
      PassesCons(below, ls, n - 1);
      PassCons(below, PassesFrom(below, ls, n - 1).value);
    }
  }

  lemma PassesPrefix(below: Below, ls: seq<Layer>, n: nat)
    requires n > 0 && PassesFrom(below, ls, n).Some?
    ensures PassesFrom(below, ls, n - 1).Some?
    ensures PassFrom(below, PassesFrom(below, ls, n - 1).value) == Update(PassesFrom(below, ls, n).value, true)
  {}

  // ----- Sizes settle after one pass -----

  predicate Aligned(l: Layer) {
    Padding(l) == 0
  }

  lemma FinalLayerAligned(below: Below, l: Layer, next: seq<Layer>)
    ensures Aligned(FinalLayer(below, l, next).value)
  {
    if l.TcpLayer? {
      hide TcpBytes, PadTcp, PadAmount, FinalTcp;
      PaddedSize(l.tcp);
      var t := FinalLayer(below, l, next).value.tcp;
      FinalLayerSize(below, l, next);
      MultipleOfFour(t);
    }
  }

  lemma MultipleOfFour(t: Tcp)
    requires |TcpBytes(t)| % 4 == 0
    ensures PadAmount(t) == 0
  {
    hide TcpBytes;
  }

  lemma {:induction false} PassSize(below: Below, ls: seq<Layer>)
    requires PassFrom(below, ls).ok
    ensures Size(PassFrom(below, ls).value) == Size(ls) + TotalPadding(ls)
    ensures TotalPadding(PassFrom(below, ls).value) == 0
    decreases |ls|
  {
    if |ls| > 0 {
      hide FinalLayer, LayerBytes, Padding;
      PassCons(below, ls);
      PassSize(BelowLayer(ls[0]), ls[1..]);
      FinalLayerSize(below, ls[0], ls[1..]);
      FinalLayerAligned(below, ls[0], ls[1..]);
    }
  }

  lemma {:induction false} NoTransportNoPadding(ls: seq<Layer>)
    requires Transports(ls) == 0
    ensures TotalPadding(ls) == 0
  {
    if |ls| > 0 {
      NoTransportNoPadding(ls[1..]);
    }
  }

  /** After a pass, or on an aligned stack, the next pass sees the same sizes. */
  lemma SizesSettle(below: Below, ls: seq<Layer>, n: nat)
    requires n >= 1 || TotalPadding(ls) == 0
    requires PassesFrom(below, ls, n + 1).Some?
    ensures Size(PassesFrom(below, ls, n + 1).value) == Size(PassesFrom(below, ls, n).value)
  {
    hide PassFrom, Size;
    PassesPrefix(below, ls, n + 1);
    var state := PassesFrom(below, ls, n).value;
    PassSize(below, state);
    if n >= 1 {
      PassesPrefix(below, ls, n);
      PassSize(below, PassesFrom(below, ls, n - 1).value);
    }
  }

  // ----- When passes succeed -----

  /** Finalizing a layer succeeds: its length fields can hold its size and the size behind it. */
  predicate LayerFits(below: Below, l: Layer, behind: nat) {
    var size := |LayerBytes(l)| + Padding(l);
    match l
    case EtherLayer(_) => true
    case RawLayer(_) => true
    case IcmpLayer(_) => true
    case Ipv4Layer(_) => size + behind <= 0xffff
    case Ipv6Layer(_) => behind <= 0xffff
    case TcpLayer(_) =>
      && (below.V4? ==> size + behind <= 0xffff) && (below.V6? ==> size + behind <= 0xffff_ffff)
      && size <= 0x3fc
    case UdpLayer(_) => size + behind <= 0xffff
  }

  /** Every layer fits in front of the sizes behind it, before or after those are aligned. */
  predicate Fits(below: Below, ls: seq<Layer>, aligned: bool)
    decreases |ls|
  {
    |ls| > 0 ==>
      && LayerFits(below, ls[0], Size(ls[1..]) + if aligned then TotalPadding(ls[1..]) else 0)
      && Fits(BelowLayer(ls[0]), ls[1..], aligned)
  }

  lemma FinalLayerFits(below: Below, l: Layer, next: seq<Layer>)
    ensures FinalLayer(below, l, next).ok <==> LayerFits(below, l, Size(next))
  {
    hide Checksum, Covered, TcpBytes, UdpBytes, Ipv4Bytes, IcmpBytes, PadAmount, Size, LayersBytes;
    SizeIsLength(next);
    match l
    case TcpLayer(t) =>
      PaddedSize(t);
      ClearingKeepsSize(PadTcp(t));
    case UdpLayer(u) => UdpSizes(u);
    case _ =>
  }

  lemma UdpSizes(u: Udp)
    ensures |UdpBytes(u)| == 8 && |UdpBytes(u.(checksum := 0))| == 8
  {
    hide UdpWords, WordsBytes;
  }

  /** A pass succeeds exactly when every layer fits. */
  lemma {:induction false} PassSucceeds(below: Below, ls: seq<Layer>)
    ensures PassFrom(below, ls).ok <==> Fits(below, ls, false)
    decreases |ls|
  {
    if |ls| > 0 {
      hide FinalLayer, LayerFits, BelowLayer, Size;
      FinalLayerFits(below, ls[0], ls[1..]);
      FinalLayerBelow(below, ls[0], ls[1..]);
      PassSucceeds(BelowLayer(ls[0]), ls[1..]);
    }
  }

  lemma {:induction false} FitsAnyway(below: Below, ls: seq<Layer>)
    requires Fits(below, ls, true)
    ensures Fits(below, ls, false)
    decreases |ls|
  {
    if |ls| > 0 {
      hide LayerBytes, BelowLayer, Size, Padding;
      FitsAnyway(BelowLayer(ls[0]), ls[1..]);
    }
  }

  lemma FinalLayerFitsAlike(below: Below, l: Layer, next: seq<Layer>, behind: nat)
    ensures LayerFits(below, FinalLayer(below, l, next).value, behind) <==> LayerFits(below, l, behind)
  {
    hide LayerBytes, Padding, Checksum, Covered, Size;
    FinalLayerSize(below, l, next);
    FinalLayerAligned(below, l, next);
  }

  /** The layers fit after a pass exactly when they fit in front of the aligned sizes before it. */
  lemma {:induction false} FitsAfterPass(below: Below, ls: seq<Layer>, aligned: bool)
    requires PassFrom(below, ls).ok
    ensures Fits(below, PassFrom(below, ls).value, aligned) <==> Fits(below, ls, true)
    decreases |ls|
  {
    if |ls| > 0 {
      hide FinalLayer, LayerFits, BelowLayer, Size, PassFrom, TotalPadding;
      PassCons(below, ls);
      var out := PassFrom(below, ls).value;
      FitsAfterPass(BelowLayer(ls[0]), ls[1..], aligned);
      PassSize(BelowLayer(ls[0]), ls[1..]);
      FinalLayerFitsAlike(below, ls[0], ls[1..], Size(out[1..]));
    }
  }

  lemma {:induction false} PassesFit(below: Below, ls: seq<Layer>, n: nat)
    requires Fits(below, ls, true)
    ensures PassesFrom(below, ls, n).Some? && Fits(below, PassesFrom(below, ls, n).value, true)
    decreases n
  {
    hide PassFrom, Fits;
    if n > 0 {
      PassesFit(below, ls, n - 1);
      var before := PassesFrom(below, ls, n - 1).value;
      FitsAnyway(below, before);
      PassSucceeds(below, before);
      FitsAfterPass(below, before, true);
    }
  }

  lemma {:induction false} FirstPasses(below: Below, ls: seq<Layer>, m: nat, n: nat)
    requires m <= n && PassesFrom(below, ls, n).Some?
    ensures PassesFrom(below, ls, m).Some?
    decreases n
  {
    hide PassFrom;
    if m < n {
      FirstPasses(below, ls, m, n - 1);
    }
  }

  /** Two passes succeed, and then any number of passes does, exactly when the layers fit in front
      of the aligned sizes; one pass succeeds exactly when they fit in front of the present ones. */
  lemma EveryPassSucceeds(ls: seq<Layer>, n: nat)
    ensures Passes(ls, 1).Some? <==> Fits(Nothing, ls, false)
    ensures n >= 2 ==> (Passes(ls, n).Some? <==> Fits(Nothing, ls, true))
  {
    hide PassFrom, Fits;
    assert Passes(ls, 0) == Some(ls);
    PassSucceeds(Nothing, ls);
    if Fits(Nothing, ls, true) {
      PassesFit(Nothing, ls, n);
    }
    if n >= 2 && Passes(ls, n).Some? {
      FirstPasses(Nothing, ls, 2, n);
      PassesPrefix(Nothing, ls, 2);
      PassesPrefix(Nothing, ls, 1);
      PassSucceeds(Nothing, Passes(ls, 1).value);
      FitsAfterPass(Nothing, ls, false);
    }
  }

  // ----- A layer settles once the layers behind it have -----

  /** Finalizing again behind layers of the same size changes nothing, outside transports over IP. */
  lemma SettledBySizes(below: Below, l: Layer, next: seq<Layer>, next': seq<Layer>)
    requires !Sums(below, l) && FinalLayer(below, l, next).ok
    requires Size(next) == Size(next')
    ensures var out := FinalLayer(below, l, next).value; FinalLayer(below, out, next') == Update(out, true)
  {
    hide Checksum, Size, IcmpBytes, Ipv4Bytes, UdpBytes, FinalTcp, LayersBytes;
    SizeIsLength(next);
    SizeIsLength(next');
    match l
    case UdpLayer(_) =>
    case TcpLayer(t) => UnsummedTcpSettles(below, t, LayersBytes(next), LayersBytes(next'));
    case EtherLayer(_) =>
    case RawLayer(_) =>
    case Ipv6Layer(_) =>
    case IcmpLayer(m) => assert FinalIcmp(m).(checksum := 0) == m.(checksum := 0);
    case Ipv4Layer(ip) =>
      var out := FinalIpv4(ip, Size(next)).value;
      assert out.(checksum := 0) == ip.(length := out.length, checksum := 0);
  }

  lemma UnsummedTcpSettles(below: Below, t: Tcp, payload: seq<byte>, payload': seq<byte>)
    requires !below.IsIp() && FinalTcp(below, t, payload).ok
    ensures var out := FinalTcp(below, t, payload).value; FinalTcp(below, out, payload') == Update(out, true)
  {
    hide TcpBytes, PadAmount;
    var out, padded := FinalTcp(below, t, payload).value, PadTcp(t);
    PaddedSize(t);
    PaddedSize(out);
    OffsetAndChecksumKeepSize(padded, out);
    assert PadAmount(out) == 0;
    assert out.options + Eols(0) == out.options;
    assert PadTcp(out) == out;
  }

  /** All fields of a transport layer but its checksum. */
  function Cleared(l: Layer): Layer
    requires IsTransport(l)
  {
    if l.TcpLayer? then TcpLayer(l.tcp.(checksum := 0)) else UdpLayer(l.udp.(checksum := 0))
  }

  /** A finalized transport layer is settled if the layers behind it had their bytes, and
      the layer its other fields, already before. */
  lemma SettledByBytes(below: Below, l: Layer, next: seq<Layer>)
    requires IsTransport(l) && Aligned(l) && FinalLayer(below, l, next).ok
    requires Cleared(FinalLayer(below, l, next).value) == Cleared(l)
    ensures var out := FinalLayer(below, l, next).value; FinalLayer(below, out, next) == Update(out, true)
  {
    hide Checksum, Covered, TcpBytes, UdpBytes;
    if l.TcpLayer? {
      var out := FinalLayer(below, l, next).value.tcp;
      assert l.tcp.options + Eols(0) == l.tcp.options;
      assert PadTcp(l.tcp) == l.tcp;
      assert out.(checksum := 0) == l.tcp.(checksum := 0);
      ClearingKeepsSize(out);
      ClearingKeepsSize(l.tcp);
      assert PadTcp(out) == out;
    } else {
      var out := FinalLayer(below, l, next).value.udp;
      assert out.(checksum := 0) == l.udp.(checksum := 0);
    }
  }

  lemma ClearingKeepsSize(t: Tcp)
    ensures |TcpBytes(t.(checksum := 0))| == |TcpBytes(t)|
    ensures PadAmount(t.(checksum := 0)) == PadAmount(t)
  {}

  /** After one pass, the fields of a transport layer other than its checksum only follow sizes. */
  lemma OtherFieldsSettle(below: Below, l: Layer, next: seq<Layer>, next': seq<Layer>)
    requires IsTransport(l) && FinalLayer(below, l, next).ok
    requires Size(next) == Size(next')
    ensures var out := FinalLayer(below, l, next).value;
            FinalLayer(below, out, next').ok ==> Cleared(FinalLayer(below, out, next').value) == Cleared(out)
  {
    hide FinalTcp, FinalUdp, Size, LayersBytes;
    SizeIsLength(next);
    SizeIsLength(next');
    if l.TcpLayer? {
      OffsetSettles(below, l.tcp, LayersBytes(next), LayersBytes(next'));
    } else {
      LengthSettles(below, l.udp, LayersBytes(next), LayersBytes(next'));
    }
  }

  lemma OffsetSettles(below: Below, t: Tcp, payload: seq<byte>, payload': seq<byte>)
    requires FinalTcp(below, t, payload).ok
    ensures var out := FinalTcp(below, t, payload).value;
            var again := FinalTcp(below, out, payload');
            again.ok ==> again.value.(checksum := 0) == out.(checksum := 0)
  {
    hide Checksum, Covered, TcpBytes, PadAmount;
    var out, padded := FinalTcp(below, t, payload).value, PadTcp(t);
    PaddedSize(t);
    PaddedSize(out);
    OffsetAndChecksumKeepSize(padded, out);
    assert PadAmount(out) == 0;
    assert out.options + Eols(0) == out.options;
  }

  lemma LengthSettles(below: Below, u: Udp, payload: seq<byte>, payload': seq<byte>)
    requires FinalUdp(below, u, payload).ok && |payload| == |payload'|
    ensures var out := FinalUdp(below, u, payload).value;
            var again := FinalUdp(below, out, payload');
            again.ok ==> again.value.(checksum := 0) == out.(checksum := 0)
  {
    hide Checksum, Covered, UdpBytes;
  }

  lemma OffsetAndChecksumKeepSize(a: Tcp, b: Tcp)
    requires a.options == b.options
    ensures |TcpBytes(a)| == |TcpBytes(b)|
    ensures |TcpBytes(a.(checksum := 0))| == |TcpBytes(a)| && |TcpBytes(b.(checksum := 0))| == |TcpBytes(b)|
  {}

  // ----- The theorem -----

  /** A stack is settled after the passes it needs. */
  lemma {:induction false} ConvergenceFrom(below: Below, ls: seq<Layer>, n: nat)
    requires n >= PassesNeeded(below, ls)
    requires PassesFrom(below, ls, n).Some?
    ensures var out := PassesFrom(below, ls, n).value; PassFrom(below, out) == Update(out, true)
    decreases |ls|
  {
    if |ls| > 0 {
      hide PassFrom, FinalLayer, PassesFrom, BelowLayer, TotalPadding;
      PassesCons(below, ls, n);
      ConvergenceFrom(BelowLayer(ls[0]), ls[1..], n);
      if Sums(below, ls[0]) {
        SumSettles(below, ls, n);
      } else {
        OtherSettles(below, ls, n);
      }
      PassFixedCons(below, PassesFrom(below, ls, n).value);
    } else {
      NoLayers(below, n);
    }
  }

  lemma {:induction false} NoLayers(below: Below, n: nat)
    ensures PassesFrom(below, [], n) == Some([]) && PassFrom(below, []) == Update([], true)
  {
    if n > 0 {
      NoLayers(below, n - 1);
    }
  }

  lemma OtherSettles(below: Below, ls: seq<Layer>, n: nat)
    requires |ls| > 0 && !Sums(below, ls[0]) && n >= PassesNeeded(below, ls)
    requires PassesFrom(below, ls, n).Some?
    ensures var out := PassesFrom(below, ls, n).value;
            |out| == |ls| && FinalLayer(below, out[0], out[1..]) == Update(out[0], true)
  {
    hide PassFrom, FinalLayer, PassesFrom, Size, BelowLayer, TotalPadding;
    PassesPrefix(below, ls, n);
    PassesCons(below, ls, n);
    PassesCons(below, ls, n - 1);
    var before, out := PassesFrom(below, ls, n - 1).value, PassesFrom(below, ls, n).value;
    PassCons(below, before);
    KindStays(below, ls, n - 1);
    SizesSettle(BelowLayer(ls[0]), ls[1..], n - 1);
    SettledBySizes(below, before[0], before[1..], out[1..]);
  }

  lemma {:induction false} KindStays(below: Below, ls: seq<Layer>, n: nat)
    requires |ls| > 0 && PassesFrom(below, ls, n).Some?
    ensures |PassesFrom(below, ls, n).value| == |ls|
    ensures KindOf(PassesFrom(below, ls, n).value[0]) == KindOf(ls[0])
    decreases n
  {
    hide PassFrom;
    PassesCons(below, ls, n);
    if n > 0 {
      PassesPrefix(below, ls, n);
      KindStays(below, ls, n - 1);
      PassCons(below, PassesFrom(below, ls, n - 1).value);
    }
  }

  lemma SumSettles(below: Below, ls: seq<Layer>, n: nat)
    requires |ls| > 0 && Sums(below, ls[0]) && n >= PassesNeeded(below, ls)
    requires PassesFrom(below, ls, n).Some?
    ensures var out := PassesFrom(below, ls, n).value;
            |out| == |ls| && FinalLayer(below, out[0], out[1..]) == Update(out[0], true)
    decreases |ls|, 0
  {
    hide PassFrom, FinalLayer, PassesFrom, Size, BelowLayer, TotalPadding;
    var below', rest := BelowLayer(ls[0]), ls[1..];
    PassesPrefix(below, ls, n);
    PassesPrefix(below, ls, n - 1);
    PassesCons(below, ls, n);
    PassesCons(below, ls, n - 1);
    PassesCons(below, ls, n - 2);
    var first := PassesFrom(below, ls, n - 2).value;
    var before := PassesFrom(below, ls, n - 1).value;
    var out := PassesFrom(below, ls, n).value;
    PassCons(below, first);
    PassCons(below, before);
    KindStays(below, ls, n - 2);
    KindStays(below, ls, n - 1);
    // The layers behind have converged before the last pass, and their sizes one pass earlier.
    ConvergenceFrom(below', rest, n - 1);
    SizesSettle(below', rest, n - 2);
    FinalLayerAligned(below, first[0], first[1..]);
    OtherFieldsSettle(below, first[0], first[1..], before[1..]);
    SettledByBytes(below, before[0], before[1..]);
  }

  /** Every pass after the needed ones succeeds and changes nothing. */
  lemma {:induction false} StableAfterNeeded(ls: seq<Layer>, m: nat, n: nat)
    requires PassesNeeded(Nothing, ls) <= m <= n
    requires Passes(ls, m).Some?
    ensures Passes(ls, n) == Passes(ls, m)
    decreases n
  {
    hide PassFrom, PassesNeeded;
    if n > m {
      StableAfterNeeded(ls, m, n - 1);
      ConvergenceFrom(Nothing, ls, n - 1);
    }
  }

  // ----- How many passes that is -----

  /** With k transports, j of them over IP: at most k + 1, at most j + 2, and at most j + 1 if
      every TCP header is aligned. */
  lemma {:induction false} NeededBounds(below: Below, ls: seq<Layer>)
    ensures PassesNeeded(below, ls) <= Transports(ls) + 1
    ensures PassesNeeded(below, ls) <= SummingTransports(below, ls) + 2
    ensures TotalPadding(ls) == 0 ==> PassesNeeded(below, ls) <= SummingTransports(below, ls) + 1
    decreases |ls|
  {
    if |ls| > 0 {
      hide BelowLayer, Padding;
      NeededBounds(BelowLayer(ls[0]), ls[1..]);
      if Transports(ls[1..]) == 0 {
        NoTransportNoPadding(ls[1..]);
      }
    }
  }

  /** If two passes succeed, every pass succeeds, and with k transports in the stack, those after
      k + 1 change nothing. */
  lemma Converges(ls: seq<Layer>, n: nat)
    requires n > Transports(ls)
    requires Fits(Nothing, ls, true)
    ensures Passes(ls, n).Some? && Passes(ls, n) == Passes(ls, Transports(ls) + 1)
  {
    hide Fits;
    NeededBounds(Nothing, ls);
    PassesFit(Nothing, ls, Transports(ls) + 1);
    StableAfterNeeded(ls, Transports(ls) + 1, n);
  }

  /** With j transports over IP, the passes after j + 2 change nothing; those after j + 1 if every
      TCP header is aligned. */
  lemma ConvergesSooner(ls: seq<Layer>, n: nat)
    requires n >= SummingTransports(Nothing, ls) + if TotalPadding(ls) == 0 then 1 else 2
    requires Fits(Nothing, ls, true)
    ensures var m := SummingTransports(Nothing, ls) + if TotalPadding(ls) == 0 then 1 else 2;
            Passes(ls, n).Some? && Passes(ls, n) == Passes(ls, m)
  {
    hide Fits;
    var m := SummingTransports(Nothing, ls) + if TotalPadding(ls) == 0 then 1 else 2;
    NeededBounds(Nothing, ls);
    PassesFit(Nothing, ls, m);
    StableAfterNeeded(ls, m, n);
  }
}
