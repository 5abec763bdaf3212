/** The default bindings of src/packet/bindings.rs and what whole packets go through: parse and print,
    print and parse. */
module DefaultBindings {
  import opened Bytes
  import opened Codecs
  import opened Codes
  import opened TcpHeader
  import opened Ipv4Header
  import opened Ipv6Header
  import opened SimpleHeaders
  import opened Layers
  import opened Layout
  import opened FinalizeSpec
  import opened FixedPoint
  import opened Convergence
  import opened PassProperties
  import opened PacketParsing

  // ----- The readers and bindings -----

  function ReadIpv4(s: seq<byte>): Parsed<Layer> { ParseLayer(Ipv4Kind, s) }
  function ReadIpv6(s: seq<byte>): Parsed<Layer> { ParseLayer(Ipv6Kind, s) }
  function ReadTcp(s: seq<byte>): Parsed<Layer> { ParseLayer(TcpKind, s) }
  function ReadUdp(s: seq<byte>): Parsed<Layer> { ParseLayer(UdpKind, s) }
  function ReadIcmp(s: seq<byte>): Parsed<Layer> { ParseLayer(IcmpKind, s) }
  function ReadRaw(s: seq<byte>): Parsed<Layer> { ParseLayer(RawKind, s) }

  function EtherBinding(l: Layer, rest: seq<byte>): Option<Reader<Layer>>
    requires l.EtherLayer?
  {
    if l.ether.etherType == ETHER_IPV4 then Some(ReadIpv4)
    else if l.ether.etherType == ETHER_IPV6 then Some(ReadIpv6)
    else Some(ReadRaw)
  }

  function Ipv4Binding(l: Layer, rest: seq<byte>): Option<Reader<Layer>>
    requires l.Ipv4Layer?
  {
    if l.ipv4.protocol == PROTOCOL_TCP then Some(ReadTcp)
    else if l.ipv4.protocol == PROTOCOL_UDP then Some(ReadUdp)
    else if l.ipv4.protocol == PROTOCOL_ICMP then Some(ReadIcmp)
    else Some(ReadRaw)
  }

  function Ipv6Binding(l: Layer, rest: seq<byte>): Option<Reader<Layer>>
    requires l.Ipv6Layer?
  {
    if l.ipv6.nextHeader == PROTOCOL_TCP then Some(ReadTcp)
    else if l.ipv6.nextHeader == PROTOCOL_UDP then Some(ReadUdp)
    else Some(ReadRaw)
  }

  function TcpBinding(l: Layer, rest: seq<byte>): Option<Reader<Layer>>
    requires l.TcpLayer?
  {
    Some(ReadRaw)
  }

  function UdpBinding(l: Layer, rest: seq<byte>): Option<Reader<Layer>>
    requires l.UdpLayer?
  {
    Some(ReadRaw)
  }

  ghost function DefaultRegistry(): Registry<Kind, Layer> {
    map[EtherKind := [EtherBinding], Ipv4Kind := [Ipv4Binding], Ipv6Kind := [Ipv6Binding],
        TcpKind := [TcpBinding], UdpKind := [UdpBinding]]
  }

  method CreatePacketParser() returns (pb: PacketParser<Kind, Layer>)
    ensures fresh(pb) && pb.Valid() && pb.kindOf == KindOf && pb.bindings == DefaultRegistry()
  {
    hide EtherBinding, Ipv4Binding, Ipv6Binding, TcpBinding, UdpBinding;
    pb := new PacketParser.WithoutBindings(KindOf);
    pb.BindLayer(EtherKind, EtherBinding);
    pb.BindLayer(Ipv4Kind, Ipv4Binding);
    pb.BindLayer(Ipv6Kind, Ipv6Binding);
    pb.BindLayer(TcpKind, TcpBinding);
    pb.BindLayer(UdpKind, UdpBinding);
    assert [] + [EtherBinding] == [EtherBinding] && [] + [Ipv4Binding] == [Ipv4Binding];
    assert [] + [Ipv6Binding] == [Ipv6Binding] && [] + [TcpBinding] == [TcpBinding];
    assert [] + [UdpBinding] == [UdpBinding];
  }

  // ----- The dispatch graph -----

  function NextKind(l: Layer): Option<Kind> {
    match l
    case EtherLayer(e) =>
      Some(if e.etherType == ETHER_IPV4 then Ipv4Kind else if e.etherType == ETHER_IPV6 then Ipv6Kind else RawKind)
    case Ipv4Layer(ip) =>
      Some(if ip.protocol == PROTOCOL_TCP then TcpKind
           else if ip.protocol == PROTOCOL_UDP then UdpKind
           else if ip.protocol == PROTOCOL_ICMP then IcmpKind
           else RawKind)
    case Ipv6Layer(ip) =>
      Some(if ip.nextHeader == PROTOCOL_TCP then TcpKind
           else if ip.nextHeader == PROTOCOL_UDP then UdpKind
           else RawKind)
    case TcpLayer(_) => Some(RawKind)
    case UdpLayer(_) => Some(RawKind)
    case IcmpLayer(_) => None
    case RawLayer(_) => None
  }

  lemma DefaultCallable()
    ensures Callable(KindOf, DefaultRegistry())
  {}

  lemma DefaultNext(l: Layer, rest: seq<byte>)
    requires Callable(KindOf, DefaultRegistry())
    ensures var next := Next(KindOf, DefaultRegistry(), l, rest);
            && (next.None? <==> NextKind(l).None?)
            && (next.Some? ==> forall s :: next.value(s) == ParseLayer(NextKind(l).value, s))
  {
    hide ParseLayer;
  }

  /** The size of a header without options or data. */
  function HeaderSize(k: Kind): nat {
    match k
    case EtherKind => 14
    case Ipv4Kind => 20
    case Ipv6Kind => 40
    case TcpKind => 20
    case UdpKind => 8
    case IcmpKind => 8
    case RawKind => 0
  }

  /** What the printed bytes of a layer announce. */
  function Announced(k: Kind, s: seq<byte>): Option<Kind>
    requires |s| >= HeaderSize(k)
  {
    match k
    case EtherKind =>
      Some(if s[12..14] == [0x08, 0x00] then Ipv4Kind else if s[12..14] == [0x86, 0xdd] then Ipv6Kind else RawKind)
    case Ipv4Kind =>
      Some(if s[9] == 6 then TcpKind else if s[9] == 17 then UdpKind else if s[9] == 1 then IcmpKind else RawKind)
    case Ipv6Kind =>
      Some(if s[6] == 6 then TcpKind else if s[6] == 17 then UdpKind else RawKind)
    case TcpKind => Some(RawKind)
    case UdpKind => Some(RawKind)
    case IcmpKind => None
    case RawKind => None
  }

  lemma EtherTypeBytes(e: Ether)
    ensures EtherBytes(e)[12..14] == [0x08, 0x00] <==> e.etherType.id == 0x0800
    ensures EtherBytes(e)[12..14] == [0x86, 0xdd] <==> e.etherType.id == 0x86dd
  {
    hide EtherBytes;
    EtherLayout(e);
    WordRoundTrip(e.etherType.id);
    WordOfRoundTrip(0x08, 0x00);
    WordOfRoundTrip(0x86, 0xdd);
    WordValue(0x08, 0x00);
    WordValue(0x86, 0xdd);
  }

  /** A well-formed layer leads where its bytes say. */
  lemma AnnouncedIsNext(l: Layer)
    requires WellFormed(l)
    ensures |LayerBytes(l)| >= HeaderSize(KindOf(l))
    ensures NextKind(l) == Announced(KindOf(l), LayerBytes(l))
  {
    hide EtherBytes, Ipv4Bytes, Ipv6Bytes, TcpBytes, UdpBytes, IcmpBytes;
    match l
    case EtherLayer(e) => EtherTypeBytes(e);
    case Ipv4Layer(ip) => Ipv4Layout(ip);
    case Ipv6Layer(ip) => Ipv6Layout(ip);
    case _ =>
  }

  /** The default bindings dispatch on the numbers on the wire. */
  lemma DispatchOnWire(l: Layer, rest: seq<byte>)
    requires WellFormed(l) && Callable(KindOf, DefaultRegistry())
    ensures |LayerBytes(l)| >= HeaderSize(KindOf(l))
    ensures var next, kind := Next(KindOf, DefaultRegistry(), l, rest), Announced(KindOf(l), LayerBytes(l));
            && (next.None? <==> kind.None?)
            && (next.Some? ==> forall s :: next.value(s) == ParseLayer(kind.value, s))
  {
    hide ParseLayer, LayerBytes, Next, DefaultRegistry, WellFormed, Announced, NextKind;
    AnnouncedIsNext(l);
    DefaultNext(l, rest);
  }

  lemma DefaultProgress()
    ensures Callable(KindOf, DefaultRegistry()) && Progress(KindOf, DefaultRegistry())
    ensures Conserving(KindOf, DefaultRegistry(), LayerBytes)
  {
    hide ParseLayer, Next, LayerBytes, DefaultRegistry;
    DefaultCallable();
    forall l, rest | Next(KindOf, DefaultRegistry(), l, rest).Some?
      ensures Productive(Next(KindOf, DefaultRegistry(), l, rest).value)
      ensures Gives(Next(KindOf, DefaultRegistry(), l, rest).value, LayerBytes)
    {
      DefaultNext(l, rest);
      forall s
        ensures ReadBack(NextKind(l).value, s, ParseLayer(NextKind(l).value, s))
      {
        LayerParsePrint(NextKind(l).value, s);
      }
    }
  }

  lemma DefaultTerminates(l: Layer, rest: seq<byte>)
    ensures Callable(KindOf, DefaultRegistry()) && Terminates(KindOf, DefaultRegistry(), l, rest)
  {
    hide DefaultRegistry, Terminates, Progress, Conserving;
    DefaultProgress();
    ProgressTerminates(KindOf, DefaultRegistry(), l, rest);
  }

  /** Following the default bindings from a layer. */
  ghost function Follow(l: Layer, rest: seq<byte>): Parsed<seq<Layer>> {
    DefaultTerminates(l, rest);
    ParseFrom(KindOf, DefaultRegistry(), l, rest)
  }

  /** `parse_packet` with the default bindings, starting at a layer of kind k. */
  ghost function ParsePacket(k: Kind, input: seq<byte>): Parsed<seq<Layer>> {
    match ParseLayer(k, input)
    case Failed => Failed
    case Parsed(l, rest) => Follow(l, rest)
  }

  lemma FollowUnfold(l: Layer, rest: seq<byte>)
    ensures Follow(l, rest)
            == if rest == [] || NextKind(l).None? then Parsed([l], rest)
               else match ParseLayer(NextKind(l).value, rest)
                    case Failed => Failed
                    case Parsed(l', rest') => After([l], Follow(l', rest'))
  {
    hide ParseLayer, Next, DefaultRegistry, NextKind, ParseFrom, Terminates;
    DefaultTerminates(l, rest);
    DefaultNext(l, rest);
    ParseFromUnfold(KindOf, DefaultRegistry(), l, rest);
  }

  /** The method of the parser object, on the object that the default constructor builds. */
  method ParseDefault(k: Kind, input: seq<byte>) returns (r: Parsed<seq<Layer>>)
    ensures r == ParsePacket(k, input)
  {
    hide DefaultRegistry, ParseFrom, Terminates;
    DefaultProgress();
    var pb := CreatePacketParser();
    var start := ParseLayer(k, input);
    if start.Parsed? {
      DefaultTerminates(start.value, start.rest);
    }
    r := pb.ParsePacket(s => ParseLayer(k, s), input);
  }

  // ----- Parse, then print -----

  /** How many more layers the default bindings can add to a layer. */
  function Depth(k: Kind): nat {
    match k
    case EtherKind => 3
    case Ipv4Kind => 2
    case Ipv6Kind => 2
    case TcpKind => 1
    case UdpKind => 1
    case IcmpKind => 0
    case RawKind => 0
  }

  lemma NextKindIsLower(l: Layer)
    ensures NextKind(l).Some? ==> Depth(NextKind(l).value) < Depth(KindOf(l))
    ensures NextKind(l).None? <==> ReadsAll(KindOf(l))
  {}

  lemma {:induction false} FollowConsumes(l: Layer, rest: seq<byte>)
    requires ReadsAll(KindOf(l)) ==> rest == []
    requires WellFormed(l)
    ensures var out := Follow(l, rest);
            out.Parsed? ==>
              && out.rest == [] && LayersBytes(out.value) == LayerBytes(l) + rest
              && |out.value| <= 1 + Depth(KindOf(l))
              && (forall i :: 0 <= i < |out.value| ==> WellFormed(out.value[i]))
    decreases Depth(KindOf(l))
  {
    hide ParseLayer, Follow, LayerBytes, WellFormed, NextKind;
    FollowUnfold(l, rest);
    NextKindIsLower(l);
    WriteAllCons(LayerBytes, l, [], rest);
    assert [l] + [] == [l] && LayerBytes(l) + [] == LayerBytes(l);
    if rest != [] {
      var k := NextKind(l).value;
      var next := ParseLayer(k, rest);
      if next.Parsed? {
        LayerParsePrint(k, rest);
        FollowConsumes(next.value, next.rest);
        var tail := Follow(next.value, next.rest);
        if tail.Parsed? {
          WriteAllCons(LayerBytes, l, tail.value, []);
        }
      }
    }
  }

  /** If parsing with the default bindings succeeds, nothing is left over, there are at most four
      layers, and printing them gives the input back. */
  lemma ParseThenPrint(k: Kind, input: seq<byte>)
    ensures Conserved(input, ParsePacket(k, input))
  {
    hide ParseLayer, LayerBytes, WellFormed, Follow, LayersBytes;
    LayerParsePrint(k, input);
    if ParseLayer(k, input).Parsed? {
      var Parsed(l, rest) := ParseLayer(k, input);
      FollowConsumes(l, rest);
      FollowNonEmpty(l, rest);
    }
  }

  predicate Conserved(input: seq<byte>, r: Parsed<seq<Layer>>) {
    r.Parsed? ==>
      && r.rest == [] && 1 <= |r.value| <= 4
      && LayersBytes(r.value) == input
      && (forall i :: 0 <= i < |r.value| ==> WellFormed(r.value[i]))
  }

  lemma FollowNonEmpty(l: Layer, rest: seq<byte>)
    ensures Follow(l, rest).Parsed? ==> |Follow(l, rest).value| >= 1 && Follow(l, rest).value[0] == l
  {
    hide ParseLayer, Follow, NextKind;
    FollowUnfold(l, rest);
  }

  /** Each layer but the last leads to the kind of the one behind it. */
  predicate Chained(ls: seq<Layer>) {
    forall i :: 0 <= i < |ls| - 1 ==> NextKind(ls[i]) == Some(KindOf(ls[i + 1]))
  }

  lemma ChainedCons(l: Layer, ls: seq<Layer>)
    requires Chained(ls) && |ls| > 0 && NextKind(l) == Some(KindOf(ls[0]))
    ensures Chained([l] + ls)
  {
    hide NextKind, KindOf;
    var out := [l] + ls;
    forall i | 0 <= i < |out| - 1
      ensures NextKind(out[i]) == Some(KindOf(out[i + 1]))
    {
      assert i > 0 ==> NextKind(ls[i - 1]) == Some(KindOf(ls[i]));
    }
  }

  lemma {:induction false} FollowChained(l: Layer, rest: seq<byte>)
    ensures Follow(l, rest).Parsed? ==> Chained(Follow(l, rest).value)
    decreases Depth(KindOf(l))
  {
    hide ParseLayer, Follow, NextKind, Chained, KindOf;
    FollowUnfold(l, rest);
    NextKindIsLower(l);
    assert Chained([l]) by {
      OneLayerChained(l);
    }
    if rest != [] && NextKind(l).Some? && ParseLayer(NextKind(l).value, rest).Parsed? {
      var next := ParseLayer(NextKind(l).value, rest);
      LayerParsePrint(NextKind(l).value, rest);
      FollowChained(next.value, next.rest);
      FollowNonEmpty(next.value, next.rest);
      var tail := Follow(next.value, next.rest);
      if tail.Parsed? {
        ChainedCons(l, tail.value);
      }
    }
  }

  lemma OneLayerChained(l: Layer)
    ensures Chained([l])
  {}

  /** A successful parse starts with the kind asked for, and each next layer is of the kind that the
      bytes of the one before announce. */
  lemma ParsedKinds(k: Kind, input: seq<byte>, ls: seq<Layer>)
    requires ParsePacket(k, input) == Parsed(ls, [])
    ensures |ls| > 0 && KindOf(ls[0]) == k
    ensures forall i :: 0 <= i < |ls| ==> |LayerBytes(ls[i])| >= HeaderSize(KindOf(ls[i]))
    ensures forall i :: 0 <= i < |ls| - 1 ==>
              Announced(KindOf(ls[i]), LayerBytes(ls[i])) == Some(KindOf(ls[i + 1]))
  {
    hide ParseLayer, LayerBytes, Follow, LayersBytes, WellFormed, Announced, NextKind, HeaderSize, KindOf;
    ParseThenPrint(k, input);
    LayerParsePrint(k, input);
    var first := ParseLayer(k, input);
    FollowNonEmpty(first.value, first.rest);
    FollowChained(first.value, first.rest);
    forall i | 0 <= i < |ls|
      ensures |LayerBytes(ls[i])| >= HeaderSize(KindOf(ls[i]))
      ensures NextKind(ls[i]) == Announced(KindOf(ls[i]), LayerBytes(ls[i]))
    {
      AnnouncedIsNext(ls[i]);
    }
  }

  // ----- Print, then parse -----

  /** The stack is one the default bindings can read: each layer announces the next, and only the
      first may print to nothing. */
  predicate FollowsBindings(ls: seq<Layer>) {
    && |ls| > 0 && Chained(ls)
    && (forall i :: 0 < i < |ls| ==> LayerBytes(ls[i]) != [])
  }

  lemma FollowsTail(ls: seq<Layer>)
    requires |ls| > 1 && FollowsBindings(ls)
    ensures FollowsBindings(ls[1..]) && LayersBytes(ls[1..]) != []
    ensures NextKind(ls[0]) == Some(KindOf(ls[1]))
  {
    hide LayerBytes, NextKind;
    var rest := ls[1..];
    forall i | 0 <= i < |rest| - 1
      ensures NextKind(rest[i]) == Some(KindOf(rest[i + 1]))
    {
      assert NextKind(ls[i + 1]) == Some(KindOf(ls[i + 2]));
    }
    assert LayerBytes(ls[1]) != [];
    assert LayersBytes(rest) == LayerBytes(rest[0]) + LayersBytes(rest[1..]);
  }

  lemma {:induction false} FollowPrinted(ls: seq<Layer>)
    requires FollowsBindings(ls) && forall i :: 0 <= i < |ls| ==> WellFormed(ls[i])
    ensures Follow(ls[0], LayersBytes(ls[1..])) == Parsed(ls, [])
    decreases |ls|
  {
    assert |ls| > 0;
    hide ParseLayer, Follow, LayerBytes, LayersBytes, WellFormed, NextKind, KindOf, ReadsAll, FollowsBindings;
    var rest := LayersBytes(ls[1..]);
    FollowUnfold(ls[0], rest);
    if |ls| == 1 {
      assert ls == [ls[0]];
    } else {
      FollowsTail(ls);
      LastReadsAll(ls[1..]);
      LayerPrintParse(ls[1], LayersBytes(ls[2..]));
      assert ls[1..][1..] == ls[2..];
      FollowPrinted(ls[1..]);
      assert ls == [ls[0]] + ls[1..];
    }
  }

  lemma LastReadsAll(ls: seq<Layer>)
    requires FollowsBindings(ls)
    ensures ReadsAll(KindOf(ls[0])) ==> LayersBytes(ls[1..]) == []
  {
    if |ls| > 1 {
      assert NextKind(ls[0]) == Some(KindOf(ls[0 + 1]));
      NextKindIsLower(ls[0]);
    }
  }

  lemma PrintThenParse(ls: seq<Layer>)
    requires FollowsBindings(ls) && forall i :: 0 <= i < |ls| ==> WellFormed(ls[i])
    ensures ParsePacket(KindOf(ls[0]), LayersBytes(ls)) == Parsed(ls, [])
  {
    assert |ls| > 0;
    hide ParseLayer, Follow, LayerBytes, WellFormed, KindOf, ReadsAll, FollowsBindings;
    LastReadsAll(ls);
    LayerPrintParse(ls[0], LayersBytes(ls[1..]));
    FollowPrinted(ls);
  }

  // ----- Finalize, print, parse -----

  /** Well-formed but for the fields that a pass computes: any TCP offset and alignment will do. */
  predicate Finalizable(l: Layer) {
    match l
    case TcpLayer(t) => TcpOptions.AllConsistent(t.options) && |TcpBytes(PadTcp(t))| <= 60
    case _ => WellFormed(l)
  }

  lemma FinalizedTcp(below: Below, t: Tcp, payload: seq<byte>)
    requires TcpOptions.AllConsistent(t.options) && |TcpBytes(PadTcp(t))| <= 60
    requires FinalTcp(below, t, payload).ok
    ensures WellFormedTcp(FinalTcp(below, t, payload).value)
  {
    hide TcpBytes, PadAmount, InternetChecksum.Checksum, Covered;
    var out := FinalTcp(below, t, payload).value;
    PaddedSize(t);
    ClearingKeepsSize(PadTcp(t));
    OffsetAndChecksumKeepSize(PadTcp(t), out);
  }

  /** A pass makes a finalizable layer well-formed and keeps what the bindings look at. */
  lemma FinalizedLayer(below: Below, l: Layer, next: seq<Layer>)
    requires Finalizable(l) && FinalLayer(below, l, next).ok
    ensures var out := FinalLayer(below, l, next).value;
            && WellFormed(out) && KindOf(out) == KindOf(l) && NextKind(out) == NextKind(l)
            && |LayerBytes(out)| >= |LayerBytes(l)|
  {
    hide InternetChecksum.Checksum, Covered, WellFormedTcp, PadAmount, TcpBytes;
    if l.TcpLayer? {
      FinalizedTcp(below, l.tcp, LayersBytes(next));
    }
    FinalLayerSize(below, l, next);
  }

  lemma FinalizedStack(ls: seq<Layer>)
    requires FollowsBindings(ls) && forall i :: 0 <= i < |ls| ==> Finalizable(ls[i])
    requires Pass(ls).ok
    ensures var out := Pass(ls).value;
            && FollowsBindings(out) && KindOf(out[0]) == KindOf(ls[0])
            && forall i :: 0 <= i < |out| ==> WellFormed(out[i])
  {
    hide PassFrom, LayerBytes, WellFormed, Finalizable, NextKind, KindOf;
    var out := Pass(ls).value;
    forall i | 0 <= i < |ls|
      ensures WellFormed(out[i]) && KindOf(out[i]) == KindOf(ls[i]) && NextKind(out[i]) == NextKind(ls[i])
      ensures |LayerBytes(out[i])| >= |LayerBytes(ls[i])|
    {
      hide FinalLayer;
      PassAt(Nothing, ls, i);
      FinalizedLayer(BelowAt(Nothing, ls, i), ls[i], ls[i + 1..]);
    }
  }

  /** One successful pass makes any finalizable stack survive printing and parsing. */
  lemma FinalizePrintParse(ls: seq<Layer>)
    requires FollowsBindings(ls) && forall i :: 0 <= i < |ls| ==> Finalizable(ls[i])
    requires Pass(ls).ok
    ensures var out := Pass(ls).value;
            |out| == |ls| && ParsePacket(KindOf(ls[0]), LayersBytes(out)) == Parsed(out, [])
  {
    hide PassFrom, WellFormed, Finalizable, FollowsBindings, ParsePacket, KindOf;
    FinalizedStack(ls);
    PrintThenParse(Pass(ls).value);
  }
}
