/** What one finalization pass does, as a function of the layer stack: src/packet/mod.rs with the
    `finalize` of each layer. A pass may fail half-way, so every step also says what it left behind. */
module FinalizeSpec {
  import opened Bytes
  import opened Codecs
  import opened InternetChecksum
  import opened TcpOptions
  import opened TcpHeader
  import opened Ipv4Header
  import opened Ipv6Header
  import opened SimpleHeaders
  import opened Layers

  // ----- What a transport layer sees below itself -----

  datatype Below =
    | Nothing
    | NotIp
    | V4(src4: u32, dst4: u32, protocol: byte)
    | V6(src6: u128, dst6: u128, nextHeader: byte)
  {
    predicate IsIp() {
      V4? || V6?
    }

    /** The largest length its pseudo header can hold. */
    function MaxLength(): nat {
      if V4? then 0xffff else 0xffff_ffff
    }
  }

  function BelowLayer(l: Layer): Below {
    match l
    case Ipv4Layer(ip) => V4(ip.src, ip.dst, ip.protocol.id)
    case Ipv6Layer(ip) => V6(ip.src, ip.dst, ip.nextHeader.id)
    case _ => NotIp
  }

  function BelowOf(prev: seq<Layer>): Below {
    if |prev| == 0 then Nothing else BelowLayer(prev[|prev| - 1])
  }

  function PseudoHeader(below: Below, length: nat): (s: seq<byte>)
    requires below.IsIp() && length <= below.MaxLength()
    ensures |s| == if below.V4? then 12 else 40
  {
    match below
    case V4(src, dst, protocol) => WordsBytes([High(src), Low(src), High(dst), Low(dst), protocol, length])
    case V6(src, dst, next) =>
      BigEndian(src, 16) + BigEndian(dst, 16) + WordsBytes([High(length), Low(length), 0, next])
  }

  /** The bytes a transport checksum covers: pseudo header, transport header and payload. */
  function Covered(below: Below, segment: seq<byte>): seq<byte>
    requires below.IsIp() && |segment| <= below.MaxLength()
  {
    PseudoHeader(below, |segment|) + segment
  }

  // ----- One layer -----

  /** The value left behind by an update and whether it succeeded. */
  datatype Update<+T> = Update(value: T, ok: bool)

  function PadAmount(t: Tcp): nat {
    var n := |TcpBytes(t)|;
    4 * ((n + 3) / 4) - n
  }

  function PadTcp(t: Tcp): Tcp {
    t.(options := t.options + Eols(PadAmount(t)))
  }

  function FinalTcp(below: Below, t: Tcp, payload: seq<byte>): Update<Tcp> {
    SumTcp(below, PadTcp(t), payload)
  }

  /** The checksum covers the header with its old offset; the offset is replaced last. */
  function SumTcp(below: Below, t: Tcp, payload: seq<byte>): Update<Tcp> {
    var header := TcpBytes(t.(checksum := 0));
    var segment := header + payload;
    if below.IsIp() && |segment| > below.MaxLength() then Update(t, false)
    else
      var summed := if below.IsIp() then t.(checksum := Checksum(Covered(below, segment))) else t;
      if |header| / 4 > 0xff then Update(summed, false)
      else Update(summed.(offset := |header| / 4), true)
  }

  /** The checksum covers the header with its old length. */
  function FinalUdp(below: Below, u: Udp, payload: seq<byte>): Update<Udp> {
    var segment := UdpBytes(u.(checksum := 0)) + payload;
    if |segment| > 0xffff then Update(u, false)
    else
      var sized := u.(length := |segment|);
      if below.IsIp() then Update(sized.(checksum := Checksum(Covered(below, segment))), true)
      else Update(sized, true)
  }

  function FinalIpv4(ip: Ipv4, nextSize: nat): Update<Ipv4> {
    var total := |Ipv4Bytes(ip)| + nextSize;
    if total > 0xffff then Update(ip, false)
    else
      var sized := ip.(length := total);
      Update(sized.(checksum := Checksum(Ipv4Bytes(sized.(checksum := 0)))), true)
  }

  function FinalIpv6(ip: Ipv6, nextSize: nat): Update<Ipv6> {
    if nextSize > 0xffff then Update(ip, false) else Update(ip.(length := nextSize), true)
  }

  function FinalIcmp(m: Icmp4): Icmp4 {
    m.(checksum := Checksum(IcmpBytes(m.(checksum := 0))))
  }

  function FinalLayer(below: Below, l: Layer, next: seq<Layer>): Update<Layer> {
    match l
    case EtherLayer(_) => Update(l, true)
    case RawLayer(_) => Update(l, true)
    case IcmpLayer(m) => Update(IcmpLayer(FinalIcmp(m)), true)
    case Ipv4Layer(ip) => var u := FinalIpv4(ip, Size(next)); Update(Ipv4Layer(u.value), u.ok)
    case Ipv6Layer(ip) => var u := FinalIpv6(ip, Size(next)); Update(Ipv6Layer(u.value), u.ok)
    case TcpLayer(t) => var u := FinalTcp(below, t, LayersBytes(next)); Update(TcpLayer(u.value), u.ok)
    case UdpLayer(d) => var u := FinalUdp(below, d, LayersBytes(next)); Update(UdpLayer(u.value), u.ok)
  }

  // ----- One pass -----

  /** Finalizes the layers front to back; each sees the finalized layer before it and the
      unfinalized layers after it. The first failure ends the pass. */
  function PassFrom(below: Below, ls: seq<Layer>): (out: Update<seq<Layer>>)
    ensures |out.value| == |ls|
    decreases |ls|
  {
    if |ls| == 0 then Update([], true)
    else
      var head := FinalLayer(below, ls[0], ls[1..]);
      if !head.ok then Update([head.value] + ls[1..], false)
      else
        var tail := PassFrom(BelowLayer(head.value), ls[1..]);
        Update([head.value] + tail.value, tail.ok)
  }

  function Pass(ls: seq<Layer>): Update<seq<Layer>> {
    PassFrom(Nothing, ls)
  }

  /** An update of the layers behind `front`, seen as an update of the whole. */
  function Behind(front: seq<Layer>, u: Update<seq<Layer>>): Update<seq<Layer>> {
    Update(front + u.value, u.ok)
  }

  lemma PassStep(front: seq<Layer>, below: Below, ls: seq<Layer>)
    requires |ls| > 0
    ensures var head := FinalLayer(below, ls[0], ls[1..]);
            Behind(front, PassFrom(below, ls))
            == if head.ok then Behind(front + [head.value], PassFrom(BelowLayer(head.value), ls[1..]))
               else Update(front + [head.value] + ls[1..], false)
  {
    var head := FinalLayer(below, ls[0], ls[1..]);
    if head.ok {
      var tail := PassFrom(BelowLayer(head.value), ls[1..]);
      assert front + ([head.value] + tail.value) == front + [head.value] + tail.value;
    } else {
      assert front + ([head.value] + ls[1..]) == front + [head.value] + ls[1..];
    }
  }

  // ----- Sizes -----

  lemma PaddedSize(t: Tcp)
    ensures PadAmount(t) < 4
    ensures |TcpBytes(PadTcp(t))| == |TcpBytes(t)| + PadAmount(t)
    ensures |TcpBytes(PadTcp(t))| % 4 == 0
  {
    WriteAllConcat(TcpOptions.OptionBytes, t.options, Eols(PadAmount(t)));
    EolsBytes(PadAmount(t));
  }

  /** The options with up to three end-of-list options behind them. */
  predicate EolsAdded(before: seq<TcpOption>, after: seq<TcpOption>) {
    && |before| <= |after| < |before| + 4 && after[..|before|] == before
    && forall i :: |before| <= i < |after| ==> after[i] == Eol
  }

  lemma PaddedOptions(t: Tcp)
    ensures EolsAdded(t.options, PadTcp(t).options)
  {
    hide PadAmount;
    PaddedSize(t);
  }

  /** On the wire, alignment adds up to three zero bytes behind the options and changes nothing else. */
  lemma PaddingBytes(t: Tcp)
    ensures var s, s' := TcpBytes(t), TcpBytes(PadTcp(t));
            && |s| <= |s'| < |s| + 4 && |s'| % 4 == 0 && s'[..|s|] == s
            && forall i :: |s| <= i < |s'| ==> s'[i] == 0x00
  {
    hide WordsBytes, TcpOptions.OptionsBytes, PadAmount;
    PaddedSize(t);
    var n := PadAmount(t);
    EolsBytes(n);
    OptionsConcat(t.options, Eols(n));
    assert TcpBytes(PadTcp(t)) == TcpBytes(t) + TcpOptions.OptionsBytes(Eols(n)) by {
      Assoc(WordsBytes(TcpWords(t)), TcpOptions.OptionsBytes(t.options), TcpOptions.OptionsBytes(Eols(n)));
    }
  }

  lemma OptionsConcat(a: seq<TcpOption>, b: seq<TcpOption>)
    ensures TcpOptions.OptionsBytes(a + b) == TcpOptions.OptionsBytes(a) + TcpOptions.OptionsBytes(b)
  {
    WriteAllConcat(TcpOptions.OptionBytes, a, b);
  }

  /** The bytes a pass adds to a layer. */
  function Padding(l: Layer): nat {
    if l.TcpLayer? then PadAmount(l.tcp) else 0
  }

  function TotalPadding(ls: seq<Layer>): nat {
    if |ls| == 0 then 0 else Padding(ls[0]) + TotalPadding(ls[1..])
  }

  lemma FinalLayerSize(below: Below, l: Layer, next: seq<Layer>)
    ensures |LayerBytes(FinalLayer(below, l, next).value)| == |LayerBytes(l)| + Padding(l)
  {
    if l.TcpLayer? {
      PaddedSize(l.tcp);
    }
  }

  lemma FinalLayerBelow(below: Below, l: Layer, next: seq<Layer>)
    ensures BelowLayer(FinalLayer(below, l, next).value) == BelowLayer(l)
  {}
}
