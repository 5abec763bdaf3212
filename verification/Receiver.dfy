/** What a receiver that adds with end-around carry, without a bound on its sums, finds in a stack
    that verifies under the code. */
module Receiver {
  import opened Bytes
  import opened InternetChecksum
  import opened TcpHeader
  import opened Ipv4Header
  import opened SimpleHeaders
  import opened Layers
  import opened FinalizeSpec
  import opened FixedPoint
  import opened NegativeZero

  /** The bytes a receiver sums to check a layer, its stored checksum among them. */
  function Protected(below: Below, l: Layer, next: seq<Layer>): Option<seq<byte>>
    requires Verifies(below, l, next)
  {
    match l
    case IcmpLayer(m) => Some(IcmpBytes(m))
    case Ipv4Layer(ip) => Some(Ipv4Bytes(ip))
    case TcpLayer(t) => if below.IsIp() then Some(Covered(below, TcpBytes(t) + LayersBytes(next))) else None
    case UdpLayer(u) => if below.IsIp() then Some(Covered(below, UdpBytes(u) + LayersBytes(next))) else None
    case _ => None
  }

  lemma ProtectedInBound(below: Below, l: Layer, next: seq<Layer>)
    requires Verifies(below, l, next) && !l.IcmpLayer?
    requires below.IsIp() ==> |LayerBytes(l)| + Size(next) <= 0xffff
    ensures var s := Protected(below, l, next); s.Some? ==> |s.value| <= MAX_EXACT && Checksum(s.value) == 0
  {
    hide Checksum, PseudoHeader, TcpBytes, UdpBytes, Ipv4Bytes;
    SizeIsLength(next);
  }

  /** In a stack whose layers verify, IPv4, TCP and UDP also verify by the reference addition. An
      ICMP message does exactly when its sum wrapped the code's accumulator a multiple of 0xffff
      times, as every message of at most 131074 bytes does. */
  lemma ReceiverAccepts(ls: seq<Layer>, i: nat)
    requires forall j :: 0 <= j < |ls| ==> Verifies(BelowOf(ls[..j]), ls[j], ls[j + 1..])
    requires i < |ls| && Protected(BelowOf(ls[..i]), ls[i], ls[i + 1..]).Some?
    ensures var s := Protected(BelowOf(ls[..i]), ls[i], ls[i + 1..]).value;
            OnesComplementSum(0, s) == 0xffff
            <==> (ls[i].IcmpLayer? ==> WordSum(s) / 0x1_0000_0000 % 0xffff == 0)
    ensures var s := Protected(BelowOf(ls[..i]), ls[i], ls[i + 1..]).value;
            |s| <= MAX_EXACT ==> OnesComplementSum(0, s) == 0xffff
  {
    hide OnesComplementSum, WordSum, Checksum, LayerBytes, Covered;
    var below, l, next := BelowOf(ls[..i]), ls[i], ls[i + 1..];
    var s := Protected(below, l, next).value;
    if below.IsIp() {
      assert ls[i..][1..] == next;
      IpBoundsRest(BelowOf(ls[..i - 1]), ls[i - 1], ls[i..]);
    }
    if !l.IcmpLayer? {
      ProtectedInBound(below, l, next);
    }
    ReceiverAgrees(s);
    if |s| <= MAX_EXACT {
      NoWrap(s);
    }
  }
}
