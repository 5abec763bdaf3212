/** The bounds of the convergence theorem cannot be lowered: k nested datagrams still change in pass
    k + 1, and around a TCP header that is not aligned, in pass k + 2. A change of the innermost
    length travels outwards one datagram per pass. */
module Tightness {
  import opened Bytes
  import opened InternetChecksum
  import opened ChecksumFields
  import opened TcpHeader
  import opened Ipv4Header
  import opened SimpleHeaders
  import opened Layers
  import opened FinalizeSpec
  import opened Convergence

  const IP := Ipv4Layer(DEFAULT_IPV4)
  const UDP := UdpLayer(Udp(0, 0, 0, 0))

  /** k default IPv4 and UDP headers inside one another, around a payload. */
  function Nested(k: nat, inner: seq<Layer>): seq<Layer> {
    if k == 0 then inner else [IP, UDP] + Nested(k - 1, inner)
  }

  lemma {:induction false} NestedShape(k: nat, inner: seq<Layer>)
    ensures Transports(Nested(k, inner)) == k + Transports(inner)
    ensures Size(Nested(k, inner)) == 28 * k + Size(inner)
    ensures TotalPadding(Nested(k, inner)) == TotalPadding(inner)
    decreases k
  {
    hide Size, Transports, TotalPadding;
    if k > 0 {
      assert Nested(k, inner)[2..] == Nested(k - 1, inner);
      NestedShape(k - 1, inner);
      PairShape(Nested(k, inner), Nested(k - 1, inner));
    }
  }

  lemma PairShape(ls: seq<Layer>, rest: seq<Layer>)
    requires |ls| == |rest| + 2 && ls[2..] == rest && ls[0] == IP && ls[1] == UDP
    ensures Transports(ls) == 1 + Transports(rest) && Size(ls) == 28 + Size(rest)
    ensures TotalPadding(ls) == TotalPadding(rest)
  {
    hide Size;
    TailSize(ls);
    assert ls[1..][0] == UDP && ls[1..][1..] == rest;
    assert Transports(ls[1..]) == 1 + Transports(rest);
    assert TotalPadding(ls[1..]) == TotalPadding(rest);
  }

  /** Every UDP header of the nest is over IP. */
  lemma {:induction false} NestedSums(below: Below, k: nat, inner: seq<Layer>)
    requires k > 0 || below == NotIp
    ensures SummingTransports(below, Nested(k, inner)) == k + SummingTransports(NotIp, inner)
    decreases k
  {
    if k > 0 {
      NestedSums(NotIp, k - 1, inner);
      var ls, rest := Nested(k, inner), Nested(k - 1, inner);
      assert ls[0] == IP && ls[1..][0] == UDP && ls[1..][1..] == rest;
      assert SummingTransports(BelowLayer(IP), ls[1..]) == 1 + SummingTransports(NotIp, rest);
    }
  }

  /** The nest fits if its outermost datagram does. */
  lemma {:induction false} NestedFits(below: Below, k: nat, inner: seq<Layer>)
    requires k > 0 || below == NotIp
    requires Fits(NotIp, inner, true) && 28 * k + Size(inner) + TotalPadding(inner) <= 0xffff
    ensures Fits(below, Nested(k, inner), true)
    decreases k
  {
    hide Size, TotalPadding, LayerBytes, Fits;
    if k > 0 {
      var ls, rest := Nested(k, inner), Nested(k - 1, inner);
      NestedFits(NotIp, k - 1, inner);
      NestedShape(k - 1, inner);
      assert ls[0] == IP && ls[1..][0] == UDP && ls[1..][1..] == rest && ls[2..] == rest;
      TailSize(ls);
      DatagramFits(below, ls);
    }
  }

  lemma DatagramFits(below: Below, ls: seq<Layer>)
    requires |ls| >= 2 && ls[0] == IP && ls[1] == UDP && ls[1..][1..] == ls[2..]
    requires 28 + Size(ls[2..]) + TotalPadding(ls[2..]) <= 0xffff && Fits(NotIp, ls[2..], true)
    ensures Fits(below, ls, true)
  {
    hide Size, LayerBytes;
    TailSize(ls);
    HeaderSizes(DEFAULT_IPV4, Udp(0, 0, 0, 0));
    assert TotalPadding(ls[1..]) == TotalPadding(ls[2..]);
    assert Fits(BelowLayer(IP), ls[1..], true);
  }

  lemma Optionless(ip: Ipv4)
    requires ip.options == []
    ensures |Ipv4Bytes(ip)| == 20
  {
    hide Ipv4Bytes;
    assert Ipv4Header.OptionsBytes([]) == [];
  }

  lemma TailSize(ls: seq<Layer>)
    requires |ls| >= 2 && ls[0].Ipv4Layer? && ls[0].ipv4.options == [] && ls[1].UdpLayer?
    ensures Size(ls[1..]) == 8 + Size(ls[2..]) && Size(ls) == 28 + Size(ls[2..])
  {
    hide LayerBytes, Size;
    SizeCons(ls);
    SizeCons(ls[1..]);
    HeaderSizes(ls[0].ipv4, ls[1].udp);
    assert ls[1..][1..] == ls[2..];
  }

  lemma SizeCons(ls: seq<Layer>)
    requires |ls| > 0
    ensures Size(ls) == |LayerBytes(ls[0])| + Size(ls[1..])
  {
    hide LayerBytes;
  }

  lemma HeaderSizes(ip: Ipv4, u: Udp)
    requires ip.options == []
    ensures |LayerBytes(Ipv4Layer(ip))| == 20 && |LayerBytes(UdpLayer(u))| == 8
  {
    hide Ipv4Bytes, UdpBytes;
    Optionless(ip);
  }

  // ----- Sizes during the passes -----

  /** The first pass that sees the final sizes. */
  function Settles(inner: seq<Layer>): nat {
    if TotalPadding(inner) == 0 then 1 else 2
  }

  lemma {:induction false} PassesSize(below: Below, ls: seq<Layer>, n: nat)
    requires PassesFrom(below, ls, n).Some?
    ensures var out := PassesFrom(below, ls, n).value;
            && Size(out) == Size(ls) + (if n == 0 then 0 else TotalPadding(ls))
            && TotalPadding(out) == if n == 0 then TotalPadding(ls) else 0
    decreases n
  {
    hide PassFrom, Size, TotalPadding;
    if n > 0 {
      PassesPrefix(below, ls, n);
      PassesSize(below, ls, n - 1);
      PassSize(below, PassesFrom(below, ls, n - 1).value);
    }
  }

  // ----- How a change of the payload moves a checksum -----

  /** b sums to d more than a, modulo 0xffff. */
  predicate Drift(a: nat, b: nat, d: int) {
    (b - a - d) % 0xffff == 0
  }

  lemma ChecksumOpposes(s: seq<byte>)
    requires |s| <= MAX_EXACT
    ensures (Checksum(s) + WordSum(s)) % 0xffff == 0
  {
    ChecksumIsNorm(s);
    ComplementCancels(WordSum(s));
  }

  lemma OppositeDrift(a: nat, b: nat, ca: nat, cb: nat, d: int)
    requires Drift(a, b, d) && (ca + a) % 0xffff == 0 && (cb + b) % 0xffff == 0
    ensures Drift(ca, cb, -d)
  {
    var x, y, z := (b - a - d) / 0xffff, (ca + a) / 0xffff, (cb + b) / 0xffff;
    assert cb - ca + d == 0xffff * (z - y - x);
  }

  lemma ChecksumDrift(a: seq<byte>, b: seq<byte>, d: int)
    requires |a| <= MAX_EXACT && |b| <= MAX_EXACT && Drift(WordSum(a), WordSum(b), d)
    ensures Drift(Checksum(a), Checksum(b), -d)
  {
    hide Drift, Checksum;
    ChecksumOpposes(a);
    ChecksumOpposes(b);
    OppositeDrift(WordSum(a), WordSum(b), Checksum(a), Checksum(b), d);
  }

  lemma DriftShift(a: nat, b: nat, d: int, a': nat, b': nat)
    requires Drift(a, b, d) && a' - a == b' - b
    ensures Drift(a', b', d)
  {
    assert b' - a' - d == b - a - d;
  }

  /** A transport checksum moves against the sum of its header and payload. */
  lemma CoveredDrift(below: Below, h: seq<byte>, h': seq<byte>, p: seq<byte>, p': seq<byte>, d: int)
    requires below.IsIp() && |h| == |h'| && |h| % 2 == 0 && |p| == |p'| && |h| + |p| <= 0xffff
    requires Drift(WordSum(h) + WordSum(p), WordSum(h') + WordSum(p'), d)
    ensures Drift(Checksum(Covered(below, h + p)), Checksum(Covered(below, h' + p')), -d)
  {
    hide Drift, Checksum, WordSum, PseudoHeader, Covered;
    var s, s' := Covered(below, h + p), Covered(below, h' + p');
    assert |s| <= MAX_EXACT && |s'| <= MAX_EXACT && Drift(WordSum(s), WordSum(s'), d) by {
      CoveredSumDrift(below, h, h', p, p', d);
    }
    ChecksumDrift(s, s', d);
  }

  lemma CoveredSumDrift(below: Below, h: seq<byte>, h': seq<byte>, p: seq<byte>, p': seq<byte>, d: int)
    requires below.IsIp() && |h| == |h'| && |h| % 2 == 0 && |p| == |p'| && |h| + |p| <= 0xffff
    requires Drift(WordSum(h) + WordSum(p), WordSum(h') + WordSum(p'), d)
    ensures |Covered(below, h + p)| <= MAX_EXACT && |Covered(below, h' + p')| <= MAX_EXACT
    ensures Drift(WordSum(Covered(below, h + p)), WordSum(Covered(below, h' + p')), d)
  {
    hide Drift, WordSum, PseudoHeader, Covered;
    CoveredSum(below, h, p);
    CoveredSum(below, h', p');
    DriftShift(WordSum(h) + WordSum(p), WordSum(h') + WordSum(p'), d,
               WordSum(Covered(below, h + p)), WordSum(Covered(below, h' + p')));
  }

  lemma CoveredSum(below: Below, h: seq<byte>, p: seq<byte>)
    requires below.IsIp() && |h| % 2 == 0 && |h| + |p| <= 0xffff
    ensures |Covered(below, h + p)| <= MAX_EXACT
    ensures WordSum(Covered(below, h + p)) == WordSum(PseudoHeader(below, |h| + |p|)) + (WordSum(h) + WordSum(p))
  {
    hide WordSum, PseudoHeader;
    WordSumConcat(h, p);
    WordSumConcat(PseudoHeader(below, |h| + |p|), h + p);
  }

  // ----- One datagram around a payload -----

  lemma UdpSum(u: Udp)
    ensures WordSum(UdpBytes(u)) == WordSum(UdpBytes(u.(checksum := 0))) + u.checksum
  {
    hide WordSum, SetWord, WordAt;
    UdpChecksumField(u, 0);
    WordSumSetWord(UdpBytes(u), 6, 0);
  }

  lemma LengthSum(u: Udp, length: u16)
    ensures WordSum(UdpBytes(u.(length := length))) + u.length == WordSum(UdpBytes(u)) + length
  {
    hide WordSum, SetWord, WordAt;
    UdpLengthField(u, length);
    WordSumSetWord(UdpBytes(u), 4, length);
  }

  ghost function Sum(ls: seq<Layer>): nat {
    WordSum(LayersBytes(ls))
  }

  lemma PairSum(ls: seq<Layer>)
    requires |ls| >= 2 && ls[0].Ipv4Layer? && ls[0].ipv4.options == [] && ls[1].UdpLayer?
    ensures Sum(ls) == WordSum(Ipv4Bytes(ls[0].ipv4)) + WordSum(UdpBytes(ls[1].udp)) + Sum(ls[2..])
  {
    hide WordSum, UdpBytes, Ipv4Bytes;
    var ip, u, rest := Ipv4Bytes(ls[0].ipv4), UdpBytes(ls[1].udp), LayersBytes(ls[2..]);
    Optionless(ls[0].ipv4);
    assert ls[1..][1..] == ls[2..];
    assert LayersBytes(ls[1..]) == u + rest;
    assert LayersBytes(ls) == ip + (u + rest);
    WordSumConcat(u, rest);
    WordSumConcat(ip, u + rest);
  }

  /** What a pass makes of a datagram and its payload. */
  lemma PairPass(below: Below, ls: seq<Layer>)
    requires |ls| >= 2 && ls[0].Ipv4Layer? && ls[1].UdpLayer? && PassFrom(below, ls).ok
    ensures var out := PassFrom(below, ls).value;
            && FinalLayer(below, ls[0], ls[1..]) == Update(out[0], true)
            && FinalLayer(BelowLayer(ls[0]), ls[1], ls[2..]) == Update(out[1], true)
            && PassFrom(NotIp, ls[2..]) == Update(out[2..], true)
            && out[0].Ipv4Layer? && out[1].UdpLayer? && BelowLayer(out[0]) == BelowLayer(ls[0])
            && out[0].ipv4.options == ls[0].ipv4.options
            && out[1].udp.checksum
               == Checksum(Covered(BelowLayer(ls[0]), UdpBytes(ls[1].udp.(checksum := 0)) + LayersBytes(ls[2..])))
  {
    hide PassFrom, Checksum, UdpBytes, Ipv4Bytes, LayersBytes, Size, Covered;
    PassCons(below, ls);
    PassCons(BelowLayer(ls[0]), ls[1..]);
    assert ls[1..][1..] == ls[2..];
  }

  // ----- Following k nested datagrams -----

  lemma {:induction false} PairPasses(below: Below, k: nat, inner: seq<Layer>, n: nat)
    requires 0 < k && Fits(below, Nested(k, inner), true)
    ensures var out := PassesFrom(below, Nested(k, inner), n);
            && out.Some? && |out.value| >= 2 && out.value[0].Ipv4Layer? && out.value[1].UdpLayer?
            && out.value[0].ipv4.options == [] && BelowLayer(out.value[0]) == BelowLayer(IP)
            && PassesFrom(NotIp, Nested(k - 1, inner), n) == Some(out.value[2..])
            && Size(out.value[2..]) == 28 * (k - 1) + Size(inner) + (if n == 0 then 0 else TotalPadding(inner))
    decreases n
  {
    hide PassFrom, FinalLayer, Checksum, Covered, UdpBytes, LayersBytes, Size, Fits, TotalPadding;
    var ls := Nested(k, inner);
    PassesFit(below, ls, n);
    assert ls[2..] == Nested(k - 1, inner) && ls[0] == IP && ls[1] == UDP;
    if n > 0 {
      PairPasses(below, k, inner, n - 1);
      PairPass(below, PassesFrom(below, ls, n - 1).value);
    }
    NestedShape(k - 1, inner);
    PassesSize(NotIp, Nested(k - 1, inner), n);
  }

  /** From the pass on that sees the final sizes, only the UDP checksum and the payload of a
      datagram change. */
  lemma PairSettles(below: Below, k: nat, inner: seq<Layer>, n: nat)
    requires 0 < k && Fits(below, Nested(k, inner), true) && n >= Settles(inner)
    ensures PassesFrom(below, Nested(k, inner), n).Some? && PassesFrom(below, Nested(k, inner), n + 1).Some?
    ensures var a, b := PassesFrom(below, Nested(k, inner), n).value, PassesFrom(below, Nested(k, inner), n + 1).value;
            && |a| >= 2 && |b| >= 2 && a[0] == b[0]
            && a[1].UdpLayer? && b[1].UdpLayer? && b[1].udp == a[1].udp.(checksum := b[1].udp.checksum)
  {
    hide PassFrom, FinalLayer, Size, BelowLayer, TotalPadding, Fits;
    PairPasses(below, k, inner, n - 1);
    PairPasses(below, k, inner, n);
    PairPasses(below, k, inner, n + 1);
    PassesPrefix(below, Nested(k, inner), n);
    PassesPrefix(below, Nested(k, inner), n + 1);
    var z := PassesFrom(below, Nested(k, inner), n - 1).value;
    var a, b := PassesFrom(below, Nested(k, inner), n).value, PassesFrom(below, Nested(k, inner), n + 1).value;
    PairPass(below, z);
    PairPass(below, a);
    TailSize(z);
    TailSize(a);
    SettledBySizes(below, z[0], z[1..], a[1..]);
    OtherFieldsSettle(BelowLayer(IP), z[1], z[2..], a[2..]);
    assert b[1].udp.(checksum := 0) == a[1].udp.(checksum := 0);
  }

  lemma UdpLengthIs(below: Below, u: Udp, next: seq<Layer>, out: Udp)
    requires FinalLayer(below, UdpLayer(u), next) == Update(UdpLayer(out), true)
    ensures 8 + Size(next) <= 0xffff && out == u.(length := 8 + Size(next), checksum := out.checksum)
  {
    hide Checksum, Covered;
    SizeIsLength(next);
  }

  /** The step from k - 1 to k datagrams: a drift of the payload between two passes becomes the
      opposite drift of the datagram one pass later, when the payload no longer moves. */
  lemma DriftTravels(below: Below, k: nat, inner: seq<Layer>, n: nat, d: int)
    requires 0 < k && Fits(below, Nested(k, inner), true) && n >= Settles(inner)
    requires PassesFrom(NotIp, Nested(k - 1, inner), n) == PassesFrom(NotIp, Nested(k - 1, inner), n + 1)
    requires DriftsFrom(below, k, inner, n, d)
    ensures PassesFrom(below, Nested(k, inner), n).Some? && PassesFrom(below, Nested(k, inner), n + 1).Some?
    ensures Drift(Sum(PassesFrom(below, Nested(k, inner), n).value),
                  Sum(PassesFrom(below, Nested(k, inner), n + 1).value), -d)
  {
    hide PassFrom, FinalLayer, Size, BelowLayer, Drift, Checksum, WordSum, Covered, LayersBytes, UdpBytes, Sum;
    hide Fits, TotalPadding;
    PairPasses(below, k, inner, n - 1);
    PairPasses(below, k, inner, n);
    PairPasses(below, k, inner, n + 1);
    PairSettles(below, k, inner, n);
    PassesPrefix(below, Nested(k, inner), n);
    PassesPrefix(below, Nested(k, inner), n + 1);
    var z := PassesFrom(below, Nested(k, inner), n - 1).value;
    var a, b := PassesFrom(below, Nested(k, inner), n).value, PassesFrom(below, Nested(k, inner), n + 1).value;
    PairPass(below, z);
    PairPass(below, a);
    SizeIsLength(z[2..]);
    SizeIsLength(a[2..]);
    V4Below();
    UdpLengthIs(BelowLayer(IP), a[1].udp, a[2..], b[1].udp);
    CoveredDrift(BelowLayer(IP), UdpBytes(z[1].udp.(checksum := 0)), UdpBytes(a[1].udp.(checksum := 0)),
                 LayersBytes(z[2..]), LayersBytes(a[2..]), d);
    PairSum(a);
    PairSum(b);
    UdpSum(a[1].udp);
    UdpSum(b[1].udp);
    DriftShift(a[1].udp.checksum, b[1].udp.checksum, -d, Sum(a), Sum(b));
  }

  lemma V4Below()
    ensures BelowLayer(IP).V4?
  {}

  /** Header and payload of the outer datagram drift by d from pass n - 1 to pass n. */
  ghost predicate DriftsFrom(below: Below, k: nat, inner: seq<Layer>, n: nat, d: int)
    requires n > 0
  {
    var z, a := PassesFrom(below, Nested(k, inner), n - 1), PassesFrom(below, Nested(k, inner), n);
    && z.Some? && a.Some? && |z.value| >= 2 && |a.value| >= 2 && z.value[1].UdpLayer? && a.value[1].UdpLayer?
    && Drift(WordSum(UdpBytes(z.value[1].udp.(checksum := 0))) + WordSum(LayersBytes(z.value[2..])),
             WordSum(UdpBytes(a.value[1].udp.(checksum := 0))) + WordSum(LayersBytes(a.value[2..])), d)
  }

  /** A payload with no checksum over other layers that settles before the lengths in front of it do. */
  predicate Payload(inner: seq<Layer>) {
    Fits(NotIp, inner, true) && SummingTransports(NotIp, inner) == 0 && PassesNeeded(NotIp, inner) < Settles(inner)
  }

  /** How much the innermost length changes in the pass that sees the final sizes. */
  function LengthChange(inner: seq<Layer>): int {
    if TotalPadding(inner) == 0 then 8 + Size(inner) else TotalPadding(inner)
  }

  lemma PayloadStays(inner: seq<Layer>, m: nat, n: nat)
    requires Payload(inner) && Settles(inner) - 1 <= m <= n <= m + 1
    ensures PassesFrom(NotIp, inner, n).Some? && PassesFrom(NotIp, inner, m) == PassesFrom(NotIp, inner, n)
  {
    hide PassFrom, Fits, TotalPadding;
    PassesFit(NotIp, inner, m);
    PassesFit(NotIp, inner, n);
    ConvergenceFrom(NotIp, inner, m);
  }

  /** Innermost: the length of the datagram becomes final, after its payload has. */
  lemma FirstDrift(below: Below, inner: seq<Layer>)
    requires Payload(inner) && Fits(below, Nested(1, inner), true)
    ensures DriftsFrom(below, 1, inner, Settles(inner), LengthChange(inner))
  {
    hide PassFrom, FinalLayer, Checksum, WordSum, Covered, UdpBytes, Ipv4Bytes, LayersBytes, Size, BelowLayer;
    hide Fits, TotalPadding;
    var n, ls := Settles(inner), Nested(1, inner);
    PairPasses(below, 1, inner, n - 1);
    PairPasses(below, 1, inner, n);
    PassesPrefix(below, ls, n);
    PayloadStays(inner, n - 1, n);
    var z, a := PassesFrom(below, ls, n - 1).value, PassesFrom(below, ls, n).value;
    PairPass(below, z);
    UdpLengthIs(BelowLayer(z[0]), z[1].udp, z[2..], a[1].udp);
    LengthBefore(below, inner);
    LengthSum(z[1].udp.(checksum := 0), a[1].udp.length);
    assert a[1].udp.(checksum := 0) == z[1].udp.(checksum := 0).(length := a[1].udp.length);
    HeaderDrift(z[1].udp.(checksum := 0), a[1].udp.(checksum := 0), WordSum(LayersBytes(z[2..])), LengthChange(inner));
  }

  lemma HeaderDrift(u: Udp, v: Udp, payload: nat, d: int)
    requires WordSum(UdpBytes(v)) + u.length == WordSum(UdpBytes(u)) + v.length && v.length == u.length + d
    ensures Drift(WordSum(UdpBytes(u)) + payload, WordSum(UdpBytes(v)) + payload, d)
  {
    hide WordSum, UdpBytes;
  }

  /** The length one pass earlier: none yet, or the size of the unaligned payload. */
  lemma LengthBefore(below: Below, inner: seq<Layer>)
    requires Fits(below, Nested(1, inner), true)
    ensures var z := PassesFrom(below, Nested(1, inner), Settles(inner) - 1);
            && z.Some? && |z.value| >= 2 && z.value[1].UdpLayer?
            && z.value[1].udp.length == if Settles(inner) == 1 then 0 else 8 + Size(inner)
  {
    hide PassFrom, Size, Fits, TotalPadding;
    if Settles(inner) == 2 {
      LengthAfterFirst(below, inner);
    }
  }

  lemma LengthAfterFirst(below: Below, inner: seq<Layer>)
    requires Fits(below, Nested(1, inner), true)
    ensures var z := PassesFrom(below, Nested(1, inner), 1);
            z.Some? && |z.value| >= 2 && z.value[1].UdpLayer? && z.value[1].udp.length == 8 + Size(inner)
  {
    hide PassFrom, FinalLayer, Checksum, Covered, UdpBytes, LayersBytes, Size, BelowLayer, Fits, TotalPadding;
    var ls := Nested(1, inner);
    assert ls[0] == IP && ls[1] == UDP && ls[2..] == inner;
    assert PassesFrom(below, ls, 0) == Some(ls);
    hide PassesFrom, Nested;
    PairPasses(below, 1, inner, 1);
    PassesPrefix(below, ls, 1);
    PairPass(below, ls);
    UdpLengthIs(BelowLayer(IP), ls[1].udp, ls[2..], PassesFrom(below, ls, 1).value[1].udp);
  }

  /** Further out: the header has settled and the payload drifts. */
  lemma NextDrift(below: Below, k: nat, inner: seq<Layer>, n: nat, d: int)
    requires 1 < k && Fits(below, Nested(k, inner), true) && n > Settles(inner)
    requires PassesFrom(NotIp, Nested(k - 1, inner), n - 1).Some? && PassesFrom(NotIp, Nested(k - 1, inner), n).Some?
    requires Drift(Sum(PassesFrom(NotIp, Nested(k - 1, inner), n - 1).value),
                   Sum(PassesFrom(NotIp, Nested(k - 1, inner), n).value), d)
    ensures DriftsFrom(below, k, inner, n, d)
  {
    hide PassFrom, WordSum, UdpBytes, Size, BelowLayer, Drift, Fits, TotalPadding, PassesFrom, Nested;
    PairPasses(below, k, inner, n - 1);
    PairPasses(below, k, inner, n);
    PairSettles(below, k, inner, n - 1);
    var z, a := PassesFrom(below, Nested(k, inner), n - 1).value, PassesFrom(below, Nested(k, inner), n).value;
    assert z[1].udp.(checksum := 0) == a[1].udp.(checksum := 0);
    var h := WordSum(UdpBytes(z[1].udp.(checksum := 0)));
    DriftShift(Sum(z[2..]), Sum(a[2..]), d, h + Sum(z[2..]), h + Sum(a[2..]));
  }

  /** The layers of a nest stay as they are from the pass on that its lengths and depth ask for. */
  lemma NestStays(k: nat, inner: seq<Layer>, n: nat)
    requires Payload(inner) && Fits(NotIp, Nested(k, inner), true) && n >= k + Settles(inner)
    ensures PassesFrom(NotIp, Nested(k, inner), n).Some?
    ensures PassesFrom(NotIp, Nested(k, inner), n) == PassesFrom(NotIp, Nested(k, inner), n + 1)
  {
    hide PassFrom, Fits, Size, TotalPadding;
    NestedShape(k, inner);
    NestedSums(NotIp, k, inner);
    NeededBounds(NotIp, Nested(k, inner));
    PassesFit(NotIp, Nested(k, inner), n);
    ConvergenceFrom(NotIp, Nested(k, inner), n);
  }

  lemma {:induction false} NestedDrift(below: Below, k: nat, inner: seq<Layer>) returns (d: int)
    requires 0 < k && Payload(inner) && 28 * k + Size(inner) + TotalPadding(inner) <= 0xffff
    ensures d == LengthChange(inner) || d == -LengthChange(inner)
    ensures var n, ls := k - 1 + Settles(inner), Nested(k, inner);
            && PassesFrom(below, ls, n).Some? && PassesFrom(below, ls, n + 1).Some?
            && Drift(Sum(PassesFrom(below, ls, n).value), Sum(PassesFrom(below, ls, n + 1).value), d)
    decreases k
  {
    hide PassesFrom, Sum, Drift, DriftsFrom, Size, Fits, TotalPadding, Nested, LengthChange;
    var n := k - 1 + Settles(inner);
    NestedFits(below, k, inner);
    NestedFits(NotIp, k - 1, inner);
    if k == 1 {
      FirstDrift(below, inner);
      d := LengthChange(inner);
    } else {
      d := NestedDrift(NotIp, k - 1, inner);
      NextDrift(below, k, inner, n, d);
    }
    NestStays(k - 1, inner, n);
    DriftTravels(below, k, inner, n, d);
    d := -d;
  }

  /** The checksum of the outermost of k datagrams still changes k passes after the lengths settled. */
  lemma NestChanges(k: nat, inner: seq<Layer>)
    requires 0 < k && Payload(inner) && 28 * k + Size(inner) + TotalPadding(inner) <= 0xffff
    ensures var n, ls := k - 1 + Settles(inner), Nested(k, inner);
            Passes(ls, n).Some? && Passes(ls, n + 1).Some? && Passes(ls, n) != Passes(ls, n + 1)
  {
    hide PassesFrom, Size, Fits, TotalPadding, Nested, Sum, PassesNeeded;
    var d := NestedDrift(Nothing, k, inner);
  }

  // ----- The two bounds -----

  /** For every k, as far as the 16-bit lengths reach, some stack with k transports is not yet
      stable after k successful passes. */
  lemma BoundIsReached(k: nat)
    requires 0 < k <= 2340
    ensures Transports(Nested(k, [])) == k
    ensures Passes(Nested(k, []), k).Some? && Passes(Nested(k, []), k + 1).Some?
    ensures Passes(Nested(k, []), k) != Passes(Nested(k, []), k + 1)
  {
    hide PassesFrom, Nested;
    NestedShape(k, []);
    NestChanges(k, []);
  }

  /** A TCP header of 21 bytes, which a pass aligns. */
  const UNALIGNED := TcpLayer(DEFAULT_TCP.(options := [TcpOptions.Nop]))

  lemma UnalignedSize()
    ensures |LayerBytes(UNALIGNED)| == 21 && Padding(UNALIGNED) == 3
  {
    hide TcpWords, WordsBytes;
    var none: seq<TcpOptions.TcpOption> := [];
    assert [TcpOptions.Nop][1..] == none;
    assert TcpOptions.OptionsBytes([TcpOptions.Nop]) == TcpOptions.OptionBytes(TcpOptions.Nop) + [];
  }

  lemma UnalignedPayload()
    ensures Payload([UNALIGNED]) && Size([UNALIGNED]) == 21 && TotalPadding([UNALIGNED]) == 3
    ensures Transports([UNALIGNED]) == 1
  {
    hide LayerBytes, Padding;
    UnalignedSize();
    var none: seq<Layer> := [];
    assert [UNALIGNED][1..] == none && Size(none) == 0 && TotalPadding(none) == 0;
    assert Fits(NotIp, none, true) && PassesNeeded(NotIp, none) == 0 && SummingTransports(NotIp, none) == 0;
    assert BelowLayer(UNALIGNED) == NotIp;
  }

  /** For every j, some stack with j transports over IP, and an unaligned TCP header, is not yet
      stable after j + 1 successful passes. */
  lemma SoonerBoundIsReached(j: nat)
    requires 0 < j <= 2339
    ensures SummingTransports(Nothing, Nested(j, [UNALIGNED])) == j
    ensures Passes(Nested(j, [UNALIGNED]), j + 1).Some? && Passes(Nested(j, [UNALIGNED]), j + 2).Some?
    ensures Passes(Nested(j, [UNALIGNED]), j + 1) != Passes(Nested(j, [UNALIGNED]), j + 2)
  {
    hide PassesFrom, Nested, Size, TotalPadding, PassesNeeded, SummingTransports, Fits;
    UnalignedPayload();
    NestedSums(Nothing, j, [UNALIGNED]);
    NestChanges(j, [UNALIGNED]);
  }
}
