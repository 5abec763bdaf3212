/** Fixed-width integers, byte strings and the result types shared by every module. */
module Bytes {

  type u1 = x: int | 0 <= x < 2
  type u2 = x: int | 0 <= x < 4
  type u3 = x: int | 0 <= x < 8
  type u4 = x: int | 0 <= x < 16
  type u5 = x: int | 0 <= x < 32
  type u6 = x: int | 0 <= x < 64
  type byte = x: int | 0 <= x < 0x100
  type u13 = x: int | 0 <= x < 0x2000
  type u16 = x: int | 0 <= x < 0x1_0000
  type u20 = x: int | 0 <= x < 0x10_0000
  type u32 = x: int | 0 <= x < 0x1_0000_0000
  type u128 = x: int | 0 <= x < 0x1_0000_0000_0000_0000_0000_0000_0000_0000

  datatype Option<+T> = None | Some(value: T)

  /** What a layer parser returns: the value read and the unread bytes, or an error. */
  datatype Parsed<+T> = Parsed(value: T, rest: seq<byte>) | Failed

  // ----- Big-endian fields of any width -----

  function Pow256(w: nat): (p: nat)
    ensures p > 0
  {
    if w == 0 then 1 else 0x100 * Pow256(w - 1)
  }

  function BigEndian(v: nat, w: nat): (s: seq<byte>)
    ensures |s| == w
  {
    if w == 0 then [] else BigEndian(v / 0x100, w - 1) + [v % 0x100]
  }

  function BigEndianValue(s: seq<byte>): nat {
    if |s| == 0 then 0 else BigEndianValue(s[..|s| - 1]) * 0x100 + s[|s| - 1]
  }

  lemma {:induction false} BigEndianRoundTrip(v: nat, w: nat)
    requires v < Pow256(w)
    ensures BigEndianValue(BigEndian(v, w)) == v
  {
    if w > 0 {
      BigEndianRoundTrip(v / 0x100, w - 1);
      assert BigEndian(v, w)[..w - 1] == BigEndian(v / 0x100, w - 1);
    }
  }

  lemma {:induction false} BigEndianValueRoundTrip(s: seq<byte>)
    ensures BigEndian(BigEndianValue(s), |s|) == s
    ensures BigEndianValue(s) < Pow256(|s|)
  {
    if |s| > 0 {
      var init, last := s[..|s| - 1], s[|s| - 1];
      BigEndianValueRoundTrip(init);
      assert (BigEndianValue(init) * 0x100 + last) / 0x100 == BigEndianValue(init);
    }
  }

  lemma Spread(d: nat, x: nat, e: nat)
    ensures d * (x + e) == d * x + d * e
    ensures e > 0 ==> d * e >= d
  {}

  lemma QuotientIs(a: nat, d: nat, q: nat, r: nat)
    requires a == d * q + r && r < d
    ensures a / d == q
  {
    var q' := a / d;
    assert a == d * q' + a % d;
    if q > q' {
      Spread(d, q', q - q');
    } else if q < q' {
      Spread(d, q, q' - q);
    }
  }

  lemma DivideTwice(v: nat, p: nat)
    requires p > 0
    ensures v / 0x100 / p == v / (0x100 * p)
  {
    var h := v / 0x100;
    var q, r := h / p, h % p;
    assert h == p * q + r;
    assert v == 0x100 * (p * q + r) + v % 0x100;
    assert v == 0x100 * p * q + (0x100 * r + v % 0x100);
    QuotientIs(v, 0x100 * p, q, 0x100 * r + v % 0x100);
  }

  /** The most significant byte comes first: byte k has the weight 256^(w - 1 - k). */
  lemma {:induction false} BigEndianAt(v: nat, w: nat, k: nat)
    requires k < w
    ensures BigEndian(v, w)[k] == v / Pow256(w - 1 - k) % 0x100
    decreases w
  {
    if k < w - 1 {
      BigEndianAt(v / 0x100, w - 1, k);
      DivideTwice(v, Pow256(w - 2 - k));
    }
  }

  lemma Pow256At16()
    ensures Pow256(16) == 0x1_0000_0000_0000_0000_0000_0000_0000_0000
  {
    assert Pow256(4) == 0x1_0000_0000;
    assert Pow256(8) == 0x1_0000_0000_0000_0000;
    assert Pow256(12) == 0x1_0000_0000_0000_0000_0000_0000;
  }

  // ----- 16 and 32 bit big-endian fields -----

  function Word(v: u16): (s: seq<byte>)
    ensures |s| == 2
  {
    [v / 0x100, v % 0x100]
  }

  function WordOf(hi: byte, lo: byte): u16 {
    assert BigEndianValue([hi, lo][..1]) == hi;
    BigEndianValue([hi, lo])
  }

  lemma WordValue(hi: byte, lo: byte)
    ensures WordOf(hi, lo) == hi * 0x100 + lo
  {
    assert BigEndianValue([hi, lo][..1]) == hi;
  }

  lemma WordParts(hi: byte, lo: byte)
    ensures WordOf(hi, lo) / 0x100 == hi && WordOf(hi, lo) % 0x100 == lo
  {
    WordValue(hi, lo);
  }

  lemma WordJoin(v: u16)
    ensures WordOf(v / 0x100, v % 0x100) == v
  {
    WordValue(v / 0x100, v % 0x100);
  }

  function High(v: u32): u16 {
    v / 0x1_0000
  }

  function Low(v: u32): u16 {
    v % 0x1_0000
  }

  function Join(high: u16, low: u16): u32 {
    high * 0x1_0000 + low
  }

  lemma SplitJoin(high: u16, low: u16)
    ensures High(Join(high, low)) == high && Low(Join(high, low)) == low
  {}

  lemma WordOfRoundTrip(hi: byte, lo: byte)
    ensures Word(WordOf(hi, lo)) == [hi, lo]
  {
    WordParts(hi, lo);
  }

  function Quad(v: u32): (s: seq<byte>)
    ensures |s| == 4
  {
    Word(High(v)) + Word(Low(v))
  }

  function QuadOf(a: byte, b: byte, c: byte, d: byte): u32 {
    Join(WordOf(a, b), WordOf(c, d))
  }

  lemma WordRoundTrip(v: u16)
    ensures WordOf(Word(v)[0], Word(v)[1]) == v
  {
    WordJoin(v);
  }

  lemma QuadRoundTrip(v: u32)
    ensures var q := Quad(v); QuadOf(q[0], q[1], q[2], q[3]) == v
  {
    hide Word, WordOf;
    WordRoundTrip(High(v));
    WordRoundTrip(Low(v));
  }

  lemma QuadOfRoundTrip(a: byte, b: byte, c: byte, d: byte)
    ensures Quad(QuadOf(a, b, c, d)) == [a, b, c, d]
  {
    hide WordOf, Join, High, Low;
    SplitJoin(WordOf(a, b), WordOf(c, d));
    WordParts(a, b);
    WordParts(c, d);
  }

  /** The four bytes of a 32-bit field come most significant first. */
  lemma QuadBytes(a: byte, b: byte, c: byte, d: byte)
    ensures Quad(a * 0x100_0000 + b * 0x1_0000 + c * 0x100 + d) == [a, b, c, d]
  {
    hide WordOf, Quad;
    WordValue(a, b);
    WordValue(c, d);
    QuadOfRoundTrip(a, b, c, d);
  }

  lemma QuadThen(v: u32, tail: seq<byte>)
    ensures var s := Quad(v) + tail; QuadOf(s[0], s[1], s[2], s[3]) == v && s[4..] == tail
  {
    hide QuadOf, Quad;
    QuadRoundTrip(v);
  }

  lemma WordThen(v: u16, tail: seq<byte>)
    ensures var s := Word(v) + tail; WordOf(s[0], s[1]) == v && s[2..] == tail
  {
    WordJoin(v);
  }

  // ----- Headers as lists of 16-bit words -----

  function WordsBytes(ws: seq<u16>): (s: seq<byte>)
    ensures |s| == 2 * |ws|
  {
    if |ws| == 0 then [] else Word(ws[0]) + WordsBytes(ws[1..])
  }

  function BytesWords(s: seq<byte>): (ws: seq<u16>)
    requires |s| % 2 == 0
    ensures 2 * |ws| == |s|
  {
    if |s| == 0 then [] else [WordOf(s[0], s[1])] + BytesWords(s[2..])
  }

  lemma {:induction false} WordsRoundTrip(ws: seq<u16>)
    ensures BytesWords(WordsBytes(ws)) == ws
  {
    if |ws| > 0 {
      WordThen(ws[0], WordsBytes(ws[1..]));
      WordsRoundTrip(ws[1..]);
    }
  }

  lemma {:induction false} BytesRoundTrip(s: seq<byte>)
    requires |s| % 2 == 0
    ensures WordsBytes(BytesWords(s)) == s
  {
    hide WordOf, Word;
    if |s| > 0 {
      BytesRoundTrip(s[2..]);
      WordOfRoundTrip(s[0], s[1]);
      assert BytesWords(s)[1..] == BytesWords(s[2..]);
      assert s == [s[0], s[1]] + s[2..];
    }
  }

  lemma WordsThen(ws: seq<u16>, tail: seq<byte>)
    ensures var s := WordsBytes(ws) + tail;
            s[2 * |ws|..] == tail && BytesWords(s[..2 * |ws|]) == ws
  {
    var s := WordsBytes(ws) + tail;
    assert s[..2 * |ws|] == WordsBytes(ws);
    WordsRoundTrip(ws);
  }

  lemma Rejoin(s: seq<byte>, head: seq<byte>, middle: seq<byte>, rest: seq<byte>)
    requires |s| >= |head| && s[..|head|] == head && s[|head|..] == middle + rest
    ensures s == head + middle + rest
  {}

  lemma Assoc(a: seq<byte>, b: seq<byte>, c: seq<byte>)
    ensures a + b + c == a + (b + c)
  {}

  lemma Slices(s: seq<byte>, i: nat, j: nat, k: nat)
    requires i <= j <= k <= |s|
    ensures s[i..] == s[i..j] + s[j..k] + s[k..]
  {}

  // ----- Runs of single bits -----

  function Pow2(w: nat): (p: nat)
    ensures p > 0
  {
    if w == 0 then 1 else 2 * Pow2(w - 1)
  }

  /** The low w bits of n, most significant first. */
  function Bits(n: nat, w: nat): (bs: seq<u1>)
    ensures |bs| == w
  {
    if w == 0 then [] else Bits(n / 2, w - 1) + [n % 2]
  }

  function BitsValue(bs: seq<u1>): (n: nat)
    ensures n < Pow2(|bs|)
  {
    if |bs| == 0 then 0 else 2 * BitsValue(bs[..|bs| - 1]) + bs[|bs| - 1]
  }

  lemma {:induction false} BitsRoundTrip(bs: seq<u1>)
    ensures Bits(BitsValue(bs), |bs|) == bs
  {
    if |bs| > 0 {
      BitsRoundTrip(bs[..|bs| - 1]);
      assert BitsValue(bs) / 2 == BitsValue(bs[..|bs| - 1]);
    }
  }

  lemma {:induction false} BitsValueRoundTrip(n: nat, w: nat)
    requires n < Pow2(w)
    ensures BitsValue(Bits(n, w)) == n
  {
    if w > 0 {
      BitsValueRoundTrip(n / 2, w - 1);
      assert Bits(n, w)[..w - 1] == Bits(n / 2, w - 1);
    }
  }
}
