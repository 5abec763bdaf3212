/** The 16-bit Internet checksum of src/layer/ip/mod.rs (RFC 1071, sections 1 and 2). */
module InternetChecksum {
  import opened Bytes

  /** The longest input whose word sum can never leave 32 bits. */
  const MAX_EXACT := 131074

  // ----- What the code computes -----

  /** The exact sum of the 16-bit words; an odd last byte is a word with a zero low byte. */
  function WordSum(s: seq<byte>): nat {
    if |s| == 0 then 0
    else if |s| == 1 then WordOf(s[0], 0)
    else WordOf(s[0], s[1]) + WordSum(s[2..])
  }

  /** The 16-bit representative of n modulo 0xffff, where only zero is sent to 0. */
  function Norm(n: nat): u16 {
    if n <= 0xffff then n else Norm(n - 0xffff)
  }

  /** A 32-bit accumulator drops multiples of 2^32. */
  function Wrap(n: nat): u32 {
    if n < 0x1_0000_0000 then n else Wrap(n - 0x1_0000_0000)
  }

  /** The checksum the code returns: the accumulator has 32 bits and wraps. */
  function Checksum(s: seq<byte>): u16 {
    0xffff - Norm(Wrap(WordSum(s)))
  }

  lemma {:induction false} NormResidue(n: nat)
    ensures Norm(n) == 0 <==> n == 0
    ensures Norm(n) % 0xffff == n % 0xffff
  {
    if n > 0xffff {
      NormResidue(n - 0xffff);
    }
  }

  lemma NormUnique(n: nat, r: u16)
    requires r == 0 <==> n == 0
    requires r % 0xffff == n % 0xffff
    ensures Norm(n) == r
  {
    NormResidue(n);
  }

  lemma {:induction false} WrapAdd(n: nat, w: nat)
    ensures Wrap(Wrap(n) + w) == Wrap(n + w)
  {
    if n >= 0x1_0000_0000 {
      WrapAdd(n - 0x1_0000_0000, w);
    }
  }

  function Fold(n: nat): nat {
    n % 0x1_0000 + n / 0x1_0000
  }

  /** Two folds turn any 32-bit sum into its 16-bit representative; a cast loses nothing. */
  lemma TwoFoldsSuffice(n: u32)
    ensures Fold(Fold(n)) == Norm(n)
  {
    var hi, lo := n / 0x1_0000, n % 0x1_0000;
    assert Fold(n) == hi + lo;
    FoldOnce(hi + lo);
    MultipleDropped(hi, hi + lo);
    NormUnique(n, Fold(hi + lo));
  }

  lemma FoldOnce(f: nat)
    requires f <= 0x1_fffe
    ensures Fold(f) == if f <= 0xffff then f else f - 0xffff
  {}

  lemma MultipleDropped(k: nat, n: int)
    ensures (0xffff * k + n) % 0xffff == n % 0xffff
  {}

  method ComputeChecksum(input: seq<byte>) returns (c: u16)
    ensures c == Checksum(input)
  {
    var sum: u32 := 0;
    var i := 0;
    while i + 1 < |input|
      invariant 0 <= i <= |input| && i % 2 == 0
      invariant sum == Wrap(WordSum(input[..i]))
    {
      NextWord(input, i);
      sum := Wrap(sum + WordOf(input[i], input[i + 1]));
      i := i + 2;
    }
    if i < |input| {
      LastByte(input[..i], input[i]);
      assert input == input[..i] + [input[i]];
      sum := Wrap(sum + WordOf(input[i], 0x00));
    } else {
      assert input == input[..i];
    }
    c := FoldAndComplement(sum);
  }

  method FoldAndComplement(sum: u32) returns (c: u16)
    ensures c == 0xffff - Norm(sum)
  {
    TwoFoldsSuffice(sum);
    var carryAdd := sum % 0x1_0000 + sum / 0x1_0000;
    var folded := carryAdd % 0x1_0000 + carryAdd / 0x1_0000;
    c := 0xffff - folded % 0x1_0000;
  }

  lemma {:induction false} WordSumConcat(a: seq<byte>, b: seq<byte>)
    requires |a| % 2 == 0
    ensures WordSum(a + b) == WordSum(a) + WordSum(b)
  {
    if |a| == 0 {
      assert a + b == b;
    } else {
      WordSumConcat(a[2..], b);
      assert (a + b)[2..] == a[2..] + b;
    }
  }

  lemma OneWord(a: byte, b: byte)
    ensures WordSum([a, b]) == WordOf(a, b)
  {}

  lemma NextWord(s: seq<byte>, i: nat)
    requires i + 1 < |s| && i % 2 == 0
    ensures Wrap(Wrap(WordSum(s[..i])) + WordOf(s[i], s[i + 1])) == Wrap(WordSum(s[..i + 2]))
  {
    hide Wrap, WordOf, WordSum;
    OneWord(s[i], s[i + 1]);
    WordSumConcat(s[..i], [s[i], s[i + 1]]);
    assert s[..i + 2] == s[..i] + [s[i], s[i + 1]];
    WrapAdd(WordSum(s[..i]), WordOf(s[i], s[i + 1]));
  }

  lemma OneByte(b: byte)
    ensures WordSum([b]) == WordOf(b, 0x00)
  {}

  lemma LastByte(front: seq<byte>, last: byte)
    requires |front| % 2 == 0
    ensures Wrap(Wrap(WordSum(front)) + WordOf(last, 0x00)) == Wrap(WordSum(front + [last]))
  {
    hide Wrap, WordOf, WordSum;
    OneByte(last);
    WordSumConcat(front, [last]);
    WrapAdd(WordSum(front), WordOf(last, 0x00));
  }

  // ----- The reference: end-around-carry addition, word by word -----

  function AddEndAroundCarry(a: u16, b: u16): u16 {
    if a + b >= 0x1_0000 then a + b - 0xffff else a + b
  }

  function OnesComplementSum(acc: u16, s: seq<byte>): u16
    decreases |s|
  {
    if |s| == 0 then acc
    else if |s| == 1 then AddEndAroundCarry(acc, WordOf(s[0], 0))
    else OnesComplementSum(AddEndAroundCarry(acc, WordOf(s[0], s[1])), s[2..])
  }

  lemma NormAdd(a: nat, w: u16)
    ensures AddEndAroundCarry(Norm(a), w) == Norm(a + w)
  {
    NormResidue(a);
    NormUnique(a + w, AddEndAroundCarry(Norm(a), w));
  }

  lemma {:induction false} OnesComplementSumNorm(n: nat, s: seq<byte>)
    ensures OnesComplementSum(Norm(n), s) == Norm(n + WordSum(s))
    decreases |s|
  {
    if |s| == 1 {
      NormAdd(n, WordOf(s[0], 0));
    } else if |s| > 1 {
      NormAdd(n, WordOf(s[0], s[1]));
      OnesComplementSumNorm(n + WordOf(s[0], s[1]), s[2..]);
    }
  }

  lemma {:induction false} WordSumBound(s: seq<byte>)
    ensures WordSum(s) <= 0xffff * ((|s| + 1) / 2)
  {
    if |s| > 1 {
      WordSumBound(s[2..]);
    }
  }

  lemma ChecksumIsNorm(s: seq<byte>)
    requires |s| <= MAX_EXACT
    ensures WordSum(s) < 0x1_0000_0000
    ensures Checksum(s) == 0xffff - Norm(WordSum(s))
  {
    WordSumBound(s);
  }

  lemma NoWrap(s: seq<byte>)
    requires |s| <= MAX_EXACT
    ensures Wrap(WordSum(s)) == WordSum(s)
  {
    WordSumBound(s);
  }

  /** No prefix of an input within the bound overflows the accumulator, and the result
      is the complement of the word-by-word end-around-carry sum. */
  lemma ChecksumRefinesOnesComplement(s: seq<byte>)
    requires |s| <= MAX_EXACT
    ensures forall i :: 0 <= i <= |s| ==> WordSum(s[..i]) < 0x1_0000_0000
    ensures Checksum(s) == 0xffff - OnesComplementSum(0, s)
  {
    forall i | 0 <= i <= |s|
      ensures WordSum(s[..i]) < 0x1_0000_0000
    {
      ChecksumIsNorm(s[..i]);
    }
    ChecksumIsNorm(s);
    OnesComplementSumNorm(0, s);
  }

  function AllOnes(n: nat): (s: seq<byte>)
    ensures |s| == n
  {
    seq(n, _ => 0xff)
  }

  lemma {:induction false} AllOnesSum(n: nat)
    ensures WordSum(AllOnes(n)) == 0xffff * (n / 2) + if n % 2 == 1 then 0xff00 else 0
  {
    if n > 1 {
      AllOnesSum(n - 2);
      assert AllOnes(n)[2..] == AllOnes(n - 2);
    }
  }

  // ----- Exactly when the code agrees with the reference -----

  lemma {:induction false} WrapIsRemainder(n: nat)
    ensures Wrap(n) == n % 0x1_0000_0000
  {
    if n >= 0x1_0000_0000 {
      WrapIsRemainder(n - 0x1_0000_0000);
    }
  }

  lemma SameNorm(a: nat, b: nat)
    ensures Norm(a) == Norm(b) <==> (a == 0 <==> b == 0) && a % 0xffff == b % 0xffff
  {
    NormResidue(a);
    NormResidue(b);
  }

  /** 2^32 is 1 modulo 0xffff, so what wrapping drops is the number of wraps. */
  lemma WrapResidue(n: nat)
    ensures n % 0xffff == Wrap(n) % 0xffff <==> n / 0x1_0000_0000 % 0xffff == 0
  {
    WrapIsRemainder(n);
    var q, r := n / 0x1_0000_0000, n % 0x1_0000_0000;
    assert n == 0xffff * (0x1_0001 * q) + (q + r);
    MultipleDropped(0x1_0001 * q, q + r);
    SumResidue(q, r);
  }

  lemma SumResidue(q: nat, r: nat)
    ensures (q + r) % 0xffff == r % 0xffff <==> q % 0xffff == 0
  {
    var x, y := q / 0xffff, r / 0xffff;
    assert q + r == 0xffff * (x + y) + (q % 0xffff + r % 0xffff);
    MultipleDropped(x + y, q % 0xffff + r % 0xffff);
  }

  /** The code's checksum is the one's complement checksum exactly when the accumulator does not
      wrap, or wraps a multiple of 0xffff times without ending at zero. */
  lemma ExactWhen(s: seq<byte>)
    ensures var n := WordSum(s);
            Checksum(s) == 0xffff - OnesComplementSum(0, s)
            <==> n < 0x1_0000_0000 || (n % 0x1_0000_0000 > 0 && n / 0x1_0000_0000 % 0xffff == 0)
  {
    hide WordSum, OnesComplementSum, Norm, Wrap;
    var n := WordSum(s);
    ZeroIsItsOwnNorm();
    OnesComplementSumNorm(0, s);
    SameNorm(Wrap(n), n);
    WrapIsRemainder(n);
    WrapResidue(n);
  }

  lemma ZeroIsItsOwnNorm()
    ensures Norm(0) == 0
  {}

  function Zeros(n: nat): (s: seq<byte>)
    ensures |s| == n
  {
    seq(n, _ => 0x00)
  }

  lemma {:induction false} ZerosSum(n: nat)
    ensures WordSum(Zeros(n)) == 0
  {
    if n > 1 {
      hide WordSum;
      ZerosSum(n - 2);
      OneWord(0x00, 0x00);
      WordSumConcat([0x00, 0x00], Zeros(n - 2));
      assert Zeros(n) == [0x00, 0x00] + Zeros(n - 2);
    }
  }

  /** An input of any length above the bound that wraps the accumulator once. */
  function Overflowing(length: nat): (s: seq<byte>)
    requires length > MAX_EXACT
    ensures |s| == length
  {
    AllOnes(MAX_EXACT) + ([0xff] + Zeros(length - MAX_EXACT - 1))
  }

  lemma OneThenZeros(n: nat)
    ensures WordSum([0xff] + Zeros(n)) == 0xff00
  {
    hide WordSum;
    if n == 0 {
      OneByte(0xff);
      assert [0xff] + Zeros(0) == [0xff];
    } else {
      ZerosSum(n - 1);
      OneWord(0xff, 0x00);
      WordSumConcat([0xff, 0x00], Zeros(n - 1));
      assert [0xff] + Zeros(n) == [0xff, 0x00] + Zeros(n - 1);
    }
  }

  lemma OverflowingSum(length: nat)
    requires length > MAX_EXACT
    ensures WordSum(Overflowing(length)) == 0x1_0000_feff
  {
    hide WordSum;
    AllOnesSum(MAX_EXACT);
    OneThenZeros(length - MAX_EXACT - 1);
    WordSumConcat(AllOnes(MAX_EXACT), [0xff] + Zeros(length - MAX_EXACT - 1));
  }

  /** The bound is exact: the code is right on all inputs of a length iff the length is within it. */
  lemma BoundIsTight(length: nat)
    ensures (forall s: seq<byte> :: |s| == length ==> Checksum(s) == 0xffff - OnesComplementSum(0, s))
            <==> length <= MAX_EXACT
  {
    hide WordSum, Checksum, OnesComplementSum, Overflowing;
    if length <= MAX_EXACT {
      forall s: seq<byte> | |s| == length
        ensures Checksum(s) == 0xffff - OnesComplementSum(0, s)
      {
        ChecksumRefinesOnesComplement(s);
      }
    } else {
      OverflowingSum(length);
      ExactWhen(Overflowing(length));
    }
  }

  // ----- A 16-bit checksum field inside the summed bytes -----

  function WordAt(s: seq<byte>, i: nat): u16
    requires i + 1 < |s|
  {
    WordOf(s[i], s[i + 1])
  }

  function SetWord(s: seq<byte>, i: nat, v: u16): (r: seq<byte>)
    requires i + 1 < |s|
    ensures |r| == |s|
    ensures WordAt(r, i) == v
    ensures forall k :: 0 <= k < |s| && k != i && k != i + 1 ==> r[k] == s[k]
  {
    WordJoin(v);
    s[i := v / 0x100][i + 1 := v % 0x100]
  }

  lemma {:induction false} WordSumSetWord(s: seq<byte>, i: nat, v: u16)
    requires i + 1 < |s| && i % 2 == 0
    ensures WordSum(SetWord(s, i, v)) + WordAt(s, i) == WordSum(s) + v
  {
    if i > 0 {
      WordSumSetWord(s[2..], i - 2, v);
      assert SetWord(s, i, v)[2..] == SetWord(s[2..], i - 2, v);
    } else {
      assert SetWord(s, i, v)[2..] == s[2..];
    }
  }

  /** Replacing a word of a header is replacing the word in its list. */
  lemma {:induction false} SetHeaderWord(ws: seq<u16>, i: nat, v: u16, tail: seq<byte>)
    requires i < |ws|
    ensures SetWord(WordsBytes(ws) + tail, 2 * i, v) == WordsBytes(ws[i := v]) + tail
    ensures WordAt(WordsBytes(ws) + tail, 2 * i) == ws[i]
  {
    hide WordSum, Checksum;
    var s := WordsBytes(ws) + tail;
    assert ws == [ws[0]] + ws[1..];
    if i == 0 {
      assert ws[0 := v][1..] == ws[1..];
      WordJoin(ws[0]);
    } else {
      SetHeaderWord(ws[1..], i - 1, v, tail);
      assert ws[i := v][1..] == ws[1..][i - 1 := v];
      var s' := WordsBytes(ws[1..]) + tail;
      assert s == Word(ws[0]) + s';
      assert SetWord(s, 2 * i, v) == Word(ws[0]) + SetWord(s', 2 * (i - 1), v);
    }
  }

  lemma ZeroChecksum(s: seq<byte>)
    ensures var n := Wrap(WordSum(s)); Checksum(s) == 0 <==> n > 0 && n % 0xffff == 0
  {
    NormResidue(Wrap(WordSum(s)));
  }

  lemma ComplementCancels(sum: nat)
    ensures var total := sum + (0xffff - Norm(sum)); total > 0 && total % 0xffff == 0
  {
    NormResidue(sum);
    MultipleDropped(1, sum - Norm(sum));
  }

  /** 2^32 - 1 is a multiple of 0xffff, so completing a 32-bit sum to a multiple never wraps. */
  lemma ComplementFits(sum: u32)
    ensures sum + (0xffff - Norm(sum)) < 0x1_0000_0000
  {
    ComplementCancels(sum);
    NormResidue(sum);
    var k := (sum + (0xffff - Norm(sum))) / 0xffff;
    assert k <= 0x1_0001;
  }

  /** Storing the checksum of bytes whose field is zero makes the whole verify. */
  lemma StoringChecksumVerifies(s: seq<byte>, i: nat)
    requires i + 1 < |s| && i % 2 == 0
    requires WordAt(s, i) == 0
    ensures Checksum(SetWord(s, i, Checksum(s))) == 0
  {
    var n, c, stored := Wrap(WordSum(s)), Checksum(s), SetWord(s, i, Checksum(s));
    assert WordSum(stored) == WordSum(s) + c by {
      WordSumSetWord(s, i, c);
    }
    hide WordSum, SetWord, Norm;
    WrapAdd(WordSum(s), c);
    ComplementFits(n);
    ComplementCancels(n);
    ZeroChecksum(stored);
  }

  lemma OnlyComplement(sum: u32, c: u16)
    requires Wrap(sum + c) > 0 && Wrap(sum + c) % 0xffff == 0
    ensures 0xffff - Norm(sum) == if c == 0xffff && sum > 0 then 0 else c
  {
    assert sum + c < 0x1_0000_0000;
    NormUnique(sum, if c == 0xffff && sum > 0 then 0xffff else 0xffff - c);
  }

  /** Clearing the field of bytes that verify and recomputing gives the stored value back,
      except that a stored 0xffff over words that do not sum to zero becomes 0. */
  lemma RecomputingVerified(s: seq<byte>, i: nat)
    requires i + 1 < |s| && i % 2 == 0
    requires Checksum(s) == 0
    ensures var cleared := SetWord(s, i, 0);
            Checksum(cleared)
            == if WordAt(s, i) == 0xffff && Wrap(WordSum(cleared)) > 0 then 0 else WordAt(s, i)
  {
    hide WordSum, SetWord, Norm, Wrap, WordAt;
    ZeroChecksum(s);
    ClearedSum(s, i);
    OnlyComplement(Wrap(WordSum(SetWord(s, i, 0))), WordAt(s, i));
  }

  lemma ClearedSum(s: seq<byte>, i: nat)
    requires i + 1 < |s| && i % 2 == 0
    ensures Wrap(Wrap(WordSum(SetWord(s, i, 0))) + WordAt(s, i)) == Wrap(WordSum(s))
  {
    hide WordSum, SetWord, Wrap, WordAt;
    WordSumSetWord(s, i, 0);
    WrapAdd(WordSum(SetWord(s, i, 0)), WordAt(s, i));
  }

  /** The field holds its own recomputed checksum exactly when the bytes verify and the
      stored value is not a negative zero. */
  lemma StoredChecksumIsFixed(s: seq<byte>, i: nat)
    requires i + 1 < |s| && i % 2 == 0
    ensures var cleared := SetWord(s, i, 0);
            Checksum(cleared) == WordAt(s, i)
            <==> Checksum(s) == 0 && !(WordAt(s, i) == 0xffff && Wrap(WordSum(cleared)) > 0)
  {
    hide WordSum, Checksum;
    var cleared := SetWord(s, i, 0);
    if Checksum(cleared) == WordAt(s, i) {
      assert Checksum(s) == 0 by {
        RestoreWord(s, i);
        StoringChecksumVerifies(cleared, i);
      }
    }
    if Checksum(s) == 0 {
      RecomputingVerified(s, i);
    }
  }

  /** Bytes that verify under the code also do under the reference exactly when the accumulator
      wrapped a multiple of 0xffff times, in particular when it did not wrap. */
  lemma ReceiverAgrees(s: seq<byte>)
    requires Checksum(s) == 0
    ensures OnesComplementSum(0, s) == 0xffff <==> WordSum(s) / 0x1_0000_0000 % 0xffff == 0
  {
    hide WordSum, OnesComplementSum, Norm, Wrap;
    var n := WordSum(s);
    ZeroIsItsOwnNorm();
    OnesComplementSumNorm(0, s);
    ZeroChecksum(s);
    SameNorm(Wrap(n), n);
    WrapIsRemainder(n);
    WrapResidue(n);
  }

  lemma RestoreWord(s: seq<byte>, i: nat)
    requires i + 1 < |s|
    ensures SetWord(SetWord(s, i, 0), i, WordAt(s, i)) == s
  {
    WordParts(s[i], s[i + 1]);
  }

  /** A checksum computed while another word still held an old value verifies, once that word has
      been replaced, exactly when the change of the word makes up for the change in the number of
      times the accumulator wraps, modulo 0xffff. */
  lemma StaleWord(s: seq<byte>, i: nat, stored: seq<byte>, j: nat, v: u16)
    requires i + 1 < |s| && i % 2 == 0 && j + 1 < |s| && j % 2 == 0 && i != j
    requires WordAt(s, i) == 0 && stored == SetWord(s, i, Checksum(s))
    ensures var a, b := WordSum(stored), WordSum(SetWord(stored, j, v));
            Checksum(SetWord(stored, j, v)) == 0
            <==> Wrap(b) > 0 && (v - WordAt(s, j) - (b / 0x1_0000_0000 - a / 0x1_0000_0000)) % 0xffff == 0
  {
    hide WordSum, SetWord, WordAt, Checksum, Wrap;
    StoringChecksumVerifies(s, i);
    OtherWord(s, i, Checksum(s), j);
    WordSumSetWord(stored, j, v);
    ZeroChecksum(stored);
    ZeroChecksum(SetWord(stored, j, v));
    ResidueOfChange(WordSum(stored), WordSum(SetWord(stored, j, v)));
  }

  /** Without wrapping, exactly when the two values agree modulo 0xffff. */
  lemma StaleWordInBound(s: seq<byte>, i: nat, stored: seq<byte>, j: nat, v: u16)
    requires |s| <= MAX_EXACT && i + 1 < |s| && i % 2 == 0 && j + 1 < |s| && j % 2 == 0 && i != j
    requires WordAt(s, i) == 0 && stored == SetWord(s, i, Checksum(s))
    requires WordSum(SetWord(stored, j, v)) > 0
    ensures Checksum(SetWord(stored, j, v)) == 0 <==> WordAt(s, j) % 0xffff == v % 0xffff
  {
    hide SetWord, WordAt, Checksum;
    StaleWord(s, i, stored, j, v);
    ChecksumIsNorm(stored);
    ChecksumIsNorm(SetWord(stored, j, v));
    SameResidue(v, WordAt(s, j));
  }

  lemma OtherWord(s: seq<byte>, i: nat, v: u16, j: nat)
    requires i + 1 < |s| && i % 2 == 0 && j + 1 < |s| && j % 2 == 0 && i != j
    ensures WordAt(SetWord(s, i, v), j) == WordAt(s, j)
  {}

  lemma ResidueOfChange(a: nat, b: nat)
    requires Wrap(a) % 0xffff == 0
    ensures Wrap(b) % 0xffff == 0 <==> (b - a - (b / 0x1_0000_0000 - a / 0x1_0000_0000)) % 0xffff == 0
  {
    hide Wrap;
    WrapIsRemainder(a);
    WrapIsRemainder(b);
    var wraps, x := b / 0x1_0000_0000 - a / 0x1_0000_0000, Wrap(a) / 0xffff;
    assert Wrap(b) == (b - a - wraps) + 0xffff * (x - 0x1_0001 * wraps);
    AddMultiple(x - 0x1_0001 * wraps, b - a - wraps);
  }

  lemma AddMultiple(k: int, e: int)
    ensures (e + 0xffff * k) % 0xffff == 0 <==> e % 0xffff == 0
  {}

  lemma SameResidue(a: u16, b: u16)
    ensures (a - b) % 0xffff == 0 <==> b % 0xffff == a % 0xffff
  {}
}
