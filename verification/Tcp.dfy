/** The TCP header: src/layer/tcp/mod.rs. */
module TcpHeader {
  import opened Bytes
  import opened TcpOptions

  datatype TcpFlags = TcpFlags(
    reserved: u3, nonce: u1, crw: u1, ecn: u1, urgent: u1, ack: u1, push: u1, reset: u1, syn: u1, fin: u1)

  const NO_FLAGS := TcpFlags(0, 0, 0, 0, 0, 0, 0, 0, 0, 0)

  datatype Tcp = Tcp(
    sport: u16, dport: u16, sequence: u32, acknowledgment: u32, offset: byte, flags: TcpFlags,
    window: u16, checksum: u16, urgptr: u16, options: seq<TcpOption>)

  const DEFAULT_TCP := Tcp(0, 0, 0, 0, 5, NO_FLAGS, 0, 0, 0, [])

  // ----- The twelve flag bits -----

  function SingleBits(f: TcpFlags): seq<u1> {
    [f.nonce, f.crw, f.ecn, f.urgent, f.ack, f.push, f.reset, f.syn, f.fin]
  }

  function FlagBits(f: TcpFlags): (n: nat)
    ensures n < 0x1000
  {
    assert Pow2(9) == 0x200;
    f.reserved * 0x200 + BitsValue(SingleBits(f))
  }

  function FlagsOf(n: nat): TcpFlags
    requires n < 0x1000
  {
    var b := Bits(n % 0x200, 9);
    TcpFlags(n / 0x200, b[0], b[1], b[2], b[3], b[4], b[5], b[6], b[7], b[8])
  }

  lemma FlagsRoundTrip(f: TcpFlags)
    ensures FlagsOf(FlagBits(f)) == f
  {
    hide Bits, BitsValue;
    BitsRoundTrip(SingleBits(f));
    assert Pow2(9) == 0x200;
    assert FlagBits(f) % 0x200 == BitsValue(SingleBits(f));
  }

  lemma FlagBitsRoundTrip(n: nat)
    requires n < 0x1000
    ensures FlagBits(FlagsOf(n)) == n
  {
    assert Pow2(9) == 0x200;
    BitsValueRoundTrip(n % 0x200, 9);
    assert SingleBits(FlagsOf(n)) == Bits(n % 0x200, 9);
  }

  // ----- Writing and reading -----

  /** The four-bit offset field takes the low bits of the offset. */
  function OffsetWord(offset: byte, flags: TcpFlags): u16 {
    offset % 16 * 0x1000 + FlagBits(flags)
  }

  /** The fixed part as ten words. */
  function TcpWords(t: Tcp): (ws: seq<u16>)
    ensures |ws| == 10
  {
    [t.sport, t.dport, High(t.sequence), Low(t.sequence), High(t.acknowledgment), Low(t.acknowledgment),
     OffsetWord(t.offset, t.flags), t.window, t.checksum, t.urgptr]
  }

  function TcpBytes(t: Tcp): (s: seq<byte>)
    ensures |s| == 20 + |OptionsBytes(t.options)|
  {
    WordsBytes(TcpWords(t)) + OptionsBytes(t.options)
  }

  function TcpOf(ws: seq<u16>, options: seq<TcpOption>): Tcp
    requires |ws| == 10
  {
    Tcp(ws[0], ws[1], Join(ws[2], ws[3]), Join(ws[4], ws[5]), ws[6] / 0x1000, FlagsOf(ws[6] % 0x1000),
        ws[7], ws[8], ws[9], options)
  }

  function ParseTcp(s: seq<byte>): Parsed<Tcp> {
    if |s| < 20 then Failed
    else
      var ws := BytesWords(s[..20]);
      var offset := ws[6] / 0x1000;
      if offset < 5 then Failed
      else
        match ParseOptions(s[20..], (offset - 5) * 4)
        case Failed => Failed
        case Parsed(options, rest) => Parsed(TcpOf(ws, options), rest)
  }

  /** The headers a reader can produce: the offset counts the words of the header. */
  predicate WellFormedTcp(t: Tcp) {
    5 <= t.offset < 16 && |TcpBytes(t)| == 4 * t.offset && AllConsistent(t.options)
  }

  lemma OffsetWordSplit(offset: u4, flags: TcpFlags)
    ensures OffsetWord(offset, flags) / 0x1000 == offset
    ensures OffsetWord(offset, flags) % 0x1000 == FlagBits(flags)
  {
    NibbleSplit(offset, FlagBits(flags));
  }

  lemma OffsetWordJoin(w: u16, flags: TcpFlags)
    requires FlagBits(flags) == w % 0x1000
    ensures OffsetWord(w / 0x1000, flags) == w
  {
    NibbleJoin(w);
  }

  lemma NibbleSplit(a: u4, n: nat)
    requires n < 0x1000
    ensures (a % 16 * 0x1000 + n) / 0x1000 == a && (a % 16 * 0x1000 + n) % 0x1000 == n
  {}

  lemma NibbleJoin(w: u16)
    ensures w / 0x1000 % 16 * 0x1000 + w % 0x1000 == w
  {}

  lemma WordsOfTcp(ws: seq<u16>, options: seq<TcpOption>)
    requires |ws| == 10
    ensures TcpWords(TcpOf(ws, options)) == ws
  {
    SplitJoin(ws[2], ws[3]);
    SplitJoin(ws[4], ws[5]);
    FlagBitsRoundTrip(ws[6] % 0x1000);
    OffsetWordJoin(ws[6], FlagsOf(ws[6] % 0x1000));
  }

  lemma TcpOfWords(t: Tcp)
    requires t.offset < 16
    ensures TcpOf(TcpWords(t), t.options) == t
  {
    FlagsRoundTrip(t.flags);
    OffsetWordSplit(t.offset, t.flags);
  }

  /** A successful read consumes exactly four times the offset, and writing reproduces the bytes. */
  lemma TcpParsePrint(s: seq<byte>)
    requires ParseTcp(s).Parsed?
    ensures var Parsed(t, rest) := ParseTcp(s);
            && WellFormedTcp(t)
            && s == TcpBytes(t) + rest
            && |s| - |rest| == 4 * t.offset >= 20
  {
    hide WordsBytes, BytesWords, FlagsOf, FlagBits, OffsetWord, ParseOptions, OptionsBytes;
    var ws := BytesWords(s[..20]);
    var Parsed(t, rest) := ParseTcp(s);
    WordsOfTcp(ws, t.options);
    BytesRoundTrip(s[..20]);
    OptionsParsePrint(s[20..], (t.offset - 5) * 4);
    Rejoin(s, WordsBytes(ws), OptionsBytes(t.options), rest);
  }

  lemma TcpPrintParse(t: Tcp, tail: seq<byte>)
    requires WellFormedTcp(t)
    ensures ParseTcp(TcpBytes(t) + tail) == Parsed(t, tail)
  {
    hide OptionsBytes, ParseOptions, WordsBytes, BytesWords, FlagBits, FlagsOf, TcpOf;
    var s := TcpBytes(t) + tail;
    var tail' := OptionsBytes(t.options) + tail;
    assert s == WordsBytes(TcpWords(t)) + tail';
    WordsThen(TcpWords(t), tail');
    TcpOfWords(t);
    OptionsPrintParse(t.options, tail);
    assert TcpWords(t)[6] / 0x1000 == t.offset;
  }

  /** Bytes after the header only ever reach the rest. */
  lemma TcpAppend(s: seq<byte>, more: seq<byte>)
    requires ParseTcp(s).Parsed?
    ensures ParseTcp(s + more) == Parsed(ParseTcp(s).value, ParseTcp(s).rest + more)
  {
    TcpParsePrint(s);
    var Parsed(t, rest) := ParseTcp(s);
    TcpPrintParse(t, rest + more);
    Assoc(TcpBytes(t), rest, more);
  }
}
