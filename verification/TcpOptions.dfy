/** TCP options: src/layer/tcp/options.rs. */
module TcpOptions {
  import opened Bytes
  import opened Codecs

  datatype SackData = SackData(begin: u32, end: u32)
  datatype TimestampData = TimestampData(start: u32, end: u32)

  datatype TcpOption =
    | Eol
    | Nop
    | Mss(length: byte, size: u16)
    | WScale(length: byte, shift: byte)
    | SackOk(length: byte)
    | Sack(length: byte, blocks: seq<SackData>)
    | Timestamp(length: byte, stamp: TimestampData)

  // ----- Writing and reading -----

  function SackDataBytes(d: SackData): seq<byte> {
    Quad(d.begin) + Quad(d.end)
  }

  function ParseSackData(s: seq<byte>): Parsed<SackData> {
    if |s| < 8 then Failed
    else Parsed(SackData(QuadOf(s[0], s[1], s[2], s[3]), QuadOf(s[4], s[5], s[6], s[7])), s[8..])
  }

  function OptionId(o: TcpOption): byte {
    match o
    case Eol => 0x00
    case Nop => 0x01
    case Mss(_, _) => 0x02
    case WScale(_, _) => 0x03
    case SackOk(_) => 0x04
    case Sack(_, _) => 0x05
    case Timestamp(_, _) => 0x08
  }

  /** What follows the id and length bytes. */
  function BodyBytes(o: TcpOption): seq<byte>
    requires !o.Eol? && !o.Nop?
  {
    match o
    case Mss(_, size) => Word(size)
    case WScale(_, shift) => [shift]
    case SackOk(_) => []
    case Sack(_, blocks) => WriteAll(SackDataBytes, blocks)
    case Timestamp(_, stamp) => SackDataBytes(SackData(stamp.start, stamp.end))
  }

  /** The stored length is written verbatim. */
  function OptionBytes(o: TcpOption): (s: seq<byte>)
    ensures |s| > 0
  {
    if o.Eol? || o.Nop? then [OptionId(o)] else [OptionId(o), o.length] + BodyBytes(o)
  }

  function OptionsBytes(os: seq<TcpOption>): seq<byte> {
    WriteAll(OptionBytes, os)
  }

  function ParseOption(s: seq<byte>): Parsed<TcpOption> {
    if |s| == 0 then Failed
    else if s[0] == 0x00 then Parsed(Eol, s[1..])
    else if s[0] == 0x01 then Parsed(Nop, s[1..])
    else if |s| < 2 then Failed
    else ParseBody(s[0], s[1], s[2..])
  }

  /** An option past its id and length bytes. The length matters to a selective
      acknowledgement only, which holds (length - 2) / 8 blocks, rounded down. */
  function ParseBody(id: byte, length: byte, s: seq<byte>): Parsed<TcpOption> {
    if id == 0x02 then
      if |s| < 2 then Failed else Parsed(Mss(length, WordOf(s[0], s[1])), s[2..])
    else if id == 0x03 then
      if |s| < 1 then Failed else Parsed(WScale(length, s[0]), s[1..])
    else if id == 0x04 then Parsed(SackOk(length), s)
    else if id == 0x05 then
      if length < 2 then Failed
      else
        match ReadCount(ParseSackData, s, (length - 2) / 8)
        case Failed => Failed
        case Parsed(blocks, rest) => Parsed(Sack(length, blocks), rest)
    else if id == 0x08 then
      match ParseSackData(s)
      case Failed => Failed
      case Parsed(d, rest) => Parsed(Timestamp(length, TimestampData(d.begin, d.end)), rest)
    else Failed
  }

  function ParseOptions(s: seq<byte>, budget: nat): Parsed<seq<TcpOption>> {
    OptionCodec();
    ReadBytes(ParseOption, s, budget)
  }

  // ----- Round trips -----

  predicate Consistent(o: TcpOption) {
    o.Sack? ==> o.length >= 2 && |o.blocks| == (o.length - 2) / 8
  }

  predicate AllConsistent(os: seq<TcpOption>) {
    AllAccepted(Consistent, os)
  }

  predicate AnySackData(d: SackData) {
    true
  }

  lemma SackDataCodec()
    ensures IsCodec(ParseSackData, SackDataBytes, AnySackData)
  {
    forall s | ParseSackData(s).Parsed?
      ensures s == SackDataBytes(ParseSackData(s).value) + ParseSackData(s).rest
    {
      QuadOfRoundTrip(s[0], s[1], s[2], s[3]);
      QuadOfRoundTrip(s[4], s[5], s[6], s[7]);
      assert s == [s[0], s[1], s[2], s[3]] + [s[4], s[5], s[6], s[7]] + s[8..];
    }
    forall d: SackData, tail: seq<byte>
      ensures ParseSackData(SackDataBytes(d) + tail) == Parsed(d, tail)
    {
      SackDataPrintParse(d, tail);
    }
  }

  lemma SackDataPrintParse(d: SackData, tail: seq<byte>)
    ensures ParseSackData(SackDataBytes(d) + tail) == Parsed(d, tail)
  {
    var s := SackDataBytes(d) + tail;
    var tail' := Quad(d.end) + tail;
    assert s == Quad(d.begin) + tail';
    QuadThen(d.begin, tail');
    QuadThen(d.end, tail);
    assert s[4..][4..] == s[8..];
  }

  /** The option whose id and length are given and whose body fills s up to the rest. */
  ghost predicate ReadBody(id: byte, length: byte, s: seq<byte>, o: TcpOption, rest: seq<byte>) {
    && Consistent(o) && !o.Eol? && !o.Nop?
    && OptionId(o) == id && o.length == length && s == BodyBytes(o) + rest
  }

  lemma BodyParsePrint(id: byte, length: byte, s: seq<byte>)
    requires ParseBody(id, length, s).Parsed?
    ensures ReadBody(id, length, s, ParseBody(id, length, s).value, ParseBody(id, length, s).rest)
  {
    if id == 0x02 {
      WordOfRoundTrip(s[0], s[1]);
      assert s == [s[0], s[1]] + s[2..];
    } else if id == 0x05 {
      SackParsePrint(length, s);
    } else if id == 0x08 {
      SackDataCodec();
      assert s == SackDataBytes(ParseSackData(s).value) + ParseSackData(s).rest;
    }
  }

  lemma BodyPrintParse(o: TcpOption, tail: seq<byte>)
    requires Consistent(o) && !o.Eol? && !o.Nop?
    ensures ParseBody(OptionId(o), o.length, BodyBytes(o) + tail) == Parsed(o, tail)
  {
    hide Word, WordOf, Quad, QuadOf, SackDataBytes, ParseSackData;
    match o
    case Mss(_, size) => WordThen(size, tail);
    case WScale(_, _) =>
    case SackOk(_) => assert [] + tail == tail;
    case Sack(_, blocks) => SackPrintParse(blocks, tail);
    case Timestamp(_, stamp) => SackDataPrintParse(SackData(stamp.start, stamp.end), tail);
  }

  lemma SackParsePrint(length: byte, s: seq<byte>)
    requires length >= 2 && ReadCount(ParseSackData, s, (length - 2) / 8).Parsed?
    ensures var r := ReadCount(ParseSackData, s, (length - 2) / 8);
            |r.value| == (length - 2) / 8 && s == WriteAll(SackDataBytes, r.value) + r.rest
  {
    SackDataCodec();
    ReadCountWrite(ParseSackData, SackDataBytes, AnySackData, s, (length - 2) / 8);
  }

  lemma SackPrintParse(blocks: seq<SackData>, tail: seq<byte>)
    ensures ReadCount(ParseSackData, WriteAll(SackDataBytes, blocks) + tail, |blocks|) == Parsed(blocks, tail)
  {
    SackDataCodec();
    WriteReadCount(ParseSackData, SackDataBytes, AnySackData, blocks, tail);
  }

  lemma OptionParsePrint(s: seq<byte>)
    requires ParseOption(s).Parsed?
    ensures var r := ParseOption(s);
            s == OptionBytes(r.value) + r.rest && Consistent(r.value) && |r.rest| < |s|
  {
    hide ParseBody, BodyBytes;
    if s[0] > 0x01 {
      BodyParsePrint(s[0], s[1], s[2..]);
      assert s == [s[0], s[1]] + s[2..];
    }
  }

  lemma OptionPrintParse(o: TcpOption, tail: seq<byte>)
    requires Consistent(o)
    ensures ParseOption(OptionBytes(o) + tail) == Parsed(o, tail)
  {
    var s := OptionBytes(o) + tail;
    if o.Eol? || o.Nop? {
      assert s[1..] == tail;
    } else {
      assert s[2..] == BodyBytes(o) + tail;
      BodyPrintParse(o, tail);
    }
  }

  lemma OptionCodec()
    ensures Productive(ParseOption) && IsCodec(ParseOption, OptionBytes, Consistent)
  {
    forall s | ParseOption(s).Parsed?
      ensures Consistent(ParseOption(s).value) && |ParseOption(s).rest| < |s|
      ensures s == OptionBytes(ParseOption(s).value) + ParseOption(s).rest
    {
      OptionParsePrint(s);
    }
    forall o, tail | Consistent(o)
      ensures ParseOption(OptionBytes(o) + tail) == Parsed(o, tail)
    {
      OptionPrintParse(o, tail);
    }
  }

  /** A readable option list consumed exactly its budget, and writing it gives those bytes back. */
  lemma OptionsParsePrint(s: seq<byte>, budget: nat)
    requires ParseOptions(s, budget).Parsed?
    ensures var r := ParseOptions(s, budget);
            && AllConsistent(r.value)
            && s == OptionsBytes(r.value) + r.rest
            && |OptionsBytes(r.value)| == budget
  {
    OptionCodec();
    ReadBytesWrite(ParseOption, OptionBytes, Consistent, s, budget);
  }

  /** Reading the written list with its own size as budget returns the list and the tail. */
  lemma OptionsPrintParse(os: seq<TcpOption>, tail: seq<byte>)
    requires AllConsistent(os)
    ensures ParseOptions(OptionsBytes(os) + tail, |OptionsBytes(os)|) == Parsed(os, tail)
  {
    OptionCodec();
    WriteReadBytes(ParseOption, OptionBytes, Consistent, os, tail);
  }

  /** Consistent option lists are uniquely decodable. */
  lemma OptionsInjective(a: seq<TcpOption>, b: seq<TcpOption>)
    requires AllConsistent(a) && AllConsistent(b)
    requires OptionsBytes(a) == OptionsBytes(b)
    ensures a == b
  {
    OptionsPrintParse(a, []);
    OptionsPrintParse(b, []);
  }

  // ----- What is on the wire -----

  /** The printed form of each option: its id, its stored length, and its data. */
  lemma OptionLayout(o: TcpOption)
    ensures OptionBytes(o)
            == match o
               case Eol => [0x00]
               case Nop => [0x01]
               case Mss(length, size) => [0x02, length] + Word(size)
               case WScale(length, shift) => [0x03, length, shift]
               case SackOk(length) => [0x04, length]
               case Sack(length, blocks) => [0x05, length] + SackBytes(blocks)
               case Timestamp(length, stamp) => [0x08, length] + Quad(stamp.start) + Quad(stamp.end)
  {
    hide Word, Quad;
    match o
    case Sack(_, blocks) => SackLayout(blocks);
    case Timestamp(length, stamp) => Assoc([0x08, length], Quad(stamp.start), Quad(stamp.end));
    case _ =>
  }

  /** Each block is its begin and then its end. */
  function SackBytes(blocks: seq<SackData>): seq<byte> {
    if |blocks| == 0 then [] else Quad(blocks[0].begin) + Quad(blocks[0].end) + SackBytes(blocks[1..])
  }

  lemma {:induction false} SackLayout(blocks: seq<SackData>)
    ensures WriteAll(SackDataBytes, blocks) == SackBytes(blocks)
  {
    hide Quad;
    if |blocks| > 0 {
      SackLayout(blocks[1..]);
    }
  }

  /** The bytes that begin with an option: a known id, and behind the length byte as much data as the
      id, or for selective acknowledgements the length, asks for. */
  predicate Readable(s: seq<byte>) {
    |s| >= 1 &&
    (|| s[0] == 0x00 || s[0] == 0x01
     || (s[0] == 0x02 && |s| >= 4)
     || (s[0] == 0x03 && |s| >= 3)
     || (s[0] == 0x04 && |s| >= 2)
     || (s[0] == 0x05 && |s| >= 2 && s[1] >= 2 && |s| >= 2 + 8 * ((s[1] - 2) / 8))
     || (s[0] == 0x08 && |s| >= 10))
  }

  /** An option is read exactly from such bytes; other ids and truncated options are errors. */
  lemma OptionReadable(s: seq<byte>)
    ensures ParseOption(s).Parsed? <==> Readable(s)
  {
    hide WordOf, QuadOf;
    if |s| >= 2 && s[0] == 0x05 && s[1] >= 2 {
      SacksReadable(s[2..], (s[1] - 2) / 8);
    }
  }

  lemma {:induction false} SacksReadable(s: seq<byte>, count: nat)
    ensures ReadCount(ParseSackData, s, count).Parsed? <==> |s| >= 8 * count
    decreases count
  {
    hide QuadOf;
    if count > 0 && |s| >= 8 {
      SacksReadable(s[8..], count - 1);
    }
  }

  // ----- Padding -----

  function Eols(n: nat): (os: seq<TcpOption>)
    ensures |os| == n
  {
    seq(n, _ => Eol)
  }

  lemma {:induction false} EolsBytes(n: nat)
    ensures |OptionsBytes(Eols(n))| == n
    ensures forall i :: 0 <= i < n ==> OptionsBytes(Eols(n))[i] == 0x00
  {
    if n > 0 {
      EolsBytes(n - 1);
      assert Eols(n)[1..] == Eols(n - 1);
    }
  }
}
