/** The IPv4 header and its options: src/layer/ip/ipv4.rs. */
module Ipv4Header {
  import opened Bytes
  import opened Codecs
  import opened Codes

  datatype OptionType = Eool | Nop | Other(kind: u5, length: byte, value: seq<byte>)

  /** The class takes all four two-bit values: control, reserved, debugging, reserved. */
  datatype Ipv4Option = Ipv4Option(copied: u1, group: u2, option: OptionType)

  datatype Ipv4 = Ipv4(
    version: u4, ihl: u4, dscp: u6, ecn: u2, length: u16, identification: u16, flags: u3, offset: u13,
    ttl: byte, protocol: IpProtocol, checksum: u16, src: u32, dst: u32, options: seq<Ipv4Option>)

  const DEFAULT_IPV4 := Ipv4(4, 5, 0, 0, 0, 0, 0, 0, 0, PROTOCOL_TCP, 0, 0x7F000001, 0x7F000001, [])

  // ----- Options -----

  function KindBits(o: OptionType): u5 {
    match o
    case Eool => 0
    case Nop => 1
    case Other(kind, _, _) => kind
  }

  function OptionHead(o: Ipv4Option): byte {
    o.copied * 0x80 + o.group * 0x20 + KindBits(o.option)
  }

  /** The stored length is written verbatim. */
  function OptionBytes(o: Ipv4Option): (s: seq<byte>)
    ensures |s| > 0
  {
    [OptionHead(o)] + if o.option.Other? then [o.option.length] + o.option.value else []
  }

  function OptionsBytes(os: seq<Ipv4Option>): seq<byte> {
    WriteAll(OptionBytes, os)
  }

  function ParseOptionType(kind: u5, s: seq<byte>): Parsed<OptionType> {
    if kind == 0 then Parsed(Eool, s)
    else if kind == 1 then Parsed(Nop, s)
    else if |s| < 1 || s[0] < 2 || |s| - 1 < s[0] - 2 then Failed
    else Parsed(Other(kind, s[0], s[1..s[0] - 1]), s[s[0] - 1..])
  }

  function ParseOption(s: seq<byte>): Parsed<Ipv4Option> {
    if |s| == 0 then Failed
    else
      match ParseOptionType(s[0] % 0x20, s[1..])
      case Failed => Failed
      case Parsed(o, rest) => Parsed(Ipv4Option(s[0] / 0x80, s[0] / 0x20 % 4, o), rest)
  }

  predicate ConsistentType(o: OptionType) {
    o.Other? ==> o.kind >= 2 && o.length >= 2 && |o.value| == o.length - 2
  }

  predicate Consistent(o: Ipv4Option) {
    ConsistentType(o.option)
  }

  predicate AllConsistent(os: seq<Ipv4Option>) {
    AllAccepted(Consistent, os)
  }

  lemma OptionTypeParsePrint(kind: u5, s: seq<byte>)
    requires ParseOptionType(kind, s).Parsed?
    ensures var Parsed(o, rest) := ParseOptionType(kind, s);
            && ConsistentType(o) && KindBits(o) == kind
            && s == (if o.Other? then [o.length] + o.value else []) + rest
  {}

  lemma OptionTypePrintParse(o: OptionType, tail: seq<byte>)
    requires ConsistentType(o)
    ensures ParseOptionType(KindBits(o), (if o.Other? then [o.length] + o.value else []) + tail) == Parsed(o, tail)
  {
    if o.Other? {
      var s := [o.length] + o.value + tail;
      assert s[1..o.length - 1] == o.value && s[o.length - 1..] == tail;
    } else {
      assert [] + tail == tail;
    }
  }

  lemma OptionHeadSplit(o: Ipv4Option)
    ensures var b := OptionHead(o); b / 0x80 == o.copied && b / 0x20 % 4 == o.group && b % 0x20 == KindBits(o.option)
  {}

  lemma OptionHeadJoin(b: byte, o: OptionType)
    requires KindBits(o) == b % 0x20
    ensures OptionHead(Ipv4Option(b / 0x80, b / 0x20 % 4, o)) == b
  {
    hide KindBits;
    var top := b / 0x20;
    assert b / 0x80 == top / 4 && b == top * 0x20 + b % 0x20;
  }

  lemma OptionParsePrint(s: seq<byte>)
    requires ParseOption(s).Parsed?
    ensures var Parsed(o, rest) := ParseOption(s);
            s == OptionBytes(o) + rest && Consistent(o) && |rest| < |s|
  {
    hide ParseOptionType, OptionHead, KindBits, ConsistentType;
    var Parsed(o, rest) := ParseOption(s);
    OptionTypeParsePrint(s[0] % 0x20, s[1..]);
    OptionHeadJoin(s[0], o.option);
    assert s == [s[0]] + s[1..];
  }

  lemma OptionPrintParse(o: Ipv4Option, tail: seq<byte>)
    requires Consistent(o)
    ensures ParseOption(OptionBytes(o) + tail) == Parsed(o, tail)
  {
    var body := if o.option.Other? then [o.option.length] + o.option.value else [];
    var s := OptionBytes(o) + tail;
    assert s[0] == OptionHead(o) && s[1..] == body + tail;
    OptionHeadSplit(o);
    OptionTypePrintParse(o.option, tail);
  }

  /** The first byte holds the copied bit, the class and the kind, from the top; the length and the
      value follow, except behind the two kinds that have neither. */
  lemma OptionLayout(o: Ipv4Option)
    ensures var s := OptionBytes(o);
            && s[0] / 0x80 == o.copied && s[0] / 0x20 % 4 == o.group
            && match o.option
               case Eool => s[0] % 0x20 == 0 && |s| == 1
               case Nop => s[0] % 0x20 == 1 && |s| == 1
               case Other(kind, length, value) => s[0] % 0x20 == kind && s[1..] == [length] + value
  {
    hide OptionHead;
    OptionHeadSplit(o);
  }

  /** An option is read from a byte of kind 0 or 1, or where the length byte behind it covers the
      two bytes and does not reach past the end. */
  lemma OptionReadable(s: seq<byte>)
    ensures ParseOption(s).Parsed?
            <==> |s| >= 1 && (s[0] % 0x20 <= 1 || (|s| >= 2 && 2 <= s[1] <= |s|))
  {}

  lemma OptionCodec()
    ensures Productive(ParseOption) && IsCodec(ParseOption, OptionBytes, Consistent)
  {
    forall s | ParseOption(s).Parsed?
      ensures Consistent(ParseOption(s).value) && |ParseOption(s).rest| < |s|
      ensures s == OptionBytes(ParseOption(s).value) + ParseOption(s).rest
    {
      OptionParsePrint(s);
    }
    forall o, tail | Consistent(o)
      ensures ParseOption(OptionBytes(o) + tail) == Parsed(o, tail)
    {
      OptionPrintParse(o, tail);
    }
  }

  function ParseOptions(s: seq<byte>, budget: nat): Parsed<seq<Ipv4Option>> {
    OptionCodec();
    ReadBytes(ParseOption, s, budget)
  }

  lemma OptionsParsePrint(s: seq<byte>, budget: nat)
    requires ParseOptions(s, budget).Parsed?
    ensures var r := ParseOptions(s, budget);
            && AllConsistent(r.value)
            && s == OptionsBytes(r.value) + r.rest
            && |OptionsBytes(r.value)| == budget
  {
    OptionCodec();
    ReadBytesWrite(ParseOption, OptionBytes, Consistent, s, budget);
  }

  lemma OptionsPrintParse(os: seq<Ipv4Option>, tail: seq<byte>)
    requires AllConsistent(os)
    ensures ParseOptions(OptionsBytes(os) + tail, |OptionsBytes(os)|) == Parsed(os, tail)
  {
    OptionCodec();
    WriteReadBytes(ParseOption, OptionBytes, Consistent, os, tail);
  }

  // ----- The header -----

  function FirstWord(version: u4, ihl: u4, dscp: u6, ecn: u2): u16 {
    WordOf(version * 16 + ihl, dscp * 4 + ecn)
  }

  function FragmentWord(flags: u3, offset: u13): u16 {
    flags * 0x2000 + offset
  }

  function Ipv4Words(ip: Ipv4): (ws: seq<u16>)
    ensures |ws| == 10
  {
    [FirstWord(ip.version, ip.ihl, ip.dscp, ip.ecn), ip.length, ip.identification,
     FragmentWord(ip.flags, ip.offset), WordOf(ip.ttl, ip.protocol.id), ip.checksum,
     High(ip.src), Low(ip.src), High(ip.dst), Low(ip.dst)]
  }

  function Ipv4Bytes(ip: Ipv4): (s: seq<byte>)
    ensures |s| == 20 + |OptionsBytes(ip.options)|
  {
    WordsBytes(Ipv4Words(ip)) + OptionsBytes(ip.options)
  }

  function Ipv4Of(ws: seq<u16>, options: seq<Ipv4Option>): Ipv4
    requires |ws| == 10
  {
    var protocol := ws[4] % 0x100;
    Ipv4(ws[0] / 0x100 / 16, ws[0] / 0x100 % 16, ws[0] % 0x100 / 4, ws[0] % 0x100 % 4, ws[1], ws[2],
         ws[3] / 0x2000, ws[3] % 0x2000, ws[4] / 0x100, Decode(IsNamedIpProtocol(protocol), protocol), ws[5],
         Join(ws[6], ws[7]), Join(ws[8], ws[9]), options)
  }

  /** The bytes of options that a header length announces; too short a length announces none. */
  function OptionBudget(ihl: u4): nat {
    if ihl < 5 then 0 else (ihl - 5) * 4
  }

  function ParseIpv4(s: seq<byte>): Parsed<Ipv4> {
    if |s| < 20 then Failed
    else
      var ws := BytesWords(s[..20]);
      match ParseOptions(s[20..], OptionBudget(ws[0] / 0x100 % 16))
      case Failed => Failed
      case Parsed(options, rest) => Parsed(Ipv4Of(ws, options), rest)
  }

  /** The headers a reader can produce: ihl announces the options, and the enums are canonical. */
  predicate WellFormedIpv4(ip: Ipv4) {
    && |OptionsBytes(ip.options)| == OptionBudget(ip.ihl)
    && AllConsistent(ip.options)
    && CanonicalIpProtocol(ip.protocol)
  }

  lemma FirstWordSplit(version: u4, ihl: u4, dscp: u6, ecn: u2)
    ensures var w := FirstWord(version, ihl, dscp, ecn);
            && w / 0x100 / 16 == version && w / 0x100 % 16 == ihl
            && w % 0x100 / 4 == dscp && w % 0x100 % 4 == ecn
  {
    WordParts(version * 16 + ihl, dscp * 4 + ecn);
  }

  lemma FirstWordJoin(w: u16)
    ensures FirstWord(w / 0x100 / 16, w / 0x100 % 16, w % 0x100 / 4, w % 0x100 % 4) == w
  {
    WordJoin(w);
  }

  lemma OtherWordsJoin(f: u16, t: u16)
    ensures FragmentWord(f / 0x2000, f % 0x2000) == f && WordOf(t / 0x100, t % 0x100) == t
  {
    WordJoin(t);
  }

  lemma FragmentWordSplit(flags: u3, offset: u13)
    ensures FragmentWord(flags, offset) / 0x2000 == flags && FragmentWord(flags, offset) % 0x2000 == offset
  {}

  lemma WordsOfIpv4(ws: seq<u16>, options: seq<Ipv4Option>)
    requires |ws| == 10
    ensures Ipv4Words(Ipv4Of(ws, options)) == ws
  {
    FirstWordJoin(ws[0]);
    OtherWordsJoin(ws[3], ws[4]);
    SplitJoin(ws[6], ws[7]);
    SplitJoin(ws[8], ws[9]);
  }

  lemma Ipv4OfWords(ip: Ipv4)
    requires CanonicalIpProtocol(ip.protocol)
    ensures Ipv4Of(Ipv4Words(ip), ip.options) == ip
  {
    FirstWordSplit(ip.version, ip.ihl, ip.dscp, ip.ecn);
    FragmentWordSplit(ip.flags, ip.offset);
    WordParts(ip.ttl, ip.protocol.id);
  }

  /** A successful read consumes 20 bytes and the announced options, and writing reproduces them. */
  lemma Ipv4ParsePrint(s: seq<byte>)
    requires ParseIpv4(s).Parsed?
    ensures var Parsed(ip, rest) := ParseIpv4(s);
            && WellFormedIpv4(ip)
            && s == Ipv4Bytes(ip) + rest
            && |s| - |rest| == 20 + 4 * (if ip.ihl < 5 then 0 else ip.ihl - 5)
  {
    hide OptionsBytes, ParseOptions, WordsBytes, BytesWords;
    var ws := BytesWords(s[..20]);
    var Parsed(ip, rest) := ParseIpv4(s);
    OptionsParsePrint(s[20..], OptionBudget(ip.ihl));
    WordsOfIpv4(ws, ip.options);
    BytesRoundTrip(s[..20]);
    Rejoin(s, WordsBytes(ws), OptionsBytes(ip.options), rest);
  }

  lemma Ipv4PrintParse(ip: Ipv4, tail: seq<byte>)
    requires WellFormedIpv4(ip)
    ensures ParseIpv4(Ipv4Bytes(ip) + tail) == Parsed(ip, tail)
  {
    hide OptionsBytes, ParseOptions, WordsBytes, BytesWords, FirstWord, Ipv4Of;
    var s := Ipv4Bytes(ip) + tail;
    var tail' := OptionsBytes(ip.options) + tail;
    assert s == WordsBytes(Ipv4Words(ip)) + tail';
    WordsThen(Ipv4Words(ip), tail');
    Ipv4OfWords(ip);
    FirstWordSplit(ip.version, ip.ihl, ip.dscp, ip.ecn);
    OptionsPrintParse(ip.options, tail);
  }
}
