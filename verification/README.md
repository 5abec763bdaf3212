# Nata: packet codec and finalizer, verified

Nata parses bytes into a stack of protocol layers, prints a stack back to bytes, and *finalizes* a
stack: one pass over the layers, front to back, in which each layer recomputes its length, offset and
checksum fields from the layers around it. This project models the built-in layers (Ethernet, IPv4,
IPv6, TCP, UDP, ICMP, raw data), the finalization pass, the Internet checksum, and the binding-driven
packet parser, and proves what they promise together.

`dafny verify dfyconfig.toml` checks everything.

## Main results

- **Convergence.** The order of updates inside a pass makes one pass insufficient: IP lengths are taken
  before a later TCP layer is aligned, TCP and UDP checksums cover the old offset or length, and they
  cover later layers before those are finalized. Whether passes succeed depends on sizes alone: two
  passes, and then any number of them, succeed if and only if every layer fits in front of the aligned
  sizes behind it (`Convergence.EveryPassSucceeds`). Then, with k TCP and UDP layers, k + 1 passes reach
  a state that every further pass keeps (`Convergence.Converges`). Only transports directly behind IP
  carry a checksum over other layers: with j of them j + 2 passes are enough, and j + 1 when every TCP
  header is aligned (`Convergence.ConvergesSooner`). Both bounds are exact: for every k up to 2340, k
  nested datagrams still change in pass k + 1, and for every j up to 2339, j nested datagrams around an
  unaligned TCP header still change in pass j + 2 (`Tightness.BoundIsReached`,
  `Tightness.SoonerBoundIsReached`).
- **Fixed points.** A pass changes nothing if and only if every length and offset is the true size,
  every checksum verifies, and none is the second representation of zero (`FixedPoint.FixedPoints`).
  So after k + 1 passes everything a receiver checks is right (`PassProperties.ConvergedPacketVerifies`).
  If everything verifies but some checksum is that second zero, a pass rewrites it to 0, changes nothing
  else, and reaches a fixed point (`NegativeZero.PassOfVerified`). A receiver that adds with end-around
  carry and no bound accepts every such stack, but for an ICMP message whose sum wrapped the code's
  accumulator; there the exact condition is given (`Receiver.ReceiverAccepts`).
- **One pass, exactly.** A TCP layer verifies after one pass iff its offset was already right; a UDP
  layer iff its old length agrees with the true one modulo 65535 (`OnePass.OnePassTcp`,
  `OnePass.OnePassUdp`). The repository's own introduction suggests that one call of
  `finalize` fills in the checksums; the code does so only under these conditions, and the model follows
  the code.
- **Round trips.** Whatever the default bindings parse is printed back byte for byte, with nothing left
  over and at most four layers (`DefaultBindings.ParseThenPrint`). One successful pass makes a stack
  that the bindings can follow survive printing and parsing, layer for layer, if its fields other than
  the dependent ones are canonical and its TCP headers have at most 60 bytes once aligned
  (`DefaultBindings.FinalizePrintParse`).
- **On the wire.** Every header and option is given byte by byte with literal numbers (`Layout`,
  `TcpOptions.OptionLayout`, `Ipv4Header.OptionLayout`), and with the round trips this fixes the readers as
  well. A parsed packet follows the type and protocol numbers in its bytes (`DefaultBindings.ParsedKinds`),
  and from any received TCP segment that states its true size the server example recovers exactly the
  payload, whatever options and link padding it carries (`SpoofServer.ReceivedPayload`).
- **Checksum.** The 32-bit accumulator with two folds is word-by-word end-around-carry addition exactly
  when it does not wrap, or wraps a multiple of 65535 times without ending at zero
  (`InternetChecksum.ExactWhen`). So it is right on all inputs of a length iff the length is at most 131074
  bytes (`InternetChecksum.BoundIsTight`); a finalization pass never exceeds that when every ICMP layer is
  behind an IP layer.
- **Parsing with any bindings.** The loop is specified for every registry on which it ends, also one whose
  readers consume nothing (`PacketParsing.PacketParser.ParsePacket`). It ends when each step consumes input
  or lowers a rank of the layer's kind (`PacketParsing.RankedTerminates`), which covers the introductory
  example of `bind_layer` (`PacketParsing.OneWayBinding`).

## Reading the model

- Layers are values, as the boxes a Rust packet owns; `Packet` and `PacketParser` are classes whose
  fields the methods reassign. `finalize` of a layer is a method of `LayerFinalize`, which performs the
  updates in the order of the source on local values and is proved equal to a function of `FinalizeSpec`.
  Lemmas about passes are about those functions.
- `Below` is what a transport layer reads from the layer in front of it: nothing, no IP header, or the
  addresses and protocol of an IPv4 or IPv6 header.
- A failed pass is part of the model: every step says what it left behind.
- The deku library prints and reads the bit fields. Its meaning is taken from the field attributes and
  from the read/write cases next to the layers: a list with a byte budget is readable only if its
  elements fill the budget exactly, and a catch-all enum variant stores the id it read. Bit fields hold
  values of their width. The exception is the TCP offset, a byte that `finalize` may set above 15; the
  model prints its low four bits. Should the library refuse such a value instead, the pass fails, and the
  results about successful passes are unaffected.
- An enum variant with a table entry is `Named(id)`; the tables hold all ids of the source.
- The wrap-around of the checksum accumulator is modelled (`Wrap`). An overflow-checked build stops there
  instead; `PassProperties.PassNeverWraps` says when the two agree.

## Model

| member | source | states |
|---|---|---|
| `InternetChecksum.ComputeChecksum` | src/layer/ip/mod.rs:14-27 | the loop over words, the two folds and the complement compute the negated sum, reduced as a wrapping 32-bit accumulator reduces it |
| `InternetChecksum.TwoFoldsSuffice` | src/layer/ip/mod.rs:25-26 | two folds bring every 32-bit sum to its 16-bit representative modulo 65535, so the cast loses nothing |
| `InternetChecksum.ChecksumRefinesOnesComplement` | src/layer/ip/mod.rs:14-27 | up to 131074 bytes no prefix overflows and the result is the complement of word-by-word end-around-carry addition |
| `InternetChecksum.ExactWhen` | src/layer/ip/mod.rs:14-27 | on any input, the result is the complement of end-around-carry addition iff the word sum is below 2^32, or wraps a multiple of 65535 times without ending at zero |
| `InternetChecksum.BoundIsTight` | src/layer/ip/mod.rs:15-23 | the result is right on all inputs of a length iff the length is at most 131074 |
| `InternetChecksum.StoringChecksumVerifies` | src/layer/ip/mod.rs:14-27 | storing the result in the zeroed even-offset field makes the checksum of the whole zero, at any length: completing a wrapped sum never wraps again |
| `InternetChecksum.RecomputingVerified` | src/layer/ip/mod.rs:25-26 | recomputing a verifying checksum gives it back, except that 0xffff over words whose accumulated sum is not zero becomes 0 |
| `InternetChecksum.StoredChecksumIsFixed` | src/layer/ip/mod.rs:14-27 | at any length, a stored checksum equals its recomputation iff the bytes verify and it is not that exception |
| `InternetChecksum.ReceiverAgrees` | src/layer/ip/mod.rs:14-27 | bytes that verify under the code also verify by end-around-carry addition iff their sum wraps a multiple of 65535 times |
| `InternetChecksum.StaleWord` | src/layer/ip/mod.rs:14-27 | a checksum computed over an old word verifies after the word is replaced iff the change of the word makes up, modulo 65535, for the change in the number of wraps; at any length |
| `InternetChecksum.StaleWordInBound` | src/layer/ip/mod.rs:14-27 | up to 131074 bytes, iff both words agree modulo 65535 |
| `Bytes.BigEndianAt` | src/layer/ip/ipv6.rs:44-67 | byte k of a big-endian field of w bytes is the digit of weight 256^(w - 1 - k) |
| `Bytes.QuadBytes` | src/layer/tcp/mod.rs:63-83 | a 32-bit field is written most significant byte first |
| `TcpOptions.OptionParsePrint` | src/layer/tcp/options.rs:29-56 | a parsed option is consistent, consumed at least one byte, and prints to what was consumed |
| `TcpOptions.OptionPrintParse` | src/layer/tcp/options.rs:29-56 | a consistent option is read back from its bytes whatever follows |
| `TcpOptions.OptionsParsePrint` | src/layer/tcp/mod.rs:100-103 | a readable option list fills its byte budget exactly and prints to those bytes |
| `TcpOptions.OptionsPrintParse` | src/layer/tcp/options.rs:29-56 | reading a printed list with its size as budget returns the list and the tail |
| `TcpOptions.OptionsInjective` | src/layer/tcp/options.rs:29-56 | consistent lists that print to the same bytes are equal, although the block count rounds down |
| `TcpOptions.OptionLayout` | src/layer/tcp/options.rs:29-56 | the id, the stored length and the data of all seven options, with literal ids; blocks as begin, end |
| `TcpOptions.OptionReadable` | src/layer/tcp/options.rs:29-56 | an option is read iff the id is known and the data it asks for is there; a selective acknowledgement asks for (length - 2) / 8 blocks of eight bytes |
| `TcpHeader.FlagsRoundTrip` | src/layer/tcp/mod.rs:21-44 | the twelve flag bits are unpacked as they were packed |
| `TcpHeader.TcpParsePrint` | src/layer/tcp/mod.rs:85-104 | a parse consumes exactly four times the offset, at least 20 bytes, and printing reproduces them |
| `TcpHeader.TcpPrintParse` | src/layer/tcp/mod.rs:250-261 | a header whose offset counts its words is read back from its bytes whatever follows |
| `TcpHeader.TcpAppend` | src/layer/tcp/mod.rs:250-257 | appending bytes to the input changes the rest and nothing else |
| `Ipv4Header.OptionParsePrint` | src/layer/ip/ipv4.rs:34-76 | a parsed option prints to what was consumed, header bits and length-driven value included |
| `Ipv4Header.OptionPrintParse` | src/layer/ip/ipv4.rs:34-76 | a consistent option is read back from its bytes whatever follows |
| `Ipv4Header.OptionLayout` | src/layer/ip/ipv4.rs:13-76 | copied bit, class and kind from the top of the first byte; then length and value, except for kinds 0 and 1 |
| `Ipv4Header.OptionReadable` | src/layer/ip/ipv4.rs:34-76 | an option is read iff its kind is 0 or 1, or its length byte is at least 2 and does not reach past the end |
| `Ipv4Header.Ipv4ParsePrint` | src/layer/ip/ipv4.rs:99-137 | a parse consumes 20 + 4 * max(ihl - 5, 0) bytes and printing reproduces them |
| `Ipv4Header.Ipv4PrintParse` | src/layer/ip/ipv4.rs:196-207 | a header whose ihl announces its options is read back from its bytes |
| `Ipv6Header.Ipv6ParsePrint` | src/layer/ip/ipv6.rs:44-67 | a parsed header prints to the bytes it came from |
| `Ipv6Header.Ipv6PrintParse` | src/layer/ip/ipv6.rs:98-109 | a header with a canonical next header is read back from its bytes |
| `SimpleHeaders.UdpParsePrint` | src/layer/udp/mod.rs:27-36 | a parsed header prints to the bytes it came from |
| `SimpleHeaders.UdpPrintParse` | src/layer/udp/mod.rs:151-162 | every header is read back from its bytes |
| `SimpleHeaders.IcmpParsePrint` | src/layer/icmp/mod.rs:30-42 | a parsed message, data included, prints to its whole input |
| `SimpleHeaders.IcmpPrintParse` | src/layer/icmp/mod.rs:74-85 | a message with a canonical type is read back |
| `SimpleHeaders.EtherParsePrint` | src/layer/ether/mod.rs:43-52 | a parsed header prints to the bytes it came from |
| `SimpleHeaders.EtherPrintParse` | src/layer/ether/mod.rs:61-72 | a header with a canonical type is read back |
| `Layout.TcpLayout` | src/layer/tcp/mod.rs:63-83 | each TCP field and flag bit is where the header diagram puts it; of an offset above 15 the low four bits are written |
| `Layout.Ipv4Layout` | src/layer/ip/ipv4.rs:81-97 | each IPv4 field is where the header diagram puts it |
| `Layout.Ipv6Layout` | src/layer/ip/ipv6.rs:16-40 | each IPv6 field is where the header diagram puts it |
| `Layout.UdpLayout` | src/layer/udp/mod.rs:15-23 | each UDP field is where the header diagram puts it |
| `Layout.IcmpLayout` | src/layer/icmp/mod.rs:16-26 | each ICMP field is where the header diagram puts it |
| `Layout.EtherLayout` | src/layer/ether/mod.rs:23-52 | destination, source, then type |
| `Layout.PseudoHeaderOfIpv4` | src/layer/tcp/mod.rs:149-167 | the pseudo header repeats the address and protocol bytes of the IPv4 header, a zero byte and a 16-bit length |
| `Layout.PseudoHeaderOfIpv6` | src/layer/tcp/mod.rs:126-144 | the pseudo header repeats the address and next-header bytes of the IPv6 header, a 32-bit length and three zero bytes |
| `Layout.CoveredOverIpv4` | src/layer/tcp/mod.rs:149-235 | a transport checksum covers the address bytes of the IPv4 header, a zero, its protocol byte, the segment length, and the segment, in this order |
| `Layout.CoveredOverIpv6` | src/layer/tcp/mod.rs:126-235 | over IPv6: address bytes, 32-bit length, three zeros, next-header byte, segment |
| `Layers.LayersToBytes` | src/layer/utils.rs:19-25 | the fold concatenates the layers' bytes in order |
| `Layers.LayerParsePrint` | src/layer/mod.rs:57-72 | any layer parser: the layer has its kind, is well-formed, and prints to what was consumed |
| `Layers.LayerPrintParse` | src/layer/mod.rs:57-72 | any well-formed layer is read back; one that reads all of its input must come last |
| `LayerFinalize.LengthOfLayers` | src/layer/utils.rs:9-16 | the fold returns the sum of the serialized sizes |
| `LayerFinalize.FinalizeIpv4` | src/layer/ip/ipv4.rs:141-194 | length over the layers behind, then checksum over the cleared header; unchanged on failure |
| `LayerFinalize.FinalizeIpv6` | src/layer/ip/ipv6.rs:87-96 | payload length from the layers behind; unchanged on failure |
| `LayerFinalize.FinalizeIcmp` | src/layer/icmp/mod.rs:58-72 | checksum over the cleared message |
| `LayerFinalize.AlignOptions` | src/layer/tcp/mod.rs:172-179 | the push loop keeps the options and appends up to three end-of-list options, so that the header fills whole words |
| `FinalizeSpec.PaddingBytes` | src/layer/tcp/mod.rs:172-179 | alignment adds up to three zero bytes behind the options and changes no other byte |
| `LayerFinalize.ChecksumOver` | src/layer/tcp/mod.rs:196-235 | pseudo header, header and payload are summed, unless the length does not fit the pseudo header |
| `LayerFinalize.FinalizeTcp` | src/layer/tcp/mod.rs:171-248 | alignment, checksum with the old offset, then offset; what each failure leaves behind |
| `LayerFinalize.FinalizeUdp` | src/layer/udp/mod.rs:86-149 | length, and checksum over the header with the old length |
| `LayerFinalize.FinalizeLayer` | src/layer/mod.rs:52-52 | dispatch on the type of the layer |
| `Packets.Packet.Finalize` | src/packet/mod.rs:51-61 | the index loop performs the pass in place and stops at the first failure |
| `Packets.Packet.ToBytes` | src/packet/mod.rs:74-76 | the packet's bytes are its layers' bytes |
| `FixedPoint.LayerFixed` | src/layer/mod.rs:44-52 | finalizing a layer, in a stack or not, succeeds and changes nothing iff the layer verifies and holds no negative zero |
| `FixedPoint.FixedPoints` | src/packet/mod.rs:51-61 | a pass fixes a stack iff every layer's length, offset and checksum verify and none is a negative zero |
| `NegativeZero.AlikeConcat` | src/layer/ip/mod.rs:14-27 | replacing parts by others of the same lengths and the same sums modulo 65535 keeps the sum of the whole modulo 65535, also when a part starts at an odd offset |
| `NegativeZero.PassOfVerified` | src/packet/mod.rs:51-61 | if every layer verifies, a pass succeeds, changes each layer at most by writing 0 for 0xffff, and its result is a fixed point |
| `Receiver.ReceiverAccepts` | src/layer/mod.rs:44-52 | in a stack that verifies, the IPv4, TCP and UDP checksums also verify by end-around-carry addition; an ICMP checksum does iff its sum wraps a multiple of 65535 times, in particular up to 131074 bytes |
| `Convergence.ConvergenceFrom` | src/packet/mod.rs:51-61 | the layers behind any point converge by themselves, after a number of passes computed from the transports over IP and the alignment still missing |
| `Convergence.NeededBounds` | src/packet/mod.rs:51-61 | the number of passes is at most k + 1, at most j + 2, and at most j + 1 without missing alignment, for k transports of which j are over IP |
| `Convergence.EveryPassSucceeds` | src/packet/mod.rs:51-61 | one pass succeeds iff every layer fits in front of the sizes behind it; two or more succeed iff every layer fits in front of the aligned sizes |
| `Convergence.FitsAfterPass` | src/layer/tcp/mod.rs:172-186 | after a successful pass the layers fit iff they fitted in front of the aligned sizes before it |
| `Convergence.Converges` | src/packet/mod.rs:51-61 | if the layers fit, every pass succeeds, and with k transports every pass after k + 1 changes nothing |
| `Convergence.ConvergesSooner` | src/packet/mod.rs:51-61 | if the layers fit, with j transports directly behind IP every pass after j + 2 changes nothing; after j + 1 if every TCP header is aligned |
| `Convergence.PassSize` | src/layer/tcp/mod.rs:172-179 | a pass adds exactly the alignment bytes, and a second pass adds none |
| `Convergence.SettledBySizes` | src/layer/ip/ipv4.rs:177-194 | a layer that computes no checksum over other layers settles once the size behind it has |
| `Convergence.SettledByBytes` | src/layer/tcp/mod.rs:181-245 | a transport layer settles once the bytes behind it and its other fields have |
| `Tightness.BoundIsReached` | src/layer/udp/mod.rs:86-149 | for each k from 1 to 2340 a stack with k transports still changes in pass k + 1 |
| `Tightness.SoonerBoundIsReached` | src/layer/tcp/mod.rs:171-248 | for each j from 1 to 2339 a stack with j transports over IP and an unaligned TCP header still changes in pass j + 2 |
| `Tightness.NestChanges` | src/layer/udp/mod.rs:86-149 | around any payload that settles first, k nested datagrams still change k passes after the sizes are final |
| `Tightness.CoveredDrift` | src/layer/udp/mod.rs:98-144 | over any IP header, a transport checksum moves against the sum of transport header and payload: by the same amount, negated, modulo 65535 |
| `PassProperties.PassAt` | src/packet/mod.rs:52-58 | each layer is finalized against the layers behind it as they were before the pass |
| `PassProperties.FrameOfPass` | src/packet/mod.rs:51-61 | number, order and types stay; only dependent fields change; TCP keeps its options and gains zero to three end-of-list options; after a failure the later layers are untouched and the failing one is left as the next row says |
| `PassProperties.LayerFailed` | src/layer/tcp/mod.rs:181-248 | a failing IP or UDP layer is unchanged; a failing TCP layer is aligned, keeps its offset, and keeps its checksum unless only the offset did not fit; each failure means that a size did not fit its field |
| `PassProperties.LengthConservation` | src/layer/ip/ipv4.rs:178-187 | each stored IP or UDP length plus the alignment added behind it in the same pass is the final size |
| `PassProperties.ChecksumInputIsUsed` | src/layer/tcp/mod.rs:229-235 | finalizing any layer, failing or not, stores the checksum of the input bounded below; without a checksum call the stored checksum stays |
| `PassProperties.PassNeverWraps` | src/packet/mod.rs:51-61 | if every ICMP layer is behind an IP layer, every checksum call of a pass, failing or not, gets at most 131074 bytes |
| `PassProperties.ConvergedPacketVerifies` | src/packet/mod.rs:48-61 | after the passes it needs, at most k + 1, every length, offset and checksum is right |
| `OnePass.OnePassTcp` | src/layer/tcp/mod.rs:181-245 | over IP and before raw data, one pass gives a verifying TCP checksum iff the old offset counted the aligned header |
| `OnePass.OnePassUdp` | src/layer/udp/mod.rs:87-146 | over IP and before raw data, one pass gives a verifying UDP checksum iff the old length was right modulo 65535 |
| `OnePass.OnePassHeaders` | src/layer/ip/ipv4.rs:141-151 | one pass is enough for IPv4 and ICMP checksums and TCP offsets, wherever the layer stands |
| `PacketParsing.PacketParser.WithoutBindings` | src/packet/mod.rs:107-111 | an empty registry |
| `PacketParsing.PacketParser.BindLayer` | src/packet/mod.rs:192-212 | the binding becomes the newest of its kind; every stored binding stays callable on every layer of its kind |
| `PacketParsing.PacketParser.FindReader` | src/packet/mod.rs:238-259 | the reverse scan finds what the specification selects; no binding is called on a layer of another kind |
| `PacketParsing.PacketParser.ParsePacket` | src/packet/mod.rs:215-276 | whenever the loop ends, it follows the bindings to the end or to the first error |
| `PacketParsing.RankedTerminates` | src/packet/mod.rs:233-271 | the loop ends from every layer if each step consumes input or leads to a kind of lower rank |
| `PacketParsing.SelfLoopNeverEnds` | src/packet/mod.rs:233-271 | the loop does not end at a layer that is read back from the same unread bytes |
| `PacketParsing.OneWayBinding` | src/packet/mod.rs:113-190 | a single binding to other kinds, as in the documentation, ends on every input even if its readers consume nothing |
| `PacketParsing.SelectIsNewest` | src/packet/mod.rs:247-253 | the selected answer is that of the newest binding that answers; there is none iff no binding answers |
| `PacketParsing.BindOverrides` | src/packet/mod.rs:93-94 | a new binding overrides older ones exactly where it answers, on its own kind only |
| `PacketParsing.SilentBinding` | src/packet/mod.rs:201-211 | a binding that never answers changes no parse, neither its result nor whether it ends |
| `PacketParsing.LayerBound` | src/packet/mod.rs:233-271 | at most one layer more than the bytes consumed after the first layer |
| `PacketParsing.ParseConserves` | src/packet/mod.rs:215-276 | printed layers followed by the rest are the input, for every registry of conserving readers |
| `DefaultBindings.CreatePacketParser` | src/packet/bindings.rs:40-66 | the five successive bindings build the registry that the next two rows describe |
| `DefaultBindings.DefaultNext` | src/packet/bindings.rs:43-63 | each layer leads to the reader that its type, protocol or next header names; nothing follows ICMP or raw data |
| `DefaultBindings.DispatchOnWire` | src/packet/bindings.rs:43-63 | on printed bytes: Ethernet leads to IPv4 iff its type bytes are 08 00, to IPv6 iff 86 dd; IPv4 to TCP, UDP or ICMP iff byte 9 is 6, 17 or 1; IPv6 to TCP or UDP iff byte 6 is 6 or 17; everything else with a binding to raw data |
| `DefaultBindings.DefaultTerminates` | src/packet/mod.rs:233-271 | with the default bindings the loop ends from every layer and on all unread bytes |
| `DefaultBindings.ParseDefault` | src/packet/mod.rs:215-276 | the parser object with default bindings computes `ParsePacket` |
| `DefaultBindings.ParseThenPrint` | src/packet/mod.rs:215-276 | a successful parse from any start layer leaves nothing, has one to four layers, and prints to the input |
| `DefaultBindings.ParsedKinds` | src/packet/mod.rs:215-276 | a successful parse starts with the layer asked for, and each next layer is of the kind that the bytes of the one before announce |
| `DefaultBindings.PrintThenParse` | src/packet/bindings.rs:40-66 | a well-formed stack that follows the bindings is parsed back from its bytes |
| `DefaultBindings.FinalizePrintParse` | src/packet/mod.rs:51-77 | one successful pass makes a stack that follows the bindings survive printing and parsing, whatever its lengths, checksums and TCP offsets were, if its other fields are canonical and its aligned TCP headers have at most 60 bytes |
| `SpoofServer.BuildReply` | examples/spoof_http_server.rs:71-114 | the reply is the finalized stack, and finalizing succeeds iff the payload has at most 65495 bytes |
| `SpoofServer.ReplyOnWire` | examples/spoof_http_server.rs:78-114 | every byte of the reply's headers but the two checksums: addresses and ports swapped, protocol 6, ttl 64, flags, next identification, window 64240, true lengths; then the payload |
| `SpoofServer.ReceivedExactly` | examples/spoof_http_server.rs:53-62 | from any Ethernet, IPv4 and TCP segment, with any options and padding, the payload is recovered iff the length fields announce it, or announce at least as much and there is no padding |
| `SpoofServer.ReceivedPayload` | examples/spoof_http_server.rs:53-62 | so it is from every segment whose IPv4 length is its true size, whatever its header lengths |
| `SpoofServer.PayloadRecovery` | examples/spoof_http_server.rs:53-62 | from a serialized reply with any link padding behind it, parsing recovers the headers, addressed back, and exactly the payload; an instance of the previous row |
| `SpoofServer.ReplyVerifies` | examples/spoof_http_server.rs:71-114 | the one pass of the builder makes every layer of the reply verify |

## Left out

- Data links, capture files and interfaces, and the `main` loops of the examples: input and output.
- Custom layers in a finalization pass: the pass is modelled for the built-in layers; the parser is modelled for any type of layer.
- Error kinds, messages and the byte counts of incomplete reads: every error is one failure.
- Overflow of `usize` sums of lengths: lengths are unbounded here. A sum beyond `usize` is also beyond the 16-bit limits, so the outcome is the same failure; a transport's own sum adds two lengths of buffers in memory.
- The derived `update` of option lengths (src/layer/tcp/options.rs:42-47, src/layer/ip/ipv4.rs:53-57): neither `finalize` nor `to_bytes` calls it.
- Bit fields other than the TCP offset that hold more than their width, and round trips of TCP headers above 60 bytes: their printing is decided by the deku library.
- PacketParsing.PacketParser.ParsePacket: says nothing where the loop of the source does not end, as at a layer that reads itself back (`PacketParsing.SelfLoopNeverEnds`); it requires that the loop ends and nothing else of the bindings.
- The replacement of a computed UDP checksum of zero by all ones, which RFC 768 asks for: the code does not do it.
- `PacketView`, `Display` of the flags, cloning and error conversions, `next_client_sequence`: thin wrappers.
- The table in the documentation of src/packet/bindings.rs says that an IPv6 Ethernet type leads to IPv4; the code leads to IPv6, and so does the model.
