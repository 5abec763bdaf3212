/** The reply builder and payload extraction of examples/spoof_http_server.rs. */
module SpoofServer {
  import opened Bytes
  import opened Codecs
  import opened Codes
  import opened TcpOptions
  import opened TcpHeader
  import opened Ipv4Header
  import opened SimpleHeaders
  import opened Layers
  import opened Layout
  import opened FinalizeSpec
  import opened FixedPoint
  import opened Convergence
  import opened OnePass
  import opened Packets
  import opened DefaultBindings

  datatype Reply = Reply(sequence: u32, acknowledgment: u32, flags: TcpFlags, payload: seq<byte>)

  function SaturatingSub(a: nat, b: nat): nat {
    if a < b then 0 else a - b
  }

  /** The part of the captured data that the headers announce as payload. */
  function TcpPayload(ip: Ipv4, tcp: Tcp, raw: Option<Raw>): seq<byte> {
    var announced := SaturatingSub(SaturatingSub(ip.length, ip.ihl * 4), tcp.offset * 4);
    var captured := if raw.Some? then raw.value.data else [];
    captured[..if announced < |captured| then announced else |captured|]
  }

  /** The first raw layer of a packet. */
  function FindRaw(ls: seq<Layer>): Option<Raw> {
    if |ls| == 0 then None else if ls[0].RawLayer? then Some(ls[0].raw) else FindRaw(ls[1..])
  }

  // ----- Building the reply -----

  function ReplyEther(request: Ether, server: MacAddress): Ether {
    Ether(request.src, server, ETHER_IPV4)
  }

  function ReplyIpv4(request: Ipv4): Ipv4 {
    DEFAULT_IPV4.(src := request.dst, dst := request.src, ttl := 64, protocol := PROTOCOL_TCP,
    identification := (request.identification + 1) % 0x1_0000, flags := 2)
  }

  function ReplyTcp(request: Tcp, reply: Reply): Tcp {
    DEFAULT_TCP.(sport := request.dport, dport := request.sport, sequence := reply.sequence,
    acknowledgment := reply.acknowledgment, flags := reply.flags, window := 64240)
  }

  function RawLayers(data: seq<byte>): seq<Layer> {
    if data == [] then [] else [RawLayer(Raw(data, 0))]
  }

  function ReplyLayers(ether: Ether, server: MacAddress, ip: Ipv4, tcp: Tcp, reply: Reply): seq<Layer> {
    [EtherLayer(ReplyEther(ether, server)), Ipv4Layer(ReplyIpv4(ip)), TcpLayer(ReplyTcp(tcp, reply))]
    + RawLayers(reply.payload)
  }

  /** Builds and finalizes the reply; without ok the source panics. */
  method BuildReply(ether: Ether, server: MacAddress, ip: Ipv4, tcp: Tcp, reply: Reply)
    returns (packet: Packet, ok: bool)
    ensures fresh(packet)
    ensures Update(packet.layers, ok) == Pass(ReplyLayers(ether, server, ip, tcp, reply))
    ensures ok <==> |reply.payload| <= 65495
  {
    var layers := [EtherLayer(ReplyEther(ether, server)), Ipv4Layer(ReplyIpv4(ip)), TcpLayer(ReplyTcp(tcp, reply))];
    if reply.payload != [] {
      layers := layers + [RawLayer(Raw(reply.payload, 0))];
    }
    assert layers == ReplyLayers(ether, server, ip, tcp, reply);
    packet := new Packet(layers);
    ok := packet.Finalize();
    ReplyPass(ReplyEther(ether, server), ReplyIpv4(ip), ReplyTcp(tcp, reply), reply.payload);
  }

  // ----- What the pass makes of it -----

  /** A reply has no options of either kind. */
  predicate Plain(ip: Ipv4, tcp: Tcp) {
    && ip.ihl == 5 && ip.options == [] && ip.protocol == PROTOCOL_TCP
    && tcp.options == [] && tcp.offset == 5
  }

  lemma PlainSizes(ip: Ipv4, tcp: Tcp)
    requires Plain(ip, tcp)
    ensures |Ipv4Bytes(ip)| == 20 && |TcpBytes(tcp)| == 20 && PadTcp(tcp) == tcp
    ensures WellFormedIpv4(ip) && WellFormedTcp(tcp)
  {
    hide WordsBytes;
    assert TcpOptions.OptionsBytes(tcp.options) == [] && Ipv4Header.OptionsBytes(ip.options) == [];
    assert PadAmount(tcp) == 0;
    assert tcp.options + Eols(0) == tcp.options;
  }

  lemma RawSize(data: seq<byte>)
    ensures Size(RawLayers(data)) == |data| && LayersBytes(RawLayers(data)) == data
  {
    if data != [] {
      var l := RawLayer(Raw(data, 0));
      assert [l][1..] == [] && [l] + [] == [l];
      WriteAllCons(LayerBytes, l, [], []);
      assert LayersBytes([l]) == data + [];
    }
  }

  lemma FixedTcp(below: Below, tcp: Tcp, payload: seq<byte>)
    requires |TcpBytes(tcp)| == 20 && PadTcp(tcp) == tcp && below.V4? && 20 + |payload| <= 0xffff
    ensures var u := FinalTcp(below, tcp, payload); u.ok && u.value == tcp.(offset := 5, checksum := u.value.checksum)
  {
    hide TcpBytes, PadTcp, InternetChecksum.Checksum, Covered;
    ClearingKeepsSize(tcp);
  }

  /** A plain stack with its lengths filled in and two checksums. */
  function Finished(ether: Ether, ip: Ipv4, tcp: Tcp, payload: seq<byte>, c: u16, c': u16): seq<Layer>
    requires |payload| <= 65495
  {
    [EtherLayer(ether), Ipv4Layer(ip.(length := 40 + |payload|, checksum := c)), TcpLayer(tcp.(checksum := c'))]
    + RawLayers(payload)
  }

  lemma ReplyPass(ether: Ether, ip: Ipv4, tcp: Tcp, payload: seq<byte>)
    requires Plain(ip, tcp)
    ensures var out := Pass([EtherLayer(ether), Ipv4Layer(ip), TcpLayer(tcp)] + RawLayers(payload));
            && (out.ok <==> |payload| <= 65495)
            && (out.ok ==>
                  exists c, c' :: out.value == Finished(ether, ip, tcp, payload, c, c'))
  {
    hide InternetChecksum.Checksum, Covered, TcpBytes, Ipv4Bytes, LayersBytes, FinalTcp, PadTcp;
    assert tcp.(offset := 5) == tcp;
    var raws := RawLayers(payload);
    var ls := [EtherLayer(ether), Ipv4Layer(ip), TcpLayer(tcp)] + raws;
    PlainSizes(ip, tcp);
    RawSize(payload);
    assert ls[1..][1..][1..] == raws;
    assert ls[1..][1..] == [TcpLayer(tcp)] + raws;
    assert ([TcpLayer(tcp)] + raws)[1..] == raws;
    assert Size([TcpLayer(tcp)] + raws) == 20 + |payload|;
    var ip' := FinalIpv4(ip, 20 + |payload|);
    assert PassFrom(NotIp, ls[1..]).ok ==> ip'.ok;
    if |payload| <= 65495 {
      var below := V4(ip.src, ip.dst, ip.protocol.id);
      FixedTcp(below, tcp, payload);
      var tcp' := FinalTcp(below, tcp, payload);
      RawPass(payload);
      assert PassFrom(below, [TcpLayer(tcp)] + raws) == Update([TcpLayer(tcp'.value)] + raws, true);
      assert PassFrom(NotIp, ls[1..]) == Update([Ipv4Layer(ip'.value)] + ([TcpLayer(tcp'.value)] + raws), true);
      assert Pass(ls).value == Finished(ether, ip, tcp, payload, ip'.value.checksum, tcp'.value.checksum);
    }
  }

  lemma RawPass(payload: seq<byte>)
    ensures PassFrom(NotIp, RawLayers(payload)) == Update(RawLayers(payload), true)
  {
    if payload != [] {
      var l := RawLayer(Raw(payload, 0));
      assert [l][1..] == [];
      assert PassFrom(BelowLayer(l), []) == Update([], true);
      assert [l] + [] == [l];
    }
  }

  // ----- Recovering the payload -----

  function Stack(ether: Ether, ip: Ipv4, tcp: Tcp, data: seq<byte>): seq<Layer> {
    [EtherLayer(ether), Ipv4Layer(ip), TcpLayer(tcp)] + RawLayers(data)
  }

  lemma StackParses(ether: Ether, ip: Ipv4, tcp: Tcp, data: seq<byte>)
    requires ether.etherType == ETHER_IPV4 && ip.protocol == PROTOCOL_TCP
    requires WellFormedIpv4(ip) && WellFormedTcp(tcp)
    ensures ParsePacket(EtherKind, LayersBytes(Stack(ether, ip, tcp, data))) == Parsed(Stack(ether, ip, tcp, data), [])
  {
    hide Ipv4Bytes, TcpBytes, EtherBytes, WellFormedIpv4, WellFormedTcp, ParsePacket;
    var ls := Stack(ether, ip, tcp, data);
    assert FollowsBindings(ls);
    assert WellFormed(ls[0]) && WellFormed(ls[1]) && WellFormed(ls[2]);
    assert |ls| == 4 ==> WellFormed(ls[3]);
    PrintThenParse(ls);
  }

  lemma PaddedBytes(front: seq<Layer>, payload: seq<byte>, pad: seq<byte>)
    ensures LayersBytes(front + RawLayers(payload)) + pad == LayersBytes(front + RawLayers(payload + pad))
  {
    RawSize(payload);
    RawSize(payload + pad);
    WriteAllConcat(LayerBytes, front, RawLayers(payload));
    WriteAllConcat(LayerBytes, front, RawLayers(payload + pad));
    Assoc(LayersBytes(front), payload, pad);
  }

  lemma FindsRaw(ether: Ether, ip: Ipv4, tcp: Tcp, data: seq<byte>)
    ensures FindRaw([EtherLayer(ether), Ipv4Layer(ip), TcpLayer(tcp)] + RawLayers(data))
            == if data == [] then None else Some(Raw(data, 0))
  {
    var ls := [EtherLayer(ether), Ipv4Layer(ip), TcpLayer(tcp)] + RawLayers(data);
    assert ls[1..][1..][1..] == RawLayers(data);
    assert FindRaw(ls) == FindRaw(ls[1..]) == FindRaw(ls[1..][1..]) == FindRaw(ls[1..][1..][1..]);
    assert data != [] ==> FindRaw(RawLayers(data)) == Some(Raw(data, 0));
  }

  /** The payload found in a segment that the link padded is the one that was sent exactly when
      the length fields announce it, or when without padding they announce at least as much. */
  lemma ReceivedExactly(ether: Ether, ip: Ipv4, tcp: Tcp, payload: seq<byte>, pad: seq<byte>)
    requires ether.etherType == ETHER_IPV4 && ip.protocol == PROTOCOL_TCP
    requires WellFormedIpv4(ip) && WellFormedTcp(tcp)
    ensures var received := ParsePacket(EtherKind, LayersBytes(Stack(ether, ip, tcp, payload)) + pad);
            var announced := ip.length - 4 * ip.ihl - 4 * tcp.offset;
            && received == Parsed(Stack(ether, ip, tcp, payload + pad), [])
            && (TcpPayload(ip, tcp, FindRaw(received.value)) == payload
                <==> announced == |payload| || (payload == [] && announced <= 0)
                     || (pad == [] && announced >= |payload|))
  {
    hide ParsePacket, LayersBytes, FindRaw, WellFormedIpv4, WellFormedTcp;
    PaddedBytes([EtherLayer(ether), Ipv4Layer(ip), TcpLayer(tcp)], payload, pad);
    StackParses(ether, ip, tcp, payload + pad);
    FindsRaw(ether, ip, tcp, payload + pad);
    var captured := payload + pad;
    assert captured[..|payload|] == payload;
  }

  /** From any segment that states its true size, whatever options its headers carry and whatever
      padding the link appends, exactly the payload is recovered. */
  lemma ReceivedPayload(ether: Ether, ip: Ipv4, tcp: Tcp, payload: seq<byte>, pad: seq<byte>)
    requires ether.etherType == ETHER_IPV4 && ip.protocol == PROTOCOL_TCP
    requires WellFormedIpv4(ip) && WellFormedTcp(tcp) && ip.ihl >= 5
    requires ip.length == |Ipv4Bytes(ip)| + |TcpBytes(tcp)| + |payload|
    ensures var received := ParsePacket(EtherKind, LayersBytes(Stack(ether, ip, tcp, payload)) + pad);
            && received == Parsed(Stack(ether, ip, tcp, payload + pad), [])
            && TcpPayload(ip, tcp, FindRaw(received.value)) == payload
  {
    hide ParsePacket, LayersBytes, FindRaw, TcpPayload, TcpBytes;
    ReceivedExactly(ether, ip, tcp, payload, pad);
    assert |Ipv4Bytes(ip)| == 4 * ip.ihl by {
      HeaderLength(ip);
    }
  }

  lemma HeaderLength(ip: Ipv4)
    requires WellFormedIpv4(ip) && ip.ihl >= 5
    ensures |Ipv4Bytes(ip)| == 4 * ip.ihl
  {
    hide WordsBytes, Ipv4Words, Ipv4Header.OptionsBytes;
  }

  /** Whatever padding the link appends to a serialized reply, parsing the frame finds the reply's
      own headers, addressed back to the requester, and the payload that was sent. */
  lemma PayloadRecovery(ether: Ether, server: MacAddress, ip: Ipv4, tcp: Tcp, reply: Reply, pad: seq<byte>)
    requires Pass(ReplyLayers(ether, server, ip, tcp, reply)).ok
    ensures var sent := Pass(ReplyLayers(ether, server, ip, tcp, reply)).value;
            var received := ParsePacket(EtherKind, LayersBytes(sent) + pad);
            && received.Parsed? && received.rest == []
            && 3 <= |received.value| && received.value[..3] == sent[..3]
            && AddressedTo(received.value, ether, ip, tcp, reply)
            && TcpPayload(received.value[1].ipv4, received.value[2].tcp, FindRaw(received.value)) == reply.payload
  {
    hide ParsePacket, LayersBytes, PassFrom, FindRaw, TcpPayload, WellFormedIpv4, WellFormedTcp, Ipv4Bytes, TcpBytes;
    var e, i, t, payload := ReplyEther(ether, server), ReplyIpv4(ip), ReplyTcp(tcp, reply), reply.payload;
    ReplyPass(e, i, t, payload);
    var sent := Pass(ReplyLayers(ether, server, ip, tcp, reply)).value;
    var c, c' :| sent == Finished(e, i, t, payload, c, c');
    var ip', tcp' := i.(length := 40 + |payload|, checksum := c), t.(checksum := c');
    PlainSizes(ip', tcp');
    assert sent == Stack(e, ip', tcp', payload);
    ReceivedPayload(e, ip', tcp', payload, pad);
  }

  /** The frame of a reply, byte by byte: Ethernet, a 20-byte IPv4 header, a 20-byte TCP header, data. */
  lemma ReplyOnWire(ether: Ether, server: MacAddress, ip: Ipv4, tcp: Tcp, reply: Reply)
    requires |reply.payload| <= 65495
    ensures var sent := Pass(ReplyLayers(ether, server, ip, tcp, reply));
            var s := LayersBytes(sent.value);
            && sent.ok && |s| == 54 + |reply.payload| && s[54..] == reply.payload
            && ReplyHeaders(s[..14], s[14..34], s[34..54], ether, server, ip, tcp, reply)
  {
    hide LayersBytes, PassFrom, EtherBytes, Ipv4Bytes, TcpBytes, Word, Quad;
    var e, i, t, payload := ReplyEther(ether, server), ReplyIpv4(ip), ReplyTcp(tcp, reply), reply.payload;
    ReplyPass(e, i, t, payload);
    var sent := Pass(ReplyLayers(ether, server, ip, tcp, reply)).value;
    var c, c' :| sent == Finished(e, i, t, payload, c, c');
    var ip', tcp' := i.(length := 40 + |payload|, checksum := c), t.(checksum := c');
    PlainSizes(ip', tcp');
    StackBytes(e, ip', tcp', payload);
    FrameSlices(LayersBytes(sent), EtherBytes(e), Ipv4Bytes(ip'), TcpBytes(tcp'), payload);
    EtherLayout(e);
    Ipv4Layout(ip');
    TcpLayout(tcp');
    EtherTypeBytes(e);
  }

  lemma FrameSlices(s: seq<byte>, e: seq<byte>, i: seq<byte>, t: seq<byte>, data: seq<byte>)
    requires s == e + i + t + data && |e| == 14 && |i| == 20 && |t| == 20
    ensures s[..14] == e && s[14..34] == i && s[34..54] == t && s[54..] == data
  {}

  predicate ReplyHeaders(e: seq<byte>, i: seq<byte>, t: seq<byte>,
                         ether: Ether, server: MacAddress, ip: Ipv4, tcp: Tcp, reply: Reply)
    requires |e| == 14 && |i| == 20 && |t| == 20 && |reply.payload| <= 65495
  {
    var f := reply.flags;
    && e[..6] == ether.src && e[6..12] == server && e[12..14] == [0x08, 0x00]
    && i[0] == 0x45 && i[1] == 0 && i[2..4] == Word(40 + |reply.payload|)
    && i[4..6] == Word((ip.identification + 1) % 0x1_0000)
    && i[6] == 0x40 && i[7] == 0 && i[8] == 64 && i[9] == 6
    && i[12..16] == Quad(ip.dst) && i[16..20] == Quad(ip.src)
    && t[..2] == Word(tcp.dport) && t[2..4] == Word(tcp.sport)
    && t[4..8] == Quad(reply.sequence) && t[8..12] == Quad(reply.acknowledgment)
    && t[12] == 0x50 + f.reserved * 2 + f.nonce
    && t[13] == f.crw * 0x80 + f.ecn * 0x40 + f.urgent * 0x20 + f.ack * 0x10
                + f.push * 8 + f.reset * 4 + f.syn * 2 + f.fin
    && t[14..16] == Word(64240) && t[18..20] == Word(0)
  }

  lemma StackBytes(ether: Ether, ip: Ipv4, tcp: Tcp, data: seq<byte>)
    ensures var s, e, i, t := LayersBytes(Stack(ether, ip, tcp, data)), EtherBytes(ether), Ipv4Bytes(ip), TcpBytes(tcp);
            s == e + i + t + data
  {
    hide LayerBytes, RawLayers;
    var raws := RawLayers(data);
    RawSize(data);
    WriteAllCons(LayerBytes, TcpLayer(tcp), raws, []);
    WriteAllCons(LayerBytes, Ipv4Layer(ip), [TcpLayer(tcp)] + raws, []);
    WriteAllCons(LayerBytes, EtherLayer(ether), [Ipv4Layer(ip)] + ([TcpLayer(tcp)] + raws), []);
    assert Stack(ether, ip, tcp, data) == [EtherLayer(ether)] + ([Ipv4Layer(ip)] + ([TcpLayer(tcp)] + raws));
    LayerBytesOf(ether, ip, tcp);
  }

  lemma LayerBytesOf(ether: Ether, ip: Ipv4, tcp: Tcp)
    ensures LayerBytes(EtherLayer(ether)) == EtherBytes(ether)
    ensures LayerBytes(Ipv4Layer(ip)) == Ipv4Bytes(ip)
    ensures LayerBytes(TcpLayer(tcp)) == TcpBytes(tcp)
  {}

  /** The headers answer the request they were built from. */
  predicate AddressedTo(ls: seq<Layer>, ether: Ether, ip: Ipv4, tcp: Tcp, reply: Reply)
    requires |ls| >= 3
  {
    && ls[0].EtherLayer? && ls[0].ether.dst == ether.src
    && ls[1].Ipv4Layer? && ls[1].ipv4.dst == ip.src && ls[1].ipv4.src == ip.dst
    && ls[2].TcpLayer? && ls[2].tcp.dport == tcp.sport && ls[2].tcp.sport == tcp.dport
    && ls[2].tcp.sequence == reply.sequence && ls[2].tcp.acknowledgment == reply.acknowledgment
    && ls[2].tcp.flags == reply.flags
  }

  /** The single pass of the reply builder is enough: its offset was right from the start. */
  lemma ReplyVerifies(ether: Ether, server: MacAddress, ip: Ipv4, tcp: Tcp, reply: Reply)
    requires Pass(ReplyLayers(ether, server, ip, tcp, reply)).ok
    ensures var sent := Pass(ReplyLayers(ether, server, ip, tcp, reply)).value;
            forall i :: 0 <= i < |sent| ==> Verifies(BelowOf(sent[..i]), sent[i], sent[i + 1..])
  {
    hide PassFrom, LayersBytes, InternetChecksum.Checksum, Ipv4Bytes, TcpBytes, SegmentVerifies, Size, PadTcp;
    var ls := ReplyLayers(ether, server, ip, tcp, reply);
    var e, i, t, payload := ReplyEther(ether, server), ReplyIpv4(ip), ReplyTcp(tcp, reply), reply.payload;
    ReplyPass(e, i, t, payload);
    var sent := Pass(ls).value;
    var c, c' :| sent == Finished(e, i, t, payload, c, c');
    var ip', tcp' := i.(length := 40 + |payload|, checksum := c), t.(checksum := c');
    PlainSizes(i, t);
    PlainSizes(ip', tcp');
    OnePassHeaders(ls, 1);
    OnePassHeaders(ls, 2);
    assert sent[2..] == [TcpLayer(tcp')] + RawLayers(payload);
    TcpAndRawSize(tcp', payload);
    OnePassTcp(ls, 2);
    assert sent[..1] == [sent[0]] && sent[..2] == [sent[0], sent[1]];
    forall j | 0 <= j < |sent|
      ensures Verifies(BelowOf(sent[..j]), sent[j], sent[j + 1..])
    {
      assert j == 0 || j == 1 || j == 2 || j == 3;
    }
  }

  lemma TcpAndRawSize(tcp: Tcp, payload: seq<byte>)
    requires |TcpBytes(tcp)| == 20
    ensures Size([TcpLayer(tcp)] + RawLayers(payload)) == 20 + |payload|
  {
    hide TcpBytes, RawLayers;
    RawSize(payload);
    var ls := [TcpLayer(tcp)] + RawLayers(payload);
    assert ls[1..] == RawLayers(payload);
  }
}
