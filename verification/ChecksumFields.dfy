/** Where the dependent 16-bit fields sit in the serialized headers. */
module ChecksumFields {
  import opened Bytes
  import opened InternetChecksum
  import opened TcpHeader
  import opened Ipv4Header
  import opened SimpleHeaders

  lemma TcpChecksumField(t: Tcp, v: u16)
    ensures SetWord(TcpBytes(t), 16, v) == TcpBytes(t.(checksum := v))
    ensures WordAt(TcpBytes(t), 16) == t.checksum
  {
    SetHeaderWord(TcpWords(t), 8, v, TcpOptions.OptionsBytes(t.options));
    assert TcpWords(t)[8 := v] == TcpWords(t.(checksum := v));
  }

  lemma TcpOffsetField(t: Tcp, offset: byte)
    ensures SetWord(TcpBytes(t), 12, OffsetWord(offset, t.flags)) == TcpBytes(t.(offset := offset))
    ensures WordAt(TcpBytes(t), 12) == OffsetWord(t.offset, t.flags)
  {
    var v := OffsetWord(offset, t.flags);
    SetHeaderWord(TcpWords(t), 6, v, TcpOptions.OptionsBytes(t.options));
    assert TcpWords(t)[6 := v] == TcpWords(t.(offset := offset));
  }

  lemma UdpChecksumField(u: Udp, v: u16)
    ensures SetWord(UdpBytes(u), 6, v) == UdpBytes(u.(checksum := v))
    ensures WordAt(UdpBytes(u), 6) == u.checksum
  {
    SetHeaderWord(UdpWords(u), 3, v, []);
    assert UdpWords(u)[3 := v] == UdpWords(u.(checksum := v));
    assert UdpBytes(u) + [] == UdpBytes(u);
  }

  lemma UdpLengthField(u: Udp, v: u16)
    ensures SetWord(UdpBytes(u), 4, v) == UdpBytes(u.(length := v))
    ensures WordAt(UdpBytes(u), 4) == u.length
  {
    SetHeaderWord(UdpWords(u), 2, v, []);
    assert UdpWords(u)[2 := v] == UdpWords(u.(length := v));
    assert UdpBytes(u) + [] == UdpBytes(u);
  }

  lemma Ipv4ChecksumField(ip: Ipv4, v: u16)
    ensures SetWord(Ipv4Bytes(ip), 10, v) == Ipv4Bytes(ip.(checksum := v))
    ensures WordAt(Ipv4Bytes(ip), 10) == ip.checksum
  {
    SetHeaderWord(Ipv4Words(ip), 5, v, Ipv4Header.OptionsBytes(ip.options));
    assert Ipv4Words(ip)[5 := v] == Ipv4Words(ip.(checksum := v));
  }

  lemma IcmpChecksumField(m: Icmp4, v: u16)
    ensures SetWord(IcmpBytes(m), 2, v) == IcmpBytes(m.(checksum := v))
    ensures WordAt(IcmpBytes(m), 2) == m.checksum
  {
    SetHeaderWord(IcmpWords(m), 1, v, m.data);
    assert IcmpWords(m)[1 := v] == IcmpWords(m.(checksum := v));
  }

  /** The field of a segment stays where the headers in front of it put it. */
  lemma FieldBehind(front: seq<byte>, s: seq<byte>, behind: seq<byte>, i: nat, v: u16)
    requires i + 1 < |s|
    ensures SetWord(front + (s + behind), |front| + i, v) == front + (SetWord(s, i, v) + behind)
    ensures WordAt(front + (s + behind), |front| + i) == WordAt(s, i)
  {}
}
