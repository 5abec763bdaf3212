/** The id enums of the protocol headers: a named variant per table entry and a catch-all
    that stores the id it read. A named variant is represented by its id. */
module Codes {
  import opened Bytes

  datatype Code<+T> = Named(id: T) | Unknown(id: T)

  type EtherType = Code<u16>
  type IpProtocol = Code<byte>
  type IcmpType = Code<byte>

  const ETHER_IPV4: EtherType := Named(0x0800)
  const ETHER_IPV6: EtherType := Named(0x86dd)
  const PROTOCOL_ICMP: IpProtocol := Named(1)
  const PROTOCOL_TCP: IpProtocol := Named(6)
  const PROTOCOL_UDP: IpProtocol := Named(17)

  predicate IsNamedEtherType(id: u16) {
    || id == 0x0004 || id == 0x0200 || 0x0600 <= id <= 0x0601 || 0x0660 <= id <= 0x0661
    || 0x0800 <= id <= 0x0806 || id == 0x0808 || id == 0x0bad || id == 0x1000 || id == 0x1234 || id == 0x1600
    || id == 0x1995 || id == 0x3c04 || id == 0x3c07 || id == 0x4242 || id == 0x4c42 || 0x6001 <= id <= 0x6002
    || id == 0x6004 || 0x6007 <= id <= 0x6008 || id == 0x6559 || 0x7000 <= id <= 0x7001 || id == 0x7003
    || id == 0x7005 || id == 0x7007 || id == 0x7030 || id == 0x8005 || id == 0x802f || id == 0x8048
    || 0x805b <= id <= 0x805d || id == 0x8067 || id == 0x8069 || 0x807a <= id <= 0x807c || id == 0x809b
    || id == 0x80c6 || id == 0x80d5 || 0x80f2 <= id <= 0x80f3 || id == 0x8100 || id == 0x8102
    || 0x8130 <= id <= 0x8131 || id == 0x8137 || id == 0x813f || id == 0x8146 || 0x8149 <= id <= 0x814a
    || id == 0x814c || 0x817d <= id <= 0x817e || id == 0x8181 || id == 0x86dd || 0x8739 <= id <= 0x873a
    || id == 0x876c || id == 0x8809 || id == 0x880b || id == 0x8847 || id == 0x8856 || id == 0x8864
    || id == 0x888e || id == 0x88a2 || id == 0x88a8 || id == 0x88cc || id == 0x88e7 || 0x9001 <= id <= 0x9002
    || id == 0xaaaa || id == 0xfaf5 || id == 0xff00 || id == 0xffff
  }

  predicate IsNamedIpProtocol(id: byte) {
    || 0 <= id <= 6 || 8 <= id <= 9 || id == 12 || id == 17 || id == 20 || id == 22 || id == 27 || id == 29
    || id == 33 || 36 <= id <= 38 || id == 41 || 43 <= id <= 47 || 50 <= id <= 51 || 57 <= id <= 60 || id == 73
    || id == 81 || 88 <= id <= 89 || 93 <= id <= 94 || 97 <= id <= 98 || id == 103 || id == 108 || id == 112
    || id == 115 || id == 124 || 132 <= id <= 133 || 135 <= id <= 142
  }

  predicate IsNamedIcmpType(id: byte) {
    || id == 0 || 3 <= id <= 6 || 8 <= id <= 18 || 30 <= id <= 40 || 42 <= id <= 43
  }

  function Decode<T>(named: bool, id: T): Code<T> {
    if named then Named(id) else Unknown(id)
  }

  /** The variants a reader can produce: named exactly when the table has the id. */
  predicate CanonicalEtherType(t: EtherType) {
    t.Named? == IsNamedEtherType(t.id)
  }

  predicate CanonicalIpProtocol(p: IpProtocol) {
    p.Named? == IsNamedIpProtocol(p.id)
  }

  predicate CanonicalIcmpType(t: IcmpType) {
    t.Named? == IsNamedIcmpType(t.id)
  }
}
