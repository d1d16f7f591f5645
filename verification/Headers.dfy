/** IPv4, TCP and UDP headers as they lie in memory (include/ipv4.h), and the key of a flow (compact.c). */
module Headers {
  import opened Bytes

  /** A 16-bit field in network byte order. */
  function Be16(x: u16): (r: seq<u8>)
    ensures |r| == 2
  {
    [x / 0x100, x % 0x100]
  }

  function FromBe16(s: seq<u8>, at: nat): u16
    requires at + 2 <= |s|
  {
    0x100 * s[at] as int + s[at + 1] as int
  }

  lemma Be16At(x: u16, s: seq<u8>, at: nat)
    requires at + 2 <= |s| && s[at..at + 2] == Be16(x)
    ensures FromBe16(s, at) == x
  {
    assert s[at] == s[at..at + 2][0] && s[at + 1] == s[at..at + 2][1];
  }

  lemma Be16Injective(s: seq<u8>, at: nat)
    requires at + 2 <= |s|
    ensures s[at..at + 2] == Be16(FromBe16(s, at))
  {
  }

  const TCP: u8 := 0x06
  const UDP: u8 := 0x11

  /** The transport header that a flow stores: all of TCP's, all of UDP's, and nothing of any other. */
  function TransportLength(protocol: u8): nat {
    if protocol == TCP then 20 else if protocol == UDP then 8 else 0
  }

  // ----- fields of a buffer that starts with an IPv4 header -----

  /** The room in a packet. */
  const MAX_DATA_LENGTH := 2000

  type Buffer = b: seq<u8> | 40 <= |b| <= MAX_DATA_LENGTH witness seq(40, _ => 0)

  function TotLen(b: Buffer): u16 {
    FromBe16(b, 2)
  }

  function IpId(b: Buffer): u16 {
    FromBe16(b, 4)
  }

  function FragOff(b: Buffer): u16 {
    FromBe16(b, 6)
  }

  /** FRAG_OFF_MASK: where in its datagram a fragment belongs. */
  function Offset(frag: u16): nat {
    frag % 0x2000
  }

  /** FRAG_FLAG_MF_MASK */
  predicate MoreFragments(frag: u16) {
    frag / 0x2000 % 2 == 1
  }

  /** The bytes behind the IP header. */
  function Segment(b: Buffer): seq<u8>
    requires 20 <= TotLen(b) <= |b|
  {
    b[20..TotLen(b)]
  }

  // ----- flow keys -----

  datatype Key = Key(saddr: seq<u8>, daddr: seq<u8>, ipid: u16, proto: u8, sport: seq<u8>, dport: seq<u8>)

  /** Packets whose ports cannot be told, or have none. */
  predicate Portless(b: Buffer) {
    MoreFragments(FragOff(b)) || Offset(FragOff(b)) != 0 || (b[9] != TCP && b[9] != UDP)
  }

  /** get_sflow_key */
  function KeyOf(b: Buffer): Key {
    if Portless(b) then Key(b[12..16], b[16..20], IpId(b), b[9], [0, 0], [0, 0])
    else Key(b[12..16], b[16..20], 0, b[9], b[20..22], b[22..24])
  }

  /** The headers that a flow remembers. */
  datatype Hdr = Hdr(ip: seq<u8>, t: seq<u8>)

  predicate WellShaped(h: Hdr) {
    |h.ip| == 20 && |h.t| == TransportLength(h.ip[9])
  }

  /** The headers of a packet, as build_sflow_by_hash stores them. */
  function HdrOf(b: Buffer): (h: Hdr)
    ensures WellShaped(h)
  {
    Hdr(b[..20], b[20..20 + TransportLength(b[9])])
  }

  /** Equal except for the IP id, which the receiver advances. */
  predicate SameUpToId(h: Hdr, g: Hdr) {
    && WellShaped(h) && WellShaped(g)
    && h.ip[..4] == g.ip[..4] && h.ip[6..] == g.ip[6..] && h.t == g.t
  }

  /** Packets of one flow have the protocol and the addresses of its headers, and the ports or the IP id too. */
  lemma KeyFixesHeader(p: Buffer, q: Buffer)
    requires KeyOf(p) == KeyOf(q)
    ensures p[9] == q[9] && p[12..20] == q[12..20]
    ensures KeyOf(p).ipid != 0 ==> Portless(p) && IpId(p) == IpId(q) == KeyOf(p).ipid
    ensures !Portless(p) && !Portless(q) ==> p[20..24] == q[20..24]
  {
    assert p[12..20] == p[12..16] + p[16..20] && q[12..20] == q[12..16] + q[16..20];
    assert p[20..24] == p[20..22] + p[22..24] && q[20..24] == q[20..22] + q[22..24];
  }

  /** More fragments follow, or the packet is one that does not come first. */
  predicate IsFragment(b: Buffer) {
    FragOff(b) % 0x4000 != 0
  }

  /** Two packets belong to the same flow exactly if protocol and addresses agree and, in packets of TCP or UDP that are
      no fragments, the ports, or otherwise the IP id. Only a fragment with IP id 0 is mixed up with other packets of
      its protocol: with those whose ports are both 0. */
  lemma SameFlowIff(p: Buffer, q: Buffer)
    ensures KeyOf(p) == KeyOf(q) <==>
              var ported := p[9] == 0x06 || p[9] == 0x11;
              && p[9] == q[9] && p[12..20] == q[12..20]
              && if ported && !IsFragment(p) && !IsFragment(q) then p[20..24] == q[20..24]
                 else if ported && !IsFragment(p) then p[20..24] == [0, 0, 0, 0] && IpId(q) == 0
                 else if ported && !IsFragment(q) then q[20..24] == [0, 0, 0, 0] && IpId(p) == 0
                 else IpId(p) == IpId(q)
  {
    PortlessIff(p);
    PortlessIff(q);
    hide Portless, FragOff, IsFragment;
    Halves(p, q, 12, 4);
    Halves(p, q, 20, 2);
    Zeros(p);
    Zeros(q);
  }

  lemma PortlessIff(b: Buffer)
    ensures Portless(b) <==> IsFragment(b) || (b[9] != 0x06 && b[9] != 0x11)
  {
  }

  lemma Halves(s: seq<u8>, t: seq<u8>, at: nat, n: nat)
    requires at + 2 * n <= |s| && at + 2 * n <= |t|
    ensures s[at..at + 2 * n] == t[at..at + 2 * n]
       <==> s[at..at + n] == t[at..at + n] && s[at + n..at + 2 * n] == t[at + n..at + 2 * n]
  {
    var a, b := s[at..at + 2 * n], t[at..at + 2 * n];
    assert a == s[at..at + n] + s[at + n..at + 2 * n] && b == t[at..at + n] + t[at + n..at + 2 * n];
    assert a[..n] == s[at..at + n] && a[n..] == s[at + n..at + 2 * n];
    assert b[..n] == t[at..at + n] && b[n..] == t[at + n..at + 2 * n];
  }

  lemma Zeros(p: Buffer)
    ensures p[20..24] == [0, 0, 0, 0] <==> p[20..22] == [0, 0] && p[22..24] == [0, 0]
  {
    assert p[20..24] == p[20..22] + p[22..24];
    assert p[20..22] == p[20..24][..2] && p[22..24] == p[20..24][2..];
  }
}
