/**
 * The frame decoder of the fast-drop agent: it classifies an Ethernet frame as
 * IPv4, IPv6 or neither, and its transport as TCP, UDP, other or none, reading
 * every field through bounds checks against the frame length `len`.
 *
 * The frame is a sequence of bytes; every pointer the C++ parser keeps into the
 * frame is modelled as an offset from the first byte of the frame (`Some(k)`),
 * and the null pointer as `None`.
 */
module PacketParser {
  import opened Types

  // Sizes and field offsets of the packed header structs.
  const EtherHdrLen := 14       // ether_hdr: two 6-byte MACs and ether_type
  const EtherTypeOffset := 12   // ether_hdr.ether_type, big-endian
  const Ipv4HdrLen := 20        // sizeof(ipv4_hdr)
  const Ipv4VersionIhlOffset := 0
  const Ipv4ProtoOffset := 9    // ipv4_hdr.next_proto_id
  const Ipv6HdrLen := 40        // sizeof(ipv6_hdr)
  const Ipv6NextHeaderOffset := 6
  const ExtNextHeaderOffset := 0
  const ExtLenOffset := 1       // ipv6_ext_hdr.hdr_ext_len
  const FragmentHdrLen := 8
  const TcpHdrLen := 20         // sizeof(tcp_hdr)
  const UdpHdrLen := 8          // sizeof(udp_hdr)

  const EtherTypeIpv4 := 0x0800
  const EtherTypeIpv6 := 0x86DD
  const ProtoTcp: byte := 6
  const ProtoUdp: byte := 17

  /** The walk over IPv6 extension headers gives up after this many iterations. */
  const MaxExtensions := 8
  /** The largest size `(hdr_ext_len + 1) * 8` an extension header can claim. */
  const MaxExtLen := 2048

  datatype NetworkProtocol = NetNone | IPv4 | IPv6
  datatype L4Protocol = L4None | TCP | UDP | Other

  /** The 16-bit big-endian field at `at` (what `ntohs` gives on the wire value). */
  function ReadBE16(s: seq<byte>, at: nat): (v: uint16)
    requires at + 2 <= |s|
    ensures v / 0x100 == s[at] && v % 0x100 == s[at + 1]
  {
    s[at] as int * 0x100 + s[at + 1] as int
  }

  // ---------------------------------------------------------------------------
  // IPv6 extension-header walk
  // ---------------------------------------------------------------------------

  /** Next-header values the walk treats as an extension header and steps over:
      Hop-by-Hop (0), Routing (43), Destination Options (60), Authentication (51),
      Encapsulating Security Payload (50), and Fragment (44). */
  predicate IsExtension(nh: byte)
  {
    nh == 0 || nh == 43 || nh == 60 || nh == 51 || nh == 50 || nh == 44
  }

  /**
   * One step of the walk. `ip6` starts at the IPv6 base header, `totalLen` is the
   * number of bytes of it that belong to the frame, and an extension header of
   * type `nh` starts at `off`. The result is the next-header value it carries and
   * the offset just past it, or None when the frame is too short: two bytes must
   * be present before a length-coded header is read (then it spans
   * `(hdr_ext_len + 1) * 8` bytes, which must also fit), eight before a Fragment
   * header is read.
   */
  function ExtStep(ip6: seq<byte>, totalLen: nat, off: nat, nh: byte): (r: Option<(byte, nat)>)
    requires totalLen <= |ip6|
    requires IsExtension(nh)
    ensures r.Some? ==> off < r.value.1 <= totalLen && r.value.1 <= off + MaxExtLen
  {
    if nh == 44 then
      if off + FragmentHdrLen > totalLen then None
      else Some((ip6[off + ExtNextHeaderOffset], off + FragmentHdrLen))
    else
      if off + 2 > totalLen then None
      else
        var next := off + (ip6[off + ExtLenOffset] as int + 1) * 8;
        if next > totalLen then None
        else Some((ip6[off + ExtNextHeaderOffset], next))
  }

  /**
   * The walk with `fuel` iterations left, from header type `nh` at `off`: the
   * first non-extension next-header value and its offset, or None when a step
   * fails or the iterations run out first.
   */
  function Walk(ip6: seq<byte>, totalLen: nat, off: nat, nh: byte, fuel: nat): (r: Option<(byte, nat)>)
    requires totalLen <= |ip6|
    ensures r.Some? ==> !IsExtension(r.value.0)
    ensures r.Some? ==> off <= r.value.1 <= off + (fuel - 1) * MaxExtLen
    ensures r.Some? && off <= totalLen ==> r.value.1 <= totalLen
    decreases fuel
  {
    if fuel == 0 then None
    else if !IsExtension(nh) then Some((nh, off))
    else
      match ExtStep(ip6, totalLen, off, nh)
      case None => None
      case Some((nh', off')) => Walk(ip6, totalLen, off', nh', fuel - 1)
  }

  /**
   * What `skip_ipv6_extension_headers` computes for an IPv6 header of `totalLen`
   * bytes: the transport protocol number and the transport offset `header_len`
   * from the start of the IPv6 header, or None (the null pointer). On success
   * the offset lies between the base header's end and the frame's end, and at
   * most seven extension headers (of at most 2048 bytes each) precede it.
   */
  function Ipv6Walk(ip6: seq<byte>, totalLen: nat): (r: Option<(byte, nat)>)
    requires Ipv6HdrLen <= totalLen <= |ip6|
    ensures r.Some? ==> !IsExtension(r.value.0)
    ensures r.Some? ==> Ipv6HdrLen <= r.value.1 <= totalLen
    ensures r.Some? ==> r.value.1 <= Ipv6HdrLen + (MaxExtensions - 1) * MaxExtLen
  {
    Walk(ip6, totalLen, Ipv6HdrLen, ip6[Ipv6NextHeaderOffset], MaxExtensions)
  }

  /** There are `k` extension headers in a row from `off`, each of which fits. */
  predicate Chains(ip6: seq<byte>, totalLen: nat, off: nat, nh: byte, k: nat)
    requires totalLen <= |ip6|
    decreases k
  {
    k == 0 ||
    (IsExtension(nh) &&
     match ExtStep(ip6, totalLen, off, nh)
     case None => false
     case Some((nh', off')) => Chains(ip6, totalLen, off', nh', k - 1))
  }

  /** A chain at least as long as the iterations left makes the walk fail. */
  lemma {:induction false} ChainsExhaustFuel(ip6: seq<byte>, totalLen: nat, off: nat, nh: byte, fuel: nat)
    requires totalLen <= |ip6|
    requires Chains(ip6, totalLen, off, nh, fuel)
    ensures Walk(ip6, totalLen, off, nh, fuel) == None
    decreases fuel
  {
    if fuel > 0 {
      var step := ExtStep(ip6, totalLen, off, nh);
      ChainsExhaustFuel(ip6, totalLen, step.value.1, step.value.0, fuel - 1);
    }
  }

  /** Eight extension headers in a row are always rejected, however well formed:
      at most seven can precede the transport header. */
  lemma EightExtensionsRejected(ip6: seq<byte>, totalLen: nat)
    requires Ipv6HdrLen <= totalLen <= |ip6|
    requires Chains(ip6, totalLen, Ipv6HdrLen, ip6[Ipv6NextHeaderOffset], MaxExtensions)
    ensures Ipv6Walk(ip6, totalLen) == None
  {
    ChainsExhaustFuel(ip6, totalLen, Ipv6HdrLen, ip6[Ipv6NextHeaderOffset], MaxExtensions);
  }

  /** The walk reads no byte at or beyond `totalLen`. */
  lemma {:induction false} WalkReadsWithin(ip6: seq<byte>, totalLen: nat, off: nat, nh: byte, fuel: nat)
    requires totalLen <= |ip6|
    ensures Walk(ip6, totalLen, off, nh, fuel) == Walk(ip6[..totalLen], totalLen, off, nh, fuel)
    decreases fuel
  {
    if fuel > 0 && IsExtension(nh) {
      var step := ExtStep(ip6, totalLen, off, nh);
      assert step == ExtStep(ip6[..totalLen], totalLen, off, nh);
      if step.Some? {
        WalkReadsWithin(ip6, totalLen, step.value.1, step.value.0, fuel - 1);
      }
    }
  }

  // ---------------------------------------------------------------------------
  // Whole-frame decoding
  // ---------------------------------------------------------------------------

  /** The header pointers and classification fields of the parser
      (`_eth`, `_ip4`, `_ip6`, `_tcp`, `_udp`, `_network_proto`, `_l4_proto`). */
  datatype Headers = Headers(
    eth: Option<nat>, ip4: Option<nat>, ip6: Option<nat>,
    tcp: Option<nat>, udp: Option<nat>,
    network: NetworkProtocol, l4: L4Protocol)

  /** The whole state of a parser object: `_data`, `_len` and the headers. */
  datatype ParserState = ParserState(data: Option<seq<byte>>, len: uint16, view: Headers)

  const NoHeaders := Headers(None, None, None, None, None, NetNone, L4None)

  /** The Ethernet header's type field (frame bytes 12 and 13, big-endian). */
  function EtherType(frame: seq<byte>): (t: uint16)
    requires EtherHdrLen <= |frame|
  {
    ReadBE16(frame, EtherTypeOffset)
  }

  /** IHL, the low nibble of the IPv4 version/IHL byte, in 32-bit words. */
  function Ihl(frame: seq<byte>): (words: nat)
    requires EtherHdrLen + Ipv4HdrLen <= |frame|
  {
    frame[EtherHdrLen + Ipv4VersionIhlOffset] % 16
  }

  /** The headers right after the Ethernet header is taken: only `_eth` is set. */
  const EthOnly := NoHeaders.(eth := Some(0))

  /**
   * What `parse` computes for a non-null frame of `len >= 14` bytes: whether it
   * returns true and the headers it leaves behind. Failures past the Ethernet
   * header still leave the headers assigned up to the point of failure.
   */
  function Decode(frame: seq<byte>, len: uint16): (r: (bool, Headers))
    requires EtherHdrLen <= len <= |frame|
  {
    var ethType := EtherType(frame);
    if ethType == EtherTypeIpv6 then DecodeIpv6(frame, len)
    else if ethType == EtherTypeIpv4 then DecodeIpv4(frame, len)
    else (true, EthOnly)
  }

  /** The headers once the IPv6 base header is taken. */
  const Ipv6Only := EthOnly.(ip6 := Some(EtherHdrLen), network := IPv6)

  /** The IPv6 branch of `parse`. */
  function DecodeIpv6(frame: seq<byte>, len: uint16): (r: (bool, Headers))
    requires EtherHdrLen <= len <= |frame|
  {
    if len < EtherHdrLen + Ipv6HdrLen then (false, EthOnly)
    else
      match Ipv6Walk(frame[EtherHdrLen..], len - EtherHdrLen)
      case None => (false, Ipv6Only)
      case Some((nh, l4Offset)) => (true, Ipv6Transport(Ipv6Only, nh, EtherHdrLen + l4Offset, len))
  }

  /** The transport classification at the end of the IPv6 branch: transport
      protocol `nh` starts at frame offset `l4At`. */
  function Ipv6Transport(h6: Headers, nh: byte, l4At: nat, len: uint16): (h: Headers)
    requires l4At <= len
  {
    var l4Len: uint16 := len - l4At;
    if nh == ProtoTcp then
      if l4Len >= TcpHdrLen then h6.(tcp := Some(l4At), l4 := TCP) else h6
    else if nh == ProtoUdp then
      if l4Len >= UdpHdrLen then h6.(udp := Some(l4At), l4 := UDP) else h6
    else
      h6.(l4 := Other)
  }

  /** The IPv6 branch in terms of the extension walk's outcome. */
  lemma Ipv6Branch(frame: seq<byte>, len: uint16)
    requires EtherHdrLen + Ipv6HdrLen <= len <= |frame|
    ensures var w := Ipv6Walk(frame[EtherHdrLen..], len - EtherHdrLen);
      DecodeIpv6(frame, len) ==
        if w.None? then (false, Ipv6Only)
        else (true, Ipv6Transport(Ipv6Only, w.value.0, EtherHdrLen + w.value.1, len))
  {
  }

  /** The IPv6 branch when the extension walk fails. */
  lemma Ipv6Rejected(frame: seq<byte>, len: uint16)
    requires EtherHdrLen + Ipv6HdrLen <= len <= |frame|
    requires Ipv6Walk(frame[EtherHdrLen..], len - EtherHdrLen).None?
    ensures DecodeIpv6(frame, len) == (false, Ipv6Only)
  {
    Ipv6Branch(frame, len);
  }

  /** The IPv6 branch when the extension walk ends at `l4Offset` with `nh`. */
  lemma Ipv6Accepted(frame: seq<byte>, len: uint16, nh: byte, l4Offset: nat)
    requires EtherHdrLen + Ipv6HdrLen <= len <= |frame|
    requires Ipv6Walk(frame[EtherHdrLen..], len - EtherHdrLen) == Some((nh, l4Offset))
    ensures EtherHdrLen + l4Offset <= len
    ensures DecodeIpv6(frame, len) == (true, Ipv6Transport(Ipv6Only, nh, EtherHdrLen + l4Offset, len))
  {
    Ipv6Branch(frame, len);
  }

  /** The IPv4 branch of `parse`. */
  function DecodeIpv4(frame: seq<byte>, len: uint16): (r: (bool, Headers))
    requires EtherHdrLen <= len <= |frame|
  {
    if len < EtherHdrLen + Ipv4HdrLen then (false, EthOnly)
    else
      var h4 := EthOnly.(ip4 := Some(EtherHdrLen), network := IPv4);
      var ipHeaderLen := Ihl(frame) * 4;
      if len < EtherHdrLen + ipHeaderLen then (false, h4)
      else
        var proto := frame[EtherHdrLen + Ipv4ProtoOffset];
        var l4At := EtherHdrLen + ipHeaderLen;
        var l4Len: uint16 := len - l4At;
        if proto == ProtoTcp && l4Len >= TcpHdrLen then (true, h4.(tcp := Some(l4At), l4 := TCP))
        else if proto == ProtoUdp && l4Len >= UdpHdrLen then (true, h4.(udp := Some(l4At), l4 := UDP))
        else (true, h4.(l4 := Other))
  }

  /** The result and the new state of `parse(data, len)` on a parser in state `s`. */
  function AfterParse(s: ParserState, data: Option<seq<byte>>, len: uint16): (r: (bool, ParserState))
    requires data.Some? ==> len <= |data.value|
  {
    if data.None? || len < EtherHdrLen then (false, s)
    else
      var (ok, h) := Decode(data.value, len);
      (ok, ParserState(data, len, h))
  }

  /** Every header pointer that is set lies wholly inside the first `len` bytes:
      the Ethernet header at 0, the IP header at 14, and a whole TCP or UDP header
      at the recorded transport offset. */
  predicate WithinFrame(h: Headers, len: nat)
  {
    && (h.eth.Some? ==> h.eth.value == 0 && EtherHdrLen <= len)
    && (h.ip4.Some? ==> h.ip4.value == EtherHdrLen && EtherHdrLen + Ipv4HdrLen <= len)
    && (h.ip6.Some? ==> h.ip6.value == EtherHdrLen && EtherHdrLen + Ipv6HdrLen <= len)
    && (h.tcp.Some? ==> EtherHdrLen <= h.tcp.value && h.tcp.value + TcpHdrLen <= len)
    && (h.udp.Some? ==> EtherHdrLen <= h.udp.value && h.udp.value + UdpHdrLen <= len)
  }

  /** The classification agrees with the pointers: a transport pointer is set
      exactly for TCP or UDP, an IP pointer exactly for the matching network
      protocol, and a transport protocol is only set under a network protocol. */
  predicate Consistent(h: Headers)
  {
    && (h.l4 == TCP <==> h.tcp.Some?)
    && (h.l4 == UDP <==> h.udp.Some?)
    && (h.network == IPv4 <==> h.ip4.Some?)
    && (h.network == IPv6 <==> h.ip6.Some?)
    && (h.l4 != L4None ==> h.network != NetNone)
  }

  // ---------------------------------------------------------------------------
  // Properties of parse
  // ---------------------------------------------------------------------------

  /** A null frame or one shorter than an Ethernet header is refused before any
      member is assigned: the parser state is left exactly as it was. */
  lemma ShortFrameRejected(s: ParserState, data: Option<seq<byte>>, len: uint16)
    requires data.Some? ==> len <= |data.value|
    requires data.None? || len < EtherHdrLen
    ensures AfterParse(s, data, len) == (false, s)
  {
  }

  /** Whatever the bytes, every header the parser records is inside the frame
      and the classification agrees with the recorded headers. */
  lemma DecodeWellFormed(frame: seq<byte>, len: uint16)
    requires EtherHdrLen <= len <= |frame|
    ensures WithinFrame(Decode(frame, len).1, len) && Consistent(Decode(frame, len).1)
  {
  }

  /** `parse` reads no byte at or beyond `len`. */
  lemma DecodeReadsWithin(frame: seq<byte>, len: uint16)
    requires EtherHdrLen <= len <= |frame|
    ensures Decode(frame, len) == Decode(frame[..len], len)
  {
    var short := frame[..len];
    assert EtherType(frame) == EtherType(short);
    if len >= EtherHdrLen + Ipv4HdrLen {
      assert Ihl(frame) == Ihl(short);
      assert frame[EtherHdrLen + Ipv4ProtoOffset] == short[EtherHdrLen + Ipv4ProtoOffset];
    }
    assert DecodeIpv4(frame, len) == DecodeIpv4(short, len);
    if len >= EtherHdrLen + Ipv6HdrLen {
      var t := len - EtherHdrLen;
      var a, b := frame[EtherHdrLen..], short[EtherHdrLen..];
      assert a[Ipv6NextHeaderOffset] == b[Ipv6NextHeaderOffset];
      WalkReadsWithin(a, t, Ipv6HdrLen, a[Ipv6NextHeaderOffset], MaxExtensions);
      WalkReadsWithin(b, t, Ipv6HdrLen, b[Ipv6NextHeaderOffset], MaxExtensions);
      assert a[..t] == b[..t];
      assert Ipv6Walk(a, t) == Ipv6Walk(b, t);
    }
    assert DecodeIpv6(frame, len) == DecodeIpv6(short, len);
  }

  /** An ethertype other than IPv4 or IPv6 is a success with no network and no
      transport protocol. */
  lemma OtherEtherTypeAccepted(frame: seq<byte>, len: uint16)
    requires EtherHdrLen <= len <= |frame|
    requires EtherType(frame) != EtherTypeIpv4 && EtherType(frame) != EtherTypeIpv6
    ensures Decode(frame, len) == (true, EthOnly)
  {
  }

  /**
   * IPv4: the frame is accepted exactly when it holds the 20-byte base header and
   * the `4 * IHL` bytes the header claims (an IHL below 5 is not refused). The
   * transport starts at `14 + 4 * IHL`; it is TCP exactly for protocol 6 with 20
   * bytes left, UDP exactly for protocol 17 with 8 bytes left, and otherwise
   * OTHER, a truncated TCP or UDP header included.
   */
  lemma Ipv4Classification(frame: seq<byte>, len: uint16)
    requires EtherHdrLen <= len <= |frame|
    requires EtherType(frame) == EtherTypeIpv4
    ensures var (ok, h) := Decode(frame, len);
      && (ok <==> len >= EtherHdrLen + Ipv4HdrLen && len >= EtherHdrLen + 4 * Ihl(frame))
      && (len >= EtherHdrLen + Ipv4HdrLen ==> h.network == IPv4 && h.ip4 == Some(EtherHdrLen))
      && (!ok ==> h.l4 == L4None)
      && (ok ==>
            var l4At := EtherHdrLen + 4 * Ihl(frame);
            var proto := frame[EtherHdrLen + Ipv4ProtoOffset];
            && (h.l4 == TCP <==> proto == ProtoTcp && len - l4At >= TcpHdrLen)
            && (h.l4 == UDP <==> proto == ProtoUdp && len - l4At >= UdpHdrLen)
            && (h.l4 == Other <==> h.l4 != TCP && h.l4 != UDP)
            && (h.tcp.Some? ==> h.tcp.value == l4At)
            && (h.udp.Some? ==> h.udp.value == l4At))
  {
  }

  /**
   * IPv6: a frame shorter than the 40-byte base header is rejected with only the
   * Ethernet header recorded. Otherwise the frame is accepted exactly when the
   * extension walk succeeds. The transport then starts at `14 + header_len`;
   * TCP needs 20 bytes and UDP 8 bytes there, and when they are missing the frame
   * is still accepted with no transport protocol; any other final next-header
   * value gives OTHER.
   */
  lemma Ipv6Classification(frame: seq<byte>, len: uint16)
    requires EtherHdrLen <= len <= |frame|
    requires EtherType(frame) == EtherTypeIpv6
    ensures var (ok, h) := Decode(frame, len);
      && (len < EtherHdrLen + Ipv6HdrLen ==> !ok && h == EthOnly)
      && (len >= EtherHdrLen + Ipv6HdrLen ==>
            var w := Ipv6Walk(frame[EtherHdrLen..], len - EtherHdrLen);
            && h.network == IPv6 && h.ip6 == Some(EtherHdrLen)
            && (ok <==> w.Some?)
            && (!ok ==> h.l4 == L4None)
            && (ok ==>
                  var (nh, hl) := w.value;
                  var l4At := EtherHdrLen + hl;
                  && (h.l4 == TCP <==> nh == ProtoTcp && len - l4At >= TcpHdrLen)
                  && (h.l4 == UDP <==> nh == ProtoUdp && len - l4At >= UdpHdrLen)
                  && (h.l4 == Other <==> nh != ProtoTcp && nh != ProtoUdp)
                  && (h.tcp.Some? ==> h.tcp.value == l4At)
                  && (h.udp.Some? ==> h.udp.value == l4At)))
  {
  }

  /** A single Hop-by-Hop header with length field 0 (8 bytes) followed by a full
      TCP header: the TCP header is found at frame byte 14 + 40 + 8 = 62. */
  lemma HopByHopThenTcp(frame: seq<byte>, len: uint16)
    requires 62 + TcpHdrLen <= len <= |frame|
    requires frame[12] == 0x86 && frame[13] == 0xDD
    requires frame[EtherHdrLen + Ipv6NextHeaderOffset] == 0
    requires frame[54] == ProtoTcp && frame[55] == 0
    ensures Decode(frame, len) == (true, Headers(Some(0), None, Some(14), Some(62), None, IPv6, TCP))
  {
    var ip6 := frame[EtherHdrLen..];
    var t := len - EtherHdrLen;
    var atTcp: Option<(byte, nat)> := Some((ProtoTcp, 48));
    assert ExtStep(ip6, t, Ipv6HdrLen, 0) == atTcp;
    assert Walk(ip6, t, 48, ProtoTcp, MaxExtensions - 1) == atTcp;
  }

  /** A TCP-over-IPv4 frame with IHL 5: the TCP header is at byte 34, so its
      source-port bytes 0x30 0x39 read as port 12345. */
  lemma Ipv4TcpSourcePort(frame: seq<byte>, len: uint16)
    requires 54 <= len <= |frame|
    requires frame[12] == 0x08 && frame[13] == 0x00
    requires frame[14] == 0x45 && frame[23] == ProtoTcp
    requires frame[34] == 0x30 && frame[35] == 0x39
    ensures Decode(frame, len).1.tcp == Some(34) && Decode(frame, len).1.l4 == TCP
    ensures ReadBE16(frame, 34) == 12345
  {
  }

  /** An IHL below 5 is accepted: with IHL 0 the "TCP header" recorded starts at
      byte 14, on top of the IPv4 header itself. */
  lemma Ipv4ZeroIhlAccepted(frame: seq<byte>, len: uint16)
    requires 34 <= len <= |frame|
    requires frame[12] == 0x08 && frame[13] == 0x00
    requires frame[14] == 0x40 && frame[23] == ProtoTcp
    ensures Decode(frame, len) == (true, Headers(Some(0), Some(14), None, Some(14), None, IPv4, TCP))
  {
  }

  // ---------------------------------------------------------------------------
  // MAC formatting
  // ---------------------------------------------------------------------------

  predicate IsUpperHex(c: char)
  {
    '0' <= c <= '9' || 'A' <= c <= 'F'
  }

  /** The value of an upper-case hexadecimal digit. */
  function HexValue(c: char): (v: nat)
    requires IsUpperHex(c)
    ensures v < 16
  {
    if c <= '9' then c as int - '0' as int else c as int - 'A' as int + 10
  }

  /** `std::hex << std::uppercase` of one digit. */
  function HexDigit(d: nat): (c: char)
    requires d < 16
    ensures IsUpperHex(c) && HexValue(c) == d
  {
    if d < 10 then ('0' as int + d) as char else ('A' as int + d - 10) as char
  }

  /** A byte printed with `std::setw(2) << std::setfill('0') << std::hex`. */
  function HexByte(b: byte): (s: string)
    ensures |s| == 2 && IsUpperHex(s[0]) && IsUpperHex(s[1])
    ensures HexValue(s[0]) * 16 + HexValue(s[1]) == b
  {
    [HexDigit(b / 16), HexDigit(b % 16)]
  }

  /** Character `k` of the printed MAC address: groups of two hex digits, one
      group per byte, separated by ':'. */
  function MacChar(mac: seq<byte>, k: nat): (c: char)
    requires |mac| >= 6 && k < 17
  {
    if k % 3 == 2 then ':' else HexByte(mac[k / 3])[k % 3]
  }

  /** The text `mac_to_string` produces for the six bytes at `mac`. */
  function MacString(mac: seq<byte>): (s: string)
    requires |mac| >= 6
    ensures |s| == 17
    ensures forall k :: 0 <= k < 17 ==> (s[k] == ':' <==> k % 3 == 2)
    ensures forall i :: 0 <= i < 6 ==> s[3 * i..3 * i + 2] == HexByte(mac[i])
  {
    seq(17, k requires 0 <= k < 17 => MacChar(mac, k))
  }

  /** Reads six bytes back from a printed MAC address. */
  function ParseMac(s: string): (mac: seq<byte>)
    requires |s| == 17
    requires forall k :: 0 <= k < 17 && k % 3 != 2 ==> IsUpperHex(s[k])
    ensures |mac| == 6
  {
    seq(6, i requires 0 <= i < 6 => HexValue(s[3 * i]) * 16 + HexValue(s[3 * i + 1]))
  }

  /** Printing a MAC address loses nothing: parsing the text gives the bytes back. */
  lemma MacStringRoundTrip(mac: seq<byte>)
    requires |mac| >= 6
    ensures var s := MacString(mac);
      (forall k :: 0 <= k < 17 && k % 3 != 2 ==> IsUpperHex(s[k])) && ParseMac(s) == mac[..6]
  {
    var s := MacString(mac);
    forall k | 0 <= k < 17 && k % 3 != 2 ensures IsUpperHex(s[k]) {
      assert s[k] == MacChar(mac, k);
    }
    forall i | 0 <= i < 6 ensures ParseMac(s)[i] == mac[i] {
      assert s[3 * i..3 * i + 2] == HexByte(mac[i]);
      assert s[3 * i] == HexByte(mac[i])[0] && s[3 * i + 1] == HexByte(mac[i])[1];
    }
  }

  // ---------------------------------------------------------------------------
  // The parser object
  // ---------------------------------------------------------------------------

  /** `dpdk_packet_parser`: the state of the last parse, updated member by member. */
  class Parser {
    var data: Option<seq<byte>>
    var len: uint16
    var eth: Option<nat>
    var ip4: Option<nat>
    var ip6: Option<nat>
    var tcp: Option<nat>
    var udp: Option<nat>
    var networkProto: NetworkProtocol
    var l4Proto: L4Protocol

    function State(): ParserState
      reads this
    {
      ParserState(data, len, Headers(eth, ip4, ip6, tcp, udp, networkProto, l4Proto))
    }

    /** Every recorded header lies within the `len` bytes of the recorded frame
        and agrees with the classification. */
    ghost predicate Valid()
      reads this
    {
      && (eth.Some? ==> data.Some? && len <= |data.value|)
      && WithinFrame(State().view, len)
      && Consistent(State().view)
    }

    constructor ()
      ensures Valid()
      ensures State() == ParserState(None, 0, NoHeaders)
    {
      data, len := None, 0;
      eth, ip4, ip6, tcp, udp := None, None, None, None, None;
      networkProto, l4Proto := NetNone, L4None;
    }

    /**
     * `skip_ipv6_extension_headers`: `ip6` starts at the IPv6 base header and
     * holds `totalLen` bytes of the frame. Returns the transport pointer as an
     * offset from the IPv6 header (None for null), the last next-header value
     * read, and `header_len`, which is only written on success.
     */
    method SkipIpv6ExtensionHeaders(ip6: seq<byte>, totalLen: uint16, headerLenIn: uint16)
      returns (l4: Option<nat>, nextHeader: byte, headerLen: uint16)
      requires Ipv6HdrLen <= totalLen <= |ip6|
      ensures l4.Some? <==> Ipv6Walk(ip6, totalLen).Some?
      ensures l4.Some? ==> Ipv6Walk(ip6, totalLen) == Some((nextHeader, headerLen)) && l4.value == headerLen
      ensures l4.None? ==> headerLen == headerLenIn
    {
      var offset: uint16 := Ipv6HdrLen;
      nextHeader := ip6[Ipv6NextHeaderOffset];
      headerLen := headerLenIn;
      var maxExtensions := MaxExtensions;
      while maxExtensions > 0
        invariant 0 <= maxExtensions <= MaxExtensions
        invariant Ipv6HdrLen <= offset <= totalLen
        invariant offset <= Ipv6HdrLen + (MaxExtensions - maxExtensions) * MaxExtLen
        invariant Walk(ip6, totalLen, offset, nextHeader, maxExtensions) == Ipv6Walk(ip6, totalLen)
        decreases maxExtensions
      {
        ghost var remaining := Walk(ip6, totalLen, offset, nextHeader, maxExtensions);
        maxExtensions := maxExtensions - 1;
        if nextHeader == 0 || nextHeader == 43 || nextHeader == 60 || nextHeader == 51 || nextHeader == 50 {
          ghost var step := ExtStep(ip6, totalLen, offset, nextHeader);
          assert remaining == if step.None? then None else Walk(ip6, totalLen, step.value.1, step.value.0, maxExtensions);
          if offset + 2 > totalLen {
            assert step.None?;
            return None, nextHeader, headerLen;
          }
          nextHeader := ip6[offset + ExtNextHeaderOffset];
          var extLen: uint16 := (ip6[offset + ExtLenOffset] as int + 1) * 8;
          assert offset + extLen < 0x1_0000;
          offset := Add16(offset, extLen);
          if offset > totalLen {
            assert step.None?;
            return None, nextHeader, headerLen;
          }
          assert step.Some? && step.value.0 == nextHeader && step.value.1 == offset;
        } else if nextHeader == 44 {
          ghost var step := ExtStep(ip6, totalLen, offset, nextHeader);
          assert remaining == if step.None? then None else Walk(ip6, totalLen, step.value.1, step.value.0, maxExtensions);
          if offset + FragmentHdrLen > totalLen {
            assert step.None?;
            return None, nextHeader, headerLen;
          }
          nextHeader := ip6[offset + ExtNextHeaderOffset];
          offset := Add16(offset, FragmentHdrLen);
          if offset > totalLen {
            return None, nextHeader, headerLen;
          }
          assert step.Some? && step.value.0 == nextHeader && step.value.1 == offset;
        } else {
          headerLen := offset;
          return Some(offset), nextHeader, headerLen;
        }
      }
      return None, nextHeader, headerLen;
    }

    /** `parse(data, len)`; `data == None` is the null pointer and `len` may not
        exceed the bytes that are there. */
    method Parse(data: Option<seq<byte>>, len: uint16) returns (ok: bool)
      requires Valid()
      requires data.Some? ==> len <= |data.value|
      modifies this
      ensures Valid()
      ensures (ok, State()) == AfterParse(old(State()), data, len)
    {
      if data.None? || len < EtherHdrLen {
        return false;
      }
      var frame := data.value;
      this.data := data;
      this.len := len;
      eth := Some(0);
      var ethType := ReadBE16(frame, EtherTypeOffset);
      ip4, ip6, tcp, udp := None, None, None, None;
      networkProto, l4Proto := NetNone, L4None;

      if ethType == EtherTypeIpv6 {
        ok := ParseIpv6(frame, len);
      } else if ethType == EtherTypeIpv4 {
        ok := ParseIpv4(frame, len);
      } else {
        networkProto := NetNone;
        l4Proto := L4None;
        ok := true;
      }
      DecodeWellFormed(frame, len);
    }

    /** The IPv6 branch of `parse`, entered with only `_eth` set. */
    method ParseIpv6(frame: seq<byte>, len: uint16) returns (ok: bool)
      requires EtherHdrLen <= len <= |frame|
      requires State().view == EthOnly
      modifies this
      ensures (ok, State()) == (DecodeIpv6(frame, len).0, old(State()).(view := DecodeIpv6(frame, len).1))
    {
      if len < EtherHdrLen + Ipv6HdrLen {
        return false;
      }
      ip6 := Some(EtherHdrLen);
      networkProto := IPv6;
      assert State().view == Ipv6Only;
      var l4Ptr, nextHeader, l4Offset := SkipIpv6ExtensionHeaders(frame[EtherHdrLen..], len - EtherHdrLen, 0);
      if l4Ptr.None? {
        Ipv6Rejected(frame, len);
        return false;
      }
      Ipv6Accepted(frame, len, nextHeader, l4Offset);
      ClassifyIpv6Transport(nextHeader, EtherHdrLen + l4Ptr.value, len);
      return true;
    }

    /** The tail of the IPv6 branch: record the transport header that starts at
        frame offset `l4At` when protocol `nh` is TCP or UDP and its fixed
        header fits. */
    method ClassifyIpv6Transport(nh: byte, l4At: nat, len: uint16)
      requires l4At <= len
      requires State().view == Ipv6Only
      modifies this
      ensures State() == old(State()).(view := Ipv6Transport(Ipv6Only, nh, l4At, len))
    {
      var l4Len: uint16 := len - l4At;
      if nh == ProtoTcp {
        if l4Len >= TcpHdrLen {
          tcp := Some(l4At);
          l4Proto := TCP;
        }
      } else if nh == ProtoUdp {
        if l4Len >= UdpHdrLen {
          udp := Some(l4At);
          l4Proto := UDP;
        }
      } else {
        l4Proto := Other;
      }
    }

    /** The IPv4 branch of `parse`, entered with only `_eth` set. */
    method ParseIpv4(frame: seq<byte>, len: uint16) returns (ok: bool)
      requires EtherHdrLen <= len <= |frame|
      requires State().view == EthOnly
      modifies this
      ensures (ok, State()) == (DecodeIpv4(frame, len).0, old(State()).(view := DecodeIpv4(frame, len).1))
    {
      if len < EtherHdrLen + Ipv4HdrLen {
        return false;
      }
      ip4 := Some(EtherHdrLen);
      networkProto := IPv4;
      var ihl := frame[EtherHdrLen + Ipv4VersionIhlOffset] % 16;
      var ipHeaderLen: uint16 := ihl * 4;
      if len < EtherHdrLen + ipHeaderLen {
        return false;
      }
      var nextProto := frame[EtherHdrLen + Ipv4ProtoOffset];
      var l4At := EtherHdrLen + ipHeaderLen;
      var l4Len: uint16 := len - l4At;
      if nextProto == ProtoTcp && l4Len >= TcpHdrLen {
        tcp := Some(l4At);
        l4Proto := TCP;
      } else if nextProto == ProtoUdp && l4Len >= UdpHdrLen {
        udp := Some(l4At);
        l4Proto := UDP;
      } else {
        l4Proto := Other;
      }
      return true;
    }

    /** `mac_to_string`: the six bytes at `mac` as upper-case hex pairs joined by ':'. */
    method MacToString(mac: seq<byte>) returns (s: string)
      requires |mac| >= 6
      ensures s == MacString(mac)
    {
      s := "";
      for i := 0 to 6
        invariant |s| == if i < 6 then 3 * i else 17
        invariant forall k :: 0 <= k < |s| ==> s[k] == MacChar(mac, k)
      {
        s := s + HexByte(mac[i]);
        if i != 5 {
          s := s + ":";
        }
      }
    }
  }
}
