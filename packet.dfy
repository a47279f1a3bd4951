/**
 * `create_data_packet` of the raw-socket spoofer: an IPv4 header (RFC 791
 * section 3.1), a TCP header (RFC 793 section 3.1) followed by 20 option
 * bytes, and the payload, laid out in a zeroed 4096-byte buffer; then the TCP
 * checksum over the pseudo-header and the segment, and the IP checksum over
 * the first `tot_len` bytes.
 *
 * Header structs are records holding the values of the struct members; their
 * memory image is the RFC byte layout with every 16/32-bit member stored in
 * host (little-endian) order.
 */
module Packet {
  import opened Bytes
  import opened InternetChecksum

  const DATAGRAM_LEN: nat := 4096
  const OPT_SIZE: nat := 20
  /** `sizeof(struct iphdr)`, `sizeof(struct tcphdr)`, `sizeof(struct pseudo_header)`. */
  const IP_HDR_LEN: nat := 20
  const TCP_HDR_LEN: nat := 20
  const PSEUDO_HDR_LEN: nat := 12
  const PAYLOAD_OFFSET: nat := IP_HDR_LEN + TCP_HDR_LEN + OPT_SIZE
  /** Offsets of the two checksum fields within their headers. */
  const IP_CHECK_OFFSET: nat := 10
  const TCP_CHECK_OFFSET: nat := 16
  const IPPROTO_TCP: byte := 6
  const TTL: byte := 64
  const WINDOW: u16 := 5840
  /** `iph->id = htonl(24606)`: the 32-bit swap truncated into the 16-bit member. */
  const IP_ID: u16 := Htonl(24606) % 0x1_0000

  type nibble = x: int | 0 <= x < 0x10

  /** A `sockaddr_in` as used here: `sin_addr.s_addr` and `sin_port`, already in network order. */
  datatype Endpoint = Endpoint(addr: u32, port: u16)

  datatype IpHeader = IpHeader(
    ihl: nibble, version: nibble, tos: byte, totLen: u16, id: u16,
    fragOff: u16, ttl: byte, protocol: byte, check: u16, saddr: u32, daddr: u32)

  datatype TcpFlags = TcpFlags(fin: bool, syn: bool, rst: bool, psh: bool, ack: bool, urg: bool)

  datatype TcpHeader = TcpHeader(
    source: u16, dest: u16, seqNum: u32, ackSeq: u32, doff: nibble,
    flags: TcpFlags, window: u16, check: u16, urgPtr: u16)

  // ---------------------------------------------------------------------
  // Memory images of the headers and their inverses

  function Bit(b: bool): nat { if b then 1 else 0 }

  /** The flag byte: FIN is bit 0, then SYN, RST, PSH, ACK, URG; the two reserved bits stay 0. */
  function FlagByte(f: TcpFlags): (b: byte)
  {
    Bit(f.fin) + 2 * Bit(f.syn) + 4 * Bit(f.rst) + 8 * Bit(f.psh) + 16 * Bit(f.ack) + 32 * Bit(f.urg)
  }

  function DecodeFlags(b: byte): TcpFlags
  {
    TcpFlags(b % 2 == 1, (b / 2) % 2 == 1, (b / 4) % 2 == 1, (b / 8) % 2 == 1, (b / 16) % 2 == 1, (b / 32) % 2 == 1)
  }

  lemma FlagsRoundTrip(f: TcpFlags)
    ensures DecodeFlags(FlagByte(f)) == f
  {
  }

  /** IP header bytes 0-9, in front of the checksum field. */
  function IpBeforeCheck(h: IpHeader): (b: seq<byte>)
    ensures |b| == IP_CHECK_OFFSET
  {
    [h.ihl + 0x10 * h.version, h.tos, h.totLen % 0x100, h.totLen / 0x100, h.id % 0x100, h.id / 0x100,
     h.fragOff % 0x100, h.fragOff / 0x100, h.ttl, h.protocol]
  }

  /** IP header bytes 12-19, after the checksum field: the two addresses. */
  function IpAfterCheck(h: IpHeader): (b: seq<byte>)
    ensures |b| == 8
  {
    HostU32(h.saddr) + HostU32(h.daddr)
  }

  function EncodeIp(h: IpHeader): (b: seq<byte>)
    ensures |b| == IP_HDR_LEN
  {
    IpBeforeCheck(h) + HostU16(h.check) + IpAfterCheck(h)
  }

  function DecodeIp(b: seq<byte>): IpHeader
    requires |b| >= IP_HDR_LEN
  {
    IpHeader(
      b[0] % 0x10, b[0] / 0x10, b[1], ReadU16(b[2], b[3]), ReadU16(b[4], b[5]),
      ReadU16(b[6], b[7]), b[8], b[9], ReadU16(b[10], b[11]),
      ReadU32(b[12], b[13], b[14], b[15]), ReadU32(b[16], b[17], b[18], b[19]))
  }

  /** Reading an IP header back from its memory image gives every member back. */
  lemma IpRoundTrip(h: IpHeader)
    ensures DecodeIp(EncodeIp(h)) == h
  {
    var b := EncodeIp(h);
    var before, after := IpBeforeCheck(h), IpAfterCheck(h);
    assert b[..10] == before && b[10..12] == HostU16(h.check) && b[12..] == after;
    assert after[..4] == HostU32(h.saddr) && after[4..] == HostU32(h.daddr);
    assert (h.ihl + 0x10 * h.version) % 0x10 == h.ihl;
    HostU16RoundTrip(h.totLen);
    HostU16RoundTrip(h.id);
    HostU16RoundTrip(h.fragOff);
    HostU16RoundTrip(h.check);
    HostU32RoundTrip(h.saddr);
    HostU32RoundTrip(h.daddr);
  }

  /** TCP header bytes 0-15, in front of the checksum field; the reserved nibble of byte 12 is 0. */
  function TcpBeforeCheck(h: TcpHeader): (b: seq<byte>)
    ensures |b| == TCP_CHECK_OFFSET
  {
    HostU16(h.source) + HostU16(h.dest) + HostU32(h.seqNum) + HostU32(h.ackSeq)
      + [0x10 * h.doff, FlagByte(h.flags)] + HostU16(h.window)
  }

  function EncodeTcp(h: TcpHeader): (b: seq<byte>)
    ensures |b| == TCP_HDR_LEN
  {
    TcpBeforeCheck(h) + HostU16(h.check) + HostU16(h.urgPtr)
  }

  function DecodeTcp(b: seq<byte>): TcpHeader
    requires |b| >= TCP_HDR_LEN
  {
    TcpHeader(
      ReadU16(b[0], b[1]), ReadU16(b[2], b[3]),
      ReadU32(b[4], b[5], b[6], b[7]), ReadU32(b[8], b[9], b[10], b[11]),
      b[12] / 0x10, DecodeFlags(b[13]), ReadU16(b[14], b[15]),
      ReadU16(b[16], b[17]), ReadU16(b[18], b[19]))
  }

  /** Reading a TCP header back from its memory image gives every member back. */
  lemma TcpRoundTrip(h: TcpHeader)
    ensures DecodeTcp(EncodeTcp(h)) == h
  {
    var b := EncodeTcp(h);
    assert b[12] == 0x10 * h.doff && b[13] == FlagByte(h.flags);
    FlagsRoundTrip(h.flags);
    HostU16RoundTrip(h.source);
    HostU16RoundTrip(h.dest);
    HostU32RoundTrip(h.seqNum);
    HostU32RoundTrip(h.ackSeq);
    HostU16RoundTrip(h.window);
    HostU16RoundTrip(h.check);
    HostU16RoundTrip(h.urgPtr);
  }

  // ---------------------------------------------------------------------
  // What create_data_packet writes

  /** The payload fits: the headers, the options and the data within DATAGRAM_LEN. */
  predicate Fits(data: seq<byte>)
  {
    PAYLOAD_OFFSET + |data| <= DATAGRAM_LEN
  }

  function TotalLength(data: seq<byte>): (n: u16)
    requires Fits(data)
  {
    IP_HDR_LEN + TCP_HDR_LEN + OPT_SIZE + |data|
  }

  /** The IP header members as create_data_packet assigns them, with checksum member `check`. */
  function IpHeaderFor(src: Endpoint, dst: Endpoint, data: seq<byte>, check: u16): IpHeader
    requires Fits(data)
  {
    IpHeader(5, 4, 0, TotalLength(data), IP_ID, 0, TTL, IPPROTO_TCP, check, src.addr, dst.addr)
  }

  const PSH_ACK: TcpFlags := TcpFlags(false, false, false, true, true, false)

  /** The TCP header members as create_data_packet assigns them, with checksum member `check`. */
  function TcpHeaderFor(src: Endpoint, dst: Endpoint, seqNum: u32, ackSeq: u32, check: u16): TcpHeader
  {
    TcpHeader(src.port, dst.port, Htonl(seqNum), Htonl(ackSeq), 10, PSH_ACK, Htons(WINDOW), check, 0)
  }

  /** `struct pseudo_header` in memory; `tcp_length` is stored after `htons`. */
  function PseudoHeader(src: Endpoint, dst: Endpoint, data: seq<byte>): (b: seq<byte>)
    requires Fits(data)
    ensures |b| == PSEUDO_HDR_LEN
  {
    HostU32(src.addr) + HostU32(dst.addr) + [0, IPPROTO_TCP]
      + HostU16(Htons(TCP_HDR_LEN + OPT_SIZE + |data|))
  }

  /** The TCP header, the (zero) option bytes and the payload. */
  function Segment(h: TcpHeader, data: seq<byte>): (b: seq<byte>)
    ensures |b| == TCP_HDR_LEN + OPT_SIZE + |data|
  {
    EncodeTcp(h) + Zeros(OPT_SIZE) + data
  }

  /** `tcph->check`: checksum of the pseudo-header and the segment while `check` is 0. */
  function TcpCheck(src: Endpoint, dst: Endpoint, seqNum: u32, ackSeq: u32, data: seq<byte>): (c: u16)
    requires Fits(data)
    ensures ChecksumOf(PseudoHeader(src, dst, data) + Segment(TcpHeaderFor(src, dst, seqNum, ackSeq, c), data)) == 0
  {
    TcpSegmentVerifies(PseudoHeader(src, dst, data), TcpHeaderFor(src, dst, seqNum, ackSeq, 0), data);
    ChecksumOf(PseudoHeader(src, dst, data) + Segment(TcpHeaderFor(src, dst, seqNum, ackSeq, 0), data))
  }

  /** `iph->check`: checksum of the first `tot_len` bytes while the IP `check` is 0. */
  function IpCheck(src: Endpoint, dst: Endpoint, seqNum: u32, ackSeq: u32, data: seq<byte>): (c: u16)
    requires Fits(data)
    ensures var seg := Segment(TcpHeaderFor(src, dst, seqNum, ackSeq, TcpCheck(src, dst, seqNum, ackSeq, data)), data);
      ChecksumOf(EncodeIp(IpHeaderFor(src, dst, data, c)) + seg) == 0
  {
    var seg := Segment(TcpHeaderFor(src, dst, seqNum, ackSeq, TcpCheck(src, dst, seqNum, ackSeq, data)), data);
    IpHeaderVerifies(IpHeaderFor(src, dst, data, 0), seg);
    ChecksumOf(EncodeIp(IpHeaderFor(src, dst, data, 0)) + seg)
  }

  /** The buffer image with the IP header `ip`, the TCP header `tcp`, zero options, the payload, zero tail. */
  function Image(ip: seq<byte>, tcp: seq<byte>, data: seq<byte>): (b: seq<byte>)
    requires |ip| == IP_HDR_LEN && |tcp| == TCP_HDR_LEN && Fits(data)
    ensures |b| == DATAGRAM_LEN
    ensures forall t :: 0 <= t < DATAGRAM_LEN ==> (b[t] ==
      if t < IP_HDR_LEN then ip[t]
      else if t < IP_HDR_LEN + TCP_HDR_LEN then tcp[t - IP_HDR_LEN]
      else if PAYLOAD_OFFSET <= t < PAYLOAD_OFFSET + |data| then data[t - PAYLOAD_OFFSET]
      else 0)
  {
    ip + tcp + Zeros(OPT_SIZE) + data + Zeros(DATAGRAM_LEN - PAYLOAD_OFFSET - |data|)
  }

  /** The whole 4096-byte buffer create_data_packet hands back. */
  function Datagram(src: Endpoint, dst: Endpoint, seqNum: u32, ackSeq: u32, data: seq<byte>): (d: seq<byte>)
    requires Fits(data)
    ensures |d| == DATAGRAM_LEN
  {
    Image(
      EncodeIp(IpHeaderFor(src, dst, data, IpCheck(src, dst, seqNum, ackSeq, data))),
      EncodeTcp(TcpHeaderFor(src, dst, seqNum, ackSeq, TcpCheck(src, dst, seqNum, ackSeq, data))),
      data)
  }

  // ---------------------------------------------------------------------
  // Properties of the datagram

  /**
   * The datagram fills the whole buffer; the payload sits verbatim at offset
   * 60; the 20 option bytes and everything after `tot_len` are zero.
   */
  lemma DatagramLayout(src: Endpoint, dst: Endpoint, seqNum: u32, ackSeq: u32, data: seq<byte>)
    requires Fits(data)
    ensures var d := Datagram(src, dst, seqNum, ackSeq, data);
      && |d| == DATAGRAM_LEN
      && TotalLength(data) == 60 + |data|
      && d[PAYLOAD_OFFSET..PAYLOAD_OFFSET + |data|] == data
      && (forall k :: IP_HDR_LEN + TCP_HDR_LEN <= k < PAYLOAD_OFFSET ==> d[k] == 0)
      && (forall k :: TotalLength(data) <= k < DATAGRAM_LEN ==> d[k] == 0)
  {
    var d := Datagram(src, dst, seqNum, ackSeq, data);
    assert d[PAYLOAD_OFFSET..PAYLOAD_OFFSET + |data|] == data;
  }

  /**
   * The headers read back from the datagram carry the values create_data_packet
   * assigns: version 4, ihl 5, tos 0, tot_len 60 + data_len, frag_off 0, ttl 64,
   * protocol TCP, the source and destination addresses and ports, doff 10,
   * only PSH and ACK set, window 5840 after htons, urg_ptr 0, and the two
   * computed checksums.
   */
  lemma DatagramHeaders(src: Endpoint, dst: Endpoint, seqNum: u32, ackSeq: u32, data: seq<byte>)
    requires Fits(data)
    ensures var d := Datagram(src, dst, seqNum, ackSeq, data);
      var ip := DecodeIp(d[..IP_HDR_LEN]);
      var tcp := DecodeTcp(d[IP_HDR_LEN..IP_HDR_LEN + TCP_HDR_LEN]);
      && ip.version == 4 && ip.ihl == 5 && ip.tos == 0 && ip.totLen == 60 + |data|
      && ip.id == IP_ID && ip.fragOff == 0 && ip.ttl == 64 && ip.protocol == IPPROTO_TCP
      && ip.saddr == src.addr && ip.daddr == dst.addr
      && ip.check == IpCheck(src, dst, seqNum, ackSeq, data)
      && tcp.source == src.port && tcp.dest == dst.port
      && tcp.seqNum == Htonl(seqNum) && tcp.ackSeq == Htonl(ackSeq) && tcp.doff == 10
      && tcp.flags.psh && tcp.flags.ack
      && !tcp.flags.fin && !tcp.flags.syn && !tcp.flags.rst && !tcp.flags.urg
      && tcp.window == Htons(5840) && tcp.urgPtr == 0
      && tcp.check == TcpCheck(src, dst, seqNum, ackSeq, data)
  {
    var d := Datagram(src, dst, seqNum, ackSeq, data);
    var iph := IpHeaderFor(src, dst, data, IpCheck(src, dst, seqNum, ackSeq, data));
    var tcph := TcpHeaderFor(src, dst, seqNum, ackSeq, TcpCheck(src, dst, seqNum, ackSeq, data));
    DatagramSplit(src, dst, seqNum, ackSeq, data);
    IpRoundTrip(iph);
    TcpRoundTrip(tcph);
  }

  /**
   * In the returned buffer, the fields set through htons/htonl are in network
   * order, while `tot_len` (assigned without htons) sits in host order and
   * the 16-bit `id` is 0, because `htonl(24606)` keeps its low half empty.
   */
  lemma DatagramByteOrder(src: Endpoint, dst: Endpoint, seqNum: u32, ackSeq: u32, data: seq<byte>)
    requires Fits(data)
    ensures var d := Datagram(src, dst, seqNum, ackSeq, data);
      && d[2..4] == [(60 + |data|) % 0x100, (60 + |data|) / 0x100]
      && d[4..6] == [0, 0]
      && d[24..28] == [seqNum / 0x100_0000, (seqNum / 0x1_0000) % 0x100, (seqNum / 0x100) % 0x100, seqNum % 0x100]
      && d[28..32] == [ackSeq / 0x100_0000, (ackSeq / 0x1_0000) % 0x100, (ackSeq / 0x100) % 0x100, ackSeq % 0x100]
      && d[34..36] == [0x16, 0xD0]
  {
    DatagramIpByteOrder(src, dst, seqNum, ackSeq, data);
    DatagramTcpByteOrder(src, dst, seqNum, ackSeq, data);
  }

  /** `tot_len` in host order and `id` 0, as they lie in the datagram. */
  lemma DatagramIpByteOrder(src: Endpoint, dst: Endpoint, seqNum: u32, ackSeq: u32, data: seq<byte>)
    requires Fits(data)
    ensures var d := Datagram(src, dst, seqNum, ackSeq, data);
      && d[2..4] == [(60 + |data|) % 0x100, (60 + |data|) / 0x100]
      && d[4..6] == [0, 0]
  {
    var d := Datagram(src, dst, seqNum, ackSeq, data);
    var iph := IpHeaderFor(src, dst, data, IpCheck(src, dst, seqNum, ackSeq, data));
    DatagramSplit(src, dst, seqNum, ackSeq, data);
    var ip := EncodeIp(iph);
    assert d[2..4] == ip[2..4] && d[4..6] == ip[4..6];
    IpLengthAndIdBytes(iph);
    IpIdIsZero();
  }

  /** `seq`, `ack_seq` and `window` in network order, as they lie in the datagram. */
  lemma DatagramTcpByteOrder(src: Endpoint, dst: Endpoint, seqNum: u32, ackSeq: u32, data: seq<byte>)
    requires Fits(data)
    ensures var d := Datagram(src, dst, seqNum, ackSeq, data);
      && d[24..28] == [seqNum / 0x100_0000, (seqNum / 0x1_0000) % 0x100, (seqNum / 0x100) % 0x100, seqNum % 0x100]
      && d[28..32] == [ackSeq / 0x100_0000, (ackSeq / 0x1_0000) % 0x100, (ackSeq / 0x100) % 0x100, ackSeq % 0x100]
      && d[34..36] == [0x16, 0xD0]
  {
    var d := Datagram(src, dst, seqNum, ackSeq, data);
    var tcph := TcpHeaderFor(src, dst, seqNum, ackSeq, TcpCheck(src, dst, seqNum, ackSeq, data));
    DatagramSplit(src, dst, seqNum, ackSeq, data);
    var tcp := EncodeTcp(tcph);
    assert d[24..28] == tcp[4..8] && d[28..32] == tcp[8..12] && d[34..36] == tcp[14..16];
    TcpNumberBytes(tcph);
    HtonlIsNetworkOrder(seqNum);
    HtonlIsNetworkOrder(ackSeq);
    HtonsIsNetworkOrder(WINDOW);
  }

  /** Where `tot_len` and `id` sit in the IP header's memory image. */
  lemma IpLengthAndIdBytes(h: IpHeader)
    ensures EncodeIp(h)[2..4] == HostU16(h.totLen) && EncodeIp(h)[4..6] == HostU16(h.id)
  {
    assert EncodeIp(h)[..10] == IpBeforeCheck(h);
  }

  /** Where `seq`, `ack_seq` and `window` sit in the TCP header's memory image. */
  lemma TcpNumberBytes(h: TcpHeader)
    ensures && EncodeTcp(h)[4..8] == HostU32(h.seqNum) && EncodeTcp(h)[8..12] == HostU32(h.ackSeq)
            && EncodeTcp(h)[14..16] == HostU16(h.window)
  {
    assert EncodeTcp(h)[..16] == TcpBeforeCheck(h);
  }

  /** `htonl(24606)` is 0x1E600000 on a little-endian host: its low 16 bits are 0. */
  lemma IpIdIsZero()
    ensures IP_ID == 0
  {
    assert 24606 % 0x100 == 0x1E && (24606 / 0x100) % 0x100 == 0x60;
    assert 24606 / 0x1_0000 == 0 && 24606 / 0x100_0000 == 0;
    assert Htonl(24606) == 0x1E * 0x100_0000 + 0x60 * 0x1_0000;
  }

  /**
   * The pseudo-header carries `tcp_length` 40 + data_len in network order,
   * and the bytes checksummed for TCP number `psize` = 12 + 40 + data_len.
   */
  lemma PseudoHeaderLength(src: Endpoint, dst: Endpoint, data: seq<byte>)
    requires Fits(data)
    ensures PseudoHeader(src, dst, data)[8..10] == [0, IPPROTO_TCP]
    ensures PseudoHeader(src, dst, data)[10..12] == [(40 + |data|) / 0x100, (40 + |data|) % 0x100]
    ensures forall h: TcpHeader :: |PseudoHeader(src, dst, data) + Segment(h, data)| == 12 + 40 + |data|
  {
    HtonsIsNetworkOrder(TCP_HDR_LEN + OPT_SIZE + |data|);
  }

  /**
   * The TCP checksum of the returned buffer checks out: the checksum of the
   * pseudo-header and the segment (with the stored `check`) is 0, also when
   * the pseudo-header is rebuilt from the buffer's own IP header with
   * `tot_len` read in the sender's host order.
   */
  lemma TcpChecksumVerifies(src: Endpoint, dst: Endpoint, seqNum: u32, ackSeq: u32, data: seq<byte>)
    requires Fits(data)
    ensures var d := Datagram(src, dst, seqNum, ackSeq, data);
      && ChecksumOf(PseudoHeader(src, dst, data) + d[IP_HDR_LEN..TotalLength(data)]) == 0
      && ReadU16(d[2], d[3]) == TotalLength(data)
      && ReceivedPseudoHeader(d) == PseudoHeader(src, dst, data)
      && ChecksumOf(ReceivedPseudoHeader(d) + d[IP_HDR_LEN..ReadU16(d[2], d[3])]) == 0
  {
    DatagramSplit(src, dst, seqNum, ackSeq, data);
    ReceivedPseudoHeaderMatches(src, dst, seqNum, ackSeq, data);
  }

  /**
   * The pseudo-header rebuilt from the buffer itself: the two addresses
   * (bytes 12-19), zero, the protocol (byte 9) and the TCP length
   * `tot_len - 20` in network order, where `tot_len` is read from bytes 2-3
   * in the sender's host order, as the buffer stores it.
   */
  function ReceivedPseudoHeader(d: seq<byte>): (b: seq<byte>)
    requires |d| >= IP_HDR_LEN && ReadU16(d[2], d[3]) >= IP_HDR_LEN
    ensures |b| == PSEUDO_HDR_LEN
  {
    var tcpLen := ReadU16(d[2], d[3]) - IP_HDR_LEN;
    d[12..20] + [0, d[9]] + [tcpLen / 0x100, tcpLen % 0x100]
  }

  /** The sender's pseudo-header is the one rebuilt from the buffer's IP header, `tot_len` read in host order. */
  lemma ReceivedPseudoHeaderMatches(src: Endpoint, dst: Endpoint, seqNum: u32, ackSeq: u32, data: seq<byte>)
    requires Fits(data)
    ensures var d := Datagram(src, dst, seqNum, ackSeq, data);
      && d[12..20] == PseudoHeader(src, dst, data)[..8]
      && d[9] == IPPROTO_TCP
      && ReadU16(d[2], d[3]) == TotalLength(data)
      && ReceivedPseudoHeader(d) == PseudoHeader(src, dst, data)
  {
    var d := Datagram(src, dst, seqNum, ackSeq, data);
    var iph := IpHeaderFor(src, dst, data, IpCheck(src, dst, seqNum, ackSeq, data));
    var ip := EncodeIp(iph);
    var ph := PseudoHeader(src, dst, data);
    DatagramSplit(src, dst, seqNum, ackSeq, data);
    assert d[12..20] == ip[12..20] && d[9] == ip[9] && d[2] == ip[2] && d[3] == ip[3];
    assert ip[12..20] == IpAfterCheck(iph);
    assert ph[..8] == HostU32(src.addr) + HostU32(dst.addr);
    HostU16RoundTrip(iph.totLen);
    PseudoHeaderLength(src, dst, data);
    assert ph == ph[..8] + ph[8..10] + ph[10..12];
  }

  /** A segment whose `check` was computed with the field zeroed verifies behind the same pseudo-header. */
  lemma TcpSegmentVerifies(ph: seq<byte>, tcp0: TcpHeader, data: seq<byte>)
    requires tcp0.check == 0 && |ph| == PSEUDO_HDR_LEN && Fits(data)
    ensures var c := ChecksumOf(ph + Segment(tcp0, data));
      ChecksumOf(ph + Segment(tcp0.(check := c), data)) == 0
  {
    var c := ChecksumOf(ph + Segment(tcp0, data));
    var before := ph + TcpBeforeCheck(tcp0);
    // After the checksum field: urg_ptr, the options and the payload.
    var q := HostU16(tcp0.urgPtr) + Zeros(OPT_SIZE) + data;
    assert ph + Segment(tcp0, data) == before + HostU16(0) + q;
    assert TcpBeforeCheck(tcp0.(check := c)) == TcpBeforeCheck(tcp0);
    assert ph + Segment(tcp0.(check := c), data) == before + HostU16(c) + q;
    ChecksumFieldVerifies(before, q);
  }

  /**
   * The IP check passes over the bytes it was computed on: the checksum of
   * the first `tot_len` bytes (the whole datagram, not only its header) is 0.
   */
  lemma IpChecksumVerifies(src: Endpoint, dst: Endpoint, seqNum: u32, ackSeq: u32, data: seq<byte>)
    requires Fits(data)
    ensures var d := Datagram(src, dst, seqNum, ackSeq, data);
      ChecksumOf(d[..TotalLength(data)]) == 0
  {
    var ip0 := IpHeaderFor(src, dst, data, 0);
    var seg := Segment(TcpHeaderFor(src, dst, seqNum, ackSeq, TcpCheck(src, dst, seqNum, ackSeq, data)), data);
    DatagramSplit(src, dst, seqNum, ackSeq, data);
    IpHeaderVerifies(ip0, seg);
  }

  /** An IP header whose `check` was computed with the field zeroed verifies, together with what follows it. */
  lemma IpHeaderVerifies(ip0: IpHeader, rest: seq<byte>)
    requires ip0.check == 0 && IP_HDR_LEN + |rest| <= DATAGRAM_LEN
    ensures ChecksumOf(EncodeIp(ip0.(check := ChecksumOf(EncodeIp(ip0) + rest))) + rest) == 0
  {
    var c := ChecksumOf(EncodeIp(ip0) + rest);
    var before := IpBeforeCheck(ip0);
    var q := IpAfterCheck(ip0) + rest;
    assert EncodeIp(ip0) + rest == before + HostU16(0) + q;
    assert IpBeforeCheck(ip0.(check := c)) == before;
    assert IpAfterCheck(ip0.(check := c)) == IpAfterCheck(ip0);
    assert EncodeIp(ip0.(check := c)) + rest == before + HostU16(c) + q;
    ChecksumFieldVerifies(before, q);
  }

  /** The datagram cut at the header boundaries. */
  lemma DatagramSplit(src: Endpoint, dst: Endpoint, seqNum: u32, ackSeq: u32, data: seq<byte>)
    requires Fits(data)
    ensures var d := Datagram(src, dst, seqNum, ackSeq, data);
      var ip := EncodeIp(IpHeaderFor(src, dst, data, IpCheck(src, dst, seqNum, ackSeq, data)));
      var tcp := EncodeTcp(TcpHeaderFor(src, dst, seqNum, ackSeq, TcpCheck(src, dst, seqNum, ackSeq, data)));
      var seg := Segment(TcpHeaderFor(src, dst, seqNum, ackSeq, TcpCheck(src, dst, seqNum, ackSeq, data)), data);
      && |d| == DATAGRAM_LEN
      && d[..IP_HDR_LEN] == ip
      && d[IP_HDR_LEN..IP_HDR_LEN + TCP_HDR_LEN] == tcp
      && d[..TotalLength(data)] == ip + seg
      && d[IP_HDR_LEN..TotalLength(data)] == seg
  {
    ImageParts(
      EncodeIp(IpHeaderFor(src, dst, data, IpCheck(src, dst, seqNum, ackSeq, data))),
      TcpHeaderFor(src, dst, seqNum, ackSeq, TcpCheck(src, dst, seqNum, ackSeq, data)),
      data);
  }

  // ---------------------------------------------------------------------
  // The imperative construction

  /** `memcpy(buf + at, src, |src|)`. */
  method CopyInto(buf: array<byte>, at: nat, src: seq<byte>)
    requires at + |src| <= buf.Length
    modifies buf
    ensures forall t :: 0 <= t < buf.Length ==>
      buf[t] == if at <= t < at + |src| then src[t - at] else old(buf[t])
  {
    var k := 0;
    while k < |src|
      invariant 0 <= k <= |src|
      invariant forall t :: 0 <= t < buf.Length ==>
        buf[t] == if at <= t < at + k then src[t - at] else old(buf[t])
    {
      buf[at + k] := src[k];
      k := k + 1;
    }
  }

  /** The `calloc`'d buffer after the payload `memcpy` and the header member writes. */
  method LayOut(iph: IpHeader, tcph: TcpHeader, data: seq<byte>) returns (datagram: array<byte>)
    requires Fits(data)
    ensures fresh(datagram)
    ensures datagram[..] == Image(EncodeIp(iph), EncodeTcp(tcph), data)
  {
    datagram := new byte[DATAGRAM_LEN](_ => 0);
    var ip, tcp := EncodeIp(iph), EncodeTcp(tcph);
    CopyInto(datagram, PAYLOAD_OFFSET, data);
    assert forall t :: 0 <= t < DATAGRAM_LEN ==>
      datagram[t] == (if PAYLOAD_OFFSET <= t < PAYLOAD_OFFSET + |data| then data[t - PAYLOAD_OFFSET] else 0);
    CopyInto(datagram, 0, ip);
    assert forall t :: 0 <= t < DATAGRAM_LEN ==>
      (datagram[t] == if t < IP_HDR_LEN then ip[t]
        else if PAYLOAD_OFFSET <= t < PAYLOAD_OFFSET + |data| then data[t - PAYLOAD_OFFSET]
        else 0);
    CopyInto(datagram, IP_HDR_LEN, tcp);
    ghost var image := Image(ip, tcp, data);
    assert forall t :: 0 <= t < DATAGRAM_LEN ==> datagram[t] == image[t];
    assert datagram[..] == image;
  }

  /**
   * The `pseudogram`: `psh` followed by the TCP header, options and payload
   * copied out of the datagram, `psize` bytes in all; returns its checksum.
   */
  method PseudogramChecksum(datagram: array<byte>, psh: seq<byte>, data: seq<byte>) returns (c: u16)
    requires |psh| == PSEUDO_HDR_LEN && Fits(data) && datagram.Length == DATAGRAM_LEN
    ensures c == ChecksumOf(psh + datagram[IP_HDR_LEN..TotalLength(data)])
  {
    var psize := PSEUDO_HDR_LEN + TCP_HDR_LEN + OPT_SIZE + |data|;
    var pseudogram := new byte[psize];
    CopyInto(pseudogram, 0, psh);
    CopyInto(pseudogram, PSEUDO_HDR_LEN, datagram[IP_HDR_LEN..TotalLength(data)]);
    assert pseudogram[..psize] == psh + datagram[IP_HDR_LEN..TotalLength(data)];
    c := Checksum(pseudogram, psize);
  }

  /** `tcph->check = c`. */
  method StoreTcpCheck(datagram: array<byte>, ghost ip: seq<byte>, ghost tcph: TcpHeader, ghost data: seq<byte>, c: u16)
    requires |ip| == IP_HDR_LEN && Fits(data)
    requires datagram[..] == Image(ip, EncodeTcp(tcph), data)
    modifies datagram
    ensures datagram[..] == Image(ip, EncodeTcp(tcph.(check := c)), data)
  {
    CopyInto(datagram, IP_HDR_LEN + TCP_CHECK_OFFSET, HostU16(c));
  }

  /** `iph->check = c`. */
  method StoreIpCheck(datagram: array<byte>, ghost iph: IpHeader, ghost tcp: seq<byte>, ghost data: seq<byte>, c: u16)
    requires |tcp| == TCP_HDR_LEN && Fits(data)
    requires datagram[..] == Image(EncodeIp(iph), tcp, data)
    modifies datagram
    ensures datagram[..] == Image(EncodeIp(iph.(check := c)), tcp, data)
  {
    CopyInto(datagram, IP_CHECK_OFFSET, HostU16(c));
  }

  /**
   * `create_data_packet`: the returned buffer is the datagram described by
   * `Datagram`, and the returned length is `tot_len` = 60 + data_len.
   */
  method CreateDataPacket(src: Endpoint, dst: Endpoint, seqNum: u32, ackSeq: u32, data: seq<byte>)
    returns (packet: array<byte>, packetLen: nat)
    requires Fits(data)
    ensures fresh(packet)
    ensures packet[..] == Datagram(src, dst, seqNum, ackSeq, data)
    ensures packetLen == TotalLength(data) == 60 + |data|
  {
    var iph := IpHeaderFor(src, dst, data, 0);
    var tcph := TcpHeaderFor(src, dst, seqNum, ackSeq, 0);
    var datagram := LayOut(iph, tcph, data);
    ImageParts(EncodeIp(iph), tcph, data);

    var tcpCheck := PseudogramChecksum(datagram, PseudoHeader(src, dst, data), data);
    StoreTcpCheck(datagram, EncodeIp(iph), tcph, data, tcpCheck);
    ImageParts(EncodeIp(iph), tcph.(check := tcpCheck), data);

    var ipCheck := Checksum(datagram, iph.totLen);
    StoreIpCheck(datagram, iph, EncodeTcp(tcph.(check := tcpCheck)), data, ipCheck);
    assert iph.(check := ipCheck) == IpHeaderFor(src, dst, data, IpCheck(src, dst, seqNum, ackSeq, data));
    assert tcph.(check := tcpCheck) == TcpHeaderFor(src, dst, seqNum, ackSeq, TcpCheck(src, dst, seqNum, ackSeq, data));
    packet, packetLen := datagram, iph.totLen;
  }

  /** The first `tot_len` bytes of an image, and the segment within them. */
  lemma ImageParts(ip: seq<byte>, tcph: TcpHeader, data: seq<byte>)
    requires |ip| == IP_HDR_LEN && Fits(data)
    ensures Image(ip, EncodeTcp(tcph), data)[..TotalLength(data)] == ip + Segment(tcph, data)
    ensures Image(ip, EncodeTcp(tcph), data)[IP_HDR_LEN..TotalLength(data)] == Segment(tcph, data)
  {
  }

}
