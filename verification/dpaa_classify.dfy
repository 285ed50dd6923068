/** Parse/offload annotation: decoding the receive parse word into a packet type,
    the offload length fields and flags (dpaa_eth_packet_info), and the transmit
    checksum-offload request (dpaa_checksum_offload). */
module Classify {
  import opened DpaaDefs

  // Packet-type tags of the generic buffer layer.
  const RTE_PTYPE_L2_ETHER: bv32 := 0x0000_0001
  const RTE_PTYPE_L3_IPV4: bv32 := 0x0000_0010
  const RTE_PTYPE_L3_IPV4_EXT: bv32 := 0x0000_0030
  const RTE_PTYPE_L3_IPV6: bv32 := 0x0000_0040
  const RTE_PTYPE_L3_IPV6_EXT: bv32 := 0x0000_00c0
  const RTE_PTYPE_L4_TCP: bv32 := 0x0000_0100
  const RTE_PTYPE_L4_UDP: bv32 := 0x0000_0200
  const RTE_PTYPE_L4_SCTP: bv32 := 0x0000_0400
  const RTE_PTYPE_L3_MASK: bv32 := 0x0000_00f0
  const RTE_PTYPE_L4_MASK: bv32 := 0x0000_0f00

  // Receive and transmit offload flags.
  const PKT_RX_VLAN_PKT: bv64 := 0x1
  const PKT_RX_RSS_HASH: bv64 := 0x2
  const DPAA_TX_CKSUM_OFFLOAD_MASK: bv64 := 0x0070_0000_0000_0000

  // Bits of the hardware parse word.
  const DPAA_PARSE_MASK: bv64 := 0x00E0_44ED_0080_0000
  const DPAA_PARSE_VLAN_MASK: bv64 := 0x0000_0000_0070_0000
  const PRS_ETHER: bv64 := 0x0000_0000_0080_0000
  const PRS_IPV4: bv64 := 0x0000_0080_0000_0000
  const PRS_IPV6: bv64 := 0x0000_0040_0000_0000
  const PRS_EXT: bv64 := 0x0000_0001_0000_0000
  const PRS_TCP: bv64 := 0x0020_0000_0000_0000
  const PRS_UDP: bv64 := 0x0040_0000_0000_0000
  const PRS_SCTP: bv64 := 0x0080_0000_0000_0000

  // The twelve recognised parse codes.
  const DPAA_PKT_TYPE_NONE: bv64 := 0
  const DPAA_PKT_TYPE_ETHER: bv64 := PRS_ETHER
  const DPAA_PKT_TYPE_IPV4: bv64 := PRS_IPV4 | PRS_ETHER
  const DPAA_PKT_TYPE_IPV6: bv64 := PRS_IPV6 | PRS_ETHER
  const DPAA_PKT_TYPE_IPV4_EXT: bv64 := PRS_EXT | DPAA_PKT_TYPE_IPV4
  const DPAA_PKT_TYPE_IPV6_EXT: bv64 := PRS_EXT | DPAA_PKT_TYPE_IPV6
  const DPAA_PKT_TYPE_IPV4_TCP: bv64 := PRS_TCP | DPAA_PKT_TYPE_IPV4
  const DPAA_PKT_TYPE_IPV6_TCP: bv64 := PRS_TCP | DPAA_PKT_TYPE_IPV6
  const DPAA_PKT_TYPE_IPV4_UDP: bv64 := PRS_UDP | DPAA_PKT_TYPE_IPV4
  const DPAA_PKT_TYPE_IPV6_UDP: bv64 := PRS_UDP | DPAA_PKT_TYPE_IPV6
  const DPAA_PKT_TYPE_IPV4_SCTP: bv64 := PRS_SCTP | DPAA_PKT_TYPE_IPV4
  const DPAA_PKT_TYPE_IPV6_SCTP: bv64 := PRS_SCTP | DPAA_PKT_TYPE_IPV6

  // Transmit parse-result values and descriptor command bits.
  const DPAA_L3_PARSE_RESULT_IPV4: bv16 := 0x80
  const DPAA_L3_PARSE_RESULT_IPV6: bv16 := 0x40
  const DPAA_L4_PARSE_RESULT_TCP: bv8 := 0x20
  const DPAA_L4_PARSE_RESULT_UDP: bv8 := 0x40
  const DPAA_FD_CMD_RPD: bv32 := 0x2000_0000
  const DPAA_FD_CMD_DTC: bv32 := 0x1000_0000

  /** Shift of the L3 header length inside `tx_offload`. */
  const DPAA_PKT_L3_LEN_SHIFT: bv64 := 7

  /** The set of parse codes the classification switch recognises. */
  const KnownCodes: set<bv64> := {
    DPAA_PKT_TYPE_NONE, DPAA_PKT_TYPE_ETHER, DPAA_PKT_TYPE_IPV4, DPAA_PKT_TYPE_IPV6,
    DPAA_PKT_TYPE_IPV4_EXT, DPAA_PKT_TYPE_IPV6_EXT, DPAA_PKT_TYPE_IPV4_TCP,
    DPAA_PKT_TYPE_IPV6_TCP, DPAA_PKT_TYPE_IPV4_UDP, DPAA_PKT_TYPE_IPV6_UDP,
    DPAA_PKT_TYPE_IPV4_SCTP, DPAA_PKT_TYPE_IPV6_SCTP }

  /** The classification switch: the packet type of a masked parse word, or
      None when the word is none of the twelve codes (the slow-parsing stub,
      which leaves the packet type as it was). */
  function PtypeOf(prs: bv64): Option<bv32> {
    if prs == DPAA_PKT_TYPE_NONE then Some(0)
    else if prs == DPAA_PKT_TYPE_ETHER then Some(RTE_PTYPE_L2_ETHER)
    else if prs == DPAA_PKT_TYPE_IPV4 then Some(RTE_PTYPE_L2_ETHER | RTE_PTYPE_L3_IPV4)
    else if prs == DPAA_PKT_TYPE_IPV6 then Some(RTE_PTYPE_L2_ETHER | RTE_PTYPE_L3_IPV6)
    else if prs == DPAA_PKT_TYPE_IPV4_EXT then Some(RTE_PTYPE_L2_ETHER | RTE_PTYPE_L3_IPV4_EXT)
    else if prs == DPAA_PKT_TYPE_IPV6_EXT then Some(RTE_PTYPE_L2_ETHER | RTE_PTYPE_L3_IPV6_EXT)
    else if prs == DPAA_PKT_TYPE_IPV4_TCP then
      Some(RTE_PTYPE_L2_ETHER | RTE_PTYPE_L3_IPV4 | RTE_PTYPE_L4_TCP)
    else if prs == DPAA_PKT_TYPE_IPV6_TCP then
      Some(RTE_PTYPE_L2_ETHER | RTE_PTYPE_L3_IPV6 | RTE_PTYPE_L4_TCP)
    else if prs == DPAA_PKT_TYPE_IPV4_UDP then
      Some(RTE_PTYPE_L2_ETHER | RTE_PTYPE_L3_IPV4 | RTE_PTYPE_L4_UDP)
    else if prs == DPAA_PKT_TYPE_IPV6_UDP then
      Some(RTE_PTYPE_L2_ETHER | RTE_PTYPE_L3_IPV6 | RTE_PTYPE_L4_UDP)
    else if prs == DPAA_PKT_TYPE_IPV4_SCTP then
      Some(RTE_PTYPE_L2_ETHER | RTE_PTYPE_L3_IPV4 | RTE_PTYPE_L4_SCTP)
    else if prs == DPAA_PKT_TYPE_IPV6_SCTP then
      Some(RTE_PTYPE_L2_ETHER | RTE_PTYPE_L3_IPV6 | RTE_PTYPE_L4_SCTP)
    else None
  }

  /** Reference decoding of a parse word bit by bit: Ethernet present, first IP
      header v4/v6 (with or without extensions), and the L4 protocol. */
  function PtypeFromBits(prs: bv64): bv32 {
    var l2 := if prs & PRS_ETHER != 0 then RTE_PTYPE_L2_ETHER else 0;
    var ext := prs & PRS_EXT != 0;
    var l3 :=
      if prs & PRS_IPV4 != 0 then (if ext then RTE_PTYPE_L3_IPV4_EXT else RTE_PTYPE_L3_IPV4)
      else if prs & PRS_IPV6 != 0 then (if ext then RTE_PTYPE_L3_IPV6_EXT else RTE_PTYPE_L3_IPV6)
      else 0;
    var l4 :=
      if prs & PRS_TCP != 0 then RTE_PTYPE_L4_TCP
      else if prs & PRS_UDP != 0 then RTE_PTYPE_L4_UDP
      else if prs & PRS_SCTP != 0 then RTE_PTYPE_L4_SCTP
      else 0;
    l2 | l3 | l4
  }

  /** The switch is closed: it recognises exactly the twelve codes. */
  lemma PtypeOfClosed(prs: bv64)
    ensures PtypeOf(prs).Some? <==> prs in KnownCodes
  {
  }

  /** Every recognised code gets the packet type its bits describe. */
  lemma PtypeOfAgreesWithBits(prs: bv64)
    ensures PtypeOf(prs).Some? ==> PtypeOf(prs).value == PtypeFromBits(prs)
  {
  }

  /** No two codes share a packet type. */
  lemma PtypeOfInjective(p: bv64, q: bv64)
    requires PtypeOf(p).Some? && PtypeOf(q).Some? && p != q
    ensures PtypeOf(p).value != PtypeOf(q).value
  {
  }

  /** The L2 header length held in the low 7 bits of `tx_offload`. */
  function L2Len(txo: bv64): bv64 { txo & 0x7f }

  /** The L3 header length held in the 9 bits above the L2 length. */
  function L3Len(txo: bv64): bv64 { (txo >> DPAA_PKT_L3_LEN_SHIFT) & 0x1ff }

  /** The offload lengths dpaa_eth_packet_info derives from the annotation: the
      L2 length is `ip_off[0]` and the L3 length `l4_off - ip_off[0]`. The
      difference is formed in C `int` and widened to 64 bits, so a negative
      difference wraps. */
  function TxOffloadOf(ipOff0: bv8, l4Off: bv8): (txo: bv64)
    ensures ipOff0 < 128 && ipOff0 <= l4Off ==>
      L2Len(txo) == ipOff0 as bv64 && L3Len(txo) == (l4Off - ipOff0) as bv64
  {
    var ip := ipOff0 as bv64;
    ip | (((l4Off as bv64) - ip) << DPAA_PKT_L3_LEN_SHIFT)
  }

  /** Receive flags: the hash is always reported, VLAN exactly when the parse
      word says so, and every other flag is cleared. */
  function RxFlags(prs: bv64): (flags: bv64)
    ensures flags & PKT_RX_RSS_HASH != 0
    ensures flags & PKT_RX_VLAN_PKT != 0 <==> prs & DPAA_PARSE_VLAN_MASK != 0
    ensures flags & !(PKT_RX_RSS_HASH | PKT_RX_VLAN_PKT) == 0
  {
    PKT_RX_RSS_HASH | (if prs & DPAA_PARSE_VLAN_MASK != 0 then PKT_RX_VLAN_PKT else 0)
  }

  /** dpaa_eth_packet_info as evidently intended: classify the buffer from
      the annotation of the buffer holding it, derive the offload lengths and
      set the flags, making the VLAN test on the annotation's whole parse
      word. The C code makes it on the word already cut to DPAA_PARSE_MASK,
      where no VLAN bit is left (PacketInfoAsWritten, which the receive path
      uses). */
  function PacketInfo(m: Mbuf, a: Annot): (r: Mbuf)
    ensures var prs := a.parse & DPAA_PARSE_MASK;
      && (PtypeOf(prs).Some? ==> r.packetType == PtypeOf(prs).value)
      && (PtypeOf(prs).None? ==> r.packetType == m.packetType)
    ensures r.olFlags == RxFlags(a.parse)
    ensures r.txOffload == TxOffloadOf(a.ipOff0, a.l4Off)
    ensures r.rssHash == a.hash % U32
    ensures r == m.(packetType := r.packetType, txOffload := r.txOffload,
                    olFlags := r.olFlags, rssHash := r.rssHash)
  {
    var prs := a.parse & DPAA_PARSE_MASK;
    var pt := match PtypeOf(prs) case Some(t) => t case None => m.packetType;
    m.(packetType := pt, txOffload := TxOffloadOf(a.ipOff0, a.l4Off),
       olFlags := RxFlags(a.parse), rssHash := a.hash % U32)
  }

  /** dpaa_eth_packet_info as written, the classification the receive path
      applies: the VLAN bits are looked for in the masked parse word. */
  function PacketInfoAsWritten(m: Mbuf, a: Annot): (r: Mbuf)
    ensures r == PacketInfo(m, a).(olFlags := r.olFlags)
  {
    PacketInfo(m, a).(olFlags := RxFlags(a.parse & DPAA_PARSE_MASK))
  }

  /** DPAA_PARSE_MASK and DPAA_PARSE_VLAN_MASK share no bit, so the masked
      word never passes the VLAN test. */
  lemma VlanTestDead(parse: bv64)
    ensures (parse & DPAA_PARSE_MASK) & DPAA_PARSE_VLAN_MASK == 0
  {
  }

  /** As written, a received buffer never gets the VLAN flag: its flags are
      the hash flag alone, whatever the annotation. */
  lemma AsWrittenFlagsRssOnly(m: Mbuf, a: Annot)
    ensures PacketInfoAsWritten(m, a).olFlags == PKT_RX_RSS_HASH
  {
    VlanTestDead(a.parse);
  }

  /** The corrected classification reports VLAN exactly for a parse word with
      a VLAN bit, and differs from the code as written only in that flag. */
  lemma PacketInfoVlan(m: Mbuf, a: Annot)
    ensures PacketInfo(m, a).olFlags & PKT_RX_VLAN_PKT != 0 <==> a.parse & DPAA_PARSE_VLAN_MASK != 0
    ensures PacketInfoAsWritten(m, a) == PacketInfo(m, a).(olFlags := PKT_RX_RSS_HASH)
  {
    AsWrittenFlagsRssOnly(m, a);
  }

  /** A tagged IPv4/TCP frame: its parse word carries a VLAN bit, which the
      corrected classification reports and the code as written drops. */
  lemma VlanLostExample(m: Mbuf)
    ensures var a := Annot(DPAA_PKT_TYPE_IPV4_TCP | 0x0010_0000, 14, 34, 0);
      && PacketInfo(m, a).olFlags == PKT_RX_RSS_HASH | PKT_RX_VLAN_PKT
      && PacketInfoAsWritten(m, a).olFlags == PKT_RX_RSS_HASH
  {
    var a := Annot(DPAA_PKT_TYPE_IPV4_TCP | 0x0010_0000, 14, 34, 0);
    AsWrittenFlagsRssOnly(m, a);
  }

  predicate IsIpv4(ptype: bv32) {
    ptype & RTE_PTYPE_L3_MASK == RTE_PTYPE_L3_IPV4 || ptype & RTE_PTYPE_L3_MASK == RTE_PTYPE_L3_IPV4_EXT
  }

  predicate IsIpv6(ptype: bv32) {
    ptype & RTE_PTYPE_L3_MASK == RTE_PTYPE_L3_IPV6 || ptype & RTE_PTYPE_L3_MASK == RTE_PTYPE_L3_IPV6_EXT
  }

  /** The L3 parse result requested for a packet type. */
  function L3Result(ptype: bv32): (l3r: bv16)
    ensures l3r == DPAA_L3_PARSE_RESULT_IPV4 <==> IsIpv4(ptype)
    ensures l3r == DPAA_L3_PARSE_RESULT_IPV6 <==> !IsIpv4(ptype) && IsIpv6(ptype)
    ensures l3r == 0 <==> !IsIpv4(ptype) && !IsIpv6(ptype)
  {
    if IsIpv4(ptype) then DPAA_L3_PARSE_RESULT_IPV4
    else if IsIpv6(ptype) then DPAA_L3_PARSE_RESULT_IPV6
    else 0
  }

  /** The L4 parse result requested for a packet type: TCP, UDP or nothing. */
  function L4Result(ptype: bv32): (l4r: bv8)
    ensures l4r == DPAA_L4_PARSE_RESULT_TCP <==> ptype & RTE_PTYPE_L4_MASK == RTE_PTYPE_L4_TCP
    ensures l4r == DPAA_L4_PARSE_RESULT_UDP <==> ptype & RTE_PTYPE_L4_MASK == RTE_PTYPE_L4_UDP
    ensures l4r == 0 <==> ptype & RTE_PTYPE_L4_MASK !in {RTE_PTYPE_L4_TCP, RTE_PTYPE_L4_UDP}
  {
    if ptype & RTE_PTYPE_L4_MASK == RTE_PTYPE_L4_TCP then DPAA_L4_PARSE_RESULT_TCP
    else if ptype & RTE_PTYPE_L4_MASK == RTE_PTYPE_L4_UDP then DPAA_L4_PARSE_RESULT_UDP
    else 0
  }

  /** The header offsets written for checksum offload: `ip_off[0] = l2_len` and
      `l4_off = l2_len + l3_len`, both 8-bit fields, so the sum is truncated. */
  function OffloadOffsets(txo: bv64): (r: (bv8, bv8))
    ensures r.0 as bv64 == L2Len(txo)
    ensures r.1 as bv64 == (L2Len(txo) + L3Len(txo)) & 0xff
  {
    var l2 := L2Len(txo);
    var l3 := L3Len(txo);
    (l2 as bv8, ((l3 + l2) & 0xff) as bv8)
  }

  /** dpaa_checksum_offload: the parse-results block for hardware checksum and
      the command word of the descriptor. */
  function ChecksumOffload(m: Mbuf): (r: (TxPrs, bv32))
    ensures r.1 == DPAA_FD_CMD_RPD | DPAA_FD_CMD_DTC
    ensures r.0.l3r == L3Result(m.packetType) && r.0.l4r == L4Result(m.packetType)
    ensures (r.0.ipOff0, r.0.l4Off) == OffloadOffsets(m.txOffload)
  {
    var offs := OffloadOffsets(m.txOffload);
    (TxPrs(L3Result(m.packetType), L4Result(m.packetType), offs.0, offs.1),
     DPAA_FD_CMD_RPD | DPAA_FD_CMD_DTC)
  }

  /** Forwarding a received frame: the offsets the transmit offload writes are
      the ones the receive annotation carried, whenever they fit the fields. */
  lemma OffloadRestoresAnnotationOffsets(m: Mbuf, a: Annot)
    requires a.ipOff0 < 128 && a.ipOff0 <= a.l4Off
    ensures ChecksumOffload(PacketInfo(m, a)).0.ipOff0 == a.ipOff0
    ensures ChecksumOffload(PacketInfo(m, a)).0.l4Off == a.l4Off
  {
    OffsetsOfTxOffload(a.ipOff0, a.l4Off);
  }

  lemma OffsetsOfTxOffload(ip: bv8, l4: bv8)
    requires ip < 128 && ip <= l4
    ensures OffloadOffsets(TxOffloadOf(ip, l4)) == (ip, l4)
  {
    var txo := TxOffloadOf(ip, l4);
    var offs := OffloadOffsets(txo);
    assert offs.0 as bv64 == ip as bv64;
    SumOfLengths(ip, l4);
    assert offs.1 as bv64 == l4 as bv64;
    WidenInjective(offs.0, ip);
    WidenInjective(offs.1, l4);
  }

  lemma SumOfLengths(ip: bv8, l4: bv8)
    requires ip <= l4
    ensures (ip as bv64 + (l4 - ip) as bv64) & 0xff == l4 as bv64
  {
  }

  lemma WidenInjective(x: bv8, y: bv8)
    requires x as bv64 == y as bv64
    ensures x == y
  {
  }

  /** A frame classified on receive as TCP or UDP over IPv4 or IPv6 gets the
      matching parse results when its checksum is offloaded on transmit. */
  lemma OffloadOfClassifiedFrame(m: Mbuf, a: Annot)
    requires a.parse & DPAA_PARSE_MASK in {DPAA_PKT_TYPE_IPV4_TCP, DPAA_PKT_TYPE_IPV6_TCP,
                                           DPAA_PKT_TYPE_IPV4_UDP, DPAA_PKT_TYPE_IPV6_UDP}
    ensures var prs := a.parse & DPAA_PARSE_MASK;
      var p := ChecksumOffload(PacketInfo(m, a)).0;
      && (p.l3r == DPAA_L3_PARSE_RESULT_IPV4 <==> prs & PRS_IPV4 != 0)
      && (p.l3r == DPAA_L3_PARSE_RESULT_IPV6 <==> prs & PRS_IPV6 != 0)
      && (p.l4r == DPAA_L4_PARSE_RESULT_TCP <==> prs & PRS_TCP != 0)
      && (p.l4r == DPAA_L4_PARSE_RESULT_UDP <==> prs & PRS_UDP != 0)
  {
  }
}
