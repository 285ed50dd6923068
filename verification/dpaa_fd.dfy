/** Frame-descriptor bit-fields: the 32-bit word holding format, offset and
    length, the contiguous descriptor built by DPAA_MBUF_TO_CONTIG_FD, and the
    scatter-gather descriptor fields set by dpaa_eth_mbuf_to_sg_fd. */
module FrameDesc {
  import opened DpaaDefs

  const DPAA_FD_FORMAT_SHIFT: bv32 := 29
  const DPAA_FD_OFFSET_SHIFT: bv32 := 20
  const DPAA_FD_FORMAT_MASK: bv32 := 0xE000_0000
  const DPAA_FD_OFFSET_MASK: bv32 := 0x1FF0_0000
  const DPAA_FD_LENGTH_MASK: bv32 := 0x000F_FFFF

  /** Format codes: single buffer, and scatter-gather table. */
  const QM_FD_CONTIG: bv32 := 0
  const QM_FD_SG: bv32 := 4

  function FdFormat(fd: Fd): bv32 {
    (fd.word & DPAA_FD_FORMAT_MASK) >> DPAA_FD_FORMAT_SHIFT
  }

  function FdOffset(fd: Fd): bv32 {
    (fd.word & DPAA_FD_OFFSET_MASK) >> DPAA_FD_OFFSET_SHIFT
  }

  function FdLength(fd: Fd): bv32 {
    fd.word & DPAA_FD_LENGTH_MASK
  }

  /** Packing of the three bit-fields when each value fits its field. */
  lemma PackFields(f: bv32, off: bv32, len: bv32)
    requires f < 8 && off < 512 && len < 0x10_0000
    ensures var w := (f << DPAA_FD_FORMAT_SHIFT) | (off << DPAA_FD_OFFSET_SHIFT) | len;
      && (w & DPAA_FD_FORMAT_MASK) >> DPAA_FD_FORMAT_SHIFT == f
      && (w & DPAA_FD_OFFSET_MASK) >> DPAA_FD_OFFSET_SHIFT == off
      && w & DPAA_FD_LENGTH_MASK == len
  {
  }

  /** The word DPAA_MBUF_TO_CONTIG_FD builds: the data offset is shifted into
      the offset field and the packet length is OR-ed in without masking, so
      values that do not fit their fields spill into the neighbouring ones. */
  function ContigWord(dataOff: bv16, pktLen: bv32): (w: bv32)
    ensures dataOff < 512 && pktLen < 0x10_0000 ==>
      && (w & DPAA_FD_FORMAT_MASK) >> DPAA_FD_FORMAT_SHIFT == QM_FD_CONTIG
      && (w & DPAA_FD_OFFSET_MASK) >> DPAA_FD_OFFSET_SHIFT == dataOff as bv32
      && w & DPAA_FD_LENGTH_MASK == pktLen
  {
    var off := dataOff as bv32;
    if dataOff < 512 && pktLen < 0x10_0000 then
      PackFields(QM_FD_CONTIG, off, pktLen);
      (QM_FD_CONTIG << DPAA_FD_FORMAT_SHIFT) | (off << DPAA_FD_OFFSET_SHIFT) | pktLen
    else
      (QM_FD_CONTIG << DPAA_FD_FORMAT_SHIFT) | (off << DPAA_FD_OFFSET_SHIFT) | pktLen
  }

  /** DPAA_MBUF_TO_CONTIG_FD: a contiguous descriptor for one buffer. */
  function MbufToContigFd(m: Mbuf, bpid: nat): (fd: Fd)
    ensures fd.cmd == 0 && fd.addr == m.bufPhys && fd.bpid == bpid % U8
    ensures m.dataOff < 512 && m.pktLen < 0x10_0000 ==>
      && FdFormat(fd) == QM_FD_CONTIG
      && FdOffset(fd) == m.dataOff as bv32
      && FdLength(fd) == m.pktLen
  {
    Fd(0, m.bufPhys, bpid % U8, ContigWord(m.dataOff, m.pktLen))
  }

  /** The scatter-gather descriptor: format, offset and length are bit-field
      stores, so each value is truncated to its field. */
  function MakeSgFd(cmd: bv32, addr: nat, offset: bv16, bpid: nat, length: bv32): (fd: Fd)
    ensures fd.cmd == cmd && fd.addr == addr && fd.bpid == bpid % U8
    ensures FdFormat(fd) == QM_FD_SG
    ensures FdOffset(fd) == (offset as bv32) & 0x1ff
    ensures FdLength(fd) == length & DPAA_FD_LENGTH_MASK
  {
    var off := (offset as bv32) & 0x1ff;
    var len := length & DPAA_FD_LENGTH_MASK;
    PackFields(QM_FD_SG, off, len);
    Fd(cmd, addr, bpid % U8,
       (QM_FD_SG << DPAA_FD_FORMAT_SHIFT) | (off << DPAA_FD_OFFSET_SHIFT) | len)
  }
}
