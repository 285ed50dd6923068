/** Data model shared by the DPAA receive/transmit translation: packet buffers
    (mbufs), frame descriptors, scatter-gather entries, parse annotations and the
    driver-visible world state (buffer heap, pool free lists, free/release logs). */
module DpaaDefs {

  datatype Option<+T> = None | Some(value: T)

  /** Widths of the C fields that the model writes. */
  const U8: nat := 0x100
  const U16: nat := 0x1_0000
  const U32: nat := 0x1_0000_0000

  /** Maximum number of entries of a scatter-gather table. */
  const DPA_SGT_MAX_ENTRIES: nat := 16
  /** Size of the on-stack descriptor array of one transmit chunk. */
  const MAX_TX_RING_SLOTS: nat := 8
  /** Largest volatile dequeue the receive path asks for. */
  const DPAA_MAX_DEQUEUE_NUM_FRAMES: nat := 63
  /** Pool id written on the wire so that hardware does not release the buffer. */
  const INVALID_BPID: nat := 0xff
  /** Size in bytes of one on-wire scatter-gather entry. */
  const SG_ENTRY_SIZE: nat := 16
  /** DEFAULT_TX_ICEOF plus the size of the transmit parse-results block: the
      headroom that hardware checksum offload needs in front of the payload. */
  const TX_CKSUM_HEADROOM: nat := 16 + 32
  /** The headroom rte_pktmbuf_reset leaves in front of a fresh buffer's data. */
  const RTE_PKTMBUF_HEADROOM: bv16 := 128
  /** The port number rte_pktmbuf_reset gives a buffer that belongs to none. */
  const MBUF_NO_PORT: nat := 0xff

  /** Unsigned 32-bit addition, wrapping as C's uint32_t does. */
  function Add32(a: bv32, b: bv32): bv32 { a + b }

  /** Index of a packet buffer (the address of its `rte_mbuf` header). */
  type BufId = nat

  /** The mempool a buffer belongs to: its hardware pool id and whether the pool
      is backed by the hardware buffer manager (MEMPOOL_F_HW_PKT_POOL). */
  datatype Pool = Pool(bpid: nat, hw: bool)

  /** One packet buffer. `owner == None` is a direct buffer; `Some(o)` is an
      indirect (cloned) buffer attached to the direct buffer `o`. Fields that
      the driver packs into hardware words carry their C width as a bit-vector. */
  datatype Mbuf = Mbuf(
    bufPhys: nat,
    bufLen: bv16,
    dataOff: bv16,
    dataLen: bv16,
    pktLen: bv32,
    nbSegs: nat,
    refcnt: nat,
    pool: Pool,
    next: Option<BufId>,
    owner: Option<BufId>,
    packetType: bv32,
    olFlags: bv64,
    txOffload: bv64,
    rssHash: nat,
    port: nat)
  {
    predicate IsDirect() { owner.None? }
  }

  /** A frame descriptor: command word, buffer address, pool id and the 32-bit
      word whose bit-fields hold format (3 bits), offset (9) and length (20). */
  datatype Fd = Fd(cmd: bv32, addr: nat, bpid: nat, word: bv32)

  /** One scatter-gather table entry, in processor byte order. The hardware
      fields are a 13-bit offset and a 30-bit length; the model holds them in
      16 and 32 bits and does not enforce the narrower widths, so an entry
      read from memory may carry values the hardware field cannot hold. */
  datatype SgEntry = SgEntry(addr: nat, offset: bv16, length: bv32, bpid: nat, final: bool)

  /** The receive parse annotation at the start of a buffer: the 64-bit parse
      word as the driver loads it, the first L3 header offset, the L4 header
      offset, and the hash as a host-order value, that is after the
      big-endian conversion the driver applies to it. */
  datatype Annot = Annot(parse: bv64, ipOff0: bv8, l4Off: bv8, hash: nat)

  /** The transmit parse-results block written for hardware checksum offload. */
  datatype TxPrs = TxPrs(l3r: bv16, l4r: bv8, ipOff0: bv8, l4Off: bv8)

  type Heap = map<BufId, Mbuf>

  /** A scatter-gather table as the receive path reads it: always the full
      DPA_SGT_MAX_ENTRIES entries, whatever follows the last used one. */
  type Table = t: seq<SgEntry> | |t| == DPA_SGT_MAX_ENTRIES
    witness seq(DPA_SGT_MAX_ENTRIES, _ => SgEntry(0, 0, 0, 0, false))

  /** What the driver can read but does not own: the physical-to-buffer
      translation (dpaa_mem_ptov followed by the step back over the buffer's
      metadata) and the contents of buffer memory: the parse annotation of a
      buffer, and the table at byte `off` of buffer `b` as `sgt(b, off)`. */
  datatype Mem = Mem(
    ptov: map<nat, BufId>,
    annot: BufId -> Annot,
    sgt: (BufId, nat) -> Table)

  /** Driver-visible state: the buffers, the buffers each pool hands out next
      (by pool id, in order), and logs of software frees and hardware releases. */
  datatype State = State(
    heap: Heap,
    avail: map<nat, seq<BufId>>,
    freed: seq<BufId>,
    released: seq<(nat, nat)>)

  /** The translation and the pools only name buffers of the heap. */
  ghost predicate Wf(mem: Mem, st: State) {
    && (forall a :: a in mem.ptov ==> mem.ptov[a] in st.heap)
    && (forall p, k :: p in st.avail && 0 <= k < |st.avail[p]| ==> st.avail[p][k] in st.heap)
  }

  /** bman_release of a buffer to its pool, which retries until accepted. */
  function BufFree(st: State, bpid: nat, addr: nat): (r: State)
    ensures r.released == st.released + [(bpid, addr)]
    ensures r.heap == st.heap && r.avail == st.avail && r.freed == st.freed
  {
    st.(released := st.released + [(bpid, addr)])
  }

  /** rte_pktmbuf_free / rte_pktmbuf_free_seg: only the fact of the free is recorded. */
  function MbufFree(st: State, b: BufId): (r: State)
    ensures r.freed == st.freed + [b]
    ensures r.heap == st.heap && r.avail == st.avail && r.released == st.released
  {
    st.(freed := st.freed + [b])
  }

  /** Non-blocking acquisition of the next buffer of pool `bpid`, as
      bman_acquire in dpaa_get_pktbuf does it: the buffer comes as the pool
      holds it, or None at once when the pool is empty. rte_pktmbuf_alloc
      also resets the buffer (PktmbufReset). */
  function Alloc(st: State, bpid: nat): (r: Option<(BufId, State)>)
    ensures r.None? <==> (bpid !in st.avail || |st.avail[bpid]| == 0)
    ensures r.Some? ==>
      && r.value.0 == st.avail[bpid][0]
      && r.value.1 == st.(avail := st.avail[bpid := st.avail[bpid][1..]])
  {
    if bpid in st.avail && |st.avail[bpid]| > 0 then
      Some((st.avail[bpid][0], st.(avail := st.avail[bpid := st.avail[bpid][1..]])))
    else None
  }

  /** rte_pktmbuf_reset as rte_pktmbuf_alloc applies it, with the reference
      count rte_mbuf_raw_alloc sets: the buffer's data starts after the
      default headroom, or at the end of a smaller buffer; it is one empty
      segment with no link, no port, no flags, no type and no offload word.
      Its memory, pool, owner and hash are kept. */
  function PktmbufReset(m: Mbuf): (r: Mbuf)
    ensures r.dataOff <= m.bufLen && r.dataOff <= RTE_PKTMBUF_HEADROOM
    ensures r.dataOff == RTE_PKTMBUF_HEADROOM || r.dataOff == m.bufLen
    ensures r.dataLen == 0 && r.pktLen == 0 && r.nbSegs == 1 && r.refcnt == 1 && r.next == None
    ensures r.olFlags == 0 && r.packetType == 0 && r.txOffload == 0 && r.port == MBUF_NO_PORT
    ensures r.bufPhys == m.bufPhys && r.bufLen == m.bufLen && r.pool == m.pool
    ensures r.owner == m.owner && r.rssHash == m.rssHash
  {
    m.(dataOff := if m.bufLen < RTE_PKTMBUF_HEADROOM then m.bufLen else RTE_PKTMBUF_HEADROOM,
       dataLen := 0, pktLen := 0, nbSegs := 1, refcnt := 1, next := None,
       olFlags := 0, packetType := 0, txOffload := 0, port := MBUF_NO_PORT)
  }

  /** A reset forgets the buffer's history: two buffers with the same memory,
      pool, owner and hash reset to the same buffer, and resetting twice is
      resetting once. */
  lemma ResetForgets(m: Mbuf, m': Mbuf)
    requires m.bufPhys == m'.bufPhys && m.bufLen == m'.bufLen && m.pool == m'.pool
    requires m.owner == m'.owner && m.rssHash == m'.rssHash
    ensures PktmbufReset(m) == PktmbufReset(m')
    ensures PktmbufReset(PktmbufReset(m)) == PktmbufReset(m)
  {
  }

  lemma AllocKeepsWf(mem: Mem, st: State, bpid: nat)
    requires Wf(mem, st)
    ensures Alloc(st, bpid).Some? ==>
      Alloc(st, bpid).value.0 in st.heap && Wf(mem, Alloc(st, bpid).value.1)
  {
    if bpid in st.avail && |st.avail[bpid]| > 0 {
      var st' := Alloc(st, bpid).value.1;
      forall p, k | p in st'.avail && 0 <= k < |st'.avail[p]|
        ensures st'.avail[p][k] in st'.heap
      {
        if p == bpid {
          assert st'.avail[p][k] == st.avail[p][k + 1];
        }
      }
    }
  }
}
