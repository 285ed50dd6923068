/** Receive side: translating a dequeued frame descriptor into a packet buffer
    (dpaa_eth_fd_to_mbuf, dpaa_eth_sg_to_mbuf) and the receive burst
    (dpaa_eth_queue_rx). */
module Rx {
  import opened DpaaDefs
  import opened Classify
  import opened FrameDesc

  /** What a translation hands to the caller: a NULL slot, the head of a
      packet, or `Fault` when the C code would write through the address it
      computed from an unmapped scatter-gather address (undefined behaviour). */
  datatype RxResult = Null | Delivered(head: BufId) | Fault

  datatype RxOut = RxOut(res: RxResult, st: State)

  /** The walk's result: the heap after the writes and the number of table
      entries consumed. */
  datatype Walk = Walk(heap: Heap, consumed: nat)

  /** The low 16 bits of a 32-bit length, as stored into `data_len`. */
  function Low16(x: bv32): bv16 { (x & 0xffff) as bv16 }

  /** The writes for table entry 0, which becomes the first segment. */
  function SgFirst(h: Heap, first: BufId, e: SgEntry, ifid: nat): (h': Heap)
    requires first in h
    ensures h'.Keys == h.Keys
  {
    h[first := h[first].(dataOff := e.offset, dataLen := Low16(e.length), pktLen := e.length,
                         refcnt := 1, port := ifid, nbSegs := 1, olFlags := 0)]
  }

  /** The writes of one loop iteration for entry `e` mapped to `cur`, in the
      order the C code performs them. */
  function SgStep(h: Heap, first: BufId, prev: BufId, cur: BufId, e: SgEntry): (h': Heap)
    requires first in h && prev in h && cur in h
    ensures h'.Keys == h.Keys
  {
    var h1 := h[cur := h[cur].(dataOff := e.offset, dataLen := Low16(e.length))];
    assert h1.Keys == h.Keys;
    var h2 := h1[first := h1[first].(pktLen := Add32(h1[first].pktLen, e.length),
                                     nbSegs := h1[first].nbSegs + 1)];
    assert h2.Keys == h.Keys;
    var h3 := h2[cur := h2[cur].(refcnt := 1)];
    assert h3.Keys == h.Keys;
    var h4 := h3[prev := h3[prev].(next := Some(cur))];
    assert h4.Keys == h.Keys;
    if e.final then h4[cur := h4[cur].(next := None)] else h4
  }

  ghost predicate TargetsIn(ptov: map<nat, BufId>, h: Heap) {
    forall a :: a in ptov ==> ptov[a] in h
  }

  /** The loop over table entries 1 .. DPA_SGT_MAX_ENTRIES-1: it stops after the
      first entry with the final flag, or at the table bound. None is the
      undefined behaviour of an unmapped entry address. */
  function SgWalk(ptov: map<nat, BufId>, h: Heap, t: Table, first: BufId, prev: BufId, i: nat)
    : (w: Option<Walk>)
    requires 1 <= i <= DPA_SGT_MAX_ENTRIES
    requires first in h && prev in h && TargetsIn(ptov, h)
    ensures w.Some? ==> w.value.heap.Keys == h.Keys && i <= w.value.consumed <= DPA_SGT_MAX_ENTRIES
    decreases DPA_SGT_MAX_ENTRIES - i
  {
    if i == DPA_SGT_MAX_ENTRIES then Some(Walk(h, i))
    else
      var e := t[i];
      if e.addr !in ptov then None
      else
        var cur := ptov[e.addr];
        var h' := SgStep(h, first, prev, cur, e);
        if e.final then Some(Walk(h', i + 1))
        else SgWalk(ptov, h', t, first, cur, i + 1)
  }

  /** The body of dpaa_eth_sg_to_mbuf once the carrier buffer is known: `t`
      is the table it holds and `a` its parse annotation. Entry 0 always
      becomes the first segment, whatever its final flag. */
  function SgTableToMbuf(ptov: map<nat, BufId>, st: State, carrier: BufId, t: Table, a: Annot, ifid: nat)
    : (r: RxOut)
    requires TargetsIn(ptov, st.heap)
    ensures !r.res.Null?
    ensures r.res.Delivered? ==>
      && r.st.heap.Keys == st.heap.Keys
      && r.st.freed == st.freed + [carrier]
      && r.st.avail == st.avail && r.st.released == st.released
    ensures r.res.Fault? ==> r.st == st
    ensures r.res.Delivered? ==>
      && r.res.head in r.st.heap
      && var m := r.st.heap[r.res.head];
         var prs := a.parse & DPAA_PARSE_MASK;
         && (PtypeOf(prs).Some? ==> m.packetType == PtypeOf(prs).value)
         && m.txOffload == TxOffloadOf(a.ipOff0, a.l4Off)
         && m.rssHash == a.hash % U32
         && m.olFlags == PKT_RX_RSS_HASH
  {
    var e0 := t[0];
    if e0.addr !in ptov then RxOut(Fault, st)
    else
      var first := ptov[e0.addr];
      var h1 := SgFirst(st.heap, first, e0, ifid);
      match SgWalk(ptov, h1, t, first, first, 1)
      case None => RxOut(Fault, st)
      case Some(w) =>
        AsWrittenFlagsRssOnly(w.heap[first], a);
        var h2 := w.heap[first := PacketInfoAsWritten(w.heap[first], a)];
        RxOut(Delivered(first), MbufFree(st.(heap := h2), carrier))
  }

  /** dpaa_eth_sg_to_mbuf. The table lives in the carrier buffer at the
      descriptor's offset, which the C code reads into an 8-bit variable. An
      unmapped carrier yields NULL. */
  function SgToMbuf(mem: Mem, st: State, fd: Fd, ifid: nat): (r: RxOut)
    requires Wf(mem, st)
    ensures fd.addr !in mem.ptov ==> r == RxOut(Null, st)
    ensures fd.addr in mem.ptov ==>
      var carrier := mem.ptov[fd.addr];
      r == SgTableToMbuf(mem.ptov, st, carrier, mem.sgt(carrier, SgtOffset(fd)), mem.annot(carrier), ifid)
    ensures r.res.Delivered? ==> r.st.heap.Keys == st.heap.Keys
    ensures r.res.Fault? ==> r.st == st
    ensures Wf(mem, r.st)
  {
    if fd.addr !in mem.ptov then RxOut(Null, st)
    else
      var carrier := mem.ptov[fd.addr];
      SgTableToMbuf(mem.ptov, st, carrier, mem.sgt(carrier, SgtOffset(fd)), mem.annot(carrier), ifid)
  }

  /** The table offset as dpaa_eth_sg_to_mbuf reads it: the 9-bit descriptor
      offset stored into a uint8_t, so only its low 8 bits survive. */
  function SgtOffset(fd: Fd): (off: nat)
    ensures off < 256
    ensures FdOffset(fd) < 256 ==> off == FdOffset(fd) as nat
  {
    (FdOffset(fd) & 0xff) as nat
  }

  /** The writes dpaa_eth_fd_to_mbuf makes on a contiguous frame's buffer. The
      20-bit length is stored into the 16-bit `data_len` as well. */
  function ContigMbuf(m: Mbuf, offset: bv32, length: bv32, ifid: nat): Mbuf {
    m.(dataOff := (offset & 0xffff) as bv16, dataLen := Low16(length), pktLen := length,
       port := ifid, nbSegs := 1, olFlags := 0, next := None, refcnt := 1)
  }

  /** dpaa_eth_fd_to_mbuf: dispatch on the descriptor format. An unsupported
      format or an unmapped contiguous buffer is released to the descriptor's
      pool and yields NULL; an unmapped scatter-gather carrier yields NULL
      without any release. */
  function FdToMbuf(mem: Mem, st: State, fd: Fd, ifid: nat): (r: RxOut)
    requires Wf(mem, st)
    ensures FdFormat(fd) == QM_FD_SG ==> r == SgToMbuf(mem, st, fd, ifid)
    ensures FdFormat(fd) != QM_FD_SG && (FdFormat(fd) != QM_FD_CONTIG || fd.addr !in mem.ptov) ==>
      r == RxOut(Null, BufFree(st, fd.bpid, fd.addr))
    ensures FdFormat(fd) == QM_FD_CONTIG && fd.addr in mem.ptov ==>
      var b := mem.ptov[fd.addr];
      && r.res == Delivered(b)
      && b in st.heap && b in r.st.heap
      && r.st == st.(heap := st.heap[b := r.st.heap[b]])
      && var m := r.st.heap[b];
         && m.dataOff as bv32 == FdOffset(fd) && m.pktLen == FdLength(fd)
         && m.dataLen == Low16(FdLength(fd))
         && m.nbSegs == 1 && m.next == None && m.refcnt == 1 && m.port == ifid
         && m == PacketInfoAsWritten(ContigMbuf(st.heap[b], FdOffset(fd), FdLength(fd), ifid), mem.annot(b))
    ensures r.st.heap.Keys == st.heap.Keys
    ensures Wf(mem, r.st)
  {
    var format := FdFormat(fd);
    if format == QM_FD_SG then SgToMbuf(mem, st, fd, ifid)
    else if format != QM_FD_CONTIG || fd.addr !in mem.ptov then
      RxOut(Null, BufFree(st, fd.bpid, fd.addr))
    else
      var b := mem.ptov[fd.addr];
      var m := ContigMbuf(st.heap[b], FdOffset(fd), FdLength(fd), ifid);
      RxOut(Delivered(b), st.(heap := st.heap[b := PacketInfoAsWritten(m, mem.annot(b))]))
  }
}
