/** Transmit side, per packet: the reference-count policy that decides which
    pool id hardware sees, the scatter-gather descriptor built by
    dpaa_eth_mbuf_to_sg_fd, and the copy into a hardware-pool buffer made by
    dpaa_get_dmable_mbuf. */
module Tx {
  import opened DpaaDefs
  import opened Classify
  import opened FrameDesc

  /** Every link of the heap (next segment, owner of an indirect buffer)
      names a buffer of the heap: the shape callers hand to the transmit path.
      The property of one buffer is drawn out only where a proof asks for
      `LinksIn(h[b], h)`. */
  predicate Closed(h: Heap) {
    forall b {:trigger LinksIn(h[b], h)} :: b in h ==> LinksIn(h[b], h)
  }

  predicate LinksIn(m: Mbuf, h: Heap) {
    (m.next.Some? ==> m.next.value in h) && (m.owner.Some? ==> m.owner.value in h)
  }

  /** Overwriting one buffer with one whose links stay in the heap keeps it closed. */
  lemma UpdateKeepsClosed(h: Heap, b: BufId, m: Mbuf)
    requires Closed(h) && b in h && LinksIn(m, h)
    ensures Closed(h[b := m])
  {
    var h' := h[b := m];
    forall x | x in h' ensures LinksIn(h'[x], h') {
      assert LinksIn(h'[x], h);
    }
  }

  /** What the checksum request of a frame came to: none, a software
      checksum because the headroom is too small, or hardware offload with
      the parse-results block written in front of the data. */
  datatype Cksum = NoCksum | SwCksum | HwCksum(prs: TxPrs)

  /** One frame handed to the queue: its descriptor, the checksum outcome and,
      for a scatter-gather frame, the table written into the carrier buffer. */
  datatype TxFrame = TxFrame(fd: Fd, cksum: Cksum, sgt: seq<SgEntry>)

  /** The pool id of a buffer as an 8-bit descriptor field (DPAA_MEMPOOL_TO_BPID). */
  function PoolBpid(p: Pool): (id: nat)
    ensures id < U8
  {
    p.bpid % U8
  }

  function SetRefcnt(st: State, b: BufId, n: nat): (r: State)
    requires b in st.heap
    ensures r.heap == st.heap[b := st.heap[b].(refcnt := n)]
    ensures r.avail == st.avail && r.freed == st.freed && r.released == st.released
  {
    st.(heap := st.heap[b := st.heap[b].(refcnt := n)])
  }

  /** The pool id a segment is sent with and the reference-count update that
      goes with it. A direct buffer still referenced elsewhere (count above
      one) is sent with INVALID_BPID so that hardware does not release it, and
      loses the reference the transmit held; otherwise hardware releases it to
      its own pool. An indirect buffer is judged by its owner: an owner
      referenced elsewhere is protected the same way and left as it is;
      otherwise the owner gains a reference, which hardware's release of the
      buffer will consume. */
  function SegPolicy(st: State, cur: BufId): (r: (nat, State))
    requires cur in st.heap && LinksIn(st.heap[cur], st.heap)
    ensures r.1.heap.Keys == st.heap.Keys
    ensures r.1.avail == st.avail && r.1.freed == st.freed && r.1.released == st.released
    ensures r.0 < U8
  {
    var m := st.heap[cur];
    if m.IsDirect() then
      if m.refcnt > 1 then (INVALID_BPID, SetRefcnt(st, cur, m.refcnt - 1))
      else (PoolBpid(m.pool), st)
    else
      var mi := st.heap[m.owner.value];
      if mi.refcnt > 1 then (INVALID_BPID, st)
      else (PoolBpid(mi.pool), SetRefcnt(st, m.owner.value, mi.refcnt + 1))
  }

  /** The policy changes no buffer but for its reference count. */
  lemma PolicyOnlyCounts(st: State, cur: BufId, x: BufId)
    requires cur in st.heap && LinksIn(st.heap[cur], st.heap) && x in st.heap
    ensures var m' := SegPolicy(st, cur).1.heap[x];
      m' == st.heap[x].(refcnt := m'.refcnt)
  {
    var h := st.heap;
    var m := h[cur];
    var h' := SegPolicy(st, cur).1.heap;
    if m.IsDirect() && m.refcnt > 1 {
      assert h' == h[cur := m.(refcnt := m.refcnt - 1)];
    } else if !m.IsDirect() && h[m.owner.value].refcnt <= 1 {
      var o := m.owner.value;
      assert h' == h[o := h[o].(refcnt := h[o].refcnt + 1)];
    } else {
      assert h' == h;
    }
  }

  /** The policy keeps every link inside the heap. */
  lemma PolicyKeepsClosed(st: State, cur: BufId)
    requires Closed(st.heap) && cur in st.heap
    ensures LinksIn(st.heap[cur], st.heap)
    ensures Closed(SegPolicy(st, cur).1.heap)
  {
    assert LinksIn(st.heap[cur], st.heap);
    var h' := SegPolicy(st, cur).1.heap;
    forall b | b in h'
      ensures LinksIn(h'[b], h')
    {
      PolicyOnlyCounts(st, cur, b);
      assert LinksIn(st.heap[b], st.heap);
    }
  }

  /** The entry written for one segment, before its final flag is known. The
      offset field is 13 bits wide. */
  function SegEntry(m: Mbuf, bpid: nat, final: bool): (e: SgEntry)
    ensures e.addr == m.bufPhys && e.length == m.dataLen as bv32
    ensures e.offset == m.dataOff & 0x1fff && e.bpid == bpid && e.final == final
  {
    SgEntry(m.bufPhys, m.dataOff & 0x1fff, m.dataLen as bv32, bpid, final)
  }

  /** The fields of a buffer a table entry is filled from. */
  ghost predicate SameData(m: Mbuf, m': Mbuf) {
    m'.bufPhys == m.bufPhys && m'.dataOff == m.dataOff && m'.dataLen == m.dataLen
  }

  /** The closing steps for an indirect segment: its link is cleared and it
      is freed. */
  function Unlink(st: State, cur: BufId): (r: State)
    requires cur in st.heap
    ensures r.heap.Keys == st.heap.Keys
    ensures r.heap[cur].next == None && r.freed == st.freed + [cur]
    ensures r.avail == st.avail && r.released == st.released
  {
    MbufFree(st.(heap := st.heap[cur := st.heap[cur].(next := None)]), cur)
  }

  /** The buffer whose reference count decides a segment's pool id: the
      segment itself when direct, its owner when indirect. */
  function Guard(h: Heap, cur: BufId): (g: BufId)
    requires cur in h && LinksIn(h[cur], h)
    ensures g in h
  {
    if h[cur].IsDirect() then cur else h[cur].owner.value
  }

  /** Everything one loop iteration does for segment `cur`, as a single
      update: the pool id of its entry, the guard's new reference count and,
      for an indirect segment, the cleared link and the free. A field written
      with its own value stands for a branch of the C code that does not
      touch it; VisitAsWritten relates this to SegPolicy and Unlink, which
      follow the branches as written. */
  function SegVisit(st: State, cur: BufId): (r: (nat, State))
    requires Closed(st.heap) && cur in st.heap
    ensures r.0 < U8
    ensures r.1.heap.Keys == st.heap.Keys
    ensures r.1.avail == st.avail && r.1.released == st.released
  {
    var m := st.heap[cur];
    var g := Guard(st.heap, cur);
    var cnt := st.heap[g].refcnt;
    var bpid := if cnt > 1 then INVALID_BPID else PoolBpid(st.heap[g].pool);
    var cnt' := if m.IsDirect() then (if cnt > 1 then cnt - 1 else cnt)
                else (if cnt > 1 then cnt else cnt + 1);
    var h1 := st.heap[g := st.heap[g].(refcnt := cnt')];
    assert h1.Keys == st.heap.Keys;
    var h2 := h1[cur := h1[cur].(next := if m.IsDirect() then h1[cur].next else None)];
    (bpid, st.(heap := h2, freed := st.freed + (if m.IsDirect() then [] else [cur])))
  }

  /** The single-update visit is the C code's branches: the reference-count
      policy, followed for an indirect segment by clearing its link and
      freeing it. */
  lemma VisitAsWritten(st: State, cur: BufId)
    requires Closed(st.heap) && cur in st.heap
    ensures SegVisit(st, cur) ==
      if st.heap[cur].IsDirect() then SegPolicy(st, cur)
      else (SegPolicy(st, cur).0, Unlink(SegPolicy(st, cur).1, cur))
  {
    var h := st.heap;
    var m := h[cur];
    var v := SegVisit(st, cur);
    var pol := SegPolicy(st, cur);
    if m.IsDirect() {
      if m.refcnt <= 1 {
        assert m.(refcnt := m.refcnt) == m && m.(next := m.next) == m;
        assert v.1.heap == h;
        assert st.freed + [] == st.freed;
      } else {
        assert v.1.heap == pol.1.heap;
      }
    } else {
      var o := m.owner.value;
      if h[o].refcnt > 1 {
        assert v.1.heap == h[cur := m.(next := None)];
      } else {
        assert v.1.heap == Unlink(pol.1, cur).heap;
      }
    }
  }

  /** A visit changes no segment's address, offset, length or owner, and no
      link but the visited segment's own, which it may only clear. */
  lemma VisitFrame(st: State, cur: BufId, x: BufId)
    requires Closed(st.heap) && cur in st.heap && x in st.heap
    ensures var m' := SegVisit(st, cur).1.heap[x];
      && SameData(st.heap[x], m') && m'.owner == st.heap[x].owner
      && (m'.next == st.heap[x].next || (x == cur && m'.next.None?))
  {
  }

  /** A visit keeps every link inside the heap. */
  lemma VisitKeepsClosed(st: State, cur: BufId)
    requires Closed(st.heap) && cur in st.heap
    ensures Closed(SegVisit(st, cur).1.heap)
  {
    var h' := SegVisit(st, cur).1.heap;
    forall b | b in h'
      ensures LinksIn(h'[b], h')
    {
      VisitFrame(st, cur, b);
      assert LinksIn(st.heap[b], st.heap);
    }
  }


  /** The entries the table loop wrote and the state it left. */
  datatype Built = Built(entries: seq<SgEntry>, st: State)

  /** The table loop of dpaa_eth_mbuf_to_sg_fd from segment `cur` on, with
      `room` entries of the table left (DPA_SGT_MAX_ENTRIES minus the index
      of the next entry). The entry is filled from the segment as it was
      before the visit, and the successor is read before an indirect segment
      is unlinked. The loop stops after the last segment, marking its entry
      final, or silently when the table is full, in which case no entry is
      final. */
  function SgBuild(st: State, cur: BufId, room: nat): (r: Built)
    requires 1 <= room
    requires Closed(st.heap) && cur in st.heap
    ensures 1 <= |r.entries| <= room
    ensures r.st.heap.Keys == st.heap.Keys
    ensures r.st.avail == st.avail && r.st.released == st.released
    decreases room
  {
    var m := st.heap[cur];
    assert LinksIn(m, st.heap);
    var v := SegVisit(st, cur);
    VisitKeepsClosed(st, cur);
    var e := SegEntry(m, v.0, m.next.None?);
    if m.next.None? || room == 1 then Built([e], v.1)
    else
      var rest := SgBuild(v.1, m.next.value, room - 1);
      Built([e] + rest.entries, rest.st)
  }

  /** The table loop keeps every link inside the heap. */
  lemma {:induction false} BuildKeepsClosed(st: State, cur: BufId, room: nat)
    requires 1 <= room
    requires Closed(st.heap) && cur in st.heap
    ensures Closed(SgBuild(st, cur, room).st.heap)
    decreases room
  {
    var m := st.heap[cur];
    assert LinksIn(m, st.heap);
    VisitKeepsClosed(st, cur);
    if m.next.Some? && room > 1 {
      BuildKeepsClosed(SegVisit(st, cur).1, m.next.value, room - 1);
    }
  }

  /** The outcome of dpaa_eth_mbuf_to_sg_fd: -1 with the state it leaves, or
      the frame. */
  datatype SgFdOut = SgFail(st: State) | SgFrame(frame: TxFrame, st: State)

  /** The headroom the carrier needs for the table: one entry per segment
      after its data offset, compared as the C code does it before any
      checksum adjustment. */
  predicate CarrierFits(carrier: Mbuf, head: Mbuf) {
    carrier.bufLen as int >= head.nbSegs * SG_ENTRY_SIZE + carrier.dataOff as int
  }

  predicate WantsCksum(m: Mbuf) {
    m.olFlags & DPAA_TX_CKSUM_OFFLOAD_MASK != 0
  }

  /** The carrier's data offset once the checksum request is seen: raised to
      the headroom the parse-results block needs. */
  function CarrierOffset(carrier: Mbuf, head: Mbuf): (off: bv16)
    ensures WantsCksum(head) ==> off as int >= TX_CKSUM_HEADROOM
    ensures off as int >= carrier.dataOff as int
    ensures off != carrier.dataOff ==> WantsCksum(head) && off as int == TX_CKSUM_HEADROOM
  {
    if WantsCksum(head) && (carrier.dataOff as int) < TX_CKSUM_HEADROOM then 48 else carrier.dataOff
  }

  /** The table loop of dpaa_eth_mbuf_to_sg_fd, run once the carrier's data
      offset is set to `off`, from head segment `b`. */
  function SgTable(st: State, carrier: BufId, off: bv16, b: BufId): (r: Built)
    requires Closed(st.heap) && carrier in st.heap && b in st.heap
    ensures 1 <= |r.entries| <= DPA_SGT_MAX_ENTRIES
    ensures Closed(r.st.heap) && r.st.heap.Keys == st.heap.Keys
    ensures r.st.avail == st.avail && r.st.released == st.released
  {
    var t := st.heap[carrier];
    assert LinksIn(st.heap[carrier], st.heap);
    UpdateKeepsClosed(st.heap, carrier, t.(dataOff := off));
    var st' := st.(heap := st.heap[carrier := t.(dataOff := off)]);
    BuildKeepsClosed(st', b, DPA_SGT_MAX_ENTRIES);
    SgBuild(st', b, DPA_SGT_MAX_ENTRIES)
  }

  /** A reset drops the buffer's link and keeps its owner, so a closed heap
      stays closed. */
  lemma ResetKeepsClosed(h: Heap, c: BufId)
    requires c in h
    ensures Closed(h) ==> Closed(h[c := PktmbufReset(h[c])])
  {
    if Closed(h) {
      assert LinksIn(h[c], h);
      UpdateKeepsClosed(h, c, PktmbufReset(h[c]));
    }
  }

  /** rte_pktmbuf_alloc of the carrier from the pool of `bpid`: the pool's
      next buffer, reset. */
  function TakeCarrier(st: State, bpid: nat): (r: Option<(BufId, State)>)
    requires forall k :: bpid in st.avail && 0 <= k < |st.avail[bpid]| ==> st.avail[bpid][k] in st.heap
    ensures r.None? <==> Alloc(st, bpid).None?
    ensures r.Some? ==>
      var c := r.value.0;
      && c == Alloc(st, bpid).value.0 && c in st.heap
      && r.value.1 == st.(avail := st.avail[bpid := st.avail[bpid][1..]],
                          heap := st.heap[c := PktmbufReset(st.heap[c])])
    ensures r.Some? && Closed(st.heap) ==> Closed(r.value.1.heap)
  {
    match Alloc(st, bpid)
    case None => None
    case Some(a) =>
      var c := a.0;
      ResetKeepsClosed(st.heap, c);
      Some((c, a.1.(heap := a.1.heap[c := PktmbufReset(a.1.heap[c])])))
  }

  /** dpaa_eth_mbuf_to_sg_fd. The carrier buffer is allocated, and so reset,
      from the pool of `bpid`. When the carrier is too small the function
      returns -1 without giving the carrier back, so it stays reset and out
      of its pool. The descriptor names the carrier, whose offset is the
      reset headroom raised for a checksum request, and the whole packet's
      length. */
  function MbufToSgFd(st: State, b: BufId, bpid: nat): (r: SgFdOut)
    requires Closed(st.heap) && b in st.heap
    requires forall k :: bpid in st.avail && 0 <= k < |st.avail[bpid]| ==> st.avail[bpid][k] in st.heap
    ensures TakeCarrier(st, bpid).None? ==> r == SgFail(st)
    ensures TakeCarrier(st, bpid).Some? ==>
      var a := TakeCarrier(st, bpid).value;
      && a.0 in st.heap && b in a.1.heap
      && r.st.avail == st.avail[bpid := st.avail[bpid][1..]]
      && (r.SgFail? <==> !CarrierFits(a.1.heap[a.0], a.1.heap[b]))
      && (r.SgFail? ==> r.st == a.1)
    ensures r.SgFail? ==> r.st.freed == st.freed
    ensures r.SgFrame? ==>
      var a := TakeCarrier(st, bpid).value;
      var t := a.1.heap[a.0];
      var m := a.1.heap[b];
      var off := CarrierOffset(t, m);
      && t == PktmbufReset(st.heap[a.0])
      && r.frame.sgt == SgTable(a.1, a.0, off, b).entries
      && r.st == SgTable(a.1, a.0, off, b).st
      && r.frame.fd == MakeSgFd(r.frame.fd.cmd, t.bufPhys, off, bpid, m.pktLen)
      && (r.frame.cksum.HwCksum? <==> WantsCksum(m))
      && (r.frame.cksum.HwCksum? ==> r.frame.fd.cmd == DPAA_FD_CMD_RPD | DPAA_FD_CMD_DTC)
      && (r.frame.cksum.HwCksum? ==> r.frame.cksum.prs == ChecksumOffload(m).0)
      && (!WantsCksum(m) ==> r.frame.cksum == NoCksum && r.frame.fd.cmd == 0)
    ensures r.st.released == st.released
    ensures Closed(r.st.heap) && r.st.heap.Keys == st.heap.Keys
  {
    match TakeCarrier(st, bpid)
    case None => SgFail(st)
    case Some(a) =>
      var carrier := a.0;
      var st1 := a.1;
      var t := st1.heap[carrier];
      var m := st1.heap[b];
      if !CarrierFits(t, m) then SgFail(st1)
      else
        var off := CarrierOffset(t, m);
        var ck := if WantsCksum(m) then HwCksum(ChecksumOffload(m).0) else NoCksum;
        var cmd := if WantsCksum(m) then ChecksumOffload(m).1 else 0;
        var fd := MakeSgFd(cmd, t.bufPhys, off, bpid, m.pktLen);
        var built := SgTable(st1, carrier, off, b);
        SgFrame(TxFrame(fd, ck, built.entries), built.st)
  }

  /** A carrier left with a stale data offset by its last use: two segments
      and a 2048-byte carrier whose recorded offset is 2040. The stale offset
      would fail the capacity test; after the reset the offset is the
      128-byte headroom and the table fits. */
  lemma StaleCarrierOffsetExample(t: Mbuf, head: Mbuf)
    requires t.bufLen == 2048 && t.dataOff == 2040 && head.nbSegs == 2
    ensures !CarrierFits(t, head)
    ensures PktmbufReset(t).dataOff == RTE_PKTMBUF_HEADROOM && CarrierFits(PktmbufReset(t), head)
  {
  }

  /** dpaa_get_dmable_mbuf: a buffer from the port's pool receives the
      packet's data offset, length, flags, type and offload word, and the
      original is freed. Only these fields are copied: the new buffer keeps
      its own data_len, segment count and links. */
  function GetDmableMbuf(st: State, b: BufId, portBpid: nat): (r: Option<(BufId, State)>)
    requires b in st.heap
    requires forall k :: portBpid in st.avail && 0 <= k < |st.avail[portBpid]| ==> st.avail[portBpid][k] in st.heap
    ensures r.None? <==> Alloc(st, portBpid).None?
    ensures r.Some? ==>
      var nb := r.value.0;
      var st' := r.value.1;
      && nb == Alloc(st, portBpid).value.0 && nb in st.heap && nb in st'.heap
      && st'.heap.Keys == st.heap.Keys
      && st'.freed == st.freed + [b]
      && st'.avail == st.avail[portBpid := st.avail[portBpid][1..]]
      && st'.released == st.released
  {
    match Alloc(st, portBpid)
    case None => None
    case Some(a) =>
      var nb := a.0;
      var m := st.heap[b];
      var given := a.1.heap[nb];
      var copy := given.(dataOff := m.dataOff, pktLen := m.pktLen, olFlags := m.olFlags,
                         packetType := m.packetType, txOffload := m.txOffload);
      Some((nb, MbufFree(a.1.(heap := a.1.heap[nb := copy]), b)))
  }
}
