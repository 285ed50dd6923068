/** Transmit side, one buffer of a burst: the choice dpaa_eth_queue_tx makes
    between a contiguous descriptor, a scatter-gather descriptor and a copy
    into the port's own pool, and the checksum handling of the contiguous
    case. */
module TxPacket {
  import opened DpaaDefs
  import opened Classify
  import opened FrameDesc
  import opened Tx

  /** Every pool only hands out buffers of the heap. */
  predicate PoolsIn(st: State) {
    forall p, k :: p in st.avail && 0 <= k < |st.avail[p]| ==> st.avail[p][k] in st.heap
  }

  /** The state the transmit path works on: links and pools stay in the heap. */
  predicate TxWf(st: State) {
    Closed(st.heap) && PoolsIn(st)
  }

  /** The outcome of converting one buffer: the frame for the ring, or the
      point where the burst stops, with the state either leaves. */
  datatype Step = Halt(st: State) | Emit(frame: TxFrame, st: State)

  /** The checksum a single-segment frame gets: none without a request,
      software when the headroom is short of the parse-results block,
      hardware offload otherwise. */
  function ContigCksum(m: Mbuf): (c: Cksum)
    ensures c.NoCksum? <==> !WantsCksum(m)
    ensures c.SwCksum? <==> WantsCksum(m) && (m.dataOff as int) < TX_CKSUM_HEADROOM
    ensures c.HwCksum? ==> c.prs == ChecksumOffload(m).0
  {
    if !WantsCksum(m) then NoCksum
    else if (m.dataOff as int) < TX_CKSUM_HEADROOM then SwCksum
    else HwCksum(ChecksumOffload(m).0)
  }

  /** The command word: dpaa_checksum_offload assigns RPD|DTC to it under
      hardware offload; otherwise it stays zero. */
  function ContigCmd(m: Mbuf): (cmd: bv32)
    ensures ContigCksum(m).HwCksum? ==> cmd == DPAA_FD_CMD_RPD | DPAA_FD_CMD_DTC
    ensures !ContigCksum(m).HwCksum? ==> cmd == 0
  {
    if ContigCksum(m).HwCksum? then ChecksumOffload(m).1 else 0
  }

  /** The single-segment path of dpaa_eth_queue_tx as the C code orders it:
      the reference-count policy and the descriptor, then for an indirect
      buffer the free, and only then the read of the offload flags and data
      offset. The second component is the state in which that read happens. */
  function ContigAsWritten(st: State, b: BufId): (r: (Step, State))
    requires Closed(st.heap) && b in st.heap
    ensures r.0.Emit? && r.0.st == r.1
    ensures st.heap[b].IsDirect() ==> r.1.freed == st.freed
    ensures !st.heap[b].IsDirect() ==> r.1.freed == st.freed + [b]
  {
    var m := st.heap[b];
    assert LinksIn(m, st.heap);
    var pol := SegPolicy(st, b);
    var fd := MbufToContigFd(m, pol.0);
    var st1 := if m.IsDirect() then pol.1 else MbufFree(pol.1, b);
    var seen := st1.heap[b];
    (Emit(TxFrame(fd.(cmd := ContigCmd(seen)), ContigCksum(seen), []), st1), st1)
  }

  /** The single-segment path with the offload flags read before the buffer
      may be freed. The pool id is the policy's: the sentinel 0xff while the
      deciding buffer is shared, its pool's id otherwise. */
  function ContigFrame(st: State, b: BufId): (r: Step)
    requires Closed(st.heap) && b in st.heap
    ensures r.Emit? && r.frame.sgt == []
    ensures var m := st.heap[b];
      && r.frame.cksum == ContigCksum(m)
      && r.frame.fd == MbufToContigFd(m, SegPolicy(st, b).0).(cmd := ContigCmd(m))
      && r.st.freed == (if m.IsDirect() then st.freed else st.freed + [b])
      && r.st.heap == SegPolicy(st, b).1.heap
      && r.st.avail == st.avail && r.st.released == st.released
  {
    var m := st.heap[b];
    assert LinksIn(m, st.heap);
    var ck := ContigCksum(m);
    var cmd := ContigCmd(m);
    var pol := SegPolicy(st, b);
    var fd := MbufToContigFd(m, pol.0);
    Emit(TxFrame(fd.(cmd := cmd), ck, []), if m.IsDirect() then pol.1 else MbufFree(pol.1, b))
  }

  /** For an indirect buffer the C code reads the flags from a buffer it has
      already freed: the free of `b` is the last event before the read. */
  lemma ContigReadsFreed(st: State, b: BufId)
    requires Closed(st.heap) && b in st.heap && !st.heap[b].IsDirect()
    ensures var seenAt := ContigAsWritten(st, b).1;
      |seenAt.freed| > 0 && seenAt.freed[|seenAt.freed| - 1] == b
  {
  }

  /** A single-segment indirect buffer from a hardware pool, asking for
      checksum offload: the read at the flags happens after its free. */
  lemma ContigReadsFreedExample()
    ensures var m := Mbuf(0x1000, 2048, 128, 60, 60, 1, 1, Pool(3, true), None, Some(1),
                          0, 0x0010_0000_0000_0000, 0, 0, 0);
      var o := m.(owner := None, refcnt := 2);
      var st := State(map[0 := m, 1 := o], map[], [], []);
      && WantsCksum(m)
      && ContigAsWritten(st, 0).1.freed == [0]
  {
    var m := Mbuf(0x1000, 2048, 128, 60, 60, 1, 1, Pool(3, true), None, Some(1),
                  0, 0x0010_0000_0000_0000, 0, 0, 0);
    var o := m.(owner := None, refcnt := 2);
    var st := State(map[0 := m, 1 := o], map[], [], []);
    assert LinksIn(st.heap[0], st.heap) && LinksIn(st.heap[1], st.heap);
    assert Closed(st.heap);
  }

  /** In this model a free only records itself and leaves the buffer's
      fields as they were, so reading before the free changes nothing the
      model can see: the corrected path yields the frame and state of the
      code as written. The mbuf library's free of an indirect buffer also
      detaches it, resetting data_off and clearing ol_flags, and then the
      code as written skips the checksum; that detach is outside the model. */
  lemma ContigFrameMatchesAsWritten(st: State, b: BufId)
    requires Closed(st.heap) && b in st.heap
    ensures ContigFrame(st, b) == ContigAsWritten(st, b).0
  {
    var m := st.heap[b];
    assert LinksIn(m, st.heap);
    var pol := SegPolicy(st, b);
    var st1 := if m.IsDirect() then pol.1 else MbufFree(pol.1, b);
    PolicyOnlyCounts(st, b, b);
  }

  /** dpaa_get_dmable_mbuf keeps every link inside the heap and every pool
      inside the heap. */
  lemma DmableKeepsWf(st: State, b: BufId, portBpid: nat)
    requires TxWf(st) && b in st.heap
    ensures GetDmableMbuf(st, b, portBpid).Some? ==> TxWf(GetDmableMbuf(st, b, portBpid).value.1)
  {
    match Alloc(st, portBpid)
    case None =>
    case Some(a) =>
      var nb := a.0;
      assert LinksIn(st.heap[nb], st.heap);
      var given := a.1.heap[nb];
      var m := st.heap[b];
      var copy := given.(dataOff := m.dataOff, pktLen := m.pktLen, olFlags := m.olFlags,
                         packetType := m.packetType, txOffload := m.txOffload);
      UpdateKeepsClosed(st.heap, nb, copy);
  }

  /** The copy takes the packet's offset, length, flags, type and offload
      word; its data_len, segment count, links and address stay those of the
      buffer the port's pool handed out, and no other buffer changes. */
  lemma DmableCopiesFields(st: State, b: BufId, portBpid: nat)
    requires b in st.heap && PoolsIn(st)
    ensures var r := GetDmableMbuf(st, b, portBpid);
      r.Some? ==>
        var nb := r.value.0;
        var c := r.value.1.heap[nb];
        var m := st.heap[b];
        var given := st.heap[nb];
        && c.dataOff == m.dataOff && c.pktLen == m.pktLen && c.olFlags == m.olFlags
        && c.packetType == m.packetType && c.txOffload == m.txOffload
        && c.dataLen == given.dataLen && c.nbSegs == given.nbSegs
        && c.next == given.next && c.bufPhys == given.bufPhys
        && forall x :: x in st.heap && x != nb ==> r.value.1.heap[x] == st.heap[x]
  {
  }

  /** One buffer of dpaa_eth_queue_tx. The pool is the buffer's own, or its
      owner's for an indirect buffer. A hardware pool gives a contiguous
      descriptor for one segment, a scatter-gather descriptor for 2 to
      DPA_SGT_MAX_ENTRIES segments and a stop otherwise; any other pool gives
      a copy into the port's pool `portBpid`, sent contiguous without
      checksum handling. */
  function TxOne(st: State, b: BufId, portBpid: nat): (r: Step)
    requires TxWf(st) && b in st.heap
    ensures TxWf(r.st) && r.st.heap.Keys == st.heap.Keys
    ensures r.st.released == st.released
  {
    var m := st.heap[b];
    assert LinksIn(m, st.heap);
    var pool := st.heap[Guard(st.heap, b)].pool;
    if pool.hw then
      if m.nbSegs == 1 then
        ContigKeepsWf(st, b);
        ContigFrame(st, b)
      else if 1 < m.nbSegs <= DPA_SGT_MAX_ENTRIES then
        match MbufToSgFd(st, b, pool.bpid)
        case SgFail(s) => Halt(s)
        case SgFrame(f, s) => Emit(f, s)
      else Halt(st)
    else
      DmableKeepsWf(st, b, portBpid);
      match GetDmableMbuf(st, b, portBpid)
      case None => Halt(st)
      case Some(d) => Emit(TxFrame(MbufToContigFd(d.1.heap[d.0], portBpid), NoCksum, []), d.1)
  }

  /** Which buffers stop the burst: from a hardware pool, a segment count of
      0 or above DPA_SGT_MAX_ENTRIES, or a failed scatter-gather build; from
      any other pool, an empty port pool. A stop leaves every buffer as it
      was, except a carrier that was allocated and then found too small: it
      stays reset and out of its pool. A single segment from a hardware pool always gives the contiguous
      frame, and a buffer from another pool gives the copy, sent contiguous
      without checksum handling. The pool that decides is the buffer's own,
      or its owner's when the buffer is indirect. */
  lemma TxOneCases(st: State, b: BufId, portBpid: nat)
    requires TxWf(st) && b in st.heap
    ensures var m := st.heap[b];
      var pool := st.heap[Guard(st.heap, b)].pool;
      && (TxOne(st, b, portBpid).Halt? <==>
            || (pool.hw && (m.nbSegs == 0 || m.nbSegs > DPA_SGT_MAX_ENTRIES
                            || (1 < m.nbSegs && MbufToSgFd(st, b, pool.bpid).SgFail?)))
            || (!pool.hw && Alloc(st, portBpid).None?))
      && (TxOne(st, b, portBpid).Halt? &&
          !(pool.hw && 1 < m.nbSegs <= DPA_SGT_MAX_ENTRIES && TakeCarrier(st, pool.bpid).Some?) ==>
            TxOne(st, b, portBpid).st.heap == st.heap)
      && (TxOne(st, b, portBpid).Halt? &&
          pool.hw && 1 < m.nbSegs <= DPA_SGT_MAX_ENTRIES && TakeCarrier(st, pool.bpid).Some? ==>
            TxOne(st, b, portBpid).st == TakeCarrier(st, pool.bpid).value.1)
      && (pool.hw && m.nbSegs == 1 ==> TxOne(st, b, portBpid) == ContigFrame(st, b))
      && (pool.hw && 1 < m.nbSegs <= DPA_SGT_MAX_ENTRIES && MbufToSgFd(st, b, pool.bpid).SgFrame? ==>
            TxOne(st, b, portBpid) ==
              Emit(MbufToSgFd(st, b, pool.bpid).frame, MbufToSgFd(st, b, pool.bpid).st))
      && (!pool.hw && GetDmableMbuf(st, b, portBpid).Some? ==>
            var d := GetDmableMbuf(st, b, portBpid).value;
            TxOne(st, b, portBpid) == Emit(TxFrame(MbufToContigFd(d.1.heap[d.0], portBpid), NoCksum, []), d.1))
  {
    assert LinksIn(st.heap[b], st.heap);
  }

  lemma ContigKeepsWf(st: State, b: BufId)
    requires TxWf(st) && b in st.heap
    ensures TxWf(ContigFrame(st, b).st)
  {
    assert LinksIn(st.heap[b], st.heap);
    PolicyKeepsClosed(st, b);
  }
}
