/** Properties of the receive translation: the contiguous descriptor round
    trip and the shape of the chain dpaa_eth_sg_to_mbuf builds. */
module RxProps {
  import opened DpaaDefs
  import opened Classify
  import opened FrameDesc
  import opened Rx

  lemma Widen16Injective(x: bv16, y: bv16)
    requires x as bv32 == y as bv32
    ensures x == y
  {
  }

  /** A contiguous descriptor built for transmit and translated on receive
      gives back the buffer's data offset and packet length, as one segment. */
  lemma ContigRoundTrip(mem: Mem, st: State, m: Mbuf, bpid: nat, ifid: nat)
    requires Wf(mem, st) && m.bufPhys in mem.ptov
    requires m.dataOff < 512 && m.pktLen < 0x10_0000
    ensures var r := FdToMbuf(mem, st, MbufToContigFd(m, bpid), ifid);
      var b := mem.ptov[m.bufPhys];
      && r.res == Delivered(b)
      && b in r.st.heap
      && r.st.heap[b].dataOff == m.dataOff
      && r.st.heap[b].pktLen == m.pktLen
      && r.st.heap[b].nbSegs == 1 && r.st.heap[b].refcnt == 1
      && r.st.freed == st.freed && r.st.released == st.released
  {
    var fd := MbufToContigFd(m, bpid);
    var r := FdToMbuf(mem, st, fd, ifid);
    var b := mem.ptov[m.bufPhys];
    assert FdFormat(fd) == QM_FD_CONTIG;
    Widen16Injective(r.st.heap[b].dataOff, m.dataOff);
  }

  // ---- The scatter-gather walk ----

  type Ptov = map<nat, BufId>

  /** The number of entries the walk consumes once it has reached entry `i`:
      up to and including the first final entry at index >= i, or the whole
      table when there is none. */
  function Consumed(t: Table, i: nat): (n: nat)
    requires i <= DPA_SGT_MAX_ENTRIES
    ensures i < n <= DPA_SGT_MAX_ENTRIES || i == n == DPA_SGT_MAX_ENTRIES
    decreases DPA_SGT_MAX_ENTRIES - i
  {
    if i == DPA_SGT_MAX_ENTRIES then DPA_SGT_MAX_ENTRIES
    else if t[i].final then i + 1
    else Consumed(t, i + 1)
  }

  /** The sum of the first n entry lengths, in 32-bit arithmetic. */
  function LenSum(t: Table, n: nat): bv32
    requires n <= |t|
  {
    if n == 0 then 0 else Add32(LenSum(t, n - 1), t[n - 1].length)
  }

  /** Entries i .. n-1 name mapped buffers. */
  ghost predicate MappedFrom(ptov: Ptov, t: Table, i: nat, n: nat) {
    forall k :: i <= k < n && k < |t| ==> t[k].addr in ptov
  }

  ghost predicate AllMapped(ptov: Ptov, t: Table, n: nat) {
    n <= |t| && MappedFrom(ptov, t, 0, n)
  }

  function SegId(ptov: Ptov, t: Table, k: nat): BufId
    requires k < |t| && t[k].addr in ptov
  {
    ptov[t[k].addr]
  }

  /** The first n entries name n different buffers. */
  ghost predicate Distinct(ptov: Ptov, t: Table, n: nat)
    requires AllMapped(ptov, t, n)
  {
    forall j, k :: 0 <= j < k < n ==> SegId(ptov, t, j) != SegId(ptov, t, k)
  }

  /** Segment k carries the offset and length of its entry and a count of 1. */
  ghost predicate SegOk(ptov: Ptov, t: Table, h: Heap, k: nat)
    requires k < |t| && t[k].addr in ptov
  {
    var b := SegId(ptov, t, k);
    b in h && h[b].refcnt == 1 && h[b].dataOff == t[k].offset && h[b].dataLen == Low16(t[k].length)
  }

  /** Segment k links to segment k + 1. */
  ghost predicate Linked(ptov: Ptov, t: Table, h: Heap, k: nat)
    requires k + 1 < |t| && t[k].addr in ptov && t[k + 1].addr in ptov
  {
    var b := SegId(ptov, t, k);
    b in h && h[b].next == Some(SegId(ptov, t, k + 1))
  }

  /** The state of the chain after the walk has handled entries 0 .. i-1. */
  ghost predicate WalkInv(ptov: Ptov, t: Table, h0: Heap, h: Heap, i: nat, n: nat)
    requires 1 <= i <= n <= DPA_SGT_MAX_ENTRIES
    requires AllMapped(ptov, t, n)
  {
    var first := SegId(ptov, t, 0);
    && h.Keys == h0.Keys
    && first in h
    && h[first].pktLen == LenSum(t, i)
    && h[first].nbSegs == i
    && (forall k :: 0 <= k < i ==> SegOk(ptov, t, h, k))
    && (forall k :: 0 <= k < i - 1 ==> Linked(ptov, t, h, k))
    && (forall k :: i - 1 <= k < n ==>
          SegId(ptov, t, k) in h && SegId(ptov, t, k) in h0 &&
          h[SegId(ptov, t, k)].next == h0[SegId(ptov, t, k)].next)
  }

  /** The chain the walk leaves: n segments, the first holding the total
      length and count, each linked to the next, and the last terminated only
      when its entry is final (otherwise its link is left as it was). */
  ghost predicate ChainBuilt(ptov: Ptov, t: Table, h0: Heap, h: Heap, n: nat)
    requires 1 <= n <= DPA_SGT_MAX_ENTRIES
    requires AllMapped(ptov, t, n)
  {
    var first := SegId(ptov, t, 0);
    var last := SegId(ptov, t, n - 1);
    && h.Keys == h0.Keys
    && first in h && last in h && last in h0
    && h[first].pktLen == LenSum(t, n)
    && h[first].nbSegs == n
    && (forall k :: 0 <= k < n ==> SegOk(ptov, t, h, k))
    && (forall k :: 0 <= k < n - 1 ==> Linked(ptov, t, h, k))
    && (t[n - 1].final ==> h[last].next == None)
    && (!t[n - 1].final ==> h[last].next == h0[last].next)
  }

  /** The fields of a buffer that describe one segment. */
  ghost predicate SameSeg(m: Mbuf, m': Mbuf) {
    m'.refcnt == m.refcnt && m'.dataOff == m.dataOff && m'.dataLen == m.dataLen
  }

  /** One iteration's writes to the current segment, when it is neither the
      first nor the previous one. */
  lemma StepCur(h: Heap, first: BufId, prev: BufId, cur: BufId, e: SgEntry)
    requires first in h && prev in h && cur in h && cur != first && cur != prev
    ensures var h' := SgStep(h, first, prev, cur, e);
      && h'[cur].refcnt == 1 && h'[cur].dataOff == e.offset && h'[cur].dataLen == Low16(e.length)
      && h'[cur].next == (if e.final then None else h[cur].next)
  {
  }

  /** One iteration's writes to the first and previous segments. */
  lemma StepFirstPrev(h: Heap, first: BufId, prev: BufId, cur: BufId, e: SgEntry)
    requires first in h && prev in h && cur in h && cur != first && cur != prev
    ensures var h' := SgStep(h, first, prev, cur, e);
      && h'[prev].next == Some(cur)
      && h'[first].pktLen == Add32(h[first].pktLen, e.length)
      && h'[first].nbSegs == h[first].nbSegs + 1
  {
  }

  /** One iteration leaves the segment fields of every other buffer alone. */
  lemma StepOthers(h: Heap, first: BufId, prev: BufId, cur: BufId, e: SgEntry)
    requires first in h && prev in h && cur in h && cur != first && cur != prev
    ensures var h' := SgStep(h, first, prev, cur, e);
      forall x :: x in h && x != cur ==> SameSeg(h[x], h'[x])
  {
  }

  /** One iteration changes no link but those of the previous and current segments. */
  lemma StepOtherLinks(h: Heap, first: BufId, prev: BufId, cur: BufId, e: SgEntry)
    requires first in h && prev in h && cur in h && cur != first && cur != prev
    ensures var h' := SgStep(h, first, prev, cur, e);
      forall x :: x in h && x != prev && x != cur ==> h'[x].next == h[x].next
  {
  }

  /** Segments 0 .. i-1 keep their fields and segment i gets its entry's. */
  lemma StepSegOk(ptov: Ptov, t: Table, h: Heap, h': Heap, i: nat, n: nat)
    requires 1 <= i < n <= DPA_SGT_MAX_ENTRIES
    requires AllMapped(ptov, t, n) && Distinct(ptov, t, n)
    requires forall k :: 0 <= k < i ==> SegOk(ptov, t, h, k)
    requires var cur := SegId(ptov, t, i);
      && h'.Keys == h.Keys && cur in h
      && h'[cur].refcnt == 1 && h'[cur].dataOff == t[i].offset && h'[cur].dataLen == Low16(t[i].length)
      && (forall x :: x in h && x != cur ==> SameSeg(h[x], h'[x]))
    ensures forall k :: 0 <= k < i + 1 ==> SegOk(ptov, t, h', k)
  {
    forall k | 0 <= k < i + 1 ensures SegOk(ptov, t, h', k) {
      if k < i {
        assert SegOk(ptov, t, h, k);
        assert SegId(ptov, t, k) != SegId(ptov, t, i);
      }
    }
  }

  /** Links 0 .. i-2 survive and segment i-1 now links to segment i. */
  lemma StepLinked(ptov: Ptov, t: Table, h: Heap, h': Heap, i: nat, n: nat)
    requires 1 <= i < n <= DPA_SGT_MAX_ENTRIES
    requires AllMapped(ptov, t, n) && Distinct(ptov, t, n)
    requires forall k :: 0 <= k < i - 1 ==> Linked(ptov, t, h, k)
    requires var prev := SegId(ptov, t, i - 1);
      var cur := SegId(ptov, t, i);
      && h'.Keys == h.Keys && prev in h && cur in h
      && h'[prev].next == Some(cur)
      && (forall x :: x in h && x != prev && x != cur ==> h'[x].next == h[x].next)
    ensures forall k :: 0 <= k < i ==> Linked(ptov, t, h', k)
  {
    forall k | 0 <= k < i ensures Linked(ptov, t, h', k) {
      if k < i - 1 {
        assert Linked(ptov, t, h, k);
        assert SegId(ptov, t, k) != SegId(ptov, t, i - 1);
        assert SegId(ptov, t, k) != SegId(ptov, t, i);
      }
    }
  }

  /** On a non-final entry the links of segments i .. n-1 are still the ones
      they started with. */
  lemma StepNexts(ptov: Ptov, t: Table, h0: Heap, h: Heap, h': Heap, i: nat, n: nat)
    requires 1 <= i < n <= DPA_SGT_MAX_ENTRIES
    requires AllMapped(ptov, t, n) && Distinct(ptov, t, n)
    requires forall k :: i - 1 <= k < n ==>
      SegId(ptov, t, k) in h && SegId(ptov, t, k) in h0 &&
      h[SegId(ptov, t, k)].next == h0[SegId(ptov, t, k)].next
    requires var prev := SegId(ptov, t, i - 1);
      var cur := SegId(ptov, t, i);
      && h'.Keys == h.Keys
      && h'[cur].next == h[cur].next
      && (forall x :: x in h && x != prev && x != cur ==> h'[x].next == h[x].next)
    ensures forall k :: i <= k < n ==>
      SegId(ptov, t, k) in h' && SegId(ptov, t, k) in h0 &&
      h'[SegId(ptov, t, k)].next == h0[SegId(ptov, t, k)].next
  {
    forall k | i <= k < n
      ensures SegId(ptov, t, k) in h' && SegId(ptov, t, k) in h0 &&
        h'[SegId(ptov, t, k)].next == h0[SegId(ptov, t, k)].next
    {
      assert SegId(ptov, t, k) != SegId(ptov, t, i - 1);
    }
  }

  /** One iteration keeps the walk invariant on a non-final entry and
      completes the chain on a final one. */
  lemma StepKeepsInv(ptov: Ptov, t: Table, h0: Heap, h: Heap, i: nat, n: nat)
    requires 1 <= i < n <= DPA_SGT_MAX_ENTRIES
    requires AllMapped(ptov, t, n) && Distinct(ptov, t, n)
    requires WalkInv(ptov, t, h0, h, i, n)
    ensures var first := SegId(ptov, t, 0);
      var prev := SegId(ptov, t, i - 1);
      var cur := SegId(ptov, t, i);
      && first in h && prev in h && cur in h
      && var h' := SgStep(h, first, prev, cur, t[i]);
         && (!t[i].final ==> WalkInv(ptov, t, h0, h', i + 1, n))
         && (t[i].final && n == i + 1 ==> ChainBuilt(ptov, t, h0, h', n))
  {
    var first := SegId(ptov, t, 0);
    var prev := SegId(ptov, t, i - 1);
    var cur := SegId(ptov, t, i);
    var e := t[i];
    assert cur in h && prev in h;
    assert cur != first && cur != prev;
    var h' := SgStep(h, first, prev, cur, e);
    StepCur(h, first, prev, cur, e);
    StepFirstPrev(h, first, prev, cur, e);
    StepOthers(h, first, prev, cur, e);
    StepOtherLinks(h, first, prev, cur, e);
    StepSegOk(ptov, t, h, h', i, n);
    StepLinked(ptov, t, h, h', i, n);
    if !e.final {
      StepNexts(ptov, t, h0, h, h', i, n);
    }
  }

  /** At the table bound the invariant is the finished chain, the last link
      left as it was. */
  lemma InvAtBound(ptov: Ptov, t: Table, h0: Heap, h: Heap, n: nat)
    requires 1 <= n <= DPA_SGT_MAX_ENTRIES
    requires AllMapped(ptov, t, n)
    requires WalkInv(ptov, t, h0, h, n, n)
    requires !t[n - 1].final
    ensures ChainBuilt(ptov, t, h0, h, n)
  {
    assert n - 1 <= n - 1 < n;
  }

  /** One unfolding of the walk on a mapped entry below the table bound. */
  lemma WalkUnfold(ptov: Ptov, h: Heap, t: Table, first: BufId, prev: BufId, i: nat)
    returns (h': Heap, cur: BufId)
    requires 1 <= i < DPA_SGT_MAX_ENTRIES
    requires first in h && prev in h && TargetsIn(ptov, h)
    requires t[i].addr in ptov
    ensures cur == ptov[t[i].addr] && cur in h
    ensures h' == SgStep(h, first, prev, cur, t[i])
    ensures h'.Keys == h.Keys && TargetsIn(ptov, h') && first in h' && cur in h'
    ensures t[i].final ==> SgWalk(ptov, h, t, first, prev, i) == Some(Walk(h', i + 1))
    ensures !t[i].final ==> SgWalk(ptov, h, t, first, prev, i) == SgWalk(ptov, h', t, first, cur, i + 1)
  {
    cur := ptov[t[i].addr];
    h' := SgStep(h, first, prev, cur, t[i]);
  }

  /** The walk from entry i, with entries 0 .. i-1 already handled, consumes
      exactly the entries up to the first final one and builds the chain. */
  lemma {:induction false} WalkBuildsChain(ptov: Ptov, t: Table, h0: Heap, h: Heap, i: nat, n: nat)
    requires 1 <= i <= n <= DPA_SGT_MAX_ENTRIES
    requires n == Consumed(t, i)
    requires AllMapped(ptov, t, n) && Distinct(ptov, t, n)
    requires WalkInv(ptov, t, h0, h, i, n)
    requires i == DPA_SGT_MAX_ENTRIES ==> !t[i - 1].final
    requires TargetsIn(ptov, h)
    ensures var first := SegId(ptov, t, 0);
      var prev := SegId(ptov, t, i - 1);
      && first in h && prev in h
      && var w := SgWalk(ptov, h, t, first, prev, i);
         && w.Some? && w.value.consumed == n
         && ChainBuilt(ptov, t, h0, w.value.heap, n)
    decreases DPA_SGT_MAX_ENTRIES - i
  {
    if i == DPA_SGT_MAX_ENTRIES {
      InvAtBound(ptov, t, h0, h, n);
    } else {
      StepKeepsInv(ptov, t, h0, h, i, n);
      var h', cur := WalkUnfold(ptov, h, t, SegId(ptov, t, 0), SegId(ptov, t, i - 1), i);
      if !t[i].final {
        WalkBuildsChain(ptov, t, h0, h', i + 1, n);
      }
    }
  }

  /** The walk from entry i faults exactly when one of the entries it
      consumes names an unmapped address. */
  lemma {:induction false} WalkFaultIff(ptov: Ptov, h: Heap, t: Table, first: BufId, prev: BufId, i: nat)
    requires 1 <= i <= DPA_SGT_MAX_ENTRIES
    requires first in h && prev in h && TargetsIn(ptov, h)
    ensures SgWalk(ptov, h, t, first, prev, i).None? <==> !MappedFrom(ptov, t, i, Consumed(t, i))
    decreases DPA_SGT_MAX_ENTRIES - i
  {
    var n := Consumed(t, i);
    if i < DPA_SGT_MAX_ENTRIES {
      if t[i].addr !in ptov {
        assert !MappedFrom(ptov, t, i, n);
      } else if !t[i].final {
        var h', cur := WalkUnfold(ptov, h, t, first, prev, i);
        WalkFaultIff(ptov, h', t, first, cur, i + 1);
        assert MappedFrom(ptov, t, i, n) <==> MappedFrom(ptov, t, i + 1, n);
      }
    }
  }

  /** The walk starts from the invariant established by the writes for entry 0. */
  lemma FirstEstablishesInv(ptov: Ptov, t: Table, h0: Heap, ifid: nat, n: nat)
    requires 1 <= n <= DPA_SGT_MAX_ENTRIES
    requires AllMapped(ptov, t, n) && TargetsIn(ptov, h0)
    ensures SegId(ptov, t, 0) in h0
    ensures WalkInv(ptov, t, h0, SgFirst(h0, SegId(ptov, t, 0), t[0], ifid), 1, n)
  {
    var first := SegId(ptov, t, 0);
    var h := SgFirst(h0, first, t[0], ifid);
    assert LenSum(t, 1) == Add32(0, t[0].length);
    forall k | 0 <= k < n
      ensures SegId(ptov, t, k) in h && SegId(ptov, t, k) in h0 &&
        h[SegId(ptov, t, k)].next == h0[SegId(ptov, t, k)].next
    {
    }
  }

  /** Overwriting the first segment with a buffer that agrees on the chain
      fields keeps the chain. */
  lemma ChainKept(ptov: Ptov, t: Table, h0: Heap, h: Heap, n: nat, m: Mbuf)
    requires 1 <= n <= DPA_SGT_MAX_ENTRIES
    requires AllMapped(ptov, t, n) && ChainBuilt(ptov, t, h0, h, n)
    requires var f := h[SegId(ptov, t, 0)];
      SameSeg(f, m) && m.next == f.next && m.pktLen == f.pktLen && m.nbSegs == f.nbSegs
    ensures ChainBuilt(ptov, t, h0, h[SegId(ptov, t, 0) := m], n)
  {
    var h' := h[SegId(ptov, t, 0) := m];
    forall k | 0 <= k < n ensures SegOk(ptov, t, h', k) {
      assert SegOk(ptov, t, h, k);
    }
    forall k | 0 <= k < n - 1 ensures Linked(ptov, t, h', k) {
      assert Linked(ptov, t, h, k);
    }
  }

  /** Buffer x is not one of the segments the first n entries name. */
  ghost predicate Untouched(ptov: Ptov, t: Table, n: nat, x: BufId)
    requires AllMapped(ptov, t, n)
  {
    forall k :: 0 <= k < n ==> SegId(ptov, t, k) != x
  }

  /** From h to h', nothing outside the segments of the first n entries
      changes, and of the first segment only its length, segment count and
      link. */
  ghost predicate FrameOf(ptov: Ptov, t: Table, n: nat, h: Heap, h': Heap)
    requires 1 <= n && AllMapped(ptov, t, n)
  {
    var first := SegId(ptov, t, 0);
    && h'.Keys == h.Keys && first in h
    && (forall x :: x in h && Untouched(ptov, t, n, x) ==> h'[x] == h[x])
    && h'[first] == h[first].(pktLen := h'[first].pktLen, nbSegs := h'[first].nbSegs, next := h'[first].next)
  }

  lemma FrameTrans(ptov: Ptov, t: Table, n: nat, h: Heap, h': Heap, h'': Heap)
    requires 1 <= n && AllMapped(ptov, t, n)
    requires FrameOf(ptov, t, n, h, h') && FrameOf(ptov, t, n, h', h'')
    ensures FrameOf(ptov, t, n, h, h'')
  {
  }

  /** One iteration writes only the current, first and previous segments,
      and of the first only its length, segment count and (as previous) its
      link. */
  lemma StepFrame(ptov: Ptov, t: Table, h: Heap, i: nat, n: nat)
    requires 1 <= i < n <= DPA_SGT_MAX_ENTRIES
    requires AllMapped(ptov, t, n) && Distinct(ptov, t, n) && TargetsIn(ptov, h)
    ensures SegId(ptov, t, 0) in h && SegId(ptov, t, i - 1) in h && SegId(ptov, t, i) in h
    ensures FrameOf(ptov, t, n, h, SgStep(h, SegId(ptov, t, 0), SegId(ptov, t, i - 1), SegId(ptov, t, i), t[i]))
  {
    var first := SegId(ptov, t, 0);
    var prev := SegId(ptov, t, i - 1);
    var cur := SegId(ptov, t, i);
    var h' := SgStep(h, first, prev, cur, t[i]);
    forall x | x in h && Untouched(ptov, t, n, x)
      ensures h'[x] == h[x]
    {
      assert cur != x && first != x && prev != x;
    }
  }

  /** The walk from entry i writes nothing outside the segments of the
      consumed entries, and of the first segment only its length, segment
      count and link. */
  lemma {:induction false} WalkFrame(ptov: Ptov, t: Table, h: Heap, i: nat, n: nat)
    requires 1 <= i <= n <= DPA_SGT_MAX_ENTRIES
    requires n == Consumed(t, i) || (i == n == DPA_SGT_MAX_ENTRIES)
    requires AllMapped(ptov, t, n) && Distinct(ptov, t, n)
    requires TargetsIn(ptov, h)
    ensures SegId(ptov, t, 0) in h && SegId(ptov, t, i - 1) in h
    ensures var w := SgWalk(ptov, h, t, SegId(ptov, t, 0), SegId(ptov, t, i - 1), i);
      w.Some? ==> FrameOf(ptov, t, n, h, w.value.heap)
    decreases DPA_SGT_MAX_ENTRIES - i
  {
    var first := SegId(ptov, t, 0);
    var prev := SegId(ptov, t, i - 1);
    if i < DPA_SGT_MAX_ENTRIES {
      assert i < n;
      var h', cur := WalkUnfold(ptov, h, t, first, prev, i);
      StepFrame(ptov, t, h, i, n);
      if !t[i].final {
        WalkFrame(ptov, t, h', i + 1, n);
        var w := SgWalk(ptov, h', t, first, cur, i + 1);
        if w.Some? {
          FrameTrans(ptov, t, n, h, h', w.value.heap);
        }
      }
    }
  }

  /** dpaa_eth_sg_to_mbuf on a table whose consumed entries name distinct
      mapped buffers: the first entry's buffer is delivered as the head of a
      chain with one segment per consumed entry, and the carrier is freed.
      The head gets entry 0's offset and length, the summed length, the
      segment count, refcount 1, the port, and the classification of the
      carrier's annotation as the code applies it; no buffer outside the
      consumed segments changes. */
  lemma SgChainBuilt(ptov: Ptov, st: State, carrier: BufId, t: Table, a: Annot, ifid: nat)
    requires TargetsIn(ptov, st.heap)
    requires AllMapped(ptov, t, Consumed(t, 1)) && Distinct(ptov, t, Consumed(t, 1))
    ensures var r := SgTableToMbuf(ptov, st, carrier, t, a, ifid);
      && r.res == Delivered(SegId(ptov, t, 0))
      && ChainBuilt(ptov, t, st.heap, r.st.heap, Consumed(t, 1))
      && r.st.freed == st.freed + [carrier]
      && r.st.avail == st.avail && r.st.released == st.released
    ensures var r := SgTableToMbuf(ptov, st, carrier, t, a, ifid);
      var n := Consumed(t, 1);
      var first := SegId(ptov, t, 0);
      && first in st.heap && first in r.st.heap
      && r.st.heap[first].port == ifid
      && r.st.heap[first].olFlags == PKT_RX_RSS_HASH
      && r.st.heap[first] == PacketInfoAsWritten(
           st.heap[first].(dataOff := t[0].offset, dataLen := Low16(t[0].length), pktLen := LenSum(t, n),
                           refcnt := 1, port := ifid, nbSegs := n, olFlags := 0,
                           next := r.st.heap[first].next), a)
      && (forall x :: x in st.heap && Untouched(ptov, t, n, x) ==> r.st.heap[x] == st.heap[x])
  {
    var n := Consumed(t, 1);
    var first := SegId(ptov, t, 0);
    FirstEstablishesInv(ptov, t, st.heap, ifid, n);
    var h1 := SgFirst(st.heap, first, t[0], ifid);
    WalkBuildsChain(ptov, t, st.heap, h1, 1, n);
    WalkFrame(ptov, t, h1, 1, n);
    var w := SgWalk(ptov, h1, t, first, first, 1).value;
    AsWrittenFlagsRssOnly(w.heap[first], a);
    ChainKept(ptov, t, st.heap, w.heap, n, PacketInfoAsWritten(w.heap[first], a));
    forall x | x in st.heap && Untouched(ptov, t, n, x)
      ensures h1[x] == st.heap[x]
    {
      assert first != x;
    }
  }

  /** dpaa_eth_sg_to_mbuf reaches undefined behaviour exactly when a consumed
      entry names an unmapped address. */
  lemma SgFaultIff(ptov: Ptov, st: State, carrier: BufId, t: Table, a: Annot, ifid: nat)
    requires TargetsIn(ptov, st.heap)
    ensures SgTableToMbuf(ptov, st, carrier, t, a, ifid).res.Fault? <==> !AllMapped(ptov, t, Consumed(t, 1))
  {
    var n := Consumed(t, 1);
    if t[0].addr in ptov {
      var first := ptov[t[0].addr];
      var h1 := SgFirst(st.heap, first, t[0], ifid);
      WalkFaultIff(ptov, h1, t, first, first, 1);
      assert AllMapped(ptov, t, n) <==> MappedFrom(ptov, t, 1, n);
    } else {
      assert !MappedFrom(ptov, t, 0, n);
    }
  }
}
