/** Properties of the transmit-side scatter-gather table: which entries it
    holds, which one is final, and the pool ids the reference-count policy
    chooses. */
module TxProps {
  import opened DpaaDefs
  import opened Tx
  import opened FrameDesc
  import Rx

  /** The segments the table loop visits from `b` when it may write at most
      `k` entries: the chain of `next` links, cut at k. */
  ghost function Chain(h: Heap, b: BufId, k: nat): (c: seq<BufId>)
    requires Closed(h) && b in h && k >= 1
    ensures 1 <= |c| <= k && c[0] == b && c[|c| - 1] in h
    ensures forall j :: 0 <= j < |c| ==> c[j] in h
    decreases k
  {
    assert LinksIn(h[b], h);
    if h[b].next.None? || k == 1 then [b] else [b] + Chain(h, h[b].next.value, k - 1)
  }

  ghost predicate Distinct(c: seq<BufId>) {
    forall p, q :: 0 <= p < q < |c| ==> c[p] != c[q]
  }

  /** The address, 13-bit offset and length a table entry takes from a
      segment. */
  function Carried(m: Mbuf): (nat, bv16, bv32) {
    (m.bufPhys, m.dataOff & 0x1fff, m.dataLen as bv32)
  }

  /** An entry describes a segment: it carries the segment's address, offset
      and length, and the final flag exactly when the segment has no
      successor. */
  ghost predicate Describes(e: SgEntry, m: Mbuf) {
    (e.addr, e.offset, e.length) == Carried(m) && (e.final <==> m.next.None?)
  }

  /** Each link of the chain is a `next` link of the heap, and the chain is
      cut short of k only at a segment without successor. */
  lemma {:induction false} ChainLinks(h: Heap, b: BufId, k: nat)
    requires Closed(h) && b in h && k >= 1
    ensures var c := Chain(h, b, k);
      && (forall j :: 0 <= j < |c| ==> c[j] in h)
      && (forall j :: 0 <= j < |c| - 1 ==> h[c[j]].next == Some(c[j + 1]))
      && (|c| < k ==> h[c[|c| - 1]].next.None?)
    decreases k
  {
    assert LinksIn(h[b], h);
    if h[b].next.Some? && k > 1 {
      ChainLinks(h, h[b].next.value, k - 1);
    }
  }

  /** The chain only depends on the links of its own members. */
  lemma {:induction false} ChainSame(h: Heap, h': Heap, b: BufId, k: nat, x: BufId)
    requires Closed(h) && Closed(h') && b in h && h'.Keys == h.Keys && k >= 1
    requires forall y :: y in h && y != x ==> h'[y].next == h[y].next
    requires x !in Chain(h, b, k)
    ensures Chain(h', b, k) == Chain(h, b, k)
    decreases k
  {
    assert LinksIn(h[b], h);
    if h[b].next.Some? && k > 1 {
      ChainSame(h, h', h[b].next.value, k - 1, x);
    }
  }


  /** One step of the table loop: the visit of `cur`, its entry, and the
      rest of the table from its successor. */
  lemma BuildUnfold(st: State, cur: BufId, room: nat) returns (v: (nat, State), e: SgEntry, rest: seq<SgEntry>)
    requires 1 <= room
    requires Closed(st.heap) && cur in st.heap
    ensures v == SegVisit(st, cur) && Closed(v.1.heap) && v.1.heap.Keys == st.heap.Keys
    ensures e == SegEntry(st.heap[cur], v.0, st.heap[cur].next.None?)
    ensures LinksIn(st.heap[cur], st.heap)
    ensures SgBuild(st, cur, room).entries == [e] + rest
    ensures var m := st.heap[cur];
      if m.next.None? || room == 1 then rest == []
      else rest == SgBuild(v.1, m.next.value, room - 1).entries
  {
    v := SegVisit(st, cur);
    VisitKeepsClosed(st, cur);
    var m := st.heap[cur];
    e := SegEntry(m, v.0, m.next.None?);
    if m.next.None? || room == 1 {
      rest := [];
    } else {
      rest := SgBuild(v.1, m.next.value, room - 1).entries;
    }
  }

  /** The loop marks its last entry final unless it filled the table. */
  lemma {:induction false} SgBuildLast(st: State, cur: BufId, room: nat)
    requires 1 <= room
    requires Closed(st.heap) && cur in st.heap
    ensures var es := SgBuild(st, cur, room).entries;
      es[|es| - 1].final || |es| == room
    decreases room, 1
  {
    var m := st.heap[cur];
    if m.next.Some? && room > 1 {
      LastStep(st, cur, room);
    } else {
      var v, e, rest := BuildUnfold(st, cur, room);
    }
  }

  /** The inductive step of SgBuildLast: the last entry is the rest's. */
  lemma {:induction false} LastStep(st: State, cur: BufId, room: nat)
    requires 2 <= room
    requires Closed(st.heap) && cur in st.heap && st.heap[cur].next.Some?
    ensures var es := SgBuild(st, cur, room).entries;
      es[|es| - 1].final || |es| == room
    decreases room, 0
  {
    var v, e, rest := BuildUnfold(st, cur, room);
    SgBuildLast(v.1, st.heap[cur].next.value, room - 1);
    var es := [e] + rest;
    assert es[|es| - 1] == rest[|rest| - 1];
  }

  /** Entry j describes the j-th segment of `c`, read in heap `h`. */
  ghost predicate DescribesAll(es: seq<SgEntry>, h: Heap, c: seq<BufId>) {
    && |es| == |c|
    && (forall j :: 0 <= j < |c| ==> c[j] in h)
    && (forall j :: 0 <= j < |c| ==> Describes(es[j], h[c[j]]))
  }

  lemma DescribesCons(e: SgEntry, es: seq<SgEntry>, h: Heap, b: BufId, c: seq<BufId>)
    requires b in h && Describes(e, h[b]) && DescribesAll(es, h, c)
    ensures DescribesAll([e] + es, h, [b] + c)
  {
    var es', c' := [e] + es, [b] + c;
    forall j | 0 < j < |c'|
      ensures c'[j] in h && Describes(es'[j], h[c'[j]])
    {
      assert es'[j] == es[j - 1] && c'[j] == c[j - 1];
    }
  }

  /** A visit of `cur` leaves every other segment described as before. */
  lemma VisitKeepsDescribesOne(st: State, cur: BufId, e: SgEntry, x: BufId)
    requires Closed(st.heap) && cur in st.heap && x in st.heap && x != cur
    requires Describes(e, SegVisit(st, cur).1.heap[x])
    ensures Describes(e, st.heap[x])
  {
    VisitFrame(st, cur, x);
    assert Carried(st.heap[x]) == Carried(SegVisit(st, cur).1.heap[x]);
    DescribesSame(e, st.heap[x], SegVisit(st, cur).1.heap[x]);
  }

  lemma DescribesSame(e: SgEntry, m: Mbuf, m': Mbuf)
    requires Carried(m) == Carried(m') && m.next == m'.next && Describes(e, m')
    ensures Describes(e, m)
  {
  }

  lemma VisitKeepsDescribes(st: State, cur: BufId, es: seq<SgEntry>, c: seq<BufId>)
    requires Closed(st.heap) && cur in st.heap && cur !in c
    requires DescribesAll(es, SegVisit(st, cur).1.heap, c)
    ensures DescribesAll(es, st.heap, c)
  {
    forall j | 0 <= j < |c|
      ensures c[j] in st.heap && Describes(es[j], st.heap[c[j]])
    {
      assert c[j] != cur;
      VisitKeepsDescribesOne(st, cur, es[j], c[j]);
    }
  }

  /** A visit of `cur` leaves every chain that avoids `cur` as it was. */
  lemma VisitKeepsChain(st: State, cur: BufId, b: BufId, k: nat)
    requires Closed(st.heap) && cur in st.heap && b in st.heap && k >= 1
    requires cur !in Chain(st.heap, b, k)
    ensures Closed(SegVisit(st, cur).1.heap)
    ensures Chain(SegVisit(st, cur).1.heap, b, k) == Chain(st.heap, b, k)
  {
    var h, h' := st.heap, SegVisit(st, cur).1.heap;
    VisitKeepsClosed(st, cur);
    forall y | y in h && y != cur
      ensures h'[y].next == h[y].next
    {
      VisitFrame(st, cur, y);
    }
    ChainSame(h, h', b, k, cur);
  }

  lemma DistinctTail(c: seq<BufId>)
    requires |c| >= 1 && Distinct(c)
    ensures Distinct(c[1..]) && c[0] !in c[1..]
  {
    var tail := c[1..];
    forall j | 0 <= j < |tail|
      ensures tail[j] != c[0]
    {
      assert tail[j] == c[j + 1];
    }
  }

  /** Along a chain without repeated segments, entry j of the table is built
      from segment j: its address, offset and length, and the final flag
      exactly when the segment ends the packet. */
  lemma {:induction false} SgBuildContents(st: State, cur: BufId, room: nat)
    requires 1 <= room
    requires Closed(st.heap) && cur in st.heap
    requires Distinct(Chain(st.heap, cur, room))
    ensures DescribesAll(SgBuild(st, cur, room).entries, st.heap, Chain(st.heap, cur, room))
    decreases room, 1
  {
    var h := st.heap;
    var m := h[cur];
    if m.next.None? || room == 1 {
      var v, e, rest := BuildUnfold(st, cur, room);
      assert Chain(h, cur, room) == [cur];
      assert DescribesAll([], h, []);
      DescribesCons(e, [], h, cur, []);
    } else {
      ContentsStep(st, cur, room);
    }
  }

  /** The inductive step of SgBuildContents, for a segment with a successor
      and room for more entries. */
  lemma {:induction false} ContentsStep(st: State, cur: BufId, room: nat)
    requires 2 <= room
    requires Closed(st.heap) && cur in st.heap && st.heap[cur].next.Some?
    requires Distinct(Chain(st.heap, cur, room))
    ensures DescribesAll(SgBuild(st, cur, room).entries, st.heap, Chain(st.heap, cur, room))
    decreases room, 0
  {
    var h := st.heap;
    var v, e, rest := BuildUnfold(st, cur, room);
    var nx := h[cur].next.value;
    var c := Chain(h, cur, room);
    var tail := Chain(h, nx, room - 1);
    assert c == [cur] + tail;
    assert tail == c[1..];
    DistinctTail(c);
    VisitKeepsChain(st, cur, nx, room - 1);
    SgBuildContents(v.1, nx, room - 1);
    VisitKeepsDescribes(st, cur, rest, tail);
    DescribesCons(e, rest, h, cur, tail);
  }

  /** A chain longer than the table: the loop stops at DPA_SGT_MAX_ENTRIES
      entries and none of them carries the final flag. */
  lemma SgBuildFullNotFinal(st: State, cur: BufId, room: nat)
    requires 1 <= room
    requires Closed(st.heap) && cur in st.heap
    requires Distinct(Chain(st.heap, cur, room))
    requires var c := Chain(st.heap, cur, room); st.heap[c[|c| - 1]].next.Some?
    ensures var es := SgBuild(st, cur, room).entries;
      |es| == room && forall j :: 0 <= j < |es| ==> !es[j].final
  {
    var h := st.heap;
    var c := Chain(h, cur, room);
    var es := SgBuild(st, cur, room).entries;
    ChainFull(h, cur, room);
    SgBuildContents(st, cur, room);
    forall j | 0 <= j < |es|
      ensures !es[j].final
    {
      assert Describes(es[j], h[c[j]]) && h[c[j]].next.Some?;
    }
  }

  /** A chain whose last segment still has a successor was cut at k, and
      every segment on it has a successor. */
  lemma ChainFull(h: Heap, b: BufId, k: nat)
    requires Closed(h) && b in h && k >= 1
    requires var c := Chain(h, b, k); h[c[|c| - 1]].next.Some?
    ensures var c := Chain(h, b, k);
      |c| == k && forall j :: 0 <= j < |c| ==> c[j] in h && h[c[j]].next.Some?
  {
    var c := Chain(h, b, k);
    ChainLinks(h, b, k);
    forall j | 0 <= j < |c|
      ensures c[j] in h && h[c[j]].next.Some?
    {
      if j < |c| - 1 {
        assert h[c[j]].next == Some(c[j + 1]);
      }
    }
  }

  /** Raising the carrier's data offset leaves the table of a chain that
      does not hold the carrier as it was. */
  lemma CarrierKeepsTable(st: State, carrier: BufId, off: bv16, b: BufId, room: nat)
    requires 1 <= room
    requires Closed(st.heap) && carrier in st.heap && b in st.heap
    requires Distinct(Chain(st.heap, b, room))
    requires carrier !in Chain(st.heap, b, room)
    ensures var st' := st.(heap := st.heap[carrier := st.heap[carrier].(dataOff := off)]);
      && Closed(st'.heap)
      && DescribesAll(SgBuild(st', b, room).entries, st.heap, Chain(st.heap, b, room))
  {
    var h := st.heap;
    var t := h[carrier];
    assert LinksIn(h[carrier], h);
    UpdateKeepsClosed(h, carrier, t.(dataOff := off));
    var st' := st.(heap := h[carrier := t.(dataOff := off)]);
    var c := Chain(h, b, room);
    ChainSame(h, st'.heap, b, room, carrier);
    SgBuildContents(st', b, room);
    DescribesAway(SgBuild(st', b, room).entries, h, carrier, t.(dataOff := off), c);
  }

  /** Overwriting a buffer outside the chain leaves its description as it was. */
  lemma DescribesAway(es: seq<SgEntry>, h: Heap, x: BufId, m: Mbuf, c: seq<BufId>)
    requires x in h && x !in c && DescribesAll(es, h[x := m], c)
    ensures DescribesAll(es, h, c)
  {
    forall j | 0 <= j < |c|
      ensures c[j] in h && Describes(es[j], h[c[j]])
    {
      assert c[j] != x;
      assert h[x := m][c[j]] == h[c[j]];
    }
  }

  /** The table a scatter-gather frame carries, when the carrier is not part
      of the packet: entry j describes segment j of the chain from the head,
      cut at DPA_SGT_MAX_ENTRIES. */
  lemma SgTableDescribes(st: State, carrier: BufId, off: bv16, b: BufId)
    requires Closed(st.heap) && carrier in st.heap && b in st.heap
    requires Distinct(Chain(st.heap, b, DPA_SGT_MAX_ENTRIES))
    requires carrier !in Chain(st.heap, b, DPA_SGT_MAX_ENTRIES)
    ensures DescribesAll(SgTable(st, carrier, off, b).entries, st.heap, Chain(st.heap, b, DPA_SGT_MAX_ENTRIES))
  {
    CarrierKeepsTable(st, carrier, off, b, DPA_SGT_MAX_ENTRIES);
  }

  /** The visits of the table loop, one after the other, to the segments of
      `c`: each visit sees the counts the earlier ones left. */
  ghost function Visits(st: State, c: seq<BufId>): (r: State)
    requires Closed(st.heap) && forall j :: 0 <= j < |c| ==> c[j] in st.heap
    ensures Closed(r.heap) && r.heap.Keys == st.heap.Keys
    decreases |c|
  {
    if c == [] then st
    else
      VisitKeepsClosed(st, c[0]);
      Visits(SegVisit(st, c[0]).1, c[1..])
  }

  /** The indirect segments of `c`, in order. */
  ghost function Indirect(h: Heap, c: seq<BufId>): seq<BufId>
    requires forall j :: 0 <= j < |c| ==> c[j] in h
    decreases |c|
  {
    if c == [] then [] else (if h[c[0]].IsDirect() then [] else [c[0]]) + Indirect(h, c[1..])
  }

  lemma VisitsCons(st: State, cur: BufId, c: seq<BufId>)
    requires Closed(st.heap) && cur in st.heap && forall j :: 0 <= j < |c| ==> c[j] in st.heap
    ensures Closed(SegVisit(st, cur).1.heap)
    ensures Visits(st, [cur] + c) == Visits(SegVisit(st, cur).1, c)
  {
    VisitKeepsClosed(st, cur);
    assert ([cur] + c)[1..] == c;
  }

  /** The receive side reads a transmitted entry back: the buffer it lands
      in gets the segment's data offset and length exactly when the offset
      fits the entry's 13-bit field, both as the first segment and as a
      later one, and a later segment's link ends where the final flag is. */
  lemma SegEntryRoundTrip(m: Mbuf, bpid: nat, final: bool, h: Heap, first: BufId, prev: BufId, cur: BufId, ifid: nat)
    requires first in h && prev in h && cur in h && cur != first && cur != prev
    ensures var e := SegEntry(m, bpid, final);
      var h1 := Rx.SgFirst(h, first, e, ifid);
      && h1[first].dataLen == m.dataLen && h1[first].pktLen == m.dataLen as bv32
      && (h1[first].dataOff == m.dataOff <==> m.dataOff < 0x2000)
    ensures var e := SegEntry(m, bpid, final);
      var h2 := Rx.SgStep(h, first, prev, cur, e);
      && h2[cur].dataLen == m.dataLen
      && (h2[cur].dataOff == m.dataOff <==> m.dataOff < 0x2000)
      && h2[cur].next == (if final then None else h[cur].next)
  {
  }

  /** The pool ids the visits of `c` choose, one after the other. */
  ghost function Bpids(st: State, c: seq<BufId>): (ids: seq<nat>)
    requires Closed(st.heap) && forall j :: 0 <= j < |c| ==> c[j] in st.heap
    ensures |ids| == |c|
    decreases |c|
  {
    if c == [] then []
    else
      VisitKeepsClosed(st, c[0]);
      [SegVisit(st, c[0]).0] + Bpids(SegVisit(st, c[0]).1, c[1..])
  }

  /** The pool ids of a table's entries. */
  function Pools(es: seq<SgEntry>): (ids: seq<nat>)
    ensures |ids| == |es| && forall j :: 0 <= j < |es| ==> ids[j] == es[j].bpid
  {
    if es == [] then [] else [es[0].bpid] + Pools(es[1..])
  }

  /** The pool id chosen for segment j is the policy's choice in the state
      the visits of segments 0..j-1 left. */
  lemma {:induction false} BpidsAt(st: State, c: seq<BufId>, j: nat)
    requires Closed(st.heap) && forall k :: 0 <= k < |c| ==> c[k] in st.heap
    requires j < |c|
    ensures Bpids(st, c)[j] == SegVisit(Visits(st, c[..j]), c[j]).0
    decreases j
  {
    if j == 0 {
      assert c[..0] == [];
    } else {
      var v := SegVisit(st, c[0]);
      VisitKeepsClosed(st, c[0]);
      BpidsAt(v.1, c[1..], j - 1);
      assert c[..j] == [c[0]] + c[1..][..j - 1];
      VisitsCons(st, c[0], c[1..][..j - 1]);
    }
  }

  /** Along a chain without repeated segments, the table loop applies the
      reference-count policy segment after segment: entry j gets the pool id
      chosen in the state the visits of segments 0..j-1 left (BpidsAt), and
      the loop ends in the state all the visits leave. */
  lemma {:induction false} SgBuildPolicy(st: State, cur: BufId, room: nat)
    requires 1 <= room
    requires Closed(st.heap) && cur in st.heap
    requires Distinct(Chain(st.heap, cur, room))
    ensures var c := Chain(st.heap, cur, room);
      var r := SgBuild(st, cur, room);
      Pools(r.entries) == Bpids(st, c) && r.st == Visits(st, c)
    decreases room, 1
  {
    var h := st.heap;
    var m := h[cur];
    if m.next.None? || room == 1 {
      var v, e, rest := BuildUnfold(st, cur, room);
      var c := Chain(h, cur, room);
      assert c == [cur];
      VisitsCons(st, cur, []);
      assert c == [cur] + [];
      assert c[1..] == [];
    } else {
      PolicyStep(st, cur, room);
    }
  }

  /** The inductive step of SgBuildPolicy. */
  lemma {:induction false} PolicyStep(st: State, cur: BufId, room: nat)
    requires 2 <= room
    requires Closed(st.heap) && cur in st.heap && st.heap[cur].next.Some?
    requires Distinct(Chain(st.heap, cur, room))
    ensures var c := Chain(st.heap, cur, room);
      var r := SgBuild(st, cur, room);
      Pools(r.entries) == Bpids(st, c) && r.st == Visits(st, c)
    decreases room, 0
  {
    var h := st.heap;
    var v, e, rest := BuildUnfold(st, cur, room);
    var nx := h[cur].next.value;
    var c := Chain(h, cur, room);
    var tail := Chain(h, nx, room - 1);
    assert c == [cur] + tail;
    assert c[1..] == tail;
    DistinctTail(c);
    VisitKeepsChain(st, cur, nx, room - 1);
    SgBuildPolicy(v.1, nx, room - 1);
    var r := SgBuild(st, cur, room);
    assert r.st == SgBuild(v.1, nx, room - 1).st;
    VisitsCons(st, cur, tail);
    assert ([e] + rest)[1..] == rest;
  }

  /** The visits free exactly the indirect segments, in chain order. */
  lemma {:induction false} VisitsFreed(st: State, c: seq<BufId>)
    requires Closed(st.heap) && forall j :: 0 <= j < |c| ==> c[j] in st.heap
    ensures Visits(st, c).freed == st.freed + Indirect(st.heap, c)
    decreases |c|
  {
    if c != [] {
      var v := SegVisit(st, c[0]);
      VisitKeepsClosed(st, c[0]);
      VisitsFreed(v.1, c[1..]);
      IndirectSame(st, c[0], c[1..]);
    }
  }

  /** A visit changes no buffer's owner, so the indirect segments of a
      sequence stay the same. */
  lemma {:induction false} IndirectSame(st: State, cur: BufId, c: seq<BufId>)
    requires Closed(st.heap) && cur in st.heap && forall j :: 0 <= j < |c| ==> c[j] in st.heap
    ensures Indirect(SegVisit(st, cur).1.heap, c) == Indirect(st.heap, c)
    decreases |c|
  {
    if c != [] {
      VisitFrame(st, cur, c[0]);
      IndirectSame(st, cur, c[1..]);
    }
  }

  /** Overwriting a buffer outside the sequence leaves its indirect segments
      as they were. */
  lemma {:induction false} IndirectAway(h: Heap, x: BufId, m: Mbuf, c: seq<BufId>)
    requires x in h && x !in c && forall j :: 0 <= j < |c| ==> c[j] in h
    ensures Indirect(h[x := m], c) == Indirect(h, c)
    decreases |c|
  {
    if c != [] {
      assert c[0] != x;
      IndirectAway(h, x, m, c[1..]);
    }
  }

  /** Raising the carrier's data offset leaves the policy's choices along a
      chain that does not hold the carrier, and the segments it frees, as
      they were. */
  lemma CarrierKeepsPolicy(st: State, carrier: BufId, off: bv16, b: BufId, room: nat)
    requires 1 <= room
    requires Closed(st.heap) && carrier in st.heap && b in st.heap
    requires Distinct(Chain(st.heap, b, room))
    requires carrier !in Chain(st.heap, b, room)
    ensures Closed(st.heap[carrier := st.heap[carrier].(dataOff := off)])
    ensures var c := Chain(st.heap, b, room);
      var st' := st.(heap := st.heap[carrier := st.heap[carrier].(dataOff := off)]);
      var r := SgBuild(st', b, room);
      && Pools(r.entries) == Bpids(st', c)
      && r.st == Visits(st', c)
      && r.st.freed == st.freed + Indirect(st.heap, c)
  {
    var h := st.heap;
    var t := h[carrier];
    assert LinksIn(h[carrier], h);
    UpdateKeepsClosed(h, carrier, t.(dataOff := off));
    var st' := st.(heap := h[carrier := t.(dataOff := off)]);
    var c := Chain(h, b, room);
    ChainSame(h, st'.heap, b, room, carrier);
    SgBuildPolicy(st', b, room);
    VisitsFreed(st', c);
    IndirectAway(h, carrier, t.(dataOff := off), c);
  }

  /** The table a scatter-gather frame carries, when the carrier is not part
      of the packet: entry j's pool id is the policy's choice for segment j
      in the state the earlier visits left (BpidsAt), the loop ends in the
      state all the visits leave, and the freed list grows by the packet's
      indirect segments in chain order. */
  lemma SgTablePolicy(st: State, carrier: BufId, off: bv16, b: BufId)
    requires Closed(st.heap) && carrier in st.heap && b in st.heap
    requires Distinct(Chain(st.heap, b, DPA_SGT_MAX_ENTRIES))
    requires carrier !in Chain(st.heap, b, DPA_SGT_MAX_ENTRIES)
    ensures var c := Chain(st.heap, b, DPA_SGT_MAX_ENTRIES);
      var st' := st.(heap := st.heap[carrier := st.heap[carrier].(dataOff := off)]);
      var r := SgTable(st, carrier, off, b);
      && Closed(st'.heap)
      && Pools(r.entries) == Bpids(st', c)
      && r.st == Visits(st', c)
      && r.st.freed == st.freed + Indirect(st.heap, c)
  {
    CarrierKeepsPolicy(st, carrier, off, b, DPA_SGT_MAX_ENTRIES);
  }

  /** The hardware is handed a real pool id only for a segment whose deciding
      buffer (itself, or its owner when indirect) has no other holder; a
      shared one gets the sentinel so that the hardware does not release it. */
  lemma PolicyProtectsShared(st: State, cur: BufId)
    requires cur in st.heap && LinksIn(st.heap[cur], st.heap)
    ensures var g := st.heap[Guard(st.heap, cur)];
      && (SegPolicy(st, cur).0 == INVALID_BPID <==> g.refcnt > 1 || PoolBpid(g.pool) == INVALID_BPID)
      && (SegPolicy(st, cur).0 != INVALID_BPID ==> SegPolicy(st, cur).0 == PoolBpid(g.pool))
  {
  }

  /** The reference counts the policy leaves: a shared direct segment gives up
      the reference the transmit held, an unshared owner of an indirect
      segment gains one for the hardware, and every other count stays. */
  lemma PolicyCounts(st: State, cur: BufId, x: BufId)
    requires cur in st.heap && LinksIn(st.heap[cur], st.heap) && x in st.heap
    ensures var m := st.heap[cur];
      var g := Guard(st.heap, cur);
      var n := st.heap[x].refcnt;
      SegPolicy(st, cur).1.heap[x].refcnt ==
        if x != g then n
        else if m.IsDirect() && n > 1 then n - 1
        else if !m.IsDirect() && n <= 1 then n + 1
        else n
  {
  }

  /** The descriptor dpaa_eth_mbuf_to_sg_fd builds is a scatter-gather one
      naming the carrier, its pool id cut to 8 bits, the reset carrier's
      data offset (raised for a checksum request) in the 9-bit offset field
      and the packet length in the 20-bit length field. */
  lemma SgFdFields(st: State, b: BufId, bpid: nat)
    requires Closed(st.heap) && b in st.heap
    requires forall k :: bpid in st.avail && 0 <= k < |st.avail[bpid]| ==> st.avail[bpid][k] in st.heap
    requires MbufToSgFd(st, b, bpid).SgFrame?
    ensures var a := TakeCarrier(st, bpid).value;
      var t := PktmbufReset(st.heap[a.0]);
      var fd := MbufToSgFd(st, b, bpid).frame.fd;
      && FdFormat(fd) == QM_FD_SG
      && fd.addr == st.heap[a.0].bufPhys && fd.bpid == bpid % U8
      && FdOffset(fd) == (CarrierOffset(t, a.1.heap[b]) as bv32) & 0x1ff
      && FdLength(fd) == a.1.heap[b].pktLen & DPAA_FD_LENGTH_MASK
  {
    var r := MbufToSgFd(st, b, bpid);
    var a := TakeCarrier(st, bpid).value;
    var t := a.1.heap[a.0];
    var m := a.1.heap[b];
    var fd := MakeSgFd(r.frame.fd.cmd, t.bufPhys, CarrierOffset(t, m), bpid, m.pktLen);
    assert r.frame.fd == fd;
  }

}
