/** The transmit burst dpaa_eth_queue_tx: buffers are converted one by one in
    chunks of at most MAX_TX_RING_SLOTS frames, each chunk is handed to the
    portal until all of it is accepted, and the burst ends at the first buffer
    that cannot be converted. */
module TxBurst {
  import opened DpaaDefs
  import opened Tx
  import opened TxPacket

  /** frames_to_send for `nb` buffers still to go (a uint16_t). The C code
      tests for any bit above the low three, nb >> 3 or nb / 8 on an unsigned
      value, and then takes MAX_TX_RING_SLOTS: a full ring only because that
      constant is 8. */
  function ChunkSize(nb: nat): (n: nat)
    requires nb < U16
    ensures n == if nb < MAX_TX_RING_SLOTS then nb else MAX_TX_RING_SLOTS
  {
    if nb / 8 != 0 then MAX_TX_RING_SLOTS else nb
  }

  ghost predicate AllIn(bufs: seq<BufId>, h: Heap) {
    forall k :: 0 <= k < |bufs| ==> bufs[k] in h
  }

  /** The frames a sequence of buffers turned into, and the state after. */
  datatype Converted = Converted(frames: seq<TxFrame>, st: State)

  /** Frames `fs` followed by a further conversion. */
  function Join(fs: seq<TxFrame>, r: Converted): Converted {
    Converted(fs + r.frames, r.st)
  }

  lemma JoinAssoc(a: seq<TxFrame>, b: seq<TxFrame>, r: Converted)
    ensures Join(a, Join(b, r)) == Join(a + b, r)
  {
    assert a + (b + r.frames) == (a + b) + r.frames;
  }

  lemma TakeAfter(a: seq<TxFrame>, b: seq<TxFrame>, rest: seq<TxFrame>, k: nat)
    requires k <= |b|
    ensures (a + b + rest)[..|a| + k] == a + b[..k]
  {
    assert (a + b + rest)[..|a| + k] == (a + b)[..|a| + k];
  }

  /** Converting buffers in order with the per-buffer step `one` until the
      first buffer it cannot convert; that one and all after it are left to
      the caller. */
  ghost function Fold(one: (State, BufId) -> Step, st: State, bufs: seq<BufId>): (r: Converted)
    ensures |r.frames| <= |bufs|
    decreases |bufs|
  {
    if |bufs| == 0 then Converted([], st)
    else
      match one(st, bufs[0])
      case Halt(s) => Converted([], s)
      case Emit(f, s) => Join([f], Fold(one, s, bufs[1..]))
  }

  /** The per-buffer step of dpaa_eth_queue_tx made total: a state outside
      TxWf, or a buffer outside the heap, stops the burst. From a well-formed
      start the burst never takes that branch (ConvertKeepsWf). */
  function TxStep(st: State, b: BufId, portBpid: nat): (r: Step)
    ensures TxWf(st) && b in st.heap ==> r == TxOne(st, b, portBpid)
  {
    if TxWf(st) && b in st.heap then TxOne(st, b, portBpid) else Halt(st)
  }

  function TxStepFn(portBpid: nat): (State, BufId) -> Step {
    (st: State, b: BufId) => TxStep(st, b, portBpid)
  }

  /** What dpaa_eth_queue_tx converts of `bufs`, and the state it leaves. */
  ghost function ConvertAll(st: State, bufs: seq<BufId>, portBpid: nat): Converted {
    Fold(TxStepFn(portBpid), st, bufs)
  }

  /** From a well-formed state whose heap holds every buffer of the burst,
      every buffer is converted by TxOne itself and the state stays well
      formed over the same buffers. */
  lemma {:induction false} ConvertKeepsWf(st: State, bufs: seq<BufId>, portBpid: nat)
    requires TxWf(st) && AllIn(bufs, st.heap)
    ensures var r := ConvertAll(st, bufs, portBpid);
      TxWf(r.st) && r.st.heap.Keys == st.heap.Keys
    decreases |bufs|
  {
    if |bufs| > 0 {
      var one := TxStepFn(portBpid);
      var step := TxOne(st, bufs[0], portBpid);
      assert one(st, bufs[0]) == step;
      if step.Emit? {
        var tail := bufs[1..];
        assert AllIn(tail, step.st.heap) by {
          forall k | 0 <= k < |tail| ensures tail[k] in step.st.heap {
            assert tail[k] == bufs[k + 1];
          }
        }
        ConvertKeepsWf(step.st, tail, portBpid);
      }
    }
  }

  /** Frame k is what buffer k turns into in the state the conversions of
      the buffers before it left. */
  lemma {:induction false} ConvertOrder(one: (State, BufId) -> Step, st: State, bufs: seq<BufId>, k: nat)
    requires k < |Fold(one, st, bufs).frames|
    ensures var r := Fold(one, st, bufs);
      var mid := Fold(one, st, bufs[..k]);
      && mid.frames == r.frames[..k]
      && one(mid.st, bufs[k]) == Emit(r.frames[k], Fold(one, st, bufs[..k + 1]).st)
    decreases k
  {
    match one(st, bufs[0])
    case Halt(s) =>
      assert false;
    case Emit(f, s) =>
      assert bufs[..1][0] == bufs[0] && bufs[..1][1..] == [];
      if k == 0 {
        assert bufs[..0] == [];
      } else {
        var tail := bufs[1..];
        ConvertOrder(one, s, tail, k - 1);
        assert bufs[..k][0] == bufs[0] && bufs[..k][1..] == tail[..k - 1];
        assert bufs[..k + 1][0] == bufs[0] && bufs[..k + 1][1..] == tail[..k];
        assert tail[k - 1] == bufs[k];
      }
  }

  /** When the burst stops short, the buffer after the last frame is the one
      that could not be converted, and its failure leaves the final state. */
  lemma {:induction false} ConvertStops(one: (State, BufId) -> Step, st: State, bufs: seq<BufId>)
    requires |Fold(one, st, bufs).frames| < |bufs|
    ensures var r := Fold(one, st, bufs);
      var n := |r.frames|;
      var mid := Fold(one, st, bufs[..n]);
      && mid.frames == r.frames
      && one(mid.st, bufs[n]) == Halt(r.st)
    decreases |bufs|
  {
    var r := Fold(one, st, bufs);
    match one(st, bufs[0])
    case Halt(s) =>
      assert bufs[..0] == [];
    case Emit(f, s) =>
      var tail := bufs[1..];
      var n := |r.frames|;
      ConvertStops(one, s, tail);
      assert bufs[..n][0] == bufs[0] && bufs[..n][1..] == tail[..n - 1];
      assert tail[n - 1] == bufs[n];
  }

  function Sum(s: seq<nat>): nat {
    if |s| == 0 then 0 else Sum(s[..|s| - 1]) + s[|s| - 1]
  }

  lemma SumSnoc(s: seq<nat>, x: nat)
    ensures Sum(s + [x]) == Sum(s) + x
  {
    assert (s + [x])[..|s|] == s;
  }

  /** Whether the calling thread has a portal, and whether affining one
      succeeds when it has not. */
  datatype TxPortal = TxPortal(ready: bool, initOk: bool)

  /** Handing `count` frames to qman_enqueue_multi until all are accepted.
      `answers` are the portal's successive return values from position `a`;
      an answer larger than what was offered is read as all of it. Running
      out of answers stands for the portal never accepting the rest, where
      the C code spins for ever. */
  method Enqueue(count: nat, answers: seq<nat>, a: nat) returns (accepted: nat, a': nat, stalled: bool)
    requires a <= |answers|
    ensures a <= a' <= |answers|
    ensures !stalled ==> accepted == count
    ensures stalled ==> accepted < count && a' == |answers|
  {
    accepted, a', stalled := 0, a, false;
    while accepted < count
      invariant accepted <= count && a <= a' <= |answers|
      decreases |answers| - a'
    {
      if a' == |answers| {
        stalled := true;
        return;
      }
      var got := answers[a'];
      a' := a' + 1;
      accepted := accepted + (if got < count - accepted then got else count - accepted);
    }
  }

  /** The inner loop of dpaa_eth_queue_tx: up to `want` buffers of `bufs`
      converted into the ring with `one`, stopping early at one that cannot
      be. */
  method ConvertChunk(one: (State, BufId) -> Step, st: State, bufs: seq<BufId>, want: nat)
    returns (batch: seq<TxFrame>, st': State, halted: bool)
    requires want <= |bufs|
    ensures |batch| <= want
    ensures !halted ==> |batch| == want
    ensures !halted ==> Fold(one, st, bufs) == Join(batch, Fold(one, st', bufs[want..]))
    ensures halted ==> Fold(one, st, bufs) == Converted(batch, st')
  {
    batch, st', halted := [], st, false;
    while |batch| < want && !halted
      invariant |batch| <= want
      invariant !halted ==> Fold(one, st, bufs) == Join(batch, Fold(one, st', bufs[|batch|..]))
      invariant halted ==> Fold(one, st, bufs) == Converted(batch, st')
      decreases want - |batch|, !halted
    {
      var i := |batch|;
      var rest := bufs[i..];
      assert rest[0] == bufs[i] && rest[1..] == bufs[i + 1..];
      match one(st', bufs[i])
      case Halt(s) =>
        st' := s;
        halted := true;
      case Emit(f, s) =>
        var after := Fold(one, s, bufs[i + 1..]);
        assert Fold(one, st', rest) == Join([f], after);
        JoinAssoc(batch, [f], after);
        batch := batch + [f];
        st' := s;
    }
  }

  /** One chunk of the burst, as the loop of Burst sees it: the conversion
      so far followed by the chunk `batch` is still a prefix of the whole, the
      whole itself when the chunk halted. */
  lemma ChunkAdvances(one: (State, BufId) -> Step, c: Converted, sent: seq<TxFrame>, before: State,
                      rest: seq<BufId>, want: nat, batch: seq<TxFrame>, after: State, halted: bool, accepted: nat)
    requires c == Join(sent, Fold(one, before, rest)) && want <= |rest| && accepted <= |batch|
    requires !halted ==> Fold(one, before, rest) == Join(batch, Fold(one, after, rest[want..]))
    requires halted ==> Fold(one, before, rest) == Converted(batch, after)
    ensures halted ==> c == Converted(sent + batch, after)
    ensures !halted ==> c == Join(sent + batch, Fold(one, after, rest[want..]))
    ensures c.frames[..|sent| + accepted] == sent + batch[..accepted]
    ensures |sent| + |batch| <= |c.frames|
  {
    if halted {
      TakeAfter(sent, batch, [], accepted);
      assert sent + batch == sent + batch + [];
    } else {
      var tail := Fold(one, after, rest[want..]);
      JoinAssoc(sent, batch, tail);
      TakeAfter(sent, batch, tail.frames, accepted);
    }
  }

  /** The loop of dpaa_eth_queue_tx over a burst, for any per-buffer step
      `one`. Returns the number of buffers converted, the frames the portal
      accepted in order, the size of each chunk put in the
      MAX_TX_RING_SLOTS-entry ring, and the state after the conversions.
      `stalled` is set when the portal stops accepting before a chunk is
      through. */
  method Burst(one: (State, BufId) -> Step, st: State, bufs: seq<BufId>, answers: seq<nat>)
    returns (n: nat, sent: seq<TxFrame>, chunks: seq<nat>, st': State, stalled: bool)
    requires |bufs| < U16
    ensures !stalled ==> n == |Fold(one, st, bufs).frames| && sent == Fold(one, st, bufs).frames
    ensures !stalled ==> st' == Fold(one, st, bufs).st
    ensures stalled ==> |sent| < |Fold(one, st, bufs).frames|
    ensures stalled ==> sent == Fold(one, st, bufs).frames[..|sent|]
    ensures forall j :: 0 <= j < |chunks| ==> chunks[j] <= MAX_TX_RING_SLOTS
    ensures !stalled ==> Sum(chunks) == |sent|
    ensures n <= |bufs|
  {
    n, sent, chunks, st', stalled := 0, [], [], st, false;
    ghost var c := Fold(one, st, bufs);
    ghost var done := false;
    var nb := |bufs|;
    var a := 0;
    while nb > 0
      invariant n == |sent| <= |bufs| && a <= |answers|
      invariant done ==> nb == 0 && c == Converted(sent, st')
      invariant !done ==> n + nb == |bufs| && c == Join(sent, Fold(one, st', bufs[n..]))
      invariant forall j :: 0 <= j < |chunks| ==> chunks[j] <= MAX_TX_RING_SLOTS
      invariant Sum(chunks) == |sent|
      decreases nb
    {
      var want := ChunkSize(nb);
      var rest := bufs[n..];
      var batch, halted;
      ghost var before := st';
      batch, st', halted := ConvertChunk(one, st', rest, want);
      var loop := |batch|;
      var accepted, a';
      accepted, a', stalled := Enqueue(loop, answers, a);
      ChunkAdvances(one, c, sent, before, rest, want, batch, st', halted, accepted);
      assert rest[want..] == bufs[n + want..];
      n := n + loop;
      if halted {
        nb := loop;
        done := true;
      }
      a := a';
      if stalled {
        sent := sent + batch[..accepted];
        return;
      }
      SumSnoc(chunks, loop);
      chunks := chunks + [loop];
      sent := sent + batch;
      nb := nb - loop;
    }
    if !done {
      assert bufs[n..] == [];
    }
  }

  /** dpaa_eth_queue_tx: without a portal, and when affining one fails, it
      returns 0 and sends nothing; otherwise it runs the burst with TxOne. */
  method QueueTx(st: State, bufs: seq<BufId>, portBpid: nat, portal: TxPortal, answers: seq<nat>)
    returns (n: nat, sent: seq<TxFrame>, chunks: seq<nat>, st': State, stalled: bool)
    requires |bufs| < U16
    ensures !portal.ready && !portal.initOk ==> n == 0 && sent == [] && chunks == [] && st' == st && !stalled
    ensures (portal.ready || portal.initOk) && !stalled ==>
      n == |ConvertAll(st, bufs, portBpid).frames| && sent == ConvertAll(st, bufs, portBpid).frames
    ensures (portal.ready || portal.initOk) && !stalled ==> st' == ConvertAll(st, bufs, portBpid).st
    ensures stalled ==> |sent| < |ConvertAll(st, bufs, portBpid).frames|
    ensures stalled ==> sent == ConvertAll(st, bufs, portBpid).frames[..|sent|]
    ensures forall j :: 0 <= j < |chunks| ==> chunks[j] <= MAX_TX_RING_SLOTS
    ensures !stalled ==> Sum(chunks) == |sent|
  {
    if !portal.ready && !portal.initOk {
      return 0, [], [], st, false;
    }
    n, sent, chunks, st', stalled := Burst(TxStepFn(portBpid), st, bufs, answers);
  }
}
