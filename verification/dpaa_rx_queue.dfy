/** The receive burst dpaa_eth_queue_rx: one volatile dequeue command for up to
    DPAA_MAX_DEQUEUE_NUM_FRAMES frames, every dequeued frame translated into a
    buffer slot. */
module RxQueue {
  import opened DpaaDefs
  import opened FrameDesc
  import opened Rx

  /** The frame count the volatile dequeue command asks for. */
  function Requested(nbBufs: nat): (q: nat)
    ensures q <= DPAA_MAX_DEQUEUE_NUM_FRAMES && q <= nbBufs
    ensures q == nbBufs || q == DPAA_MAX_DEQUEUE_NUM_FRAMES
  {
    if nbBufs > DPAA_MAX_DEQUEUE_NUM_FRAMES then DPAA_MAX_DEQUEUE_NUM_FRAMES else nbBufs
  }

  /** The frames among the portal polls, in order: a poll that finds the ring
      empty yields nothing. */
  function Frames(polls: seq<Option<Fd>>): (fs: seq<Fd>)
    ensures |fs| <= |polls|
  {
    if |polls| == 0 then []
    else
      var last := polls[|polls| - 1];
      Frames(polls[..|polls| - 1]) + (if last.Some? then [last.value] else [])
  }

  /** Translating a sequence of frames in order, threading the state. */
  function RxAll(mem: Mem, st: State, fs: seq<Fd>, ifid: nat): (r: (seq<RxResult>, State))
    requires Wf(mem, st)
    ensures |r.0| == |fs|
    ensures Wf(mem, r.1) && r.1.heap.Keys == st.heap.Keys
  {
    if |fs| == 0 then ([], st)
    else
      var prior := RxAll(mem, st, fs[..|fs| - 1], ifid);
      var out := FdToMbuf(mem, prior.1, fs[|fs| - 1], ifid);
      (prior.0 + [out.res], out.st)
  }

  /** Every frame is translated by dpaa_eth_fd_to_mbuf from the state the
      previous translations left, and its result lands in the slot of the same
      index, whether or not it is NULL. */
  lemma {:induction false} RxAllSlots(mem: Mem, st: State, fs: seq<Fd>, ifid: nat, k: nat)
    requires Wf(mem, st) && k < |fs|
    ensures var before := RxAll(mem, st, fs[..k], ifid).1;
      RxAll(mem, st, fs, ifid).0[k] == FdToMbuf(mem, before, fs[k], ifid).res
    decreases |fs|
  {
    if k < |fs| - 1 {
      var init := fs[..|fs| - 1];
      RxAllSlots(mem, st, init, ifid, k);
      assert init[..k] == fs[..k];
    } else {
      assert fs[..k] == fs[..|fs| - 1];
    }
  }

  /** The portal set-up the burst depends on: whether this thread already has
      a portal, whether affining one succeeds, and whether the volatile
      dequeue command is accepted. */
  datatype Portal = Portal(ready: bool, initOk: bool, vdqOk: bool)

  /** dpaa_eth_queue_rx. `polls` is what qman_dequeue returns on each turn of
      the loop until the volatile dequeue completes. The return value counts
      every dequeued frame, the NULL translations included. */
  method QueueRx(mem: Mem, st: State, portal: Portal, polls: seq<Option<Fd>>, nbBufs: nat, ifid: nat)
    returns (n: nat, bufs: seq<RxResult>, st': State)
    requires Wf(mem, st)
    requires |Frames(polls)| <= Requested(nbBufs)
    ensures (!portal.ready && !portal.initOk) || !portal.vdqOk ==> n == 0 && bufs == [] && st' == st
    ensures (portal.ready || portal.initOk) && portal.vdqOk ==>
      && n == |Frames(polls)| && n <= DPAA_MAX_DEQUEUE_NUM_FRAMES && n <= nbBufs
      && (bufs, st') == RxAll(mem, st, Frames(polls), ifid)
    ensures n == |bufs|
    ensures Wf(mem, st')
  {
    if !portal.ready && !portal.initOk {
      return 0, [], st;
    }
    if !portal.vdqOk {
      return 0, [], st;
    }
    n, bufs, st' := 0, [], st;
    var i := 0;
    while i < |polls|
      invariant 0 <= i <= |polls|
      invariant n == |bufs| == |Frames(polls[..i])|
      invariant (bufs, st') == RxAll(mem, st, Frames(polls[..i]), ifid)
      invariant Wf(mem, st')
    {
      assert polls[..i + 1][..i] == polls[..i];
      var dq := polls[i];
      if dq.Some? {
        var fs := Frames(polls[..i + 1]);
        assert fs == Frames(polls[..i]) + [dq.value];
        assert fs[..|fs| - 1] == Frames(polls[..i]);
        var out := FdToMbuf(mem, st', dq.value, ifid);
        bufs := bufs + [out.res];
        st' := out.st;
        n := n + 1;
      } else {
        assert Frames(polls[..i + 1]) == Frames(polls[..i]);
      }
      i := i + 1;
    }
    assert polls[..i] == polls;
  }
}
