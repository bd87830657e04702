/** The deferred-teardown queue and the double-buffered frame-slot choice
    of `VulkanEngine` (src/vk_engine.h).

    A deletor is a `std::function<void()>` in the engine; here it is an
    opaque token of type `D`, and running a deletor is recorded by
    appending its token to a trace. */
module Engine {
  import opened Types

  /** `DeletionQueue::deletors`, oldest first. */
  datatype DeletionQueue<D> = DeletionQueue(deletors: seq<D>)

  /** What `flush` did: the deletors it ran, in the order it ran them,
      and the queue it left behind. */
  datatype FlushResult<D> = FlushResult(trace: seq<D>, queue: DeletionQueue<D>)

  function EmptyQueue<D>(): DeletionQueue<D> {
    DeletionQueue([])
  }

  /** `push_function`: the new deletor goes to the back; everything that
      was queued before stays where it was. */
  function PushFunction<D>(q: DeletionQueue<D>, d: D): (r: DeletionQueue<D>)
    ensures |r.deletors| == |q.deletors| + 1
    ensures r.deletors[|q.deletors|] == d
    ensures r.deletors[..|q.deletors|] == q.deletors
  {
    DeletionQueue(q.deletors + [d])
  }

  /** Pushes `ds` one after another, as the engine does while it creates
      resources. */
  function PushAll<D>(q: DeletionQueue<D>, ds: seq<D>): DeletionQueue<D>
    decreases |ds|
  {
    if |ds| == 0 then q else PushAll(PushFunction(q, ds[0]), ds[1..])
  }

  /** The deletors from the newest back to the oldest: the walk from
      `rbegin()` to `rend()`. */
  function RunNewestFirst<D>(ds: seq<D>): (trace: seq<D>)
    ensures |trace| == |ds|
    ensures forall i :: 0 <= i < |ds| ==> trace[i] == ds[|ds| - 1 - i]
  {
    if |ds| == 0 then [] else [ds[|ds| - 1]] + RunNewestFirst(ds[..|ds| - 1])
  }

  /** `flush`: runs every deletor, newest first, then clears the queue. */
  function Flush<D>(q: DeletionQueue<D>): (r: FlushResult<D>)
    ensures |r.trace| == |q.deletors|
    ensures forall i :: 0 <= i < |q.deletors| ==> r.trace[i] == q.deletors[|q.deletors| - 1 - i]
    ensures r.queue.deletors == []
  {
    FlushResult(RunNewestFirst(q.deletors), DeletionQueue([]))
  }

  /** Every queued deletor runs exactly once: the trace holds the same
      deletors, with the same multiplicities, as the queue. */
  lemma {:induction false} FlushRunsEachOnce<D>(q: DeletionQueue<D>)
    ensures multiset(Flush(q).trace) == multiset(q.deletors)
  {
    RunNewestFirstIsPermutation(q.deletors);
  }

  lemma {:induction false} RunNewestFirstIsPermutation<D>(ds: seq<D>)
    ensures multiset(RunNewestFirst(ds)) == multiset(ds)
    decreases |ds|
  {
    if |ds| > 0 {
      var init := ds[..|ds| - 1];
      RunNewestFirstIsPermutation(init);
      assert ds == init + [ds[|ds| - 1]];
    }
  }

  /** The deletor pushed last runs first, and then the older ones run
      exactly as they would have without it. */
  lemma FlushAfterPush<D>(q: DeletionQueue<D>, d: D)
    ensures Flush(PushFunction(q, d)).trace == [d] + Flush(q).trace
  {
  }

  /** Pushing `ds` onto an empty queue and flushing runs them in exactly
      the reverse of the order they were pushed. */
  lemma {:induction false} FlushReversesPushOrder<D>(ds: seq<D>)
    ensures |Flush(PushAll(EmptyQueue(), ds)).trace| == |ds|
    ensures forall i :: 0 <= i < |ds| ==> Flush(PushAll(EmptyQueue(), ds)).trace[i] == ds[|ds| - 1 - i]
  {
    PushAllAppends(EmptyQueue(), ds);
    assert [] + ds == ds;
  }

  lemma {:induction false} PushAllAppends<D>(q: DeletionQueue<D>, ds: seq<D>)
    ensures PushAll(q, ds).deletors == q.deletors + ds
    decreases |ds|
  {
    if |ds| > 0 {
      PushAllAppends(PushFunction(q, ds[0]), ds[1..]);
      assert q.deletors + [ds[0]] + ds[1..] == q.deletors + ds;
    }
  }

  /** A flush leaves nothing behind, so flushing again runs nothing. */
  lemma FlushTwiceRunsNothing<D>(q: DeletionQueue<D>)
    ensures Flush(Flush(q).queue).trace == []
    ensures Flush(Flush(q).queue).queue == Flush(q).queue
  {
  }

  /** `FRAME_OVERLAP`: the number of per-frame structures in flight. */
  const FRAME_OVERLAP: nat := 2

  /** The conversion of a C++ `int` to `unsigned int` (modulo 2^32). */
  function AsUnsigned(n: int32): (u: uint32)
    ensures (u as int - n as int) % TWO_TO_THE_32 == 0
  {
    if n < 0 then (n as int + TWO_TO_THE_32) as uint32 else n as uint32
  }

  /** The slot `get_current_frame` reads: `_frameNumber % FRAME_OVERLAP`,
      where the `int` frame number is first converted to `unsigned`. The
      slot is always a valid index into `_frames`. */
  function FrameSlot(frameNumber: int32): (slot: nat)
    ensures slot < FRAME_OVERLAP
  {
    AsUnsigned(frameNumber) as int % FRAME_OVERLAP
  }

  /** Because 2^32 is even, the unsigned conversion does not change the
      slot: it is the (non-negative) parity of the signed frame number,
      negative numbers included. */
  lemma FrameSlotIsParity(frameNumber: int32)
    ensures FrameSlot(frameNumber) == (frameNumber as int) % 2
  {
  }

  /** Consecutive frames use different slots, and frames two apart use the
      same slot, so a frame never reuses the structures of the frame just
      before it. Each claim is made wherever its increment of `_frameNumber`
      stays within `int` (past `INT_MAX` it is undefined behaviour). */
  lemma FrameSlotsAlternate(frameNumber: int32)
    ensures frameNumber as int + 1 <= INT32_MAX ==> FrameSlot(frameNumber + 1) != FrameSlot(frameNumber)
    ensures frameNumber as int + 2 <= INT32_MAX ==> FrameSlot(frameNumber + 2) == FrameSlot(frameNumber)
  {
  }
}
