/**
 * When OUTPUT events and the chunks in output_buf belong together
 * (esp_ncp_bus.c, esp_ncp_main.c): exactly as long as no chunk was stored in
 * part and no OUTPUT event was refused, and never again after that.
 */
module Alignment {
  import opened Common
  import opened Uart
  import opened Link
  import opened LinkLaws

  function Sum(ls: seq<nat>): nat {
    if ls == [] then 0 else ls[0] + Sum(ls[1..])
  }

  lemma {:induction false} SumAppend(a: seq<nat>, b: seq<nat>)
    ensures Sum(a + b) == Sum(a) + Sum(b)
  {
    if a == [] {
      assert a + b == b;
    } else {
      SumAppend(a[1..], b);
      assert (a + b)[1..] == a[1..] + b;
    }
  }

  lemma {:induction false} SumOfLengths(cs: seq<seq<byte>>)
    ensures Sum(Lengths(cs)) == |Flatten(cs)|
  {
    if cs != [] {
      SumOfLengths(cs[1..]);
      assert Lengths(cs)[1..] == Lengths(cs[1..]);
    }
  }

  /** output_buf is the pending chunks, and the announced sizes are theirs, in order. */
  predicate Aligned(s: State) {
    && |s.outb.delivered| <= StoredChunks(s.outb)
    && s.outb.buffer == Flatten(Pending(s.outb))
    && DueSizes(s) == Lengths(Pending(s.outb))
  }

  /** A loss leaves its mark: an announcement too few, or fewer bytes than announced. */
  predicate Marked(s: State) {
    || |DueSizes(s)| + |s.outb.delivered| < StoredChunks(s.outb)
    || |s.outb.buffer| < Sum(DueSizes(s))
  }

  predicate LossInv(s: State) {
    !s.main.Stopped? ==>
      && |DueSizes(s)| + |s.outb.delivered| <= StoredChunks(s.outb)
      && (!s.outb.intact ==> Marked(s))
  }

  // ------------------------------------------------------------ the mark stays

  lemma StoreKeepsMark(s: State)
    requires OutboundInv(s) && LossInv(s) && Enabled(s, StoreChunk)
    ensures LossInv(Apply(s, StoreChunk))
  {
    var o, t := s.outb, Apply(s, StoreChunk);
    if !s.main.Stopped? {
      assert DueSizes(t) == DueSizes(s) + [|o.task.chunk|];
      SumAppend(DueSizes(s), [|o.task.chunk|]);
      if o.intact {
        SumOfLengths(Pending(o));
      }
    }
  }

  lemma AnnounceKeepsMark(s: State)
    requires LossInv(s) && Enabled(s, Announce)
    ensures LossInv(Apply(s, Announce))
  {
    var t := Apply(s, Announce);
    QueueSnoc(s.queue, Event(Output, s.outb.task.size));
    if !s.main.Stopped? {
      if QueueTakes(s) {
        assert DueSizes(t) == DueSizes(s);
      } else {
        assert DueSizes(s) == DueSizes(t) + [s.outb.task.size];
      }
    }
  }

  lemma ReceiveKeepsMark(s: State)
    requires LossInv(s) && Enabled(s, Receive) && s.main.ev.kind.Output?
    ensures LossInv(Apply(s, Receive))
  {
    var size, t := s.main.ev.size, Apply(s, Receive);
    assert DueSizes(s) == [size] + DueSizes(t);
    SumAppend([size], DueSizes(t));
    assert StoredChunks(t.outb) == StoredChunks(s.outb);
    if |s.outb.buffer| >= size {
      assert |t.outb.buffer| == |s.outb.buffer| - size && |t.outb.delivered| == |s.outb.delivered| + 1;
    } else {
      assert t.outb.delivered == s.outb.delivered;
    }
  }

  lemma PostKeepsMark(s: State, step: Step)
    requires LossInv(s) && Enabled(s, step) && step.Post?
    ensures LossInv(Apply(s, step))
  {
    QueueSnoc(s.queue, Event(Input, s.inb.callers[step.p].size));
    assert DueSizes(Apply(s, step)) == DueSizes(s);
  }

  lemma DequeueKeepsMark(s: State)
    requires LossInv(s) && Enabled(s, Dequeue)
    ensures LossInv(Apply(s, Dequeue))
  {
    assert DueSizes(Apply(s, Dequeue)) == DueSizes(s);
  }

  lemma OthersKeepMark(s: State, step: Step)
    requires LossInv(s) && Enabled(s, step) && (s.main.Starting? ==> s.queue == [])
    requires !step.StoreChunk? && !step.Announce? && !step.Post? && !step.Dequeue?
    requires step.Receive? ==> s.main.ev.kind.Input?
    ensures LossInv(Apply(s, step))
  {
    var t := Apply(s, step);
    if !t.main.Stopped? {
      assert DueSizes(t) == DueSizes(s);
    }
  }

  lemma StepKeepsMark(s: State, step: Step)
    requires Inv(s) && LossInv(s) && Enabled(s, step)
    ensures LossInv(Apply(s, step))
  {
    if step.StoreChunk? {
      StoreKeepsMark(s);
    } else if step.Announce? {
      AnnounceKeepsMark(s);
    } else if step.Post? {
      PostKeepsMark(s, step);
    } else if step.Dequeue? {
      DequeueKeepsMark(s);
    } else if step.Receive? && s.main.ev.kind.Output? {
      ReceiveKeepsMark(s);
    } else {
      OthersKeepMark(s, step);
    }
  }

  lemma {:induction false} RunKeepsMark(s: State, steps: seq<Step>)
    requires Inv(s) && LossInv(s) && Execute(s, steps).Some?
    ensures LossInv(Execute(s, steps).value)
    decreases |steps|
  {
    if steps != [] {
      StepInv(s, steps[0]);
      StepKeepsMark(s, steps[0]);
      RunKeepsMark(Apply(s, steps[0]), steps[1..]);
    }
  }

  // ------------------------------------------------------------ the exact condition

  lemma MarkedIsNotAligned(s: State)
    requires Aligned(s)
    ensures !Marked(s)
  {
    SumOfLengths(Pending(s.outb));
  }

  /** In every reachable state before the task's end: aligned if and only if nothing was lost on the way. */
  lemma AlignedIffIntact(s: State)
    requires Reachable(s) && !s.main.Stopped?
    ensures s.outb.intact <==> Aligned(s)
  {
    var callers, steps :| Execute(Init(callers), steps) == Some(s);
    InitInv(callers);
    RunInv(Init(callers), steps);
    RunKeepsMark(Init(callers), steps);
    if Aligned(s) {
      MarkedIsNotAligned(s);
    }
  }

  lemma {:induction false} LossStays(s: State, steps: seq<Step>)
    requires !s.outb.intact && Execute(s, steps).Some?
    ensures !Execute(s, steps).value.outb.intact
    decreases |steps|
  {
    if steps != [] {
      LossStays(Apply(s, steps[0]), steps[1..]);
    }
  }

  lemma {:induction false} StopStays(s: State, steps: seq<Step>)
    requires s.main.Stopped? && Execute(s, steps).Some?
    ensures Execute(s, steps).value.main.Stopped?
    decreases |steps|
  {
    if steps != [] {
      StopStays(Apply(s, steps[0]), steps[1..]);
    }
  }

  /** Alignment once lost does not come back, whatever happens, as long as the task runs. */
  lemma AlignmentNeverReturns(s: State, steps: seq<Step>)
    requires Reachable(s) && !Aligned(s) && Execute(s, steps).Some?
    ensures var t := Execute(s, steps).value; t.main.Stopped? || !Aligned(t)
  {
    var t := Execute(s, steps).value;
    if s.main.Stopped? {
      StopStays(s, steps);
    } else if !t.main.Stopped? {
      AlignedIffIntact(s);
      LossStays(s, steps);
      ReachableOn(s, steps);
      AlignedIffIntact(t);
    }
  }

  // ------------------------------------------------------------ a loss any target can meet

  /** While the main task handles a chunk, the bus task goes on storing and announcing short ones. */
  lemma {:induction false} ManyChunks(s: State, n: nat) returns (t: State)
    requires Reachable(s) && s.main.Handling? && s.run && s.queueUp
    requires s.outb.task.Watching? && s.outb.rx == [] && |s.outb.buffer| + 2 * n <= RINGBUF_SIZE
    requires |s.queue| <= EVENT_QUEUE_LEN
    ensures Reachable(t) && t.main == s.main && |t.queue| == Min(|s.queue| + n, EVENT_QUEUE_LEN)
    ensures t.outb.intact <==> s.outb.intact && |s.queue| + n <= EVENT_QUEUE_LEN
    decreases n
  {
    t := s;
    if n > 0 {
      t := ArriveAll(s, FIRST);
      assert t.outb.rx == FIRST;
      t := HandleChunk(t);
      t := ManyChunks(t, n - 1);
    }
  }

  /** The bus task is watching and the main task handles a first chunk, with nothing lost. */
  lemma FirstChunkHandled() returns (s: State)
    ensures Reachable(s) && s.main.Handling? && s.run && s.queueUp && s.queue == []
    ensures s.outb.task.Watching? && s.outb.rx == [] && s.outb.buffer == [] && s.outb.intact
  {
    s := Init(0);
    assert Execute(s, []) == Some(s);
    Advance(s, StartTask);
    s := Apply(s, StartTask);
    Advance(s, CreateQueue);
    s := Apply(s, CreateQueue);
    s := ArriveAll(s, FIRST);
    assert s.outb.rx == FIRST;
    s := HandleChunk(s);
    Advance(s, Dequeue);
    s := Apply(s, Dequeue);
    assert s.outb.buffer == FIRST;
    Advance(s, Receive);
    s := Apply(s, Receive);
  }

  /**
   * The queue fills up while a handler runs: sixty events wait, the next chunk
   * is stored but its event refused, and alignment is gone. Any target can get
   * there: a handler has to wait while the host goes on sending.
   */
  lemma FullQueueMisaligns() returns (s: State)
    ensures Reachable(s) && s.main.Handling? && |s.queue| == EVENT_QUEUE_LEN && !Aligned(s)
  {
    s := FirstChunkHandled();
    s := ManyChunks(s, EVENT_QUEUE_LEN + 1);
    AlignedIffIntact(s);
  }
}
