/**
 * From request to response over the whole device (esp_ncp_frame.c on top of
 * esp_ncp_bus.c and esp_ncp_main.c): runs of the tasks on which the main task,
 * handling a chunk, sends what the frame layer answers, and nothing else.
 */
module Responses {
  import opened Common
  import opened Slip
  import opened Uart
  import opened Frame
  import opened Link
  import opened LinkLaws

  /**
   * The device as the host meets it: checksum, table, and for the i-th chunk
   * what its handler does, whatever came before, and the random number drawn.
   */
  datatype Script = Script(crc: Crc, table: seq<Entry>, beyond: Entry, handlers: nat -> Handler, randoms: nat -> byte) {
    function At(i: nat): Config {
      Config(crc, table, beyond, handlers(i))
    }
  }

  ghost predicate SoundScript(d: Script) {
    forall i: nat :: SoundConfig(d.At(i))
  }

  /** The buffer the frame layer hands to the bus for the i-th chunk, if any; a missing buffer is not sent. */
  function ReplyTo(d: Script, chunk: seq<byte>, i: nat): (r: seq<seq<byte>>)
    requires SoundScript(d)
    ensures |r| <= 1
  {
    var sent := Outgoing(d.crc, AnswerTo(d.At(i), Some(chunk), d.randoms(i)));
    if sent == [] || sent[0].None? then [] else [sent[0].value]
  }

  /** No more and no less than what FrameOutput sends for the chunk. */
  lemma ReplyIsOutgoing(d: Script, chunk: seq<byte>, i: nat)
    requires SoundScript(d)
    ensures var sent := Outgoing(d.crc, AnswerTo(d.At(i), Some(chunk), d.randoms(i)));
            && |sent| <= 1
            && forall data :: data in ReplyTo(d, chunk, i) <==> Some(data) in sent
  {
  }

  /** The buffers for one chunk after the other. */
  function Replies(d: Script, chunks: seq<seq<byte>>): seq<seq<byte>>
    requires SoundScript(d)
  {
    if chunks == [] then []
    else var n := |chunks| - 1; Replies(d, chunks[..n]) + ReplyTo(d, chunks[n], n)
  }

  /** What a run leaves out of the state. */
  datatype History = History(
    begun: seq<seq<byte>>, // what the main task began to send
    writers: seq<nat>,     // who wrote what into the stream buffer
    refused: bool,         // a call of the main task found no room
    short: bool,           // somebody's data was written in part
    unposted: bool         // an INPUT event was refused
  )

  const NOTHING_YET := History([], [], false, false, false)

  /** The main task handles the last chunk delivered and has not begun its answer. */
  ghost predicate Unanswered(d: Script, s: State, h: History)
    requires SoundScript(d)
  {
    var n := |s.outb.delivered|;
    s.main.Handling? && n > 0 && h.begun == Replies(d, s.outb.delivered[..n - 1])
  }

  /** The main task sends the frame layer's answer, once, before it is done with the chunk. */
  ghost predicate Allowed(d: Script, s: State, h: History, step: Step)
    requires SoundScript(d)
  {
    match step
    case Begin(p, data) =>
      p == MAIN ==>
        && Unanswered(d, s, h)
        && var n := |s.outb.delivered| - 1; ReplyTo(d, s.outb.delivered[n], n) == [data]
    case EndHandling(_) => h.begun == Replies(d, s.outb.delivered)
    case _ => true
  }

  /** A look of the main task that is the last in vain, or its finding less room than it needs. */
  predicate Refuses(s: State, step: Step)
    requires Enabled(s, step)
  {
    || (step == Poll(MAIN) && Apply(s, step).inb.callers[MAIN].Idle?)
    || (step == Measure(MAIN) && Spaces(s.inb) < |s.inb.callers[MAIN].data|)
  }

  function Recorded(s: State, h: History, step: Step): History
    requires Enabled(s, step)
  {
    match step
    case Begin(p, data) => if p == MAIN then h.(begun := h.begun + [data]) else h
    case Store(p) =>
      var c := s.inb.callers[p];
      h.(writers := h.writers + [p], short := h.short || c.n < |c.data|)
    case Post(_) => h.(unposted := h.unposted || !QueueTakes(s))
    case _ => h.(refused := h.refused || Refuses(s, step))
  }

  /** The writes of the main task among all. */
  function ByMain(sends: seq<seq<byte>>, writers: seq<nat>): (mine: seq<seq<byte>>)
    requires |sends| == |writers|
  {
    if sends == [] then []
    else
      var n := |sends| - 1;
      ByMain(sends[..n], writers[..n]) + if writers[n] == MAIN then [sends[n]] else []
  }

  lemma ByMainSnoc(sends: seq<seq<byte>>, writers: seq<nat>, data: seq<byte>, p: nat)
    requires |sends| == |writers|
    ensures ByMain(sends + [data], writers + [p]) == ByMain(sends, writers) + if p == MAIN then [data] else []
  {
    assert (sends + [data])[..|sends|] == sends && (writers + [p])[..|writers|] == writers;
  }

  /** What a caller still has to write. */
  function Carried(c: Caller): (r: seq<seq<byte>>)
    ensures |r| <= 1
  {
    if c.Polling? || c.Waiting? || c.Locked? || c.Copying? then [c.data] else []
  }

  // ------------------------------------------------------------ the main task's account

  ghost predicate SendingInv(s: State, h: History) {
    && s.inb.callers != [] && |s.inb.sends| == |h.writers|
    && (!s.main.Handling? ==> s.inb.callers[MAIN].Idle?)
    && (!h.refused ==>
          && ByMain(s.inb.sends, h.writers) + Carried(s.inb.callers[MAIN]) == h.begun
          && (s.inb.callers[MAIN].Copying? ==> s.inb.callers[MAIN].n == |s.inb.callers[MAIN].data|))
  }

  /** The answers are begun up to the chunk being handled, or up to the one before and nothing is under way. */
  ghost predicate AnswerInv(d: Script, s: State, h: History)
    requires SoundScript(d)
  {
    && s.inb.callers != []
    && (h.begun == Replies(d, s.outb.delivered) || (Unanswered(d, s, h) && s.inb.callers[MAIN].Idle?))
  }

  lemma StoreKeepsSending(s: State, h: History, step: Step)
    requires Enabled(s, step) && SendingInv(s, h) && step.Store?
    ensures SendingInv(Apply(s, step), Recorded(s, h, step))
  {
    var c := s.inb.callers[step.p];
    ByMainSnoc(s.inb.sends, h.writers, Take(c.data, c.n), step.p);
  }

  lemma CallKeepsSending(s: State, h: History, step: Step)
    requires Enabled(s, step) && SendingInv(s, h) && (step.Begin? || step.Poll? || step.Lock? || step.Measure?)
    ensures SendingInv(Apply(s, step), Recorded(s, h, step))
  {
    var t, u := Apply(s, step), Recorded(s, h, step);
    assert t.inb.sends == s.inb.sends && u.writers == h.writers && t.main == s.main;
    if step.p != MAIN {
      assert t.inb.callers[MAIN] == s.inb.callers[MAIN];
    } else if step.Begin? {
      assert Carried(t.inb.callers[MAIN]) == [step.data];
    } else if !u.refused {
      assert Carried(t.inb.callers[MAIN]) == Carried(s.inb.callers[MAIN]);
    }
  }

  lemma DoneKeepsSending(s: State, h: History, step: Step)
    requires Enabled(s, step) && SendingInv(s, h) && (step.Unlock? || step.Post?)
    ensures SendingInv(Apply(s, step), Recorded(s, h, step))
  {
    var t := Apply(s, step);
    assert t.inb.sends == s.inb.sends && t.main == s.main;
    assert Carried(t.inb.callers[MAIN]) == Carried(s.inb.callers[MAIN]);
  }

  lemma OthersKeepSending(s: State, h: History, step: Step)
    requires Enabled(s, step) && SendingInv(s, h) && !step.Begin? && !step.Poll? && !step.Lock?
    requires !step.Measure? && !step.Store? && !step.Unlock? && !step.Post?
    ensures SendingInv(Apply(s, step), Recorded(s, h, step))
  {
    var t := Apply(s, step);
    assert t.inb.callers == s.inb.callers && t.inb.sends == s.inb.sends;
    assert Recorded(s, h, step) == h;
  }

  lemma StepKeepsSending(s: State, h: History, step: Step)
    requires Enabled(s, step) && SendingInv(s, h)
    ensures SendingInv(Apply(s, step), Recorded(s, h, step))
  {
    if step.Store? {
      StoreKeepsSending(s, h, step);
    } else if step.Begin? || step.Poll? || step.Lock? || step.Measure? {
      CallKeepsSending(s, h, step);
    } else if step.Unlock? || step.Post? {
      DoneKeepsSending(s, h, step);
    } else {
      OthersKeepSending(s, h, step);
    }
  }

  lemma ReceiveKeepsAnswers(d: Script, s: State, h: History)
    requires SoundScript(d) && Enabled(s, Receive) && SendingInv(s, h) && AnswerInv(d, s, h)
    ensures AnswerInv(d, Apply(s, Receive), h)
  {
    var t := Apply(s, Receive);
    assert t.inb.callers == s.inb.callers;
    if t.main.Handling? {
      assert t.outb.delivered[..|s.outb.delivered|] == s.outb.delivered;
    } else {
      assert t.outb.delivered == s.outb.delivered;
    }
  }

  lemma BeginKeepsAnswers(d: Script, s: State, h: History, step: Step)
    requires SoundScript(d) && step.Begin? && Enabled(s, step) && SendingInv(s, h)
    requires AnswerInv(d, s, h) && Allowed(d, s, h, step)
    ensures AnswerInv(d, Apply(s, step), Recorded(s, h, step))
  {
    var t := Apply(s, step);
    assert t.outb == s.outb && t.main == s.main;
    if step.p != MAIN {
      assert t.inb.callers[MAIN] == s.inb.callers[MAIN];
    }
  }

  lemma CallKeepsAnswers(d: Script, s: State, h: History, step: Step)
    requires SoundScript(d) && Enabled(s, step) && SendingInv(s, h) && AnswerInv(d, s, h)
    requires step.Poll? || step.Lock? || step.Measure? || step.Store? || step.Unlock? || step.Post?
    ensures AnswerInv(d, Apply(s, step), Recorded(s, h, step))
  {
    var t := Apply(s, step);
    assert t.outb == s.outb && t.main == s.main && Recorded(s, h, step).begun == h.begun;
    assert s.inb.callers[MAIN].Idle? ==> step.p != MAIN;
  }

  lemma EndKeepsAnswers(d: Script, s: State, h: History, step: Step)
    requires SoundScript(d) && Enabled(s, step) && step.EndHandling? && Allowed(d, s, h, step)
    ensures AnswerInv(d, Apply(s, step), h)
  {
    assert Apply(s, step).outb == s.outb;
  }

  lemma OthersKeepAnswers(d: Script, s: State, h: History, step: Step)
    requires SoundScript(d) && Enabled(s, step) && AnswerInv(d, s, h)
    requires || step.StartTask? || step.CreateQueue? || step.Dequeue? || step.WriteUart? || step.LeaveLoop?
             || step.RequestStop? || step.Arrive? || step.Flush? || step.Detect? || step.StoreChunk? || step.Announce?
    ensures AnswerInv(d, Apply(s, step), h)
  {
    var t := Apply(s, step);
    assert t.outb.delivered == s.outb.delivered && t.inb.callers == s.inb.callers;
    assert s.main.Handling? ==> t.main.Handling?;
  }

  lemma OthersRecordNothing(s: State, h: History, step: Step)
    requires Enabled(s, step) && !step.Begin? && !step.Poll? && !step.Lock? && !step.Measure? && !step.Store?
    requires !step.Unlock? && !step.Post?
    ensures Recorded(s, h, step) == h
  {
  }

  lemma StepKeepsAnswers(d: Script, s: State, h: History, step: Step)
    requires SoundScript(d) && Enabled(s, step) && SendingInv(s, h)
    requires AnswerInv(d, s, h) && Allowed(d, s, h, step)
    ensures AnswerInv(d, Apply(s, step), Recorded(s, h, step))
  {
    if step.Begin? {
      BeginKeepsAnswers(d, s, h, step);
    } else if step.Poll? || step.Lock? || step.Measure? || step.Store? || step.Unlock? || step.Post? {
      CallKeepsAnswers(d, s, h, step);
    } else {
      OthersRecordNothing(s, h, step);
      if step.Receive? {
        ReceiveKeepsAnswers(d, s, h);
      } else if step.EndHandling? {
        EndKeepsAnswers(d, s, h, step);
      } else {
        OthersKeepAnswers(d, s, h, step);
      }
    }
  }

  // ------------------------------------------------------------ what is announced is what is buffered

  /** Nothing was written in part and no INPUT event refused: then every buffered byte is announced, or about to be. */
  predicate AnnouncedInv(s: State, h: History) {
    !h.short && !h.unposted && !s.main.Stopped? ==> Announced(s) == Buffered(s.inb)
  }

  lemma StoreKeepsAnnounced(s: State, h: History, step: Step)
    requires InboundInv(s) && AnnouncedInv(s, h) && Enabled(s, step) && step.Store?
    ensures AnnouncedInv(Apply(s, step), Recorded(s, h, step))
  {
    var t := Apply(s, step);
    PromisesUpdate(s.inb.callers, step.p, t.inb.callers[step.p]);
    assert Take(s.inb.written, s.inb.callers[step.p].head) == s.inb.written;
  }

  lemma PostKeepsAnnounced(s: State, h: History, step: Step)
    requires InboundInv(s) && AnnouncedInv(s, h) && Enabled(s, step) && step.Post?
    ensures AnnouncedInv(Apply(s, step), Recorded(s, h, step))
  {
    var t := Apply(s, step);
    PromisesUpdate(s.inb.callers, step.p, t.inb.callers[step.p]);
    QueueSnoc(s.queue, Event(Input, s.inb.callers[step.p].size));
  }

  lemma CallKeepsAnnounced(s: State, h: History, step: Step)
    requires InboundInv(s) && AnnouncedInv(s, h) && Enabled(s, step)
    requires step.Begin? || step.Poll? || step.Lock? || step.Measure? || step.Unlock?
    ensures AnnouncedInv(Apply(s, step), Recorded(s, h, step))
  {
    var t := Apply(s, step);
    PromisesUpdate(s.inb.callers, step.p, t.inb.callers[step.p]);
    assert Promise(t.inb.callers[step.p]) == Promise(s.inb.callers[step.p]);
  }

  lemma ReceiveKeepsAnnounced(s: State, h: History)
    requires InboundInv(s) && AnnouncedInv(s, h) && Enabled(s, Receive)
    ensures AnnouncedInv(Apply(s, Receive), h)
  {
    if s.main.ev.kind.Input? {
      ReceiveInput(s);
    }
  }

  lemma AnnounceKeepsAnnounced(s: State, h: History)
    requires AnnouncedInv(s, h) && Enabled(s, Announce)
    ensures AnnouncedInv(Apply(s, Announce), h)
  {
    QueueSnoc(s.queue, Event(Output, s.outb.task.size));
  }

  lemma OthersKeepAnnounced(s: State, h: History, step: Step)
    requires Inv(s) && AnnouncedInv(s, h) && Enabled(s, step)
    requires !step.Begin? && !step.Poll? && !step.Lock? && !step.Measure? && !step.Store? && !step.Unlock?
    requires !step.Post? && !step.Receive? && !step.Announce?
    ensures AnnouncedInv(Apply(s, step), h)
  {
    var t := Apply(s, step);
    assert t.inb.callers == s.inb.callers && t.inb.written == s.inb.written && t.inb.read == s.inb.read;
    if !t.main.Stopped? {
      assert Announced(t) == Announced(s);
    }
  }

  lemma StepKeepsAnnounced(s: State, h: History, step: Step)
    requires Inv(s) && AnnouncedInv(s, h) && Enabled(s, step)
    ensures AnnouncedInv(Apply(s, step), Recorded(s, h, step))
  {
    if step.Store? {
      StoreKeepsAnnounced(s, h, step);
    } else if step.Post? {
      PostKeepsAnnounced(s, h, step);
    } else if step.Begin? || step.Poll? || step.Lock? || step.Measure? || step.Unlock? {
      CallKeepsAnnounced(s, h, step);
    } else if step.Receive? {
      ReceiveKeepsAnnounced(s, h);
    } else if step.Announce? {
      AnnounceKeepsAnnounced(s, h);
    } else {
      OthersKeepAnnounced(s, h, step);
    }
  }

  // ------------------------------------------------------------ runs

  function Run(s: State, h: History, steps: seq<Step>): Option<(State, History)>
    decreases |steps|
  {
    if steps == [] then Some((s, h))
    else if Enabled(s, steps[0]) then Run(Apply(s, steps[0]), Recorded(s, h, steps[0]), steps[1..])
    else None
  }

  /** The main task keeps to its part on the whole run. */
  ghost predicate AllAllowed(d: Script, s: State, h: History, steps: seq<Step>)
    requires SoundScript(d)
    decreases |steps|
  {
    steps != [] && Enabled(s, steps[0]) ==>
      && Allowed(d, s, h, steps[0])
      && AllAllowed(d, Apply(s, steps[0]), Recorded(s, h, steps[0]), steps[1..])
  }

  ghost predicate RunInvariant(d: Script, s: State, h: History)
    requires SoundScript(d)
  {
    Inv(s) && SendingInv(s, h) && AnswerInv(d, s, h) && AnnouncedInv(s, h)
  }

  lemma StepKeepsInvariant(d: Script, s: State, h: History, step: Step)
    requires SoundScript(d) && RunInvariant(d, s, h) && Enabled(s, step) && Allowed(d, s, h, step)
    ensures RunInvariant(d, Apply(s, step), Recorded(s, h, step))
  {
    StepInv(s, step);
    StepKeepsSending(s, h, step);
    StepKeepsAnswers(d, s, h, step);
    StepKeepsAnnounced(s, h, step);
  }

  lemma {:induction false} RunKeeps(d: Script, s: State, h: History, steps: seq<Step>)
    requires SoundScript(d) && AllAllowed(d, s, h, steps) && Run(s, h, steps).Some?
    requires RunInvariant(d, s, h)
    ensures var (t, u) := Run(s, h, steps).value; Execute(s, steps) == Some(t) && RunInvariant(d, t, u)
    decreases |steps|
  {
    if steps != [] {
      StepKeepsInvariant(d, s, h, steps[0]);
      RunKeeps(d, Apply(s, steps[0]), Recorded(s, h, steps[0]), steps[1..]);
    }
  }

  lemma FromTheStart(d: Script, callers: nat, steps: seq<Step>)
    requires SoundScript(d) && AllAllowed(d, Init(callers), NOTHING_YET, steps)
    requires Run(Init(callers), NOTHING_YET, steps).Some?
    ensures var (s, h) := Run(Init(callers), NOTHING_YET, steps).value; Reachable(s) && RunInvariant(d, s, h)
  {
    InitInv(callers);
    PromisesIdle(callers + 1);
    RunKeeps(d, Init(callers), NOTHING_YET, steps);
    assert Execute(Init(callers), steps) == Some(Run(Init(callers), NOTHING_YET, steps).value.0);
  }

  lemma MineSoFar(mine: seq<seq<byte>>, carried: seq<seq<byte>>, begun: seq<seq<byte>>, all: seq<seq<byte>>)
    requires mine + carried == begun && begun <= all
    ensures mine <= all && |begun| == |mine| + |carried|
  {
    assert mine == begun[..|mine|] == all[..|mine|];
  }

  /** What the main task has written, in a state of a run. */
  lemma WrittenAnswers(d: Script, s: State, h: History)
    requires SoundScript(d) && RunInvariant(d, s, h) && !h.refused
    ensures var mine, all := ByMain(s.inb.sends, h.writers), Replies(d, s.outb.delivered);
            mine <= all && |all| <= |mine| + 1 && (!s.main.Handling? ==> mine == all)
  {
    var mine, carried := ByMain(s.inb.sends, h.writers), Carried(s.inb.callers[MAIN]);
    var all := Replies(d, s.outb.delivered);
    MineSoFar(mine, carried, h.begun, all);
    if s.inb.callers[MAIN].Idle? {
      assert mine + [] == mine;
    }
  }

  /**
   * With any number of other senders: as long as no call of the main task is
   * refused, what it has written are the answers to the chunks delivered, one per
   * chunk that calls for one, in order, and at most the last is still missing.
   */
  lemma AnswersInOrder(callers: nat, d: Script, steps: seq<Step>)
    requires SoundScript(d) && AllAllowed(d, Init(callers), NOTHING_YET, steps)
    requires Run(Init(callers), NOTHING_YET, steps).Some?
    ensures var (s, h) := Run(Init(callers), NOTHING_YET, steps).value;
            && Reachable(s) && |h.writers| == |s.inb.sends|
            && (!h.refused ==>
                  var mine, all := ByMain(s.inb.sends, h.writers), Replies(d, s.outb.delivered);
                  mine <= all && |all| <= |mine| + 1 && (!s.main.Handling? ==> mine == all))
  {
    FromTheStart(d, callers, steps);
    var (s, h) := Run(Init(callers), NOTHING_YET, steps).value;
    if !h.refused {
      WrittenAnswers(d, s, h);
    }
  }

  lemma {:induction false} NoPromises(cs: seq<Caller>)
    requires forall p | 0 <= p < |cs| :: cs[p].Idle?
    ensures Promises(cs) == 0
  {
    if cs != [] {
      NoPromises(cs[1..]);
    }
  }

  /** With nothing announced, nothing is buffered: the UART has been given all that was written. */
  lemma AllHandedOver(s: State, h: History)
    requires InboundInv(s) && AnnouncedInv(s, h) && !h.short && !h.unposted && s.main.Listening? && s.queue == []
    requires forall p | 0 <= p < |s.inb.callers| :: s.inb.callers[p].Idle?
    ensures s.inb.uart == Flatten(s.inb.sends)
  {
    NoPromises(s.inb.callers);
    assert s.inb.written[..s.inb.read] == s.inb.written;
    assert s.inb.uart + [] == s.inb.uart;
  }

  /**
   * When nothing was written in part, no INPUT event refused and nothing is under
   * way, the UART has been given every byte that was ever written.
   */
  lemma NothingStaysBehind(callers: nat, d: Script, steps: seq<Step>)
    requires SoundScript(d) && AllAllowed(d, Init(callers), NOTHING_YET, steps)
    requires Run(Init(callers), NOTHING_YET, steps).Some?
    requires var (s, h) := Run(Init(callers), NOTHING_YET, steps).value;
             !h.short && !h.unposted && s.main.Listening? && s.queue == []
             && forall p | 0 <= p < |s.inb.callers| :: s.inb.callers[p].Idle?
    ensures var (s, _) := Run(Init(callers), NOTHING_YET, steps).value; s.inb.uart == Flatten(s.inb.sends)
  {
    FromTheStart(d, callers, steps);
    var (s, h) := Run(Init(callers), NOTHING_YET, steps).value;
    AllHandedOver(s, h);
  }
}
