/**
 * The device never blocks itself (esp_ncp_bus.c, esp_ncp_main.c): the main task
 * both answers into input_buf and is the only one to empty it, and still no
 * task waits for ever. Left to itself the device comes to rest, whatever the
 * order in which its tasks run.
 */
module Progress {
  import opened Common
  import opened Uart
  import opened Frame
  import opened Link
  import opened LinkLaws
  import opened Responses
  import opened HostView

  /** What the device does by itself: no byte arrives, nobody calls, nobody stops it. */
  predicate Own(step: Step) {
    !step.Arrive? && !step.Flush? && !step.RequestStop? && (step.Begin? ==> step.p == MAIN)
  }

  /** Nothing is under way, and the main task waits for an event or has ended. */
  predicate Quiet(s: State) {
    && (s.main.Stopped? || (s.main.Listening? && s.queue == []))
    && s.outb.task.Watching? && !Enabled(s, Detect)
    && forall p | 0 <= p < |s.inb.callers| :: s.inb.callers[p].Idle?
  }

  // ------------------------------------------------------------ who holds the mutex will give it back

  predicate Held(s: State) {
    s.inb.mutex.Some? ==> s.inb.mutex.value < |s.inb.callers| && InLock(s.inb.callers[s.inb.mutex.value])
  }

  lemma StepKeepsHeld(s: State, step: Step)
    requires Held(s) && Exclusive(s.inb) && Enabled(s, step)
    ensures Held(Apply(s, step))
  {
  }

  lemma {:induction false} RunKeepsHeld(s: State, h: History, steps: seq<Step>)
    requires Inv(s) && Held(s) && Run(s, h, steps).Some?
    ensures Held(Run(s, h, steps).value.0)
    decreases |steps|
  {
    if steps != [] {
      StepInv(s, steps[0]);
      StepKeepsHeld(s, steps[0]);
      RunKeepsHeld(Apply(s, steps[0]), Recorded(s, h, steps[0]), steps[1..]);
    }
  }

  // ------------------------------------------------------------ some task can always go on

  function CallersTurn(s: State, p: nat): Step
    requires p < |s.inb.callers|
  {
    match s.inb.callers[p]
    case Polling(_, _) => Poll(p)
    case Waiting(_) => Lock(p)
    case Locked(_) => Measure(p)
    case Copying(_, _, _) => Store(p)
    case Stored(_, _) => Unlock(p)
    case _ => Post(p)
  }

  /** A caller goes on, or waits for the mutex and the one who has it goes on. */
  lemma CallerGoesOn(s: State, p: nat) returns (step: Step)
    requires Held(s) && p < |s.inb.callers| && !s.inb.callers[p].Idle?
    ensures Own(step) && Enabled(s, step)
    ensures step.Poll? || step.Lock? || step.Measure? || step.Store? || step.Unlock? || step.Post?
  {
    step := CallersTurn(s, p);
    if s.inb.callers[p].Waiting? && s.inb.mutex.Some? {
      step := CallersTurn(s, s.inb.mutex.value);
    }
  }

  lemma ReplyIsShort(d: Script, chunk: seq<byte>, i: nat)
    requires SoundScript(d)
    ensures forall data | data in ReplyTo(d, chunk, i) :: |data| < 0x1_0000
  {
  }

  /** The answer due to the chunk being handled, when it was not begun yet. */
  lemma AnswerDue(d: Script, s: State, h: History) returns (data: seq<byte>)
    requires SoundScript(d) && AnswerInv(d, s, h) && h.begun != Replies(d, s.outb.delivered)
    ensures Unanswered(d, s, h) && |data| < 0x1_0000
    ensures var n := |s.outb.delivered| - 1; ReplyTo(d, s.outb.delivered[n], n) == [data]
  {
    var n := |s.outb.delivered| - 1;
    var reply := ReplyTo(d, s.outb.delivered[n], n);
    assert reply != [];
    ReplyIsShort(d, s.outb.delivered[n], n);
    data := reply[0];
    assert data in reply;
  }

  /** A task that is neither waiting for an event nor for bytes goes on; a handler, by answering or by returning. */
  lemma MainGoesOn(d: Script, s: State, h: History) returns (step: Step)
    requires SoundScript(d) && RunInvariant(d, s, h) && s.inb.callers[MAIN].Idle?
    requires !s.main.Stopped? && (s.main.Listening? ==> s.queue != [])
    ensures Own(step) && !step.LeaveLoop? && Enabled(s, step) && Allowed(d, s, h, step)
  {
    match s.main
    case NotStarted => step := StartTask;
    case Starting => step := CreateQueue;
    case Taken(_) => step := Receive;
    case Writing(data) => step := WriteUart(true, |data|);
    case Listening => step := Dequeue;
    case Handling(_) =>
      if h.begun == Replies(d, s.outb.delivered) {
        step := EndHandling(true);
      } else {
        var data := AnswerDue(d, s, h);
        step := Begin(MAIN, data);
      }
  }

  lemma BusGoesOn(s: State) returns (step: Step)
    requires !s.outb.task.Watching? || Enabled(s, Detect)
    ensures Enabled(s, step) && (step.Detect? || step.StoreChunk? || step.Announce?)
  {
    match s.outb.task
    case Watching => step := Detect;
    case Holding(_) => step := StoreChunk;
    case Announcing(_) => step := Announce;
  }

  /** No deadlock: as long as the device is not quiet, one of its tasks has a step. */
  lemma NeverStuck(d: Script, s: State, h: History) returns (step: Step)
    requires SoundScript(d) && RunInvariant(d, s, h) && Held(s) && !Quiet(s)
    ensures Own(step) && !step.LeaveLoop? && Enabled(s, step) && Allowed(d, s, h, step)
  {
    if p: nat :| p < |s.inb.callers| && !s.inb.callers[p].Idle? {
      step := CallerGoesOn(s, p);
    } else if !s.outb.task.Watching? || Enabled(s, Detect) {
      step := BusGoesOn(s);
    } else {
      step := MainGoesOn(d, s, h);
    }
  }

  // ------------------------------------------------------------ and not for ever

  const CALL: nat := 9 + POLLS
  const OUTPUT_WORK: nat := CALL + 4

  function CallerWork(c: Caller): nat {
    match c
    case Idle => 0
    case Polling(_, count) => 9 + count
    case Waiting(_) => 8
    case Locked(_) => 7
    case Copying(_, _, _) => 6
    case Stored(_, _) => 5
    case Posting(_) => 4
  }

  function CallersWork(cs: seq<Caller>): nat {
    if cs == [] then 0 else CallerWork(cs[0]) + CallersWork(cs[1..])
  }

  lemma {:induction false} CallersWorkUpdate(cs: seq<Caller>, p: nat, c: Caller)
    requires p < |cs|
    ensures CallersWork(cs[p := c]) == CallersWork(cs) - CallerWork(cs[p]) + CallerWork(c)
  {
    if p == 0 {
      assert cs[p := c][1..] == cs[1..];
    } else {
      CallersWorkUpdate(cs[1..], p - 1, c);
      assert cs[p := c][1..] == cs[1..][p - 1 := c];
    }
  }

  function EventWork(e: Event): nat {
    if e.kind.Input? then 3 else OUTPUT_WORK
  }

  function QueueWork(q: seq<Event>): nat {
    if q == [] then 0 else EventWork(q[0]) + QueueWork(q[1..])
  }

  lemma {:induction false} QueueWorkSnoc(q: seq<Event>, e: Event)
    ensures QueueWork(q + [e]) == QueueWork(q) + EventWork(e)
  {
    if q == [] {
      assert q + [e] == [e] && [e][1..] == [];
    } else {
      QueueWorkSnoc(q[1..], e);
      assert (q + [e])[1..] == q[1..] + [e];
    }
  }

  ghost function MainWork(d: Script, s: State, h: History): nat
    requires SoundScript(d)
  {
    match s.main
    case Stopped => 0
    case Listening => 1
    case Starting => 2
    case NotStarted => 3
    case Writing(_) => 2
    case Taken(e) => EventWork(e)
    case Handling(_) => if h.begun == Replies(d, s.outb.delivered) then 2 else CALL + 3
  }

  /** A byte still to be cut costs more than half a chunk's way through the bus task. */
  function BusWork(o: Outbound): nat {
    (OUTPUT_WORK + 3) * |o.rx| + match o.task {
      case Watching => 0
      case Announcing(_) => OUTPUT_WORK + 1
      case Holding(_) => OUTPUT_WORK + 2
    }
  }

  ghost function Work(d: Script, s: State, h: History): nat
    requires SoundScript(d)
  {
    CallersWork(s.inb.callers) + QueueWork(s.queue) + MainWork(d, s, h) + BusWork(s.outb)
  }

  lemma CallWorks(d: Script, s: State, h: History, step: Step)
    requires SoundScript(d) && Enabled(s, step)
    requires step.Poll? || step.Lock? || step.Measure? || step.Store? || step.Unlock?
    ensures Work(d, Apply(s, step), Recorded(s, h, step)) < Work(d, s, h)
  {
    var t, c := Apply(s, step), Apply(s, step).inb.callers[step.p];
    assert t.inb.callers == s.inb.callers[step.p := c] && CallerWork(c) < CallerWork(s.inb.callers[step.p]);
    CallersWorkUpdate(s.inb.callers, step.p, c);
    assert t.queue == s.queue && MainWork(d, t, Recorded(s, h, step)) == MainWork(d, s, h) && t.outb == s.outb;
  }

  lemma PostWorks(d: Script, s: State, h: History, step: Step)
    requires SoundScript(d) && Enabled(s, step) && step.Post?
    ensures Work(d, Apply(s, step), Recorded(s, h, step)) < Work(d, s, h)
  {
    CallersWorkUpdate(s.inb.callers, step.p, Idle);
    QueueWorkSnoc(s.queue, Event(Input, s.inb.callers[step.p].size));
  }

  lemma AnswerWorks(d: Script, s: State, h: History, step: Step)
    requires SoundScript(d) && Enabled(s, step) && step.Begin? && step.p == MAIN && Allowed(d, s, h, step)
    ensures Work(d, Apply(s, step), Recorded(s, h, step)) < Work(d, s, h)
  {
    CallersWorkUpdate(s.inb.callers, MAIN, Polling(step.data, POLLS));
  }

  lemma BusStepWorks(s: State, step: Step)
    requires Enabled(s, step) && (step.Detect? || step.StoreChunk? || step.Announce?)
    ensures QueueWork(Apply(s, step).queue) + BusWork(Apply(s, step).outb) < QueueWork(s.queue) + BusWork(s.outb)
  {
    if step.Announce? {
      QueueWorkSnoc(s.queue, Event(Output, s.outb.task.size));
    }
  }

  lemma BusWorks(d: Script, s: State, h: History, step: Step)
    requires SoundScript(d) && Enabled(s, step) && (step.Detect? || step.StoreChunk? || step.Announce?)
    ensures Work(d, Apply(s, step), Recorded(s, h, step)) < Work(d, s, h)
  {
    var t := Apply(s, step);
    assert QueueWork(t.queue) + BusWork(t.outb) < QueueWork(s.queue) + BusWork(s.outb) by {
      BusStepWorks(s, step);
    }
    assert t.inb == s.inb && MainWork(d, t, Recorded(s, h, step)) == MainWork(d, s, h);
  }

  lemma ReceiveWorks(d: Script, s: State, h: History)
    requires SoundScript(d) && Enabled(s, Receive)
    ensures Work(d, Apply(s, Receive), h) < Work(d, s, h)
  {
    var t := Apply(s, Receive);
    assert t.inb.callers == s.inb.callers && t.queue == s.queue && BusWork(t.outb) == BusWork(s.outb);
  }

  lemma MainWorks(d: Script, s: State, h: History, step: Step)
    requires SoundScript(d) && Enabled(s, step)
    requires || step.StartTask? || step.CreateQueue? || step.Dequeue?
             || step.WriteUart? || step.EndHandling? || step.LeaveLoop?
    ensures Work(d, Apply(s, step), Recorded(s, h, step)) < Work(d, s, h)
  {
  }

  /** Every step of the device itself leaves less to do. */
  lemma OwnStepWorks(d: Script, s: State, h: History, step: Step)
    requires SoundScript(d) && Enabled(s, step) && Own(step) && Allowed(d, s, h, step)
    ensures Work(d, Apply(s, step), Recorded(s, h, step)) < Work(d, s, h)
  {
    if step.Post? {
      PostWorks(d, s, h, step);
    } else if step.Begin? {
      AnswerWorks(d, s, h, step);
    } else if step.Poll? || step.Lock? || step.Measure? || step.Store? || step.Unlock? {
      CallWorks(d, s, h, step);
    } else if step.Detect? || step.StoreChunk? || step.Announce? {
      BusWorks(d, s, h, step);
    } else if step.Receive? {
      ReceiveWorks(d, s, h);
    } else {
      MainWorks(d, s, h, step);
    }
  }

  // ------------------------------------------------------------ so the device comes to rest

  predicate AllOwn(steps: seq<Step>) {
    forall step | step in steps :: Own(step)
  }

  /** However its tasks take turns, the device left to itself makes at most Work steps. */
  lemma {:induction false} OwnRunsAreBounded(d: Script, s: State, h: History, steps: seq<Step>)
    requires SoundScript(d) && AllOwn(steps) && AllAllowed(d, s, h, steps) && Run(s, h, steps).Some?
    ensures var (t, u) := Run(s, h, steps).value; |steps| + Work(d, t, u) <= Work(d, s, h)
    decreases |steps|
  {
    if steps != [] {
      assert steps[0] in steps;
      OwnStepWorks(d, s, h, steps[0]);
      OwnRunsAreBounded(d, Apply(s, steps[0]), Recorded(s, h, steps[0]), steps[1..]);
    }
  }

  lemma OneStepKeeps(d: Script, s: State, h: History, step: Step)
    requires SoundScript(d) && RunInvariant(d, s, h) && Held(s) && Enabled(s, step) && Allowed(d, s, h, step)
    ensures RunInvariant(d, Apply(s, step), Recorded(s, h, step)) && Held(Apply(s, step))
  {
    StepKeepsInvariant(d, s, h, step);
    StepKeepsHeld(s, step);
  }

  /** From every moment of a run the device's own steps lead to rest. */
  lemma {:induction false} ComesToRest(d: Script, s: State, h: History) returns (steps: seq<Step>)
    requires SoundScript(d) && RunInvariant(d, s, h) && Held(s)
    ensures AllOwn(steps) && AllAllowed(d, s, h, steps) && Run(s, h, steps).Some?
    ensures Quiet(Run(s, h, steps).value.0)
    decreases Work(d, s, h)
  {
    steps := [];
    if !Quiet(s) {
      var step := NeverStuck(d, s, h);
      OwnStepWorks(d, s, h, step);
      OneStepKeeps(d, s, h, step);
      var more := ComesToRest(d, Apply(s, step), Recorded(s, h, step));
      steps := [step] + more;
      assert steps[0] == step && steps[1..] == more;
    }
  }

  /** No task can go on, but for leaving a loop that was told to stop. */
  ghost predicate Exhausted(d: Script, s: State, h: History)
    requires SoundScript(d)
  {
    forall step | Own(step) && Enabled(s, step) && Allowed(d, s, h, step) :: step.LeaveLoop?
  }

  lemma QuietHasNoStep(s: State, step: Step)
    requires Quiet(s) && Own(step) && Enabled(s, step)
    ensures step.LeaveLoop?
  {
  }

  /** The device is quiet exactly when no task of it can go on. */
  lemma QuietIffNoStep(d: Script, s: State, h: History)
    requires SoundScript(d) && RunInvariant(d, s, h) && Held(s)
    ensures Quiet(s) <==> Exhausted(d, s, h)
  {
    if Quiet(s) {
      forall step | Own(step) && Enabled(s, step) && Allowed(d, s, h, step)
        ensures step.LeaveLoop?
      {
        QuietHasNoStep(s, step);
      }
    } else {
      var step := NeverStuck(d, s, h);
      assert Own(step);
    }
  }

  lemma RunOfHeld(d: Script, callers: nat, steps: seq<Step>)
    requires Plays(d, callers, steps)
    ensures var (s, h) := End(callers, steps); Reachable(s) && RunInvariant(d, s, h) && Held(s)
  {
    FromTheStart(d, callers, steps);
    InitInv(callers);
    RunKeepsHeld(Init(callers), NOTHING_YET, steps);
  }

  /**
   * Requests are answered whatever the order in which the tasks run: the host
   * sends all of them, the device goes on until no task of it can, and unless
   * something was lost on the way, the host then has all the answers.
   */
  lemma AnsweredInTheEnd(d: Script, callers: nat, steps: seq<Step>, rs: seq<Request>)
    requires Plays(d, callers, steps)
    requires var (s, h) := End(callers, steps);
             && Exhausted(d, s, h) && !s.main.Stopped? && Undisturbed(d, rs, s, h) && !h.unposted
             && s.outb.arrived == Transmission(Packets(d.crc, rs))
    ensures var (s, _) := End(callers, steps);
            var got, answers := ResponsesIn(d.crc, Cuts(s.inb.uart)), Answers(d, rs);
            && |s.outb.delivered| == |rs| && Rest(s.inb.uart) == []
            && |got| == |answers| && ReadBack(d.crc, got, answers)
  {
    var (s, h) := End(callers, steps);
    RunOfHeld(d, callers, steps);
    assert AtRest(s) by {
      QuietIffNoStep(d, s, h);
    }
    EveryRequestIsAnswered(d, callers, steps, rs);
  }
}
