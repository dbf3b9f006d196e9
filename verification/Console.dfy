/**
 * The console's hand-over of asynchronous results (esp_zigbee_console.c): the
 * REPL task issues a command under the Zigbee lock and then waits on its
 * one-slot task notification; the Zigbee task's callbacks fill the slot,
 * overwriting what is there.
 */
module Console {
  import opened Common

  /** What the command table does with a line: unknown, done at once with `ret`, or left to a callback. */
  datatype Command = Unknown | Immediate(ret: int) | Deferred

  datatype Owner = ReplTask | ZigbeeTask

  datatype Repl =
    | Prompt
    | WantsLock(id: nat, cmd: Command)
    | InLock(id: nat, cmd: Command)
    | Issued(id: nat, ret: int)
    | Released(id: nat)
    | Waiting(id: nat)

  datatype Outcome = Outcome(id: nat, value: int)

  datatype State = State(
    handleKnown: bool,       // repl_task_hdl is set
    slot: Option<int>,       // the task notification
    lock: Option<Owner>,
    repl: Repl,
    entered: seq<Command>,   // every line so far; a command's id is its position
    pending: set<nat>,       // requests whose last callback is still to come
    results: map<nat, int>,  // what the last callback of a request reported
    log: seq<Outcome>        // what the REPL returned, command by command
  )

  function Init(handleKnown: bool): State {
    State(handleKnown, None, None, Prompt, [], {}, map[], [])
  }

  datatype Step =
    | Enter(cmd: Command) | Acquire | Process | Release | BeginWait | Wake
    | ZigbeeAcquire | ZigbeeRelease
    | Callback(id: nat, result: int, notify: bool, last: bool)

  predicate Enabled(s: State, step: Step) {
    match step
    case Enter(cmd) => s.repl.Prompt? && (cmd.Immediate? ==> cmd.ret != ESP_ERR_NOT_FINISHED)
    case Acquire => s.repl.WantsLock? && s.lock.None?
    case Process => s.repl.InLock?
    case Release => s.repl.Issued?
    case BeginWait => s.repl.Released?
    case Wake => s.repl.Waiting? && s.slot.Some?
    case ZigbeeAcquire => s.lock.None?
    case ZigbeeRelease => s.lock == Some(ZigbeeTask)
    case Callback(id, _, _, _) => s.lock == Some(ZigbeeTask) && id in s.pending
  }

  function Return(s: State, id: nat, value: int): State {
    s.(repl := Prompt, log := s.log + [Outcome(id, value)])
  }

  function Apply(s: State, step: Step): State
    requires Enabled(s, step)
  {
    match step
    case Enter(cmd) =>
      var t := s.(entered := s.entered + [cmd]);
      if cmd.Unknown? then Return(t, |s.entered|, ESP_ERR_NOT_FOUND) else t.(repl := WantsLock(|s.entered|, cmd))
    case Acquire => s.(lock := Some(ReplTask), repl := InLock(s.repl.id, s.repl.cmd))
    case Process =>
      if s.repl.cmd.Deferred? then
        s.(pending := s.pending + {s.repl.id}, repl := Issued(s.repl.id, ESP_ERR_NOT_FINISHED))
      else
        s.(repl := Issued(s.repl.id, if s.repl.cmd.Immediate? then s.repl.cmd.ret else ESP_OK))
    case Release =>
      var t := s.(lock := None);
      if s.repl.ret == ESP_ERR_NOT_FINISHED then t.(repl := Released(s.repl.id))
      else Return(t, s.repl.id, s.repl.ret)
    case BeginWait => s.(handleKnown := true, repl := Waiting(s.repl.id))
    case Wake => Return(s.(slot := None), s.repl.id, s.slot.value)
    case ZigbeeAcquire => s.(lock := Some(ZigbeeTask))
    case ZigbeeRelease => s.(lock := None)
    case Callback(id, result, notify, last) =>
      s.(slot := if notify && s.handleKnown then Some(result) else s.slot,
         pending := if last then s.pending - {id} else s.pending,
         results := if last then s.results[id := result] else s.results)
  }

  /** A request notifies once, from its last callback. */
  predicate Disciplined(step: Step) {
    step.Callback? ==> (step.notify <==> step.last)
  }

  function Execute(s: State, steps: seq<Step>): Option<State>
    decreases |steps|
  {
    if steps == [] then Some(s)
    else if Enabled(s, steps[0]) then Execute(Apply(s, steps[0]), steps[1..])
    else None
  }

  // ------------------------------------------------------------ the hand-over works

  /** The deferred command whose result the REPL has not returned yet. */
  predicate Outstanding(s: State, id: nat) {
    || ((s.repl.Released? || s.repl.Waiting?) && s.repl.id == id)
    || (s.repl.Issued? && s.repl.id == id && s.repl.ret == ESP_ERR_NOT_FINISHED)
  }

  /** What command i has to return: its own status, or what its own last callback reported. */
  predicate RightOutcome(s: State, i: nat, value: int)
    requires i < |s.entered|
  {
    match s.entered[i]
    case Unknown => value == ESP_ERR_NOT_FOUND
    case Immediate(ret) => value == ret
    case Deferred => i in s.results && value == s.results[i]
  }

  predicate Busy(s: State) {
    !s.repl.Prompt?
  }

  predicate LogInv(s: State) {
    && |s.log| + (if Busy(s) then 1 else 0) == |s.entered|
    && (Busy(s) ==> s.repl.id == |s.log|)
    && (forall i | 0 <= i < |s.log| :: s.log[i].id == i && RightOutcome(s, i, s.log[i].value))
    && (forall id | id in s.results :: id < |s.entered|)
    && (forall i | 0 <= i < |s.entered| :: s.entered[i].Immediate? ==> s.entered[i].ret != ESP_ERR_NOT_FINISHED)
  }

  predicate ReplInv(s: State) {
    match s.repl
    case Prompt => true
    case WantsLock(id, cmd) => id < |s.entered| && cmd == s.entered[id] && !cmd.Unknown? && id !in s.results
    case InLock(id, cmd) => id < |s.entered| && cmd == s.entered[id] && !cmd.Unknown? && id !in s.results
    case Issued(id, ret) => id < |s.entered| && match s.entered[id] {
      case Unknown => false
      case Immediate(r) => ret == r
      case Deferred => ret == ESP_ERR_NOT_FINISHED
    }
    case Released(id) => id < |s.entered| && s.entered[id].Deferred?
    case Waiting(id) => id < |s.entered| && s.entered[id].Deferred?
  }

  ghost predicate Inv(s: State) {
    && LogInv(s) && ReplInv(s)
    && (s.repl.InLock? || s.repl.Issued? <==> s.lock == Some(ReplTask))
    && (s.repl.Waiting? ==> s.handleKnown)
    // a request is open only for the command the REPL is busy with
    && (forall id | id in s.pending :: Outstanding(s, id) && id !in s.results)
    // the slot holds that command's own result, or nothing
    && (s.slot.Some? ==>
          && (s.repl.Released? || s.repl.Waiting?) && s.repl.id in s.results
          && s.slot.value == s.results[s.repl.id])
    // ... and it is not lost: either the callback is still to come or the slot has it
    && (forall id | Outstanding(s, id) :: id in s.pending || s.slot.Some?)
  }

  /** A notification while nobody knows the REPL's task handle. */
  predicate Unheard(s: State, step: Step) {
    step.Callback? && step.notify && !s.handleKnown
  }

  lemma CallbackKeepsInv(s: State, step: Step)
    requires Inv(s) && Enabled(s, step) && step.Callback? && Disciplined(step) && !Unheard(s, step)
    ensures Inv(Apply(s, step))
  {
    assert Outstanding(s, step.id);
    assert forall id | Outstanding(s, id) :: id == step.id;
  }

  lemma IssueKeepsInv(s: State, step: Step)
    requires Inv(s) && Enabled(s, step) && (step.Enter? || step.Acquire? || step.Process?)
    ensures Inv(Apply(s, step))
  {
  }

  lemma WaitKeepsInv(s: State, step: Step)
    requires Inv(s) && Enabled(s, step) && (step.Release? || step.BeginWait? || step.Wake?)
    ensures Inv(Apply(s, step))
  {
  }

  lemma StepInv(s: State, step: Step)
    requires Inv(s) && Enabled(s, step) && Disciplined(step) && !Unheard(s, step)
    ensures Inv(Apply(s, step))
  {
    if step.Callback? {
      CallbackKeepsInv(s, step);
    } else if step.Enter? || step.Acquire? || step.Process? {
      IssueKeepsInv(s, step);
    } else if step.Release? || step.BeginWait? || step.Wake? {
      WaitKeepsInv(s, step);
    }
  }

  /** Some notification of the run goes unheard. */
  predicate SomeUnheard(s: State, steps: seq<Step>)
    requires Execute(s, steps).Some?
    decreases |steps|
  {
    steps != [] && (Unheard(s, steps[0]) || SomeUnheard(Apply(s, steps[0]), steps[1..]))
  }

  /** The REPL waits, or is about to, for a notification that nobody will send. */
  predicate Lost(s: State) {
    (s.repl.Released? || s.repl.Waiting?) && s.slot.None? && s.pending == {}
  }

  lemma UnheardIsLost(s: State, step: Step)
    requires Inv(s) && Enabled(s, step) && Disciplined(step) && Unheard(s, step)
    ensures Lost(Apply(s, step))
  {
    assert Outstanding(s, step.id);
    assert forall id | Outstanding(s, id) :: id == step.id;
    assert Apply(s, step).pending == {};
  }

  /** Nothing but a request's callback fills the slot, so no step of anyone helps. */
  lemma {:induction false} LostForEver(s: State, steps: seq<Step>)
    requires Lost(s) && Execute(s, steps).Some?
    ensures Lost(Execute(s, steps).value)
    decreases |steps|
  {
    if steps != [] {
      LostForEver(Apply(s, steps[0]), steps[1..]);
    }
  }

  lemma {:induction false} RunIff(s: State, steps: seq<Step>)
    requires Inv(s) && Execute(s, steps).Some? && forall step | step in steps :: Disciplined(step)
    ensures var t := Execute(s, steps).value; if SomeUnheard(s, steps) then Lost(t) else Inv(t)
    decreases |steps|
  {
    if steps != [] {
      var step, t := steps[0], Apply(s, steps[0]);
      assert step in steps;
      if Unheard(s, step) {
        UnheardIsLost(s, step);
        LostForEver(t, steps[1..]);
      } else {
        StepInv(s, step);
        RunIff(t, steps[1..]);
      }
    }
  }

  /**
   * Every command returns exactly once, in order, with its own result; a
   * deferred one is not lost, even when the notification comes before the wait;
   * the slot is empty unless a deferred command is about to take it.
   */
  ghost predicate HandedOver(s: State) {
    && |s.log| + (if Busy(s) then 1 else 0) == |s.entered|
    && (forall i | 0 <= i < |s.log| :: s.log[i].id == i && RightOutcome(s, i, s.log[i].value))
    && (s.repl.Released? || s.repl.Waiting? ==> (s.repl.id in s.pending && s.slot.None?)
                                                || (s.repl.id in s.results && s.slot == Some(s.results[s.repl.id])))
    && (s.slot.Some? ==> s.repl.Released? || (s.repl.Waiting? && Enabled(s, Wake)))
  }

  lemma InvHandsOver(s: State)
    requires Inv(s)
    ensures HandedOver(s) && !Lost(s)
  {
    if s.repl.Released? || s.repl.Waiting? {
      assert Outstanding(s, s.repl.id);
    }
  }

  /**
   * On every interleaving, whether or not the task handle is known at the
   * start: the REPL is lost, and stays lost, if and only if some notification went
   * unheard; otherwise every result is handed over.
   */
  lemma LostIffUnheard(handleKnown: bool, steps: seq<Step>)
    requires Execute(Init(handleKnown), steps).Some? && forall step | step in steps :: Disciplined(step)
    ensures var s := Execute(Init(handleKnown), steps).value;
            && (Lost(s) <==> SomeUnheard(Init(handleKnown), steps))
            && (Lost(s) ==> forall more | Execute(s, more).Some? :: Lost(Execute(s, more).value))
            && (!Lost(s) ==> HandedOver(s))
  {
    RunIff(Init(handleKnown), steps);
    var s := Execute(Init(handleKnown), steps).value;
    if SomeUnheard(Init(handleKnown), steps) {
      forall more | Execute(s, more).Some?
        ensures Lost(Execute(s, more).value)
      {
        LostForEver(s, more);
      }
    } else {
      InvHandsOver(s);
    }
  }

  lemma {:induction false} KnownIsHeard(s: State, steps: seq<Step>)
    requires s.handleKnown && Execute(s, steps).Some?
    ensures !SomeUnheard(s, steps)
    decreases |steps|
  {
    if steps != [] {
      KnownIsHeard(Apply(s, steps[0]), steps[1..]);
    }
  }

  /** A console whose set-up succeeded knows the handle from the start, and then every result is handed over. */
  lemma ResultsAreHandedOver(steps: seq<Step>)
    requires Execute(Init(true), steps).Some? && forall step | step in steps :: Disciplined(step)
    ensures HandedOver(Execute(Init(true), steps).value)
  {
    LostIffUnheard(true, steps);
    KnownIsHeard(Init(true), steps);
  }

  // ------------------------------------------------------------ why each condition is there

  lemma {:induction false} ExecuteTwo(s: State, a: seq<Step>, b: seq<Step>)
    requires Execute(s, a).Some?
    ensures Execute(s, a + b) == Execute(Execute(s, a).value, b)
    decreases |a|
  {
    if a == [] {
      assert a + b == b;
    } else {
      assert (a + b)[0] == a[0] && (a + b)[1..] == a[1..] + b;
      ExecuteTwo(Apply(s, a[0]), a[1..], b);
    }
  }

  lemma Play(s: State, steps: seq<Step>, t: State, step: Step) returns (more: seq<Step>, u: State)
    requires Execute(s, steps) == Some(t) && Enabled(t, step)
    ensures more == steps + [step] && u == Apply(t, step) && Execute(s, more) == Some(u)
  {
    more, u := steps + [step], Apply(t, step);
    ExecuteTwo(s, steps, [step]);
    assert [step][1..] == [];
    assert Execute(u, []) == Some(u);
  }

  /** Issue one deferred command from the prompt. */
  lemma Issue(s: State, steps: seq<Step>, t: State) returns (more: seq<Step>, u: State)
    requires Execute(s, steps) == Some(t) && t.repl.Prompt? && t.lock.None?
    ensures Execute(s, more) == Some(u)
    ensures u == t.(entered := t.entered + [Deferred], pending := t.pending + {|t.entered|}, lock := Some(ReplTask),
                    repl := Issued(|t.entered|, ESP_ERR_NOT_FINISHED))
    ensures more == steps + [Enter(Deferred), Acquire, Process]
  {
    more, u := Play(s, steps, t, Enter(Deferred));
    more, u := Play(s, more, u, Acquire);
    more, u := Play(s, more, u, Process);
  }

  /**
   * Why steps have to be disciplined: a request that notified a second time
   * would hand its result to the next command. Command 1 returns 7 although its
   * own callback has not run.
   */
  lemma SecondNotificationLeaks() returns (steps: seq<Step>, s: State)
    ensures Execute(Init(true), steps) == Some(s)
    ensures s.log == [Outcome(0, 5), Outcome(1, 7)] && 1 in s.pending && 1 !in s.results
  {
    steps, s := [], Init(true);
    steps, s := Issue(Init(true), steps, s);
    steps, s := Play(Init(true), steps, s, Release);
    steps, s := Play(Init(true), steps, s, BeginWait);
    steps, s := Play(Init(true), steps, s, ZigbeeAcquire);
    steps, s := Play(Init(true), steps, s, Callback(0, 5, true, false));
    steps, s := Play(Init(true), steps, s, Wake);
    steps, s := Play(Init(true), steps, s, Callback(0, 7, true, true));
    steps, s := Play(Init(true), steps, s, ZigbeeRelease);
    steps, s := Issue(Init(true), steps, s);
    steps, s := Play(Init(true), steps, s, Release);
    steps, s := Play(Init(true), steps, s, BeginWait);
    steps, s := Play(Init(true), steps, s, Wake);
  }

  /**
   * Without the task handle, a callback that runs before the first wait is lost
   * and the REPL never comes back. The console's set-up finds the handle or
   * returns an error, so this needs a program that starts the console all the same.
   */
  lemma UnknownHandleLosesResult() returns (steps: seq<Step>, s: State)
    ensures Execute(Init(false), steps) == Some(s) && forall step | step in steps :: Disciplined(step)
    ensures Lost(s) && s.repl.Waiting? && s.repl.id in s.results
    ensures forall more | Execute(s, more).Some? :: Lost(Execute(s, more).value)
  {
    steps, s := [], Init(false);
    steps, s := Issue(Init(false), steps, s);
    steps, s := Play(Init(false), steps, s, Release);
    steps, s := Play(Init(false), steps, s, ZigbeeAcquire);
    steps, s := Play(Init(false), steps, s, Callback(0, 5, true, true));
    steps, s := Play(Init(false), steps, s, BeginWait);
    forall more | Execute(s, more).Some?
      ensures Lost(Execute(s, more).value)
    {
      LostForEver(s, more);
    }
  }
}
