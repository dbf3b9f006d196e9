/**
 * The NCP's tasks as a state machine (esp_ncp_bus.c, esp_ncp_main.c): any
 * number of callers of esp_ncp_bus_input, the main task that drains the event
 * queue, and the bus task that cuts the UART stream. One step is one action
 * no other task can see the middle of; every interleaving is a run.
 */
module Link {
  import opened Common
  import opened Uart

  const RINGBUF_SIZE: nat := 20480
  const EVENT_QUEUE_LEN: nat := 60
  const BUS_BUF_SIZE: nat := 1024
  /** NCP_BUS_RINGBUF_TIMEOUT_MS / 10 */
  const POLLS: nat := 5
  /** Caller 0 is the main task itself, answering a frame. */
  const MAIN: nat := 0

  datatype Kind = Input | Output

  datatype Event = Event(kind: Kind, size: nat)

  /** Where a caller of esp_ncp_bus_input stands. */
  datatype Caller =
    | Idle
    | Polling(data: seq<byte>, count: nat)
    | Waiting(data: seq<byte>)
    | Locked(data: seq<byte>)
    | Copying(data: seq<byte>, head: nat, n: nat)
    | Stored(data: seq<byte>, n: nat)
    | Posting(size: nat)

  datatype MainTask =
    | NotStarted | Starting | Listening | Stopped
    | Taken(ev: Event) | Writing(data: seq<byte>) | Handling(chunk: seq<byte>)

  datatype BusTask = Watching | Holding(chunk: seq<byte>) | Announcing(size: nat)

  /** input_buf and those who fill it. `written` is all it ever stored, of which `read` bytes have left. */
  datatype Inbound = Inbound(
    written: seq<byte>,
    read: nat,
    mutex: Option<nat>,
    callers: seq<Caller>,
    sends: seq<seq<byte>>, // what each stream write stored, in the order the writes finished
    uart: seq<byte>        // what the UART has been given
  )

  /** output_buf and the bus task that fills it. */
  datatype Outbound = Outbound(
    buffer: seq<byte>,
    task: BusTask,
    rx: seq<byte>,
    arrived: seq<byte>,        // every byte the UART received
    cuts: seq<seq<byte>>,      // every chunk read from it
    delivered: seq<seq<byte>>, // every chunk given to the frame layer
    flushed: bool,             // the receive buffer was thrown away at some time
    intact: bool               // no chunk was stored in part, no OUTPUT post was refused
  )

  datatype State = State(queue: seq<Event>, queueUp: bool, run: bool, main: MainTask, inb: Inbound, outb: Outbound)

  function Init(callers: nat): State {
    State([], false, false, NotStarted,
          Inbound([], 0, None, seq(callers + 1, _ => Idle), [], []),
          Outbound([], Watching, [], [], [], [], false, true))
  }

  datatype Step =
    | Begin(p: nat, data: seq<byte>) | Poll(p: nat)
    | Lock(p: nat) | Measure(p: nat) | Store(p: nat) | Unlock(p: nat) | Post(p: nat)
    | StartTask | CreateQueue | Dequeue | Receive | WriteUart(ok: bool, k: nat) | EndHandling(ok: bool)
    | LeaveLoop | RequestStop
    | Arrive(b: byte) | Flush | Detect | StoreChunk | Announce

  function Buffered(i: Inbound): int {
    |i.written| - i.read
  }

  function Spaces(i: Inbound): int {
    RINGBUF_SIZE - Buffered(i)
  }

  predicate Enabled(s: State, step: Step) {
    match step
    case Begin(p, data) => p < |s.inb.callers| && s.inb.callers[p].Idle? && |data| < 0x1_0000
        && (p == MAIN ==> s.main.Handling?)
    case Poll(p) => p < |s.inb.callers| && s.inb.callers[p].Polling?
    case Lock(p) => p < |s.inb.callers| && s.inb.callers[p].Waiting? && s.inb.mutex.None?
    case Measure(p) => p < |s.inb.callers| && s.inb.callers[p].Locked?
    case Store(p) => p < |s.inb.callers| && s.inb.callers[p].Copying?
    case Unlock(p) => p < |s.inb.callers| && s.inb.callers[p].Stored?
    case Post(p) => p < |s.inb.callers| && s.inb.callers[p].Posting?
    case StartTask => s.main.NotStarted?
    case CreateQueue => s.main.Starting?
    case Dequeue => s.main.Listening? && s.queue != []
    case Receive => s.main.Taken?
    case WriteUart(ok, k) => s.main.Writing? && k <= |s.main.data| && (ok ==> k == |s.main.data|)
    case EndHandling(_) => s.main.Handling? && s.inb.callers != [] && s.inb.callers[MAIN].Idle?
    case LeaveLoop => s.main.Listening? && !s.run
    case RequestStop => true
    case Arrive(_) => true
    case Flush => s.outb.task.Watching?
    case Detect => s.outb.task.Watching? && Cuts(s.outb.rx) != [] && CutAt(s.outb.rx) <= BUS_BUF_SIZE
    case StoreChunk => s.outb.task.Holding?
    case Announce => s.outb.task.Announcing?
  }

  predicate QueueTakes(s: State) {
    s.run && s.queueUp && |s.queue| < EVENT_QUEUE_LEN
  }

  function CallerStep(i: Inbound, p: nat): Inbound
    requires p < |i.callers|
  {
    match i.callers[p]
    case Polling(data, count) =>
      if Spaces(i) < |data| then
        i.(callers := i.callers[p := if count == 0 then Idle else Polling(data, count - 1)])
      else
        i.(callers := i.callers[p := if count == 0 then Idle else Waiting(data)])
    case Waiting(data) => i.(mutex := Some(p), callers := i.callers[p := Locked(data)])
    case Locked(data) =>
      i.(callers := i.callers[p := Copying(data, |i.written|, if Spaces(i) < 0 then 0 else Min(|data|, Spaces(i)))])
    case Copying(data, head, n) =>
      // The stream buffer is safe for one writer only: a second one would overwrite from its own old head.
      i.(written := Take(i.written, head) + Take(data, n), sends := i.sends + [Take(data, n)],
         callers := i.callers[p := Stored(data, n)])
    case Stored(data, n) =>
      i.(mutex := None, callers := i.callers[p := if n == |data| then Posting(n) else Idle])
    case _ => i
  }

  /** The end of the task: the queue goes, whatever it held. */
  function EndTask(s: State): State {
    s.(main := Stopped, queue := [], queueUp := false)
  }

  function ReceiveEvent(s: State): State
    requires s.main.Taken?
  {
    var n := s.main.ev.size;
    match s.main.ev.kind
    case Input =>
      var data := if s.inb.read <= |s.inb.written| then Take(s.inb.written[s.inb.read..], n) else [];
      s.(main := if |data| == n then Writing(data) else Listening, inb := s.inb.(read := s.inb.read + |data|))
    case Output =>
      var data := Take(s.outb.buffer, n);
      var rest := s.outb.buffer[|data|..];
      if |data| == n then
        s.(main := Handling(data), outb := s.outb.(buffer := rest, delivered := s.outb.delivered + [data]))
      else
        s.(main := Listening, outb := s.outb.(buffer := rest))
  }

  function DetectChunk(o: Outbound): Outbound
    requires Cuts(o.rx) != []
  {
    var n := CutAt(o.rx);
    o.(task := Holding(o.rx[..n]), rx := o.rx[n..], cuts := o.cuts + [o.rx[..n]])
  }

  function StoreHeld(o: Outbound, stopped: bool): Outbound
    requires o.task.Holding?
  {
    var n := if |o.buffer| > RINGBUF_SIZE then 0 else Min(|o.task.chunk|, RINGBUF_SIZE - |o.buffer|);
    o.(task := Announcing(|o.task.chunk|), buffer := o.buffer + o.task.chunk[..n],
       intact := o.intact && (stopped || n == |o.task.chunk|))
  }

  function Apply(s: State, step: Step): State
    requires Enabled(s, step)
  {
    match step
    case Begin(p, data) => s.(inb := s.inb.(callers := s.inb.callers[p := Polling(data, POLLS)]))
    case Poll(p) => s.(inb := CallerStep(s.inb, p))
    case Lock(p) => s.(inb := CallerStep(s.inb, p))
    case Measure(p) => s.(inb := CallerStep(s.inb, p))
    case Store(p) => s.(inb := CallerStep(s.inb, p))
    case Unlock(p) => s.(inb := CallerStep(s.inb, p))
    case Post(p) =>
      s.(queue := if QueueTakes(s) then s.queue + [Event(Input, s.inb.callers[p].size)] else s.queue,
         inb := s.inb.(callers := s.inb.callers[p := Idle]))
    case StartTask => s.(main := Starting, run := true)
    case CreateQueue => s.(main := Listening, queueUp := true, queue := [])
    case Dequeue => s.(main := Taken(s.queue[0]), queue := s.queue[1..])
    case Receive => ReceiveEvent(s)
    case WriteUart(ok, k) =>
      var t := s.(inb := s.inb.(uart := s.inb.uart + s.main.data[..k]));
      if ok then t.(main := Listening) else EndTask(t)
    case EndHandling(ok) => if ok then s.(main := Listening) else EndTask(s)
    case LeaveLoop => EndTask(s)
    case RequestStop => s.(run := false)
    case Arrive(b) => s.(outb := s.outb.(rx := s.outb.rx + [b], arrived := s.outb.arrived + [b]))
    case Flush => s.(outb := s.outb.(rx := [], flushed := true))
    case Detect => s.(outb := DetectChunk(s.outb))
    case StoreChunk => s.(outb := StoreHeld(s.outb, s.main.Stopped?))
    case Announce =>
      s.(queue := if QueueTakes(s) then s.queue + [Event(Output, s.outb.task.size)] else s.queue,
         outb := s.outb.(task := Watching, intact := s.outb.intact && (s.main.Stopped? || QueueTakes(s))))
  }

  function Execute(s: State, steps: seq<Step>): Option<State>
    decreases |steps|
  {
    if steps == [] then Some(s)
    else if Enabled(s, steps[0]) then Execute(Apply(s, steps[0]), steps[1..])
    else None
  }

  ghost predicate Reachable(s: State) {
    exists callers, steps :: Execute(Init(callers), steps) == Some(s)
  }

  // ------------------------------------------------------------ accounts

  /** Bytes that pending INPUT events announce. */
  function InputBytes(q: seq<Event>): nat {
    if q == [] then 0 else (if q[0].kind.Input? then q[0].size else 0) + InputBytes(q[1..])
  }

  /** Sizes that pending OUTPUT events announce, in queue order. */
  function OutputSizes(q: seq<Event>): seq<nat> {
    if q == [] then [] else (if q[0].kind.Output? then [q[0].size] else []) + OutputSizes(q[1..])
  }

  lemma {:induction false} QueueSnoc(q: seq<Event>, e: Event)
    ensures InputBytes(q + [e]) == InputBytes(q) + if e.kind.Input? then e.size else 0
    ensures OutputSizes(q + [e]) == OutputSizes(q) + if e.kind.Output? then [e.size] else []
  {
    if q == [] {
      assert q + [e] == [e] && [e][1..] == [];
    } else {
      QueueSnoc(q[1..], e);
      assert (q + [e])[1..] == q[1..] + [e];
    }
  }

  /** Bytes a caller has stored in full but not announced yet. */
  function Promise(c: Caller): nat {
    match c
    case Posting(n) => n
    case Stored(data, n) => if n == |data| then n else 0
    case _ => 0
  }

  function Promises(cs: seq<Caller>): nat {
    if cs == [] then 0 else Promise(cs[0]) + Promises(cs[1..])
  }

  lemma {:induction false} PromisesUpdate(cs: seq<Caller>, p: nat, c: Caller)
    requires p < |cs|
    ensures Promises(cs[p := c]) == Promises(cs) - Promise(cs[p]) + Promise(c)
  {
    if p == 0 {
      assert cs[p := c][1..] == cs[1..];
    } else {
      PromisesUpdate(cs[1..], p - 1, c);
      assert cs[p := c][1..] == cs[1..][p - 1 := c];
    }
  }

  lemma {:induction false} PromisesIdle(n: nat)
    ensures Promises(seq(n, _ => Idle)) == 0
  {
    if n > 0 {
      PromisesIdle(n - 1);
      assert seq(n, _ => Idle)[1..] == seq(n - 1, _ => Idle);
    }
  }

  // ------------------------------------------------------------ the towards-host invariant

  predicate InLock(c: Caller) {
    c.Locked? || c.Copying? || c.Stored?
  }

  /** At most one caller is inside the mutex, and only it moves the head of the stream buffer. */
  predicate Exclusive(i: Inbound) {
    forall p | 0 <= p < |i.callers| ::
      && (InLock(i.callers[p]) ==> i.mutex == Some(p))
      && (i.callers[p].Copying? ==>
            && i.callers[p].head == |i.written|
            && i.callers[p].n <= |i.callers[p].data|
            && Buffered(i) + i.callers[p].n <= RINGBUF_SIZE)
      && (i.callers[p].Stored? ==> i.callers[p].n <= |i.callers[p].data|)
  }

  function Announced(s: State): nat {
    InputBytes(s.queue)
    + Promises(s.inb.callers)
    + if s.main.Taken? && s.main.ev.kind.Input? then s.main.ev.size else 0
  }

  predicate InboundInv(s: State) {
    && s.inb.read <= |s.inb.written| && Buffered(s.inb) <= RINGBUF_SIZE
    && s.inb.written == Flatten(s.inb.sends)
    && Exclusive(s.inb)
    && Announced(s) <= Buffered(s.inb)
    && s.inb.uart <= s.inb.written[..s.inb.read]
    && (!s.main.Stopped? ==> s.inb.uart + (if s.main.Writing? then s.main.data else []) == s.inb.written[..s.inb.read])
  }

  lemma CallerMoves(i: Inbound, p: nat)
    requires p < |i.callers| && !i.callers[p].Posting? && !i.callers[p].Idle?
    requires i.callers[p].Waiting? ==> i.mutex.None?
    requires i.read <= |i.written| && Buffered(i) <= RINGBUF_SIZE && i.written == Flatten(i.sends) && Exclusive(i)
    ensures var j := CallerStep(i, p);
            && j.read == i.read && j.uart == i.uart && i.written <= j.written && |j.callers| == |i.callers|
            && Buffered(j) <= RINGBUF_SIZE && j.written == Flatten(j.sends) && Exclusive(j)
            && Promises(j.callers) - Promises(i.callers) <= Buffered(j) - Buffered(i)
  {
    var j := CallerStep(i, p);
    PromisesUpdate(i.callers, p, j.callers[p]);
    match i.callers[p]
    case Copying(data, head, n) =>
      FlattenSnoc(i.sends, Take(data, n));
      assert Take(i.written, head) == i.written;
    case _ =>
  }

  lemma CallerPreserves(s: State, step: Step)
    requires InboundInv(s) && Enabled(s, step)
    requires step.Poll? || step.Lock? || step.Measure? || step.Store? || step.Unlock?
    ensures InboundInv(Apply(s, step))
  {
    CallerMoves(s.inb, step.p);
    var t := Apply(s, step);
    assert t.inb.written[..s.inb.read] == s.inb.written[..s.inb.read];
  }

  /** An INPUT event finds all the bytes it announces. */
  lemma ReceiveInput(s: State)
    requires InboundInv(s) && Enabled(s, Receive) && s.main.ev.kind.Input?
    ensures s.inb.read + s.main.ev.size <= |s.inb.written|
    ensures Apply(s, Receive).main == Writing(s.inb.written[s.inb.read..s.inb.read + s.main.ev.size])
    ensures InboundInv(Apply(s, Receive))
  {
    var i, n := s.inb, s.main.ev.size;
    var t := Apply(s, Receive);
    SliceJoin(i.written, i.read, n);
    assert t.inb == i.(read := i.read + n);
    assert i.uart + [] == i.uart;
  }

  lemma ReceiveOutput(s: State)
    requires InboundInv(s) && Enabled(s, Receive) && s.main.ev.kind.Output?
    ensures InboundInv(Apply(s, Receive))
  {
  }

  lemma MainPreserves(s: State, step: Step)
    requires || step.StartTask? || step.CreateQueue? || step.Dequeue? || step.WriteUart?
             || step.EndHandling? || step.LeaveLoop? || step.RequestStop?
    requires InboundInv(s) && Enabled(s, step)
    ensures InboundInv(Apply(s, step))
  {
    if step.WriteUart? {
      assert s.inb.uart + s.main.data[..step.k] <= s.inb.uart + s.main.data;
    }
  }

  lemma BusPreserves(s: State, step: Step)
    requires step.Arrive? || step.Flush? || step.Detect? || step.StoreChunk? || step.Announce?
    requires InboundInv(s) && Enabled(s, step)
    ensures InboundInv(Apply(s, step))
  {
    if step.Announce? {
      QueueSnoc(s.queue, Event(Output, s.outb.task.size));
    }
  }

  lemma BeginPostPreserve(s: State, step: Step)
    requires InboundInv(s) && Enabled(s, step) && (step.Begin? || step.Post?)
    ensures InboundInv(Apply(s, step))
  {
    var t := Apply(s, step);
    PromisesUpdate(s.inb.callers, step.p, t.inb.callers[step.p]);
    if step.Post? {
      QueueSnoc(s.queue, Event(Input, s.inb.callers[step.p].size));
    }
  }

  lemma InboundPreserved(s: State, step: Step)
    requires InboundInv(s) && Enabled(s, step)
    ensures InboundInv(Apply(s, step))
  {
    if step.Begin? || step.Post? {
      BeginPostPreserve(s, step);
    } else if step.Poll? || step.Lock? || step.Measure? || step.Store? || step.Unlock? {
      CallerPreserves(s, step);
    } else if step.Receive? {
      if s.main.ev.kind.Input? { ReceiveInput(s); } else { ReceiveOutput(s); }
    } else if step.Arrive? || step.Flush? || step.Detect? || step.StoreChunk? || step.Announce? {
      BusPreserves(s, step);
    } else {
      MainPreserves(s, step);
    }
  }

  // ------------------------------------------------------------ the from-host invariant

  function Lengths(cs: seq<seq<byte>>): (ls: seq<nat>)
    ensures |ls| == |cs| && forall i | 0 <= i < |cs| :: ls[i] == |cs[i]|
  {
    seq(|cs|, i requires 0 <= i < |cs| => |cs[i]|)
  }

  /** The chunks in output_buf: read from the UART and stored, but not given to the frame layer. */
  function Pending(o: Outbound): seq<seq<byte>> {
    if |o.delivered| <= StoredChunks(o) then o.cuts[|o.delivered|..StoredChunks(o)] else []
  }

  /** How many chunks the bus task has handed to output_buf, in full or not. */
  function StoredChunks(o: Outbound): (n: nat)
    ensures n <= |o.cuts|
  {
    if o.task.Holding? && o.cuts != [] then |o.cuts| - 1 else |o.cuts|
  }

  /** Every announced OUTPUT size still to be received, in order. */
  function DueSizes(s: State): seq<nat> {
    (if s.main.Taken? && s.main.ev.kind.Output? then [s.main.ev.size] else [])
    + OutputSizes(s.queue)
    + if s.outb.task.Announcing? then [s.outb.task.size] else []
  }

  predicate OutboundInv(s: State) {
    var o := s.outb;
    && |o.buffer| <= RINGBUF_SIZE
    && AllChunks(o.cuts)
    && (!o.flushed ==> o.arrived == Flatten(o.cuts) + o.rx)
    && (o.task.Holding? ==> o.cuts != [] && o.cuts[|o.cuts| - 1] == o.task.chunk)
    && (o.intact ==> o.delivered <= o.cuts)
    && (o.intact && !s.main.Stopped? ==>
          && |o.delivered| <= StoredChunks(o)
          && o.buffer == Flatten(Pending(o))
          && DueSizes(s) == Lengths(Pending(o)))
  }

  lemma DetectPreserves(s: State)
    requires OutboundInv(s) && Enabled(s, Detect)
    ensures OutboundInv(Apply(s, Detect))
  {
    var o := s.outb;
    var p := Apply(s, Detect).outb;
    CutIsChunk(o.rx);
    FlattenSnoc(o.cuts, p.task.chunk);
    Assoc(Flatten(o.cuts), p.task.chunk, p.rx);
    if o.intact && !s.main.Stopped? {
      assert p.cuts[..|o.cuts|] == o.cuts;
      SliceOfPrefix(p.cuts, |o.cuts|, |o.delivered|, |o.cuts|);
      assert Pending(p) == Pending(o);
    }
  }

  /** One chunk more pending, one size more due. */
  lemma OneMore(s: State, t: State)
    requires OutboundInv(s) && s.outb.task.Holding? && s.outb.intact && !s.main.Stopped?
    requires var o, c := s.outb, s.outb.task.chunk;
             t == s.(outb := o.(task := Announcing(|c|), buffer := o.buffer + c))
             && |t.outb.buffer| <= RINGBUF_SIZE
    ensures OutboundInv(t)
  {
    var o, p, c := s.outb, t.outb, s.outb.task.chunk;
    assert Pending(p) == Pending(o) + [c];
    FlattenSnoc(Pending(o), c);
    assert DueSizes(t) == DueSizes(s) + [|c|];
  }

  lemma StorePreserves(s: State)
    requires OutboundInv(s) && Enabled(s, StoreChunk)
    ensures OutboundInv(Apply(s, StoreChunk))
  {
    var t, c := Apply(s, StoreChunk), s.outb.task.chunk;
    if t.outb.intact && !s.main.Stopped? {
      assert c[..|c|] == c;
      OneMore(s, t);
    }
  }

  lemma AnnouncePreserves(s: State)
    requires OutboundInv(s) && Enabled(s, Announce)
    ensures OutboundInv(Apply(s, Announce))
  {
    var t := Apply(s, Announce);
    QueueSnoc(s.queue, Event(Output, s.outb.task.size));
    if t.outb.intact && !s.main.Stopped? {
      assert Pending(t.outb) == Pending(s.outb);
      assert DueSizes(t) == DueSizes(s);
    }
  }

  /** The event taken announces the oldest pending chunk, and the buffer starts with it. */
  lemma OldestFirst(s: State)
    requires OutboundInv(s) && Enabled(s, Receive) && s.main.ev.kind.Output? && s.outb.intact
    ensures |s.outb.delivered| < StoredChunks(s.outb)
    ensures var o, t := s.outb, Apply(s, Receive);
            var chunk, rest := o.cuts[|o.delivered|], Pending(o)[1..];
            && s.main.ev.size == |chunk| && Pending(o) == [chunk] + rest
            && t == s.(main := Handling(chunk),
                       outb := o.(buffer := Flatten(rest), delivered := o.delivered + [chunk]))
  {
    var o := s.outb;
    var pending := Pending(o);
    assert DueSizes(s)[0] == s.main.ev.size;
    assert pending != [] && |pending[0]| == s.main.ev.size;
    assert o.buffer == pending[0] + Flatten(pending[1..]);
    assert Take(o.buffer, s.main.ev.size) == pending[0];
    assert o.buffer[|pending[0]|..] == Flatten(pending[1..]);
  }

  /** One chunk less pending, one size less due. */
  lemma OneFewer(s: State, t: State)
    requires OutboundInv(s) && s.main.Taken? && s.main.ev.kind.Output? && s.outb.intact
    requires |s.outb.delivered| < StoredChunks(s.outb) && !t.main.Taken? && t.queue == s.queue
    requires t.outb == s.outb.(buffer := Flatten(Pending(s.outb)[1..]),
                               delivered := s.outb.delivered + [s.outb.cuts[|s.outb.delivered|]])
    ensures OutboundInv(t)
  {
    var pending := Pending(s.outb);
    assert t.outb.delivered == s.outb.cuts[..|s.outb.delivered| + 1];
    assert Pending(t.outb) == pending[1..];
    assert DueSizes(t) == DueSizes(s)[1..];
    assert Lengths(pending)[1..] == Lengths(pending[1..]);
    assert Flatten(pending) == pending[0] + Flatten(pending[1..]);
  }

  lemma ReceiveDelivers(s: State)
    requires OutboundInv(s) && Enabled(s, Receive) && s.main.ev.kind.Output? && s.outb.intact
    ensures OutboundInv(Apply(s, Receive))
    ensures |s.outb.delivered| < |s.outb.cuts|
    ensures Apply(s, Receive).main == Handling(s.outb.cuts[|s.outb.delivered|])
  {
    OldestFirst(s);
    OneFewer(s, Apply(s, Receive));
  }

  lemma QueueMoves(s: State, step: Step)
    requires OutboundInv(s) && Enabled(s, step) && (step.Post? || step.Dequeue?)
    ensures OutboundInv(Apply(s, step))
  {
    var t := Apply(s, step);
    if step.Post? {
      QueueSnoc(s.queue, Event(Input, s.inb.callers[step.p].size));
      assert OutputSizes(t.queue) == OutputSizes(s.queue);
    }
    assert !s.main.Stopped? ==> DueSizes(t) == DueSizes(s);
  }

  lemma CallersElsewhere(s: State, step: Step)
    requires OutboundInv(s) && Enabled(s, step)
    requires || step.Begin? || step.Poll? || step.Lock? || step.Measure?
             || step.Store? || step.Unlock? || step.RequestStop?
    ensures OutboundInv(Apply(s, step))
  {
    var t := Apply(s, step);
    assert t.outb == s.outb && t.queue == s.queue && t.main == s.main;
  }

  lemma BytesArrive(s: State, step: Step)
    requires OutboundInv(s) && Enabled(s, step) && (step.Arrive? || step.Flush?)
    ensures OutboundInv(Apply(s, step))
  {
    if step.Arrive? {
      Assoc(Flatten(s.outb.cuts), s.outb.rx, [step.b]);
    }
    assert Pending(Apply(s, step).outb) == Pending(s.outb);
  }

  lemma MainElsewhere(s: State, step: Step)
    requires OutboundInv(s) && Enabled(s, step)
    requires step.StartTask? || step.CreateQueue? || step.WriteUart? || step.EndHandling? || step.LeaveLoop?
    requires step.CreateQueue? ==> s.queue == []
    ensures OutboundInv(Apply(s, step))
  {
    assert Apply(s, step).outb == s.outb;
  }

  lemma BusKeepsOutbound(s: State, step: Step)
    requires OutboundInv(s) && Enabled(s, step)
    requires step.Detect? || step.StoreChunk? || step.Announce? || step.Arrive? || step.Flush?
    ensures OutboundInv(Apply(s, step))
  {
    match step
    case Detect => DetectPreserves(s);
    case StoreChunk => StorePreserves(s);
    case Announce => AnnouncePreserves(s);
    case _ => BytesArrive(s, step);
  }

  lemma ReceiveKeepsOutbound(s: State)
    requires OutboundInv(s) && Enabled(s, Receive)
    ensures OutboundInv(Apply(s, Receive))
  {
    if s.main.ev.kind.Output? && s.outb.intact { ReceiveDelivers(s); }
  }

  lemma OutboundPreserved(s: State, step: Step)
    requires OutboundInv(s) && Enabled(s, step)
    requires s.main.Starting? ==> s.queue == []
    ensures OutboundInv(Apply(s, step))
  {
    if step.Detect? || step.StoreChunk? || step.Announce? || step.Arrive? || step.Flush? {
      BusKeepsOutbound(s, step);
    } else if step.Receive? {
      ReceiveKeepsOutbound(s);
    } else if step.Post? || step.Dequeue? {
      QueueMoves(s, step);
    } else if step.StartTask? || step.CreateQueue? || step.WriteUart? || step.EndHandling? || step.LeaveLoop? {
      MainElsewhere(s, step);
    } else {
      CallersElsewhere(s, step);
    }
  }

  // ------------------------------------------------------------ every run

  predicate Inv(s: State) {
    && InboundInv(s) && OutboundInv(s)
    && |s.queue| <= EVENT_QUEUE_LEN
    && (!s.queueUp ==> s.queue == [])
    && (s.main.NotStarted? || s.main.Starting? ==> !s.queueUp)
  }

  lemma InitInv(callers: nat)
    ensures Inv(Init(callers))
  {
    PromisesIdle(callers + 1);
  }

  lemma StepInv(s: State, step: Step)
    requires Inv(s) && Enabled(s, step)
    ensures Inv(Apply(s, step))
  {
    InboundPreserved(s, step);
    OutboundPreserved(s, step);
  }

  lemma {:induction false} RunInv(s: State, steps: seq<Step>)
    requires Inv(s) && Execute(s, steps).Some?
    ensures Inv(Execute(s, steps).value)
    decreases |steps|
  {
    if steps != [] {
      StepInv(s, steps[0]);
      RunInv(Apply(s, steps[0]), steps[1..]);
    }
  }

  lemma ReachableInv(s: State)
    requires Reachable(s)
    ensures Inv(s)
  {
    var callers, steps :| Execute(Init(callers), steps) == Some(s);
    InitInv(callers);
    RunInv(Init(callers), steps);
  }

  lemma ReachableOn(s: State, steps: seq<Step>)
    requires Reachable(s) && Execute(s, steps).Some?
    ensures Reachable(Execute(s, steps).value)
  {
    var callers, before :| Execute(Init(callers), before) == Some(s);
    ExecuteAppend(Init(callers), before, steps);
    assert Execute(Init(callers), before + steps) == Some(Execute(s, steps).value);
  }

  lemma {:induction false} ExecuteAppend(s: State, a: seq<Step>, b: seq<Step>)
    requires Execute(s, a).Some?
    ensures Execute(s, a + b) == Execute(Execute(s, a).value, b)
    decreases |a|
  {
    if a == [] {
      assert a + b == b;
    } else {
      assert (a + b)[0] == a[0] && (a + b)[1..] == a[1..] + b;
      ExecuteAppend(Apply(s, a[0]), a[1..], b);
    }
  }
}
