/**
 * The same code as one task sees it, between two steps of the others
 * (esp_ncp_main.c, esp_ncp_bus_input in esp_ncp_bus.c).
 */
module Device {
  import opened Common
  import opened StreamBuffers
  import opened Link
  import LinkLaws

  // ------------------------------------------------------------ one task's view of the device

  datatype View = View(run: bool, queue: Option<seq<Event>>, input: seq<byte>, output: seq<byte>,
                       uart: seq<byte>, handled: seq<seq<byte>>)

  predicate Accepts(v: View) {
    v.run && v.queue.Some? && |v.queue.value| < EVENT_QUEUE_LEN
  }

  /** esp_ncp_bus_input, nobody else running. */
  function Called(v: View, data: seq<byte>): (View, int) {
    if RINGBUF_SIZE - |v.input| < |data| then (v, ESP_FAIL)
    else
      var w := v.(input := v.input + data);
      if Accepts(v) then (w.(queue := Some(v.queue.value + [Event(Input, |data|)])), ESP_OK) else (w, ESP_FAIL)
  }

  /** The frame layer's answer, if any; only for an error reply does the bus's result count. */
  function Answered(v: View, reply: Option<seq<byte>>, strict: bool): (View, int) {
    match reply
    case None => (v, ESP_OK)
    case Some(data) => var (w, ret) := Called(v, data); (w, if strict then ret else ESP_OK)
  }

  function Processed(v: View, ev: Event, taken: nat, reply: Option<seq<byte>>, strict: bool): (View, int)
    requires taken <= ev.size
  {
    match ev.kind
    case Input =>
      var data := Take(v.input, ev.size);
      var w := v.(input := v.input[|data|..]);
      if |data| < ev.size then (w, ESP_OK)
      else (w.(uart := v.uart + data[..taken]), if taken == ev.size then ESP_OK else ESP_ERR_INVALID_SIZE)
    case Output =>
      var data := Take(v.output, ev.size);
      var w := v.(output := v.output[|data|..]);
      if |data| < ev.size then (w, ESP_OK) else Answered(w.(handled := v.handled + [data]), reply, strict)
  }

  /** A failure ends the task and deletes the queue. */
  function Concluded(v: View, ev: Event, taken: nat, reply: Option<seq<byte>>, strict: bool): (View, int)
    requires taken <= ev.size
  {
    var (w, ret) := Processed(v, ev, taken, reply, strict);
    (if ret == ESP_OK then w else w.(queue := None), ret)
  }

  /** One turn of the main loop. */
  function Turned(v: View, taken: nat, reply: Option<seq<byte>>, strict: bool): (View, int)
    requires v.queue.Some? && v.queue.value != [] && taken <= v.queue.value[0].size
  {
    Concluded(v.(queue := Some(v.queue.value[1..])), v.queue.value[0], taken, reply, strict)
  }

  // ------------------------------------------------------------ what a turn does, place by place

  /** What becomes of a reply between the views v and w. */
  predicate ReplyLeft(v: View, reply: seq<byte>, strict: bool, w: View, ret: int) {
    var fits := |v.input| + |reply| <= RINGBUF_SIZE;
    var posted := fits && v.run && v.queue.Some? && |v.queue.value| < EVENT_QUEUE_LEN;
    && w.input == (if fits then v.input + reply else v.input)
    && w.queue == (if posted then Some(v.queue.value + [Event(Input, |reply|)]) else v.queue)
    && ret == if posted || !strict then ESP_OK else ESP_FAIL
  }

  /**
   * An OUTPUT event received in full: the chunk is handled, and its reply is in
   * input_buf and announced when there is room for both; stored but not announced
   * when the queue takes no more; gone when it does not fit. Only the caller of an
   * error reply hears of either.
   */
  lemma OutputProcessed(v: View, ev: Event, taken: nat, reply: Option<seq<byte>>, strict: bool)
    requires taken <= ev.size && ev.kind.Output? && ev.size <= |v.output|
    ensures var (w, ret) := Processed(v, ev, taken, reply, strict);
            && w.output == v.output[ev.size..] && w.handled == v.handled + [v.output[..ev.size]]
            && w.uart == v.uart && w.run == v.run
            && (reply.None? ==> ret == ESP_OK && w.input == v.input && w.queue == v.queue)
            && (reply.Some? ==> ReplyLeft(v, reply.value, strict, w, ret))
  {
    assert Take(v.output, ev.size) == v.output[..ev.size];
  }

  /** An INPUT event: the bytes leave input_buf, and all of them or what the driver took go to the UART. */
  lemma InputProcessed(v: View, ev: Event, taken: nat, reply: Option<seq<byte>>, strict: bool)
    requires taken <= ev.size && ev.kind.Input? && ev.size <= |v.input|
    ensures var (w, ret) := Processed(v, ev, taken, reply, strict);
            && w == v.(input := v.input[ev.size..], uart := v.uart + v.input[..taken])
            && ret == if taken == ev.size then ESP_OK else ESP_ERR_INVALID_SIZE
  {
    assert Take(v.input, ev.size)[..taken] == v.input[..taken];
  }

  /** An event that announces more than there is empties its buffer and is forgotten. */
  lemma ShortProcessed(v: View, ev: Event, taken: nat, reply: Option<seq<byte>>, strict: bool)
    requires taken <= ev.size && ev.size > if ev.kind.Input? then |v.input| else |v.output|
    ensures Processed(v, ev, taken, reply, strict)
         == (if ev.kind.Input? then v.(input := []) else v.(output := []), ESP_OK)
  {
    assert v.input[|v.input|..] == [] && v.output[|v.output|..] == [];
  }

  /** A turn takes the oldest event; a failing one ends the task and deletes the queue, a good one changes no more. */
  lemma TurnConcludes(v: View, taken: nat, reply: Option<seq<byte>>, strict: bool)
    requires v.queue.Some? && v.queue.value != [] && taken <= v.queue.value[0].size
    ensures var (w, ret) := Turned(v, taken, reply, strict);
            var (u, code) := Processed(v.(queue := Some(v.queue.value[1..])), v.queue.value[0], taken, reply, strict);
            ret == code && w == if ret == ESP_OK then u else u.(queue := None)
  {
  }

  // ------------------------------------------------------------ the code

  class NcpDevice {
    var run: bool
    var queue: Option<seq<Event>>
    const inputBuf: StreamBuffer
    const outputBuf: StreamBuffer
    var uart: seq<byte>
    /** The chunks given to esp_ncp_bus_output. */
    var handled: seq<seq<byte>>

    ghost predicate Valid()
      reads this, inputBuf, outputBuf
    {
      && inputBuf != outputBuf && inputBuf.Valid() && outputBuf.Valid()
      && inputBuf.capacity == RINGBUF_SIZE && outputBuf.capacity == RINGBUF_SIZE
      && (queue.Some? ==> |queue.value| <= EVENT_QUEUE_LEN)
    }

    constructor ()
      ensures Valid() && fresh(inputBuf) && fresh(outputBuf)
      ensures !run && queue.None? && uart == [] && handled == []
      ensures inputBuf.contents == [] && outputBuf.contents == []
    {
      run, queue, uart, handled := false, None, [], [];
      inputBuf := new StreamBuffer(RINGBUF_SIZE);
      outputBuf := new StreamBuffer(RINGBUF_SIZE);
    }

    function Now(): View
      reads this, inputBuf, outputBuf
    {
      View(run, queue, inputBuf.contents, outputBuf.contents, uart, handled)
    }

    method SendEvent(ev: Event) returns (ret: int)
      requires Valid()
      modifies this`queue
      ensures Valid()
      ensures var takes := run && old(queue).Some? && |old(queue).value| < EVENT_QUEUE_LEN;
              && ret == (if takes then ESP_OK else ESP_FAIL)
              && queue == if takes then Some(old(queue).value + [ev]) else old(queue)
    {
      if !run || queue.None? {
        return ESP_FAIL;
      }
      if |queue.value| >= EVENT_QUEUE_LEN {
        return ESP_FAIL;
      }
      queue := Some(queue.value + [ev]);
      ret := ESP_OK;
    }

    /**
     * One dequeued event. `taken` is how many bytes the UART driver accepts,
     * `reply` what the frame layer sends. A short receive discards the bytes but
     * is not an error.
     */
    method ProcessEvent(ev: Event, taken: nat, reply: Option<seq<byte>>, strict: bool) returns (ret: int)
      requires Valid() && taken <= ev.size && (reply.Some? ==> |reply.value| < 0x1_0000)
      modifies this`uart, this`handled, this`queue, inputBuf`contents, outputBuf`contents
      ensures Valid() && (Now(), ret) == Processed(old(Now()), ev, taken, reply, strict)
      ensures ev.kind.Output? && ev.size <= |old(outputBuf.contents)| ==>
                && outputBuf.contents == old(outputBuf.contents)[ev.size..]
                && handled == old(handled) + [old(outputBuf.contents)[..ev.size]]
                && (reply.None? ==> ret == ESP_OK && inputBuf.contents == old(inputBuf.contents) && queue == old(queue))
                && (reply.Some? ==> ReplyLeft(old(Now()), reply.value, strict, Now(), ret))
    {
      if ev.kind.Output? && ev.size <= |outputBuf.contents| {
        OutputProcessed(Now(), ev, taken, reply, strict);
      }
      ret := ESP_OK;
      match ev.kind
      case Input =>
        var buffer := inputBuf.Receive(ev.size);
        assert inputBuf.contents == old(inputBuf.contents)[|buffer|..];
        if |buffer| == ev.size {
          uart := uart + buffer[..taken];
          ret := if taken == ev.size then ESP_OK else ESP_ERR_INVALID_SIZE;
        }
      case Output =>
        var buffer := outputBuf.Receive(ev.size);
        assert outputBuf.contents == old(outputBuf.contents)[|buffer|..];
        if |buffer| == ev.size {
          handled := handled + [buffer];
          ret := Answer(reply, strict);
        }
    }

    /** What the frame layer does with the bus while it handles one chunk. */
    method Answer(reply: Option<seq<byte>>, strict: bool) returns (ret: int)
      requires Valid() && (reply.Some? ==> |reply.value| < 0x1_0000)
      modifies this`queue, inputBuf`contents
      ensures Valid() && (Now(), ret) == Answered(old(Now()), reply, strict)
    {
      ret := ESP_OK;
      if reply.Some? {
        var room := inputBuf.SpacesAvailable();
        var sent := BusInput(reply, _ => room);
        if strict {
          ret := sent;
        }
      }
    }

    /** The body of the main task's loop, and what follows it when it is left. */
    method MainTurn(taken: nat, reply: Option<seq<byte>>, strict: bool) returns (ret: int)
      requires Valid() && queue.Some? && queue.value != [] && taken <= queue.value[0].size
      requires reply.Some? ==> |reply.value| < 0x1_0000
      modifies this`uart, this`handled, this`queue, inputBuf`contents, outputBuf`contents
      ensures Valid() && (Now(), ret) == Turned(old(Now()), taken, reply, strict)
      ensures old(queue).value[0].kind.Output? && old(queue).value[0].size <= |old(outputBuf.contents)|
              && run && reply.Some? && |old(inputBuf.contents)| + |reply.value| <= RINGBUF_SIZE ==>
                && ret == ESP_OK && inputBuf.contents == old(inputBuf.contents) + reply.value
                && queue == Some(old(queue).value[1..] + [Event(Input, |reply.value|)])
    {
      var ev := queue.value[0];
      queue := Some(queue.value[1..]);
      ret := ProcessEvent(ev, taken, reply, strict);
      if ret != ESP_OK {
        queue := None;
      }
    }

    /**
     * esp_ncp_bus_input. `spaces(j)` is what the j-th look at the free space
     * finds. A call that fails may still have stored bytes, but announces none.
     */
    method BusInput(buffer: Option<seq<byte>>, spaces: nat -> nat) returns (ret: int)
      requires Valid() && (buffer.Some? ==> |buffer.value| < 0x1_0000)
      modifies this`queue, inputBuf`contents
      ensures Valid()
      ensures buffer.None? || (forall j | 0 <= j < POLLS :: spaces(j) < |buffer.value|) ==>
                ret == ESP_FAIL && queue == old(queue) && inputBuf.contents == old(inputBuf.contents)
      ensures buffer.Some? && (exists j | 0 <= j < POLLS :: spaces(j) >= |buffer.value|) ==>
                var stored := Min(|buffer.value|, RINGBUF_SIZE - |old(inputBuf.contents)|);
                && inputBuf.contents == old(inputBuf.contents) + buffer.value[..stored]
                && (ret == ESP_OK <==> stored == |buffer.value| && old(Accepts(Now())))
                && (ret == ESP_OK ==> queue == Some(old(queue).value + [Event(Input, |buffer.value|)]))
                && (ret != ESP_OK ==> queue == old(queue))
      ensures ret == ESP_OK || ret == ESP_FAIL
      ensures buffer.Some? && (forall j | 0 <= j < POLLS :: spaces(j) == RINGBUF_SIZE - |old(inputBuf.contents)|) ==>
                (Now(), ret) == Called(old(Now()), buffer.value)
    {
      if buffer.None? {
        return ESP_FAIL;
      }
      var granted := AwaitSpace(|buffer.value|, spaces);
      if !granted {
        assert spaces(0) < |buffer.value|;
        return ESP_FAIL;
      }
      var n := inputBuf.Send(buffer.value);
      if n != |buffer.value| {
        return ESP_FAIL;
      }
      ret := SendEvent(Event(Input, n));
    }
  }

  /**
   * The bounded wait: it succeeds exactly when one of the first five looks
   * finds room; a sixth look that does comes too late.
   */
  method AwaitSpace(len: nat, spaces: nat -> nat) returns (granted: bool)
    ensures granted <==> exists j | 0 <= j < POLLS :: spaces(j) >= len
  {
    var count := POLLS;
    var look := 0;
    while spaces(look) < len
      invariant count + look == POLLS
      invariant forall j | 0 <= j < look :: spaces(j) < len
      decreases count
    {
      if count == 0 {
        break;
      }
      count := count - 1;
      look := look + 1;
    }
    granted := count != 0;
  }

  // ------------------------------------------------------------ the code runs the machine

  /** The device shows what state s of the machine has in these places. */
  ghost predicate Shows(s: State, v: View) {
    && v.run == s.run && (v.queue == if s.queueUp then Some(s.queue) else None)
    && s.inb.read <= |s.inb.written| && v.input == s.inb.written[s.inb.read..] && v.output == s.outb.buffer
    && v.uart == s.inb.uart && v.handled == s.outb.delivered
  }

  /** Caller p polls in each state but the last, whatever the others do in between. */
  predicate Polls(states: seq<Inbound>, p: nat) {
    && (forall j | 0 <= j < |states| :: p < |states[j].callers|)
    && forall j | 0 <= j < |states| - 1 ::
         states[j].callers[p].Polling? && states[j + 1].callers[p] == CallerStep(states[j], p).callers[p]
  }

  /**
   * The machine's caller waits as AwaitSpace does: it is granted at the first of
   * five looks that finds room, and gives up at the sixth, room or not.
   */
  lemma {:induction false} PollsAsAwaited(states: seq<Inbound>, p: nat, data: seq<byte>)
    requires states != [] && Polls(states, p) && states[0].callers[p] == Polling(data, POLLS)
    ensures var n := |states| - 1;
            && n <= POLLS + 1
            && (forall j | 0 <= j < n - 1 && j < POLLS :: Spaces(states[j]) < |data|)
            && states[n].callers[p]
               == if n == POLLS + 1 then Idle
                  else if n > 0 && Spaces(states[n - 1]) >= |data| then Waiting(data)
                  else Polling(data, POLLS - n)
    decreases |states|
  {
    var n := |states| - 1;
    if n > 0 {
      PollsAsAwaited(states[..n], p, data);
      assert states[..n][n - 1].callers[p].Polling?;
    }
  }

  /** Caller p may start and finds the mutex free. */
  predicate MayCall(s: State, p: nat) {
    p < |s.inb.callers| && s.inb.callers[p].Idle? && s.inb.mutex.None? && (p == MAIN ==> s.main.Handling?)
  }

  /** One caller's way through esp_ncp_bus_input, step by step and undisturbed: it finds room ... */
  lemma CallFindsRoom(s: State, p: nat, data: seq<byte>) returns (t: State)
    requires Reachable(s) && MayCall(s, p) && |data| < 0x1_0000 && |data| <= Spaces(s.inb)
    ensures Reachable(t) && t == s.(inb := s.inb.(callers := s.inb.callers[p := Waiting(data)]))
  {
    LinkLaws.Advance(s, Begin(p, data));
    t := Apply(s, Begin(p, data));
    LinkLaws.Advance(t, Poll(p));
    t := Apply(t, Poll(p));
  }

  /** ... takes the mutex and looks at the head of the stream buffer ... */
  lemma CallEntersLock(s: State, p: nat, data: seq<byte>) returns (t: State)
    requires Reachable(s) && MayCall(s, p) && |data| < 0x1_0000 && |data| <= Spaces(s.inb)
    ensures Reachable(t)
    ensures t == s.(inb := s.inb.(mutex := Some(p),
                                  callers := s.inb.callers[p := Copying(data, |s.inb.written|, |data|)]))
  {
    t := CallFindsRoom(s, p, data);
    LinkLaws.Advance(t, Lock(p));
    t := Apply(t, Lock(p));
    LinkLaws.Advance(t, Measure(p));
    t := Apply(t, Measure(p));
  }

  /** ... writes, leaves the mutex and posts. */
  lemma CallGranted(s: State, p: nat, data: seq<byte>) returns (t: State)
    requires Reachable(s) && MayCall(s, p) && |data| < 0x1_0000 && |data| <= Spaces(s.inb)
    ensures Reachable(t)
    ensures t == s.(queue := if QueueTakes(s) then s.queue + [Event(Input, |data|)] else s.queue,
                    inb := s.inb.(written := s.inb.written + data, sends := s.inb.sends + [data]))
  {
    t := CallEntersLock(s, p, data);
    LinkLaws.Advance(t, Store(p));
    t := Apply(t, Store(p));
    LinkLaws.Advance(t, Unlock(p));
    t := Apply(t, Unlock(p));
    LinkLaws.Advance(t, Post(p));
    t := Apply(t, Post(p));
    assert t.inb.callers == s.inb.callers;
  }

  /** A call of esp_ncp_bus_input leads from a reachable state to a reachable state. */
  lemma CallSimulates(s: State, v: View, p: nat, data: seq<byte>) returns (t: State)
    requires Reachable(s) && Shows(s, v) && MayCall(s, p) && |data| < 0x1_0000
    ensures Reachable(t) && Shows(t, Called(v, data).0)
    ensures t.main == s.main && t.outb == s.outb && t.inb.callers == s.inb.callers && t.inb.mutex == s.inb.mutex
    ensures t.inb.sends == s.inb.sends + if Spaces(s.inb) < |data| then [] else [data]
  {
    if Spaces(s.inb) < |data| {
      t := s;
    } else {
      t := CallGranted(s, p, data);
      assert t.inb.written[s.inb.read..] == s.inb.written[s.inb.read..] + data;
    }
  }

  /** What a turn writes into input_buf: the reply to a chunk received in full, if it fits. */
  function Written(v: View, ev: Event, reply: Option<seq<byte>>): seq<seq<byte>> {
    if ev.kind.Output? && ev.size <= |v.output| && reply.Some? && |v.input| + |reply.value| <= RINGBUF_SIZE then
      [reply.value]
    else []
  }

  /** A turn of the main loop, undisturbed, leads from a reachable state to a reachable state. */
  lemma TurnSimulates(s: State, v: View, taken: nat, reply: Option<seq<byte>>, strict: bool) returns (t: State)
    requires Reachable(s) && Shows(s, v) && s.main.Listening? && v.queue.Some? && v.queue.value != []
    requires s.inb.callers != [] && s.inb.callers[MAIN].Idle? && s.inb.mutex.None?
    requires taken <= v.queue.value[0].size && (reply.Some? ==> |reply.value| < 0x1_0000)
    ensures var (w, ret) := Turned(v, taken, reply, strict);
            Reachable(t) && Shows(t, w) && t.main == if ret == ESP_OK then Listening else Stopped
    ensures t.inb.sends == s.inb.sends + Written(v, v.queue.value[0], reply)
  {
    LinkLaws.Advance(s, Dequeue);
    var ev, s1 := s.queue[0], Apply(s, Dequeue);
    var v1 := v.(queue := Some(v.queue.value[1..]));
    if ev.kind.Input? {
      t := InputTurn(s1, v1, taken, reply, strict);
    } else {
      t := OutputTurn(s1, v1, taken, reply, strict);
    }
  }

  lemma InputReceived(s: State) returns (t: State)
    requires Reachable(s) && s.main.Taken? && s.main.ev.kind.Input?
    ensures Reachable(t) && s.inb.read + s.main.ev.size <= |s.inb.written|
    ensures var to := s.inb.read + s.main.ev.size;
            t == s.(main := Writing(s.inb.written[s.inb.read..to]), inb := s.inb.(read := to))
  {
    ReachableInv(s);
    ReceiveInput(s);
    LinkLaws.Advance(s, Receive);
    t := Apply(s, Receive);
  }

  lemma InputRun(s: State, taken: nat) returns (t: State)
    requires Reachable(s) && s.main.Taken? && s.main.ev.kind.Input? && taken <= s.main.ev.size
    ensures Reachable(t) && s.inb.read + s.main.ev.size <= |s.inb.written|
    ensures var n := s.main.ev.size;
            var inb := s.inb.(read := s.inb.read + n,
                              uart := s.inb.uart + s.inb.written[s.inb.read..s.inb.read + n][..taken]);
            t == if taken == n then s.(main := Listening, inb := inb) else EndTask(s).(inb := inb)
  {
    var ok := taken == s.main.ev.size;
    t := InputReceived(s);
    LinkLaws.Advance(t, WriteUart(ok, taken));
    t := Apply(t, WriteUart(ok, taken));
  }

  /** An INPUT event: the machine's invariant rules the short receive out. */
  lemma InputTurn(s: State, v: View, taken: nat, reply: Option<seq<byte>>, strict: bool) returns (t: State)
    requires Reachable(s) && Shows(s, v) && s.queueUp && s.main.Taken? && s.main.ev.kind.Input?
             && taken <= s.main.ev.size
    ensures s.main.ev.size <= |v.input| && t.inb.sends == s.inb.sends
    ensures var (w, ret) := Concluded(v, s.main.ev, taken, reply, strict);
            Reachable(t) && Shows(t, w) && t.main == if ret == ESP_OK then Listening else Stopped
  {
    t := InputRun(s, taken);
    var n := s.main.ev.size;
    SliceJoin(s.inb.written, s.inb.read, n);
    assert s.inb.written[s.inb.read..][n..] == s.inb.written[s.inb.read + n..];
  }

  lemma OutputTurn(s: State, v: View, taken: nat, reply: Option<seq<byte>>, strict: bool) returns (t: State)
    requires Reachable(s) && Shows(s, v) && s.queueUp && s.main.Taken? && s.main.ev.kind.Output?
             && taken <= s.main.ev.size
    requires s.inb.callers != [] && s.inb.callers[MAIN].Idle? && s.inb.mutex.None?
    requires reply.Some? ==> |reply.value| < 0x1_0000
    ensures var (w, ret) := Concluded(v, s.main.ev, taken, reply, strict);
            Reachable(t) && Shows(t, w) && t.main == if ret == ESP_OK then Listening else Stopped
    ensures t.inb.sends == s.inb.sends + Written(v, s.main.ev, reply)
  {
    LinkLaws.Advance(s, Receive);
    t := Apply(s, Receive);
    var data := Take(v.output, s.main.ev.size);
    if |data| == s.main.ev.size {
      var v1 := v.(output := v.output[|data|..], handled := v.handled + [data]);
      var (w, ret) := Answered(v1, reply, strict);
      if reply.Some? {
        t := CallSimulates(t, v1, MAIN, reply.value);
      }
      LinkLaws.Advance(t, EndHandling(ret == ESP_OK));
      t := Apply(t, EndHandling(ret == ESP_OK));
    }
  }
}
