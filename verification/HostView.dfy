/**
 * What the host reads while the device answers (esp_ncp_frame.c on top of
 * esp_ncp_bus.c and esp_ncp_main.c): the host cuts and decodes as the device
 * does, and keeps the packets of type 1.
 */
module HostView {
  import opened Common
  import opened Slip
  import opened Uart
  import opened Frame
  import opened Link
  import opened LinkLaws
  import opened Responses

  // ------------------------------------------------------------ the answers to a list of requests

  function Served(d: Script, rs: seq<Request>, i: nat): Answer
    requires SoundScript(d) && i < |rs|
  {
    Serve(d.At(i), rs[i].header, Payload(rs[i].payload), d.randoms(i))
  }

  /** The answers to requests, one after the other; a request for an unknown id has none. */
  function Answers(d: Script, rs: seq<Request>): seq<Request>
    requires SoundScript(d)
  {
    if rs == [] then []
    else
      var n := |rs| - 1;
      Answers(d, rs[..n]) + match Served(d, rs, n) { case Silent => [] case Reply(h, payload) => [Request(h, payload)] }
  }

  /** Every answer survives the encoder. */
  ghost predicate AnswersFit(d: Script, rs: seq<Request>)
    requires SoundScript(d)
  {
    forall i | 0 <= i < |rs| ::
      var a := Served(d, rs, i); a.Reply? ==> Fits(FrameBytes(d.crc, a.header, a.payload))
  }

  /** Chunk i carries request i. */
  ghost predicate Carries(d: Script, chunks: seq<seq<byte>>, rs: seq<Request>)
    requires SoundScript(d)
  {
    && |chunks| == |rs|
    && forall i | 0 <= i < |rs| :: AnswerTo(d.At(i), Some(chunks[i]), d.randoms(i)) == Served(d, rs, i)
  }

  predicate IsAnswer(a: Request) {
    a.header.frameType == RESPONSE && a.header.len == |a.payload|
  }

  lemma FramesSnoc(crc: Crc, front: seq<Request>, last: Request)
    ensures FramedAll(Packets(crc, front + [last]))
         == FramedAll(Packets(crc, front)) + [Framed(FrameBytes(crc, last.header, last.payload))]
  {
  }

  lemma ReplyCarried(d: Script, chunk: seq<byte>, rs: seq<Request>, n: nat)
    requires SoundScript(d) && n < |rs| && AnswersFit(d, rs)
    requires AnswerTo(d.At(n), Some(chunk), d.randoms(n)) == Served(d, rs, n)
    ensures ReplyTo(d, chunk, n) == match Served(d, rs, n) {
        case Silent => []
        case Reply(h, payload) => [Framed(FrameBytes(d.crc, h, payload))]
      }
    ensures var a := Served(d, rs, n); a.Reply? ==> IsAnswer(Request(a.header, a.payload))
  {
    var a := Served(d, rs, n);
    if a.Reply? {
      EncodingComplete(FrameBytes(d.crc, a.header, a.payload));
    }
  }

  /** The buffers sent for chunks that carry requests are the complete packets of the answers. */
  lemma {:induction false} RepliesAreAnswers(d: Script, chunks: seq<seq<byte>>, rs: seq<Request>)
    requires SoundScript(d) && Carries(d, chunks, rs) && AnswersFit(d, rs)
    ensures Replies(d, chunks) == FramedAll(Packets(d.crc, Answers(d, rs)))
    ensures forall a | a in Answers(d, rs) :: IsAnswer(a)
    decreases |rs|
  {
    if rs != [] {
      var n := |rs| - 1;
      assert forall i | 0 <= i < n :: Served(d, rs[..n], i) == Served(d, rs, i);
      RepliesAreAnswers(d, chunks[..n], rs[..n]);
      ReplyCarried(d, chunks[n], rs, n);
      var a := Served(d, rs, n);
      if a.Reply? {
        FramesSnoc(d.crc, Answers(d, rs[..n]), Request(a.header, a.payload));
      }
    }
  }

  lemma RequestsCarried(d: Script, s: State, rs: seq<Request>)
    requires SoundScript(d) && Reachable(s) && s.outb.intact && !s.outb.flushed
    requires forall r | r in rs :: Sendable(d.crc, r)
    requires s.outb.arrived <= Transmission(Packets(d.crc, rs))
    ensures |s.outb.delivered| <= |rs| && Carries(d, s.outb.delivered, rs[..|s.outb.delivered|])
  {
    RequestsAreServedInOrder(s, d.At(0), rs, 0);
    var served := rs[..|s.outb.delivered|];
    forall i | 0 <= i < |served|
      ensures AnswerTo(d.At(i), Some(s.outb.delivered[i]), d.randoms(i)) == Served(d, served, i)
    {
      RequestsAreServedInOrder(s, d.At(i), rs, d.randoms(i));
    }
  }

  // ------------------------------------------------------------ responses among other packets

  predicate IsPacketOf(crc: Crc, data: seq<byte>, r: Request) {
    r.header.len == |r.payload| && data == Framed(FrameBytes(crc, r.header, r.payload))
  }

  /** A complete packet, of type 1 or of another type. */
  ghost predicate IsPacket(crc: Crc, data: seq<byte>, response: bool) {
    exists r :: IsPacketOf(crc, data, r) && (r.header.frameType == RESPONSE <==> response)
  }

  /** What the host takes for a response. */
  predicate IsResponse(crc: Crc, chunk: seq<byte>) {
    var v := Examine(crc, Decode(chunk));
    v.Accepted? && v.header.frameType == RESPONSE
  }

  function ResponsesIn(crc: Crc, chunks: seq<seq<byte>>): seq<seq<byte>> {
    if chunks == [] then []
    else
      var n := |chunks| - 1;
      ResponsesIn(crc, chunks[..n]) + if IsResponse(crc, chunks[n]) then [chunks[n]] else []
  }

  lemma PacketReads(crc: Crc, data: seq<byte>, r: Request)
    requires IsPacketOf(crc, data, r)
    ensures IsChunk(data) && Halts(data) && Examine(crc, Decode(data)) == Accepted(r.header, Payload(r.payload))
  {
    FramedIsChunk(FrameBytes(crc, r.header, r.payload));
    DecodeFramed(FrameBytes(crc, r.header, r.payload));
    ExamineFrame(crc, r.header, r.payload);
  }

  lemma PacketIsChunk(crc: Crc, data: seq<byte>, response: bool)
    requires IsPacket(crc, data, response)
    ensures IsChunk(data) && (IsResponse(crc, data) <==> response)
  {
    var r :| IsPacketOf(crc, data, r) && (r.header.frameType == RESPONSE <==> response);
    PacketReads(crc, data, r);
  }

  /** Each write is a complete packet, a response exactly when the main task made it. */
  ghost predicate WellSent(crc: Crc, sends: seq<seq<byte>>, writers: seq<nat>) {
    |sends| == |writers| && forall i | 0 <= i < |sends| :: IsPacket(crc, sends[i], writers[i] == MAIN)
  }

  lemma SentAreChunks(crc: Crc, sends: seq<seq<byte>>, writers: seq<nat>)
    requires WellSent(crc, sends, writers)
    ensures AllChunks(sends)
    ensures forall i | 0 <= i < |sends| :: IsResponse(crc, sends[i]) <==> writers[i] == MAIN
  {
    forall i | 0 <= i < |sends|
      ensures IsChunk(sends[i]) && (IsResponse(crc, sends[i]) <==> writers[i] == MAIN)
    {
      PacketIsChunk(crc, sends[i], writers[i] == MAIN);
    }
  }

  lemma {:induction false} ResponsesAreByMain(crc: Crc, sends: seq<seq<byte>>, writers: seq<nat>)
    requires |sends| == |writers|
    requires forall i | 0 <= i < |sends| :: IsResponse(crc, sends[i]) <==> writers[i] == MAIN
    ensures ResponsesIn(crc, sends) == ByMain(sends, writers)
  {
    if sends != [] {
      var n := |sends| - 1;
      ResponsesAreByMain(crc, sends[..n], writers[..n]);
    }
  }

  lemma {:induction false} ResponsesOfPrefix(crc: Crc, chunks: seq<seq<byte>>, k: nat)
    requires k <= |chunks|
    ensures ResponsesIn(crc, chunks[..k]) <= ResponsesIn(crc, chunks)
    decreases |chunks|
  {
    if k == |chunks| {
      assert chunks[..k] == chunks;
    } else {
      var n := |chunks| - 1;
      ResponsesOfPrefix(crc, chunks[..n], k);
      assert chunks[..n][..k] == chunks[..k];
    }
  }

  lemma CutsOfChunks(cs: seq<seq<byte>>)
    requires AllChunks(cs)
    ensures Cuts(Flatten(cs)) == cs && Rest(Flatten(cs)) == []
  {
    ChunksComeOff(cs, []);
    assert Flatten(cs) + [] == Flatten(cs) && cs + Cuts([]) == cs;
  }

  /** The host has cut off the first of the packets sent, and finds among them the first of the responses. */
  lemma HostCuts(crc: Crc, uart: seq<byte>, sends: seq<seq<byte>>, writers: seq<nat>)
    requires WellSent(crc, sends, writers) && uart <= Flatten(sends)
    ensures Cuts(uart) <= sends && ResponsesIn(crc, Cuts(uart)) <= ByMain(sends, writers)
    ensures uart == Flatten(sends) ==> ResponsesIn(crc, Cuts(uart)) == ByMain(sends, writers) && Rest(uart) == []
  {
    SentAreChunks(crc, sends, writers);
    ResponsesAreByMain(crc, sends, writers);
    CutsOfChunks(sends);
    assert Cuts(uart) <= sends by {
      PrefixCuts(uart, Flatten(sends));
    }
    assert sends[..|Cuts(uart)|] == Cuts(uart);
    ResponsesOfPrefix(crc, sends, |Cuts(uart)|);
  }

  // ------------------------------------------------------------ runs on which the others send no responses

  /** The other callers send complete packets of other types: notifications. */
  ghost predicate OthersNotify(d: Script, steps: seq<Step>) {
    forall step | step in steps && step.Begin? && step.p != MAIN :: IsPacket(d.crc, step.data, false)
  }

  ghost predicate NotesInv(d: Script, s: State, h: History) {
    && |h.writers| == |s.inb.sends|
    && (forall p | 0 < p < |s.inb.callers| :: forall data | data in Carried(s.inb.callers[p]) ::
          IsPacket(d.crc, data, false))
    && (!h.short ==> forall i | 0 <= i < |h.writers| && h.writers[i] != MAIN :: IsPacket(d.crc, s.inb.sends[i], false))
  }

  lemma StoreKeepsNotes(d: Script, s: State, h: History, step: Step)
    requires Enabled(s, step) && NotesInv(d, s, h) && step.Store?
    ensures NotesInv(d, Apply(s, step), Recorded(s, h, step))
  {
    var c := s.inb.callers[step.p];
    assert c.data in Carried(c);
    assert c.n >= |c.data| ==> Take(c.data, c.n) == c.data;
    assert Carried(Apply(s, step).inb.callers[step.p]) == [];
  }

  lemma CallKeepsNotes(d: Script, s: State, h: History, step: Step)
    requires Enabled(s, step) && NotesInv(d, s, h)
    requires step.Begin? || step.Poll? || step.Lock? || step.Measure? || step.Unlock? || step.Post?
    requires step.Begin? && step.p != MAIN ==> IsPacket(d.crc, step.data, false)
    ensures NotesInv(d, Apply(s, step), Recorded(s, h, step))
  {
    var t := Apply(s, step);
    assert t.inb.sends == s.inb.sends && Recorded(s, h, step).writers == h.writers;
    assert Carried(t.inb.callers[step.p])
        <= if step.Begin? then [step.data] else Carried(s.inb.callers[step.p]);
  }

  lemma StepKeepsNotes(d: Script, s: State, h: History, step: Step)
    requires Enabled(s, step) && NotesInv(d, s, h)
    requires step.Begin? && step.p != MAIN ==> IsPacket(d.crc, step.data, false)
    ensures NotesInv(d, Apply(s, step), Recorded(s, h, step))
  {
    if step.Store? {
      StoreKeepsNotes(d, s, h, step);
    } else if step.Begin? || step.Poll? || step.Lock? || step.Measure? || step.Unlock? || step.Post? {
      CallKeepsNotes(d, s, h, step);
    } else {
      assert Apply(s, step).inb.callers == s.inb.callers && Apply(s, step).inb.sends == s.inb.sends;
    }
  }

  lemma {:induction false} RunKeepsNotes(d: Script, s: State, h: History, steps: seq<Step>)
    requires NotesInv(d, s, h) && OthersNotify(d, steps) && Run(s, h, steps).Some?
    ensures var (t, u) := Run(s, h, steps).value; NotesInv(d, t, u)
    decreases |steps|
  {
    if steps != [] {
      assert steps[0] in steps;
      StepKeepsNotes(d, s, h, steps[0]);
      RunKeepsNotes(d, Apply(s, steps[0]), Recorded(s, h, steps[0]), steps[1..]);
    }
  }

  lemma {:induction false} MainWrites(sends: seq<seq<byte>>, writers: seq<nat>, i: nat)
    requires |sends| == |writers| && i < |sends| && writers[i] == MAIN
    ensures sends[i] in ByMain(sends, writers)
  {
    var n := |sends| - 1;
    if i < n {
      MainWrites(sends[..n], writers[..n], i);
    }
  }

  lemma AnswersAreResponses(crc: Crc, answers: seq<Request>, data: seq<byte>)
    requires (forall a | a in answers :: IsAnswer(a)) && data in FramedAll(Packets(crc, answers))
    ensures IsPacket(crc, data, true)
  {
    var i :| 0 <= i < |answers| && data == FramedAll(Packets(crc, answers))[i];
    assert answers[i] in answers;
    assert IsPacketOf(crc, data, answers[i]);
  }

  lemma AllWellSent(d: Script, s: State, h: History, answers: seq<Request>)
    requires NotesInv(d, s, h) && !h.short && forall a | a in answers :: IsAnswer(a)
    requires ByMain(s.inb.sends, h.writers) <= FramedAll(Packets(d.crc, answers))
    ensures WellSent(d.crc, s.inb.sends, h.writers)
  {
    forall i | 0 <= i < |s.inb.sends|
      ensures IsPacket(d.crc, s.inb.sends[i], h.writers[i] == MAIN)
    {
      if h.writers[i] == MAIN {
        MainWrites(s.inb.sends, h.writers, i);
        AnswersAreResponses(d.crc, answers, s.inb.sends[i]);
      }
    }
  }

  // ------------------------------------------------------------ from the host and back

  /** A run from the start on which every task keeps to its part. */
  ghost predicate Plays(d: Script, callers: nat, steps: seq<Step>) {
    && SoundScript(d) && AllAllowed(d, Init(callers), NOTHING_YET, steps) && OthersNotify(d, steps)
    && Run(Init(callers), NOTHING_YET, steps).Some?
  }

  function End(callers: nat, steps: seq<Step>): (State, History)
    requires Run(Init(callers), NOTHING_YET, steps).Some?
  {
    Run(Init(callers), NOTHING_YET, steps).value
  }

  /** Nothing was lost on the way in or out, and the host sends frames that fit, and nothing else. */
  ghost predicate Undisturbed(d: Script, rs: seq<Request>, s: State, h: History)
    requires SoundScript(d)
  {
    && !h.refused && !h.short && s.outb.intact && !s.outb.flushed
    && (forall r | r in rs :: Sendable(d.crc, r)) && AnswersFit(d, rs)
    && s.outb.arrived <= Transmission(Packets(d.crc, rs))
  }

  lemma AnswersFitPrefix(d: Script, rs: seq<Request>, n: nat)
    requires SoundScript(d) && AnswersFit(d, rs) && n <= |rs|
    ensures AnswersFit(d, rs[..n])
  {
    forall i | 0 <= i < n
      ensures var a := Served(d, rs[..n], i); a.Reply? ==> Fits(FrameBytes(d.crc, a.header, a.payload))
    {
      assert Served(d, rs[..n], i) == Served(d, rs, i);
    }
  }

  /** Answers and notifications are all that was written, and the answers are those due so far. */
  ghost predicate Written(d: Script, rs: seq<Request>, s: State, h: History) {
    && SoundScript(d) && Reachable(s) && RunInvariant(d, s, h) && |s.outb.delivered| <= |rs|
    && WellSent(d.crc, s.inb.sends, h.writers)
    && var answers := Answers(d, rs[..|s.outb.delivered|]);
       && (forall a | a in answers :: IsAnswer(a))
       && Replies(d, s.outb.delivered) == FramedAll(Packets(d.crc, answers))
       && ByMain(s.inb.sends, h.writers) <= FramedAll(Packets(d.crc, answers))
  }

  lemma PacketsWritten(d: Script, callers: nat, steps: seq<Step>, rs: seq<Request>)
    requires Plays(d, callers, steps)
    requires var (s, h) := End(callers, steps); Undisturbed(d, rs, s, h)
    ensures var (s, h) := End(callers, steps); Written(d, rs, s, h)
  {
    var (s, h) := End(callers, steps);
    FromTheStart(d, callers, steps);
    WrittenAnswers(d, s, h);
    RequestsCarried(d, s, rs);
    var served := rs[..|s.outb.delivered|];
    AnswersFitPrefix(d, rs, |s.outb.delivered|);
    RepliesAreAnswers(d, s.outb.delivered, served);
    RunKeepsNotes(d, Init(callers), NOTHING_YET, steps);
    AllWellSent(d, s, h, Answers(d, served));
  }

  /** Packet by packet, `got` reads back as `answers`. */
  predicate ReadBack(crc: Crc, got: seq<seq<byte>>, answers: seq<Request>) {
    && |got| <= |answers|
    && forall i | 0 <= i < |got| ::
         && Halts(got[i])
         && Examine(crc, Decode(got[i])) == Accepted(answers[i].header, Payload(answers[i].payload))
  }

  lemma FramesReadBack(crc: Crc, got: seq<seq<byte>>, answers: seq<Request>)
    requires got <= FramedAll(Packets(crc, answers)) && forall a | a in answers :: IsAnswer(a)
    ensures ReadBack(crc, got, answers)
  {
    forall i | 0 <= i < |got|
      ensures Halts(got[i]) && Examine(crc, Decode(got[i])) == Accepted(answers[i].header, Payload(answers[i].payload))
    {
      assert answers[i] in answers;
      PacketReads(crc, got[i], answers[i]);
    }
  }

  /**
   * At any moment of any such run, with any number of other senders: the packets
   * of type 1 that the host has read are the answers to its requests, in order,
   * each with its own header and payload.
   */
  lemma HostReadsAnswers(d: Script, callers: nat, steps: seq<Step>, rs: seq<Request>)
    requires Plays(d, callers, steps)
    requires var (s, h) := End(callers, steps); Undisturbed(d, rs, s, h)
    ensures var (s, _) := End(callers, steps);
            && |s.outb.delivered| <= |rs|
            && ReadBack(d.crc, ResponsesIn(d.crc, Cuts(s.inb.uart)), Answers(d, rs[..|s.outb.delivered|]))
  {
    var (s, h) := End(callers, steps);
    PacketsWritten(d, callers, steps, rs);
    UartIsPrefixOfWrites(s);
    HostCuts(d.crc, s.inb.uart, s.inb.sends, h.writers);
    FramesReadBack(d.crc, ResponsesIn(d.crc, Cuts(s.inb.uart)), Answers(d, rs[..|s.outb.delivered|]));
  }

  // ------------------------------------------------------------ at rest

  /** No task has anything left to do until a byte arrives or somebody calls. */
  predicate AtRest(s: State) {
    && s.main.Listening? && s.queue == [] && s.outb.task.Watching? && !Enabled(s, Detect)
    && forall p | 0 <= p < |s.inb.callers| :: s.inb.callers[p].Idle?
  }

  lemma NextCut(cuts: seq<seq<byte>>, rx: seq<byte>, ds: seq<seq<byte>>)
    requires cuts + Cuts(rx) == FramedAll(ds) && Cuts(rx) != []
    ensures |cuts| < |ds| && CutAt(rx) == |Framed(ds[|cuts|])|
  {
    assert Cuts(rx)[0] == FramedAll(ds)[|cuts|];
  }

  lemma PacketsAreSmall(crc: Crc, rs: seq<Request>, i: nat)
    requires i < |rs| && forall r | r in rs :: Sendable(crc, r)
    ensures |Framed(Packets(crc, rs)[i])| <= BUS_BUF_SIZE
  {
    assert rs[i] in rs;
  }

  /** What has been cut and what could still be cut are the packets sent. */
  lemma CutsSent(crc: Crc, arrived: seq<byte>, cuts: seq<seq<byte>>, rx: seq<byte>, rs: seq<Request>)
    requires AllChunks(cuts)
    requires arrived == Flatten(cuts) + rx
    requires arrived == Transmission(Packets(crc, rs))
    requires forall r | r in rs :: Sendable(crc, r)
    ensures cuts + Cuts(rx) == FramedAll(Packets(crc, rs))
  {
    PacketsFit(crc, rs);
    TransmissionIsWire(Packets(crc, rs));
    ChunksComeOff(cuts, rx);
    CutsOfWire(Packets(crc, rs));
  }

  /** When no cut of the rest is small enough to take, all the small packets have been cut. */
  lemma AllCut(crc: Crc, arrived: seq<byte>, cuts: seq<seq<byte>>, rx: seq<byte>, rs: seq<Request>)
    requires AllChunks(cuts) && arrived == Flatten(cuts) + rx && arrived == Transmission(Packets(crc, rs))
    requires forall r | r in rs :: Sendable(crc, r)
    requires Cuts(rx) != [] ==> CutAt(rx) > BUS_BUF_SIZE
    ensures |cuts| == |rs|
  {
    assert cuts + Cuts(rx) == FramedAll(Packets(crc, rs)) by {
      CutsSent(crc, arrived, cuts, rx, rs);
    }
    if Cuts(rx) != [] {
      NextCut(cuts, rx, Packets(crc, rs));
      PacketsAreSmall(crc, rs, |cuts|);
    }
  }

  /** With no size due, every chunk cut was delivered. */
  lemma NoneDue(s: State)
    requires OutboundInv(s) && s.outb.intact && s.main.Listening? && s.queue == [] && s.outb.task.Watching?
    ensures s.outb.delivered == s.outb.cuts
  {
    assert |Lengths(Pending(s.outb))| == |DueSizes(s)|;
    assert DueSizes(s) == [];
  }

  /** At rest every request has been cut off and delivered. */
  lemma AllDelivered(crc: Crc, s: State, rs: seq<Request>)
    requires Reachable(s) && AtRest(s) && s.outb.intact && !s.outb.flushed
    requires forall r | r in rs :: Sendable(crc, r)
    requires s.outb.arrived == Transmission(Packets(crc, rs))
    ensures |s.outb.delivered| == |rs|
  {
    var o := s.outb;
    assert o.delivered == o.cuts && AllChunks(o.cuts) && o.arrived == Flatten(o.cuts) + o.rx by {
      ReachableInv(s);
      NoneDue(s);
    }
    assert Cuts(o.rx) != [] ==> CutAt(o.rx) > BUS_BUF_SIZE by {
      assert !Enabled(s, Detect);
    }
    AllCut(crc, o.arrived, o.cuts, o.rx, rs);
  }

  /** When the UART has been given everything, the host has read everything. */
  lemma AllRead(d: Script, s: State, h: History, answers: seq<Request>)
    requires SoundScript(d) && RunInvariant(d, s, h) && !h.refused && s.main.Listening?
    requires WellSent(d.crc, s.inb.sends, h.writers) && s.inb.uart == Flatten(s.inb.sends)
    requires Replies(d, s.outb.delivered) == FramedAll(Packets(d.crc, answers))
    requires forall a | a in answers :: IsAnswer(a)
    ensures var got := ResponsesIn(d.crc, Cuts(s.inb.uart));
            Rest(s.inb.uart) == [] && |got| == |answers| && ReadBack(d.crc, got, answers)
  {
    WrittenAnswers(d, s, h);
    HostCuts(d.crc, s.inb.uart, s.inb.sends, h.writers);
    FramesReadBack(d.crc, ResponsesIn(d.crc, Cuts(s.inb.uart)), answers);
  }

  lemma AnsweredAtRest(d: Script, s: State, h: History, rs: seq<Request>)
    requires Written(d, rs, s, h) && Undisturbed(d, rs, s, h) && !h.unposted && AtRest(s)
    requires s.outb.arrived == Transmission(Packets(d.crc, rs))
    ensures var got, answers := ResponsesIn(d.crc, Cuts(s.inb.uart)), Answers(d, rs);
            && |s.outb.delivered| == |rs| && Rest(s.inb.uart) == []
            && |got| == |answers| && ReadBack(d.crc, got, answers)
  {
    assert |s.outb.delivered| == |rs| && rs[..|rs|] == rs by {
      AllDelivered(d.crc, s, rs);
    }
    AllHandedOver(s, h);
    AllRead(d, s, h, Answers(d, rs));
  }

  /**
   * Once such a run has come to rest, with all the requests on the line and no
   * INPUT event refused, every request was handled and the packets of type 1
   * the host has read are all the answers, nothing more and nothing less.
   */
  lemma EveryRequestIsAnswered(d: Script, callers: nat, steps: seq<Step>, rs: seq<Request>)
    requires Plays(d, callers, steps)
    requires var (s, h) := End(callers, steps);
             && Undisturbed(d, rs, s, h) && !h.unposted && AtRest(s)
             && s.outb.arrived == Transmission(Packets(d.crc, rs))
    ensures var (s, _) := End(callers, steps);
            var got, answers := ResponsesIn(d.crc, Cuts(s.inb.uart)), Answers(d, rs);
            && |s.outb.delivered| == |rs| && Rest(s.inb.uart) == []
            && |got| == |answers| && ReadBack(d.crc, got, answers)
  {
    var (s, h) := End(callers, steps);
    PacketsWritten(d, callers, steps, rs);
    AnsweredAtRest(d, s, h, rs);
  }
}
