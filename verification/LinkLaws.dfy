/** What holds on every run of the NCP's tasks, from the UART bytes to the frames and back. */
module LinkLaws {
  import opened Common
  import opened Slip
  import opened Uart
  import opened Frame
  import opened Link

  // ------------------------------------------------------------ towards the host

  /**
   * Whatever the interleaving and whichever posts are refused: announced
   * sizes never exceed the buffered bytes, every stream write stays
   * contiguous, and the UART has been given a prefix of those writes in the
   * order in which the mutex let them in.
   */
  lemma UartIsPrefixOfWrites(s: State)
    requires Reachable(s)
    ensures Announced(s) <= Buffered(s.inb)
    ensures s.inb.written == Flatten(s.inb.sends)
    ensures s.inb.uart <= Flatten(s.inb.sends)
  {
    ReachableInv(s);
    PrefixOfAppend(s.inb.uart, s.inb.written[..s.inb.read], s.inb.written[s.inb.read..]);
    assert s.inb.written[..s.inb.read] + s.inb.written[s.inb.read..] == s.inb.written;
  }

  /** An INPUT event always receives its full size: the short-receive branch is dead on that side. */
  lemma InputEventsAreFull(s: State)
    requires Reachable(s) && s.main.Taken? && s.main.ev.kind.Input?
    ensures var t := Apply(s, Receive);
            t.main.Writing? && |t.main.data| == s.main.ev.size && t.inb.read == s.inb.read + s.main.ev.size
  {
    ReachableInv(s);
    ReceiveInput(s);
  }

  /** The mutex does its job: two callers are never inside it together. */
  lemma MutualExclusion(s: State, p: nat, q: nat)
    requires Reachable(s) && p < |s.inb.callers| && q < |s.inb.callers|
    requires InLock(s.inb.callers[p]) && InLock(s.inb.callers[q])
    ensures p == q
  {
    ReachableInv(s);
  }

  lemma {:induction false} FlatFrames(ds: seq<seq<byte>>)
    ensures Flatten(FramedAll(ds)) == Wire(ds)
  {
    if ds != [] {
      FlatFrames(ds[1..]);
      assert FramedAll(ds)[1..] == FramedAll(ds[1..]);
    }
  }

  /**
   * What the UART has been given so far, cut at END markers, are complete
   * packets: those written into the stream buffer, in the order of the mutex.
   */
  lemma PacketsReachHost(s: State, ds: seq<seq<byte>>)
    requires Reachable(s) && s.inb.sends <= FramedAll(ds)
    ensures var got := Cuts(s.inb.uart);
            |got| <= |ds| && forall i | 0 <= i < |got| :: Halts(got[i]) && Decode(got[i]) == ds[i]
  {
    assert s.inb.uart <= Wire(ds) by {
      UartIsPrefixOfWrites(s);
      PrefixOfFrames(s.inb.uart, s.inb.sends, ds);
    }
    PrefixCuts(s.inb.uart, Wire(ds));
    CutsOfWire(ds);
    FramedDecodes(ds);
  }

  lemma PrefixOfFrames(uart: seq<byte>, sends: seq<seq<byte>>, ds: seq<seq<byte>>)
    requires uart <= Flatten(sends) && sends <= FramedAll(ds)
    ensures uart <= Wire(ds)
  {
    var rest := FramedAll(ds)[|sends|..];
    assert FramedAll(ds) == sends + rest;
    FlattenAppend(sends, rest);
    FlatFrames(ds);
    PrefixOfAppend(uart, Flatten(sends), Flatten(rest));
  }

  lemma PrefixCuts(part: seq<byte>, whole: seq<byte>)
    requires part <= whole
    ensures Cuts(part) <= Cuts(whole)
  {
    assert part + whole[|part|..] == whole;
    CutsGrow(part, whole[|part|..]);
  }

  // ------------------------------------------------------------ from the host

  /**
   * With nothing lost on the way in, output_buf is the pending chunks and an
   * OUTPUT event yields exactly the next one, on which the decoder finishes.
   */
  lemma OneChunkPerOutputEvent(s: State)
    requires Reachable(s) && s.outb.intact && !s.main.Stopped?
    ensures s.outb.buffer == Flatten(Pending(s.outb)) && DueSizes(s) == Lengths(Pending(s.outb))
    ensures s.main.Taken? && s.main.ev.kind.Output? ==>
              && |s.outb.delivered| < |s.outb.cuts|
                 && Apply(s, Receive).main == Handling(s.outb.cuts[|s.outb.delivered|])
              && IsChunk(s.outb.cuts[|s.outb.delivered|]) && Halts(s.outb.cuts[|s.outb.delivered|])
  {
    ReachableInv(s);
    if s.main.Taken? && s.main.ev.kind.Output? {
      ReceiveDelivers(s);
      ChunksHalt(s.outb.cuts[|s.outb.delivered|]);
    }
  }

  lemma ComesOffGrowing(cuts: seq<seq<byte>>, rx: seq<byte>, sent: seq<byte>)
    requires AllChunks(cuts) && Flatten(cuts) + rx <= sent
    ensures cuts <= Cuts(sent)
  {
    var n := |Flatten(cuts)|;
    assert sent == Flatten(cuts) + sent[n..];
    ChunksComeOff(cuts, sent[n..]);
  }

  lemma CutsSoFar(s: State, sent: seq<byte>)
    requires Reachable(s) && !s.outb.flushed && s.outb.arrived <= sent
    ensures s.outb.cuts <= Cuts(sent)
  {
    ReachableInv(s);
    ComesOffGrowing(s.outb.cuts, s.outb.rx, sent);
  }

  /**
   * From wire to frame layer on every run: once the chunks that line noise
   * costs are through, the i-th chunk delivered decodes to the i-th packet.
   */
  lemma PacketsArriveInOrder(s: State, noise: seq<byte>, ds: seq<seq<byte>>)
    requires Reachable(s) && s.outb.intact && !s.outb.flushed
    requires forall d | d in ds :: d != []
    requires s.outb.arrived <= noise + Wire(ds)
    ensures |s.outb.delivered| <= Junk(noise, ds) + |ds|
    ensures forall i | Junk(noise, ds) <= i < |s.outb.delivered| ::
              Halts(s.outb.delivered[i]) && Decode(s.outb.delivered[i]) == ds[i - Junk(noise, ds)]
  {
    assert s.outb.delivered <= s.outb.cuts by {
      ReachableInv(s);
    }
    CutsSoFar(s, noise + Wire(ds));
    Resynchronises(noise, ds);
    PrefixDecodes(s.outb.delivered, s.outb.cuts, Cuts(noise + Wire(ds)), Junk(noise, ds), ds);
  }

  lemma PrefixDecodes(got: seq<seq<byte>>, cuts: seq<seq<byte>>, all: seq<seq<byte>>, junk: nat, ds: seq<seq<byte>>)
    requires got <= cuts <= all && |all| == junk + |ds| && DecodesTo(all[junk..], ds)
    ensures |got| <= junk + |ds|
    ensures forall i | junk <= i < |got| :: Halts(got[i]) && Decode(got[i]) == ds[i - junk]
  {
    forall i | junk <= i < |got|
      ensures Halts(got[i]) && Decode(got[i]) == ds[i - junk]
    {
      assert got[i] == cuts[i] == all[i] == all[junk..][i - junk];
    }
  }

  datatype Request = Request(header: Header, payload: seq<byte>)

  /** A frame the encoder does not truncate and whose packet the bus task's buffer can hold. */
  predicate Sendable(crc: Crc, r: Request) {
    var bytes := FrameBytes(crc, r.header, r.payload);
    r.header.len == |r.payload| && Fits(bytes) && |Framed(bytes)| <= BUS_BUF_SIZE
  }

  function Packets(crc: Crc, rs: seq<Request>): (ds: seq<seq<byte>>)
    ensures |ds| == |rs| && forall i | 0 <= i < |rs| :: ds[i] == FrameBytes(crc, rs[i].header, rs[i].payload)
  {
    seq(|rs|, i requires 0 <= i < |rs| => FrameBytes(crc, rs[i].header, rs[i].payload))
  }

  /** What a sender puts on the line: the encoder's output for one frame after the other. */
  function Transmission(ds: seq<seq<byte>>): seq<byte> {
    if ds == [] then [] else EncodedBytes(ds[0]) + Transmission(ds[1..])
  }

  lemma {:induction false} TransmissionIsWire(ds: seq<seq<byte>>)
    requires forall d | d in ds :: Fits(d)
    ensures Transmission(ds) == Wire(ds)
  {
    if ds != [] {
      assert ds[0] in ds;
      EncodingComplete(ds[0]);
      TransmissionIsWire(ds[1..]);
    }
  }

  lemma PacketsFit(crc: Crc, rs: seq<Request>)
    requires forall r | r in rs :: Fits(FrameBytes(crc, r.header, r.payload))
    ensures forall d | d in Packets(crc, rs) :: Fits(d) && d != []
  {
    var ds := Packets(crc, rs);
    forall d | d in ds
      ensures Fits(d) && d != []
    {
      var i :| 0 <= i < |ds| && d == ds[i];
      assert rs[i] in rs;
    }
  }

  /**
   * Encoding, concatenating, cutting at END markers, decoding and checking is
   * the identity on any list of frames that fit, for any checksum function.
   */
  lemma LinkRoundTrip(crc: Crc, rs: seq<Request>)
    requires forall r | r in rs :: r.header.len == |r.payload| && Fits(FrameBytes(crc, r.header, r.payload))
    ensures var wire := Transmission(Packets(crc, rs));
            && Rest(wire) == [] && |Cuts(wire)| == |rs|
            && forall i | 0 <= i < |rs| ::
                 && Halts(Cuts(wire)[i])
                 && Examine(crc, Decode(Cuts(wire)[i])) == Accepted(rs[i].header, Payload(rs[i].payload))
  {
    var ds := Packets(crc, rs);
    PacketsFit(crc, rs);
    TransmissionIsWire(ds);
    CutsOfWire(ds);
    FramedDecodes(ds);
    forall i | 0 <= i < |rs|
      ensures Examine(crc, ds[i]) == Accepted(rs[i].header, Payload(rs[i].payload))
    {
      assert rs[i] in rs;
      ExamineFrame(crc, rs[i].header, rs[i].payload);
    }
  }

  lemma ChunksCarryRequests(s: State, crc: Crc, rs: seq<Request>)
    requires Reachable(s) && s.outb.intact && !s.outb.flushed
    requires forall r | r in rs :: Sendable(crc, r)
    requires s.outb.arrived <= Transmission(Packets(crc, rs))
    ensures |s.outb.delivered| <= |rs|
    ensures forall i | 0 <= i < |s.outb.delivered| :: Decode(s.outb.delivered[i]) == Packets(crc, rs)[i]
  {
    var ds := Packets(crc, rs);
    assert Transmission(ds) == [] + Wire(ds) && forall d | d in ds :: d != [] by {
      PacketsFit(crc, rs);
      TransmissionIsWire(ds);
    }
    PacketsArriveInOrder(s, [], ds);
    assert Junk([], ds) == 0;
    assert forall i | 0 <= i < |s.outb.delivered| :: ds[i - 0] == ds[i];
  }

  /**
   * End to end: a host sends frames that survive the encoder; on every run that
   * lost nothing, the chunks handled so far are those frames, in order, each
   * with its own header and payload, and each is answered for what it asked.
   */
  lemma RequestsAreServedInOrder(s: State, cfg: Config, rs: seq<Request>, sn: byte)
    requires SoundConfig(cfg)
    requires Reachable(s) && s.outb.intact && !s.outb.flushed
    requires forall r | r in rs :: Sendable(cfg.crc, r)
    requires s.outb.arrived <= Transmission(Packets(cfg.crc, rs))
    ensures |s.outb.delivered| <= |rs|
    ensures forall i | 0 <= i < |s.outb.delivered| ::
              var chunk := s.outb.delivered[i];
              && Examine(cfg.crc, Decode(chunk)) == Accepted(rs[i].header, Payload(rs[i].payload))
              && AnswerTo(cfg, Some(chunk), sn) == Serve(cfg, rs[i].header, Payload(rs[i].payload), sn)
  {
    ChunksCarryRequests(s, cfg.crc, rs);
    forall i | 0 <= i < |s.outb.delivered|
      ensures Decode(s.outb.delivered[i]) == FrameBytes(cfg.crc, rs[i].header, rs[i].payload)
      ensures Examine(cfg.crc, Decode(s.outb.delivered[i])) == Accepted(rs[i].header, Payload(rs[i].payload))
    {
      assert rs[i] in rs;
      ExamineFrame(cfg.crc, rs[i].header, rs[i].payload);
    }
  }

  // ------------------------------------------------------------ when a post is refused

  lemma Advance(s: State, step: Step)
    requires Reachable(s) && Enabled(s, step)
    ensures Reachable(Apply(s, step))
  {
    assert [step][1..] == [];
    ReachableOn(s, [step]);
  }

  lemma {:induction false} ArriveAll(s: State, bytes: seq<byte>) returns (t: State)
    requires Reachable(s)
    ensures Reachable(t)
    ensures t == s.(outb := s.outb.(rx := s.outb.rx + bytes, arrived := s.outb.arrived + bytes))
    decreases |bytes|
  {
    if bytes == [] {
      t := s;
      assert s.outb.rx + bytes == s.outb.rx && s.outb.arrived + bytes == s.outb.arrived;
    } else {
      Advance(s, Arrive(bytes[0]));
      t := ArriveAll(Apply(s, Arrive(bytes[0])), bytes[1..]);
      assert [bytes[0]] + bytes[1..] == bytes;
      Assoc(s.outb.rx, [bytes[0]], bytes[1..]);
      Assoc(s.outb.arrived, [bytes[0]], bytes[1..]);
    }
  }

  /** The bus task stores the chunk it holds and announces it. */
  lemma StoreAndAnnounce(s: State) returns (t: State)
    requires Reachable(s) && s.outb.task.Holding? && |s.outb.buffer| + |s.outb.task.chunk| <= RINGBUF_SIZE
    ensures Reachable(t)
    ensures var c := s.outb.task.chunk;
            t == s.(queue := if QueueTakes(s) then s.queue + [Event(Output, |c|)] else s.queue,
                    outb := s.outb.(task := Watching, buffer := s.outb.buffer + c,
                                    intact := s.outb.intact && (s.main.Stopped? || QueueTakes(s))))
  {
    var c := s.outb.task.chunk;
    assert c[..|c|] == c;
    Advance(s, StoreChunk);
    var s1 := Apply(s, StoreChunk);
    assert s1 == s.(outb := s.outb.(task := Announcing(|c|), buffer := s.outb.buffer + c));
    Advance(s1, Announce);
    t := Apply(s1, Announce);
  }

  /** The bus task handles one chunk: cut, store, announce. */
  lemma HandleChunk(s: State) returns (t: State)
    requires Reachable(s) && s.outb.task.Watching?
    requires IsChunk(s.outb.rx) && |s.outb.rx| <= BUS_BUF_SIZE && |s.outb.buffer| + |s.outb.rx| <= RINGBUF_SIZE
    ensures Reachable(t)
    ensures t == s.(queue := if QueueTakes(s) then s.queue + [Event(Output, |s.outb.rx|)] else s.queue,
                    outb := s.outb.(buffer := s.outb.buffer + s.outb.rx, rx := [], cuts := s.outb.cuts + [s.outb.rx],
                                    intact := s.outb.intact && (s.main.Stopped? || QueueTakes(s))))
  {
    var c := s.outb.rx;
    assert Cuts(c) != [] && CutAt(c) == |c| && c[..|c|] == c && c[|c|..] == [] by {
      ChunkComesOff(c, []);
      assert c + [] == c;
    }
    Advance(s, Detect);
    var s1 := Apply(s, Detect);
    assert s1 == s.(outb := s.outb.(task := Holding(c), rx := [], cuts := s.outb.cuts + [c]));
    t := StoreAndAnnounce(s1);
  }

  const FIRST: seq<byte> := [1, SLIP_END]
  const SECOND: seq<byte> := [SLIP_ESC, SLIP_ESC_END, SLIP_END]

  /** The first chunk arrives before the event queue exists. */
  lemma ChunkBeforeQueue() returns (s: State)
    ensures Reachable(s)
    ensures s.main.Listening? && s.queue == [] && s.queueUp && s.run && !s.outb.intact
    ensures s.outb.buffer == FIRST && s.outb.rx == [] && s.outb.cuts == [FIRST] && s.outb.task.Watching?
  {
    s := Init(0);
    assert Execute(s, []) == Some(s);
    Advance(s, StartTask);
    s := Apply(s, StartTask);
    s := ArriveAll(s, FIRST);
    assert s.outb.rx == FIRST;
    s := HandleChunk(s);
    Advance(s, CreateQueue);
    s := Apply(s, CreateQueue);
  }

  /** The second one is announced, behind bytes nobody announced. */
  lemma ChunkBehindOrphan() returns (s: State)
    ensures Reachable(s)
    ensures s.main.Listening? && s.queue == [Event(Output, 3)] && s.outb.buffer == FIRST + SECOND
    ensures s.outb.cuts == [FIRST, SECOND]
  {
    s := ChunkBeforeQueue();
    s := ArriveAll(s, SECOND);
    assert s.outb.rx == SECOND;
    s := HandleChunk(s);
  }

  lemma MixedChunkHangs()
    ensures !Halts([1, SLIP_END, SLIP_ESC])
  {
    var c: seq<byte> := [1, SLIP_END, SLIP_ESC];
    assert c[1..] == [SLIP_END, SLIP_ESC] && c[1..][1..] == [SLIP_ESC];
    assert !Halts([SLIP_ESC]);
    assert !Halts(c[1..]);
  }

  /**
   * The condition matters from the first instant: the bus task is started
   * before the event queue exists, so a chunk that arrives in between is stored
   * but not announced, and the next OUTPUT event hands over bytes of both; the
   * decoder, which finishes on every chunk, does not finish on these. The bus
   * task, the lower of the two in priority, must act between two statements of
   * the main task: that takes a second core. `Alignment.FullQueueMisaligns` is
   * the loss that needs none.
   */
  lemma StartupRaceMisaligns() returns (s: State)
    ensures Reachable(s) && s.main.Handling? && s.outb.cuts == [FIRST, SECOND]
    ensures s.main.chunk == [1, SLIP_END, SLIP_ESC] && !IsChunk(s.main.chunk) && !Halts(s.main.chunk)
  {
    s := ChunkBehindOrphan();
    Advance(s, Dequeue);
    s := Apply(s, Dequeue);
    Advance(s, Receive);
    var chunk := [1, SLIP_END, SLIP_ESC];
    assert s.outb.buffer == chunk + [SLIP_ESC_END, SLIP_END];
    assert Take(s.outb.buffer, 3) == chunk;
    MixedChunkHangs();
    s := Apply(s, Receive);
  }
}
