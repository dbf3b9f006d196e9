/** How the bus task cuts the UART byte stream into chunks at END markers (esp_ncp_bus.c). */
module Uart {
  import opened Common
  import opened Slip

  // ------------------------------------------------------------ the cut, as a function of the bytes

  /** One past the first END at position i or later; 0 when there is none. */
  function EndAfter(rx: seq<byte>, i: nat): (n: nat)
    ensures n != 0 ==> i < n <= |rx| && rx[n - 1] == SLIP_END && forall j | i <= j < n - 1 :: rx[j] != SLIP_END
    ensures n == 0 ==> forall j | i <= j < |rx| :: rx[j] != SLIP_END
    decreases |rx| - i
  {
    if i >= |rx| then 0 else if rx[i] == SLIP_END then i + 1 else EndAfter(rx, i + 1)
  }

  /** The length of the next chunk: up to the first END behind position 0. */
  function CutAt(rx: seq<byte>): nat {
    EndAfter(rx, 1)
  }

  function Cuts(rx: seq<byte>): seq<seq<byte>>
    decreases |rx|
  {
    var n := CutAt(rx);
    if n == 0 then [] else [rx[..n]] + Cuts(rx[n..])
  }

  /** The bytes that wait for an END. */
  function Rest(rx: seq<byte>): seq<byte>
    decreases |rx|
  {
    var n := CutAt(rx);
    if n == 0 then rx else Rest(rx[n..])
  }

  /** A chunk ends with its only END behind position 0. */
  predicate IsChunk(c: seq<byte>) {
    |c| >= 2 && c[|c| - 1] == SLIP_END && forall j | 1 <= j < |c| - 1 :: c[j] != SLIP_END
  }

  predicate AllChunks(cs: seq<seq<byte>>) {
    forall i | 0 <= i < |cs| :: IsChunk(cs[i])
  }

  /** The decoder finishes on every chunk. */
  lemma ChunksHalt(c: seq<byte>)
    requires IsChunk(c)
    ensures Halts(c)
  {
    if !Halts(c) {
      HangsOnlyOnEscapes(c);
    }
  }

  lemma ChunkComesOff(c: seq<byte>, w: seq<byte>)
    requires IsChunk(c)
    ensures CutAt(c + w) == |c|
    ensures Cuts(c + w) == [c] + Cuts(w) && Rest(c + w) == Rest(w)
  {
    var s, n := c + w, CutAt(c + w);
    assert s[|c| - 1] == SLIP_END;
    assert forall j | 1 <= j < |c| - 1 :: s[j] == c[j] != SLIP_END;
    assert s[..|c|] == c && s[|c|..] == w;
  }

  lemma {:induction false} ChunksComeOff(cs: seq<seq<byte>>, w: seq<byte>)
    requires AllChunks(cs)
    ensures Cuts(Flatten(cs) + w) == cs + Cuts(w) && Rest(Flatten(cs) + w) == Rest(w)
  {
    if cs == [] {
      assert Flatten(cs) + w == w;
    } else {
      ChunksComeOff(cs[1..], w);
      ChunkComesOff(cs[0], Flatten(cs[1..]) + w);
      Assoc(cs[0], Flatten(cs[1..]), w);
      Assoc([cs[0]], cs[1..], Cuts(w));
      assert [cs[0]] + cs[1..] == cs;
    }
  }

  lemma CutIsChunk(rx: seq<byte>)
    requires CutAt(rx) != 0
    ensures IsChunk(rx[..CutAt(rx)]) && rx[..CutAt(rx)] + rx[CutAt(rx)..] == rx
  {
  }

  /** Cutting loses no byte, and every piece is a chunk. */
  lemma {:induction false} CutsPartition(rx: seq<byte>)
    ensures Flatten(Cuts(rx)) + Rest(rx) == rx
    ensures AllChunks(Cuts(rx)) && CutAt(Rest(rx)) == 0
    decreases |rx|
  {
    if CutAt(rx) == 0 {
      assert [] + rx == rx;
    } else {
      var c, tail := rx[..CutAt(rx)], rx[CutAt(rx)..];
      CutIsChunk(rx);
      CutsPartition(tail);
      Assoc(c, Flatten(Cuts(tail)), Rest(tail));
    }
  }

  /** What has been cut stays cut when more bytes arrive. */
  lemma CutsGrow(g: seq<byte>, w: seq<byte>)
    ensures Cuts(g + w) == Cuts(g) + Cuts(Rest(g) + w)
    ensures Rest(g + w) == Rest(Rest(g) + w)
  {
    CutsPartition(g);
    ChunksComeOff(Cuts(g), Rest(g) + w);
    Assoc(Flatten(Cuts(g)), Rest(g), w);
  }

  // ------------------------------------------------------------ packets on the wire

  function Wire(ds: seq<seq<byte>>): seq<byte> {
    if ds == [] then [] else Framed(ds[0]) + Wire(ds[1..])
  }

  function FramedAll(ds: seq<seq<byte>>): (cs: seq<seq<byte>>)
    ensures |cs| == |ds| && forall i | 0 <= i < |ds| :: cs[i] == Framed(ds[i])
  {
    seq(|ds|, i requires 0 <= i < |ds| => Framed(ds[i]))
  }

  lemma FramedIsChunk(d: seq<byte>)
    ensures IsChunk(Framed(d))
    ensures d != [] ==> IsChunk(Escape(d) + [SLIP_END])
  {
    EscapeShape(d);
  }

  /** A stream of complete packets is cut into exactly those packets, with nothing left over. */
  lemma {:induction false} CutsOfWire(ds: seq<seq<byte>>)
    ensures Cuts(Wire(ds)) == FramedAll(ds) && Rest(Wire(ds)) == []
  {
    if ds != [] {
      CutsOfWire(ds[1..]);
      FramedIsChunk(ds[0]);
      ChunkComesOff(Framed(ds[0]), Wire(ds[1..]));
      assert [Framed(ds[0])] + FramedAll(ds[1..]) == FramedAll(ds);
    }
  }

  /** Chunk by chunk, cs decodes to ds. */
  predicate DecodesTo(cs: seq<seq<byte>>, ds: seq<seq<byte>>) {
    |cs| == |ds| && forall i | 0 <= i < |cs| :: Halts(cs[i]) && Decode(cs[i]) == ds[i]
  }

  lemma FramedDecodes(ds: seq<seq<byte>>)
    ensures DecodesTo(FramedAll(ds), ds)
  {
    forall i | 0 <= i < |ds| ensures Halts(Framed(ds[i])) && Decode(Framed(ds[i])) == ds[i] {
      DecodeFramed(ds[i]);
    }
  }

  /** Left-over noise r spoils one chunk; the packet behind it then starts without its leading END. */
  lemma LeftoverCuts(r: seq<byte>, d: seq<byte>, w: seq<byte>)
    requires r != [] && CutAt(r) == 0 && d != []
    ensures Cuts(r + (Framed(d) + w)) == [r + [SLIP_END]] + ([Escape(d) + [SLIP_END]] + Cuts(w))
  {
    var bad, good := r + [SLIP_END], Escape(d) + [SLIP_END];
    FramedIsChunk(d);
    assert IsChunk(bad);
    ChunkComesOff(good, w);
    ChunkComesOff(bad, good + w);
    Assoc([SLIP_END], Escape(d), [SLIP_END]);
    Assoc([SLIP_END], good, w);
    Assoc(r, [SLIP_END], good + w);
  }

  lemma LeftoverResynchronises(r: seq<byte>, ds: seq<seq<byte>>)
    requires r != [] && CutAt(r) == 0 && ds != [] && ds[0] != []
    ensures var cs := Cuts(r + Wire(ds)); cs != [] && DecodesTo(cs[1..], ds)
  {
    var d, later, good := ds[0], ds[1..], Escape(ds[0]) + [SLIP_END];
    assert Wire(ds) == Framed(d) + Wire(later);
    LeftoverCuts(r, d, Wire(later));
    CutsOfWire(later);
    FramedDecodes(later);
    DecodeEscapedEnd(d);
  }

  /** How many chunks the noise costs: those it completes itself, and one more for its left-over. */
  function Junk(noise: seq<byte>, ds: seq<seq<byte>>): nat {
    |Cuts(noise)| + if Rest(noise) == [] || ds == [] then 0 else 1
  }

  /**
   * The purpose of the leading END. Whatever bytes `noise` came before, every
   * packet after it is recovered; the left-over of the noise costs at most one
   * extra chunk of its own.
   */
  lemma Resynchronises(noise: seq<byte>, ds: seq<seq<byte>>)
    requires forall d | d in ds :: d != []
    ensures var all := Cuts(noise + Wire(ds));
            |all| == Junk(noise, ds) + |ds| && DecodesTo(all[Junk(noise, ds)..], ds)
  {
    var r := Rest(noise);
    CutsGrow(noise, Wire(ds));
    CutsPartition(noise);
    var all, cs := Cuts(noise + Wire(ds)), Cuts(r + Wire(ds));
    assert all == Cuts(noise) + cs;
    if ds == [] {
      assert r + Wire(ds) == r;
    } else if r == [] {
      assert r + Wire(ds) == Wire(ds);
      CutsOfWire(ds);
      FramedDecodes(ds);
      assert all[|Cuts(noise)|..] == cs;
    } else {
      assert ds[0] in ds;
      LeftoverResynchronises(r, ds);
      assert all[|Cuts(noise)| + 1..] == cs[1..];
    }
  }

  // ------------------------------------------------------------ the driver's view

  /** Positions of END in rx at or behind `from`, in order. */
  ghost function Positions(rx: seq<byte>, from: nat): seq<int>
    decreases |rx| - from
  {
    if from >= |rx| then [] else (if rx[from] == SLIP_END then [from] else []) + Positions(rx, from + 1)
  }

  lemma {:induction false} PositionsSnoc(rx: seq<byte>, b: byte, from: nat)
    requires from <= |rx|
    ensures Positions(rx + [b], from) == Positions(rx, from) + if b == SLIP_END then [|rx|] else []
    decreases |rx| - from
  {
    if from < |rx| {
      PositionsSnoc(rx, b, from + 1);
      assert (rx + [b])[from] == rx[from];
    } else {
      assert Positions(rx + [b], from + 1) == [];
    }
  }

  ghost function Shift(marks: seq<int>, n: nat): seq<int> {
    seq(|marks|, i requires 0 <= i < |marks| => marks[i] - n)
  }

  lemma {:induction false} PositionsBounds(rx: seq<byte>, from: nat)
    ensures forall m | m in Positions(rx, from) :: from <= m < |rx|
    decreases |rx| - from
  {
    if from < |rx| { PositionsBounds(rx, from + 1); }
  }

  lemma ShiftAppend(a: seq<int>, b: seq<int>, n: nat)
    ensures Shift(a + b, n) == Shift(a, n) + Shift(b, n)
  {
  }

  lemma {:induction false} PositionsShift(rx: seq<byte>, n: nat, from: nat)
    requires n <= from && n <= |rx|
    ensures Shift(Positions(rx, from), n) == Positions(rx[n..], from - n)
    decreases |rx| - from
  {
    if from < |rx| {
      PositionsShift(rx, n, from + 1);
      assert rx[n..][from - n] == rx[from];
      var one: seq<int> := if rx[from] == SLIP_END then [from] else [];
      ShiftAppend(one, Positions(rx, from + 1), n);
    }
  }

  /** The first mark is where the chunk ends. */
  lemma {:induction false} FirstPosition(rx: seq<byte>, from: nat)
    ensures Positions(rx, from) == [] <==> EndAfter(rx, from) == 0
    ensures Positions(rx, from) != [] ==>
              var n := EndAfter(rx, from);
              Positions(rx, from) == [n - 1] + Positions(rx, n)
    decreases |rx| - from
  {
    if from >= |rx| {
      assert EndAfter(rx, from) == 0 && Positions(rx, from) == [];
    } else if rx[from] == SLIP_END {
      assert EndAfter(rx, from) == from + 1 && Positions(rx, from) == [from] + Positions(rx, from + 1);
    } else {
      FirstPosition(rx, from + 1);
      assert EndAfter(rx, from) == EndAfter(rx, from + 1) && Positions(rx, from) == Positions(rx, from + 1);
    }
  }

  /** The receive ring buffer and its pattern queue of END positions. */
  class Receiver {
    var rx: seq<byte>
    var marks: seq<int>

    /** Every END is marked, except that the mark of position 0 may have been popped. */
    ghost predicate Valid()
      reads this
    {
      marks == Positions(rx, 0) || marks == Positions(rx, 1)
    }

    constructor ()
      ensures Valid() && rx == []
    {
      rx, marks := [], [];
    }

    /** The pattern detector runs on every arriving byte. */
    method Arrive(b: byte)
      requires Valid()
      modifies this
      ensures Valid() && rx == old(rx) + [b]
    {
      PositionsSnoc(rx, b, 0);
      if rx != [] { PositionsSnoc(rx, b, 1); }
      if b == SLIP_END {
        marks := marks + [|rx|];
      }
      rx := rx + [b];
    }

    method PopPosition() returns (pos: int)
      modifies this`marks
      ensures old(marks) == [] ==> pos == -1 && marks == []
      ensures old(marks) != [] ==> pos == old(marks)[0] && marks == old(marks)[1..]
    {
      if marks == [] {
        pos := -1;
      } else {
        pos := marks[0];
        marks := marks[1..];
      }
    }

    /** Reading n bytes moves the remaining marks along. */
    method ReadBytes(n: nat) returns (data: seq<byte>)
      requires n <= |rx|
      modifies this
      ensures data == old(rx)[..n] && rx == old(rx)[n..]
      ensures marks == Shift(old(marks), n)
    {
      data := rx[..n];
      rx := rx[n..];
      var moved: seq<int> := [];
      var i := 0;
      while i < |marks|
        invariant 0 <= i <= |marks| && |moved| == i
        invariant marks == old(marks) && data == old(rx)[..n] && rx == old(rx)[n..]
        invariant forall j | 0 <= j < i :: moved[j] == marks[j] - n
      {
        moved := moved + [marks[i] - n];
        i := i + 1;
      }
      assert moved == Shift(marks, n);
      marks := moved;
    }

    /**
     * The UART_PATTERN_DET branch: an END at position 0 is skipped but stays in
     * the buffer, the first one behind it ends the chunk.
     */
    method PopChunk() returns (chunk: Option<seq<byte>>)
      requires Valid()
      modifies this
      ensures Valid()
      ensures chunk.None? <==> Cuts(old(rx)) == []
      ensures chunk.None? ==> rx == old(rx)
      ensures chunk.Some? ==> IsChunk(chunk.value) && chunk.value + rx == old(rx)
                              && Cuts(old(rx)) == [chunk.value] + Cuts(rx)
    {
      chunk := None;
      var pos := 0;
      while pos >= 0 && chunk.None?
        invariant Valid()
        invariant chunk.None? ==> rx == old(rx) && (pos < 0 ==> CutAt(rx) == 0)
        invariant chunk.Some? ==> CutAt(old(rx)) != 0 && chunk.value == old(rx)[..CutAt(old(rx))]
                                  && rx == old(rx)[CutAt(old(rx))..]
        decreases if pos < 0 || chunk.Some? then 0 else |marks| + 1
      {
        ghost var marks0 := marks;
        FirstPosition(rx, 1);
        pos := PopPosition();
        if pos > 0 {
          assert marks0 == Positions(rx, 1) by {
            FirstPosition(rx, 0);
          }
          var n := pos + 1;
          assert n == CutAt(rx) && marks == Positions(rx, n);
          PositionsShift(rx, n, n);
          var data := ReadBytes(n);
          chunk := Some(data);
        } else {
          PositionsBounds(rx, 1);
        }
      }
      if chunk.Some? {
        assert old(rx)[..CutAt(old(rx))] + old(rx)[CutAt(old(rx))..] == old(rx);
      }
    }
  }
}
