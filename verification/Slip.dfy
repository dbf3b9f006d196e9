/** SLIP byte stuffing (RFC 1055, Protocol and SLIP Drivers), as slip.c runs it over a bounded stream buffer. */
module Slip {
  import opened Common
  import opened StreamBuffers

  const SLIP_END: byte := 0xC0
  const SLIP_ESC: byte := 0xDB
  const SLIP_ESC_END: byte := 0xDC
  const SLIP_ESC_ESC: byte := 0xDD

  // ---------------------------------------------------------------- encoder

  function EscapeByte(b: byte): seq<byte> {
    if b == SLIP_END then [SLIP_ESC, SLIP_ESC_END]
    else if b == SLIP_ESC then [SLIP_ESC, SLIP_ESC_ESC]
    else [b]
  }

  function Escape(d: seq<byte>): seq<byte> {
    if d == [] then [] else EscapeByte(d[0]) + Escape(d[1..])
  }

  /** The whole packet RFC 1055 asks for: END, the escaped data, END. */
  function Framed(d: seq<byte>): seq<byte> {
    [SLIP_END] + Escape(d) + [SLIP_END]
  }

  predicate IsSpecial(b: byte) {
    b == SLIP_END || b == SLIP_ESC
  }

  /** How many bytes of d need an escape. */
  function Specials(d: seq<byte>): nat {
    if d == [] then 0 else (if IsSpecial(d[0]) then 1 else 0) + Specials(d[1..])
  }

  lemma {:induction false} EscapeAppend(a: seq<byte>, b: seq<byte>)
    ensures Escape(a + b) == Escape(a) + Escape(b)
    ensures Specials(a + b) == Specials(a) + Specials(b)
  {
    if a == [] {
      assert a + b == b;
    } else {
      EscapeAppend(a[1..], b);
      assert (a + b)[1..] == a[1..] + b;
      Assoc(EscapeByte(a[0]), Escape(a[1..]), Escape(b));
    }
  }

  lemma {:induction false} EscapeShape(d: seq<byte>)
    ensures |Escape(d)| == |d| + Specials(d)
    ensures Specials(d) <= |d|
    ensures forall i | 0 <= i < |Escape(d)| :: Escape(d)[i] != SLIP_END
  {
    if d != [] {
      EscapeShape(d[1..]);
    }
  }

  /**
   * The table of RFC 1055, at its place in the packet: the i-th data byte stands
   * behind the leading END and what the i bytes before it take up, as it is
   * unless it is END (0xC0) or ESC (0xDB).
   */
  lemma EscapedAt(d: seq<byte>, i: nat)
    requires i < |d|
    ensures var f, at := Framed(d), 1 + i + Specials(d[..i]);
            && at + (if d[i] in [0xC0, 0xDB] then 1 else 0) < |f| - 1
            && f[0] == f[|f| - 1] == 0xC0
            && (d[i] == 0xC0 ==> f[at] == 0xDB && f[at + 1] == 0xDC)
            && (d[i] == 0xDB ==> f[at] == 0xDB && f[at + 1] == 0xDD)
            && (d[i] !in [0xC0, 0xDB] ==> f[at] == d[i])
  {
    var front, rest := d[..i], d[i + 1..];
    assert d == front + ([d[i]] + rest);
    EscapeAppend(front, [d[i]] + rest);
    EscapeShape(front);
    assert ([d[i]] + rest)[1..] == rest;
    assert Framed(d) == [SLIP_END] + (Escape(front) + (EscapeByte(d[i]) + Escape(rest))) + [SLIP_END];
  }

  /** The number of bytes the encoder's buffer of 2n bytes ends up holding. */
  function Stored(d: seq<byte>): (m: nat)
  {
    Min(2 * |d|, |d| + Specials(d) + 2)
  }

  /** What the encoder hands back: the length is cut to sixteen bits, and no buffer at all is returned for length 0. */
  function Encoded(d: seq<byte>): (r: Option<seq<byte>>) {
    var m := Stored(d) % 0x1_0000;
    if m == 0 then None else Some(Take(Framed(d), m))
  }

  /** The caller's view of the encoder's output; a missing buffer carries no bytes. */
  function EncodedBytes(d: seq<byte>): seq<byte> {
    match Encoded(d)
    case None => []
    case Some(w) => w
  }

  /** One byte into the encoder's buffer, dropped when it is full; `before` is everything sent so far. */
  method Put(streamBuffer: StreamBuffer, c: byte, ghost before: seq<byte>)
    requires streamBuffer.Valid() && streamBuffer.contents == Take(before, streamBuffer.capacity)
    modifies streamBuffer`contents
    ensures streamBuffer.Valid() && streamBuffer.contents == Take(before + [c], streamBuffer.capacity)
  {
    var sent := streamBuffer.Send([c]);
    TakeAppend(before, [c], streamBuffer.capacity);
  }

  /** The switch on one data byte. */
  method PutEscaped(streamBuffer: StreamBuffer, b: byte, ghost before: seq<byte>)
    requires streamBuffer.Valid() && streamBuffer.contents == Take(before, streamBuffer.capacity)
    modifies streamBuffer`contents
    ensures streamBuffer.Valid()
    ensures streamBuffer.contents == Take(before + EscapeByte(b), streamBuffer.capacity)
  {
    if b == SLIP_END {
      Put(streamBuffer, SLIP_ESC, before);
      Put(streamBuffer, SLIP_ESC_END, before + [SLIP_ESC]);
      Assoc(before, [SLIP_ESC], [SLIP_ESC_END]);
    } else if b == SLIP_ESC {
      Put(streamBuffer, SLIP_ESC, before);
      Put(streamBuffer, SLIP_ESC_ESC, before + [SLIP_ESC]);
      Assoc(before, [SLIP_ESC], [SLIP_ESC_ESC]);
    } else {
      Put(streamBuffer, b, before);
    }
  }

  /** END and the escaped form of the first i bytes. */
  ghost function SentAfter(d: seq<byte>, i: nat): seq<byte>
    requires i <= |d|
  {
    [SLIP_END] + Escape(d[..i])
  }

  lemma SentAfterNext(d: seq<byte>, i: nat)
    requires i < |d|
    ensures SentAfter(d, i + 1) == SentAfter(d, i) + EscapeByte(d[i])
  {
    assert d[..i + 1] == d[..i] + [d[i]];
    EscapeAppend(d[..i], [d[i]]);
    assert Escape([d[i]]) == EscapeByte(d[i]);
  }

  method SlipEncode(inbuf: seq<byte>) returns (outbuf: Option<seq<byte>>, outlen: u16)
    requires |inbuf| < 0x1_0000
    ensures outlen == Min(2 * |inbuf|, |inbuf| + Specials(inbuf) + 2) % 0x1_0000
    ensures outbuf.Some? <==> outlen != 0
    ensures outbuf.Some? ==> outlen <= |Framed(inbuf)| && outbuf.value == Framed(inbuf)[..outlen]
    ensures outbuf == Encoded(inbuf)
  {
    var streamBuffer := new StreamBuffer(|inbuf| * 2);
    Put(streamBuffer, SLIP_END, []);
    assert SentAfter(inbuf, 0) == [] + [SLIP_END];
    var i := 0;
    while i < |inbuf|
      invariant 0 <= i <= |inbuf|
      invariant streamBuffer.Valid() && fresh(streamBuffer)
      invariant streamBuffer.contents == Take(SentAfter(inbuf, i), streamBuffer.capacity)
    {
      PutEscaped(streamBuffer, inbuf[i], SentAfter(inbuf, i));
      SentAfterNext(inbuf, i);
      i := i + 1;
    }
    Put(streamBuffer, SLIP_END, SentAfter(inbuf, i));
    assert inbuf[..i] == inbuf;
    assert streamBuffer.contents == Take(Framed(inbuf), 2 * |inbuf|);
    FramedLength(inbuf);

    var available := streamBuffer.BytesAvailable();
    assert available == Stored(inbuf);
    outlen := available % 0x1_0000;
    outbuf := None;
    if outlen != 0 {
      var data := streamBuffer.Receive(outlen);
      outbuf := Some(data);
    }
  }

  lemma FramedLength(d: seq<byte>)
    ensures |Framed(d)| == |d| + Specials(d) + 2
    ensures Stored(d) <= |Framed(d)|
  {
    EscapeShape(d);
  }

  /** Enough room in the buffer of 2n bytes, and a length that fits sixteen bits. */
  predicate Fits(d: seq<byte>) {
    Specials(d) + 2 <= |d| && |d| + Specials(d) + 2 < 0x1_0000
  }

  /** The packet is complete exactly when at least two data bytes need no escape (and its length fits sixteen bits). */
  lemma EncodingComplete(d: seq<byte>)
    ensures Encoded(d) == Some(Framed(d)) <==> Fits(d)
  {
    FramedLength(d);
    var f := Framed(d);
    var m: nat := Stored(d) % 0x1_0000;
    assert |Take(f, m)| == Min(|f|, m);
    if Encoded(d) == Some(f) {
      assert Take(f, m) == f;
    }
  }

  // ---------------------------------------------------------------- decoder

  function Unescape(b: byte): byte {
    if b == SLIP_ESC_END then SLIP_END else if b == SLIP_ESC_ESC then SLIP_ESC else b
  }

  /**
   * The bytes slip_decode stores for s. END markers vanish; a plain byte that
   * is the last one in the buffer is dropped, an escaped one is kept.
   */
  function Decode(s: seq<byte>): seq<byte> {
    if s == [] then []
    else if s[0] == SLIP_END then Decode(s[1..])
    else if s[0] == SLIP_ESC then
      if |s| == 1 then [] else [Unescape(s[1])] + Decode(s[2..])
    else
      if |s| == 1 then [] else [s[0]] + Decode(s[1..])
  }

  /**
   * The guard of termination, readable off the input: walking it token by
   * token, the last token is neither a lone ESC nor an escape that yields ESC.
   */
  predicate Halts(s: seq<byte>) {
    if s == [] then true
    else if s[0] == SLIP_ESC then
      if |s| == 1 then false
      else if |s| == 2 then Unescape(s[1]) != SLIP_ESC
      else Halts(s[2..])
    else Halts(s[1..])
  }

  /** calloc'ed memory nobody has written from position `from` on. */
  predicate ZeroFrom(memory: seq<byte>, from: nat) {
    forall i | from <= i < |memory| :: memory[i] == 0
  }

  /** Reads one byte into c; an empty buffer leaves c as it was. */
  method ReceiveByte(streamBuffer: StreamBuffer, c0: byte) returns (c: byte)
    requires streamBuffer.Valid()
    modifies streamBuffer`contents
    ensures streamBuffer.Valid()
    ensures old(streamBuffer.contents) == [] ==> c == c0 && streamBuffer.contents == []
    ensures old(streamBuffer.contents) != [] ==>
              c == old(streamBuffer.contents)[0] && streamBuffer.contents == old(streamBuffer.contents)[1..]
  {
    var got := streamBuffer.Receive(1);
    c := if got == [] then c0 else got[0];
  }

  /** The byte behind an ESC; one that is not an escape code is left alone. */
  method ReceiveEscaped(streamBuffer: StreamBuffer, c0: byte) returns (c: byte)
    requires streamBuffer.Valid()
    modifies streamBuffer`contents
    ensures streamBuffer.Valid()
    ensures c == Unescape(if old(streamBuffer.contents) == [] then c0 else old(streamBuffer.contents)[0])
    ensures streamBuffer.contents == if old(streamBuffer.contents) == [] then [] else old(streamBuffer.contents)[1..]
  {
    c := ReceiveByte(streamBuffer, c0);
    if c == SLIP_ESC_END {
      c := SLIP_END;
    } else if c == SLIP_ESC_ESC {
      c := SLIP_ESC;
    }
  }

  /** Stores c behind the bytes received so far. */
  method Store(output: array<byte>, received: nat, c: byte)
    requires received < output.Length
    requires ZeroFrom(output[..], received)
    modifies output
    ensures output[..received] == old(output[..received])
    ensures output[..received + 1] == old(output[..received]) + [c]
    ensures ZeroFrom(output[..], received + 1)
  {
    output[received] := c;
  }

  // One turn of the decoder's loop: c is the byte it saw last, rest is unread, out is stored.

  datatype Turn = Running(c: byte, rest: seq<byte>, out: seq<byte>) | Finished(out: seq<byte>)

  function DecodeTurn(t: Turn): Turn {
    match t
    case Finished(_) => t
    case Running(c0, rest0, out) =>
      var c := if rest0 == [] then c0 else rest0[0];
      var rest := if rest0 == [] then [] else rest0[1..];
      if c == SLIP_END then
        if rest == [] then Finished(out) else Running(c, rest, out)
      else if c == SLIP_ESC then
        var c' := Unescape(if rest == [] then c else rest[0]);
        Running(c', if rest == [] then [] else rest[1..], out + [c'])
      else
        if rest == [] then Finished(out) else Running(c, rest, out + [c])
  }

  /** A turn keeps what is still to be stored, and shortens the unread rest. */
  lemma HaltingTurn(c: byte, rest: seq<byte>, out: seq<byte>)
    requires if rest == [] then c != SLIP_ESC else Halts(rest)
    ensures var t := DecodeTurn(Running(c, rest, out));
            match t
            case Finished(o) => o == out + Decode(rest)
            case Running(c', rest', o) =>
              && |rest'| < |rest|
              && o + Decode(rest') == out + Decode(rest)
              && if rest' == [] then c' != SLIP_ESC else Halts(rest')
  {
    if rest == [] || (|rest| == 1 && rest[0] != SLIP_ESC) {
      if |rest| == 1 {
        assert rest[1..] == [];
      }
      assert Decode(rest) == [] && out + [] == out;
    } else if rest[0] == SLIP_ESC {
      Assoc(out, [Unescape(rest[1])], Decode(rest[2..]));
      assert rest[1..][1..] == rest[2..];
    } else if rest[0] != SLIP_END {
      Assoc(out, [rest[0]], Decode(rest[1..]));
    }
  }

  lemma {:induction false} DecodeShrinks(s: seq<byte>)
    ensures |Decode(s)| <= |s|
    ensures s != [] ==> |Decode(s)| < |s|
  {
    if s == [] {
    } else if s[0] == SLIP_ESC && |s| > 1 {
      DecodeShrinks(s[2..]);
    } else {
      DecodeShrinks(s[1..]);
    }
  }

  /**
   * slip_decode. The variable c keeps its old value when a receive returns
   * nothing, which is what ends (or fails to end) the loop.
   */
  method SlipDecode(inbuf: seq<byte>) returns (output: array<byte>, received: nat)
    requires |inbuf| < 0x1_0000
    requires Halts(inbuf)
    ensures fresh(output) && output.Length == 2 * |inbuf|
    ensures received <= |inbuf| && (inbuf != [] ==> received < |inbuf|)
    ensures output[..received] == Decode(inbuf)
    ensures ZeroFrom(output[..], received)
  {
    var c := SLIP_END;
    received := 0;
    output := new byte[|inbuf| * 2](_ => 0);
    var streamBuffer := new StreamBuffer(|inbuf|);
    var sent := streamBuffer.Send(inbuf);
    assert streamBuffer.contents == inbuf;
    var done := false;
    while !done
      invariant streamBuffer.Valid() && fresh(streamBuffer) && fresh(output)
      invariant output.Length == 2 * |inbuf|
      invariant done ==> received <= |inbuf| && output[..received] == Decode(inbuf)
      invariant !done ==> received + |streamBuffer.contents| <= |inbuf|
      invariant !done ==> output[..received] + Decode(streamBuffer.contents) == Decode(inbuf)
      invariant !done ==> if streamBuffer.contents == [] then c != SLIP_ESC else Halts(streamBuffer.contents)
      invariant ZeroFrom(output[..], received)
      decreases if done then 0 else |streamBuffer.contents| + 1
    {
      HaltingTurn(c, streamBuffer.contents, output[..received]);
      done, c, received := DecodeOne(streamBuffer, output, c, received);
    }
    DecodeShrinks(inbuf);
  }

  /** The body of the loop; `done` is the jump out of it. */
  method DecodeOne(streamBuffer: StreamBuffer, output: array<byte>, c0: byte, received0: nat)
    returns (done: bool, c: byte, received: nat)
    requires streamBuffer.Valid()
    requires received0 <= output.Length && ZeroFrom(output[..], received0)
    requires if streamBuffer.contents == [] then c0 != SLIP_ESC else received0 < output.Length
    modifies streamBuffer`contents, output
    ensures streamBuffer.Valid() && received0 <= received <= received0 + 1
    ensures received <= output.Length && ZeroFrom(output[..], received)
    ensures DecodeTurn(Running(c0, old(streamBuffer.contents), old(output[..received0])))
         == if done then Finished(output[..received]) else Running(c, streamBuffer.contents, output[..received])
    ensures received - received0 + |streamBuffer.contents| <= |old(streamBuffer.contents)|
  {
    done, received := false, received0;
    c := ReceiveByte(streamBuffer, c0);
    if c == SLIP_END {
      var available := streamBuffer.BytesAvailable();
      done := available == 0;
    } else if c == SLIP_ESC {
      c := ReceiveEscaped(streamBuffer, c);
      Store(output, received, c);
      received := received + 1;
    } else {
      var available := streamBuffer.BytesAvailable();
      if available == 0 {
        done := true;
      } else {
        Store(output, received, c);
        received := received + 1;
      }
    }
  }

  // Runs of the loop, to speak about those that never end.

  function Turns(t: Turn, n: nat): Turn
    decreases n
  {
    if n == 0 then t else Turns(DecodeTurn(t), n - 1)
  }

  lemma {:induction false} FinishedStays(t: Turn, n: nat)
    requires t.Finished?
    ensures Turns(t, n) == t
  {
    if n > 0 { FinishedStays(t, n - 1); }
  }

  /** With the buffer empty and c stuck at ESC every turn stores one more ESC. */
  lemma {:induction false} StuckOnEscape(out: seq<byte>, n: nat)
    ensures var t := Turns(Running(SLIP_ESC, [], out), n);
            t.Running? && t.c == SLIP_ESC && t.rest == [] && |t.out| == |out| + n
    decreases n
  {
    if n > 0 {
      StuckOnEscape(out + [SLIP_ESC], n - 1);
    }
  }

  lemma {:induction false} HaltingRun(c: byte, rest: seq<byte>, out: seq<byte>, n: nat)
    requires n > |rest|
    requires if rest == [] then c != SLIP_ESC else Halts(rest)
    ensures Turns(Running(c, rest, out), n) == Finished(out + Decode(rest))
    decreases n
  {
    HaltingTurn(c, rest, out);
    var t := DecodeTurn(Running(c, rest, out));
    if t.Finished? {
      FinishedStays(t, n - 1);
    } else {
      HaltingRun(t.c, t.rest, t.out, n - 1);
    }
  }

  lemma {:induction false} DivergingRun(c: byte, rest: seq<byte>, out: seq<byte>, n: nat)
    requires rest != [] && !Halts(rest)
    ensures Turns(Running(c, rest, out), n).Running?
    decreases n
  {
    if n > 0 {
      var t := DecodeTurn(Running(c, rest, out));
      if t.rest == [] {
        StuckOnEscape(t.out, n - 1);
      } else {
        DivergingRun(t.c, t.rest, t.out, n - 1);
      }
    }
  }

  /** slip_decode finishes if and only if its input passes the guard, and then stores Decode of it. */
  lemma TerminatesIff(s: seq<byte>)
    ensures Halts(s) <==> exists n: nat :: Turns(Running(SLIP_END, s, []), n).Finished?
    ensures Halts(s) ==> Turns(Running(SLIP_END, s, []), |s| + 1) == Finished(Decode(s))
  {
    if Halts(s) {
      HaltingRun(SLIP_END, s, [], |s| + 1);
    } else {
      forall n: nat ensures Turns(Running(SLIP_END, s, []), n).Running? {
        DivergingRun(SLIP_END, s, [], n);
      }
    }
  }

  /**
   * Only a last byte of ESC or ESC_ESC can keep the decoder from ending; END,
   * swallowed by an escape or not, cannot.
   */
  lemma {:induction false} HangsOnlyOnEscapes(s: seq<byte>)
    requires !Halts(s)
    ensures s != [] && s[|s| - 1] in [SLIP_ESC, SLIP_ESC_ESC]
  {
    if s[0] == SLIP_ESC {
      if |s| > 2 { HangsOnlyOnEscapes(s[2..]); }
    } else {
      HangsOnlyOnEscapes(s[1..]);
    }
  }

  // ---------------------------------------------------------------- laws

  lemma DecodeToken(b: byte, rest: seq<byte>)
    requires rest != []
    ensures Decode(EscapeByte(b) + rest) == [b] + Decode(rest)
    ensures Halts(EscapeByte(b) + rest) == Halts(rest)
  {
    var s := EscapeByte(b) + rest;
    if IsSpecial(b) {
      assert s[0] == SLIP_ESC && Unescape(s[1]) == b && s[2..] == rest;
    } else {
      assert s[0] == b && s[1..] == rest;
    }
  }

  lemma DecodeEnd(rest: seq<byte>)
    ensures Decode([SLIP_END] + rest) == Decode(rest)
    ensures Halts([SLIP_END] + rest) == Halts(rest)
  {
    assert ([SLIP_END] + rest)[1..] == rest;
  }

  /** In front of at least one more byte, escaped data decodes to itself. */
  lemma {:induction false} DecodeEscaped(d: seq<byte>, rest: seq<byte>)
    requires rest != []
    ensures Decode(Escape(d) + rest) == d + Decode(rest)
    ensures Halts(Escape(d) + rest) == Halts(rest)
  {
    if d == [] {
      assert Escape(d) + rest == rest;
    } else {
      DecodeEscaped(d[1..], rest);
      DecodeToken(d[0], Escape(d[1..]) + rest);
      Assoc(EscapeByte(d[0]), Escape(d[1..]), rest);
      Assoc([d[0]], d[1..], Decode(rest));
      assert [d[0]] + d[1..] == d;
    }
  }

  /** Behind any data, an ESC in front of a byte that is no escape code vanishes and the byte is kept. */
  lemma SpareEscape(d: seq<byte>, b: byte, rest: seq<byte>)
    requires b !in [0xDC, 0xDD]
    ensures Decode(Escape(d) + ([0xDB, b] + rest)) == d + ([b] + Decode(rest))
    ensures rest != [] ==> Halts(Escape(d) + ([0xDB, b] + rest)) == Halts(rest)
  {
    var tail := [SLIP_ESC, b] + rest;
    assert tail[1] == b && tail[2..] == rest;
    DecodeEscaped(d, tail);
  }

  /** n END markers in a row. */
  function Ends(n: nat): seq<byte> {
    seq(n, _ => SLIP_END)
  }

  lemma {:induction false} EndsVanish(n: nat, rest: seq<byte>)
    ensures Decode(Ends(n) + rest) == Decode(rest)
    ensures Halts(Ends(n) + rest) == Halts(rest)
  {
    if n == 0 {
      assert Ends(n) + rest == rest;
    } else {
      EndsVanish(n - 1, rest);
      DecodeEnd(Ends(n - 1) + rest);
      assert Ends(n) + rest == [SLIP_END] + (Ends(n - 1) + rest);
    }
  }

  /** Packets ds on the wire, packet i led by gaps[i] extra END markers. */
  function Spaced(gaps: seq<nat>, ds: seq<seq<byte>>): seq<byte>
    requires |gaps| == |ds|
  {
    if ds == [] then [] else Ends(gaps[0]) + Framed(ds[0]) + Spaced(gaps[1..], ds[1..])
  }

  /** END markers between and in front of complete packets are transparent to the decoder. */
  lemma {:induction false} InteriorEndsTransparent(gaps: seq<nat>, ds: seq<seq<byte>>)
    requires |gaps| == |ds|
    ensures Decode(Spaced(gaps, ds)) == Flatten(ds)
    ensures Halts(Spaced(gaps, ds))
  {
    if ds != [] {
      InteriorEndsTransparent(gaps[1..], ds[1..]);
      var rest := Spaced(gaps[1..], ds[1..]);
      DecodeFramedThen(ds[0], rest);
      EndsVanish(gaps[0], Framed(ds[0]) + rest);
      assert Spaced(gaps, ds) == Ends(gaps[0]) + (Framed(ds[0]) + rest);
    }
  }

  lemma DecodeFramedThen(d: seq<byte>, rest: seq<byte>)
    ensures Decode(Framed(d) + rest) == d + Decode(rest)
    ensures Halts(Framed(d) + rest) == Halts(rest)
  {
    DecodeEnd(rest);
    DecodeEscaped(d, [SLIP_END] + rest);
    DecodeEnd(Escape(d) + ([SLIP_END] + rest));
    Assoc([SLIP_END] + Escape(d), [SLIP_END], rest);
    Assoc([SLIP_END], Escape(d), [SLIP_END] + rest);
  }

  lemma DecodeFramed(d: seq<byte>)
    ensures Decode(Framed(d)) == d && Halts(Framed(d))
  {
    InteriorEndsTransparent([0], [d]);
    assert Spaced([0], [d]) == Framed(d);
    assert Flatten([d]) == d;
  }

  lemma DecodeEscapedEnd(d: seq<byte>)
    ensures Decode(Escape(d) + [SLIP_END]) == d && Halts(Escape(d) + [SLIP_END])
  {
    DecodeEscaped(d, [SLIP_END]);
  }

  /**
   * decode(encode(d)) = d, for every d: exactly when the packet is complete, or
   * there was nothing to send, or only the closing END was lost right after an
   * escaped END byte.
   */
  lemma RoundTripIff(d: seq<byte>)
    requires |d| < 0x1_0000
    ensures Halts(EncodedBytes(d)) && Decode(EncodedBytes(d)) == d
       <==> Stored(d) < 0x1_0000
            && (Fits(d) || d == [] || (|d| == Specials(d) + 1 && d[|d| - 1] == SLIP_END))
  {
    if Stored(d) >= 0x1_0000 {
      WrappedLengthLosesData(d);
    } else if Fits(d) {
      EncodingComplete(d);
      DecodeFramed(d);
    } else if d != [] {
      FullBuffer(d);
      CutPacket(d, 2 * |d|);
    }
  }

  lemma FullBuffer(d: seq<byte>)
    requires d != [] && !Fits(d) && Stored(d) < 0x1_0000
    ensures |d| <= Specials(d) + 1
    ensures 2 * |d| <= |Framed(d)| && EncodedBytes(d) == Framed(d)[..2 * |d|]
  {
    FramedLength(d);
    assert Stored(d) % 0x1_0000 == Stored(d);
  }

  lemma WrappedLengthLosesData(d: seq<byte>)
    requires |d| < 0x1_0000 <= Stored(d)
    ensures Decode(EncodedBytes(d)) != d
  {
    var m := Stored(d);
    assert m % 0x1_0000 == m - 0x1_0000;
    assert |EncodedBytes(d)| <= m - 0x1_0000 < |d|;
    DecodeShrinks(EncodedBytes(d));
  }

  /** An encoding whose buffer filled up before the closing END. */
  lemma CutPacket(d: seq<byte>, m: nat)
    requires d != [] && |d| <= Specials(d) + 1 && m == 2 * |d|
    ensures m < |Framed(d)|
    ensures Halts(Framed(d)[..m]) && Decode(Framed(d)[..m]) == d
       <==> |d| == Specials(d) + 1 && d[|d| - 1] == SLIP_END
  {
    EscapeShape(d);
    var x, init := d[|d| - 1], d[..|d| - 1];
    assert d == init + [x];
    EscapeAppend(init, [x]);
    assert Escape([x]) == EscapeByte(x);
    EscapeShape(init);
    if |d| == Specials(d) + 1 {
      assert Framed(d)[..m] == [SLIP_END] + (Escape(init) + EscapeByte(x));
      DecodeEnd(Escape(init) + EscapeByte(x));
      DecodeEscaped(init, EscapeByte(x));
      LastToken(x);
      assert init + [x] == d;
      assert |init + []| < |d|;
    } else {
      assert Specials([x]) == 1;
      assert Framed(d)[..m] == [SLIP_END] + (Escape(init) + [SLIP_ESC]);
      DecodeEnd(Escape(init) + [SLIP_ESC]);
      DecodeEscaped(init, [SLIP_ESC]);
    }
  }

  lemma LastToken(x: byte)
    ensures Halts(EscapeByte(x)) <==> x != SLIP_ESC
    ensures Decode(EscapeByte(x)) == if IsSpecial(x) then [x] else []
  {
    var s := EscapeByte(x);
    if IsSpecial(x) {
      assert s[2..] == [];
      assert Decode(s) == [Unescape(s[1])] + Decode(s[2..]);
    } else {
      assert s[1..] == [];
    }
  }

  /** The smallest packet that is lost: one END byte leaves a lone ESC on the wire. */
  lemma OneEndByteIsLost()
    ensures Encoded([SLIP_END]) == Some([SLIP_END, SLIP_ESC]) && !Halts([SLIP_END, SLIP_ESC])
  {
    assert Escape([SLIP_END]) == [SLIP_ESC, SLIP_ESC_END];
    assert Framed([SLIP_END])[..2] == [SLIP_END, SLIP_ESC];
    assert [SLIP_END, SLIP_ESC][1..] == [SLIP_ESC];
  }
}
