/**
 * The NCP frame: header, payload and checksum inside a SLIP packet, and the
 * answer to each request (esp_ncp_frame.c, esp_ncp_zb.c).
 */
module Frame {
  import opened Common
  import opened Slip

  // ------------------------------------------------------------ bytes of a frame

  type nibble = x: int | 0 <= x < 0x10

  datatype Header = Header(version: nibble, frameType: nibble, reserved: byte, id: u16, sn: byte, len: u16)

  /** esp_crc16_le seeded with UINT16_MAX; any function of the bytes. */
  type Crc = seq<byte> -> u16

  const HEADER_LEN: nat := 7
  const RESPONSE: nibble := 1
  const NOTIFY: nibble := 2

  function Le16(x: u16): (b: seq<byte>)
    ensures |b| == 2
  {
    [x % 0x100, x / 0x100]
  }

  function FromLe16(low: byte, high: byte): u16 {
    low + 0x100 * high
  }

  /** The packed little-endian layout: version is the low nibble of the first byte, the type its high nibble. */
  function HeaderBytes(h: Header): (b: seq<byte>)
    ensures |b| == HEADER_LEN
  {
    [h.version + 0x10 * h.frameType, h.reserved] + Le16(h.id) + [h.sn] + Le16(h.len)
  }

  function ParseHeader(b: seq<byte>): Header
    requires |b| >= HEADER_LEN
  {
    Header(b[0] % 0x10, b[0] / 0x10, b[1], FromLe16(b[2], b[3]), b[4], FromLe16(b[5], b[6]))
  }

  /** The header is a bijection between its fields and seven bytes. */
  lemma HeaderRoundTrip(h: Header, b: seq<byte>)
    requires |b| == HEADER_LEN
    ensures ParseHeader(HeaderBytes(h)) == h
    ensures HeaderBytes(ParseHeader(b)) == b
  {
    assert forall x: u16 :: FromLe16(x % 0x100, x / 0x100) == x;
  }

  /** Byte by byte: version and type in two nibbles, then reserved, id, serial number and length, low bytes first. */
  lemma HeaderLayout(h: Header, b: seq<byte>)
    requires |b| == HEADER_LEN
    ensures HeaderBytes(h) == b
       <==> && b[0] % 16 == h.version && b[0] / 16 == h.frameType && b[1] == h.reserved
            && b[2] as int + 0x100 * (b[3] as int) == h.id && b[4] == h.sn
            && b[5] as int + 0x100 * (b[6] as int) == h.len
  {
    HeaderRoundTrip(h, b);
  }

  lemma ParseHeaderPrefix(b: seq<byte>, rest: seq<byte>)
    requires |b| == HEADER_LEN
    ensures ParseHeader(b + rest) == ParseHeader(b)
  {
  }

  function FrameBytes(crc: Crc, h: Header, payload: seq<byte>): (b: seq<byte>)
    ensures |b| == HEADER_LEN + |payload| + 2
  {
    var body := HeaderBytes(h) + payload;
    body + Le16(crc(body))
  }

  /** What the receive path makes of a decoded packet. */
  datatype Verdict = Rejected(code: int) | Accepted(header: Header, payload: Option<seq<byte>>)

  /** Memory behind the decoded bytes is zeroed. */
  function At(data: seq<byte>, i: nat): byte {
    if i < |data| then data[i] else 0
  }

  function Examine(crc: Crc, data: seq<byte>): Verdict {
    if |data| < HEADER_LEN then Rejected(ESP_ERR_INVALID_SIZE)
    else
      var h := ParseHeader(data);
      if h.len + HEADER_LEN > |data| then Rejected(ESP_ERR_INVALID_SIZE)
      else if crc(data[..|data| - 2]) != FromLe16(At(data, HEADER_LEN + h.len), At(data, HEADER_LEN + h.len + 1)) then
        Rejected(ESP_ERR_INVALID_CRC)
      else
        Accepted(h, if h.len == 0 then None else Some(data[HEADER_LEN..HEADER_LEN + h.len]))
  }

  function Payload(payload: seq<byte>): Option<seq<byte>> {
    if payload == [] then None else Some(payload)
  }

  /** A frame that was built is accepted, with its own header and payload. */
  lemma ExamineFrame(crc: Crc, h: Header, payload: seq<byte>)
    requires h.len == |payload|
    ensures Examine(crc, FrameBytes(crc, h, payload)) == Accepted(h, Payload(payload))
  {
    var body := HeaderBytes(h) + payload;
    var data := FrameBytes(crc, h, payload);
    HeaderRoundTrip(h, HeaderBytes(h));
    ParseHeaderPrefix(HeaderBytes(h), payload + Le16(crc(body)));
    Assoc(HeaderBytes(h), payload, Le16(crc(body)));
    assert data[..|data| - 2] == body;
    assert data[HEADER_LEN..HEADER_LEN + h.len] == payload;
  }

  /** Header, payload, and the checksum of both, low byte first. */
  lemma FrameLayout(crc: Crc, h: Header, payload: seq<byte>, data: seq<byte>)
    ensures data == FrameBytes(crc, h, payload)
       <==> && |data| == HEADER_LEN + |payload| + 2
            && data[..HEADER_LEN] == HeaderBytes(h) && data[HEADER_LEN..|data| - 2] == payload
            && data[|data| - 2] as int + 0x100 * (data[|data| - 1] as int) == crc(data[..|data| - 2])
  {
    var body := HeaderBytes(h) + payload;
    if |data| == HEADER_LEN + |payload| + 2 {
      var front, low, high := data[..|data| - 2], data[|data| - 2], data[|data| - 1];
      assert data == front + [low, high];
      assert front == data[..HEADER_LEN] + data[HEADER_LEN..|data| - 2];
      assert Le16(low as int + 0x100 * (high as int)) == [low, high];
      if data == FrameBytes(crc, h, payload) {
        assert front == body && [low, high] == Le16(crc(body)) by {
          SameSplit(front, [low, high], body, Le16(crc(body)));
        }
        assert body[..HEADER_LEN] == HeaderBytes(h) && body[HEADER_LEN..] == payload;
      }
    }
  }

  lemma SameSplit(a: seq<byte>, b: seq<byte>, c: seq<byte>, d: seq<byte>)
    requires a + b == c + d && |a| == |c|
    ensures a == c && b == d
  {
    assert (a + b)[..|a|] == a && (c + d)[..|a|] == c;
    assert (a + b)[|a|..] == b && (c + d)[|a|..] == d;
  }

  /**
   * A decoded packet of the size its header announces is accepted if and only if
   * it is the frame of that header and payload, checksum included; otherwise the
   * checksum is what is wrong with it.
   */
  lemma AcceptedIffBuilt(crc: Crc, data: seq<byte>)
    requires |data| >= HEADER_LEN && |data| == HEADER_LEN + ParseHeader(data).len + 2
    ensures var h, payload := ParseHeader(data), data[HEADER_LEN..|data| - 2];
            Examine(crc, data)
            == if data == FrameBytes(crc, h, payload) then Accepted(h, Payload(payload))
               else Rejected(ESP_ERR_INVALID_CRC)
  {
    var h, payload := ParseHeader(data), data[HEADER_LEN..|data| - 2];
    ParseHeaderPrefix(data[..HEADER_LEN], data[HEADER_LEN..]);
    assert data[..HEADER_LEN] + data[HEADER_LEN..] == data;
    HeaderRoundTrip(h, data[..HEADER_LEN]);
    FrameLayout(crc, h, payload, data);
  }

  /**
   * Any other decoded packet: its size is refused exactly when it is shorter than
   * header and payload; and the checksum compared is the word behind the payload,
   * wherever the packet ends, zeros included.
   */
  lemma ExaminedAnySize(crc: Crc, data: seq<byte>)
    ensures Examine(crc, data) == Rejected(ESP_ERR_INVALID_SIZE)
       <==> |data| < HEADER_LEN || |data| < HEADER_LEN + ParseHeader(data).len
    ensures |data| >= HEADER_LEN && |data| >= HEADER_LEN + ParseHeader(data).len ==>
              var h, memory := ParseHeader(data), data + [0, 0];
              var at := HEADER_LEN + h.len;
              Examine(crc, data)
              == if crc(data[..|data| - 2]) == memory[at] as int + 0x100 * (memory[at + 1] as int) then
                   Accepted(h, Payload(data[HEADER_LEN..at]))
                 else Rejected(ESP_ERR_INVALID_CRC)
  {
  }

  /** Frames with a small type and no reserved bits always survive the encoder's buffer. */
  lemma PlainFramesFit(crc: Crc, h: Header, payload: seq<byte>)
    requires h.frameType < 12 && h.reserved == 0 && 2 * |payload| + 18 < 0x1_0000
    ensures Fits(FrameBytes(crc, h, payload))
  {
    var data := FrameBytes(crc, h, payload);
    assert data == [data[0]] + ([data[1]] + data[2..]);
    EscapeAppend([data[0]], [data[1]] + data[2..]);
    EscapeAppend([data[1]], data[2..]);
    EscapeShape(data[2..]);
    assert data[0] == h.version + 0x10 * h.frameType && data[1] == 0;
    assert Specials([data[0]]) == 0 && Specials([data[1]]) == 0;
  }

  // ------------------------------------------------------------ requests and their answers

  datatype Entry = Entry(id: u16, hasHandler: bool)

  datatype HandlerResult = HandlerResult(ret: int, output: Option<seq<byte>>, outlen: u16)

  /** The Zigbee handlers: any function of the frame id and payload. */
  type Handler = (u16, Option<seq<byte>>) -> HandlerResult

  /** A handler reports the length of the buffer it returns, and leaves room for header and checksum. */
  predicate Sound(r: HandlerResult) {
    && r.outlen + HEADER_LEN + 2 < 0x1_0000
    && (r.output.Some? ==> |r.output.value| == r.outlen)
  }

  /** The table, and the slot behind its end that the loop also looks at. */
  datatype Config = Config(crc: Crc, table: seq<Entry>, beyond: Entry, handler: Handler)

  ghost predicate SoundConfig(cfg: Config) {
    forall id, payload :: Sound(cfg.handler(id, payload))
  }

  function Lookup(entries: seq<Entry>, id: u16): Option<Entry> {
    if entries == [] then None
    else if entries[0].id == id then Some(entries[0])
    else Lookup(entries[1..], id)
  }

  function Find(cfg: Config, id: u16): Option<Entry> {
    Lookup(cfg.table + [cfg.beyond], id)
  }

  /** The bytes memcpy finds behind a buffer pointer; a missing buffer leaves the calloc'ed zeros. */
  function Copied(buffer: Option<seq<byte>>, len: nat): (b: seq<byte>)
    requires buffer.Some? ==> |buffer.value| == len
    ensures |b| == len
  {
    match buffer
    case Some(b) => b
    case None => seq(len, _ => 0)
  }

  datatype Answer = Silent | Reply(header: Header, payload: seq<byte>)

  function ErrorReply(code: int, sn: byte): Answer {
    Reply(Header(0, RESPONSE, 0, 0xFFFF, sn, 1), [code % 0x100])
  }

  function Echo(h: Header, len: u16): Header {
    Header(h.version, RESPONSE, 0, h.id, h.sn, len)
  }

  function Serve(cfg: Config, h: Header, payload: Option<seq<byte>>, sn: byte): Answer
    requires SoundConfig(cfg)
  {
    match Find(cfg, h.id)
    case None => Silent
    case Some(e) =>
      if !e.hasHandler then ErrorReply(ESP_ERR_INVALID_ARG, sn)
      else
        var r := cfg.handler(h.id, payload);
        if r.ret != ESP_OK then ErrorReply(r.ret, sn)
        else Reply(Echo(h, r.outlen), Copied(r.output, r.outlen))
  }

  /** What becomes of one chunk. */
  function Judge(crc: Crc, chunk: Option<seq<byte>>): Verdict {
    match chunk
    case None => Rejected(ESP_ERR_INVALID_ARG)
    case Some(bytes) => Examine(crc, Decode(bytes))
  }

  /** The answer to one chunk; `sn` is the random number error replies carry. */
  function AnswerTo(cfg: Config, chunk: Option<seq<byte>>, sn: byte): Answer
    requires SoundConfig(cfg)
  {
    match Judge(cfg.crc, chunk)
    case Rejected(code) => ErrorReply(code, sn)
    case Accepted(h, payload) => Serve(cfg, h, payload, sn)
  }

  /** A bad frame, an entry without handler, or a handler that fails. */
  predicate Fails(cfg: Config, v: Verdict) {
    match v
    case Rejected(_) => true
    case Accepted(h, payload) =>
      Find(cfg, h.id).Some? && (!Find(cfg, h.id).value.hasHandler || cfg.handler(h.id, payload).ret != ESP_OK)
  }

  function Outgoing(crc: Crc, a: Answer): (buffers: seq<Option<seq<byte>>>) {
    match a
    case Silent => []
    case Reply(h, payload) => [Encoded(FrameBytes(crc, h, payload))]
  }

  class FrameLayer {
    const cfg: Config
    /** The buffers handed to esp_ncp_bus_input, oldest first. */
    var sent: seq<Option<seq<byte>>>
    /** What esp_ncp_bus_input answers next. */
    var busResult: int

    constructor (cfg: Config)
      ensures this.cfg == cfg && sent == []
    {
      this.cfg := cfg;
      sent := [];
      busResult := ESP_OK;
    }

    method FrameInput(h: Header, buffer: Option<seq<byte>>, len: u16) returns (ret: int)
      requires HEADER_LEN + len + 2 < 0x1_0000
      requires buffer.Some? ==> |buffer.value| == len
      modifies this`sent
      ensures sent == old(sent) + [Encoded(FrameBytes(cfg.crc, h, Copied(buffer, len)))]
      ensures ret == if Encoded(FrameBytes(cfg.crc, h, Copied(buffer, len))).None? then ESP_FAIL else busResult
    {
      var size := HEADER_LEN + len + 2;
      var data := new byte[size](_ => 0);
      CopyInto(data, 0, HeaderBytes(h));
      if buffer.Some? && len != 0 {
        CopyInto(data, HEADER_LEN, buffer.value);
      }
      assert data[..HEADER_LEN + len] == HeaderBytes(h) + Copied(buffer, len);
      var crcVal := cfg.crc(data[..HEADER_LEN + len]);
      CopyInto(data, HEADER_LEN + len, Le16(crcVal));
      assert data[..] == FrameBytes(cfg.crc, h, Copied(buffer, len));
      var output, outlen := SlipEncode(data[..]);
      sent := sent + [output];
      ret := if output.None? then ESP_FAIL else busResult;
    }

    method RespInput(src: Option<Header>, buffer: Option<seq<byte>>, len: u16, random: nat) returns (ret: int)
      requires HEADER_LEN + len + 2 < 0x1_0000
      requires buffer.Some? ==> |buffer.value| == len
      modifies this`sent
      ensures var h := if src.Some? then Echo(src.value, len) else Header(0, RESPONSE, 0, 0xFFFF, random % 0xFF, len);
              && sent == old(sent) + [Encoded(FrameBytes(cfg.crc, h, Copied(buffer, len)))]
              && ret == if Encoded(FrameBytes(cfg.crc, h, Copied(buffer, len))).None? then ESP_FAIL else busResult
    {
      var h := match src
        case Some(s) => Header(s.version, RESPONSE, 0, s.id, s.sn, len)
        case None => Header(0, RESPONSE, 0, 0xFFFF, random % 0xFF, len);
      ret := FrameInput(h, buffer, len);
    }

    method NotiInput(src: Header, buffer: Option<seq<byte>>, len: u16) returns (ret: int)
      requires HEADER_LEN + len + 2 < 0x1_0000
      requires buffer.Some? ==> |buffer.value| == len
      modifies this`sent
      ensures var bytes := FrameBytes(cfg.crc, Echo(src, len).(frameType := NOTIFY), Copied(buffer, len));
              sent == old(sent) + [Encoded(bytes)] && ret == if Encoded(bytes).None? then ESP_FAIL else busResult
    {
      ret := FrameInput(Header(src.version, NOTIFY, 0, src.id, src.sn, len), buffer, len);
    }

    /** The scan of the function table; its bound lets it read the slot behind the last entry. */
    method ZbOutput(h: Header, payload: Option<seq<byte>>, random: nat) returns (ret: int)
      requires SoundConfig(cfg)
      modifies this`sent
      ensures var a := Serve(cfg, h, payload, random % 0xFF);
              sent == old(sent) + if ret == ESP_OK then Outgoing(cfg.crc, a) else []
      ensures ret != ESP_OK <==> Fails(cfg, Accepted(h, payload))
      ensures ret != ESP_OK ==> Serve(cfg, h, payload, random % 0xFF) == ErrorReply(ret, random % 0xFF)
    {
      ret := ESP_OK;
      ghost var slots := cfg.table + [cfg.beyond];
      var i := 0;
      while i <= |cfg.table|
        invariant 0 <= i <= |slots|
        invariant sent == old(sent) && ret == ESP_OK
        invariant Lookup(slots, h.id) == Lookup(slots[i..], h.id)
      {
        var entry := if i < |cfg.table| then cfg.table[i] else cfg.beyond;
        assert entry == slots[i..][0] && slots[i..][1..] == slots[i + 1..];
        if entry.id != h.id {
          i := i + 1;
          continue;
        }
        if entry.hasHandler {
          var r := cfg.handler(h.id, payload);
          ret := r.ret;
          if ret == ESP_OK {
            var ignored := RespInput(Some(h), r.output, r.outlen, random);
          }
        } else {
          ret := ESP_ERR_INVALID_ARG;
        }
        break;
      }
    }

    /** The length and checksum tests on a decoded packet. */
    method Validate(output: array<byte>, outlen: nat) returns (v: Verdict)
      requires outlen <= output.Length && ZeroFrom(output[..], outlen)
      requires outlen != 0 ==> outlen + 2 <= output.Length
      ensures v == Examine(cfg.crc, output[..outlen])
    {
      if outlen < HEADER_LEN {
        return Rejected(ESP_ERR_INVALID_SIZE);
      }
      var h := ParseHeader(output[..outlen]);
      if h.len + HEADER_LEN > outlen {
        return Rejected(ESP_ERR_INVALID_SIZE);
      }
      var at := HEADER_LEN + h.len;
      assert forall i | outlen <= i < output.Length :: output[..][i] == 0;
      var checksum := FromLe16(output[at], output[at + 1]);
      SliceOfPrefix(output[..], outlen, 0, outlen - 2);
      var crcVal := cfg.crc(output[..outlen - 2]);
      if crcVal != checksum {
        return Rejected(ESP_ERR_INVALID_CRC);
      }
      SliceOfPrefix(output[..], outlen, HEADER_LEN, at);
      v := Accepted(h, if h.len != 0 then Some(output[HEADER_LEN..at]) else None);
    }

    method FrameOutput(buffer: Option<seq<byte>>, random: nat) returns (ret: int)
      requires SoundConfig(cfg)
      requires buffer.Some? ==> |buffer.value| < 0x1_0000 && Halts(buffer.value)
      modifies this`sent
      ensures sent == old(sent) + Outgoing(cfg.crc, AnswerTo(cfg, buffer, random % 0xFF))
      ensures ret == if Fails(cfg, Judge(cfg.crc, buffer)) then busResult else ESP_OK
    {
      ret := ESP_ERR_INVALID_ARG;
      if buffer.Some? {
        var output, outlen := SlipDecode(buffer.value);
        var v := Validate(output, outlen);
        match v
        case Rejected(code) => ret := code;
        case Accepted(h, payload) => ret := ZbOutput(h, payload, random);
      }
      if ret != ESP_OK {
        ErrorReplyFits(cfg.crc, ret, random % 0xFF);
        ret := RespInput(None, Some([ret % 0x100]), 1, random);
      }
    }
  }

  lemma ErrorReplyFits(crc: Crc, code: int, sn: byte)
    ensures var a := ErrorReply(code, sn); IsErrorReply(a) && Encoded(FrameBytes(crc, a.header, a.payload)).Some?
  {
    var a := ErrorReply(code, sn);
    PlainFramesFit(crc, a.header, a.payload);
    EncodingComplete(FrameBytes(crc, a.header, a.payload));
  }

  /** memcpy(data + offset, bytes, |bytes|) */
  method CopyInto(data: array<byte>, offset: nat, bytes: seq<byte>)
    requires offset + |bytes| <= data.Length
    modifies data
    ensures data[..] == old(data[..offset]) + bytes + old(data[offset + |bytes|..])
  {
    forall i | 0 <= i < |bytes| {
      data[offset + i] := bytes[i];
    }
  }

  // ------------------------------------------------------------ laws

  predicate IsErrorReply(a: Answer) {
    a.Reply? && a.header.id == 0xFFFF && a.header.version == 0 && |a.payload| == 1 && a.header.len == 1
  }

  /** The one byte an error reply carries: why the frame was refused, or what the handler reported. */
  function FailureCode(cfg: Config, v: Verdict): int
    requires Fails(cfg, v)
  {
    match v
    case Rejected(code) => code
    case Accepted(h, payload) =>
      if Find(cfg, h.id).value.hasHandler then cfg.handler(h.id, payload).ret else ESP_ERR_INVALID_ARG
  }

  /**
   * Exactly one type-1 response per chunk, and which: an error reply with the
   * code of the failure for a bad frame, a missing or a failing handler; an echo
   * with the handler's output when it succeeds; and none at all exactly for a
   * well-formed request whose id no slot carries.
   */
  lemma OneResponse(cfg: Config, chunk: Option<seq<byte>>, sn: byte)
    requires SoundConfig(cfg)
    ensures var a, v := AnswerTo(cfg, chunk, sn), Judge(cfg.crc, chunk);
            && |Outgoing(cfg.crc, a)| == (if a.Silent? then 0 else 1)
            && (a.Silent? <==> v.Accepted? && forall e | e in cfg.table + [cfg.beyond] :: e.id != v.header.id)
            && (a.Reply? ==> a.header.frameType == RESPONSE && a.header.reserved == 0 && a.header.len == |a.payload|)
            && (Fails(cfg, v) ==> IsErrorReply(a) && a.header.sn == sn && a.payload == [FailureCode(cfg, v) % 0x100])
            && (a.Reply? && !Fails(cfg, v) ==>
                  var r := cfg.handler(v.header.id, v.payload);
                  && r.ret == ESP_OK && a.header.id == v.header.id && a.header.sn == v.header.sn
                  && a.header.version == v.header.version && a.header.len == r.outlen
                  && a.payload == Copied(r.output, r.outlen))
  {
    var v := Judge(cfg.crc, chunk);
    if v.Accepted? {
      LookupFindsFirst(cfg.table + [cfg.beyond], v.header.id);
    }
  }

  /** Slot i is the first of all, the one behind the table included, that has the id. */
  predicate FirstSlot(cfg: Config, id: u16, i: nat) {
    var slots := cfg.table + [cfg.beyond];
    i < |slots| && slots[i].id == id && forall j | 0 <= j < i :: slots[j].id != id
  }

  lemma {:induction false} LookupOfFirst(entries: seq<Entry>, id: u16, i: nat)
    requires i < |entries| && entries[i].id == id && forall j | 0 <= j < i :: entries[j].id != id
    ensures Lookup(entries, id) == Some(entries[i])
    decreases i
  {
    if i > 0 {
      LookupOfFirst(entries[1..], id, i - 1);
    }
  }

  /** The first slot of the id decides, and its handler's result, field by field. */
  lemma ServedByFirstSlot(cfg: Config, h: Header, payload: Option<seq<byte>>, sn: byte, i: nat)
    requires SoundConfig(cfg) && FirstSlot(cfg, h.id, i)
    ensures var slot, r, a := (cfg.table + [cfg.beyond])[i], cfg.handler(h.id, payload), Serve(cfg, h, payload, sn);
            && (Fails(cfg, Accepted(h, payload)) <==> !slot.hasHandler || r.ret != 0)
            && (!slot.hasHandler ==> a == Reply(Header(0, 1, 0, 0xFFFF, sn, 1), [0x02]))
            && (slot.hasHandler && r.ret != 0 ==> a == Reply(Header(0, 1, 0, 0xFFFF, sn, 1), [r.ret % 0x100]))
            && (slot.hasHandler && r.ret == 0 ==>
                  && a.Reply? && a.header == Header(h.version, 1, 0, h.id, h.sn, r.outlen)
                  && |a.payload| == r.outlen
                  && forall k | 0 <= k < r.outlen :: a.payload[k] == if r.output.Some? then r.output.value[k] else 0)
  {
    LookupOfFirst(cfg.table + [cfg.beyond], h.id, i);
  }

  /** A chunk that is missing or refused is answered with the reason: 2, 4 or 9. */
  lemma RefusedChunk(cfg: Config, chunk: Option<seq<byte>>, sn: byte)
    requires SoundConfig(cfg)
    ensures chunk.None? ==> AnswerTo(cfg, chunk, sn) == Reply(Header(0, 1, 0, 0xFFFF, sn, 1), [0x02])
    ensures chunk.Some? ==>
              match Examine(cfg.crc, Decode(chunk.value)) {
                case Rejected(code) =>
                  && AnswerTo(cfg, chunk, sn) == Reply(Header(0, 1, 0, 0xFFFF, sn, 1), [code % 0x100])
                  && code % 0x100 == if code == ESP_ERR_INVALID_SIZE then 0x04 else 0x09
                case Accepted(h, payload) => AnswerTo(cfg, chunk, sn) == Serve(cfg, h, payload, sn)
              }
  {
  }

  /** What is handed to the bus reads back, cut as one packet, as the answer with its header and payload. */
  lemma SentReadsBack(crc: Crc, a: Answer)
    ensures a.Silent? <==> Outgoing(crc, a) == []
    ensures a.Reply? && a.header.len == |a.payload| && Fits(FrameBytes(crc, a.header, a.payload)) ==>
              && |Outgoing(crc, a)| == 1 && Outgoing(crc, a)[0].Some?
              && var w := Outgoing(crc, a)[0].value;
                 Halts(w) && Examine(crc, Decode(w)) == Accepted(a.header, Payload(a.payload))
  {
    if a.Reply? && a.header.len == |a.payload| && Fits(FrameBytes(crc, a.header, a.payload)) {
      EncodingComplete(FrameBytes(crc, a.header, a.payload));
      DecodeFramed(FrameBytes(crc, a.header, a.payload));
      ExamineFrame(crc, a.header, a.payload);
    }
  }

  /**
   * From the chunk to the bytes on the bus: a refused or failing one is answered
   * by a complete packet with id 0xFFFF; a served one by a packet that reads back
   * with the request's version, id and serial number, when the answer fits.
   */
  lemma AnswerOnTheBus(cfg: Config, chunk: Option<seq<byte>>, sn: byte)
    requires SoundConfig(cfg)
    ensures var v, sent := Judge(cfg.crc, chunk), Outgoing(cfg.crc, AnswerTo(cfg, chunk, sn));
            && (Fails(cfg, v) ==>
                  && |sent| == 1 && sent[0].Some? && Halts(sent[0].value)
                  && Examine(cfg.crc, Decode(sent[0].value))
                     == Accepted(Header(0, 1, 0, 0xFFFF, sn, 1), Some([FailureCode(cfg, v) % 0x100])))
            && (!Fails(cfg, v) && Find(cfg, v.header.id).Some? ==>
                  var r := cfg.handler(v.header.id, v.payload);
                  var h, out := Header(v.header.version, 1, 0, v.header.id, v.header.sn, r.outlen),
                      Copied(r.output, r.outlen);
                  Fits(FrameBytes(cfg.crc, h, out)) ==>
                    && |sent| == 1 && sent[0].Some? && Halts(sent[0].value)
                    && Examine(cfg.crc, Decode(sent[0].value)) == Accepted(h, Payload(out)))
            && (!Fails(cfg, v) && Find(cfg, v.header.id).None? ==> sent == [])
  {
    var v, a := Judge(cfg.crc, chunk), AnswerTo(cfg, chunk, sn);
    if Fails(cfg, v) {
      PlainFramesFit(cfg.crc, a.header, a.payload);
    }
    SentReadsBack(cfg.crc, a);
  }

  lemma {:induction false} LookupFindsFirst(entries: seq<Entry>, id: u16)
    ensures Lookup(entries, id).None? <==> forall e | e in entries :: e.id != id
    ensures Lookup(entries, id).Some? ==>
              exists i :: && 0 <= i < |entries| && entries[i] == Lookup(entries, id).value && entries[i].id == id
                          && forall j | 0 <= j < i :: entries[j].id != id
  {
    if entries != [] {
      LookupFindsFirst(entries[1..], id);
      if entries[0].id == id {
        assert entries[0] in entries;
      } else {
        assert forall e | e in entries :: e == entries[0] || e in entries[1..];
        if Lookup(entries[1..], id).Some? {
          var i :| && 0 <= i < |entries[1..]| && entries[1..][i] == Lookup(entries, id).value
              && entries[1..][i].id == id
                   && forall j | 0 <= j < i :: entries[1..][j].id != id;
          assert entries[i + 1] == entries[1..][i];
          forall j | 0 <= j < i + 1 ensures entries[j].id != id {
            if j > 0 { assert entries[j] == entries[1..][j - 1]; }
          }
        }
      }
    }
  }

  /**
   * Request and response over the link: the host's encoded request reaches
   * the handler unchanged, and the answer the NCP puts on the wire is complete
   * and reads back at the host as the header and payload that were answered.
   */
  lemma RequestResponse(cfg: Config, h: Header, payload: seq<byte>, sn: byte)
    requires SoundConfig(cfg) && h.len == |payload| && Fits(FrameBytes(cfg.crc, h, payload))
    ensures var request := Encoded(FrameBytes(cfg.crc, h, payload));
            request.Some? && AnswerTo(cfg, request, sn) == Serve(cfg, h, Payload(payload), sn)
    ensures var a := Serve(cfg, h, Payload(payload), sn);
            a.Reply? && 2 * |a.payload| + 18 < 0x1_0000 ==>
              var wire := Encoded(FrameBytes(cfg.crc, a.header, a.payload));
              && wire.Some? && Halts(wire.value)
              && Examine(cfg.crc, Decode(wire.value)) == Accepted(a.header, Payload(a.payload))
  {
    var data := FrameBytes(cfg.crc, h, payload);
    EncodingComplete(data);
    DecodeFramed(data);
    ExamineFrame(cfg.crc, h, payload);
    var a := Serve(cfg, h, Payload(payload), sn);
    if a.Reply? && 2 * |a.payload| + 18 < 0x1_0000 {
      var reply := FrameBytes(cfg.crc, a.header, a.payload);
      PlainFramesFit(cfg.crc, a.header, a.payload);
      EncodingComplete(reply);
      DecodeFramed(reply);
      ExamineFrame(cfg.crc, a.header, a.payload);
    }
  }

  // ------------------------------------------------------------ the shipped table

  const NETWORK_SETUP: seq<Entry> := [
    Entry(0x0000, true), Entry(0x000C, true), Entry(0x000B, true), Entry(0x000E, true),
    Entry(0x000D, true), Entry(0x0010, true), Entry(0x0012, true), Entry(0x0014, true),
    Entry(0x0016, true)
  ]

  const NETWORK_RUN: seq<Entry> := [
    Entry(0x0004, true), Entry(0x0008, true), Entry(0x0009, true), Entry(0x000A, true),
    Entry(0x0001, true), Entry(0x0002, true), Entry(0x0003, true), Entry(0x0006, false),
    Entry(0x0005, false), Entry(0x0007, false)
  ]

  const NETWORK_PARAMETERS: seq<Entry> := [
    Entry(0x001D, true), Entry(0x001F, true), Entry(0x0013, true), Entry(0x000F, true),
    Entry(0x0017, true), Entry(0x0018, true), Entry(0x0019, true), Entry(0x001A, true),
    Entry(0x001B, true), Entry(0x001C, true), Entry(0x001E, true), Entry(0x0020, true)
  ]

  const NETWORK_SECURITY: seq<Entry> := [
    Entry(0x0022, true), Entry(0x0023, true), Entry(0x0024, true), Entry(0x0025, true),
    Entry(0x0026, true), Entry(0x0027, true), Entry(0x0028, true), Entry(0x0029, true),
    Entry(0x002A, true), Entry(0x002B, true), Entry(0x002C, true), Entry(0x002D, true)
  ]

  const ZCL_ZDO_APS: seq<Entry> := [
    Entry(0x0100, true), Entry(0x0101, true), Entry(0x0102, true), Entry(0x0103, true),
    Entry(0x0104, true), Entry(0x0105, true), Entry(0x0106, true), Entry(0x0107, true),
    Entry(0x0108, false), Entry(0x0200, true), Entry(0x0201, true), Entry(0x0202, true),
    Entry(0x0300, true), Entry(0x0301, true), Entry(0x0302, true)
  ]

  /** ncp_zb_func_table, in its order. */
  const FUNC_TABLE: seq<Entry> := NETWORK_SETUP + NETWORK_RUN + NETWORK_PARAMETERS + NETWORK_SECURITY + ZCL_ZDO_APS

  /** Frame ids the protocol header declares but the table does not carry: requests for them go unanswered. */
  const DECLARED_BUT_ABSENT: set<u16> := {0x0011, 0x0015, 0x0021}

  /** Ids that are in the table without a handler. */
  const WITHOUT_HANDLER: set<u16> := {0x0005, 0x0006, 0x0007, 0x0108}

  predicate Declared(id: u16) {
    id <= 0x002D || 0x0100 <= id <= 0x0108 || 0x0200 <= id <= 0x0202 || 0x0300 <= id <= 0x0302
  }

  predicate Classified(e: Entry) {
    Declared(e.id) && e.id !in DECLARED_BUT_ABSENT && (e.hasHandler <==> e.id !in WITHOUT_HANDLER)
  }

  lemma ClassifiedNetworkSetup(e: Entry)
    requires e in NETWORK_SETUP
    ensures Classified(e)
  {
  }

  lemma ClassifiedNetworkRun(e: Entry)
    requires e in NETWORK_RUN
    ensures Classified(e)
  {
  }

  lemma ClassifiedNetworkParameters(e: Entry)
    requires e in NETWORK_PARAMETERS
    ensures Classified(e)
  {
  }

  lemma ClassifiedNetworkSecurity(e: Entry)
    requires e in NETWORK_SECURITY
    ensures Classified(e)
  {
  }

  lemma ClassifiedZclZdoAps(e: Entry)
    requires e in ZCL_ZDO_APS
    ensures Classified(e)
  {
  }

  lemma TableEntry(e: Entry)
    requires e in FUNC_TABLE
    ensures Classified(e)
  {
    if e in NETWORK_SETUP {
      ClassifiedNetworkSetup(e);
    } else if e in NETWORK_RUN {
      ClassifiedNetworkRun(e);
    } else if e in NETWORK_PARAMETERS {
      ClassifiedNetworkParameters(e);
    } else if e in NETWORK_SECURITY {
      ClassifiedNetworkSecurity(e);
    } else {
      ClassifiedZclZdoAps(e);
    }
  }

  lemma TableHas(id: u16)
    requires Declared(id) && id !in DECLARED_BUT_ABSENT
    ensures Entry(id, id !in WITHOUT_HANDLER) in FUNC_TABLE
  {
  }

  /** Which declared ids the shipped table serves, refuses and ignores. */
  lemma ShippedTable(id: u16)
    ensures Lookup(FUNC_TABLE, id).Some? <==> Declared(id) && id !in DECLARED_BUT_ABSENT
    ensures Lookup(FUNC_TABLE, id).Some? ==> (Lookup(FUNC_TABLE, id).value.hasHandler <==> id !in WITHOUT_HANDLER)
  {
    LookupFindsFirst(FUNC_TABLE, id);
    if Lookup(FUNC_TABLE, id).Some? {
      TableEntry(Lookup(FUNC_TABLE, id).value);
    } else if Declared(id) && id !in DECLARED_BUT_ABSENT {
      TableHas(id);
    }
  }
}
