/** The console's argument collectors (argtable_ext.c). */
module ArgTable {
  import opened Common
  import opened Parser

  // ------------------------------------------------------------ values collected in an array

  /** One scan: None when the argument is refused, Some(None) for an option given without a value. */
  function Scanned<T>(parse: CString -> Result<T>, argval: Option<CString>): Option<Option<T>> {
    match argval
    case None => Some(None)
    case Some(s) => if parse(s).Ok? then Some(Some(parse(s).value)) else None
  }

  /** The accepted arguments of a command line, in order. */
  function Accepted<T>(parse: CString -> Result<T>, args: seq<Option<CString>>): seq<Option<T>> {
    if args == [] then []
    else
      var rest := Accepted(parse, args[1..]);
      match Scanned(parse, args[0])
      case None => rest
      case Some(v) => [v] + rest
  }

  lemma {:induction false} AcceptedSnoc<T>(parse: CString -> Result<T>, args: seq<Option<CString>>,
                                           arg: Option<CString>)
    ensures Accepted(parse, args + [arg])
         == Accepted(parse, args) + match Scanned(parse, arg) { case None => [] case Some(v) => [v] }
  {
    if args == [] {
      assert args + [arg] == [arg] && [arg][1..] == [];
    } else {
      AcceptedSnoc(parse, args[1..], arg);
      assert (args + [arg])[1..] == args[1..] + [arg];
    }
  }

  /** Where an argument ends up among the accepted ones: behind those in front of it, or nowhere. */
  lemma AcceptedAt<T>(parse: CString -> Result<T>, args: seq<Option<CString>>, i: nat)
    requires i < |args|
    ensures var front, all, arg := Accepted(parse, args[..i]), Accepted(parse, args), args[i];
            && front <= all
            && (arg.None? ==> |front| < |all| && all[|front|] == None)
            && (arg.Some? && parse(arg.value).Ok? ==>
                  |front| < |all| && all[|front|] == Some(parse(arg.value).value))
            && (arg.Some? && parse(arg.value).Err? ==> Accepted(parse, args[..i + 1]) == front)
            && (i + 1 == |args| ==> |all| == |front| + if arg.Some? && parse(arg.value).Err? then 0 else 1)
  {
    assert args[..i + 1] == args[..i] + [args[i]];
    AcceptedSnoc(parse, args[..i], args[i]);
    AcceptedPrefix(parse, args, i);
    AcceptedPrefix(parse, args, i + 1);
    if i + 1 == |args| {
      assert args[..i + 1] == args;
    }
  }

  lemma {:induction false} AcceptedPrefix<T>(parse: CString -> Result<T>, args: seq<Option<CString>>, i: nat)
    requires i <= |args|
    ensures Accepted(parse, args[..i]) <= Accepted(parse, args)
    decreases |args| - i
  {
    if i == |args| {
      assert args[..i] == args;
    } else {
      assert args[..i + 1] == args[..i] + [args[i]];
      AcceptedSnoc(parse, args[..i], args[i]);
      AcceptedPrefix(parse, args, i + 1);
    }
  }

  /** arg_u8_t, arg_u16_t, arg_u32_t and arg_addr_t: a count and an array of maxcount slots. */
  class ArgValues<T> {
    const parse: CString -> Result<T>
    const val: array<T>
    var count: nat

    ghost predicate Valid()
      reads this
    {
      count <= val.Length
    }

    /** The first `count` slots hold `values`; a value-less option leaves its slot as it was. */
    ghost predicate Holds(values: seq<Option<T>>)
      reads this, val
    {
      && Valid() && |values| == count
      && forall i | 0 <= i < count :: values[i].Some? ==> val[i] == values[i].value
    }

    constructor (parse: CString -> Result<T>, val: array<T>)
      ensures Valid() && count == 0 && this.parse == parse && this.val == val
      ensures Holds([])
    {
      this.parse, this.val, count := parse, val, 0;
    }

    method Scan(argval: Option<CString>) returns (ret: int)
      requires Valid()
      modifies this`count, val
      ensures Valid()
      ensures old(count) == val.Length ==>
                ret == ESP_ERR_INVALID_STATE && count == old(count) && val[..] == old(val[..])
      ensures old(count) < val.Length && argval.None? ==>
                ret == ESP_OK && count == old(count) + 1 && val[..] == old(val[..])
      ensures old(count) < val.Length && argval.Some? ==>
                match parse(argval.value) {
                  case Ok(v) => ret == ESP_OK && count == old(count) + 1 && val[..] == old(val[..])[old(count) := v]
                  case Err(code) => ret == code && count == old(count) && val[..] == old(val[..])
                }
    {
      ret := ESP_OK;
      if count == val.Length {
        ret := ESP_ERR_INVALID_STATE;
      } else if argval.None? {
        count := count + 1;
      } else {
        match parse(argval.value)
        case Ok(v) =>
          val[count] := v;
          count := count + 1;
        case Err(code) => ret := code;
      }
    }

    /** Any sequence of scans: the slots hold the accepted arguments in order, as many as fit. */
    method ScanAll(args: seq<Option<CString>>)
      requires Valid() && count == 0
      modifies this`count, val
      ensures count <= val.Length && Holds(Take(Accepted(parse, args), val.Length))
    {
      var i := 0;
      while i < |args|
        invariant 0 <= i <= |args|
        invariant Holds(Take(Accepted(parse, args[..i]), val.Length))
      {
        assert args[..i + 1] == args[..i] + [args[i]];
        AcceptedSnoc(parse, args[..i], args[i]);
        var ret := Scan(args[i]);
        i := i + 1;
      }
      assert args[..i] == args;
    }
  }

  /** arg_u16_scanfn behind the name lookup: what is no number may be a device name. */
  function DeviceId(nameToId: CString -> u16): CString -> Result<int> {
    (s: CString) =>
      var r := Narrow(Some(s), UINT16_MAX);
      if r == Err(ESP_ERR_INVALID_ARG) && nameToId(s) != 0xFFFF then Ok(nameToId(s)) else r
  }

  /** No digit where a number would start. */
  predicate NoNumber(s: CString) {
    var (hex, ds) := Digits(s);
    ds == [] || DigitValue(hex, ds[0]).None?
  }

  /**
   * A device name is looked up exactly where no number stands: what does not
   * start with a digit is its device's id, or bad format when no device has that
   * name; a number is itself when it has sixteen bits; a larger one is refused
   * for its size, be it a name or not.
   */
  lemma DeviceIdMeans(nameToId: CString -> u16, s: CString)
    ensures var (hex, ds) := Digits(s);
            var r, id := DeviceId(nameToId)(s), nameToId(s);
            && (NoNumber(s) ==> r == if id != 0xFFFF then Ok(id) else Err(ESP_ERR_INVALID_ARG))
            && (ds != [] && AllDigits(hex, ds) && Numeral(hex, ds) < TWO64 ==>
                  var n := Numeral(hex, ds); r == if n <= 0xFFFF then Ok(n) else Err(ESP_ERR_INVALID_SIZE))
            && (!AllDigits(hex, ds) && Passes(hex, ds[..LeadingDigits(hex, ds)]) ==>
                  r == if id != 0xFFFF then Ok(id) else Err(ESP_ERR_INVALID_ARG))
            && (!AllDigits(hex, ds) && !Passes(hex, ds[..LeadingDigits(hex, ds)]) ==> r == Err(ESP_ERR_INVALID_SIZE))
  {
    NarrowIsExactUnless(s, UINT16_MAX);
    ParseU64IsExactUnless(s);
  }

  method ScanDeviceId(values: ArgValues<int>, nameToId: CString -> u16, argval: Option<CString>) returns (ret: int)
    requires values.Valid() && values.parse == DeviceId(nameToId)
    modifies values`count, values.val
    ensures values.Valid()
    ensures old(values.count) == values.val.Length ==>
              ret == ESP_ERR_INVALID_STATE && values.count == old(values.count) && values.val[..] == old(values.val[..])
    ensures old(values.count) < values.val.Length && argval.None? ==>
              ret == ESP_OK && values.count == old(values.count) + 1 && values.val[..] == old(values.val[..])
    ensures old(values.count) < values.val.Length && argval.Some? ==>
              match DeviceId(nameToId)(argval.value) {
                case Ok(v) => ret == ESP_OK && values.count == old(values.count) + 1
                              && values.val[..] == old(values.val[..])[old(values.count) := v]
                case Err(code) => ret == code && values.count == old(values.count)
                                  && values.val[..] == old(values.val[..])
              }
    ensures old(values.count) < values.val.Length && argval.Some? && NoNumber(argval.value)
            && nameToId(argval.value) != 0xFFFF ==>
              ret == ESP_OK && values.val[..] == old(values.val[..])[old(values.count) := nameToId(argval.value)]
  {
    ret := ESP_OK;
    if values.count == values.val.Length {
      ret := ESP_ERR_INVALID_STATE;
    } else if argval.None? {
      values.count := values.count + 1;
    } else {
      var number := ParseNarrow(argval, UINT16_MAX);
      match number
      case Ok(v) =>
        values.val[values.count] := v;
        values.count := values.count + 1;
      case Err(code) => ret := code;
    }
    if argval.Some? {
      DeviceIdMeans(nameToId, argval.value);
    }
    if ret == ESP_ERR_INVALID_ARG {
      var deviceId := nameToId(argval.value);
      if deviceId != 0xFFFF {
        values.val[values.count] := deviceId;
        values.count := values.count + 1;
        ret := ESP_OK;
      }
    }
  }

  /** Any sequence of scans: numbers and device names alike, in order, as many as fit. */
  method ScanAllDeviceIds(values: ArgValues<int>, nameToId: CString -> u16, args: seq<Option<CString>>)
    requires values.Valid() && values.count == 0 && values.parse == DeviceId(nameToId)
    modifies values`count, values.val
    ensures values.count <= values.val.Length
    ensures values.Holds(Take(Accepted(DeviceId(nameToId), args), values.val.Length))
  {
    var i := 0;
    while i < |args|
      invariant 0 <= i <= |args|
      invariant values.Holds(Take(Accepted(values.parse, args[..i]), values.val.Length))
    {
      assert args[..i + 1] == args[..i] + [args[i]];
      AcceptedSnoc(values.parse, args[..i], args[i]);
      var ret := ScanDeviceId(values, nameToId, args[i]);
      i := i + 1;
    }
    assert args[..i] == args;
  }

  // ------------------------------------------------------------ hex arguments own their buffers

  /** (strlen(argval) - 1) / 2 in the target's 32-bit size_t */
  function BufferLength(s: CString): nat {
    (|s| - 1) % 0x1_0000_0000 / 2
  }

  /** The length computed from strlen is exactly the decoded length of every well-formed string, and never too short. */
  lemma BufferLengthIsExact(s: CString)
    requires |s| < 0x1_0000_0000
    ensures WellFormedHex(s) ==> BufferLength(s) == |Pairs(s, 2)| > 0
    ensures |s| >= 2 ==> |Pairs(s, 2)| <= BufferLength(s)
  {
    if |s| >= 2 {
      PairsOfDigits(s, 2);
    }
  }

  /** A malloc'ed buffer and how often it has been freed. */
  class HexBuffer {
    const data: array<byte>
    var freed: nat

    constructor (size: nat)
      ensures fresh(data) && data.Length == size && freed == 0
    {
      data := new byte[size];
      freed := 0;
    }

    method Free()
      requires freed == 0
      modifies this
      ensures freed == 1
    {
      freed := 1;
    }
  }

  predicate AcceptsHex(s: CString) {
    WellFormedHex(s) && BufferLength(s) < 0xFFFF
  }

  /** "0x", then one to 65534 pairs of hex digits. */
  lemma AcceptsHexIff(s: CString)
    requires |s| < 0x1_0000_0000
    ensures AcceptsHex(s)
       <==> |s| > 2 && s[..2] == "0x" && AllDigits(true, s[2..]) && |s| % 2 == 0 && (|s| - 2) / 2 <= 65534
  {
  }

  function AcceptedHex(args: seq<CString>): seq<CString> {
    if args == [] then [] else (if AcceptsHex(args[0]) then [args[0]] else []) + AcceptedHex(args[1..])
  }

  lemma {:induction false} AcceptedHexSnoc(args: seq<CString>, arg: CString)
    ensures AcceptedHex(args + [arg]) == AcceptedHex(args) + if AcceptsHex(arg) then [arg] else []
  {
    if args == [] {
      assert args + [arg] == [arg] && [arg][1..] == [];
    } else {
      AcceptedHexSnoc(args[1..], arg);
      assert (args + [arg])[1..] == args[1..] + [arg];
    }
  }

  /** Where a string ends up among the accepted ones. */
  lemma AcceptedHexAt(args: seq<CString>, i: nat)
    requires i < |args|
    ensures var front, all := AcceptedHex(args[..i]), AcceptedHex(args);
            && front <= AcceptedHex(args[..i + 1]) <= all
            && (AcceptsHex(args[i]) ==> |front| < |all| && all[|front|] == args[i])
            && (!AcceptsHex(args[i]) ==> AcceptedHex(args[..i + 1]) == front)
  {
    assert args[..i + 1] == args[..i] + [args[i]];
    AcceptedHexSnoc(args[..i], args[i]);
    AcceptedHexPrefix(args, i + 1);
  }

  lemma {:induction false} AcceptedHexPrefix(args: seq<CString>, i: nat)
    requires i <= |args|
    ensures AcceptedHex(args[..i]) <= AcceptedHex(args)
    decreases |args| - i
  {
    if i == |args| {
      assert args[..i] == args;
    } else {
      assert args[..i + 1] == args[..i] + [args[i]];
      AcceptedHexSnoc(args[..i], args[i]);
      AcceptedHexPrefix(args, i + 1);
    }
  }

  lemma AcceptedHexNext(args: seq<CString>, i: nat, room: nat)
    requires i < |args|
    ensures var texts := Take(AcceptedHex(args[..i]), room);
            Take(AcceptedHex(args[..i + 1]), room)
            == if |texts| < room && AcceptsHex(args[i]) then texts + [args[i]] else texts
  {
    assert args[..i + 1] == args[..i] + [args[i]];
    AcceptedHexSnoc(args[..i], args[i]);
  }

  class ArgHex {
    const hsize: array<u16>
    const hval: array<HexBuffer?>
    var count: nat

    ghost predicate Valid()
      reads this
    {
      hsize.Length == hval.Length && count <= hval.Length
    }

    /** The slots in use hold different buffers, none of them freed. */
    ghost predicate Owning()
      reads this, hval, set i | 0 <= i < hval.Length :: hval[i]
    {
      && Valid()
      && (forall i | 0 <= i < count :: hval[i] != null && hval[i].freed == 0)
      && (forall i, j | 0 <= i < j < count :: hval[i] != hval[j])
    }

    /** The slot arrays come from malloc: their contents are whatever was there. */
    constructor (hsize: array<u16>, hval: array<HexBuffer?>)
      requires hsize.Length == hval.Length
      ensures Owning() && count == 0 && this.hsize == hsize && this.hval == hval
    {
      this.hsize, this.hval, count := hsize, hval, 0;
    }

    /**
     * arg_hex_scanfn. A string is accepted exactly when it is well formed and
     * not too long; its bytes and their number go into the next slot.
     */
    method Scan(argval: Option<CString>) returns (ret: int)
      requires Valid() && (argval.Some? ==> |argval.value| < 0x1_0000_0000)
      modifies this`count, hsize, hval
      ensures Valid()
      ensures old(count) == hval.Length ==> ret == ESP_ERR_INVALID_STATE && count == old(count)
      ensures old(count) < hval.Length && argval.None? ==> ret == ESP_OK && count == old(count) + 1
      ensures old(count) < hval.Length && argval.Some? ==>
                && (ret == ESP_OK <==> AcceptsHex(argval.value))
                && count == old(count) + (if ret == ESP_OK then 1 else 0)
      ensures ret != ESP_OK || argval.None? ==> hval[..] == old(hval[..]) && hsize[..] == old(hsize[..])
      ensures ret == ESP_OK && argval.Some? ==>
                var at := old(count);
                && hval[at] != null && fresh(hval[at]) && hval[at].freed == 0
                && hval[at].data[..] == Pairs(argval.value, 2) && hsize[at] == |Pairs(argval.value, 2)|
                && hval[..] == old(hval[..])[at := hval[at]] && hsize[..] == old(hsize[..])[at := hsize[at]]
      ensures old(Owning()) && argval.Some? ==> Owning()
    {
      ret := ESP_OK;
      if count == hval.Length {
        return ESP_ERR_INVALID_STATE;
      }
      if argval.None? {
        count := count + 1;
        return;
      }
      BufferLengthIsExact(argval.value);
      var bufferLen := BufferLength(argval.value);
      if !(0 < bufferLen < 0xFFFF) {
        return ESP_ERR_INVALID_SIZE;
      }
      var buffer := new HexBuffer(bufferLen);
      ret, bufferLen := ParseHexStr(argval, buffer.data, bufferLen);
      if ret == ESP_OK {
        assert Take(Pairs(argval.value, 2), bufferLen) == Pairs(argval.value, 2);
        hsize[count] := bufferLen;
        hval[count] := buffer;
        count := count + 1;
      } else {
        buffer.Free();
      }
    }

    /** The first slots hold the decoded bytes of `texts`, one after the other. */
    ghost predicate Holds(texts: seq<CString>)
      reads this, hsize, hval, set i | 0 <= i < hval.Length :: hval[i],
            set i | 0 <= i < hval.Length && hval[i] != null :: hval[i].data
    {
      && Owning() && |texts| == count
      && forall i | 0 <= i < count :: hval[i].data[..] == Pairs(texts[i], 2) && hsize[i] == |Pairs(texts[i], 2)|
    }

    /** One more scan, behind those of the first i arguments. */
    method ScanNext(args: seq<CString>, i: nat)
      requires i < |args| && |args[i]| < 0x1_0000_0000 && Holds(Take(AcceptedHex(args[..i]), hval.Length))
      modifies this`count, hsize, hval
      ensures Holds(Take(AcceptedHex(args[..i + 1]), hval.Length))
    {
      ghost var texts := Take(AcceptedHex(args[..i]), hval.Length);
      var ret := Scan(Some(args[i]));
      assert Take(AcceptedHex(args[..i + 1]), hval.Length)
          == if |texts| < hval.Length && AcceptsHex(args[i]) then texts + [args[i]] else texts by {
        AcceptedHexNext(args, i, hval.Length);
      }
    }

    /**
     * Any sequence of scans: the slots hold the accepted strings in order, as
     * many as fit, each in a buffer of its own.
     */
    method ScanAll(args: seq<CString>)
      requires Owning() && count == 0 && forall arg | arg in args :: |arg| < 0x1_0000_0000
      modifies this`count, hsize, hval
      ensures Owning() && Holds(Take(AcceptedHex(args), hval.Length))
    {
      var i := 0;
      while i < |args|
        invariant 0 <= i <= |args|
        invariant Holds(Take(AcceptedHex(args[..i]), hval.Length))
      {
        assert args[i] in args;
        ScanNext(args, i);
        i := i + 1;
      }
      assert args[..i] == args;
    }

    /** arg_hex_free: every buffer still owned is released, once. */
    method FreeAll()
      requires Owning()
      modifies set i | 0 <= i < count :: hval[i]
      ensures forall i | 0 <= i < count :: hval[i] != null && hval[i].freed == 1
    {
      var i := 0;
      while i < count
        invariant 0 <= i <= count
        invariant forall j | 0 <= j < count :: hval[j] != null && hval[j].freed == if j < i then 1 else 0
      {
        if hval[i] != null {
          hval[i].Free();
        }
        i := i + 1;
      }
    }
  }
}
