/** The console's number, hex and address parsers (cmdline_parser.c). */
module Parser {
  import opened Common

  /** The characters in front of the terminating NUL. */
  type CString = s: string | '\0' !in s

  /** cur[i]; the terminator itself may be read. */
  function CharAt(s: CString, i: nat): char
    requires i <= |s|
  {
    if i < |s| then s[i] else '\0'
  }

  // ------------------------------------------------------------ digits and numerals

  function DigitValue(hex: bool, c: char): (d: Option<nat>)
    ensures d.Some? ==> d.value < (if hex then 16 else 10)
  {
    if hex && 'A' <= c <= 'F' then Some(c as int - 'A' as int + 10)
    else if hex && 'a' <= c <= 'f' then Some(c as int - 'a' as int + 10)
    else if '0' <= c <= '9' then Some(c as int - '0' as int)
    else None
  }

  const HEX_UPPER: string := "0123456789ABCDEF"
  const HEX_LOWER: string := "0123456789abcdef"
  const DECIMAL: string := "0123456789"

  /** A digit's value is its place in the alphabet, of either case for hex; nothing else is a digit. */
  lemma DigitIsPlace(c: char, v: nat)
    ensures DigitValue(true, c) == Some(v) <==> v < 16 && (HEX_UPPER[v] == c || HEX_LOWER[v] == c)
    ensures DigitValue(false, c) == Some(v) <==> v < 10 && DECIMAL[v] == c
  {
  }

  predicate AllDigits(hex: bool, ds: string) {
    forall i | 0 <= i < |ds| :: DigitValue(hex, ds[i]).Some?
  }

  function Base(hex: bool): nat {
    if hex then 16 else 10
  }

  /** The number that ds denotes, unbounded. */
  function Numeral(hex: bool, ds: string): nat
    requires AllDigits(hex, ds)
  {
    if ds == [] then 0
    else Base(hex) * Numeral(hex, ds[..|ds| - 1]) + DigitValue(hex, ds[|ds| - 1]).value
  }

  const TWO64: int := 0x1_0000_0000_0000_0000
  const MAX_HEX_BEFORE_OVERFLOW: int := (TWO64 - 1) / 16
  const MAX_DEC_BEFORE_OVERFLOW: int := (TWO64 - 1) / 10

  function MaxBeforeOverflow(hex: bool): int {
    if hex then MAX_HEX_BEFORE_OVERFLOW else MAX_DEC_BEFORE_OVERFLOW
  }

  // ------------------------------------------------------------ parse_u64

  predicate HasHexPrefix(s: CString) {
    |s| >= 2 && s[0] == '0' && (s[1] == 'x' || s[1] == 'X')
  }

  /** The loop from position i on, with the value read so far; sixty-four bits wrap. */
  function U64From(hex: bool, s: CString, i: nat, value: u64): Result<u64>
    requires i <= |s|
    decreases |s| - i
  {
    match DigitValue(hex, CharAt(s, i))
    case None => Err(ESP_ERR_INVALID_ARG)
    case Some(digit) =>
      if value > MaxBeforeOverflow(hex) then Err(ESP_ERR_INVALID_SIZE)
      else
        var next := (Base(hex) * value + digit) % TWO64;
        if CharAt(s, i + 1) == '\0' then Ok(next) else U64From(hex, s, i + 1, next)
  }

  function U64(text: Option<CString>): Result<u64> {
    match text
    case None => Err(ESP_ERR_INVALID_ARG)
    case Some(s) => if HasHexPrefix(s) then U64From(true, s, 2, 0) else U64From(false, s, 0, 0)
  }

  method ParseDigit(hex: bool, c: char) returns (d: Option<nat>)
    ensures d == DigitValue(hex, c)
  {
    if hex && 'A' <= c <= 'F' {
      d := Some(c as int - 'A' as int + 10);
    } else if hex && 'a' <= c <= 'f' {
      d := Some(c as int - 'a' as int + 10);
    } else if '0' <= c <= '9' {
      d := Some(c as int - '0' as int);
    } else {
      d := None;
    }
  }

  method ParseU64(text: Option<CString>) returns (r: Result<u64>)
    ensures r == U64(text)
    ensures text.None? ==> r == Err(ESP_ERR_INVALID_ARG)
  {
    if text.None? {
      return Err(ESP_ERR_INVALID_ARG);
    }
    var s := text.value;
    var isHex := HasHexPrefix(s);
    var cur: nat := if isHex then 2 else 0;
    var value: u64 := 0;
    var again := true;
    while again
      invariant cur <= |s|
      invariant again ==> U64(text) == U64From(isHex, s, cur, value)
      invariant !again ==> U64(text) == Ok(value)
      decreases if again then |s| - cur + 1 else 0
    {
      var digit := ParseDigit(isHex, CharAt(s, cur));
      if digit.None? {
        return Err(ESP_ERR_INVALID_ARG);
      }
      if value > MaxBeforeOverflow(isHex) {
        return Err(ESP_ERR_INVALID_SIZE);
      }
      value := (Base(isHex) * value + digit.value) % TWO64;
      cur := cur + 1;
      again := CharAt(s, cur) != '\0';
    }
    r := Ok(value);
  }

  /** Base, and the digits behind the prefix. */
  function Digits(s: CString): (bool, CString) {
    if HasHexPrefix(s) then (true, s[2..]) else (false, s)
  }

  lemma {:induction false} FromSuffix(hex: bool, s: CString, k: nat, i: nat, value: u64)
    requires k <= i <= |s|
    ensures U64From(hex, s, i, value) == U64From(hex, s[k..], i - k, value)
    decreases |s| - i
  {
    if i < |s| {
      var d := DigitValue(hex, CharAt(s, i));
      if d.Some? {
        FromSuffix(hex, s, k, i + 1, (Base(hex) * value + d.value) % TWO64);
      }
    }
  }

  lemma U64OfDigits(s: CString)
    ensures var (hex, ds) := Digits(s); U64(Some(s)) == U64From(hex, ds, 0, 0)
  {
    if HasHexPrefix(s) {
      FromSuffix(true, s, 2, 2, 0);
    }
  }

  /** '0' and an x of either case announce hex digits; without them the digits are decimal. */
  lemma PrefixChoosesBase(s: CString)
    ensures U64(Some(s))
         == if |s| >= 2 && s[0] == '0' && s[1] in {'x', 'X'} then U64From(true, s[2..], 0, 0)
            else U64From(false, s, 0, 0)
  {
    if |s| >= 2 && s[0] == '0' && s[1] in {'x', 'X'} {
      FromSuffix(true, s, 2, 2, 0);
    }
  }

  lemma NumeralNext(hex: bool, ds: string, i: nat)
    requires i < |ds| && AllDigits(hex, ds[..i]) && DigitValue(hex, ds[i]).Some?
    ensures AllDigits(hex, ds[..i + 1])
    ensures Numeral(hex, ds[..i + 1]) == Base(hex) * Numeral(hex, ds[..i]) + DigitValue(hex, ds[i]).value
  {
    assert ds[..i + 1][..i] == ds[..i];
  }

  lemma AtLeast(hex: bool, n: nat)
    ensures Base(hex) * n >= n
  {
  }

  lemma {:induction false} NumeralGrows(hex: bool, ds: string, i: nat)
    requires i <= |ds| && AllDigits(hex, ds)
    ensures AllDigits(hex, ds[..i]) && Numeral(hex, ds[..i]) <= Numeral(hex, ds)
    decreases |ds| - i
  {
    if i == |ds| {
      assert ds[..i] == ds;
    } else {
      NumeralNext(hex, ds, i);
      NumeralGrows(hex, ds, i + 1);
      AtLeast(hex, Numeral(hex, ds[..i]));
    }
  }

  lemma ModPlus(a: nat, q: nat)
    ensures (a + q * TWO64) % TWO64 == a % TWO64
  {
  }

  lemma WrapOnce(hex: bool, whole: nat, value: u64, digit: nat)
    requires value == whole % TWO64
    ensures (Base(hex) * value + digit) % TWO64 == (Base(hex) * whole + digit) % TWO64
  {
    var q := whole / TWO64;
    if hex {
      ModPlus(16 * value + digit, 16 * q);
    } else {
      ModPlus(10 * value + digit, 10 * q);
    }
  }

  /** Success means digits only, and the numeral modulo 2^64; bad format means some character is no digit. */
  lemma {:induction false} FromMeans(hex: bool, ds: CString, i: nat, value: u64)
    requires i <= |ds| && AllDigits(hex, ds[..i]) && value == Numeral(hex, ds[..i]) % TWO64
    ensures var r := U64From(hex, ds, i, value);
            && (r.Ok? ==> i < |ds| && AllDigits(hex, ds) && r.value == Numeral(hex, ds) % TWO64)
            && (r == Err(ESP_ERR_INVALID_ARG) ==> i == |ds| || !AllDigits(hex, ds))
            && (r.Err? ==> r.code == ESP_ERR_INVALID_ARG || r.code == ESP_ERR_INVALID_SIZE)
    decreases |ds| - i
  {
    if i < |ds| {
      var d := DigitValue(hex, ds[i]);
      if d.Some? && value <= MaxBeforeOverflow(hex) {
        NumeralNext(hex, ds, i);
        WrapOnce(hex, Numeral(hex, ds[..i]), value, d.value);
        if i + 1 == |ds| {
          assert ds[..i + 1] == ds;
        } else {
          FromMeans(hex, ds, i + 1, (Base(hex) * value + d.value) % TWO64);
        }
      }
    }
  }

  lemma FittingStep(hex: bool, value: nat, digit: nat)
    requires Base(hex) * value + digit < TWO64
    ensures value <= MaxBeforeOverflow(hex) && (Base(hex) * value + digit) % TWO64 == Base(hex) * value + digit
  {
    if hex {
    } else {
    }
  }

  lemma LargestStep(hex: bool, value: nat, digit: nat)
    requires value <= MaxBeforeOverflow(hex) && digit < Base(hex)
    ensures Base(hex) * value + digit <= if hex then TWO64 - 1 else TWO64 + 3
  {
    if hex {
    } else {
    }
  }

  /** A numeral that fits is never refused. */
  lemma {:induction false} FromAccepts(hex: bool, ds: CString, i: nat, value: u64)
    requires i < |ds| && AllDigits(hex, ds) && Numeral(hex, ds) < TWO64
    requires value == Numeral(hex, ds[..i])
    ensures U64From(hex, ds, i, value) == Ok(Numeral(hex, ds))
    decreases |ds| - i
  {
    var digit := DigitValue(hex, ds[i]).value;
    var next := Base(hex) * value + digit;
    NumeralNext(hex, ds, i);
    NumeralGrows(hex, ds, i + 1);
    FittingStep(hex, value, digit);
    OneDigit(hex, ds, i, value, digit);
    if i + 1 == |ds| {
      assert ds[..i + 1] == ds;
    } else {
      FromAccepts(hex, ds, i + 1, next);
    }
  }

  lemma OneDigit(hex: bool, ds: CString, i: nat, value: u64, digit: nat)
    requires i < |ds| && DigitValue(hex, ds[i]) == Some(digit) && value <= MaxBeforeOverflow(hex)
    ensures var next := (Base(hex) * value + digit) % TWO64;
            U64From(hex, ds, i, value) == if i + 1 == |ds| then Ok(next) else U64From(hex, ds, i + 1, next)
  {
  }

  /** Some leading digits denote a value in the four-wide window the overflow test lets through. */
  ghost predicate SlipsThrough(ds: string)
    requires AllDigits(false, ds)
  {
    exists n :: 0 <= n <= |ds| && TWO64 <= Numeral(false, ds[..n]) <= TWO64 + 3
  }

  /** An overflow the test misses is a decimal one, and its first step lands in the window. */
  lemma {:induction false} MissedOverflow(hex: bool, ds: CString, i: nat, value: u64)
    requires i < |ds| && AllDigits(hex, ds) && Numeral(hex, ds) >= TWO64
    requires value == Numeral(hex, ds[..i]) && U64From(hex, ds, i, value).Ok?
    ensures !hex && SlipsThrough(ds)
    decreases |ds| - i
  {
    NumeralNext(hex, ds, i);
    var digit := DigitValue(hex, ds[i]).value;
    var next := Base(hex) * value + digit;
    assert value <= MaxBeforeOverflow(hex);
    LargestStep(hex, value, digit);
    if next < TWO64 { FittingStep(hex, value, digit); }
    if i + 1 == |ds| {
      assert ds[..i + 1] == ds;
    } else if next < TWO64 {
      MissedOverflow(hex, ds, i + 1, next);
    }
  }

  /** Before each digit the value kept so far, sixty-four bits of it, is small enough for the overflow test. */
  ghost predicate Passes(hex: bool, ds: string)
    requires AllDigits(hex, ds)
  {
    forall i | 0 <= i < |ds| :: PassesAt(hex, ds, i)
  }

  predicate PassesAt(hex: bool, ds: string, i: nat)
    requires i < |ds| && AllDigits(hex, ds)
  {
    Numeral(hex, ds[..i]) % TWO64 <= MaxBeforeOverflow(hex)
  }

  /** How many characters in front are digits. */
  function LeadingDigits(hex: bool, ds: string): (k: nat)
    ensures k <= |ds| && AllDigits(hex, ds[..k]) && (k < |ds| ==> DigitValue(hex, ds[k]).None?)
  {
    if ds == [] || DigitValue(hex, ds[0]).None? then 0
    else
      var k := 1 + LeadingDigits(hex, ds[1..]);
      assert forall i | 0 < i < k :: ds[i] == ds[1..][i - 1];
      k
  }

  /** What a string that is no numeral is refused for: its first other character, or an overflow before it. */
  ghost function Complaint(hex: bool, ds: string): int {
    if Passes(hex, ds[..LeadingDigits(hex, ds)]) then ESP_ERR_INVALID_ARG else ESP_ERR_INVALID_SIZE
  }

  /** With another character behind k digits the loop gets there exactly when every test before does. */
  lemma {:induction false} FromStops(hex: bool, ds: CString, i: nat, value: u64, k: nat)
    requires i <= k <= |ds| && AllDigits(hex, ds[..k]) && AllDigits(hex, ds[..i])
    requires if k < |ds| then DigitValue(hex, ds[k]).None? else ds == []
    requires value == Numeral(hex, ds[..i]) % TWO64
    ensures U64From(hex, ds, i, value)
         == Err(if forall j | i <= j < k :: PassesAt(hex, ds[..k], j) then ESP_ERR_INVALID_ARG
                else ESP_ERR_INVALID_SIZE)
    decreases k - i
  {
    if i < k {
      assert ds[..k][..i] == ds[..i] && ds[..k][i] == ds[i];
      assert PassesAt(hex, ds[..k], i) <==> value <= MaxBeforeOverflow(hex);
      if value <= MaxBeforeOverflow(hex) {
        var digit := DigitValue(hex, ds[i]).value;
        var next := (Base(hex) * value + digit) % TWO64;
        OneDigit(hex, ds, i, value, digit);
        assert AllDigits(hex, ds[..i + 1]) && next == Numeral(hex, ds[..i + 1]) % TWO64 by {
          NumeralNext(hex, ds, i);
          WrapOnce(hex, Numeral(hex, ds[..i]), value, digit);
        }
        FromStops(hex, ds, i + 1, next, k);
      }
    }
  }

  /** A string that is no numeral is refused, for a bad character unless the digits before it overflow. */
  lemma MalformedIsRefused(hex: bool, ds: CString)
    requires ds == [] || !AllDigits(hex, ds)
    ensures U64From(hex, ds, 0, 0) == Err(Complaint(hex, ds))
  {
    var k := LeadingDigits(hex, ds);
    if k == |ds| {
      assert ds[..k] == ds;
    }
    FromStops(hex, ds, 0, 0, k);
  }

  /** From digit i on the loop succeeds exactly when every test from there on does. */
  lemma {:induction false} FromPasses(hex: bool, ds: CString, i: nat, value: u64)
    requires i < |ds| && AllDigits(hex, ds) && value == Numeral(hex, ds[..i]) % TWO64
    ensures U64From(hex, ds, i, value).Ok? <==> forall j | i <= j < |ds| :: PassesAt(hex, ds, j)
    decreases |ds| - i
  {
    var digit := DigitValue(hex, ds[i]).value;
    var next := (Base(hex) * value + digit) % TWO64;
    assert PassesAt(hex, ds, i) <==> value <= MaxBeforeOverflow(hex);
    if value <= MaxBeforeOverflow(hex) {
      OneDigit(hex, ds, i, value, digit);
      if i + 1 < |ds| {
        assert next == Numeral(hex, ds[..i + 1]) % TWO64 by {
          NumeralNext(hex, ds, i);
          WrapOnce(hex, Numeral(hex, ds[..i]), value, digit);
        }
        FromPasses(hex, ds, i + 1, next);
      }
    }
  }

  /** Of the digits alone: the overflow test does not go wrong on them. */
  ghost predicate TestHolds(hex: bool, ds: string)
    requires AllDigits(hex, ds)
  {
    hex || !SlipsThrough(ds) || !Passes(hex, ds)
  }

  lemma FittingHolds(hex: bool, ds: string)
    requires AllDigits(hex, ds) && Numeral(hex, ds) < TWO64
    ensures TestHolds(hex, ds)
  {
    if !hex && SlipsThrough(ds) {
      var n :| 0 <= n <= |ds| && TWO64 <= Numeral(false, ds[..n]) <= TWO64 + 3;
      NumeralGrows(false, ds, n);
    }
  }

  /**
   * parse_u64 on every string. Malformed ones are refused, as bad format unless
   * their leading digits overflow. Digits are accepted exactly when each passes
   * the overflow test, and what is accepted is the numeral modulo 2^64. The
   * answer is right, the numeral itself or the refusal of one that is too large,
   * if and only if the test does not go wrong.
   */
  lemma ParseU64IsExactUnless(s: CString)
    ensures var (hex, ds) := Digits(s);
            var r := U64(Some(s));
            if ds == [] || !AllDigits(hex, ds) then r == Err(Complaint(hex, ds))
            else
              var n := Numeral(hex, ds);
              && (r.Ok? <==> Passes(hex, ds))
              && (r.Ok? ==> r.value == n % TWO64)
              && (r.Err? ==> r.code == ESP_ERR_INVALID_SIZE)
              && (n < TWO64 ==> r == Ok(n))
              && (r == (if n < TWO64 then Ok(n) else Err(ESP_ERR_INVALID_SIZE)) <==> TestHolds(hex, ds))
  {
    var (hex, ds) := Digits(s);
    U64OfDigits(s);
    FromMeans(hex, ds, 0, 0);
    if ds == [] || !AllDigits(hex, ds) {
      MalformedIsRefused(hex, ds);
    } else {
      FromPasses(hex, ds, 0, 0);
      if Numeral(hex, ds) < TWO64 {
        FromAccepts(hex, ds, 0, 0);
        FittingHolds(hex, ds);
      } else if U64(Some(s)).Ok? {
        MissedOverflow(hex, ds, 0, 0);
      }
    }
  }

  /** 2^64 itself, in decimal, is taken for zero. */
  lemma TwoTo64ParsesAsZero()
    ensures U64(Some("18446744073709551616")) == Ok(0)
  {
    var s: CString := "18446744073709551616";
    FirstTenDigits(s);
    FirstNineteenDigits(s);
    LastDigit(s);
  }

  lemma LastDigit(s: CString)
    requires s == "18446744073709551616"
    ensures U64From(false, s, 19, 1844674407370955161) == Ok(0)
  {
  }

  lemma FirstSixDigits(s: CString)
    requires s == "18446744073709551616"
    ensures U64(Some(s)) == U64From(false, s, 6, 184467)
  {
    assert U64From(false, s, 0, 0) == U64From(false, s, 2, 18);
    assert U64From(false, s, 2, 18) == U64From(false, s, 4, 1844);
    assert U64From(false, s, 4, 1844) == U64From(false, s, 6, 184467);
  }

  lemma FirstTenDigits(s: CString)
    requires s == "18446744073709551616"
    ensures U64(Some(s)) == U64From(false, s, 10, 1844674407)
  {
    FirstSixDigits(s);
    assert U64From(false, s, 6, 184467) == U64From(false, s, 8, 18446744);
    assert U64From(false, s, 8, 18446744) == U64From(false, s, 10, 1844674407);
  }

  lemma FirstNineteenDigits(s: CString)
    requires s == "18446744073709551616"
    ensures U64From(false, s, 10, 1844674407) == U64From(false, s, 19, 1844674407370955161)
  {
    assert U64From(false, s, 10, 1844674407) == U64From(false, s, 12, 184467440737);
    assert U64From(false, s, 12, 184467440737) == U64From(false, s, 14, 18446744073709);
    assert U64From(false, s, 14, 18446744073709) == U64From(false, s, 16, 1844674407370955);
    assert U64From(false, s, 16, 1844674407370955) == U64From(false, s, 18, 184467440737095516);
    assert U64From(false, s, 18, 184467440737095516) == U64From(false, s, 19, 1844674407370955161);
  }

  // ------------------------------------------------------------ parse_u32, parse_u16, parse_u8

  function Narrow(text: Option<CString>, max: u64): Result<u64> {
    match U64(text)
    case Err(code) => Err(code)
    case Ok(v) => if v <= max then Ok(v) else Err(ESP_ERR_INVALID_SIZE)
  }

  method ParseNarrow(text: Option<CString>, max: u64) returns (r: Result<u64>)
    ensures r == Narrow(text, max)
    ensures text.None? ==> r == Err(ESP_ERR_INVALID_ARG)
  {
    var value := ParseU64(text);
    if value.Err? {
      return value;
    }
    if value.value > max {
      return Err(ESP_ERR_INVALID_SIZE);
    }
    r := value;
  }

  const UINT16_MAX: u64 := 0xFFFF

  /**
   * The narrow parsers on every string: right, the numeral in their range or the
   * refusal of one above it, if and only if the overflow test does not go wrong
   * or the numeral modulo 2^64 is out of range all the same.
   */
  lemma NarrowIsExactUnless(s: CString, max: u64)
    ensures var (hex, ds) := Digits(s);
            var r := Narrow(Some(s), max);
            if ds == [] || !AllDigits(hex, ds) then r == Err(Complaint(hex, ds))
            else
              var n := Numeral(hex, ds);
              && (r.Ok? <==> Passes(hex, ds) && n % TWO64 <= max)
              && (r.Ok? ==> r.value == n % TWO64)
              && (r.Err? ==> r.code == ESP_ERR_INVALID_SIZE)
              && (r == (if n <= max then Ok(n) else Err(ESP_ERR_INVALID_SIZE))
                  <==> TestHolds(hex, ds) || n % TWO64 > max)
  {
    ParseU64IsExactUnless(s);
    var (hex, ds) := Digits(s);
    if ds != [] && AllDigits(hex, ds) && Numeral(hex, ds) < TWO64 {
      FittingHolds(hex, ds);
    }
  }

  // ------------------------------------------------------------ parse_hex_str

  /** Only a lower-case x is accepted here. */
  predicate HasHexStrPrefix(s: CString) {
    |s| >= 2 && s[0] == '0' && s[1] == 'x'
  }

  predicate IsPair(s: CString, i: nat) {
    i + 1 < |s| && DigitValue(true, s[i]).Some? && DigitValue(true, s[i + 1]).Some?
  }

  function PairByte(s: CString, i: nat): byte
    requires IsPair(s, i)
  {
    DigitValue(true, s[i]).value * 16 + DigitValue(true, s[i + 1]).value
  }

  /** The bytes of the leading well-formed digit pairs from position i on. */
  function Pairs(s: CString, i: nat): seq<byte>
    decreases |s| - i
  {
    if IsPair(s, i) then [PairByte(s, i)] + Pairs(s, i + 2) else []
  }

  /** "0x" and one or more pairs of hex digits, nothing else. */
  predicate WellFormedHex(s: CString) {
    HasHexStrPrefix(s) && |s| > 2 && |s| % 2 == 0 && AllDigits(true, s[2..])
  }

  function Padded(bytes: seq<byte>, size: nat): (b: seq<byte>)
    ensures |b| == size && Take(bytes, size) <= b && forall i | |bytes| <= i < size :: b[i] == 0
  {
    Take(bytes, size) + seq(size - |Take(bytes, size)|, _ => 0)
  }

  lemma {:induction false} PairsAt(s: CString, i: nat, k: nat)
    requires k < |Pairs(s, i)|
    ensures IsPair(s, i + 2 * k) && Pairs(s, i)[k] == PairByte(s, i + 2 * k)
    decreases k
  {
    if k > 0 {
      PairsAt(s, i + 2, k - 1);
    }
  }

  lemma AllDigitsTwo(s: CString, i: nat)
    requires i + 2 <= |s|
    ensures AllDigits(true, s[i..]) <==> IsPair(s, i) && AllDigits(true, s[i + 2..])
  {
    assert s[i..] == [s[i], s[i + 1]] + s[i + 2..];
  }

  lemma {:induction false} PairsOfDigits(s: CString, i: nat)
    requires i <= |s|
    ensures i + 2 * |Pairs(s, i)| <= |s|
    ensures i + 2 * |Pairs(s, i)| == |s| <==> (|s| - i) % 2 == 0 && AllDigits(true, s[i..])
    decreases |s| - i
  {
    if i + 2 <= |s| {
      AllDigitsTwo(s, i);
      if IsPair(s, i) {
        PairsOfDigits(s, i + 2);
      }
    }
  }

  /** Two calls of parse_hex_digit; the second character is not looked at when the first is no digit. */
  method ParsePair(s: CString, cur: nat) returns (b: Option<byte>)
    requires cur <= |s|
    ensures b == if IsPair(s, cur) then Some(PairByte(s, cur)) else None
  {
    var high := ParseDigit(true, CharAt(s, cur));
    if high.None? {
      return None;
    }
    var low := ParseDigit(true, CharAt(s, cur + 1));
    if low.None? {
      return None;
    }
    b := Some(high.value * 16 + low.value);
  }

  /** Stores the n-th byte if the buffer has room for it. */
  method StorePair(buffer: array<byte>, size: nat, n: nat, b: byte, ghost before: seq<byte>)
    requires size <= buffer.Length && |before| == n && buffer[..size] == Padded(before, size)
    modifies buffer
    ensures buffer[..size] == Padded(before + [b], size) && buffer[size..] == old(buffer[size..])
  {
    if n < size {
      buffer[n] := b;
    }
  }

  /** The do-while loop: pair after pair until the terminator or the first bad digit. */
  method ParsePairs(s: CString, buffer: array<byte>, size: nat) returns (ok: bool, outSize: nat)
    requires HasHexStrPrefix(s) && size <= buffer.Length && buffer[..size] == Padded([], size)
    modifies buffer
    ensures outSize == |Pairs(s, 2)| && buffer[..size] == Padded(Pairs(s, 2), size)
    ensures buffer[size..] == old(buffer[size..])
    ensures ok <==> outSize > 0 && 2 + 2 * outSize == |s|
  {
    PairsOfDigits(s, 2);
    outSize := 0;
    ghost var sofar: seq<byte> := [];
    var cur: nat := 2;
    var again := true;
    while again
      invariant cur == 2 + 2 * outSize <= |s| && outSize == |sofar|
      invariant Pairs(s, 2) == sofar + Pairs(s, cur)
      invariant buffer[..size] == Padded(sofar, size) && buffer[size..] == old(buffer[size..])
      invariant if again then cur < |s| || cur == 2 else cur == |s| && outSize > 0
      decreases if again then |s| - cur + 1 else 0
    {
      var b := ParsePair(s, cur);
      if b.None? {
        assert Pairs(s, 2) == sofar;
        return false, outSize;
      }
      StorePair(buffer, size, outSize, b.value, sofar);
      Assoc(sofar, [b.value], Pairs(s, cur + 2));
      sofar := sofar + [b.value];
      outSize := outSize + 1;
      cur := cur + 2;
      again := CharAt(s, cur) != '\0';
    }
    assert Pairs(s, 2) == sofar;
    ok := true;
  }

  method ParseHexStr(text: Option<CString>, buffer: array?<byte>, bufferSize: nat) returns (ret: int, outSize: nat)
    requires buffer != null ==> bufferSize <= buffer.Length
    modifies buffer
    ensures text.None? || !HasHexStrPrefix(text.value) || buffer == null || bufferSize == 0 ==>
              ret == ESP_ERR_INVALID_ARG && outSize == 0 && (buffer != null ==> buffer[..] == old(buffer[..]))
    ensures text.Some? && HasHexStrPrefix(text.value) && buffer != null && bufferSize > 0 ==>
              var bytes := Pairs(text.value, 2);
              && outSize == |bytes| && buffer[..] == Padded(bytes, bufferSize) + old(buffer[bufferSize..])
              && ret == if !WellFormedHex(text.value) then ESP_ERR_INVALID_ARG
                        else if |bytes| > bufferSize then ESP_ERR_INVALID_SIZE else ESP_OK
  {
    if text.None? || !HasHexStrPrefix(text.value) || buffer == null || bufferSize == 0 {
      return ESP_ERR_INVALID_ARG, 0;
    }
    forall i | 0 <= i < bufferSize {
      buffer[i] := 0;
    }
    var ok;
    assert buffer[bufferSize..] == old(buffer[bufferSize..]);
    ok, outSize := ParsePairs(text.value, buffer, bufferSize);
    assert buffer[..] == buffer[..bufferSize] + buffer[bufferSize..];
    PairsOfDigits(text.value, 2);
    if !ok {
      ret := ESP_ERR_INVALID_ARG;
    } else if outSize > bufferSize {
      ret := ESP_ERR_INVALID_SIZE;
    } else {
      ret := ESP_OK;
    }
  }

  // ------------------------------------------------------------ addresses

  const IEEE_SIZE: nat := 8

  function Reversed(b: seq<byte>): (r: seq<byte>)
    ensures |r| == |b| && forall i | 0 <= i < |b| :: r[i] == b[|b| - 1 - i]
  {
    seq(|b|, i requires 0 <= i < |b| => b[|b| - 1 - i])
  }

  /** The eight stored bytes of an IEEE address, least significant first. */
  function IeeeBytes(text: Option<CString>): Option<seq<byte>> {
    if text.Some? && WellFormedHex(text.value) && |Pairs(text.value, 2)| == IEEE_SIZE then
      Some(Reversed(Pairs(text.value, 2)))
    else None
  }

  method ParseIeeeAddr(text: Option<CString>, ieeeAddr: array<byte>) returns (ret: int)
    requires ieeeAddr.Length == IEEE_SIZE
    modifies ieeeAddr
    ensures ret == if IeeeBytes(text).Some? then ESP_OK
                   else if text.Some? && WellFormedHex(text.value) then ESP_ERR_INVALID_SIZE else ESP_ERR_INVALID_ARG
    ensures ieeeAddr[..] == if IeeeBytes(text).Some? then IeeeBytes(text).value else old(ieeeAddr[..])
  {
    var temp := new byte[IEEE_SIZE](_ => 0);
    var parsed: nat;
    ret, parsed := ParseHexStr(text, temp, IEEE_SIZE);
    if ret != ESP_OK {
      return;
    }
    if parsed != IEEE_SIZE {
      return ESP_ERR_INVALID_SIZE;
    }
    ghost var bytes := Pairs(text.value, 2);
    assert Take(bytes, IEEE_SIZE) == bytes && temp[..] == bytes;
    var i := 0;
    while i < IEEE_SIZE
      invariant 0 <= i <= IEEE_SIZE
      invariant temp[..] == bytes
      invariant forall j | 0 <= j < i :: ieeeAddr[j] == bytes[IEEE_SIZE - 1 - j]
    {
      assert temp[IEEE_SIZE - 1 - i] == bytes[IEEE_SIZE - 1 - i];
      ieeeAddr[i] := temp[IEEE_SIZE - 1 - i];
      i := i + 1;
    }
    assert ieeeAddr[..] == Reversed(bytes);
  }

  datatype AddressType = Unset | Short | Ieee

  /** The union of short and IEEE address, as the eight bytes it occupies, and its tag. */
  class ZclAddr {
    const u: array<byte>
    var addrType: AddressType

    ghost predicate Valid() {
      u.Length == IEEE_SIZE
    }

    constructor ()
      ensures Valid() && fresh(u) && addrType == Unset
    {
      u := new byte[IEEE_SIZE](_ => 0);
      addrType := Unset;
    }

    method Parse(text: Option<CString>) returns (ret: int)
      requires Valid()
      modifies this`addrType, u
      ensures match (IeeeBytes(text), Narrow(text, UINT16_MAX)) {
                case (Some(bytes), _) => ret == ESP_OK && addrType == Ieee && u[..] == bytes
                case (None, Ok(v)) => ret == ESP_OK && addrType == Short
                                      && u[..] == [v % 0x100, v / 0x100] + old(u[2..])
                case (None, Err(code)) => ret == code && addrType == old(addrType) && u[..] == old(u[..])
              }
    {
      ret := ParseIeeeAddr(text, u);
      if ret == ESP_OK {
        addrType := Ieee;
      } else {
        var shortAddr := ParseNarrow(text, UINT16_MAX);
        match shortAddr
        case Ok(v) =>
          ret := ESP_OK;
          u[0], u[1] := v % 0x100, v / 0x100;
          addrType := Short;
        case Err(code) =>
          ret := code;
      }
    }
  }

  /** Little-endian value of stored bytes. */
  function LeValue(b: seq<byte>): nat {
    if b == [] then 0 else b[0] + 0x100 * LeValue(b[1..])
  }

  lemma {:induction false} ReversedPairsValue(s: CString, i: nat, n: nat)
    requires i + 2 * n <= |s| && AllDigits(true, s[i..i + 2 * n])
    ensures |Pairs(s, i)| >= n
    ensures LeValue(Reversed(Pairs(s, i)[..n])) == Numeral(true, s[i..i + 2 * n])
    decreases n
  {
    if n == 0 {
      assert Reversed(Pairs(s, i)[..n]) == [] && s[i..i + 2 * n] == [];
    } else {
      var k := i + 2 * (n - 1);
      assert AllDigits(true, s[i..k]) by {
        LastTwoDigits(s, i, k);
      }
      ReversedPairsValue(s, i, n - 1);
      OneMorePairValue(s, i, n - 1, k);
    }
  }

  lemma OneMorePairValue(s: CString, i: nat, n: nat, k: nat)
    requires k == i + 2 * n && k + 2 <= |s| && AllDigits(true, s[i..k + 2]) && AllDigits(true, s[i..k])
    requires |Pairs(s, i)| >= n && LeValue(Reversed(Pairs(s, i)[..n])) == Numeral(true, s[i..k])
    ensures |Pairs(s, i)| > n && LeValue(Reversed(Pairs(s, i)[..n + 1])) == Numeral(true, s[i..k + 2])
  {
    LastTwoDigits(s, i, k);
    PairsNext(s, i, n);
    ReversedSnoc(Pairs(s, i)[..n], PairByte(s, k));
  }

  lemma PairsNext(s: CString, i: nat, n: nat)
    requires |Pairs(s, i)| >= n && IsPair(s, i + 2 * n)
    ensures |Pairs(s, i)| > n && Pairs(s, i)[..n + 1] == Pairs(s, i)[..n] + [PairByte(s, i + 2 * n)]
  {
    MorePairs(s, i, n);
  }

  lemma LastTwoDigits(s: CString, i: nat, k: nat)
    requires i <= k && k + 2 <= |s| && AllDigits(true, s[i..k + 2])
    ensures AllDigits(true, s[i..k]) && IsPair(s, k)
    ensures Numeral(true, s[i..k + 2]) == 0x100 * Numeral(true, s[i..k]) + PairByte(s, k)
  {
    assert s[i..k + 2] == s[i..k] + [s[k]] + [s[k + 1]];
    TwoMoreDigits(s[i..k], s[k], s[k + 1]);
  }

  lemma ReversedSnoc(before: seq<byte>, b: byte)
    ensures LeValue(Reversed(before + [b])) == b + 0x100 * LeValue(Reversed(before))
  {
    assert Reversed(before + [b]) == [b] + Reversed(before);
  }

  lemma TwoMoreDigits(init: string, high: char, low: char)
    requires AllDigits(true, init + [high] + [low])
    ensures AllDigits(true, init)
    ensures DigitValue(true, high).Some? && DigitValue(true, low).Some?
    ensures Numeral(true, init + [high] + [low])
         == 0x100 * Numeral(true, init) + 16 * DigitValue(true, high).value + DigitValue(true, low).value
  {
    var ds := init + [high] + [low];
    var n := |init|;
    assert ds[n] == high && ds[n + 1] == low;
    assert ds[..n] == init && ds[..n + 2] == ds;
    assert forall i | 0 <= i < n :: init[i] == ds[i];
    NumeralNext(true, ds, n);
    NumeralNext(true, ds, n + 1);
  }

  lemma {:induction false} MorePairs(s: CString, i: nat, n: nat)
    requires |Pairs(s, i)| >= n && IsPair(s, i + 2 * n)
    ensures |Pairs(s, i)| > n && Pairs(s, i)[n] == PairByte(s, i + 2 * n)
    decreases n
  {
    if n > 0 {
      MorePairs(s, i + 2, n - 1);
    }
  }

  lemma LeBound(b: seq<byte>)
    requires |b| == 8
    ensures LeValue(b) < TWO64
  {
    LeBoundFour(b[4..]);
    LeBoundFour(b[..4]);
    assert b[1..][1..][1..][1..] == b[4..];
    assert LeValue(b) == b[0] + 0x100 * (b[1] + 0x100 * (b[2] + 0x100 * (b[3] + 0x100 * LeValue(b[4..])))) by {
      assert LeValue(b) == b[0] + 0x100 * LeValue(b[1..]);
      assert LeValue(b[1..]) == b[1] + 0x100 * LeValue(b[1..][1..]);
      assert LeValue(b[1..][1..]) == b[2] + 0x100 * LeValue(b[1..][1..][1..]);
      assert LeValue(b[1..][1..][1..]) == b[3] + 0x100 * LeValue(b[1..][1..][1..][1..]);
    }
  }

  lemma LeBoundFour(b: seq<byte>)
    requires |b| == 4
    ensures LeValue(b) < 0x1_0000_0000
  {
    assert LeValue(b) == b[0] + 0x100 * LeValue(b[1..]);
    assert LeValue(b[1..]) == b[1] + 0x100 * LeValue(b[1..][1..]);
    assert LeValue(b[1..][1..]) == b[2] + 0x100 * LeValue(b[1..][1..][1..]);
    assert LeValue(b[1..][1..][1..]) == b[3] + 0x100 * LeValue(b[1..][1..][1..][1..]);
    assert b[1..][1..][1..][1..] == [];
  }

  /**
   * The two address parsers agree: an IEEE address is "0x" and exactly sixteen
   * hex digits, and then the stored bytes, read least significant first, are
   * the number parse_u64 reads from the same string.
   */
  lemma AddressesAgree(s: CString)
    ensures IeeeBytes(Some(s)).Some? <==> |s| == 18 && s[..2] == "0x" && AllDigits(true, s[2..])
    ensures IeeeBytes(Some(s)).Some? ==> U64(Some(s)) == Ok(LeValue(IeeeBytes(Some(s)).value))
  {
    if |s| >= 2 {
      PairsOfDigits(s, 2);
    }
    if IeeeBytes(Some(s)).Some? {
      var bytes := Pairs(s, 2);
      assert s[2..2 + 2 * 8] == s[2..] && bytes[..8] == bytes;
      ReversedPairsValue(s, 2, 8);
      LeBound(Reversed(bytes));
      ParseU64IsExactUnless(s);
    }
  }
}
