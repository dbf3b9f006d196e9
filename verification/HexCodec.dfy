/** The web server's hex codec, hex_to_string and string_to_hex (esp_br_web_base.c). */
module HexCodec {
  import opened Common
  import opened Parser

  // ------------------------------------------------------------ text and bytes

  /** Lower-case, as the encoder writes it. */
  function Digit(v: nat): (c: char)
    requires v < 16
    ensures DigitValue(true, c) == Some(v) && Lower(c) == c
  {
    if v <= 9 then ('0' as int + v) as char else ('a' as int + v - 10) as char
  }

  function Lower(c: char): char {
    if 'A' <= c <= 'Z' then (c as int - 'A' as int + 'a' as int) as char else c
  }

  function LowerCase(s: string): (t: string)
    ensures |t| == |s| && forall i | 0 <= i < |s| :: t[i] == Lower(s[i])
  {
    seq(|s|, i requires 0 <= i < |s| => Lower(s[i]))
  }

  function Text(bytes: seq<byte>): (t: string)
    ensures |t| == 2 * |bytes|
  {
    if bytes == [] then []
    else var n := |bytes| - 1; Text(bytes[..n]) + [Digit(bytes[n] / 16), Digit(bytes[n] % 16)]
  }

  /** n pairs of hex digits. */
  predicate IsHexText(s: string, n: nat) {
    |s| == 2 * n && AllDigits(true, s)
  }

  function Value(c: char): nat
    requires DigitValue(true, c).Some?
  {
    DigitValue(true, c).value
  }

  function Bytes(s: string, n: nat): (b: seq<byte>)
    requires IsHexText(s, n)
    ensures |b| == n
  {
    if n == 0 then []
    else Bytes(s[..2 * n - 2], n - 1) + [PairValue(s[2 * n - 2], s[2 * n - 1])]
  }

  function PairValue(high: char, low: char): byte
    requires DigitValue(true, high).Some? && DigitValue(true, low).Some?
  {
    Value(high) * 16 + Value(low)
  }

  // ------------------------------------------------------------ round trips

  lemma {:induction false} TextIsHexText(bytes: seq<byte>)
    ensures IsHexText(Text(bytes), |bytes|) && LowerCase(Text(bytes)) == Text(bytes)
  {
    if bytes != [] {
      TextIsHexText(bytes[..|bytes| - 1]);
    }
  }

  /** string_to_hex(hex_to_string(b)) is b. */
  lemma {:induction false} BytesOfText(bytes: seq<byte>)
    ensures IsHexText(Text(bytes), |bytes|) && Bytes(Text(bytes), |bytes|) == bytes
  {
    TextIsHexText(bytes);
    if bytes != [] {
      var n := |bytes| - 1;
      BytesOfText(bytes[..n]);
      var front, b := bytes[..n], bytes[n];
      assert bytes == front + [b];
      TextOfOneMore(front, b);
      BytesOfOnePair(Text(front), n, Digit(b / 16), Digit(b % 16));
      assert PairValue(Digit(b / 16), Digit(b % 16)) == b;
    }
  }

  lemma TextOfOneMore(front: seq<byte>, b: byte)
    ensures Text(front + [b]) == Text(front) + [Digit(b / 16), Digit(b % 16)]
  {
    assert (front + [b])[..|front|] == front;
  }

  lemma BytesOfOnePair(front: string, n: nat, high: char, low: char)
    requires IsHexText(front, n) && DigitValue(true, high).Some? && DigitValue(true, low).Some?
    ensures IsHexText(front + [high, low], n + 1)
    ensures Bytes(front + [high, low], n + 1) == Bytes(front, n) + [PairValue(high, low)]
  {
    assert (front + [high, low])[..2 * n] == front;
  }

  /** hex_to_string(string_to_hex(s)) is s in lower case. */
  lemma {:induction false} TextOfBytes(s: string, n: nat)
    requires IsHexText(s, n)
    ensures Text(Bytes(s, n)) == LowerCase(s)
    decreases n
  {
    if n == 0 {
      assert s == [];
    } else {
      assert IsHexText(s[..2 * n - 2], n - 1) by {
        LastPair(s, n);
      }
      TextOfBytes(s[..2 * n - 2], n - 1);
      TextOfLastPair(s, n);
    }
  }

  lemma TextOfLastPair(s: string, n: nat)
    requires IsHexText(s, n) && n > 0 && IsHexText(s[..2 * n - 2], n - 1)
    requires Text(Bytes(s[..2 * n - 2], n - 1)) == LowerCase(s[..2 * n - 2])
    ensures Text(Bytes(s, n)) == LowerCase(s)
  {
    var front, high, low := s[..2 * n - 2], s[2 * n - 2], s[2 * n - 1];
    LastPair(s, n);
    TextOfOneMorePair(front, n - 1, high, low);
  }

  lemma LastPair(s: string, n: nat)
    requires IsHexText(s, n) && n > 0
    ensures IsHexText(s[..2 * n - 2], n - 1)
    ensures DigitValue(true, s[2 * n - 2]).Some? && DigitValue(true, s[2 * n - 1]).Some?
    ensures s == s[..2 * n - 2] + [s[2 * n - 2], s[2 * n - 1]]
  {
    assert s == s[..|s| - 2] + [s[|s| - 2], s[|s| - 1]];
  }

  lemma TextOfOneMorePair(front: string, n: nat, high: char, low: char)
    requires IsHexText(front, n) && DigitValue(true, high).Some? && DigitValue(true, low).Some?
    requires Text(Bytes(front, n)) == LowerCase(front)
    ensures var s := front + [high, low]; IsHexText(s, n + 1) && Text(Bytes(s, n + 1)) == LowerCase(s)
  {
    BytesOfOnePair(front, n, high, low);
    TextSnoc(Bytes(front, n), high, low);
    LowerCaseSnoc(front, high, low);
  }

  lemma LowerCaseSnoc(front: string, high: char, low: char)
    ensures LowerCase(front + [high, low]) == LowerCase(front) + [Lower(high), Lower(low)]
  {
  }

  lemma TextSnoc(bytes: seq<byte>, high: char, low: char)
    requires DigitValue(true, high).Some? && DigitValue(true, low).Some?
    ensures Text(bytes + [PairValue(high, low)]) == Text(bytes) + [Lower(high), Lower(low)]
  {
    TextOfOneMore(bytes, PairValue(high, low));
    DigitsOfPair(high, low);
  }

  lemma DigitsOfPair(high: char, low: char)
    requires DigitValue(true, high).Some? && DigitValue(true, low).Some?
    ensures Digit(PairValue(high, low) / 16) == Lower(high) && Digit(PairValue(high, low) % 16) == Lower(low)
  {
  }

  /** The texts that decode are, up to case, exactly the ones the encoder writes. */
  lemma AcceptedIffEncoded(s: string, n: nat)
    ensures IsHexText(s, n) <==> exists b: seq<byte> :: |b| == n && LowerCase(s) == Text(b)
  {
    if IsHexText(s, n) {
      TextOfBytes(s, n);
      assert |Bytes(s, n)| == n;
    }
    forall b: seq<byte> | |b| == n && LowerCase(s) == Text(b)
      ensures IsHexText(s, n)
    {
      TextIsHexText(b);
      forall i | 0 <= i < |s|
        ensures DigitValue(true, s[i]).Some?
      {
        assert DigitValue(true, LowerCase(s)[i]).Some?;
      }
    }
  }

  lemma {:induction false} TextAt(bytes: seq<byte>, k: nat)
    requires k < |bytes|
    ensures Text(bytes)[2 * k] == Digit(bytes[k] / 16) && Text(bytes)[2 * k + 1] == Digit(bytes[k] % 16)
    decreases |bytes|
  {
    var n := |bytes| - 1;
    if k < n {
      TextAt(bytes[..n], k);
    }
  }

  lemma {:induction false} PairsOfText(bytes: seq<byte>, at: nat)
    requires at <= |bytes|
    ensures Pairs(Prefixed(bytes), 2 + 2 * at) == bytes[at..]
    decreases |bytes| - at
  {
    if at < |bytes| {
      PairsOfText(bytes, at + 1);
      TextAt(bytes, at);
      assert bytes[at..] == [bytes[at]] + bytes[at + 1..];
    }
  }

  /** The console reads back what the web server writes: parse_hex_str on the text behind "0x". */
  lemma ConsoleReadsText(bytes: seq<byte>)
    ensures WellFormedHex(Prefixed(bytes)) <==> bytes != []
    ensures Pairs(Prefixed(bytes), 2) == bytes
  {
    PairsOfText(bytes, 0);
    TextIsHexText(bytes);
    assert Prefixed(bytes)[2..] == Text(bytes);
  }

  function Prefixed(bytes: seq<byte>): (s: CString)
    ensures s == "0x" + Text(bytes)
  {
    NoNulInText(bytes);
    "0x" + Text(bytes)
  }

  lemma NoNulInText(bytes: seq<byte>)
    ensures '\0' !in Text(bytes)
  {
    TextIsHexText(bytes);
  }

  // ------------------------------------------------------------ hex_to_string

  method HexToString(hex: array?<byte>, str: array<char>, size: nat) returns (code: int)
    requires hex != null ==> size <= hex.Length && 2 * size < str.Length
    modifies str
    ensures hex == null ==> code == ESP_FAIL && str[..] == old(str[..])
    ensures hex != null ==> code == ESP_OK && str[..] == Text(hex[..size]) + ['\0'] + old(str[2 * size + 1..])
  {
    if hex == null {
      return ESP_FAIL;
    }
    var i, j := 0, 0;
    while i < size * 2
      invariant i == 2 * j && j <= size
      invariant str[..i] == Text(hex[..j])
      invariant str[i..] == old(str[i..])
    {
      WritePair(hex[j], str, i);
      assert hex[..j + 1] == hex[..j] + [hex[j]];
      i, j := i + 2, j + 1;
    }
    str[size * 2] := '\0';
    code := ESP_OK;
  }

  /** str[i] and str[i + 1] take the high and the low digit. */
  method WritePair(b: byte, str: array<char>, i: nat)
    requires i + 1 < str.Length
    modifies str
    ensures str[..] == old(str[..i]) + [Digit(b / 16), Digit(b % 16)] + old(str[i + 2..])
  {
    str[i] := (b / 16) as char;
    if str[i] as int <= 9 {
      str[i] := (str[i] as int + '0' as int) as char;
    } else {
      str[i] := (str[i] as int - 10 + 'a' as int) as char;
    }
    str[i + 1] := (b % 16) as char;
    if str[i + 1] as int <= 9 {
      str[i + 1] := (str[i + 1] as int + '0' as int) as char;
    } else {
      str[i + 1] := (str[i + 1] as int - 10 + 'a' as int) as char;
    }
  }

  // ------------------------------------------------------------ string_to_hex

  predicate GoodPair(s: string, k: nat)
    requires 2 * k + 1 < |s|
  {
    DigitValue(true, s[2 * k]).Some? && DigitValue(true, s[2 * k + 1]).Some?
  }

  /** The first of n pairs, from pair i on, that is not two hex digits. */
  function FirstBad(s: string, n: nat, i: nat): (k: nat)
    requires |s| == 2 * n && i <= n && AllDigits(true, s[..2 * i])
    ensures i <= k <= n && (k < n ==> !GoodPair(s, k))
    ensures AllDigits(true, s[..2 * k])
    decreases n - i
  {
    if i < n && GoodPair(s, i) then FirstBad(s, n, i + 1) else i
  }

  lemma AllPairsGood(s: string, n: nat)
    requires |s| == 2 * n
    ensures FirstBad(s, n, 0) == n <==> AllDigits(true, s)
  {
    var k := FirstBad(s, n, 0);
    if k == n {
      assert s[..2 * k] == s;
    } else if AllDigits(true, s) {
      assert GoodPair(s, k);
    }
  }

  /** What a failing call leaves at the first bad pair: the high digit alone, or zero. */
  function HighDigit(c: char): byte {
    match DigitValue(true, c) { case Some(v) => v * 16 case None => 0 }
  }

  method Nibble(c: char) returns (v: Option<nat>)
    ensures v == DigitValue(true, c)
  {
    if '0' <= c <= '9' {
      v := Some(c as int - '0' as int);
    } else if 'a' <= c <= 'f' {
      v := Some(c as int - 'a' as int + 10);
    } else if 'A' <= c <= 'F' {
      v := Some(c as int - 'A' as int + 10);
    } else {
      v := None;
    }
  }

  /** The two digits of pair k into hex[k]. */
  method ReadPair(s: CString, k: nat, hex: array<byte>) returns (ok: bool)
    requires k < hex.Length && 2 * k + 1 < |s|
    modifies hex
    ensures ok <==> GoodPair(s, k)
    ensures hex[..] == old(hex[..])[k := if ok then PairValue(s[2 * k], s[2 * k + 1]) else HighDigit(s[2 * k])]
  {
    hex[k] := 0;
    var high := Nibble(s[2 * k]);
    if high.None? {
      return false;
    }
    hex[k] := high.value * 16;
    var low := Nibble(s[2 * k + 1]);
    if low.None? {
      return false;
    }
    hex[k] := hex[k] / 16 * 16 + low.value % 16;
    ok := true;
  }

  /** The array after a failing call on s: the pairs in front of the bad one, and half of that. */
  function Partial(s: string, n: nat, before: seq<byte>): seq<byte>
    requires |s| == 2 * n && FirstBad(s, n, 0) < n <= |before|
  {
    var k := FirstBad(s, n, 0);
    Bytes(s[..2 * k], k) + [HighDigit(s[2 * k])] + before[k + 1..]
  }

  /** Byte by byte: good pairs in front, sixteen times the good digit at the bad pair or zero, nothing else touched. */
  lemma PartialAt(s: string, n: nat, before: seq<byte>, i: nat)
    requires |s| == 2 * n <= 2 * |before| && !AllDigits(true, s) && i < |before|
    ensures var k := FirstBad(s, n, 0);
            && k < n && |Partial(s, n, before)| == |before|
            && (i < k ==> GoodPair(s, i) && Partial(s, n, before)[i] == 16 * Value(s[2 * i]) + Value(s[2 * i + 1]))
            && (i == k ==> !GoodPair(s, i)
                           && Partial(s, n, before)[i]
                              == match DigitValue(true, s[2 * i]) { case Some(v) => 16 * v case None => 0 })
            && (i > k ==> Partial(s, n, before)[i] == before[i])
  {
    AllPairsGood(s, n);
    var k := FirstBad(s, n, 0);
    if i < k {
      BytesAt(s[..2 * k], k, i);
      assert s[..2 * k][2 * i] == s[2 * i] && s[..2 * k][2 * i + 1] == s[2 * i + 1];
    }
  }

  lemma {:induction false} BytesAt(s: string, n: nat, i: nat)
    requires IsHexText(s, n) && i < n
    ensures Bytes(s, n)[i] == 16 * Value(s[2 * i]) + Value(s[2 * i + 1])
    decreases n
  {
    if i < n - 1 {
      BytesAt(s[..2 * n - 2], n - 1, i);
    }
  }

  /** string_to_hex accepts 2 * size hex digits and nothing else. */
  method StringToHex(str: Option<CString>, hex: array<byte>, size: nat) returns (code: int)
    requires size <= hex.Length
    modifies hex
    ensures code == if str.Some? && IsHexText(str.value, size) then ESP_OK else ESP_FAIL
    ensures code == ESP_OK ==> hex[..] == Bytes(str.value, size) + old(hex[..])[size..]
    ensures code == ESP_FAIL ==>
              if str.None? || |str.value| != 2 * size then hex[..] == old(hex[..])
              else FirstBad(str.value, size, 0) < size && hex[..] == Partial(str.value, size, old(hex[..]))
  {
    if str.None? || |str.value| != size * 2 {
      return ESP_FAIL;
    }
    var s := str.value;
    AllPairsGood(s, size);
    var j := 0;
    while j < size
      invariant j <= size && Progress(s, size, j, old(hex[..]), hex[..])
    {
      var ok := ReadPair(s, j, hex);
      if !ok {
        PutBehind(Bytes(s[..2 * j], j), old(hex[..]), HighDigit(s[2 * j]));
        return ESP_FAIL;
      }
      PairStored(s, size, j, old(hex[..]), hex[..]);
      j := j + 1;
    }
    assert s[..2 * j] == s;
    code := ESP_OK;
  }

  /** The first j pairs are good and stored, the rest of the array is as before. */
  predicate Progress(s: string, n: nat, j: nat, before: seq<byte>, now: seq<byte>)
    requires |s| == 2 * n && j <= n <= |before|
  {
    && AllDigits(true, s[..2 * j]) && FirstBad(s, n, 0) == FirstBad(s, n, j)
    && now == Bytes(s[..2 * j], j) + before[j..]
  }

  lemma PairStored(s: string, n: nat, j: nat, before: seq<byte>, now: seq<byte>)
    requires |s| == 2 * n && j < n <= |before| && GoodPair(s, j)
    requires AllDigits(true, s[..2 * j]) && FirstBad(s, n, 0) == FirstBad(s, n, j)
    requires now == (Bytes(s[..2 * j], j) + before[j..])[j := PairValue(s[2 * j], s[2 * j + 1])]
    ensures Progress(s, n, j + 1, before, now)
  {
    OneMorePair(s, j);
    PutBehind(Bytes(s[..2 * j], j), before, PairValue(s[2 * j], s[2 * j + 1]));
  }

  lemma PutBehind(done: seq<byte>, all: seq<byte>, b: byte)
    requires |done| < |all|
    ensures (done + all[|done|..])[|done| := b] == done + [b] + all[|done| + 1..]
  {
  }

  lemma OneMorePair(s: string, j: nat)
    requires 2 * j + 2 <= |s| && AllDigits(true, s[..2 * j]) && GoodPair(s, j)
    ensures AllDigits(true, s[..2 * (j + 1)])
    ensures Bytes(s[..2 * (j + 1)], j + 1) == Bytes(s[..2 * j], j) + [PairValue(s[2 * j], s[2 * j + 1])]
  {
    assert s[..2 * (j + 1)][..2 * j] == s[..2 * j];
  }
}
