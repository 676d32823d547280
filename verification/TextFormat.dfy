/** Decimal numbers, hexadecimal bytes and comma-separated lists as text. */
module TextFormat {
  import opened Wrappers
  import opened Bytes

  // ---------------------------------------------------------------- Decimal numbers

  function DigitChar(d: nat): char
    requires d < 10
  {
    ('0' as int + d) as char
  }

  predicate IsDigit(c: char) {
    '0' <= c <= '9'
  }

  function DigitOf(c: char): nat
    requires IsDigit(c)
  {
    c as int - '0' as int
  }

  /** `to_string` of an unsigned number. */
  function Decimal(n: nat): (s: string)
    ensures s != "" && forall i :: 0 <= i < |s| ==> IsDigit(s[i])
  {
    if n < 10 then [DigitChar(n)] else Decimal(n / 10) + [DigitChar(n % 10)]
  }

  function DigitsValue(s: string): Option<nat> {
    if s == "" then Some(0)
    else
      var high, c := DigitsValue(s[..|s| - 1]), s[|s| - 1];
      if high.Some? && IsDigit(c) then Some(10 * high.value + DigitOf(c)) else None
  }

  /** `parse` into an unsigned type: an optional plus sign, then digits of a number below the limit. */
  function ParseUnsigned(s: string, limit: nat): Option<nat> {
    var digits := if s != "" && s[0] == '+' then s[1..] else s;
    if digits == "" then None
    else
      match DigitsValue(digits)
      case None => None
      case Some(n) => if n < limit then Some(n) else None
  }

  lemma {:induction false} DecimalValue(n: nat)
    ensures DigitsValue(Decimal(n)) == Some(n)
  {
    if n >= 10 {
      var s := Decimal(n);
      assert s[..|s| - 1] == Decimal(n / 10);
      DecimalValue(n / 10);
    } else {
      assert Decimal(n)[..0] == "";
    }
  }

  lemma ParseDecimal(n: nat, limit: nat)
    ensures ParseUnsigned(Decimal(n), limit) == if n < limit then Some(n) else None
  {
    DecimalValue(n);
    assert IsDigit(Decimal(n)[0]);
  }

  lemma {:induction false} NoDigits(s: string, i: nat)
    requires i < |s| && !IsDigit(s[i])
    ensures DigitsValue(s).None?
  {
    if i < |s| - 1 {
      NoDigits(s[..|s| - 1], i);
    }
  }

  function Pow(base: nat, n: nat): (r: nat)
    requires base > 0
    ensures r > 0
  {
    if n == 0 then 1 else base * Pow(base, n - 1)
  }

  lemma LastDigit(n: nat)
    ensures Decimal(n) == (if n < 10 then "" else Decimal(n / 10)) + [DigitChar(n % 10)]
  {
  }

  /** The digit at place `i` of a number is the digit at place `i - 1` of the number without its last one. */
  lemma NextPlace(n: nat, base: nat, i: nat)
    requires base > 0
    ensures i == 0 ==> n / Pow(base, i) == n
    ensures i > 0 ==> n / Pow(base, i) == n / base / Pow(base, i - 1)
  {
    if i > 0 {
      DivideTwice(n, base, Pow(base, i - 1));
    }
  }

  /** Every digit of a decimal number stands in its place, ones last. */
  lemma {:induction false} DecimalPlaces(n: nat, i: nat)
    requires i < |Decimal(n)|
    ensures Decimal(n)[|Decimal(n)| - 1 - i] == "0123456789"[n / Pow(10, i) % 10]
  {
    hide Decimal, Pow, DigitChar;
    LastDigit(n);
    NextPlace(n, 10, i);
    DigitChars(n % 10);
    if i > 0 {
      DecimalPlaces(n / 10, i - 1);
    }
  }

  /** All digits are there, and no zero stands in front of others. */
  lemma {:induction false} DecimalLength(n: nat)
    ensures n < Pow(10, |Decimal(n)|)
    ensures n >= 10 ==> n >= Pow(10, |Decimal(n)| - 1)
    ensures n < 10 ==> |Decimal(n)| == 1
  {
    if n >= 10 {
      DecimalLength(n / 10);
    }
  }

  lemma DigitChars(d: nat)
    requires d < 10
    ensures DigitChar(d) == "0123456789"[d]
  {
  }

  /** A plus sign may stand in front, zeros may, and nothing else; no digits at all are no number. */
  lemma {:induction false} ParsedDigits(s: string, limit: nat)
    ensures ParseUnsigned("", limit) == ParseUnsigned("+", limit) == None
    ensures s != "" && s[0] != '+' ==> ParseUnsigned("+" + s, limit) == ParseUnsigned(s, limit)
    ensures s != "" && s[0] != '+' ==> ParseUnsigned("0" + s, limit) == ParseUnsigned(s, limit)
    ensures s != "" && s[0] == '+' ==> ParseUnsigned("+" + s, limit) == None
    ensures (exists i :: 0 < i < |s| && !('0' <= s[i] <= '9')) ==> ParseUnsigned(s, limit) == None
  {
    assert ("+" + s)[1..] == s;
    assert "+"[1..] == "";
    if s != "" && s[0] == '+' {
      NoDigits(s, 0);
    }
    if i :| 0 < i < |s| && !('0' <= s[i] <= '9') {
      NoDigits(s, i);
      NoDigits(s[1..], i - 1);
    }
    LeadingZero(s);
  }

  lemma {:induction false} LeadingZero(s: string)
    ensures DigitsValue("0" + s) == DigitsValue(s)
  {
    if s == "" {
      assert ("0" + s)[..0] == "";
    } else {
      assert ("0" + s)[..|s|] == "0" + s[..|s| - 1];
      LeadingZero(s[..|s| - 1]);
    }
  }

  // ---------------------------------------------------------------- Hexadecimal bytes

  function HexChar(d: nat): char
    requires d < 16
  {
    if d < 10 then ('0' as int + d) as char else ('a' as int + (d - 10)) as char
  }

  function HexValue(c: char): (d: Option<nat>)
    ensures d.Some? ==> d.value < 16
  {
    if '0' <= c <= '9' then Some(c as int - '0' as int)
    else if 'a' <= c <= 'f' then Some(c as int - 'a' as int + 10)
    else if 'A' <= c <= 'F' then Some(c as int - 'A' as int + 10)
    else None
  }

  /** The digits of either case, and no other character. */
  lemma HexDigits(c: char, d: nat)
    requires d < 16
    ensures HexValue(c) == Some(d) <==> c == "0123456789abcdef"[d] || c == "0123456789ABCDEF"[d]
  {
  }

  lemma HexChars(d: nat)
    requires d < 16
    ensures HexChar(d) == "0123456789abcdef"[d]
  {
  }

  /** `hex::encode`. */
  function HexEncode(bytes: seq<byte>): (s: string)
    ensures |s| == 2 * |bytes|
    ensures forall i :: 0 <= i < |s| ==> HexValue(s[i]).Some?
  {
    if bytes == [] then ""
    else
      var b := bytes[|bytes| - 1];
      HexEncode(bytes[..|bytes| - 1]) + [HexChar(b / 16), HexChar(b % 16)]
  }

  /** Two lower-case digits for each byte, the higher one first. */
  lemma {:induction false} HexPlaces(bytes: seq<byte>, i: nat)
    requires i < |bytes|
    ensures HexEncode(bytes)[2 * i] == "0123456789abcdef"[bytes[i] / 16]
    ensures HexEncode(bytes)[2 * i + 1] == "0123456789abcdef"[bytes[i] % 16]
  {
    HexChars(bytes[i] / 16);
    HexChars(bytes[i] % 16);
    if i < |bytes| - 1 {
      HexPlaces(bytes[..|bytes| - 1], i);
    }
  }

  /** `hex::decode_to_slice`, for text of even length. */
  function HexDecode(s: string): (bytes: Option<seq<byte>>)
    requires |s| % 2 == 0
    ensures bytes.Some? ==> |bytes.value| == |s| / 2
  {
    if s == "" then Some([])
    else
      var n := |s|;
      var init, high, low := HexDecode(s[..n - 2]), HexValue(s[n - 2]), HexValue(s[n - 1]);
      if init.Some? && high.Some? && low.Some? then Some(init.value + [16 * high.value + low.value]) else None
  }

  lemma {:induction false} DecodeHex(bytes: seq<byte>)
    ensures HexDecode(HexEncode(bytes)) == Some(bytes)
  {
    if bytes != [] {
      var n := |bytes| - 1;
      DecodeHex(bytes[..n]);
      DecodePair(HexEncode(bytes[..n]), bytes[n]);
      assert bytes == bytes[..n] + [bytes[n]];
      hide HexDecode, HexChar, HexValue;
    }
  }

  /** Two digits at the end are decoded to one byte. */
  lemma DecodePair(s: string, b: byte)
    requires |s| % 2 == 0 && HexDecode(s).Some?
    ensures HexDecode(s + [HexChar(b / 16), HexChar(b % 16)]) == Some(HexDecode(s).value + [b])
  {
    hide *;
    var high, low := b / 16, b % 16;
    HexDigit(high);
    HexDigit(low);
    var t := s + [HexChar(high), HexChar(low)];
    assert t[..|s|] == s && t[|s|] == HexChar(high) && t[|s| + 1] == HexChar(low);
    DecodeLast(s, t);
    assert 16 * high + low == b;
  }

  lemma DecodeLast(s: string, t: string)
    requires |s| % 2 == 0 && |t| == |s| + 2 && t[..|s|] == s
    requires HexDecode(s).Some? && HexValue(t[|s|]).Some? && HexValue(t[|s| + 1]).Some?
    ensures HexDecode(t) == Some(HexDecode(s).value + [16 * HexValue(t[|s|]).value + HexValue(t[|s| + 1]).value])
  {
    hide HexValue;
    assert t[..|t| - 2] == s;
  }

  lemma HexDigit(d: nat)
    requires d < 16
    ensures HexValue(HexChar(d)) == Some(d)
  {
  }

  lemma {:induction false} NoHex(s: string, i: nat)
    requires |s| % 2 == 0 && i < |s| && HexValue(s[i]).None?
    ensures HexDecode(s).None?
  {
    if i < |s| - 2 {
      NoHex(s[..|s| - 2], i);
    }
  }

  /** `{:x}`. */
  function LowerHex(n: nat): (s: string)
    ensures s != "" && forall i :: 0 <= i < |s| ==> s[i] != ','
  {
    if n < 16 then [HexChar(n)] else LowerHex(n / 16) + [HexChar(n % 16)]
  }

  lemma LastHexDigit(n: nat)
    ensures LowerHex(n) == (if n < 16 then "" else LowerHex(n / 16)) + [HexChar(n % 16)]
  {
  }

  /** Every digit of a hexadecimal number stands in its place, ones last. */
  lemma {:induction false} LowerHexPlaces(n: nat, i: nat)
    requires i < |LowerHex(n)|
    ensures LowerHex(n)[|LowerHex(n)| - 1 - i] == "0123456789abcdef"[n / Pow(16, i) % 16]
  {
    hide LowerHex, Pow, HexChar;
    LastHexDigit(n);
    NextPlace(n, 16, i);
    HexChars(n % 16);
    if i > 0 {
      LowerHexPlaces(n / 16, i - 1);
    }
  }

  /** `trim_start_matches("0x")`: every leading repetition goes. */
  function TrimHexPrefix(s: string): string {
    if |s| >= 2 && s[0] == '0' && s[1] == 'x' then TrimHexPrefix(s[2..]) else s
  }

  function Zeros(n: nat): string {
    seq(n, i => '0')
  }

  /** `h256_from_hex_be`: shorter text is filled up with zeros in front. */
  function HashFromHex(s: string): (bytes: Option<seq<byte>>)
    ensures bytes.Some? ==> |bytes.value| == 32
  {
    var value := TrimHexPrefix(s);
    if |value| > 64 then None else HexDecode(Zeros(64 - |value|) + value)
  }

  lemma HashHexRoundTrip(bytes: seq<byte>)
    requires |bytes| == 32
    ensures HashFromHex(HexEncode(bytes)) == Some(bytes)
  {
    var s := HexEncode(bytes);
    assert HexValue(s[1]).Some?;
    assert TrimHexPrefix(s) == s;
    assert Zeros(0) + s == s;
    DecodeHex(bytes);
  }

  /** Text of fewer digits is the same hash with zero bytes in front, with `0x` before it or without;
      more than 64 digits are no hash. */
  lemma {:induction false} ShortHash(bytes: seq<byte>)
    ensures |bytes| <= 32 ==> HashFromHex(HexEncode(bytes)) == Some(seq(32 - |bytes|, i => 0) + bytes)
    ensures HashFromHex("0x" + HexEncode(bytes)) == HashFromHex(HexEncode(bytes))
    ensures |bytes| > 32 ==> HashFromHex(HexEncode(bytes)) == None
  {
    NoPrefix(bytes);
    hide HexEncode, HexDecode, TrimHexPrefix;
    if |bytes| <= 32 {
      ZerosInFront(32 - |bytes|, bytes);
      DecodeHex(seq(32 - |bytes|, i => 0) + bytes);
    }
  }

  lemma NoPrefix(bytes: seq<byte>)
    ensures TrimHexPrefix(HexEncode(bytes)) == TrimHexPrefix("0x" + HexEncode(bytes)) == HexEncode(bytes)
  {
    var s := HexEncode(bytes);
    hide HexEncode;
    if bytes != [] {
      assert HexValue(s[1]).Some?;
    }
    assert ("0x" + s)[2..] == s;
  }

  lemma {:induction false} HexEncodeConcat(a: seq<byte>, b: seq<byte>)
    ensures HexEncode(a + b) == HexEncode(a) + HexEncode(b)
  {
    if b == [] {
      assert a + b == a;
    } else {
      assert (a + b)[..|a + b| - 1] == a + b[..|b| - 1];
      HexEncodeConcat(a, b[..|b| - 1]);
      hide HexChar;
    }
  }

  lemma {:induction false} EncodedZeros(n: nat)
    ensures HexEncode(seq(n, i => 0)) == Zeros(2 * n)
  {
    if n > 0 {
      var zeros: seq<byte> := seq(n, i => 0);
      assert zeros[..n - 1] == seq(n - 1, i => 0);
      EncodedZeros(n - 1);
      assert HexChar(0) == '0';
    }
  }

  lemma ZerosInFront(n: nat, bytes: seq<byte>)
    ensures HexEncode(seq(n, i => 0) + bytes) == Zeros(2 * n) + HexEncode(bytes)
  {
    HexEncodeConcat(seq(n, i => 0), bytes);
    EncodedZeros(n);
  }

  /** An odd number of digits gets a zero in front as well. */
  lemma OddHash(s: string)
    requires |s| < 64 && (s != "" ==> s[0] != 'x' && s[0] != '0')
    ensures HashFromHex(s) == HashFromHex("0" + s)
  {
    assert TrimHexPrefix(s) == s && TrimHexPrefix("0" + s) == "0" + s;
    assert Zeros(64 - |s|) + s == Zeros(64 - |"0" + s|) + ("0" + s);
  }

  // ---------------------------------------------------------------- Comma-separated lists

  predicate NoComma(s: string) {
    forall i :: 0 <= i < |s| ==> s[i] != ','
  }

  /** `split(',')`. */
  function Split(s: string): (parts: seq<string>)
    ensures parts != []
    ensures forall i :: 0 <= i < |parts| ==> NoComma(parts[i])
  {
    if s == "" then [""]
    else
      var parts, c := Split(s[..|s| - 1]), s[|s| - 1];
      if c == ',' then parts + [""] else parts[..|parts| - 1] + [parts[|parts| - 1] + [c]]
  }

  /** What the loop of the printer appends: every part and a comma. */
  function Terminated(parts: seq<string>): string {
    if parts == [] then "" else Terminated(parts[..|parts| - 1]) + parts[|parts| - 1] + ","
  }

  function Commas(s: string): nat {
    if s == "" then 0 else Commas(s[..|s| - 1]) + (if s[|s| - 1] == ',' then 1 else 0)
  }

  lemma {:induction false} SplitCount(s: string)
    ensures |Split(s)| == Commas(s) + 1
  {
    if s != "" {
      SplitCount(s[..|s| - 1]);
    }
  }

  lemma {:induction false} CommasConcat(s: string, t: string)
    ensures Commas(s + t) == Commas(s) + Commas(t)
  {
    if t == "" {
      assert s + t == s;
    } else {
      assert (s + t)[..|s + t| - 1] == s + t[..|t| - 1];
      CommasConcat(s, t[..|t| - 1]);
    }
  }

  lemma {:induction false} CommasNone(s: string)
    ensures Commas(s) == 0 <==> NoComma(s)
  {
    if s != "" {
      CommasNone(s[..|s| - 1]);
      forall i | 0 <= i < |s| - 1 ensures s[..|s| - 1][i] == s[i] {
      }
    }
  }

  lemma SplitChar(s: string, c: char)
    ensures Split(s + [c])
         == if c == ',' then Split(s) + [""] else Split(s)[..|Split(s)| - 1] + [Split(s)[|Split(s)| - 1] + [c]]
  {
    assert (s + [c])[..|s|] == s;
  }

  lemma {:induction false} SplitExtends(s: string, part: string)
    requires NoComma(part)
    ensures Split(s + part) == Split(s)[..|Split(s)| - 1] + [Split(s)[|Split(s)| - 1] + part]
  {
    hide Split;
    var parts := Split(s);
    if part == "" {
      assert s + part == s && parts[|parts| - 1] + part == parts[|parts| - 1];
    } else {
      var n := |part| - 1;
      SplitExtends(s, part[..n]);
      SplitChar(s + part[..n], part[n]);
      assert s + part[..n] + [part[n]] == s + part;
      assert parts[|parts| - 1] + part[..n] + [part[n]] == parts[|parts| - 1] + part;
    }
  }

  /** Splitting undoes the printer's loop (with the last comma popped), as long as no part has a comma. */
  lemma {:induction false} SplitTerminated(parts: seq<string>)
    requires forall i :: 0 <= i < |parts| ==> NoComma(parts[i])
    ensures Split(Terminated(parts)) == parts + [""]
    ensures parts != [] ==> Terminated(parts) != "" && Split(Terminated(parts)[..|Terminated(parts)| - 1]) == parts
  {
    if parts == [] {
      assert Split(Terminated(parts)) == [""];
    } else {
      hide NoComma, Split;
      var n := |parts| - 1;
      var init := Terminated(parts[..n]);
      SplitTerminated(parts[..n]);
      LastTerminated(parts);
      hide Terminated;
      SplitLast(init, parts[..n], parts[n]);
      TakeNext(parts, n);
      TakeAll(parts);
    }
  }

  lemma LastTerminated(parts: seq<string>)
    requires parts != []
    ensures var s := Terminated(parts[..|parts| - 1]) + parts[|parts| - 1];
            Terminated(parts) == s + "," && Terminated(parts)[..|Terminated(parts)| - 1] == s
  {
  }

  lemma SplitLast(s: string, parts: seq<string>, part: string)
    requires Split(s) == parts + [""] && NoComma(part)
    ensures Split(s + part) == parts + [part]
    ensures Split(s + part + ",") == parts + [part] + [""]
  {
    hide Split, NoComma;
    SplitExtends(s, part);
    assert "" + part == part;
    SplitChar(s + part, ',');
  }

  lemma CommasOfTerminated(parts: seq<string>)
    requires parts != []
    ensures Terminated(parts) != ""
    ensures Commas(Terminated(parts)[..|Terminated(parts)| - 1])
         == Commas(Terminated(parts[..|parts| - 1])) + Commas(parts[|parts| - 1])
    ensures Commas(Terminated(parts)) == Commas(Terminated(parts)[..|Terminated(parts)| - 1]) + 1
  {
    var init, last := Terminated(parts[..|parts| - 1]), parts[|parts| - 1];
    assert Terminated(parts)[..|Terminated(parts)| - 1] == init + last;
    CommasConcat(init, last);
  }

  lemma {:induction false} TerminatedCommas(parts: seq<string>)
    ensures Commas(Terminated(parts)) >= |parts|
    ensures forall i :: 0 <= i < |parts| && !NoComma(parts[i]) ==> Commas(Terminated(parts)) > |parts|
  {
    if parts != [] {
      var n := |parts| - 1;
      TerminatedCommas(parts[..n]);
      CommasOfTerminated(parts);
      CommasNone(parts[n]);
      assert forall i :: 0 <= i < n ==> parts[..n][i] == parts[i];
    }
  }

  /** With a comma in some part, splitting finds more parts than were printed. */
  lemma {:induction false} SplitFindsMore(parts: seq<string>)
    requires exists i :: 0 <= i < |parts| && !NoComma(parts[i])
    ensures var s := Terminated(parts); s != "" && |Split(s[..|s| - 1])| > |parts|
  {
    TerminatedCommas(parts);
    CommasOfTerminated(parts);
    SplitCount(Terminated(parts)[..|Terminated(parts)| - 1]);
  }
}
