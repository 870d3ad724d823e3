/** The numbers and the key bytes of a hint line. */
module Numerals {
  import opened Bytes
  import opened Options
  import Text

  const UINT64_MAX := 0xFFFF_FFFF_FFFF_FFFF
  const KEY_LENGTH := 16

  // ---- Digits ----

  /** isspace of the C locale: space, and tab through carriage return. */
  predicate IsSpace(c: char) { c == ' ' || 9 <= c as int <= 13 }

  predicate IsDigit(c: char) { '0' <= c <= '9' }

  predicate IsHexDigit(c: char) { IsDigit(c) || 'a' <= c <= 'f' || 'A' <= c <= 'F' }

  function DigitValue(c: char): (d: nat)
    requires IsHexDigit(c)
    ensures d < 16
  {
    if IsDigit(c) then c as int - '0' as int
    else if 'a' <= c <= 'f' then c as int - 'a' as int + 10
    else c as int - 'A' as int + 10
  }

  predicate InBase(c: char, base: nat) { IsHexDigit(c) && DigitValue(c) < base }

  predicate AllInBase(t: string, base: nat) { forall i :: 0 <= i < |t| ==> InBase(t[i], base) }

  /** What the digits `t` denote. */
  function Value(t: string, base: nat): nat
    requires AllInBase(t, base)
  {
    if t == "" then 0 else Value(t[..|t| - 1], base) * base + DigitValue(t[|t| - 1])
  }

  // ---- strtoull with base 0 ----

  function SpacesEnd(s: string, i: nat): (k: nat)
    requires i <= |s|
    ensures i <= k <= |s| && (k < |s| ==> !IsSpace(s[k]))
    decreases |s| - i
  {
    if i < |s| && IsSpace(s[i]) then SpacesEnd(s, i + 1) else i
  }

  function DigitsEnd(s: string, i: nat, base: nat): (k: nat)
    requires i <= |s|
    ensures i <= k <= |s| && AllInBase(s[i..k], base) && (k < |s| ==> !InBase(s[k], base))
    decreases |s| - i
  {
    if i < |s| && InBase(s[i], base) then DigitsEnd(s, i + 1, base) else i
  }

  datatype Scan = Scan(value: nat, overflow: bool, end: nat)

  /** Section 7.22.1.4 of the C standard (ISO/IEC 9899:2011), over a string without NULs. */
  function StrToULL(s: string): (r: Scan)
    ensures r.value <= UINT64_MAX && r.end <= |s|
  {
    var i := SpacesEnd(s, 0);
    var negative := i < |s| && s[i] == '-';
    var j := if i < |s| && s[i] in {'+', '-'} then i + 1 else i;
    var hex := j + 2 < |s| && s[j] == '0' && s[j + 1] in {'x', 'X'} && IsHexDigit(s[j + 2]);
    var base := if hex then 16 else if j < |s| && s[j] == '0' then 8 else 10;
    var start := if hex then j + 2 else j;
    var end := DigitsEnd(s, start, base);
    var n := Value(s[start..end], base);
    if end == start then Scan(0, false, 0)
    else if n > UINT64_MAX then Scan(UINT64_MAX, true, end)
    else Scan(if negative && n > 0 then UINT64_MAX + 1 - n else n, false, end)
  }

  function ParseUIntAuto(s: string): (r: Option<nat>)
    ensures r.Some? ==> r.value <= UINT64_MAX
  {
    if s == "" then None
    else
      var text := Text.CStr(s);
      var scan := StrToULL(text);
      if scan.overflow || scan.end == 0 || scan.end < |text| then None else Some(scan.value)
  }

  // ---- The numerals that are read back ----

  /** `t` is `n` in decimal without leading zeros, or in hexadecimal behind 0x. */
  ghost predicate IsNumeral(t: string, n: nat) {
    || (t != "" && AllInBase(t, 10) && Value(t, 10) == n && (t[0] != '0' || |t| == 1))
    || (|t| >= 3 && t[0] == '0' && t[1] in {'x', 'X'} && AllInBase(t[2..], 16) && Value(t[2..], 16) == n)
  }

  lemma {:induction false} DigitsReachEnd(s: string, i: nat, base: nat)
    requires i <= |s| && AllInBase(s[i..], base)
    ensures DigitsEnd(s, i, base) == |s|
    decreases |s| - i
  {
    if i < |s| {
      assert s[i..][0] == s[i];
      assert forall k :: i + 1 <= k < |s| ==> s[i..][k - i] == s[k];
      DigitsReachEnd(s, i + 1, base);
    }
  }

  lemma NoNuls(t: string, base: nat)
    requires AllInBase(t, base)
    ensures Text.NulFree(t)
  {
    forall i | 0 <= i < |t|
      ensures t[i] != '\0'
    {
      assert InBase(t[i], base);
    }
  }

  /** A numeral is read back, unless it does not fit in 64 bits. */
  lemma NumeralIsRead(t: string, n: nat)
    requires IsNumeral(t, n)
    ensures ParseUIntAuto(t) == if n <= UINT64_MAX then Some(n) else None
  {
    if |t| >= 3 && t[0] == '0' && t[1] in {'x', 'X'} && AllInBase(t[2..], 16) && Value(t[2..], 16) == n {
      NoNuls(t[2..], 16);
      assert forall i :: 2 <= i < |t| ==> t[2..][i - 2] == t[i];
      DigitsReachEnd(t, 2, 16);
      assert t[2..][0] == t[2];
      assert InBase(t[2..][0], 16);
      assert t[2..|t|] == t[2..];
    } else {
      NoNuls(t, 10);
      DecimalScans(t);
    }
  }

  lemma DecimalScans(t: string)
    requires t != "" && AllInBase(t, 10) && (t[0] != '0' || |t| == 1)
    ensures var n := Value(t, 10);
            StrToULL(t) == if n > UINT64_MAX then Scan(UINT64_MAX, true, |t|) else Scan(n, false, |t|)
  {
    hide DigitsEnd;
    assert InBase(t[0], 10);
    assert t[0..] == t && t[0..|t|] == t;
    if t[0] == '0' {
      assert t[..0] == "" && Value(t, 8) == Value(t, 10) == 0;
      DigitsReachEnd(t, 0, 8);
    } else {
      DigitsReachEnd(t, 0, 10);
    }
  }

  /** A minus sign takes the number modulo 2^64. */
  lemma SignIsTaken(t: string, n: nat)
    requires t != "" && AllInBase(t, 10) && Value(t, 10) == n <= UINT64_MAX && t[0] != '0'
    ensures ParseUIntAuto("+" + t) == Some(n)
    ensures ParseUIntAuto("-" + t) == Some(0x1_0000_0000_0000_0000 - n)
  {
    hide StrToULL, Text.CStr, Value;
    ScanBehind("+", t);
    ScanBehind("-", t);
    Positive(t);
  }

  lemma ScanBehind(sign: string, t: string)
    requires sign == "+" || sign == "-"
    requires t != "" && AllInBase(t, 10) && t[0] != '0' && Value(t, 10) <= UINT64_MAX
    ensures var n := Value(t, 10);
            StrToULL(sign + t) == Scan(if sign == "-" && n > 0 then UINT64_MAX + 1 - n else n, false, |t| + 1)
    ensures Text.NulFree(sign + t)
  {
    hide DigitsEnd;
    NoNuls(t, 10);
    assert InBase(t[0], 10);
    var s := sign + t;
    assert s[1] == t[0] && s[1..] == t && s[1..|s|] == t;
    DigitsReachEnd(s, 1, 10);
  }

  lemma {:induction false} Positive(t: string)
    requires t != "" && AllInBase(t, 10) && t[0] != '0'
    ensures Value(t, 10) > 0
  {
    assert InBase(t[0], 10);
    if |t| > 1 {
      Positive(t[..|t| - 1]);
    } else {
      assert t[..0] == "" && DigitValue(t[0]) > 0;
    }
  }

  /** Nothing behind a NUL is read. */
  lemma NulEndsNumber(t: string, rest: string)
    requires t != "" && Text.NulFree(t)
    ensures ParseUIntAuto(t + ['\0'] + rest) == ParseUIntAuto(t)
  {
    hide StrToULL;
    Text.CStrEndsAtNul(t, rest);
  }

  /** Leading zeros are the exception: they make the number octal. */
  lemma LeadingZeros(t: string)
    requires t != "" && AllInBase(t, 10) && Value(t, 10) <= UINT64_MAX
    ensures ParseUIntAuto(t) == Some(Value(t, 10)) <==> t[0] != '0' || Value(t, 10) < 8
  {
    NoNuls(t, 10);
    if t[0] != '0' {
      NumeralIsRead(t, Value(t, 10));
    } else if exists i :: 0 <= i < |t| && !InBase(t[i], 8) {
      var i :| 0 <= i < |t| && !InBase(t[i], 8);
      assert InBase(t[i], 10);
      DigitBounds(t, i);
      OctalStops(t, i);
    } else {
      OctalScans(t);
      OctalIsLess(t);
    }
  }

  lemma {:induction false} DigitBounds(t: string, i: nat)
    requires i < |t| && AllInBase(t, 10)
    ensures DigitValue(t[i]) <= Value(t, 10)
  {
    var n := |t| - 1;
    if i < n {
      DigitBounds(t[..n], i);
    }
  }

  lemma {:induction false} DigitsStopBefore(s: string, i: nat, base: nat, k: nat)
    requires i <= k < |s| && !InBase(s[k], base)
    ensures DigitsEnd(s, i, base) <= k
    decreases k - i
  {
    if i < k && InBase(s[i], base) {
      DigitsStopBefore(s, i + 1, base, k);
    }
  }

  lemma OctalStops(t: string, k: nat)
    requires k < |t| && AllInBase(t, 10) && t[0] == '0' && !InBase(t[k], 8)
    ensures ParseUIntAuto(t).None?
  {
    NoNuls(t, 10);
    DigitsStopBefore(t, 0, 8, k);
    assert forall i :: 0 <= i < |t| ==> InBase(t[i], 10);
  }

  lemma OctalScans(t: string)
    requires t != "" && t[0] == '0' && AllInBase(t, 8)
    ensures ParseUIntAuto(t) == if Value(t, 8) <= UINT64_MAX then Some(Value(t, 8)) else None
  {
    hide Value, DigitsEnd, Text.CStr;
    NoNuls(t, 8);
    assert t[0..] == t && t[0..|t|] == t;
    assert forall i :: 0 <= i < |t| ==> InBase(t[i], 8);
    DigitsReachEnd(t, 0, 8);
  }

  /** Digits read as octal denote less than in decimal, once there are two that count. */
  lemma {:induction false} OctalIsLess(t: string)
    requires AllInBase(t, 8)
    ensures AllInBase(t, 10)
    ensures if Value(t, 10) < 8 then Value(t, 8) == Value(t, 10) else Value(t, 8) < Value(t, 10)
  {
    if t != "" {
      var n := |t| - 1;
      assert InBase(t[n], 8);
      OctalIsLess(t[..n]);
    }
  }

  // ---- Key bytes ----

  /** The hexadecimal digits of a string; everything else is dropped. */
  function HexDigitsOf(s: string): (hex: string)
    ensures AllInBase(hex, 16)
  {
    if s == "" then ""
    else
      var c := s[|s| - 1];
      HexDigitsOf(s[..|s| - 1]) + if IsHexDigit(c) then [c] else ""
  }

  lemma {:induction false} HexDigitsInTwo(a: string, b: string)
    ensures HexDigitsOf(a + b) == HexDigitsOf(a) + HexDigitsOf(b)
  {
    if b == "" {
      assert a + b == a;
    } else {
      var n := |b| - 1;
      assert (a + b)[..|a + b| - 1] == a + b[..n];
      HexDigitsInTwo(a, b[..n]);
    }
  }

  /** Digits of either case are kept, and every other character is dropped. */
  lemma HexDigitIsKept(c: char)
    ensures HexDigitsOf([c]) == if c in "0123456789abcdefABCDEF" then [c] else ""
  {
    assert [c][..0] == "";
    if IsHexDigit(c) {
      OneOfTheDigits(c);
    }
  }

  lemma OneOfTheDigits(c: char)
    requires IsHexDigit(c)
    ensures c in "0123456789abcdefABCDEF"
  {
    var digits := "0123456789abcdefABCDEF";
    assert digits[DigitValue(c)] == c || digits[DigitValue(c) + 6] == c;
  }

  method NormalizeHex(s: string) returns (out: string)
    ensures out == HexDigitsOf(s)
  {
    out := "";
    for i := 0 to |s|
      invariant out == HexDigitsOf(s[..i])
    {
      assert s[..i + 1][..i] == s[..i];
      if IsHexDigit(s[i]) {
        out := out + [s[i]];
      }
    }
    assert s[..|s|] == s;
  }

  function KeyBytes(raw: string): (key: Option<seq<Byte>>)
    ensures key.Some? ==> |key.value| == KEY_LENGTH
  {
    var hex := HexDigitsOf(raw);
    if |hex| != KEY_LENGTH * 2 then None
    else Some(seq(KEY_LENGTH, i requires 0 <= i < KEY_LENGTH => ByteAt(hex, i)))
  }

  /** The byte two hexadecimal digits denote. */
  function ByteAt(hex: string, i: nat): Byte
    requires AllInBase(hex, 16) && 2 * i + 1 < |hex|
  {
    DigitValue(hex[2 * i]) * 16 + DigitValue(hex[2 * i + 1])
  }

  method ParseHexKeyBytes(raw: string, out: array<Byte>) returns (ok: bool)
    requires out.Length == KEY_LENGTH
    modifies out
    ensures ok <==> KeyBytes(raw).Some?
    ensures ok ==> out[..] == KeyBytes(raw).value
    ensures !ok ==> out[..] == old(out[..])
  {
    var hex := NormalizeHex(raw);
    if |hex| != KEY_LENGTH * 2 {
      return false;
    }
    for i := 0 to KEY_LENGTH
      invariant forall k :: 0 <= k < i ==> out[k] == ByteAt(hex, k)
    {
      var byteText := hex[i * 2..i * 2 + 2];
      TwoDigits(byteText);
      assert byteText[0] == hex[2 * i] && byteText[1] == hex[2 * i + 1];
      out[i] := Value(byteText, 16);
    }
    ok := true;
  }

  lemma TwoDigits(t: string)
    requires |t| == 2 && AllInBase(t, 16)
    ensures Value(t, 16) == DigitValue(t[0]) * 16 + DigitValue(t[1])
  {
    assert t[..1][..0] == "" && t[..1][0] == t[0];
    assert Value(t[..1], 16) == DigitValue(t[0]);
  }

  /** `c` is the digit `d` in either case. */
  predicate IsHexOf(c: char, d: nat)
    requires d < 16
  {
    c in {Text.HexDigit(d, 'a'), Text.HexDigit(d, 'A')}
  }

  /** `hex` prints the bytes of the key, two digits each. */
  predicate Prints(hex: string, key: seq<Byte>) {
    && |hex| == 2 * |key|
    && forall i :: 0 <= i < |key| ==> IsHexOf(hex[2 * i], key[i] / 16) && IsHexOf(hex[2 * i + 1], key[i] % 16)
  }

  lemma DigitsMatch(c: char, d: nat)
    requires d < 16
    ensures IsHexOf(c, d) <==> IsHexDigit(c) && DigitValue(c) == d
  {
  }

  /** Exactly the strings whose hexadecimal digits print the key are read as it. */
  lemma KeyIsRead(raw: string, key: seq<Byte>)
    ensures KeyBytes(raw) == Some(key) <==> |key| == KEY_LENGTH && Prints(HexDigitsOf(raw), key)
  {
    var hex := HexDigitsOf(raw);
    if |key| == KEY_LENGTH && |hex| == KEY_LENGTH * 2 {
      forall i | 0 <= i < KEY_LENGTH
        ensures ByteAt(hex, i) == key[i] <==> IsHexOf(hex[2 * i], key[i] / 16) && IsHexOf(hex[2 * i + 1], key[i] % 16)
      {
        assert InBase(hex[2 * i], 16) && InBase(hex[2 * i + 1], 16);
        DigitsMatch(hex[2 * i], key[i] / 16);
        DigitsMatch(hex[2 * i + 1], key[i] % 16);
      }
      var read := KeyBytes(raw).value;
      assert forall i :: 0 <= i < KEY_LENGTH ==> read[i] == ByteAt(hex, i);
      assert read == key <==> forall i :: 0 <= i < KEY_LENGTH ==> read[i] == key[i];
    }
  }

  // ---- Printing ----

  /** What the printf conversions give are numerals. */
  lemma DecimalIsNumeral(n: nat)
    ensures IsNumeral(Text.Decimal(n), n)
  {
    DecimalDigits(n);
  }

  lemma {:induction false} DecimalDigits(n: nat)
    ensures var t := Text.Decimal(n);
            AllInBase(t, 10) && Value(t, 10) == n && (n < 10 ==> |t| == 1) && (n >= 10 ==> t[0] != '0')
  {
    if n >= 10 {
      DecimalDigits(n / 10);
      var t, p := Text.Decimal(n), Text.Decimal(n / 10);
      assert t[..|t| - 1] == p;
      if n / 10 < 10 {
        assert Value(p, 10) == n / 10 && p[..0] == "";
        assert DigitValue(p[0]) == n / 10;
      }
    }
  }

  lemma HexIsNumeral(n: nat, width: nat, ten: char, x: char)
    requires width > 0 && n < Power16(width) && ten in {'a', 'A'} && x in {'x', 'X'}
    ensures IsNumeral(['0', x] + Text.Hex(n, width, ten), n)
  {
    HexDigits(n, width, ten);
    assert (['0', x] + Text.Hex(n, width, ten))[2..] == Text.Hex(n, width, ten);
  }

  function Power16(k: nat): nat {
    if k == 0 then 1 else 16 * Power16(k - 1)
  }

  lemma {:induction false} HexDigits(n: nat, width: nat, ten: char)
    requires n < Power16(width) && ten in {'a', 'A'}
    ensures AllInBase(Text.Hex(n, width, ten), 16) && Value(Text.Hex(n, width, ten), 16) == n
  {
    if width > 0 {
      HexDigits(n / 16, width - 1, ten);
      var t := Text.Hex(n, width, ten);
      assert t[..|t| - 1] == Text.Hex(n / 16, width - 1, ten);
      DigitsMatch(t[|t| - 1], n % 16);
    }
  }
}
