/** C text: the printf conversions the dissector uses, and the string buffer it appends to. */
module Text {
  import opened Bytes

  predicate NulFree(s: string) { forall i :: 0 <= i < |s| ==> s[i] != '\0' }

  /** What `%s` prints of a char array: everything before the first NUL. */
  function CStr(s: string): (r: string)
    ensures NulFree(r) && r <= s
    ensures NulFree(s) ==> r == s
  {
    if s == [] || s[0] == '\0' then [] else
      assert NulFree(s) ==> NulFree(s[1..]);
      [s[0]] + CStr(s[1..])
  }

  function Digit(n: nat): (c: char)
    requires n < 10
    ensures '0' <= c <= '9' && c as int - '0' as int == n
  {
    '0' + n as char
  }

  /** %u, %d. */
  function Decimal(n: int): (s: string)
    ensures NulFree(s) && s != []
    decreases if n < 0 then 1 - n else n
  {
    if n < 0 then "-" + Decimal(-n)
    else if n < 10 then [Digit(n)]
    else Decimal(n / 10) + [Digit(n % 10)]
  }

  function HexDigit(n: nat, ten: char): (c: char)
    requires n < 16 && ten in {'a', 'A'}
    ensures c != '\0'
  {
    if n < 10 then Digit(n) else ten + (n - 10) as char
  }

  /** %0<width>x or %0<width>X of a number that fits. */
  function Hex(n: nat, width: nat, ten: char): (s: string)
    requires ten in {'a', 'A'}
    ensures NulFree(s) && |s| == width
  {
    if width == 0 then [] else Hex(n / 16, width - 1, ten) + [HexDigit(n % 16, ten)]
  }

  function Repeat(s: string, n: nat): (r: string)
    ensures NulFree(s) ==> NulFree(r)
    ensures s != [] && n > 0 ==> r != []
  {
    if n == 0 then [] else Repeat(s, n - 1) + s
  }

  /** " %02x" for every byte. */
  function HexDump(data: seq<Byte>): (s: string)
    ensures NulFree(s)
    ensures s == [] <==> data == []
  {
    if data == [] then [] else HexDump(data[..|data| - 1]) + (" " + Hex(data[|data| - 1], 2, 'a'))
  }

  // ---- What the conversions print ----

  /** A C string ends before its first NUL. */
  lemma {:induction false} CStrEndsAtNul(s: string, rest: string)
    requires NulFree(s)
    ensures CStr(s + ['\0'] + rest) == s
  {
    if s != "" {
      assert (s + ['\0'] + rest)[1..] == s[1..] + ['\0'] + rest;
      CStrEndsAtNul(s[1..], rest);
    }
  }

  lemma NegativeHasSign(n: int)
    requires n < 0
    ensures Decimal(n) == "-" + Decimal(-n)
  {
  }

  /** The digits of a number are those of its upper part and those of its low 16 bits. */
  lemma HexInTwo(high: nat, low: nat, width: nat, ten: char)
    requires low < 0x1_0000 && ten in {'a', 'A'}
    ensures Hex(high * 0x1_0000 + low, width + 4, ten) == Hex(high, width, ten) + Hex(low, 4, ten)
  {
    hide Hex;
    var a, b, c, d := SixteenBits(low);
    FourMoreDigits(high, a, b, c, d, width, ten);
    FourMoreDigits(0, a, b, c, d, 0, ten);
    NoDigits(ten);
  }

  lemma SixteenBits(n: nat) returns (a: nat, b: nat, c: nat, d: nat)
    requires n < 0x1_0000
    ensures a < 16 && b < 16 && c < 16 && d < 16 && n == 4096 * a + 256 * b + 16 * c + d
  {
    var m, k := n / 16, n / 16 / 16;
    a, b, c, d := k / 16, k % 16, m % 16, n % 16;
  }

  lemma NoDigits(ten: char)
    requires ten in {'a', 'A'}
    ensures Hex(0, 0, ten) == ""
  {
  }

  lemma FourMoreDigits(high: nat, a: nat, b: nat, c: nat, d: nat, width: nat, ten: char)
    requires a < 16 && b < 16 && c < 16 && d < 16 && ten in {'a', 'A'}
    ensures Hex(high * 0x1_0000 + 4096 * a + 256 * b + 16 * c + d, width + 4, ten) ==
            Hex(high, width, ten) + [HexDigit(a, ten), HexDigit(b, ten), HexDigit(c, ten), HexDigit(d, ten)]
  {
    hide Hex;
    OneMoreDigit(high, a, width, ten);
    OneMoreDigit(16 * high + a, b, width + 1, ten);
    OneMoreDigit(256 * high + 16 * a + b, c, width + 2, ten);
    OneMoreDigit(4096 * high + 256 * a + 16 * b + c, d, width + 3, ten);
  }

  lemma OneMoreDigit(high: nat, d: nat, width: nat, ten: char)
    requires d < 16 && ten in {'a', 'A'}
    ensures Hex(16 * high + d, width + 1, ten) == Hex(high, width, ten) + [HexDigit(d, ten)]
  {
    assert (16 * high + d) / 16 == high && (16 * high + d) % 16 == d;
  }

  /** Digits above nine are letters, small or capital. */
  lemma HexDigitIsLetter(n: nat)
    requires 10 <= n < 16
    ensures HexDigit(n, 'a') == "abcdef"[n - 10] && HexDigit(n, 'A') == "ABCDEF"[n - 10]
  {
  }

  /** A blank and two digits for byte `i`. */
  lemma {:induction false} HexDumpAt(data: seq<Byte>, i: nat)
    requires i < |data|
    ensures |HexDump(data)| == 3 * |data|
    ensures HexDump(data)[3 * i..3 * i + 3] == [' ', HexDigit(data[i] / 16, 'a'), HexDigit(data[i] % 16, 'a')]
    decreases |data|
  {
    var n := |data| - 1;
    HexDumpLength(data[..n]);
    assert Hex(data[n] / 16, 1, 'a') == [HexDigit(data[n] / 16, 'a')];
    assert Hex(data[n], 2, 'a') == [HexDigit(data[n] / 16, 'a'), HexDigit(data[n] % 16, 'a')];
    if i < n {
      HexDumpAt(data[..n], i);
      assert HexDump(data)[3 * i..3 * i + 3] == HexDump(data[..n])[3 * i..3 * i + 3];
    }
  }

  lemma {:induction false} HexDumpLength(data: seq<Byte>)
    ensures |HexDump(data)| == 3 * |data|
  {
    if data != [] {
      HexDumpLength(data[..|data| - 1]);
    }
  }

  /** `n` times four blanks. */
  lemma {:induction false} RepeatedBlanks(n: nat)
    ensures Repeat("    ", n) == seq(4 * n, _ => ' ')
  {
    if n > 0 {
      RepeatedBlanks(n - 1);
    }
  }

  /** The char buffer behind AppendStringF: null until something is appended, then doubling. */
  class StringBuffer {
    var strBuf: array?<char>
    var strBufSize: nat

    /** The text before the terminating NUL. */
    ghost var text: string

    ghost predicate Valid()
      reads this, strBuf
    {
      && NulFree(text)
      && if strBuf == null then strBufSize == 0 && text == ""
         else strBufSize == strBuf.Length && |text| < strBufSize && strBuf[..|text|] == text && strBuf[|text|] == '\0'
    }

    constructor ()
      ensures Valid() && strBuf == null
    {
      strBuf, strBufSize, text := null, 0, "";
    }

    /** strlen. */
    method StrLen() returns (n: nat)
      requires Valid() && strBuf != null
      ensures n == |text|
    {
      n := 0;
      while strBuf[n] != '\0'
        invariant n <= |text|
        decreases |text| - n
      {
        assert strBuf[..|text|][n] == text[n];
        n := n + 1;
      }
    }

    /** vsnprintf of `s` at `at`, into at most `room` chars including the NUL. */
    method Print(at: nat, room: nat, s: string)
      requires strBuf != null && at + room <= strBuf.Length
      modifies strBuf
      ensures forall i :: 0 <= i < at ==> strBuf[i] == old(strBuf[i])
      ensures |s| < room ==> strBuf[at..at + |s|] == s && strBuf[at + |s|] == '\0'
    {
      if room > 0 {
        var n := if |s| < room then |s| else room - 1;
        forall i | 0 <= i < n {
          strBuf[at + i] := s[i];
        }
        strBuf[at + n] := '\0';
      }
    }

    method AppendStringF(s: string)
      requires Valid() && NulFree(s)
      modifies this, strBuf
      ensures Valid() && strBuf != null && (strBuf == old(strBuf) || fresh(strBuf))
      ensures text == old(text) + s
    {
      var curStrLen: nat := 0;
      if strBuf != null {
        curStrLen := StrLen();
      }
      var remainingBufSize := strBufSize - curStrLen;
      if strBuf != null {
        Print(curStrLen, remainingBufSize, s);
      }
      if |s| >= remainingBufSize {
        var newSize := |s| + 1;
        if strBuf != null && strBufSize != 0 {
          newSize := strBufSize;
          while newSize < curStrLen + |s| + 1
            invariant newSize >= strBufSize > 0
            decreases curStrLen + |s| + 1 - newSize
          {
            newSize := newSize * 2;
          }
        }
        Realloc(newSize, curStrLen);
        Print(curStrLen, strBufSize - curStrLen, s);
      }
      assert strBuf[..curStrLen] == text;
      assert strBuf[..curStrLen + |s|] == strBuf[..curStrLen] + strBuf[curStrLen..curStrLen + |s|];
      text := text + s;
    }

    /** realloc; the first `n` chars are kept. */
    method Realloc(newSize: nat, n: nat)
      requires n <= newSize && (if strBuf == null then n == 0 else n <= strBuf.Length)
      modifies this`strBuf, this`strBufSize
      ensures strBuf != null && fresh(strBuf) && strBuf.Length == strBufSize == newSize
      ensures strBuf[..n] == if old(strBuf) == null then "" else old(strBuf[..n])
    {
      var grown := new char[newSize];
      if strBuf != null {
        forall i | 0 <= i < n {
          grown[i] := strBuf[i];
        }
        assert grown[..n] == strBuf[..n];
      }
      strBuf, strBufSize := grown, newSize;
    }

    /** The buffer as a C string. */
    method CString() returns (s: string)
      requires Valid() && strBuf != null
      ensures s == text
    {
      var n := StrLen();
      s := strBuf[..n];
    }

    /** AppendRepeated. */
    method AppendRepeated(s: string, repeatCount: nat)
      requires Valid() && NulFree(s)
      modifies this, strBuf
      ensures Valid() && (strBuf == old(strBuf) || fresh(strBuf))
      ensures strBuf == null <==> old(strBuf) == null && repeatCount == 0
      ensures text == old(text) + Repeat(s, repeatCount)
    {
      hide NulFree;
      var i := 0;
      while i < repeatCount
        invariant 0 <= i <= repeatCount && Valid()
        invariant strBuf == old(strBuf) || fresh(strBuf)
        invariant strBuf == null <==> old(strBuf) == null && i == 0
        invariant text == old(text) + Repeat(s, i)
      {
        AppendStringF(s);
        assert text == old(text) + (Repeat(s, i) + s);
        i := i + 1;
      }
    }
  }
}
