/**
 * Text and byte-string operations of the Python runtime that the modelled
 * code applies: ASCII and UTF-8 encoding, decimal formatting of integers,
 * ASCII lower-casing, stripping, prefix/suffix tests and splitting.
 */
module Text {
  import opened Wrappers
  import opened Radix

  type byte = x: int | 0 <= x < 256

  predicate IsAsciiChar(c: char)
  {
    c as int < 128
  }

  predicate IsAscii(s: string)
  {
    forall i :: 0 <= i < |s| ==> IsAsciiChar(s[i])
  }

  lemma AsciiCharsBytes(s: string)
    requires IsAscii(s)
    ensures AsciiChars(AsciiBytes(s)) == s
  {
    var bs := AsciiBytes(s);
    assert forall i :: 0 <= i < |bs| ==> bs[i] < 128;
    assert forall i :: 0 <= i < |s| ==> AsciiChars(bs)[i] == s[i];
  }

  lemma AsciiAppend(s: string, t: string)
    ensures IsAscii(s + t) <==> IsAscii(s) && IsAscii(t)
  {
    if IsAscii(s) && IsAscii(t) {
      forall i | 0 <= i < |s + t|
        ensures IsAsciiChar((s + t)[i])
      {
        if i >= |s| { assert (s + t)[i] == t[i - |s|]; }
      }
    }
    if IsAscii(s + t) {
      forall i | 0 <= i < |s|
        ensures IsAsciiChar(s[i])
      {
        assert (s + t)[i] == s[i];
      }
      forall i | 0 <= i < |t|
        ensures IsAsciiChar(t[i])
      {
        assert (s + t)[|s| + i] == t[i];
      }
    }
  }

  /** The bytes of an ASCII string, one per character. */
  function AsciiBytes(s: string): (bs: seq<byte>)
    requires IsAscii(s)
    ensures |bs| == |s| && forall i :: 0 <= i < |s| ==> bs[i] == s[i] as int
  {
    seq(|s|, i requires 0 <= i < |s| => s[i] as int as byte)
  }

  /** The characters of bytes that are all below 128. */
  function AsciiChars(bs: seq<byte>): (s: string)
    requires forall i :: 0 <= i < |bs| ==> bs[i] < 128
    ensures |s| == |bs| && IsAscii(s) && forall i :: 0 <= i < |s| ==> s[i] as int == bs[i]
  {
    seq(|bs|, i requires 0 <= i < |bs| => bs[i] as char)
  }

  /** `v.to_bytes(n, byteorder='big')` for a value that fits in n bytes. */
  function ToBytes(v: nat, n: nat): (bs: seq<byte>)
    requires v < Pow(256, n)
    ensures |bs| == n && FromDigits(bs, 256) == v
  {
    var ds := ToDigits(v, 256, n);
    FromToDigits(v, 256, n);
    var bs := seq(n, i requires 0 <= i < n => ds[i] as byte);
    assert bs == ds;
    bs
  }

  /** `s.encode('ascii')`: fails on the first character outside ASCII. */
  function EncodeAscii(s: string): (r: Option<seq<byte>>)
    ensures r.Some? <==> IsAscii(s)
    ensures r.Some? ==> r.value == AsciiBytes(s)
  {
    if IsAscii(s) then Some(AsciiBytes(s)) else None
  }

  // ---------------------------------------------------------------- UTF-8

  /** UTF-8 encoding of one Unicode scalar value. */
  function Utf8Char(c: char): (bs: seq<byte>)
    ensures 1 <= |bs| <= 4
    ensures (|bs| == 1) == IsAsciiChar(c)
    ensures IsAsciiChar(c) ==> bs == [c as int]
  {
    var cp := c as int;
    if cp < 0x80 then [cp]
    else if cp < 0x800 then [0xC0 + cp / 64, 0x80 + cp % 64]
    else if cp < 0x10000 then [0xE0 + cp / 4096, 0x80 + (cp / 64) % 64, 0x80 + cp % 64]
    else [0xF0 + cp / 262144, 0x80 + (cp / 4096) % 64, 0x80 + (cp / 64) % 64, 0x80 + cp % 64]
  }

  /** `s.encode('utf-8')`. */
  function Utf8Encode(s: string): (bs: seq<byte>)
    ensures |bs| >= |s|
  {
    if s == [] then [] else Utf8Char(s[0]) + Utf8Encode(s[1..])
  }

  lemma {:induction false} Utf8EncodeAscii(s: string)
    requires IsAscii(s)
    ensures Utf8Encode(s) == AsciiBytes(s)
  {
    if s != [] {
      Utf8EncodeAscii(s[1..]);
    }
  }

  lemma Utf8EncodeAppend(s: string, t: string)
    ensures Utf8Encode(s + t) == Utf8Encode(s) + Utf8Encode(t)
    decreases |s|
  {
    if s != [] {
      assert (s + t)[0] == s[0] && (s + t)[1..] == s[1..] + t;
      Utf8EncodeAppend(s[1..], t);
      calc {
        Utf8Encode(s + t);
        Utf8Char(s[0]) + Utf8Encode(s[1..] + t);
        Utf8Char(s[0]) + (Utf8Encode(s[1..]) + Utf8Encode(t));
      }
    } else {
      assert s + t == t;
    }
  }

  predicate IsContinuation(b: byte)
  {
    0x80 <= b < 0xC0
  }

  /**
   * `bytes.decode('utf-8')` in strict mode: the shortest-form, surrogate-free
   * encodings of code points up to U+10FFFF are accepted, anything else fails.
   */
  function Utf8Decode(bs: seq<byte>): (r: Option<string>)
    decreases |bs|
  {
    if bs == [] then Some([])
    else
      var b0: int := bs[0];
      var n :=
        if b0 < 0x80 then 1
        else if 0xC2 <= b0 <= 0xDF then 2
        else if 0xE0 <= b0 <= 0xEF then 3
        else if 0xF0 <= b0 <= 0xF4 then 4
        else 0;
      if n == 0 || |bs| < n then None
      else if exists i :: 1 <= i < n && !IsContinuation(bs[i]) then None
      else if n == 3 && ((b0 == 0xE0 && bs[1] < 0xA0) || (b0 == 0xED && bs[1] >= 0xA0)) then None
      else if n == 4 && ((b0 == 0xF0 && bs[1] < 0x90) || (b0 == 0xF4 && bs[1] >= 0x90)) then None
      else
        var b1: int, b2: int, b3: int :=
          if n > 1 then bs[1] else 0, if n > 2 then bs[2] else 0, if n > 3 then bs[3] else 0;
        var cp :=
          if n == 1 then b0
          else if n == 2 then (b0 - 0xC0) * 64 + (b1 - 0x80)
          else if n == 3 then (b0 - 0xE0) * 4096 + (b1 - 0x80) * 64 + (b2 - 0x80)
          else (b0 - 0xF0) * 262144 + (b1 - 0x80) * 4096 + (b2 - 0x80) * 64 + (b3 - 0x80);
        match Utf8Decode(bs[n..])
        case None => None
        case Some(rest) => Some([cp as char] + rest)
  }

  /** Bytes below 128 decode as UTF-8 to the characters with those codes. */
  lemma {:induction false} Utf8DecodeAscii(bs: seq<byte>)
    requires forall i :: 0 <= i < |bs| ==> bs[i] < 128
    ensures Utf8Decode(bs) == Some(AsciiChars(bs))
    decreases |bs|
  {
    if bs != [] {
      Utf8DecodeAscii(bs[1..]);
      assert AsciiChars(bs) == [bs[0] as char] + AsciiChars(bs[1..]);
    }
  }

  // ------------------------------------------------------------- decimals

  function DigitChar(d: int): (c: char)
    requires 0 <= d < 10
    ensures '0' <= c <= '9' && c as int - '0' as int == d
  {
    (d + '0' as int) as char
  }

  /** `str(n)` for a non-negative integer: its decimal digits, no leading zeros. */
  function Decimal(n: nat): (s: string)
    ensures 1 <= |s| && (forall i :: 0 <= i < |s| ==> '0' <= s[i] <= '9')
    ensures |s| > 1 ==> s[0] != '0'
    decreases n
  {
    if n < 10 then [DigitChar(n)] else Decimal(n / 10) + [DigitChar(n % 10)]
  }

  /** The numeric value of a string of decimal digits. */
  function DecimalValue(s: string): int
    requires forall i :: 0 <= i < |s| ==> '0' <= s[i] <= '9'
  {
    if s == [] then 0 else DecimalValue(s[..|s| - 1]) * 10 + (s[|s| - 1] as int - '0' as int)
  }

  /** Reading a decimal rendering back gives the number. */
  lemma {:induction false} DecimalRoundTrip(n: nat)
    ensures DecimalValue(Decimal(n)) == n
    decreases n
  {
    if n >= 10 {
      DecimalRoundTrip(n / 10);
      var s := Decimal(n);
      assert s[..|s| - 1] == Decimal(n / 10);
    }
  }

  lemma DecimalInjective(m: nat, n: nat)
    requires Decimal(m) == Decimal(n)
    ensures m == n
  {
    DecimalRoundTrip(m);
    DecimalRoundTrip(n);
  }

  /** `str(n)` for any integer: a minus sign before the digits of a negative one. */
  function IntStr(n: int): (s: string)
    ensures 1 <= |s|
  {
    if n < 0 then "-" + Decimal(-n) else Decimal(n)
  }

  lemma IntStrInjective(m: int, n: int)
    requires IntStr(m) == IntStr(n)
    ensures m == n
  {
    if m < 0 && n < 0 {
      assert Decimal(-m) == IntStr(m)[1..];
      assert Decimal(-n) == IntStr(n)[1..];
      DecimalInjective(-m, -n);
    } else if m >= 0 && n >= 0 {
      DecimalInjective(m, n);
    }
  }

  // --------------------------------------------------- strings and chars

  /** `s.lower()` on ASCII text: A-Z become a-z, every other character stays. */
  function LowerAscii(s: string): (r: string)
    ensures |r| == |s|
    ensures forall i :: 0 <= i < |s| ==>
      r[i] == if 'A' <= s[i] <= 'Z' then (s[i] as int + 32) as char else s[i]
  {
    seq(|s|, i requires 0 <= i < |s| =>
      if 'A' <= s[i] <= 'Z' then (s[i] as int + 32) as char else s[i])
  }

  predicate StartsWith(s: string, p: string)
  {
    |p| <= |s| && s[..|p|] == p
  }

  /** A text starts with any prefix it was built from. */
  lemma StartsWithAppend(p: string, x: string)
    ensures StartsWith(p + x, p) && (p + x)[|p|..] == x
  {
  }

  predicate EndsWith(s: string, p: string)
  {
    |p| <= |s| && s[|s| - |p|..] == p
  }

  /** `s.rstrip(c)`: drops every trailing c. */
  function RStrip(s: string, c: char): (r: string)
    ensures |r| <= |s| && r == s[..|r|]
    ensures r == [] || r[|r| - 1] != c
    ensures forall i :: |r| <= i < |s| ==> s[i] == c
    decreases |s|
  {
    if s != [] && s[|s| - 1] == c then RStrip(s[..|s| - 1], c) else s
  }

  /** `s.lstrip(c)`: drops every leading c. */
  function LStrip(s: string, c: char): (r: string)
    ensures |r| <= |s| && r == s[|s| - |r|..]
    ensures r == [] || r[0] != c
    ensures forall i :: 0 <= i < |s| - |r| ==> s[i] == c
    decreases |s|
  {
    if s != [] && s[0] == c then LStrip(s[1..], c) else s
  }

  /** `s.strip(c)`: drops c from both ends. */
  function Strip(s: string, c: char): string
  {
    RStrip(LStrip(s, c), c)
  }

  lemma {:induction false} RStripAppended(x: string, c: char, n: nat)
    requires x != [] && x[|x| - 1] != c
    ensures RStrip(x + seq(n, _ => c), c) == x
  {
    if n > 0 {
      var s := x + seq(n, _ => c);
      assert s[..|s| - 1] == x + seq(n - 1, _ => c);
      RStripAppended(x, c, n - 1);
    } else {
      assert x + seq(n, _ => c) == x;
    }
  }

  /** Stripping c from text that neither starts nor ends with c, followed by n copies of c. */
  lemma StripAppended(x: string, c: char, n: nat)
    requires x != [] && x[0] != c && x[|x| - 1] != c
    ensures Strip(x + seq(n, _ => c), c) == x
  {
    var s := x + seq(n, _ => c);
    assert s[0] == x[0];
    assert LStrip(s, c) == s;
    RStripAppended(x, c, n);
  }

  /** The index of the first occurrence of c in s, if any. */
  function IndexOf(s: string, c: char): (r: Option<nat>)
    ensures r.None? <==> c !in s
    ensures r.Some? ==> r.value < |s| && s[r.value] == c && c !in s[..r.value]
  {
    if c !in s then None
    else if s[0] == c then Some(0)
    else
      var k := IndexOf(s[1..], c).value;
      assert s[..k + 1] == [s[0]] + s[1..][..k];
      Some(k + 1)
  }

  /**
   * `s.split(c, 1)` unpacked into two names: the text before the first c and
   * everything after it; a string without c does not unpack.
   */
  function SplitOnce(s: string, c: char): (r: Option<(string, string)>)
    ensures r.None? <==> c !in s
    ensures r.Some? ==> s == r.value.0 + [c] + r.value.1 && c !in r.value.0
  {
    match IndexOf(s, c)
    case None => None
    case Some(k) =>
      assert s == s[..k] + [c] + s[k + 1..];
      Some((s[..k], s[k + 1..]))
  }

  /** Splitting at the first c recovers the parts around it when the first part has no c. */
  lemma SplitOnceJoin(a: string, c: char, b: string)
    requires c !in a
    ensures SplitOnce(a + [c] + b, c) == Some((a, b))
  {
    var s := a + [c] + b;
    assert s[|a|] == c;
    assert s[..|a|] == a && s[|a| + 1..] == b;
  }

  /** `s.split(c)`: the pieces between occurrences of c, at least one. */
  function SplitAll(s: string, c: char): (parts: seq<string>)
    ensures |parts| >= 1
    ensures forall i :: 0 <= i < |parts| ==> c !in parts[i]
    decreases |s|
  {
    match SplitOnce(s, c)
    case None => [s]
    case Some((head, tail)) => [head] + SplitAll(tail, c)
  }
}
