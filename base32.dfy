/**
 * Base 32 encoding of section 6 of RFC 4648, as `base64.b32encode` produces
 * it: every 5-byte quantum becomes 8 characters; a final quantum of k < 5
 * bytes is extended with zero bits to a whole number of 5-bit groups, written
 * out, and padded with "=" to 8 characters.
 */
module Base32 {
  import opened Radix
  import opened Text

  /** The alphabet of table 3 of RFC 4648. */
  const Alphabet: string := "ABCDEFGHIJKLMNOPQRSTUVWXYZ234567"

  /** The same alphabet after `str.lower()`. */
  const LowerAlphabet: string := "abcdefghijklmnopqrstuvwxyz234567"

  /** The character for a 5-bit value, computed rather than looked up. */
  function SymbolFor(d: int): char
    requires 0 <= d < 32
  {
    if d < 26 then ('A' as int + d) as char else ('2' as int + d - 26) as char
  }

  /** The value of a character of the lower-cased alphabet. */
  function LowerSymbolValue(c: char): int
  {
    if 'a' <= c <= 'z' then c as int - 'a' as int else c as int - '2' as int + 26
  }

  lemma AlphabetTable(d: int)
    requires 0 <= d < 32
    ensures |Alphabet| == 32 && Alphabet[d] == SymbolFor(d) && Alphabet[d] != '='
    ensures |LowerAlphabet| == 32 && LowerAscii([Alphabet[d]]) == [LowerAlphabet[d]]
    ensures LowerSymbolValue(LowerAlphabet[d]) == d
  {
  }

  /** Data characters written for a final quantum of k bytes (8k/5 rounded up). */
  function DataChars(k: int): (m: nat)
    requires 1 <= k <= 5
    ensures 5 * m >= 8 * k > 5 * (m - 1)
  {
    if k == 1 then 2 else if k == 2 then 4 else if k == 3 then 5 else if k == 4 then 7 else 8
  }

  function Symbols(ds: seq<int>): (s: string)
    requires DigitsIn(ds, 32)
    ensures |s| == |ds| && forall i :: 0 <= i < |ds| ==> s[i] == Alphabet[ds[i]]
  {
    seq(|ds|, i requires 0 <= i < |ds| => Alphabet[ds[i]])
  }

  function Padding(n: nat): (s: string)
    ensures |s| == n && forall i :: 0 <= i < n ==> s[i] == '='
  {
    seq(n, _ => '=')
  }

  /**
   * The value of a quantum's bits extended with 5 * DataChars(k) - 8 * k
   * zero bits (2, 4, 1, 3 or 0 of them for k = 1 to 5).
   */
  function QuantumValue(g: seq<byte>): (v: nat)
    requires 1 <= |g| <= 5
  {
    var k := |g|;
    FromDigitsBound(g, 256);
    var x: nat := FromDigits(g, 256);
    if k == 1 then x * 4 else if k == 2 then x * 16 else if k == 3 then x * 2 else if k == 4 then x * 8 else x
  }

  /** The extension fills the last 5-bit group exactly: the value has DataChars(k) digits. */
  lemma QuantumValueBound(g: seq<byte>)
    requires 1 <= |g| <= 5
    ensures QuantumValue(g) < Pow(32, DataChars(|g|))
    ensures QuantumValue(g) == FromDigits(g, 256) * Pow(2, 5 * DataChars(|g|) - 8 * |g|)
  {
    FromDigitsBound(g, 256);
    PowAdd(2, 5, 5);
    PowAdd(2, 10, 10);
    PowAdd(2, 20, 20);
    assert Pow(2, 5) == 32;
    PowAdd(32, 4, 4);
    PowAdd(256, 2, 2);
    PowAdd(32, 2, 2);
  }

  /** One quantum of 1 to 5 bytes as 8 characters. */
  function Quantum(g: seq<byte>): (s: string)
    requires 1 <= |g| <= 5
    ensures |s| == 8
  {
    var m := DataChars(|g|);
    Symbols(ToDigits(QuantumValue(g), 32, m)) + Padding(8 - m)
  }

  /** `base64.b32encode(bs)`. */
  function Encode(bs: seq<byte>): string
    decreases |bs|
  {
    if bs == [] then []
    else if |bs| <= 5 then Quantum(bs)
    else Quantum(bs[..5]) + Encode(bs[5..])
  }

  /** Eight bytes are one full quantum and one of three bytes. */
  lemma EncodeEight(bs: seq<byte>)
    requires |bs| == 8
    ensures Encode(bs) == Quantum(bs[..5]) + Quantum(bs[5..])
  {
    var rest := bs[5..];
    assert |rest| == 3;
    assert Encode(rest) == Quantum(rest);
  }
}
