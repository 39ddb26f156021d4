/**
 * Base 64 encoding of section 4 of RFC 4648 as `base64.b64encode` writes it,
 * and decoding as `base64.urlsafe_b64decode` reads a str: the text must be
 * ASCII, '-' and '_' stand for '+' and '/' (section 5 of RFC 4648), and the
 * lenient decoder of the binascii module skips characters outside the
 * alphabet, stops at a padding sequence that completes a quantum, and
 * rejects a text that ends inside a quantum.
 */
module Base64 {
  import opened Wrappers
  import opened Radix
  import opened Text

  type sextet = x: int | 0 <= x < 64

  /** The character of a 6-bit value in the alphabet of table 1 of RFC 4648. */
  function SymbolFor(d: int): (c: char)
    requires 0 <= d < 64
    ensures IsAsciiChar(c) && c != '='
  {
    if d < 26 then ('A' as int + d) as char
    else if d < 52 then ('a' as int + d - 26) as char
    else if d < 62 then ('0' as int + d - 52) as char
    else if d == 62 then '+' else '/'
  }

  /** The 6-bit value the decoder gives a character, after the URL-safe translation. */
  function ValueOf(c: char): (r: Option<int>)
    ensures r.Some? ==> 0 <= r.value < 64
  {
    if 'A' <= c <= 'Z' then Some(c as int - 'A' as int)
    else if 'a' <= c <= 'z' then Some(c as int - 'a' as int + 26)
    else if '0' <= c <= '9' then Some(c as int - '0' as int + 52)
    else if c == '+' || c == '-' then Some(62)
    else if c == '/' || c == '_' then Some(63)
    else None
  }

  lemma SymbolValue(d: int)
    requires 0 <= d < 64
    ensures ValueOf(SymbolFor(d)) == Some(d)
  {
  }

  /**
   * The 6-bit groups of a byte string: four per 3-byte quantum, and for a
   * final quantum of 1 or 2 bytes its bits followed by zero bits up to 2 or 3 groups.
   */
  function Sextets(bs: seq<byte>): seq<sextet>
    decreases |bs|
  {
    if |bs| == 0 then []
    else if |bs| == 1 then [bs[0] / 4, (bs[0] % 4) * 16]
    else if |bs| == 2 then [bs[0] / 4, (bs[0] % 4) * 16 + bs[1] / 16, (bs[1] % 16) * 4]
    else Group(bs[0], bs[1], bs[2]) + Sextets(bs[3..])
  }

  /** The four groups of a full 3-byte quantum. */
  function Group(b0: byte, b1: byte, b2: byte): seq<sextet>
  {
    [b0 / 4, (b0 % 4) * 16 + b1 / 16, (b1 % 16) * 4 + b2 / 64, b2 % 64]
  }

  /** Four groups per full quantum, 2 or 3 for a partial one: ceil(4n/3) in all. */
  lemma {:induction false} SextetsLength(bs: seq<byte>)
    ensures |Sextets(bs)| == (4 * |bs| + 2) / 3
    decreases |bs|
  {
    if |bs| >= 3 {
      SextetsLength(bs[3..]);
      var n := |bs| - 3;
      DivModUnique(4 * n + 2 + 12, 3, (4 * n + 2) / 3 + 4, (4 * n + 2) % 3);
    }
  }

  function Symbols(ds: seq<sextet>): (s: string)
    ensures |s| == |ds| && IsAscii(s) && '=' !in s
    ensures forall i :: 0 <= i < |ds| ==> s[i] == SymbolFor(ds[i])
  {
    seq(|ds|, i requires 0 <= i < |ds| => SymbolFor(ds[i]))
  }

  /** The number of "=" that complete the last quantum of n bytes. */
  function PadLength(n: nat): nat
  {
    (3 - n % 3) % 3
  }

  /** `base64.b64encode(bs)` as text. */
  function Encode(bs: seq<byte>): string
  {
    Symbols(Sextets(bs)) + seq(PadLength(|bs|), _ => '=')
  }

  /** `b64encode(bs).decode('ascii').rstrip('=')`. */
  function Unpadded(bs: seq<byte>): string
  {
    RStrip(Encode(bs), '=')
  }

  /** The encoded text is ASCII, a whole number of 4-character quanta. */
  lemma EncodeShape(bs: seq<byte>)
    ensures IsAscii(Encode(bs))
    ensures |Encode(bs)| == 4 * ((|bs| + 2) / 3)
  {
    SextetsLength(bs);
    var n := |bs|;
    assert (4 * n + 2) / 3 + PadLength(n) == 4 * ((n + 2) / 3) by {
      var q, r := n / 3, n % 3;
      assert n == 3 * q + r;
      if r == 0 {
        DivModUnique(4 * n + 2, 3, 4 * q, 2);
        DivModUnique(n + 2, 3, q, 2);
      } else if r == 1 {
        DivModUnique(4 * n + 2, 3, 4 * q + 2, 0);
        DivModUnique(n + 2, 3, q + 1, 0);
      } else {
        DivModUnique(4 * n + 2, 3, 4 * q + 3, 1);
        DivModUnique(n + 2, 3, q + 1, 1);
      }
    }
  }

  /** Stripping the padding leaves the data characters: no "=", ceil(4n/3) of them. */
  lemma UnpaddedShape(bs: seq<byte>)
    ensures Unpadded(bs) == Symbols(Sextets(bs))
    ensures '=' !in Unpadded(bs)
    ensures |Unpadded(bs)| == (4 * |bs| + 2) / 3
  {
    SextetsLength(bs);
    var x := Symbols(Sextets(bs));
    if x == [] {
      assert |bs| == 0;
      assert Encode(bs) == [];
    } else {
      RStripAppended(x, '=', PadLength(|bs|));
    }
  }

  // ------------------------------------------------------------- URL-safe

  /** The URL-safe alphabet of section 5 of RFC 4648: letters, digits, "-" and "_". */
  predicate IsUrlsafeSymbol(c: char)
  {
    'A' <= c <= 'Z' || 'a' <= c <= 'z' || '0' <= c <= '9' || c == '-' || c == '_'
  }

  /** The URL-safe character for a character of the standard alphabet. */
  function UrlsafeChar(c: char): char
  {
    if c == '+' then '-' else if c == '/' then '_' else c
  }

  function ToUrlsafe(s: string): (r: string)
    ensures |r| == |s| && forall i :: 0 <= i < |s| ==> r[i] == UrlsafeChar(s[i])
  {
    seq(|s|, i requires 0 <= i < |s| => UrlsafeChar(s[i]))
  }

  /** `base64.urlsafe_b64encode(bs)` as text, with the "=" stripped. */
  function UrlsafeUnpadded(bs: seq<byte>): string
  {
    ToUrlsafe(Unpadded(bs))
  }

  /** The URL-safe text holds only letters, digits, "-" and "_", and has ceil(4n/3) of them. */
  lemma UrlsafeUnpaddedShape(bs: seq<byte>)
    ensures forall i :: 0 <= i < |UrlsafeUnpadded(bs)| ==> IsUrlsafeSymbol(UrlsafeUnpadded(bs)[i])
    ensures |UrlsafeUnpadded(bs)| == (4 * |bs| + 2) / 3
  {
    UnpaddedShape(bs);
    var ds := Sextets(bs);
    forall i | 0 <= i < |ds|
      ensures IsUrlsafeSymbol(UrlsafeChar(SymbolFor(ds[i])))
    {
    }
  }

  /** The decoder gives a URL-safe character the value of the character it replaces. */
  lemma {:induction false} A2bUrlsafe(s: string, q: Quad, out: seq<byte>)
    requires QuadOk(q)
    ensures A2b(ToUrlsafe(s), q, out) == A2b(s, q, out)
    decreases |s|
  {
    if s != [] {
      var t := ToUrlsafe(s);
      assert t[0] == UrlsafeChar(s[0]) && t[1..] == ToUrlsafe(s[1..]);
      assert ValueOf(t[0]) == ValueOf(s[0]);
      if s[0] != '=' {
        match ValueOf(s[0])
        case None =>
          A2bUrlsafe(s[1..], q, out);
        case Some(v) =>
          var (q', b) := Absorb(q, v);
          A2bUrlsafe(s[1..], q', out + b);
      } else {
        A2bUrlsafe(s[1..], if q.pos >= 2 then q.(pads := q.pads + 1) else q, out);
      }
    }
  }

  /** The URL-safe encoding with "==" appended decodes back to the bytes. */
  lemma DecodeUrlsafeUnpaddedPlusTwo(bs: seq<byte>)
    ensures UrlsafeDecode(UrlsafeUnpadded(bs) + "==") == Ok(bs)
  {
    var u := Unpadded(bs);
    DecodeUnpaddedPlusTwo(bs);
    assert ToUrlsafe(u) + "==" == ToUrlsafe(u + "==");
    assert IsAscii(u + "==");
    assert IsAscii(ToUrlsafe(u + "=="));
    A2bUrlsafe(u + "==", Quad(0, 0, 0), []);
  }

  // ------------------------------------------------------------- decoding

  datatype DecodeError =
    | NonAscii          // the str holds a character outside ASCII
    | ExcessDataChar    // the data characters are 1 more than a multiple of 4
    | IncorrectPadding  // the text ends 2 or 3 data characters into a quantum

  /** The decoder's position in a quantum, the bits carried over, and the "=" seen since the last data character. */
  datatype Quad = Quad(pos: int, left: int, pads: nat)

  predicate QuadOk(q: Quad)
  {
    (q.pos == 0 && q.left == 0) ||
    (q.pos == 1 && 0 <= q.left < 64) ||
    (q.pos == 2 && 0 <= q.left < 16) ||
    (q.pos == 3 && 0 <= q.left < 4)
  }

  /** The state after one data character and the byte it completes, if any. */
  function Absorb(q: Quad, v: int): (r: (Quad, seq<byte>))
    requires QuadOk(q) && 0 <= v < 64
    ensures QuadOk(r.0) && r.0.pads == 0
  {
    if q.pos == 0 then (Quad(1, v, 0), [])
    else if q.pos == 1 then (Quad(2, v % 16, 0), [q.left * 4 + v / 16])
    else if q.pos == 2 then (Quad(3, v % 4, 0), [q.left * 16 + v / 4])
    else (Quad(0, 0, 0), [q.left * 64 + v])
  }

  /** `binascii.a2b_base64(s, strict_mode=False)` from state q with output so far out. */
  function A2b(s: string, q: Quad, out: seq<byte>): Result<seq<byte>, DecodeError>
    requires QuadOk(q)
    decreases |s|
  {
    if s == [] then
      if q.pos == 0 then Ok(out)
      else if q.pos == 1 then Err(ExcessDataChar)
      else Err(IncorrectPadding)
    else if s[0] == '=' then
      if q.pos >= 2 && q.pos + q.pads + 1 >= 4 then Ok(out)
      else A2b(s[1..], if q.pos >= 2 then q.(pads := q.pads + 1) else q, out)
    else
      match ValueOf(s[0])
      case None => A2b(s[1..], q, out)
      case Some(v) =>
        var (q', b) := Absorb(q, v);
        A2b(s[1..], q', out + b)
  }

  /** `base64.urlsafe_b64decode(s)` for a str s. */
  function UrlsafeDecode(s: string): Result<seq<byte>, DecodeError>
  {
    if !IsAscii(s) then Err(NonAscii) else A2b(s, Quad(0, 0, 0), [])
  }

  /** The decoder on a data character: absorb it and go on with the rest. */
  lemma DataChar(s: string, q: Quad, out: seq<byte>, d: int)
    requires QuadOk(q) && 0 <= d < 64 && s != [] && s[0] == SymbolFor(d)
    ensures A2b(s, q, out) == A2b(s[1..], Absorb(q, d).0, out + Absorb(q, d).1)
  {
    SymbolValue(d);
  }

  lemma SplitByte(b: byte, k: int)
    requires k == 4 || k == 16 || k == 64
    ensures 0 <= b / k < 256 / k && 0 <= b % k < k && b == (b / k) * k + b % k
  {
  }

  /** Reading back the two groups that carry a byte's top bits. */
  lemma FirstByteBack(b0: int, b1: int)
    requires 0 <= b0 < 256 && 0 <= b1 < 256
    ensures ((b0 % 4) * 16 + b1 / 16) / 16 == b0 % 4
    ensures ((b0 % 4) * 16 + b1 / 16) % 16 == b1 / 16
    ensures (b0 / 4) * 4 + b0 % 4 == b0
  {
    DivModUnique((b0 % 4) * 16 + b1 / 16, 16, b0 % 4, b1 / 16);
  }

  lemma SecondByteBack(b1: int, b2: int)
    requires 0 <= b1 < 256 && 0 <= b2 < 256
    ensures ((b1 % 16) * 4 + b2 / 64) / 4 == b1 % 16
    ensures ((b1 % 16) * 4 + b2 / 64) % 4 == b2 / 64
    ensures (b1 / 16) * 16 + b1 % 16 == b1
  {
    DivModUnique((b1 % 16) * 4 + b2 / 64, 4, b1 % 16, b2 / 64);
  }

  /** The decoder's state and output after absorbing the data characters of ds. */
  function Run(ds: seq<sextet>, q: Quad, out: seq<byte>): (r: (Quad, seq<byte>))
    requires QuadOk(q)
    ensures QuadOk(r.0)
    decreases |ds|
  {
    if ds == [] then (q, out)
    else
      var (q', b) := Absorb(q, ds[0]);
      Run(ds[1..], q', out + b)
  }

  /** The decoder reads the data characters of ds and goes on with the text after them. */
  lemma {:induction false} DataPrefix(ds: seq<sextet>, t: string, q: Quad, out: seq<byte>)
    requires QuadOk(q)
    ensures A2b(Symbols(ds) + t, q, out) == A2b(t, Run(ds, q, out).0, Run(ds, q, out).1)
    decreases |ds|
  {
    if ds == [] {
      assert Symbols(ds) + t == t;
    } else {
      var s := Symbols(ds) + t;
      DataChar(s, q, out, ds[0]);
      assert s[1..] == Symbols(ds[1..]) + t;
      var (q', b) := Absorb(q, ds[0]);
      DataPrefix(ds[1..], t, q', out + b);
    }
  }

  /** A full quantum's four groups give back its three bytes and return to the start of a quantum. */
  lemma RunGroup(b0: byte, b1: byte, b2: byte, p: nat, out: seq<byte>)
    ensures Run(Group(b0, b1, b2), Quad(0, 0, p), out) == (Quad(0, 0, 0), out + [b0, b1, b2])
  {
    var ds := Group(b0, b1, b2);
    var d0, d1, d2, d3: int := ds[0], ds[1], ds[2], ds[3];
    FirstByteBack(b0, b1);
    SecondByteBack(b1, b2);
    SplitByte(b2, 64);
    assert Run(ds, Quad(0, 0, p), out) == Run(ds[1..], Quad(1, d0, 0), out + []);
    assert out + [] == out;
    assert d0 * 4 + d1 / 16 == b0;
    assert Run(ds[1..], Quad(1, d0, 0), out) == Run(ds[2..], Quad(2, d1 % 16, 0), out + [b0]);
    assert d1 % 16 * 16 + d2 / 4 == b1;
    assert Run(ds[2..], Quad(2, d1 % 16, 0), out + [b0]) == Run(ds[3..], Quad(3, d2 % 4, 0), out + [b0] + [b1]);
    assert d2 % 4 * 64 + d3 == b2;
    assert Run(ds[3..], Quad(3, d2 % 4, 0), out + [b0] + [b1]) == Run([], Quad(0, 0, 0), out + [b0] + [b1] + [b2]);
    assert out + [b0] + [b1] + [b2] == out + [b0, b1, b2];
  }

  /** A full quantum's four characters give back its three bytes and return to the start of a quantum. */
  lemma FullQuantumBack(b0: byte, b1: byte, b2: byte, rest: string, p: nat, out: seq<byte>)
    ensures A2b(Symbols(Group(b0, b1, b2)) + rest, Quad(0, 0, p), out) == A2b(rest, Quad(0, 0, 0), out + [b0, b1, b2])
  {
    DataPrefix(Group(b0, b1, b2), rest, Quad(0, 0, p), out);
    RunGroup(b0, b1, b2, p, out);
  }

  /** The padding a decoder may meet after the data characters: the correct one, or "==". */
  predicate AcceptedTail(n: nat, t: string)
  {
    t == seq(PadLength(n), _ => '=') || t == "=="
  }

  lemma DecodeNoData(t: string, out: seq<byte>)
    requires AcceptedTail(0, t)
    ensures A2b(t, Quad(0, 0, 0), out) == Ok(out)
  {
    if t == "==" {
      assert t[0] == '=' && t[1..][0] == '=' && t[1..][1..] == [];
      assert A2b(t[1..], Quad(0, 0, 0), out) == A2b(t[1..][1..], Quad(0, 0, 0), out);
    } else {
      assert t == [];
    }
  }

  /** The two groups of a final byte give it back, two characters into a quantum. */
  lemma RunOne(b0: byte, out: seq<byte>)
    ensures Run(Sextets([b0]), Quad(0, 0, 0), out) == (Quad(2, 0, 0), out + [b0])
  {
    var ds := Sextets([b0]);
    var d0, d1: int := ds[0], ds[1];
    SplitByte(b0, 4);
    assert Run(ds, Quad(0, 0, 0), out) == Run(ds[1..], Quad(1, d0, 0), out + []);
    assert out + [] == out;
    assert d0 * 4 + d1 / 16 == b0 && d1 % 16 == 0;
    assert Run(ds[1..], Quad(1, d0, 0), out) == Run([], Quad(2, 0, 0), out + [b0]);
  }

  /** The three groups of two final bytes give them back, three characters into a quantum. */
  lemma RunTwo(b0: byte, b1: byte, out: seq<byte>)
    ensures Run(Sextets([b0, b1]), Quad(0, 0, 0), out) == (Quad(3, 0, 0), out + [b0, b1])
  {
    var ds := Sextets([b0, b1]);
    var d0, d1, d2: int := ds[0], ds[1], ds[2];
    FirstByteBack(b0, b1);
    SecondByteBack(b1, 0);
    SplitByte(b1, 16);
    assert Run(ds, Quad(0, 0, 0), out) == Run(ds[1..], Quad(1, d0, 0), out + []);
    assert out + [] == out;
    assert d0 * 4 + d1 / 16 == b0;
    assert Run(ds[1..], Quad(1, d0, 0), out) == Run(ds[2..], Quad(2, d1 % 16, 0), out + [b0]);
    assert d1 % 16 * 16 + d2 / 4 == b1 && d2 % 4 == 0;
    assert Run(ds[2..], Quad(2, d1 % 16, 0), out + [b0]) == Run([], Quad(3, 0, 0), out + [b0] + [b1]);
    assert out + [b0] + [b1] == out + [b0, b1];
  }

  /** A final quantum of one byte: two data characters, then "=" stops the decoder at the second one. */
  lemma DecodeOneByte(bs: seq<byte>, t: string, out: seq<byte>)
    requires |bs| == 1 && AcceptedTail(1, t)
    ensures A2b(Symbols(Sextets(bs)) + t, Quad(0, 0, 0), out) == Ok(out + bs)
  {
    assert bs == [bs[0]];
    assert t == "==";
    DataPrefix(Sextets(bs), t, Quad(0, 0, 0), out);
    RunOne(bs[0], out);
    assert t[0] == '=' && t[1..] == "=";
    assert A2b(t, Quad(2, 0, 0), out + bs) == A2b(t[1..], Quad(2, 0, 1), out + bs);
  }

  /** A final quantum of two bytes: three data characters, then the first "=" stops the decoder. */
  lemma DecodeTwoBytes(bs: seq<byte>, t: string, out: seq<byte>)
    requires |bs| == 2 && AcceptedTail(2, t)
    ensures A2b(Symbols(Sextets(bs)) + t, Quad(0, 0, 0), out) == Ok(out + bs)
  {
    assert bs == [bs[0], bs[1]];
    DataPrefix(Sextets(bs), t, Quad(0, 0, 0), out);
    RunTwo(bs[0], bs[1], out);
    assert t != [] && t[0] == '=';
  }

  /** The first full quantum of a longer text decodes to its three bytes. */
  lemma LeadingQuantum(bs: seq<byte>, t: string, out: seq<byte>)
    requires |bs| >= 3
    ensures A2b(Symbols(Sextets(bs)) + t, Quad(0, 0, 0), out) ==
      A2b(Symbols(Sextets(bs[3..])) + t, Quad(0, 0, 0), out + bs[..3])
  {
    var a, b := Group(bs[0], bs[1], bs[2]), Sextets(bs[3..]);
    assert Symbols(a + b) + t == Symbols(a) + (Symbols(b) + t);
    FullQuantumBack(bs[0], bs[1], bs[2], Symbols(b) + t, 0, out);
    assert bs[..3] == [bs[0], bs[1], bs[2]];
  }

  lemma TailAfterQuantum(n: nat, t: string)
    requires n >= 3 && AcceptedTail(n, t)
    ensures AcceptedTail(n - 3, t)
  {
    assert PadLength(n) == PadLength(n - 3);
  }

  /** The data characters of bs followed by an accepted tail decode to bs after the output so far. */
  lemma {:induction false} DecodeData(bs: seq<byte>, t: string, out: seq<byte>)
    requires AcceptedTail(|bs|, t)
    ensures A2b(Symbols(Sextets(bs)) + t, Quad(0, 0, 0), out) == Ok(out + bs)
    decreases |bs|
  {
    if |bs| >= 3 {
      var g, tail := bs[..3], bs[3..];
      TailAfterQuantum(|bs|, t);
      LeadingQuantum(bs, t, out);
      DecodeData(tail, t, out + g);
      assert out + g + tail == out + bs;
    } else if |bs| == 0 {
      assert Symbols(Sextets(bs)) + t == t;
      assert out + bs == out;
      DecodeNoData(t, out);
    } else if |bs| == 1 {
      DecodeOneByte(bs, t, out);
    } else {
      DecodeTwoBytes(bs, t, out);
    }
  }

  /** `urlsafe_b64decode` inverts `b64encode`. */
  lemma DecodeEncoded(bs: seq<byte>)
    ensures UrlsafeDecode(Encode(bs)) == Ok(bs)
  {
    EncodeShape(bs);
    DecodeData(bs, seq(PadLength(|bs|), _ => '='), []);
    assert [] + bs == bs;
  }

  /**
   * Appending "==" to the unpadded encoding decodes to the same bytes as
   * the correctly padded text: the surplus "=" is never reached.
   */
  lemma DecodeUnpaddedPlusTwo(bs: seq<byte>)
    ensures UrlsafeDecode(Unpadded(bs) + "==") == UrlsafeDecode(Encode(bs)) == Ok(bs)
  {
    UnpaddedShape(bs);
    DecodeEncoded(bs);
    DecodeData(bs, "==", []);
    assert [] + bs == bs;
    assert IsAscii(Unpadded(bs) + "==");
  }
}
