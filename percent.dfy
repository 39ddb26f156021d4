/**
 * Percent-encoding of section 2.1 of RFC 3986 as `urllib.parse.quote(s)`
 * writes it with its default safe set "/": the text is UTF-8 encoded, the
 * bytes of ASCII letters, digits, "_", ".", "-", "~" and "/" are kept, and
 * every other byte becomes "%" followed by two upper-case hexadecimal digits.
 */
module Percent {
  import opened Wrappers
  import opened Text

  /** The bytes `quote` leaves alone: the unreserved characters and "/". */
  predicate IsSafe(b: int)
  {
    ('A' as int <= b <= 'Z' as int) || ('a' as int <= b <= 'z' as int) ||
    ('0' as int <= b <= '9' as int) ||
    b == '_' as int || b == '.' as int || b == '-' as int || b == '~' as int || b == '/' as int
  }

  predicate IsHexDigit(c: char)
  {
    '0' <= c <= '9' || 'A' <= c <= 'F'
  }

  function HexValue(c: char): (d: int)
    requires IsHexDigit(c)
    ensures 0 <= d < 16
  {
    if c <= '9' then c as int - '0' as int else c as int - 'A' as int + 10
  }

  function HexDigit(d: int): (c: char)
    requires 0 <= d < 16
    ensures IsHexDigit(c) && HexValue(c) == d
  {
    if d < 10 then ('0' as int + d) as char else ('A' as int + d - 10) as char
  }

  /** A character `quote` may write: a kept byte, "%" or a hexadecimal digit. */
  predicate IsQuotedChar(c: char)
  {
    IsSafe(c as int) || c == '%' || IsHexDigit(c)
  }

  /** "%XX" for a byte, the high hexadecimal digit first. */
  function Escape(b: byte): (s: string)
    ensures |s| == 3 && s[0] == '%' && IsHexDigit(s[1]) && IsHexDigit(s[2])
    ensures HexValue(s[1]) * 16 + HexValue(s[2]) == b
  {
    ['%', HexDigit(b / 16), HexDigit(b % 16)]
  }

  function QuoteByte(b: byte): string
  {
    if IsSafe(b) then [b as char] else Escape(b)
  }

  /** `urllib.parse.quote_from_bytes(bs, safe='/')`. */
  function QuoteBytes(bs: seq<byte>): (s: string)
    ensures IsAscii(s) && forall i :: 0 <= i < |s| ==> IsQuotedChar(s[i])
    ensures |s| >= |bs|
  {
    if bs == [] then []
    else
      var head, tail := QuoteByte(bs[0]), QuoteBytes(bs[1..]);
      assert forall i :: 0 <= i < |head| ==> IsAsciiChar(head[i]) && IsQuotedChar(head[i]);
      assert forall i :: |head| <= i < |head + tail| ==> (head + tail)[i] == tail[i - |head|];
      head + tail
  }

  /** `urllib.parse.quote(s, safe='/')`. */
  function Quote(s: string): string
  {
    QuoteBytes(Utf8Encode(s))
  }

  /**
   * Reading percent-encoded text back to bytes, accepting exactly what
   * `quote` can write: kept bytes as themselves and "%" with two digits.
   */
  function UnquoteBytes(s: string): Option<seq<byte>>
    decreases |s|
  {
    if s == [] then Some([])
    else if s[0] == '%' then
      if |s| < 3 || !IsHexDigit(s[1]) || !IsHexDigit(s[2]) then None
      else
        match UnquoteBytes(s[3..])
        case None => None
        case Some(rest) => Some([HexValue(s[1]) * 16 + HexValue(s[2])] + rest)
    else if IsSafe(s[0] as int) then
      match UnquoteBytes(s[1..])
      case None => None
      case Some(rest) => Some([s[0] as int] + rest)
    else None
  }

  /** Percent-decoding inverts `quote_from_bytes`, so distinct byte strings are quoted differently. */
  lemma {:induction false} UnquoteQuote(bs: seq<byte>)
    ensures UnquoteBytes(QuoteBytes(bs)) == Some(bs)
  {
    if bs != [] {
      var head, tail := QuoteByte(bs[0]), QuoteBytes(bs[1..]);
      UnquoteQuote(bs[1..]);
      var s := head + tail;
      if IsSafe(bs[0]) {
        assert s[0] == bs[0] as char && s[1..] == tail;
      } else {
        assert s[..3] == head && s[3..] == tail;
      }
      assert bs == [bs[0]] + bs[1..];
    }
  }

  lemma QuoteInjective(s: string, t: string)
    requires Quote(s) == Quote(t)
    ensures Utf8Encode(s) == Utf8Encode(t)
  {
    UnquoteQuote(Utf8Encode(s));
    UnquoteQuote(Utf8Encode(t));
  }

  lemma QuoteAppend(a: seq<byte>, b: seq<byte>)
    ensures QuoteBytes(a + b) == QuoteBytes(a) + QuoteBytes(b)
    decreases |a|
  {
    if a == [] {
      assert a + b == b;
    } else {
      assert (a + b)[0] == a[0] && (a + b)[1..] == a[1..] + b;
      QuoteAppend(a[1..], b);
    }
  }

  /** A text made only of kept characters is returned unchanged. */
  lemma {:induction false} QuoteSafeText(s: string)
    requires forall i :: 0 <= i < |s| ==> IsSafe(s[i] as int)
    ensures Quote(s) == s
  {
    if s != [] {
      QuoteSafeText(s[1..]);
      assert IsAsciiChar(s[0]);
      assert Utf8Encode(s) == [s[0] as int] + Utf8Encode(s[1..]);
    }
  }

  /** The ";" in front of the plugin options is always written as "%3B". */
  lemma QuoteSemicolon(x: string)
    ensures Quote(";" + x) == "%3B" + Quote(x)
    ensures StartsWith(Quote(";" + x), "%3B")
  {
    Utf8EncodeAppend(";", x);
    assert Utf8Encode(";") == [59];
    QuoteAppend([59], Utf8Encode(x));
    assert QuoteBytes([59]) == "%3B";
  }
}
