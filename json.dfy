/**
 * The part of `json.dumps` the iOS link uses: a flat object of strings and
 * `true` written with the default separators ", " and ": " and the default
 * `ensure_ascii=True`, so that every string is pure ASCII. A string literal
 * escapes '"' and '\' and the control characters with short forms where
 * JSON has one (section 7 of RFC 8259), writes the other characters below
 * U+0020, U+007F and everything beyond ASCII as "\u" and four lower-case
 * hexadecimal digits, and a character beyond U+FFFF as a surrogate pair.
 */
module Json {
  import opened Wrappers
  import opened Text

  // ------------------------------------------------------------ writing

  function HexLower(d: int): (c: char)
    requires 0 <= d < 16
    ensures IsAsciiChar(c) && IsHexChar(c) && HexCharValue(c) == d
  {
    if d < 10 then ('0' as int + d) as char else ('a' as int + d - 10) as char
  }

  /** `'{0:04x}'.format(n)`. */
  function Hex4(n: int): (s: string)
    requires 0 <= n < 0x10000
    ensures |s| == 4 && IsAscii(s)
  {
    [HexLower(n / 4096), HexLower(n % 4096 / 256), HexLower(n % 256 / 16), HexLower(n % 16)]
  }

  /** "\\u" and four digits: the escape of one UTF-16 code unit. */
  function UnitEscape(n: int): (s: string)
    requires 0 <= n < 0x10000
    ensures |s| == 6 && IsAscii(s) && s[0] == '\\'
  {
    "\\u" + Hex4(n)
  }

  /** The escape `json` writes for one character of a string. */
  function EscapeChar(c: char): (s: string)
    ensures IsAscii(s) && 1 <= |s| && s[0] != '"'
  {
    var cp := c as int;
    if c == '"' then "\\\""
    else if c == '\\' then "\\\\"
    else if c == '\n' then "\\n"
    else if c == '\r' then "\\r"
    else if c == '\t' then "\\t"
    else if cp == 8 then "\\b"
    else if cp == 12 then "\\f"
    else if ' ' <= c <= '~' then [c]
    else if cp < 0x10000 then UnitEscape(cp)
    else UnitEscape(HighSurrogate(cp)) + UnitEscape(LowSurrogate(cp))
  }

  /** The UTF-16 high surrogate of a code point beyond U+FFFF: its top 10 bits above 0x10000. */
  function HighSurrogate(cp: int): (u: int)
    requires 0x10000 <= cp < 0x110000
    ensures 0xD800 <= u < 0xDC00
  {
    0xD800 + (cp - 0x10000) / 1024
  }

  /** The low surrogate: the bottom 10 bits. */
  function LowSurrogate(cp: int): (u: int)
    requires 0x10000 <= cp < 0x110000
    ensures 0xDC00 <= u < 0xE000
  {
    0xDC00 + (cp - 0x10000) % 1024
  }

  function EscapeBody(s: string): (r: string)
    ensures IsAscii(r)
  {
    if s == [] then []
    else
      var head, tail := EscapeChar(s[0]), EscapeBody(s[1..]);
      assert forall i :: |head| <= i < |head + tail| ==> (head + tail)[i] == tail[i - |head|];
      head + tail
  }

  /** A string literal with `ensure_ascii`. */
  function Quoted(s: string): (r: string)
    ensures IsAscii(r)
  {
    "\"" + EscapeBody(s) + "\""
  }

  /** The text before the path, between path and host, and after the host. */
  const OptionsOpen: string := "{\"path\": "
  const HostSeparator: string := ", \"host\": "
  const OptionsTail: string :=
    ", \"mux\": true" + ", \"tfo\": true" + ", \"mode\": \"websocket\"" + ", \"tls\": true}"

  /** `json.dumps({'path': path, 'host': host, 'mux': True, 'tfo': True, 'mode': 'websocket', 'tls': True})`. */
  function Dumps(path: string, host: string): string
  {
    OptionsOpen + (Quoted(path) + (HostSeparator + (Quoted(host) + OptionsTail)))
  }

  /** The options text is ASCII, so encoding it as ASCII cannot fail. */
  lemma DumpsAscii(path: string, host: string)
    ensures IsAscii(Dumps(path, host))
  {
    assert IsAscii(OptionsOpen) && IsAscii(HostSeparator);
    assert IsAscii(OptionsTail) by {
      var mux, tfo, mode, tls := ", \"mux\": true", ", \"tfo\": true", ", \"mode\": \"websocket\"", ", \"tls\": true}";
      assert IsAscii(mux) && IsAscii(tfo) && IsAscii(mode) && IsAscii(tls);
      AsciiAppend(mux, tfo);
      AsciiAppend(mux + tfo, mode);
      AsciiAppend(mux + tfo + mode, tls);
    }
    AsciiAppend(Quoted(host), OptionsTail);
    AsciiAppend(HostSeparator, Quoted(host) + OptionsTail);
    AsciiAppend(Quoted(path), HostSeparator + (Quoted(host) + OptionsTail));
    AsciiAppend(OptionsOpen, Quoted(path) + (HostSeparator + (Quoted(host) + OptionsTail)));
  }

  // ------------------------------------------------------------ reading

  predicate IsHexChar(c: char)
  {
    '0' <= c <= '9' || 'a' <= c <= 'f' || 'A' <= c <= 'F'
  }

  function HexCharValue(c: char): (v: int)
    requires IsHexChar(c)
    ensures 0 <= v < 16
  {
    if c <= '9' then c as int - '0' as int
    else if c <= 'F' then c as int - 'A' as int + 10
    else c as int - 'a' as int + 10
  }

  /** The 16-bit value of four hexadecimal digits at the start of s. */
  function ReadHex4(s: string): (r: Option<int>)
    ensures r.Some? ==> |s| >= 4 && 0 <= r.value < 0x10000
  {
    if |s| < 4 || !IsHexChar(s[0]) || !IsHexChar(s[1]) || !IsHexChar(s[2]) || !IsHexChar(s[3]) then None
    else Some(HexCharValue(s[0]) * 4096 + HexCharValue(s[1]) * 256 + HexCharValue(s[2]) * 16 + HexCharValue(s[3]))
  }

  /**
   * The character of a "\u" escape whose digits start s, and the text after
   * it; a high surrogate must be followed by a "\u" escape of a low one.
   * A lone surrogate, which is not a character, is refused.
   */
  function ReadUnit(s: string): (r: Option<(char, string)>)
    ensures r.Some? ==> |r.value.1| < |s|
  {
    match ReadHex4(s)
    case None => None
    case Some(u) =>
      if 0xD800 <= u < 0xDC00 then
        if |s| < 6 || s[4] != '\\' || s[5] != 'u' then None
        else
          match ReadHex4(s[6..])
          case None => None
          case Some(l) =>
            if 0xDC00 <= l < 0xE000 then Some(((0x10000 + (u - 0xD800) * 1024 + (l - 0xDC00)) as char, s[10..]))
            else None
      else if 0xDC00 <= u < 0xE000 then None
      else Some((u as char, s[4..]))
  }

  /** One character of a string literal's body: an escape sequence or a plain character. */
  function ReadChar(s: string): (r: Option<(char, string)>)
    requires s != []
    ensures r.Some? ==> |r.value.1| < |s|
  {
    if s[0] == '\\' then
      if |s| < 2 then None
      else if s[1] == '"' then Some(('"', s[2..]))
      else if s[1] == '\\' then Some(('\\', s[2..]))
      else if s[1] == '/' then Some(('/', s[2..]))
      else if s[1] == 'b' then Some((8 as char, s[2..]))
      else if s[1] == 'f' then Some((12 as char, s[2..]))
      else if s[1] == 'n' then Some(('\n', s[2..]))
      else if s[1] == 'r' then Some(('\r', s[2..]))
      else if s[1] == 't' then Some(('\t', s[2..]))
      else if s[1] == 'u' then ReadUnit(s[2..])
      else None
    else if s[0] < ' ' || s[0] == '"' then None
    else Some((s[0], s[1..]))
  }

  /** The body of a string literal up to its closing '"', and the text after it. */
  function ReadBody(s: string): Option<(string, string)>
    decreases |s|
  {
    if s == [] then None
    else if s[0] == '"' then Some(([], s[1..]))
    else
      match ReadChar(s)
      case None => None
      case Some((c, t)) =>
        match ReadBody(t)
        case None => None
        case Some((v, rest)) => Some(([c] + v, rest))
  }

  /** A string literal at the start of s: its value and the text after it. */
  function ReadString(s: string): Option<(string, string)>
  {
    if s == [] || s[0] != '"' then None else ReadBody(s[1..])
  }

  /** The path and host of a text laid out as `Dumps` writes it. */
  function ReadOptions(s: string): Option<(string, string)>
  {
    if !StartsWith(s, OptionsOpen) then None
    else
      match ReadString(s[|OptionsOpen|..])
      case None => None
      case Some((path, r1)) =>
        if !StartsWith(r1, HostSeparator) then None
        else
          match ReadString(r1[|HostSeparator|..])
          case None => None
          case Some((host, r2)) => if r2 == OptionsTail then Some((path, host)) else None
  }

  // ------------------------------------------------------------ round trip

  lemma Hex4Back(n: int, t: string)
    requires 0 <= n < 0x10000
    ensures ReadHex4(Hex4(n) + t) == Some(n)
  {
    var a, b, c, d := n / 4096, n % 4096 / 256, n % 256 / 16, n % 16;
    HexDigitsOf(n);
    ReadHexDigits(a, b, c, d, t);
  }

  /** The four hexadecimal digits of a 16-bit value, most significant first. */
  lemma HexDigitsOf(n: int)
    requires 0 <= n < 0x10000
    ensures n == (n / 4096) * 4096 + (n % 4096 / 256) * 256 + (n % 256 / 16) * 16 + n % 16
  {
    var m := n % 4096;
    assert n == n / 4096 * 4096 + m;
    assert m == m / 256 * 256 + m % 256;
    assert m % 256 == n % 256;
    assert n % 256 == n % 256 / 16 * 16 + n % 16;
  }

  lemma ReadHexDigits(a: int, b: int, c: int, d: int, t: string)
    requires 0 <= a < 16 && 0 <= b < 16 && 0 <= c < 16 && 0 <= d < 16
    ensures ReadHex4([HexLower(a), HexLower(b), HexLower(c), HexLower(d)] + t) == Some(a * 4096 + b * 256 + c * 16 + d)
  {
    var s := [HexLower(a), HexLower(b), HexLower(c), HexLower(d)] + t;
    assert s[0] == HexLower(a) && s[1] == HexLower(b) && s[2] == HexLower(c) && s[3] == HexLower(d);
  }

  /** A high and a low surrogate escape read back as the character they encode together. */
  lemma PairBack(hi: int, lo: int, t: string)
    requires 0xD800 <= hi < 0xDC00 && 0xDC00 <= lo < 0xE000
    ensures ReadChar(UnitEscape(hi) + UnitEscape(lo) + t) ==
      Some(((0x10000 + (hi - 0xD800) * 1024 + (lo - 0xDC00)) as char, t))
  {
    var s := UnitEscape(hi) + UnitEscape(lo) + t;
    var after := s[2..];
    assert after == Hex4(hi) + (UnitEscape(lo) + t);
    Hex4Back(hi, UnitEscape(lo) + t);
    assert after[4] == '\\' && after[5] == 'u';
    assert after[6..] == Hex4(lo) + t;
    Hex4Back(lo, t);
    assert after[10..] == t;
  }

  /** A character beyond U+FFFF written as a surrogate pair is read back whole. */
  lemma SurrogatePairBack(c: char, t: string)
    requires c as int >= 0x10000
    ensures ReadChar(EscapeChar(c) + t) == Some((c, t))
  {
    var cp := c as int;
    var hi, lo := HighSurrogate(cp), LowSurrogate(cp);
    assert EscapeChar(c) == UnitEscape(hi) + UnitEscape(lo);
    SurrogatesJoin(cp);
    PairBack(hi, lo, t);
  }

  /** Joining the two surrogates gives the code point back. */
  lemma SurrogatesJoin(cp: int)
    requires 0x10000 <= cp < 0x110000
    ensures 0x10000 + (HighSurrogate(cp) - 0xD800) * 1024 + (LowSurrogate(cp) - 0xDC00) == cp
  {
  }

  /** A character written as a "\u" escape of four digits is read back. */
  lemma UnitBack(c: char, t: string)
    requires c as int < 0x10000
    ensures ReadUnit(Hex4(c as int) + t) == Some((c, t))
  {
    Hex4Back(c as int, t);
    assert (Hex4(c as int) + t)[4..] == t;
  }

  /** Every escape `json` writes reads back as the character it stands for. */
  lemma EscapeCharBack(c: char, t: string)
    ensures ReadChar(EscapeChar(c) + t) == Some((c, t))
  {
    var cp := c as int;
    var s := EscapeChar(c) + t;
    if c == '"' || c == '\\' || c == '\n' || c == '\r' || c == '\t' || cp == 8 || cp == 12 {
      assert s[2..] == t;
    } else if ' ' <= c <= '~' {
      assert s[1..] == t;
    } else if cp < 0x10000 {
      assert EscapeChar(c) == UnitEscape(cp);
      assert s[2..] == Hex4(cp) + t;
      UnitBack(c, t);
    } else {
      SurrogatePairBack(c, t);
    }
  }

  lemma {:induction false} ReadBodyBack(x: string, rest: string)
    ensures ReadBody(EscapeBody(x) + "\"" + rest) == Some((x, rest))
    decreases |x|
  {
    if x == [] {
      assert EscapeBody(x) + "\"" + rest == "\"" + rest;
    } else {
      var e := EscapeChar(x[0]);
      var tail := EscapeBody(x[1..]) + "\"" + rest;
      assert EscapeBody(x) + "\"" + rest == e + tail;
      EscapeCharBack(x[0], tail);
      ReadBodyBack(x[1..], rest);
      ReadBodyStep(e + tail, x[0], tail, x[1..], rest);
      assert [x[0]] + x[1..] == x;
    }
  }

  /** The body reader takes one character and reads on from where it ended. */
  lemma ReadBodyStep(s: string, c: char, t: string, v: string, rest: string)
    requires s != [] && s[0] != '"' && ReadChar(s) == Some((c, t)) && ReadBody(t) == Some((v, rest))
    ensures ReadBody(s) == Some(([c] + v, rest))
  {
  }

  /** A JSON string literal written by `dumps` is read back as the same string. */
  lemma ReadQuoted(x: string, rest: string)
    ensures ReadString(Quoted(x) + rest) == Some((x, rest))
  {
    var s := Quoted(x) + rest;
    assert s[1..] == EscapeBody(x) + "\"" + rest;
    ReadBodyBack(x, rest);
  }

  /** The options object carries the path and host it was given. */
  lemma DumpsBack(path: string, host: string)
    ensures ReadOptions(Dumps(path, host)) == Some((path, host))
  {
    var r1 := HostSeparator + (Quoted(host) + OptionsTail);
    StartsWithAppend(OptionsOpen, Quoted(path) + r1);
    ReadQuoted(path, r1);
    StartsWithAppend(HostSeparator, Quoted(host) + OptionsTail);
    ReadQuoted(host, OptionsTail);
  }
}
