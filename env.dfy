/**
 * The environment-variable registry. A module declares each variable it
 * reads with `defenv`, which records its type, default and whether it may
 * be unset; reading `env.NAME` looks the declaration up, reads the process
 * environment (here a map passed in) and converts the text to the declared
 * type, `int` or `str`.
 */
module Env {
  import opened Wrappers
  import opened Text

  datatype VarType = IntType | StrType

  datatype Value = IntValue(i: int) | StrValue(s: string)

  /** One entry of the registry; an absent default is Python's `None`. */
  datatype Definition = Definition(name: string, varType: VarType, default: Option<Value>, optional: bool)

  datatype EnvError =
    | AttributeError                // a name starting with "_"
    | UnknownVariable(name: string) // ValueError: the name was never declared
    | NotSet(name: string)          // ValueError: a required variable is absent
    | InvalidLiteral(text: string)  // ValueError from `int(text)`

  // ------------------------------------------------------------ int()

  /** The ASCII characters `int()` strips around its argument. */
  predicate IsSpace(c: char)
  {
    c == ' ' || 9 <= c as int <= 13 || 28 <= c as int <= 31
  }

  function TrimStart(s: string): (r: string)
    ensures |r| <= |s| && r == s[|s| - |r|..]
    ensures r == [] || !IsSpace(r[0])
    decreases |s|
  {
    if s != [] && IsSpace(s[0]) then TrimStart(s[1..]) else s
  }

  function TrimEnd(s: string): (r: string)
    ensures |r| <= |s| && r == s[..|r|]
    ensures r == [] || !IsSpace(r[|r| - 1])
    decreases |s|
  {
    if s != [] && IsSpace(s[|s| - 1]) then TrimEnd(s[..|s| - 1]) else s
  }

  predicate IsDigit(c: char)
  {
    '0' <= c <= '9'
  }

  /**
   * The digits of a numeral written with single underscores allowed between
   * two digits, or nothing when the text is not such a numeral.
   */
  function Digits(s: string): (r: Option<string>)
    ensures r.Some? ==> r.value != [] && forall i :: 0 <= i < |r.value| ==> IsDigit(r.value[i])
    decreases |s|
  {
    if s == [] || !IsDigit(s[0]) then None
    else if |s| == 1 then Some(s)
    else
      var rest := if s[1] == '_' then Digits(s[2..]) else Digits(s[1..]);
      match rest
      case None => None
      case Some(ds) => Some([s[0]] + ds)
  }

  /** A text of digits alone is its own numeral. */
  lemma {:induction false} DigitsOfDigits(s: string)
    requires s != [] && forall i :: 0 <= i < |s| ==> IsDigit(s[i])
    ensures Digits(s) == Some(s)
    decreases |s|
  {
    if |s| > 1 {
      DigitsOfDigits(s[1..]);
      assert [s[0]] + s[1..] == s;
    }
  }

  /** `int(s)` on a text of ASCII characters: a signed decimal numeral between blanks, or an error. */
  function ParseInt(s: string): Option<int>
  {
    SignedNumeral(TrimEnd(TrimStart(s)))
  }

  /** An optional sign and a numeral. */
  function SignedNumeral(t: string): Option<int>
  {
    var negative := t != [] && t[0] == '-';
    var body := if t != [] && (t[0] == '-' || t[0] == '+') then t[1..] else t;
    match Digits(body)
    case None => None
    case Some(ds) =>
      var n := DecimalValue(ds);
      Some(if negative then -n else n)
  }

  /** `var_type(value)` for the two types the repository declares. */
  function Convert(t: VarType, text: string): Option<Value>
  {
    match t
    case StrType => Some(StrValue(text))
    case IntType =>
      match ParseInt(text)
      case None => None
      case Some(n) => Some(IntValue(n))
  }

  /** `int()` reads back the decimal text `str()` writes for any integer. */
  lemma ParseIntStr(n: int)
    ensures ParseInt(IntStr(n)) == Some(n)
  {
    IntStrUnpadded(n);
    NumeralIntStr(n);
  }

  lemma NumeralIntStr(n: int)
    ensures SignedNumeral(IntStr(n)) == Some(n)
  {
    if n < 0 {
      NegativeNumeral(-n);
    } else {
      PlainNumeral(n);
    }
  }

  lemma PlainNumeral(m: nat)
    ensures SignedNumeral(Decimal(m)) == Some(m)
  {
    var d := Decimal(m);
    DecimalRoundTrip(m);
    DigitsOfDigits(d);
  }

  lemma NegativeNumeral(m: nat)
    ensures SignedNumeral("-" + Decimal(m)) == Some(-(m as int))
  {
    var d := Decimal(m);
    DecimalRoundTrip(m);
    DigitsOfDigits(d);
    var t := "-" + d;
    assert t[0] == '-' && t[1..] == d;
  }

  /** The text of an integer has no blanks to strip. */
  lemma IntStrUnpadded(n: int)
    ensures TrimEnd(TrimStart(IntStr(n))) == IntStr(n)
  {
    var s := IntStr(n);
    assert !IsSpace(s[0]) && !IsSpace(s[|s| - 1]);
  }

  predicate Blank(s: string)
  {
    forall i :: 0 <= i < |s| ==> IsSpace(s[i])
  }

  lemma {:induction false} TrimStartBlanks(b: string, t: string)
    requires Blank(b) && (t == [] || !IsSpace(t[0]))
    ensures TrimStart(b + t) == t
    decreases |b|
  {
    if b == [] {
      assert b + t == t;
    } else {
      assert (b + t)[1..] == b[1..] + t;
      TrimStartBlanks(b[1..], t);
    }
  }

  lemma {:induction false} TrimEndBlanks(t: string, b: string)
    requires Blank(b) && (t == [] || !IsSpace(t[|t| - 1]))
    ensures TrimEnd(t + b) == t
    decreases |b|
  {
    if b == [] {
      assert t + b == t;
    } else {
      assert (t + b)[..|t + b| - 1] == t + b[..|b| - 1];
      TrimEndBlanks(t, b[..|b| - 1]);
    }
  }

  /** Blanks on either side of an integer's text are stripped, as `int()` strips them. */
  lemma ParseIntBlanks(b1: string, n: int, b2: string)
    requires Blank(b1) && Blank(b2)
    ensures ParseInt(b1 + IntStr(n) + b2) == Some(n)
  {
    var s := IntStr(n);
    assert !IsSpace(s[0]) && !IsSpace(s[|s| - 1]);
    assert b1 + s + b2 == b1 + (s + b2);
    TrimStartBlanks(b1, s + b2);
    TrimEndBlanks(s, b2);
    NumeralIntStr(n);
  }

  predicate AllDigits(s: string)
  {
    forall i :: 0 <= i < |s| ==> IsDigit(s[i])
  }

  /** An underscore between a digit and a digit is dropped. */
  lemma {:induction false} DigitsUnderscore(x: string, t: string)
    requires x != [] && AllDigits(x) && t != [] && IsDigit(t[0])
    ensures Digits(x + "_" + t) == Digits(x + t)
    decreases |x|
  {
    var s, u := x + "_" + t, x + t;
    if |x| == 1 {
      assert s[2..] == t && u[1..] == t;
    } else {
      assert s[1..] == x[1..] + "_" + t && u[1..] == x[1..] + t;
      DigitsUnderscore(x[1..], t);
    }
  }

  /** An underscore followed by another underscore, or by nothing, is refused. */
  lemma {:induction false} DigitsBadUnderscore(x: string, t: string)
    requires x != [] && AllDigits(x) && (t == [] || t[0] == '_')
    ensures Digits(x + "_" + t) == None
    decreases |x|
  {
    var s := x + "_" + t;
    if |x| == 1 {
      assert s[2..] == t;
    } else {
      assert s[1..] == x[1..] + "_" + t;
      DigitsBadUnderscore(x[1..], t);
    }
  }

  /** A numeral begins and ends with a digit. */
  lemma {:induction false} DigitsEnds(s: string)
    requires Digits(s).Some?
    ensures IsDigit(s[0]) && IsDigit(s[|s| - 1])
    decreases |s|
  {
    if |s| > 1 {
      if s[1] == '_' {
        DigitsEnds(s[2..]);
      } else {
        DigitsEnds(s[1..]);
      }
    }
  }

  /** A text with no blank at either end is read as it stands. */
  lemma Untrimmed(t: string)
    requires t != [] && !IsSpace(t[0]) && !IsSpace(t[|t| - 1])
    ensures ParseInt(t) == SignedNumeral(t)
  {
  }

  /** A sign before a numeral: a minus negates its value, a plus keeps it. */
  lemma SignedValue(sign: char, body: string)
    requires sign == '-' || sign == '+'
    requires Digits(body).Some?
    ensures var n := DecimalValue(Digits(body).value);
      SignedNumeral([sign] + body) == Some(if sign == '-' then -n else n)
  {
    var t := [sign] + body;
    assert t[0] == sign && t[1..] == body;
  }

  /** A signed numeral has no blank to strip. */
  lemma SignedUntrimmed(sign: char, body: string)
    requires sign == '-' || sign == '+'
    requires Digits(body).Some?
    ensures ParseInt([sign] + body) == SignedNumeral([sign] + body)
  {
    DigitsEnds(body);
    var t := [sign] + body;
    assert t[0] == sign && t[|t| - 1] == body[|body| - 1];
    Untrimmed(t);
  }

  lemma ParseSignedNumeral(sign: char, body: string)
    requires sign == '-' || sign == '+'
    requires Digits(body).Some?
    ensures var n := DecimalValue(Digits(body).value);
      ParseInt([sign] + body) == Some(if sign == '-' then -n else n)
  {
    SignedValue(sign, body);
    SignedUntrimmed(sign, body);
  }

  /** An unsigned numeral reads as the value of its digits. */
  lemma ParseUnsignedNumeral(body: string)
    requires Digits(body).Some?
    ensures ParseInt(body) == Some(DecimalValue(Digits(body).value))
  {
    DigitsEnds(body);
    Untrimmed(body);
  }

  /** `int()` on a numeral: the value of its digits, kept after a plus sign and negated after a minus. */
  lemma ParseNumeral(body: string)
    requires Digits(body).Some?
    ensures var n := DecimalValue(Digits(body).value);
      ParseInt(body) == Some(n) && ParseInt(['+'] + body) == Some(n) && ParseInt(['-'] + body) == Some(-n)
  {
    ParseUnsignedNumeral(body);
    ParseSignedNumeral('+', body);
    ParseSignedNumeral('-', body);
  }

  /** A single underscore between two digits leaves the value unchanged. */
  lemma ParseIntUnderscore(x: string, y: string)
    requires x != [] && AllDigits(x) && y != [] && AllDigits(y)
    ensures ParseInt(x + "_" + y) == ParseInt(x + y) == Some(DecimalValue(x + y))
  {
    DigitsUnderscore(x, y);
    DigitsOfDigits(x + y);
    ParseNumeral(x + "_" + y);
    ParseNumeral(x + y);
  }

  /** A doubled or a trailing underscore makes the text invalid. */
  lemma ParseIntBadUnderscores(x: string, y: string)
    requires x != [] && AllDigits(x) && y != [] && AllDigits(y)
    ensures ParseInt(x + "__" + y) == None
    ensures ParseInt(x + "_") == None
  {
    var two, trailing := x + "_" + ("_" + y), x + "_";
    assert x + "__" + y == two;
    assert trailing == x + "_" + [];
    DigitsBadUnderscore(x, "_" + y);
    DigitsBadUnderscore(x, []);
    assert two[0] == x[0] && two[|two| - 1] == y[|y| - 1];
    Untrimmed(two);
    Untrimmed(trailing);
  }

  // ------------------------------------------------------------ lookup

  /** `env.NAME`, the module `__getattr__`, for a registry and an environment. */
  function Lookup(defs: map<string, Definition>, environ: map<string, string>, name: string): Result<Option<Value>, EnvError>
  {
    if StartsWith(name, "_") then Err(AttributeError)
    else if name !in defs then Err(UnknownVariable(name))
    else
      var d := defs[name];
      if name !in environ then
        if d.optional then Ok(d.default) else Err(NotSet(name))
      else
        match Convert(d.varType, environ[name])
        case None => Err(InvalidLiteral(environ[name]))
        case Some(v) => Ok(Some(v))
  }

  /**
   * The errors in the order they are checked: a name starting with "_" first,
   * then an undeclared name, then a required variable that is unset, and
   * last a text `int()` refuses.
   */
  lemma LookupErrors(defs: map<string, Definition>, environ: map<string, string>, name: string)
    ensures Lookup(defs, environ, name) == Err(AttributeError) <==> StartsWith(name, "_")
    ensures Lookup(defs, environ, name) == Err(UnknownVariable(name)) <==>
      !StartsWith(name, "_") && name !in defs
    ensures Lookup(defs, environ, name) == Err(NotSet(name)) <==>
      !StartsWith(name, "_") && name in defs && name !in environ && !defs[name].optional
    ensures Lookup(defs, environ, name).Err? && Lookup(defs, environ, name).error.InvalidLiteral? <==>
      && !StartsWith(name, "_") && name in defs && name in environ
      && defs[name].varType == IntType && ParseInt(environ[name]).None?
  {
  }

  /** An unset optional variable gives the declared default as it was declared, not converted. */
  lemma LookupUnset(defs: map<string, Definition>, environ: map<string, string>, name: string)
    requires !StartsWith(name, "_") && name in defs && name !in environ && defs[name].optional
    ensures Lookup(defs, environ, name) == Ok(defs[name].default)
  {
  }

  /** A set variable gives its text converted to the declared type, whatever the default. */
  lemma LookupSet(defs: map<string, Definition>, environ: map<string, string>, name: string)
    requires !StartsWith(name, "_") && name in defs && name in environ
    ensures defs[name].varType == StrType ==> Lookup(defs, environ, name) == Ok(Some(StrValue(environ[name])))
    ensures defs[name].varType == IntType && ParseInt(environ[name]).Some? ==>
      Lookup(defs, environ, name) == Ok(Some(IntValue(ParseInt(environ[name]).value)))
    ensures forall d :: Lookup(defs[name := defs[name].(default := d)], environ, name) == Lookup(defs, environ, name)
  {
  }

  /** A lookup reads only the declaration of its own name. */
  lemma LookupOwnEntry(defs: map<string, Definition>, environ: map<string, string>, name: string, other: string, d: Definition)
    requires other != name
    ensures Lookup(defs[other := d], environ, name) == Lookup(defs, environ, name)
  {
  }

  // ------------------------------------------------------------ registry

  /** The module-level `_defs` dictionary. */
  class Registry {
    var defs: map<string, Definition>

    constructor()
      ensures defs == map[]
    {
      defs := map[];
    }

    /** `defenv(name, var_type, default, optional)`: the new entry replaces any earlier one. */
    method Defenv(name: string, varType: VarType, default: Option<Value>, optional: bool)
      modifies this
      ensures defs == old(defs)[name := Definition(name, varType, default, optional)]
    {
      defs := defs[name := Definition(name, varType, default, optional)];
    }

    /** `env.NAME`: a lookup, which changes nothing. */
    method GetAttr(environ: map<string, string>, name: string) returns (r: Result<Option<Value>, EnvError>)
      ensures r == Lookup(defs, environ, name)
    {
      if StartsWith(name, "_") {
        return Err(AttributeError);
      }
      if name !in defs {
        return Err(UnknownVariable(name));
      }
      var d := defs[name];
      if name !in environ {
        if d.optional {
          return Ok(d.default);
        }
        return Err(NotSet(name));
      }
      var v := Convert(d.varType, environ[name]);
      if v.None? {
        return Err(InvalidLiteral(environ[name]));
      }
      return Ok(Some(v.value));
    }
  }

  /** The registry after a sequence of `defenv` calls. */
  function Declare(defs: map<string, Definition>, ds: seq<Definition>): map<string, Definition>
    decreases |ds|
  {
    if ds == [] then defs else Declare(defs[ds[0].name := ds[0]], ds[1..])
  }

  /** After a sequence of declarations, a declared name holds its last declaration. */
  lemma {:induction false} DeclareLastWins(defs: map<string, Definition>, ds: seq<Definition>, i: nat)
    requires i < |ds|
    requires forall j :: i < j < |ds| ==> ds[j].name != ds[i].name
    ensures ds[i].name in Declare(defs, ds) && Declare(defs, ds)[ds[i].name] == ds[i]
    decreases |ds|
  {
    if i > 0 {
      DeclareLastWins(defs[ds[0].name := ds[0]], ds[1..], i - 1);
    } else {
      DeclareKeeps(defs[ds[0].name := ds[0]], ds[1..], ds[0].name);
    }
  }

  /** Declarations of other names leave an entry alone. */
  lemma {:induction false} DeclareKeeps(defs: map<string, Definition>, ds: seq<Definition>, name: string)
    requires forall j :: 0 <= j < |ds| ==> ds[j].name != name
    ensures name in defs ==> name in Declare(defs, ds) && Declare(defs, ds)[name] == defs[name]
    ensures name !in defs ==> name !in Declare(defs, ds)
    decreases |ds|
  {
    if ds != [] {
      DeclareKeeps(defs[ds[0].name := ds[0]], ds[1..], name);
    }
  }

  /** One more declaration updates the registry built by the earlier ones. */
  lemma {:induction false} DeclareAppend(defs: map<string, Definition>, ds: seq<Definition>, d: Definition)
    ensures Declare(defs, ds + [d]) == Declare(defs, ds)[d.name := d]
    decreases |ds|
  {
    if ds == [] {
      assert ds + [d] == [d];
    } else {
      assert (ds + [d])[0] == ds[0] && (ds + [d])[1..] == ds[1..] + [d];
      DeclareAppend(defs[ds[0].name := ds[0]], ds[1..], d);
    }
  }

  /**
   * Declaring a variable again with the entry it already has changes
   * nothing, as when two modules both declare WEBSITE_SECRET_KEY as a
   * required string.
   */
  lemma DeclareAgain(defs: map<string, Definition>, ds: seq<Definition>, d: Definition)
    requires d.name in Declare(defs, ds) && Declare(defs, ds)[d.name] == d
    ensures Declare(defs, ds + [d]) == Declare(defs, ds)
  {
    DeclareAppend(defs, ds, d);
  }
}
