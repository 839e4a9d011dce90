/**
 * The small part of JavaScript's value semantics that the request handlers
 * depend on: parsed JSON values, truthiness (`!x`), strict equality (`===`),
 * `String.prototype.trim`, `toLowerCase`, `split('.').pop()` and
 * `parseInt(s, 10)`.
 *
 * JavaScript numbers are modelled as mathematical integers; every value that
 * is a number but not an integer result of the handlers' arithmetic is out of
 * scope, and `NaN` is a variant of its own.
 */
module Js {

  datatype Option<T> = None | Some(value: T)

  /** The outcome of a request handler: a value, or the error it responds with. */
  datatype Result<T, E> = Ok(value: T) | Err(error: E)

  /** A value as produced by `JSON.parse` (or absent: `Undefined`). */
  datatype JsonValue =
    | Undefined
    | Null
    | Bool(b: bool)
    | Num(n: int)
    | NaN
    | Str(s: string)
    | Arr(items: seq<string>)
    | Obj

  /** `!!v`: false for undefined, null, false, 0, NaN and the empty string. */
  predicate Truthy(v: JsonValue) {
    match v
    case Undefined => false
    case Null => false
    case Bool(b) => b
    case Num(n) => n != 0
    case NaN => false
    case Str(s) => s != ""
    case Arr(_) => true
    case Obj => true
  }

  /**
   * `a === b`. Arrays and objects compare by identity; two values parsed
   * from requests or read from the database are never the same object.
   * `NaN` is not equal to anything, itself included.
   */
  predicate StrictEquals(a: JsonValue, b: JsonValue) {
    match a
    case Arr(_) => false
    case Obj => false
    case NaN => false
    case _ => a == b
  }

  /** `typeof v === 'string'` */
  predicate IsString(v: JsonValue) {
    v.Str?
  }

  /**
   * The characters `trim` and `parseInt` skip: ECMAScript's WhiteSpace
   * (tab, vertical tab, form feed, no-break space, byte order mark and the
   * space separators) and LineTerminator (LF, CR, U+2028, U+2029).
   */
  predicate IsSpace(c: char) {
    c == '\t' || c == '\n' || c == '\U{B}' || c == '\U{C}' || c == '\r' ||
    c == ' ' || c == '\U{A0}' || c == '\U{1680}' ||
    ('\U{2000}' <= c <= '\U{200A}') ||
    c == '\U{2028}' || c == '\U{2029}' || c == '\U{202F}' || c == '\U{205F}' ||
    c == '\U{3000}' || c == '\U{FEFF}'
  }

  predicate AllSpace(s: string) {
    forall i :: 0 <= i < |s| ==> IsSpace(s[i])
  }

  lemma AllSpaceCons(c: char, a: string)
    requires IsSpace(c) && AllSpace(a)
    ensures AllSpace([c] + a)
  {
    forall i | 0 < i < |a| + 1 ensures IsSpace(([c] + a)[i]) {
      assert ([c] + a)[i] == a[i - 1];
    }
  }

  lemma AllSpaceSnoc(a: string, c: char)
    requires AllSpace(a) && IsSpace(c)
    ensures AllSpace(a + [c])
  {
    forall i | 0 <= i < |a| ensures IsSpace((a + [c])[i]) {
      assert (a + [c])[i] == a[i];
    }
  }

  /** Drops leading white space. */
  function TrimStart(s: string): (r: string)
    ensures |r| <= |s| && r == s[|s| - |r|..]
    ensures r == [] || !IsSpace(r[0])
    ensures AllSpace(s[..|s| - |r|])
  {
    if s != [] && IsSpace(s[0]) then
      var t := s[1..];
      var r := TrimStart(t);
      assert s[..|s| - |r|] == [s[0]] + t[..|t| - |r|];
      AllSpaceCons(s[0], t[..|t| - |r|]);
      r
    else
      s
  }

  /** Drops trailing white space. */
  function TrimEnd(s: string): (r: string)
    ensures |r| <= |s| && r == s[..|r|]
    ensures r == [] || !IsSpace(r[|r| - 1])
    ensures AllSpace(s[|r|..])
  {
    if s != [] && IsSpace(s[|s| - 1]) then
      var t := s[..|s| - 1];
      var r := TrimEnd(t);
      assert s[|r|..] == t[|r|..] + [s[|s| - 1]];
      AllSpaceSnoc(t[|r|..], s[|s| - 1]);
      r
    else
      s
  }

  /** `r` is `s` with the `k` characters before it and everything after it white space. */
  predicate SpaceAround(s: string, r: string, k: int) {
    0 <= k <= |s| - |r| && r == s[k..k + |r|] && AllSpace(s[..k]) && AllSpace(s[k + |r|..])
  }

  /** `s.trim()` */
  function Trim(s: string): (r: string)
    ensures |r| <= |s|
    ensures r == [] || (!IsSpace(r[0]) && !IsSpace(r[|r| - 1]))
    ensures exists k :: SpaceAround(s, r, k)
  {
    TrimParts(s);
    TrimStart(TrimEnd(s))
  }

  /** Where `Trim(s)` sits in `s`: after the leading and before the trailing white space. */
  lemma TrimParts(s: string)
    ensures SpaceAround(s, TrimStart(TrimEnd(s)), |TrimEnd(s)| - |TrimStart(TrimEnd(s))|)
    ensures var r := TrimStart(TrimEnd(s)); r == [] || (!IsSpace(r[0]) && !IsSpace(r[|r| - 1]))
  {
    var e := TrimEnd(s);
    TrimmedSlice(s, e, TrimStart(e));
  }

  /**
   * Cutting white space off the end of `s` (giving `e`) and then off the
   * start of `e` (giving `r`) leaves `r` between two runs of white space.
   */
  lemma TrimmedSlice(s: string, e: string, r: string)
    requires |e| <= |s| && e == s[..|e|] && AllSpace(s[|e|..]) && (e == [] || !IsSpace(e[|e| - 1]))
    requires |r| <= |e| && r == e[|e| - |r|..] && AllSpace(e[..|e| - |r|]) && (r == [] || !IsSpace(r[0]))
    ensures SpaceAround(s, r, |e| - |r|) && (r == [] || (!IsSpace(r[0]) && !IsSpace(r[|r| - 1])))
  {
    var k := |e| - |r|;
    assert s[..k] == e[..k];
    assert s[k + |r|..] == s[|e|..];
    assert r == s[k..k + |r|];
    if r != [] {
      assert r[|r| - 1] == e[|e| - 1];
    }
  }

  /** `s.trim() === ''` holds exactly when every character of `s` is white space. */
  lemma TrimEmptyIff(s: string)
    ensures Trim(s) == "" <==> AllSpace(s)
  {
    var e := TrimEnd(s);
    if Trim(s) == "" {
      assert AllSpace(e[..|e|]);
      assert e == s[..|e|];
      forall i | 0 <= i < |s| ensures IsSpace(s[i]) {
        if i < |e| {
          assert s[i] == e[..|e|][i];
        } else {
          assert s[i] == s[|e|..][i - |e|];
        }
      }
    }
  }

  /** A string is blank for the handlers when `!v || typeof v !== 'string' || v.trim() === ''`. */
  predicate NonBlankString(v: JsonValue) {
    Truthy(v) && IsString(v) && Trim(v.s) != ""
  }

  /**
   * `!v || typeof v !== 'string' || v.trim() === ''` is false exactly for
   * a string holding at least one character that is not white space.
   */
  lemma NonBlankStringIff(v: JsonValue)
    ensures NonBlankString(v) <==> v.Str? && !AllSpace(v.s)
  {
    if v.Str? {
      TrimEmptyIff(v.s);
      assert Truthy(v) <==> v.s != "";
      assert v.s == "" ==> AllSpace(v.s);
    }
  }

  /** `toLowerCase`, on the ASCII letters. */
  function ToLowerAscii(s: string): (r: string)
    ensures |r| == |s|
    ensures forall i :: 0 <= i < |s| ==>
      r[i] == (if 'A' <= s[i] <= 'Z' then (s[i] as int + 32) as char else s[i])
  {
    if s == [] then []
    else
      var c := s[0];
      [if 'A' <= c <= 'Z' then (c as int + 32) as char else c] + ToLowerAscii(s[1..])
  }

  /**
   * `s.split(sep).pop()`: the text after the last `sep`, or all of `s` when
   * it holds no `sep`. `split` always yields at least one element, so `pop`
   * never returns undefined.
   */
  function LastSegment(s: string, sep: char): (r: string)
    ensures |r| <= |s| && r == s[|s| - |r|..]
    ensures sep !in r
    ensures |r| == |s| || s[|s| - |r| - 1] == sep
  {
    if s == [] then []
    else if s[|s| - 1] == sep then []
    else
      var r := LastSegment(s[..|s| - 1], sep);
      assert s[|s| - |r| - 1..] == s[..|s| - 1][|s| - 1 - |r|..] + [s[|s| - 1]];
      r + [s[|s| - 1]]
  }

  /** A string without the separator is its own last segment. */
  lemma {:induction false} LastSegmentWithoutSeparator(s: string, sep: char)
    requires sep !in s
    ensures LastSegment(s, sep) == s
  {
    if s != [] {
      LastSegmentWithoutSeparator(s[..|s| - 1], sep);
      assert s[..|s| - 1] + [s[|s| - 1]] == s;
    }
  }

  /** Lower-casing leaves a string without ASCII capitals unchanged. */
  lemma ToLowerAsciiOfLower(s: string)
    requires forall i :: 0 <= i < |s| ==> !('A' <= s[i] <= 'Z')
    ensures ToLowerAscii(s) == s
  {
  }

  /** The text after the last separator of `stem + [sep] + ext` is `ext`. */
  lemma {:induction false} LastSegmentAfterSeparator(stem: string, sep: char, ext: string)
    requires sep !in ext
    ensures LastSegment(stem + [sep] + ext, sep) == ext
  {
    if ext != [] {
      var s := stem + [sep] + ext;
      assert s[|s| - 1] == ext[|ext| - 1];
      assert s[..|s| - 1] == stem + [sep] + ext[..|ext| - 1];
      LastSegmentAfterSeparator(stem, sep, ext[..|ext| - 1]);
      assert ext == ext[..|ext| - 1] + [ext[|ext| - 1]];
    }
  }

  // ---------------------------------------------------------------------
  // parseInt(s, 10)
  // ---------------------------------------------------------------------

  predicate IsDigit(c: char) {
    '0' <= c <= '9'
  }

  predicate AllDigits(s: string) {
    forall i :: 0 <= i < |s| ==> IsDigit(s[i])
  }

  /** The longest prefix of `s` made of decimal digits. */
  function DigitPrefix(s: string): (r: string)
    ensures |r| <= |s| && r == s[..|r|]
    ensures AllDigits(r)
    ensures |r| == |s| || !IsDigit(s[|r|])
  {
    if s != [] && IsDigit(s[0]) then [s[0]] + DigitPrefix(s[1..]) else []
  }

  /** The value of a string of decimal digits, most significant first. */
  function DigitsValue(d: string): nat
    requires AllDigits(d)
  {
    if d == [] then 0
    else DigitsValue(d[..|d| - 1]) * 10 + (d[|d| - 1] as int - '0' as int)
  }

  /**
   * `parseInt(s, 10)`: skip leading white space, take an optional sign,
   * then the longest run of decimal digits; `None` stands for `NaN`, the
   * result when that run is empty. Anything after the digits is ignored.
   */
  function ParseInt10(s: string): Option<int> {
    ParseSigned(TrimStart(s))
  }

  /** `parseInt` on a string whose leading white space is already gone. */
  function ParseSigned(t: string): Option<int> {
    if t != [] && t[0] == '-' then
      match ParseUnsigned(t[1..])
      case None => None
      case Some(v) => Some(-v)
    else if t != [] && t[0] == '+' then ParseUnsigned(t[1..])
    else ParseUnsigned(t)
  }

  /** The value of the leading run of digits, or `None` when there is none. */
  function ParseUnsigned(u: string): Option<int> {
    var d := DigitPrefix(u);
    if d == [] then None else Some(DigitsValue(d))
  }

  /** Decimal rendering of a natural number, without leading zeros. */
  function ShowNat(n: nat): (r: string)
    ensures r != [] && AllDigits(r)
  {
    if n < 10 then [('0' as int + n) as char]
    else ShowNat(n / 10) + [('0' as int + n % 10) as char]
  }

  /** Decimal rendering of an integer, with `-` before a negative one. */
  function ShowInt(n: int): string {
    if n < 0 then "-" + ShowNat(-n) else ShowNat(n)
  }

  lemma {:induction false} DigitsValueShowNat(n: nat)
    ensures DigitsValue(ShowNat(n)) == n
  {
    var r := ShowNat(n);
    if n >= 10 {
      DigitsValueShowNat(n / 10);
      assert r[..|r| - 1] == ShowNat(n / 10);
    }
  }

  lemma {:induction false} DigitPrefixOfDigits(d: string, rest: string)
    requires AllDigits(d)
    requires rest == [] || !IsDigit(rest[0])
    ensures DigitPrefix(d + rest) == d
  {
    if d != [] {
      assert (d + rest)[1..] == d[1..] + rest;
      DigitPrefixOfDigits(d[1..], rest);
    }
  }

  lemma {:induction false} ParseUnsignedDigits(d: string, rest: string)
    requires d != [] && AllDigits(d)
    requires rest == [] || !IsDigit(rest[0])
    ensures ParseUnsigned(d + rest) == Some(DigitsValue(d))
  {
    DigitPrefixOfDigits(d, rest);
  }

  /** A run of digits followed by a non-digit parses to the run's value. */
  lemma {:induction false} ParseDigits(d: string, rest: string)
    requires d != [] && AllDigits(d)
    requires rest == [] || !IsDigit(rest[0])
    ensures ParseInt10(d + rest) == Some(DigitsValue(d))
  {
    var s := d + rest;
    assert s[0] == d[0];
    ParseInt10NoSpace(s);
    assert ParseSigned(s) == ParseUnsigned(s);
    ParseUnsignedDigits(d, rest);
  }

  /** The same run after a minus sign parses to the negated value. */
  lemma {:induction false} ParseNegatedDigits(d: string, rest: string)
    requires d != [] && AllDigits(d)
    requires rest == [] || !IsDigit(rest[0])
    ensures ParseInt10(("-" + d) + rest) == Some(-(DigitsValue(d) as int))
  {
    var s := ("-" + d) + rest;
    assert s[0] == '-' && s[1..] == d + rest;
    ParseUnsignedDigits(d, rest);
    ParseSignedNegative(s);
    ParseInt10NoSpace(s);
  }

  lemma ParseSignedNegative(t: string)
    requires t != [] && t[0] == '-' && ParseUnsigned(t[1..]).Some?
    ensures ParseSigned(t) == Some(-ParseUnsigned(t[1..]).value)
  {
  }

  lemma ParseInt10NoSpace(s: string)
    requires s == [] || !IsSpace(s[0])
    ensures ParseInt10(s) == ParseSigned(s)
  {
    TrimStartNoSpace(s);
  }

  lemma TrimStartNoSpace(s: string)
    requires s == [] || !IsSpace(s[0])
    ensures TrimStart(s) == s
  {
  }

  /**
   * `parseInt(String(n), 10) === n`, and the digits may be followed by any
   * text that does not start with a digit: `parseInt("12abc", 10) === 12`.
   */
  lemma {:induction false} ParseShowInt(n: int, rest: string)
    requires rest == [] || !IsDigit(rest[0])
    ensures ParseInt10(ShowInt(n) + rest) == Some(n)
  {
    if n < 0 {
      ParseShowNegative(n, rest);
    } else {
      DigitsValueShowNat(n);
      ParseDigits(ShowNat(n), rest);
    }
  }

  lemma {:induction false} ParseShowNegative(n: int, rest: string)
    requires n < 0
    requires rest == [] || !IsDigit(rest[0])
    ensures ParseInt10(ShowInt(n) + rest) == Some(n)
  {
    var m: nat := -n;
    var d := ShowNat(m);
    var t := ("-" + d) + rest;
    assert ShowInt(n) + rest == t;
    DigitsValueShowNat(m);
    ParseNegatedDigits(d, rest);
    assert ParseInt10(t) == Some(-(m as int));
  }

  /** `parseInt` ignores leading white space. */
  lemma {:induction false} ParseSkipsLeadingSpace(sp: string, s: string)
    requires AllSpace(sp)
    ensures ParseInt10(sp + s) == ParseInt10(s)
  {
    TrimStartSkipsSpace(sp, s);
    assert TrimStart(sp + s) == TrimStart(s);
  }

  lemma {:induction false} TrimStartSkipsSpace(sp: string, s: string)
    requires AllSpace(sp)
    ensures TrimStart(sp + s) == TrimStart(s)
  {
    if sp != [] {
      var t := sp + s;
      assert t[0] == sp[0] && IsSpace(t[0]);
      assert t[1..] == sp[1..] + s;
      assert TrimStart(t) == TrimStart(t[1..]);
      assert AllSpace(sp[1..]) by {
        forall i | 0 <= i < |sp| - 1 ensures IsSpace(sp[1..][i]) {
          assert sp[1..][i] == sp[i + 1];
        }
      }
      TrimStartSkipsSpace(sp[1..], s);
    } else {
      assert sp + s == s;
    }
  }

  /** `parseInt` yields `NaN` exactly when no digit follows the blanks and the optional sign. */
  lemma ParseNaNIff(s: string)
    ensures var t := TrimStart(s);
            var u := if t != [] && (t[0] == '-' || t[0] == '+') then t[1..] else t;
            ParseInt10(s).None? <==> (u == [] || !IsDigit(u[0]))
  {
  }
}
