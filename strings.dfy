/**
 * The string operations the handlers rely on, written out: decimal
 * rendering of integers (room names, file name suffixes), the parsers of
 * JavaScript `parseInt` and Java `Integer.parseInt`, the two `trim`s,
 * ASCII lower-casing, substring search (SQL `LIKE '%q%'`), and
 * `split` / `join` on one separator character.
 */
module Strings {
  import opened Common

  // ---------------------------------------------------------------------------
  // Decimal rendering

  predicate IsDigit(c: char) { '0' <= c <= '9' }

  predicate AllDigits(s: string) { forall i :: 0 <= i < |s| ==> IsDigit(s[i]) }

  function DigitChar(d: nat): (c: char)
    requires d < 10
    ensures IsDigit(c) && DigitValue(c) == d
  {
    (48 + d) as char
  }

  function DigitValue(c: char): nat
    requires IsDigit(c)
  {
    (c as int - 48) as nat
  }

  /** The shortest decimal rendering of a natural number, as `String(n)` gives it. */
  function NatToString(n: nat): (s: string)
    ensures |s| >= 1 && AllDigits(s)
    ensures n >= 10 ==> |s| >= 2
    ensures s[0] != '0' || n == 0
  {
    if n < 10 then [DigitChar(n)] else NatToString(n / 10) + [DigitChar(n % 10)]
  }

  /** The decimal rendering of an integer, with a leading '-' when it is negative. */
  function IntToString(n: int): (s: string)
    ensures |s| >= 1
    ensures n >= 0 ==> AllDigits(s)
    ensures n < 0 ==> s[0] == '-' && AllDigits(s[1..])
    ensures s[0] == '-' <==> n < 0
  {
    if n < 0 then "-" + NatToString(-n) else NatToString(n)
  }

  // ---------------------------------------------------------------------------
  // Parsing

  /** The value of a string of decimal digits. */
  function DigitsValue(s: string): nat
    requires AllDigits(s)
  {
    if s == [] then 0 else DigitsValue(s[..|s| - 1]) * 10 + DigitValue(s[|s| - 1])
  }

  lemma {:induction false} DigitsValueOfNatToString(n: nat)
    ensures DigitsValue(NatToString(n)) == n
  {
    var s := NatToString(n);
    if n >= 10 {
      assert s[..|s| - 1] == NatToString(n / 10);
      DigitsValueOfNatToString(n / 10);
    }
  }

  /** Distinct natural numbers have distinct renderings. */
  lemma NatToStringInjective(a: nat, b: nat)
    requires NatToString(a) == NatToString(b)
    ensures a == b
  {
    DigitsValueOfNatToString(a);
    DigitsValueOfNatToString(b);
  }

  /** Distinct integers have distinct renderings. */
  lemma IntToStringInjective(a: int, b: int)
    requires IntToString(a) == IntToString(b)
    ensures a == b
  {
    var sa, sb := IntToString(a), IntToString(b);
    if a < 0 {
      assert b < 0;
      assert sa[1..] == NatToString(-a) && sb[1..] == NatToString(-b);
      NatToStringInjective(-a, -b);
    } else {
      assert b >= 0;
      NatToStringInjective(a, b);
    }
  }

  const JavaIntMin: int := -0x8000_0000
  const JavaIntMax: int := 0x7FFF_FFFF

  /**
   * `Integer.parseInt(s)` in Java: an optional '+' or '-', then at least one
   * digit, and a value in the 32-bit range; anything else is a
   * NumberFormatException (None).
   */
  function JavaParseInt(s: string): (r: Option<int>)
    ensures r.Some? ==> JavaIntMin <= r.value <= JavaIntMax
    ensures r.Some? ==> |s| >= 1
  {
    if |s| == 0 then None
    else
      var neg := s[0] == '-';
      var digits := if s[0] == '-' || s[0] == '+' then s[1..] else s;
      if |digits| == 0 || !AllDigits(digits) then None
      else
        var v: int := if neg then -(DigitsValue(digits) as int) else DigitsValue(digits);
        if JavaIntMin <= v <= JavaIntMax then Some(v) else None
  }

  /** Every 32-bit integer parses back from its own rendering. */
  lemma JavaParseIntRoundTrip(n: int)
    requires JavaIntMin <= n <= JavaIntMax
    ensures JavaParseInt(IntToString(n)) == Some(n)
  {
    var s := IntToString(n);
    if n < 0 {
      assert s[1..] == NatToString(-n);
      DigitsValueOfNatToString(-n);
    } else {
      DigitsValueOfNatToString(n);
    }
  }

  /** The longest prefix of `s` made of digits. */
  function DigitPrefix(s: string): (p: string)
    ensures AllDigits(p) && |p| <= |s| && p == s[..|p|]
    ensures |p| < |s| ==> !IsDigit(s[|p|])
  {
    if s == [] || !IsDigit(s[0]) then [] else [s[0]] + DigitPrefix(s[1..])
  }

  lemma {:induction false} DigitPrefixOfDigits(s: string)
    requires AllDigits(s)
    ensures DigitPrefix(s) == s
  {
    if s != [] {
      DigitPrefixOfDigits(s[1..]);
    }
  }

  /** A hexadecimal digit, in either case. */
  predicate IsHexDigit(c: char)
  {
    IsDigit(c) || 'a' <= c <= 'f' || 'A' <= c <= 'F'
  }

  function HexDigitValue(c: char): (v: nat)
    requires IsHexDigit(c)
    ensures v < 16
  {
    if IsDigit(c) then DigitValue(c)
    else if 'a' <= c <= 'f' then (c - 'a') as nat + 10
    else (c - 'A') as nat + 10
  }

  /** The longest prefix of `s` made of hexadecimal digits. */
  function HexPrefix(s: string): (p: string)
    ensures |p| <= |s| && p == s[..|p|]
    ensures forall i :: 0 <= i < |p| ==> IsHexDigit(p[i])
    ensures |p| < |s| ==> !IsHexDigit(s[|p|])
  {
    if s == [] || !IsHexDigit(s[0]) then [] else [s[0]] + HexPrefix(s[1..])
  }

  /** The value of a run of hexadecimal digits, most significant first. */
  function HexValue(s: string): nat
    requires forall i :: 0 <= i < |s| ==> IsHexDigit(s[i])
  {
    if s == [] then 0 else HexValue(s[..|s| - 1]) * 16 + HexDigitValue(s[|s| - 1])
  }

  /** `0x` or `0X` at the front of s. */
  predicate HasHexPrefix(s: string)
  {
    |s| >= 2 && s[0] == '0' && (s[1] == 'x' || s[1] == 'X')
  }

  /** `Number.MAX_SAFE_INTEGER`: beyond it a JavaScript number no longer holds every integer. */
  const JsSafeIntMax: int := 0x1F_FFFF_FFFF_FFFF

  /**
   * `parseInt(s)` in JavaScript with no radix: leading white space is
   * skipped and an optional sign is read. A following `0x` or `0X` switches
   * to base 16 and the longest run of hexadecimal digits is read; otherwise
   * the longest run of decimal digits. No digit at all gives NaN (None).
   */
  function JsParseInt(s: string): (r: Option<int>)
  {
    var t := JsTrimStart(s);
    var neg := |t| > 0 && t[0] == '-';
    var rest := if |t| > 0 && (t[0] == '-' || t[0] == '+') then t[1..] else t;
    if HasHexPrefix(rest) then
      var digits := HexPrefix(rest[2..]);
      if digits == [] then None
      else
        var v: int := if neg then -(HexValue(digits) as int) else HexValue(digits);
        Some(v)
    else
      var digits := DigitPrefix(rest);
      if digits == [] then None
      else
        var v: int := if neg then -(DigitsValue(digits) as int) else DigitsValue(digits);
        Some(v)
  }

  /**
   * What parseInt reads: NaN exactly when no digit of the base the prefix
   * chooses follows the sign, and a result whose sign is the text's.
   */
  lemma JsParseIntReads(s: string)
    ensures var t := JsTrimStart(s);
      var rest := if |t| > 0 && (t[0] == '-' || t[0] == '+') then t[1..] else t;
      && (HasHexPrefix(rest) ==> (JsParseInt(s).None? <==> HexPrefix(rest[2..]) == []))
      && (!HasHexPrefix(rest) ==> (JsParseInt(s).None? <==> DigitPrefix(rest) == []))
      && (JsParseInt(s).Some? && |t| > 0 && t[0] == '-' ==> JsParseInt(s).value <= 0)
      && (JsParseInt(s).Some? && !(|t| > 0 && t[0] == '-') ==> JsParseInt(s).value >= 0)
  {
  }

  /**
   * parseInt reads back every integer a JavaScript number holds exactly, as
   * `toString` wrote it.
   */
  lemma JsParseIntRoundTrip(n: int)
    requires -JsSafeIntMax <= n <= JsSafeIntMax
    ensures JsParseInt(IntToString(n)) == Some(n)
  {
    if n < 0 {
      JsParseIntOfNegative(n);
    } else {
      JsParseIntOfNatural(n);
    }
  }

  /** `0x1F` reads as 31. */
  lemma JsParseIntHex()
    ensures JsParseInt("0x1F") == Some(31)
  {
    JsTrimStartKeeps("0x1F");
    var rest := "0x1F";
    assert HasHexPrefix(rest) && rest[2..] == "1F";
    assert HexPrefix("F") == "F";
    assert HexPrefix("1F") == "1F";
    assert HexValue("1F") == HexValue("1") * 16 + 15;
  }

  /** A hexadecimal prefix with no hexadecimal digit after it is NaN, not 0. */
  lemma JsParseIntBareHexPrefix()
    ensures JsParseInt("0xg") == None
  {
    JsTrimStartKeeps("0xg");
    assert "0xg"[2..] == "g";
    assert !IsHexDigit('g');
  }

  lemma JsParseIntOfNatural(n: nat)
    ensures JsParseInt(IntToString(n)) == Some(n)
  {
    var s := NatToString(n);
    assert IntToString(n) == s;
    assert IsDigit(s[0]) && s[0] != '-' && s[0] != '+';
    JsTrimStartKeeps(s);
    assert !HasHexPrefix(s) by {
      if |s| >= 2 {
        assert IsDigit(s[1]);
      }
    }
    DigitPrefixOfDigits(s);
    DigitsValueOfNatToString(n);
  }

  lemma JsParseIntOfNegative(n: int)
    requires n < 0
    ensures JsParseInt(IntToString(n)) == Some(n)
  {
    var k: nat := -n;
    NoHexPrefixInNatToString(k);
    DigitsValueOfNatToString(k);
    JsParseIntOfMinusRendering(IntToString(n), NatToString(k));
  }

  /** A decimal rendering never starts with `0x`. */
  lemma NoHexPrefixInNatToString(k: nat)
    ensures !HasHexPrefix(NatToString(k))
  {
    var d := NatToString(k);
    if |d| >= 2 {
      assert IsDigit(d[1]);
    }
  }

  /** The rendering of a negative number is read as the negated value of its digits. */
  lemma JsParseIntOfMinusRendering(s: string, d: string)
    requires s == "-" + d && |d| >= 1 && AllDigits(d) && !HasHexPrefix(d)
    ensures JsParseInt(s) == Some(-(DigitsValue(d) as int))
  {
    JsParseIntOfMinusDigits(d);
  }

  /** A minus followed by decimal digits, not read as hexadecimal, is the negated value of the digits. */
  lemma JsParseIntOfMinusDigits(d: string)
    requires |d| >= 1 && AllDigits(d) && !HasHexPrefix(d)
    ensures JsParseInt("-" + d) == Some(-(DigitsValue(d) as int))
  {
    var s := "-" + d;
    JsTrimStartKeeps(s);
    assert s[1..] == d;
    DigitPrefixOfDigits(d);
  }

  // ---------------------------------------------------------------------------
  // Trimming and case

  /** The white space and line terminators of ECMAScript, which `String.prototype.trim` removes. */
  predicate IsJsSpace(c: char)
  {
    c == ' ' || c == '\t' || c == '\n' || c == '\r' || c == '\U{0B}' || c == '\U{0C}'
    || c == '\U{A0}' || c == '\U{1680}' || ('\U{2000}' <= c <= '\U{200A}')
    || c == '\U{2028}' || c == '\U{2029}' || c == '\U{202F}' || c == '\U{205F}'
    || c == '\U{3000}' || c == '\U{FEFF}'
  }

  function JsTrimStart(s: string): (r: string)
    ensures |r| <= |s| && r == s[|s| - |r|..]
    ensures r == [] || !IsJsSpace(r[0])
    ensures forall i :: 0 <= i < |s| - |r| ==> IsJsSpace(s[i])
  {
    if s != [] && IsJsSpace(s[0]) then JsTrimStart(s[1..]) else s
  }

  /** A string that does not start with white space is its own trimStart. */
  lemma JsTrimStartKeeps(s: string)
    requires s != [] && !IsJsSpace(s[0])
    ensures JsTrimStart(s) == s
  {
  }

  function JsTrimEnd(s: string): (r: string)
    ensures |r| <= |s| && r == s[..|r|]
    ensures r == [] || !IsJsSpace(r[|r| - 1])
    ensures forall i :: |r| <= i < |s| ==> IsJsSpace(s[i])
  {
    if s != [] && IsJsSpace(s[|s| - 1]) then JsTrimEnd(s[..|s| - 1]) else s
  }

  /** `s.trim()` in JavaScript. */
  function JsTrim(s: string): string
  {
    JsTrimEnd(JsTrimStart(s))
  }

  /** A string trims to "" exactly when it is all white space. */
  lemma JsTrimEmpty(s: string)
    ensures JsTrim(s) == "" <==> forall i :: 0 <= i < |s| ==> IsJsSpace(s[i])
  {
    var t := JsTrimStart(s);
    if JsTrim(s) == "" {
      assert t == [];
      forall i | 0 <= i < |s| ensures IsJsSpace(s[i]) {
        assert i < |s| - |t|;
      }
    } else {
      assert JsTrim(s)[0] == t[0];
      assert t[0] == s[|s| - |t|];
    }
  }

  /** Trimming a second time changes nothing. */
  lemma JsTrimIdempotent(s: string)
    ensures JsTrim(JsTrim(s)) == JsTrim(s)
  {
    var t := JsTrim(s);
    if t != [] {
      assert t[0] == JsTrimStart(s)[0];
      assert JsTrimStart(t) == t;
    }
  }

  /** `s.trim()` in Java: every character up to U+0020 is removed at both ends. */
  function JavaTrim(s: string): (r: string)
    ensures |r| <= |s|
    ensures r == [] || (r[0] > ' ' && r[|r| - 1] > ' ')
  {
    if s == [] then s
    else if s[0] <= ' ' then JavaTrim(s[1..])
    else if s[|s| - 1] <= ' ' then JavaTrim(s[..|s| - 1])
    else s
  }

  function ToLowerChar(c: char): char
  {
    if 'A' <= c <= 'Z' then (c as int + 32) as char else c
  }

  /** `toLowerCase()` restricted to ASCII letters. */
  function ToLower(s: string): (r: string)
    ensures |r| == |s|
    ensures forall i :: 0 <= i < |s| ==> r[i] == ToLowerChar(s[i])
  {
    if s == [] then [] else [ToLowerChar(s[0])] + ToLower(s[1..])
  }

  // ---------------------------------------------------------------------------
  // Searching, splitting, joining

  predicate StartsWith(s: string, prefix: string)
  {
    |prefix| <= |s| && s[..|prefix|] == prefix
  }

  /** `s LIKE '%q%'` with no wildcard inside q: q occurs somewhere in s. */
  predicate Contains(s: string, q: string)
  {
    exists i :: 0 <= i <= |s| && StartsWith(s[i..], q)
  }

  /** `s.split(sep)` for a one-character separator: the pieces between separators. */
  function Split(s: string, sep: char): (parts: seq<string>)
    ensures |parts| >= 1
    ensures forall i :: 0 <= i < |parts| ==> sep !in parts[i]
  {
    if s == [] then [""]
    else
      var rest := Split(s[1..], sep);
      if s[0] == sep then [""] + rest
      else [[s[0]] + rest[0]] + rest[1..]
  }

  /** `parts.join(sep)`, as SQL GROUP_CONCAT produces with separator ','. */
  function Join(parts: seq<string>, sep: char): string
    requires |parts| >= 1
  {
    if |parts| == 1 then parts[0] else parts[0] + [sep] + Join(parts[1..], sep)
  }

  lemma {:induction false} SplitPrefix(p: string, sep: char, s: string)
    requires sep !in p
    ensures Split(p + [sep] + s, sep) == [p] + Split(s, sep)
    ensures Split(p, sep) == [p]
  {
    if p == [] {
      assert p + [sep] + s == [sep] + s;
      assert ([sep] + s)[1..] == s;
    } else {
      SplitPrefix(p[1..], sep, s);
      assert (p + [sep] + s)[1..] == p[1..] + [sep] + s;
      assert [p[0]] + p[1..] == p;
    }
  }

  /** Splitting undoes joining when no piece contains the separator. */
  lemma {:induction false} SplitJoin(parts: seq<string>, sep: char)
    requires |parts| >= 1
    requires forall i :: 0 <= i < |parts| ==> sep !in parts[i]
    ensures Split(Join(parts, sep), sep) == parts
  {
    if |parts| == 1 {
      SplitPrefix(parts[0], sep, "");
    } else {
      SplitJoin(parts[1..], sep);
      SplitPrefix(parts[0], sep, Join(parts[1..], sep));
      assert [parts[0]] + parts[1..] == parts;
    }
  }

  /** `s.split(sep).pop()`: the text after the last separator, or all of s. */
  function LastPiece(s: string, sep: char): (r: string)
    ensures sep !in r
    ensures |r| <= |s| && r == s[|s| - |r|..]
    ensures |r| < |s| ==> s[|s| - |r| - 1] == sep
  {
    if s == [] then []
    else if s[|s| - 1] == sep then []
    else LastPiece(s[..|s| - 1], sep) + [s[|s| - 1]]
  }

  /** The piece after the last separator is what follows it when no separator comes later. */
  lemma {:induction false} LastPieceAfter(p: string, sep: char, e: string)
    requires sep !in e
    ensures LastPiece(p + [sep] + e, sep) == e
  {
    var s := p + [sep] + e;
    if e != [] {
      var e' := e[..|e| - 1];
      LastPieceAfter(p, sep, e');
      assert s[..|s| - 1] == p + [sep] + e';
      assert e' + [e[|e| - 1]] == e;
    }
  }

  /** A string without the separator is its own last piece. */
  lemma LastPieceWhole(s: string, sep: char)
    requires sep !in s
    ensures LastPiece(s, sep) == s
  {
    assert forall i :: 0 <= i < |s| ==> s[i] != sep;
  }

  /** Lower-casing maps '.' only from '.'. */
  lemma ToLowerKeepsDots(s: string)
    ensures forall i :: 0 <= i < |s| ==> (ToLower(s)[i] == '.' <==> s[i] == '.')
  {
  }

  /** Lower-casing twice is lower-casing once. */
  lemma ToLowerIdempotent(s: string)
    ensures ToLower(ToLower(s)) == ToLower(s)
  {
  }
}
