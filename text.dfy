/** String helpers shared by the Python routes and the JavaScript pages. */
module Text {
  import opened Base

  // ---------------------------------------------------------------------------
  // Decimal digits
  // ---------------------------------------------------------------------------

  predicate IsDigit(c: char) {
    '0' <= c <= '9'
  }

  predicate AllDigits(s: string) {
    forall i :: 0 <= i < |s| ==> IsDigit(s[i])
  }

  function DigitValue(c: char): (d: nat)
    requires IsDigit(c)
    ensures d < 10
  {
    (c as int) - ('0' as int)
  }

  function DigitChar(d: nat): (c: char)
    requires d < 10
    ensures IsDigit(c) && DigitValue(c) == d
  {
    (('0' as int) + d) as char
  }

  /** A digit string contains no character that is not a digit. */
  lemma DigitsExclude(s: string, c: char)
    requires AllDigits(s) && !IsDigit(c)
    ensures c !in s
  {
  }

  /** The number a string of decimal digits denotes, most significant digit first. */
  function DigitsValue(s: string): nat
    requires AllDigits(s)
  {
    if s == [] then 0 else DigitsValue(s[..|s| - 1]) * 10 + DigitValue(s[|s| - 1])
  }

  /** Decimal rendering of a natural number without leading zeros (Python `str`, JS template). */
  function NatToString(n: nat): (s: string)
    ensures |s| > 0 && AllDigits(s)
    ensures n >= 10 <==> |s| > 1
  {
    if n < 10 then [DigitChar(n)] else NatToString(n / 10) + [DigitChar(n % 10)]
  }

  /** Decimal rendering of any integer, with a leading '-' for negatives. */
  function IntToString(n: int): (s: string)
    ensures |s| > 0
    ensures n < 0 <==> s[0] == '-'
  {
    if n < 0 then "-" + NatToString(-n) else NatToString(n)
  }

  /** Parsing the decimal rendering gives the number back. */
  lemma {:induction false} NatToStringRoundTrip(n: nat)
    ensures DigitsValue(NatToString(n)) == n
  {
    if n >= 10 {
      var s := NatToString(n);
      NatToStringRoundTrip(n / 10);
      assert s[..|s| - 1] == NatToString(n / 10);
    }
  }

  /** Two-digit, zero-padded rendering (`strftime('%m')`, `%H`, `%M`). */
  function Pad2(n: nat): (s: string)
    requires n < 100
    ensures |s| == 2 && AllDigits(s) && DigitsValue(s) == n
  {
    var s := [DigitChar(n / 10), DigitChar(n % 10)];
    assert s[..1] == [DigitChar(n / 10)] && s[..1][..0] == [];
    assert DigitsValue(s[..1]) == n / 10;
    assert DigitsValue(s) == (n / 10) * 10 + n % 10;
    s
  }

  // ---------------------------------------------------------------------------
  // Splitting on a separator character (Python `str.split(c)`, JS `split(c)`)
  // ---------------------------------------------------------------------------

  function Split(s: string, sep: char): (parts: seq<string>)
    ensures |parts| >= 1
    ensures forall k :: 0 <= k < |parts| ==> sep !in parts[k]
  {
    if s == [] then [""]
    else
      var rest := Split(s[1..], sep);
      if s[0] == sep then [""] + rest else [[s[0]] + rest[0]] + rest[1..]
  }

  /** Joins parts with the separator between them; the inverse of Split. */
  function Join(parts: seq<string>, sep: char): string
    requires |parts| >= 1
  {
    if |parts| == 1 then parts[0] else parts[0] + [sep] + Join(parts[1..], sep)
  }

  /** Splitting loses nothing: joining the parts restores the string. This is the standalone
      round-trip of `Split`; the month argument's own round-trip, which splits a rendered
      `YYYY-MM`, goes the other way and is AdminReport.MonthArgRoundTrip. */
  lemma {:induction false} SplitJoin(s: string, sep: char)
    ensures Join(Split(s, sep), sep) == s
  {
    if s != [] {
      SplitJoin(s[1..], sep);
      var rest := Split(s[1..], sep);
      if s[0] == sep {
        assert Split(s, sep)[1..] == rest;
      } else {
        var parts := Split(s, sep);
        if |rest| > 1 {
          assert parts[1..] == rest[1..];
        }
      }
    }
  }

  /** A prefix free of the separator, followed by the separator, becomes the first part. */
  lemma {:induction false} SplitAfter(a: string, sep: char, b: string)
    requires sep !in a
    ensures Split(a + [sep] + b, sep) == [a] + Split(b, sep)
  {
    if a != [] {
      SplitAfter(a[1..], sep, b);
      assert (a + [sep] + b)[1..] == a[1..] + [sep] + b;
      assert a[0] != sep && [a[0]] + a[1..] == a;
    } else {
      assert a + [sep] + b == [sep] + b;
    }
  }

  /** A string free of the separator is one part. */
  lemma {:induction false} SplitNone(a: string, sep: char)
    requires sep !in a
    ensures Split(a, sep) == [a]
  {
    if a != [] {
      SplitNone(a[1..], sep);
      assert a[0] != sep && [a[0]] + a[1..] == a;
    }
  }

  // ---------------------------------------------------------------------------
  // Ordering of strings by character codes (Python `<` on str, JS `<` on strings)
  // ---------------------------------------------------------------------------

  /** Lexicographic order: a proper prefix comes first, else the first differing character decides. */
  predicate StrLess(a: string, b: string)
    decreases |a|
  {
    if a == [] then b != []
    else if b == [] then false
    else if a[0] != b[0] then a[0] < b[0]
    else StrLess(a[1..], b[1..])
  }

  predicate StrLessEq(a: string, b: string) {
    StrLess(a, b) || a == b
  }

  lemma {:induction false} StrLessTotal(a: string, b: string)
    ensures StrLess(a, b) || a == b || StrLess(b, a)
    decreases |a|
  {
    if a != [] && b != [] && a[0] == b[0] {
      StrLessTotal(a[1..], b[1..]);
      if a[1..] == b[1..] {
        assert a == [a[0]] + a[1..] && b == [b[0]] + b[1..];
      }
    }
  }

  lemma {:induction false} StrLessTransitive(a: string, b: string, c: string)
    requires StrLess(a, b) && StrLess(b, c)
    ensures StrLess(a, c)
    decreases |a|
  {
    if a != [] && a[0] == b[0] && b[0] == c[0] {
      StrLessTransitive(a[1..], b[1..], c[1..]);
    }
  }

  lemma {:induction false} StrLessIrreflexive(a: string)
    ensures !StrLess(a, a)
    decreases |a|
  {
    if a != [] {
      StrLessIrreflexive(a[1..]);
    }
  }

  // ---------------------------------------------------------------------------
  // Character classes
  // ---------------------------------------------------------------------------

  /** ASCII upper-casing of one character; every other character is kept. */
  function UpperChar(c: char): (u: char)
    ensures 'a' <= c <= 'z' ==> 'A' <= u <= 'Z' && u as int == c as int - 32
    ensures !('a' <= c <= 'z') ==> u == c
  {
    if 'a' <= c <= 'z' then ((c as int) - 32) as char else c
  }

  /** JavaScript WhiteSpace and LineTerminator code points: what `trim()` strips and `\s` matches. */
  predicate IsSpace(c: char) {
    c == '\t' || c == '\n' || c == '\U{000B}' || c == '\U{000C}' || c == '\r' || c == ' '
    || c == '\U{00A0}' || c == '\U{1680}' || ('\U{2000}' <= c <= '\U{200A}')
    || c == '\U{2028}' || c == '\U{2029}' || c == '\U{202F}' || c == '\U{205F}'
    || c == '\U{3000}' || c == '\U{FEFF}'
  }

  /** Python whitespace (`str.isspace`): what `strip()` and `int()` skip. */
  predicate IsPySpace(c: char) {
    ('\t' <= c <= '\r') || ('\U{001C}' <= c <= '\U{001F}') || c == ' ' || c == '\U{0085}'
    || c == '\U{00A0}' || c == '\U{1680}' || ('\U{2000}' <= c <= '\U{200A}')
    || c == '\U{2028}' || c == '\U{2029}' || c == '\U{202F}' || c == '\U{205F}' || c == '\U{3000}'
  }

  /** Drops the leading characters that satisfy `ws`. */
  function TrimLeft(s: string, ws: char -> bool): (r: string)
    ensures |r| <= |s| && r == s[|s| - |r|..]
    ensures r == [] || !ws(r[0])
    ensures forall i :: 0 <= i < |s| - |r| ==> ws(s[i])
  {
    if s != [] && ws(s[0]) then TrimLeft(s[1..], ws) else s
  }

  /** Drops the trailing characters that satisfy `ws`. */
  function TrimRight(s: string, ws: char -> bool): (r: string)
    ensures |r| <= |s| && r == s[..|r|]
    ensures r == [] || !ws(r[|r| - 1])
    ensures forall i :: |r| <= i < |s| ==> ws(s[i])
  {
    if s != [] && ws(s[|s| - 1]) then TrimRight(s[..|s| - 1], ws) else s
  }

  /** JavaScript `trimStart`. */
  function TrimStart(s: string): string {
    TrimLeft(s, IsSpace)
  }

  /** JavaScript `String.prototype.trim`. */
  function Trim(s: string): string {
    TrimRight(TrimLeft(s, IsSpace), IsSpace)
  }

  /** Python `str.strip()` with no argument. */
  function Strip(s: string): string {
    TrimRight(TrimLeft(s, IsPySpace), IsPySpace)
  }

  /** A string trims to the empty string exactly when it is all white space. */
  lemma TrimEmptyIff(s: string)
    ensures Trim(s) == "" <==> forall i :: 0 <= i < |s| ==> IsSpace(s[i])
  {
  }

  /** A string with no white space at either end is its own strip. */
  lemma StripNoSpace(s: string)
    requires s == [] || (!IsPySpace(s[0]) && !IsPySpace(s[|s| - 1]))
    ensures Strip(s) == s
  {
  }

  // ---------------------------------------------------------------------------
  // JavaScript parseInt (radix 10)
  // ---------------------------------------------------------------------------

  /** The longest prefix of decimal digits. */
  function LeadingDigits(s: string): (d: string)
    ensures |d| <= |s| && d == s[..|d|] && AllDigits(d)
    ensures |d| < |s| ==> !IsDigit(s[|d|])
  {
    if s != [] && IsDigit(s[0]) then [s[0]] + LeadingDigits(s[1..]) else ""
  }

  /** A hexadecimal digit, either case. */
  predicate IsHexDigit(c: char) {
    IsDigit(c) || 'a' <= c <= 'f' || 'A' <= c <= 'F'
  }

  predicate AllHexDigits(s: string) {
    forall i :: 0 <= i < |s| ==> IsHexDigit(s[i])
  }

  function HexDigitValue(c: char): (d: nat)
    requires IsHexDigit(c)
    ensures d < 16
    ensures IsDigit(c) ==> d == DigitValue(c)
  {
    if IsDigit(c) then DigitValue(c)
    else if 'a' <= c <= 'f' then (c as int) - ('a' as int) + 10
    else (c as int) - ('A' as int) + 10
  }

  /** The longest prefix of hexadecimal digits. */
  function LeadingHexDigits(s: string): (d: string)
    ensures |d| <= |s| && d == s[..|d|]
    ensures AllHexDigits(d)
    ensures |d| < |s| ==> !IsHexDigit(s[|d|])
  {
    if s != [] && IsHexDigit(s[0]) then [s[0]] + LeadingHexDigits(s[1..]) else ""
  }

  /** The number a string of hexadecimal digits denotes, most significant digit first. */
  function HexValue(s: string): nat
    requires AllHexDigits(s)
  {
    if s == [] then 0 else HexValue(s[..|s| - 1]) * 16 + HexDigitValue(s[|s| - 1])
  }

  /** Text that `parseInt` without a radix reads in base 16: it starts with `0x` or `0X`. */
  predicate HexPrefixed(body: string) {
    |body| >= 2 && body[0] == '0' && (body[1] == 'x' || body[1] == 'X')
  }

  /** The sign `parseInt` applies: negative exactly after a leading '-'. */
  function Signed(t: string, n: nat): int {
    if t != [] && t[0] == '-' then 0 - n else n
  }

  /** Leading white space and one sign are skipped, then the longest run of decimal digits is
      read; anything after it is ignored. `None` is "no number". */
  function LeadingDecimal(s: string): (r: Option<int>)
    ensures r.None? <==> LeadingDigits(SignFree(TrimStart(s))) == ""
    ensures r.Some? ==> r.value == Signed(TrimStart(s), DigitsValue(LeadingDigits(SignFree(TrimStart(s)))))
  {
    var t := TrimStart(s);
    var digits := LeadingDigits(SignFree(t));
    if digits == "" then None else Some(Signed(t, DigitsValue(digits)))
  }

  /** `parseInt(s)` with no radix: `None` is NaN. After the white space and the sign, a `0x`
      or `0X` prefix switches to base 16 and the longest run of hexadecimal digits after it
      is read (NaN when there is none); otherwise the text is read as `LeadingDecimal` does. */
  function ParseInt(s: string): (r: Option<int>)
    ensures !HexPrefixed(SignFree(TrimStart(s))) ==> r == LeadingDecimal(s)
    ensures HexPrefixed(SignFree(TrimStart(s))) ==>
      var hex := LeadingHexDigits(SignFree(TrimStart(s))[2..]);
      r == if hex == "" then None else Some(Signed(TrimStart(s), HexValue(hex)))
  {
    var t := TrimStart(s);
    var body := SignFree(t);
    if HexPrefixed(body) then
      var hex := LeadingHexDigits(body[2..]);
      if hex == "" then None else Some(Signed(t, HexValue(hex)))
    else LeadingDecimal(s)
  }

  /** `parseInt` reads `0x` followed by hexadecimal digits in base 16, whichever sign
      precedes it. */
  lemma ParseIntHex(sign: string, digits: string)
    requires sign == "" || sign == "-" || sign == "+"
    requires digits != [] && AllHexDigits(digits)
    ensures ParseInt(sign + "0x" + digits) == Some(if sign == "-" then 0 - HexValue(digits) else HexValue(digits))
  {
    var body := "0x" + digits;
    var t := sign + body;
    assert t == sign + "0x" + digits;
    assert body[2..] == digits;
    LeadingHexDigitsAll(digits);
    AfterSign(sign, body);
    ParseIntOfTrimmed(t);
    assert Signed(t, HexValue(digits)) == if sign == "-" then 0 - HexValue(digits) else HexValue(digits);
  }

  /** A bare `0x` with no hexadecimal digit after it is NaN, not zero. */
  lemma ParseIntBareHexPrefix(rest: string)
    requires rest == [] || !IsHexDigit(rest[0])
    ensures ParseInt("0x" + rest) == None
  {
    var s := "0x" + rest;
    assert SignFree(s) == s;
    assert s[2..] == rest;
    ParseIntOfTrimmed(s);
  }

  /** A sign in front of text that starts with neither a sign nor white space. */
  lemma AfterSign(sign: string, body: string)
    requires sign == "" || sign == "-" || sign == "+"
    requires body != [] && body[0] != '-' && body[0] != '+' && !IsSpace(body[0])
    ensures var t := sign + body;
      && t != [] && !IsSpace(t[0]) && SignFree(t) == body
      && (t[0] == '-' <==> sign == "-")
  {
    var t := sign + body;
    if sign == "" { assert t == body; } else { assert t[1..] == body; }
  }

  /** `parseInt` of text that starts with a hexadecimal prefix after an optional sign. */
  lemma ParseIntOfTrimmed(t: string)
    requires t != [] && !IsSpace(t[0]) && HexPrefixed(SignFree(t))
    ensures var hex := LeadingHexDigits(SignFree(t)[2..]);
      ParseInt(t) == if hex == "" then None else Some(Signed(t, HexValue(hex)))
  {
    TrimLeftStop(t, IsSpace);
  }

  /** "10" read in base 16 is sixteen. */
  lemma HexTen()
    ensures HexValue("10") == 16
  {
    assert "10"[..1] == "1";
  }

  /** The empty string is NaN. */
  lemma ParseIntEmpty()
    ensures ParseInt("") == None
  {
    assert TrimStart("") == "";
  }

  lemma {:induction false} LeadingHexDigitsAll(s: string)
    requires AllHexDigits(s)
    ensures LeadingHexDigits(s) == s
  {
    if s != [] {
      LeadingHexDigitsAll(s[1..]);
    }
  }

  /** Python `int(s)` for a decimal string: surrounding white space and one sign are allowed,
      and everything in between must be digits. `None` is the ValueError. */
  function PyInt(s: string): (r: Option<int>)
    ensures r.Some? ==> var body := SignFree(Strip(s)); body != [] && AllDigits(body)
    ensures r.None? ==> var body := SignFree(Strip(s)); body == [] || !AllDigits(body)
  {
    var t := Strip(s);
    var body := SignFree(t);
    if body == [] || !AllDigits(body) then None
    else if t[0] == '-' then Some(0 - DigitsValue(body))
    else Some(DigitsValue(body))
  }

  /** `int` reads back the decimal rendering of a natural number. */
  lemma PyIntOfDigits(s: string)
    requires s != [] && AllDigits(s)
    ensures PyInt(s) == Some(DigitsValue(s))
  {
    StripNoSpace(s);
  }

  /** The text after an optional leading sign. */
  function SignFree(t: string): string {
    if t != [] && (t[0] == '-' || t[0] == '+') then t[1..] else t
  }

  /** parseInt reads a plain digit string as the number it denotes. */
  lemma ParseIntOfDigits(s: string)
    requires s != [] && AllDigits(s)
    ensures ParseInt(s) == Some(DigitsValue(s))
  {
    LeadingDecimalOfDigits(s);
    assert !HexPrefixed(s) by { if |s| >= 2 { assert IsDigit(s[1]); } }
  }

  /** The decimal reading of a plain digit string is the number it denotes. */
  lemma LeadingDecimalOfDigits(s: string)
    requires s != [] && AllDigits(s)
    ensures TrimStart(s) == s && SignFree(s) == s
    ensures LeadingDecimal(s) == Some(DigitsValue(s))
  {
    assert !IsSpace(s[0]);
    TrimLeftStop(s, IsSpace);
    LeadingDigitsAll(s);
  }

  /** Nothing is trimmed from a text that does not start with white space. */
  lemma TrimLeftStop(s: string, ws: char -> bool)
    requires s == [] || !ws(s[0])
    ensures TrimLeft(s, ws) == s
  {
  }

  lemma {:induction false} LeadingDigitsAll(s: string)
    requires AllDigits(s)
    ensures LeadingDigits(s) == s
  {
    if s != [] {
      LeadingDigitsAll(s[1..]);
    }
  }

  /** parseInt stops at the first non-digit, so text after it does not matter. */
  lemma {:induction false} LeadingDigitsStop(d: string, rest: string)
    requires AllDigits(d)
    requires rest == [] || !IsDigit(rest[0])
    ensures LeadingDigits(d + rest) == d
  {
    if d != [] {
      assert (d + rest)[1..] == d[1..] + rest;
      LeadingDigitsStop(d[1..], rest);
    }
  }
}
