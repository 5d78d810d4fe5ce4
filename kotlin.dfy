/**
 * The parts of Kotlin's arithmetic and text library that the app code relies
 * on: 32/64-bit two's-complement wrap-around, truncating division, `coerceIn`,
 * `Char` classification, `trim`/`isBlank`, `lowercase` and `toIntOrNull`.
 */
module Kotlin {
  import opened Wrappers

  const INT_MIN: int := -0x8000_0000
  const INT_MAX: int := 0x7fff_ffff
  const LONG_MIN: int := -0x8000_0000_0000_0000
  const LONG_MAX: int := 0x7fff_ffff_ffff_ffff

  predicate InInt(x: int) { INT_MIN <= x <= INT_MAX }
  predicate InLong(x: int) { LONG_MIN <= x <= LONG_MAX }

  /** The value an exact result takes in a Kotlin `Int` (wrap-around on overflow). */
  function WrapInt(x: int): (r: int)
    ensures InInt(r)
    ensures (x - r) % 0x1_0000_0000 == 0
    ensures InInt(x) ==> r == x
  {
    var m := x % 0x1_0000_0000;
    if m > INT_MAX then m - 0x1_0000_0000 else m
  }

  /** The value an exact result takes in a Kotlin `Long` (wrap-around on overflow). */
  function WrapLong(x: int): (r: int)
    ensures InLong(r)
    ensures (x - r) % 0x1_0000_0000_0000_0000 == 0
    ensures InLong(x) ==> r == x
  {
    var m := x % 0x1_0000_0000_0000_0000;
    if m > LONG_MAX then m - 0x1_0000_0000_0000_0000 else m
  }

  function Abs(x: int): nat { if x < 0 then -x else x }

  function Min(a: int, b: int): int { if a <= b then a else b }
  function Max(a: int, b: int): int { if a >= b then a else b }

  /** Kotlin `/` on integers: the quotient truncated toward zero. */
  function KDiv(a: int, b: int): int
    requires b != 0
  {
    var q := Abs(a) / Abs(b);
    if (a < 0) == (b < 0) then q else -q
  }

  /** Kotlin `%` on integers: the remainder takes the sign of the dividend. */
  function KMod(a: int, b: int): (r: int)
    requires b != 0
    ensures a == KDiv(a, b) * b + r
    ensures Abs(r) < Abs(b)
    ensures a >= 0 ==> r >= 0
    ensures a <= 0 ==> r <= 0
  {
    KDivModLemma(a, b);
    a - KDiv(a, b) * b
  }

  lemma KDivModLemma(a: int, b: int)
    requires b != 0
    ensures Abs(a - KDiv(a, b) * b) < Abs(b)
    ensures a >= 0 ==> a - KDiv(a, b) * b >= 0
    ensures a <= 0 ==> a - KDiv(a, b) * b <= 0
  {
    var A: int, B: int := Abs(a), Abs(b);
    var q: int := A / B;
    EuclidNonNegative(A, B);
    MulSigns(q, B);
    var p := q * B;
    assert 0 <= A - p < B;
    if a >= 0 && b > 0 {
      assert KDiv(a, b) * b == p && a == A;
    } else if a < 0 && b < 0 {
      assert KDiv(a, b) * b == q * (-B) == -p && a == -A;
    } else if a >= 0 {
      assert KDiv(a, b) * b == (-q) * (-B) == p && a == A;
    } else {
      assert KDiv(a, b) * b == (-q) * B == -p && a == -A;
    }
  }

  lemma MulSigns(x: int, y: int)
    ensures (-x) * (-y) == x * y && (-x) * y == -(x * y) && x * (-y) == -(x * y)
  {
  }

  lemma EuclidNonNegative(A: nat, B: nat)
    requires B > 0
    ensures 0 <= A - (A / B) * B < B
  {
  }

  /** Kotlin `coerceIn(lo, hi)`; Kotlin throws when `lo > hi`. */
  function CoerceIn(x: int, lo: int, hi: int): (r: int)
    requires lo <= hi
    ensures lo <= r <= hi
    ensures lo <= x <= hi ==> r == x
    ensures x < lo ==> r == lo
    ensures x > hi ==> r == hi
  {
    if x < lo then lo else if x > hi then hi else x
  }

  // ----- Char classification -----

  /**
   * `Char.isWhitespace()`: the Unicode space separators (Zs, Zl, Zp) and the
   * controls U+0009..U+000D and U+001C..U+001F.
   */
  predicate IsWhitespace(c: char) {
    ('\t' <= c <= '\r') || ('\U{1C}' <= c <= '\U{1F}') || c == ' ' || c == '\U{A0}'
    || c == '\U{1680}' || ('\U{2000}' <= c <= '\U{200A}') || c == '\U{2028}' || c == '\U{2029}'
    || c == '\U{202F}' || c == '\U{205F}' || c == '\U{3000}'
  }

  /** `Char.isISOControl()`: U+0000..U+001F and U+007F..U+009F. */
  predicate IsISOControl(c: char) {
    c <= '\U{1F}' || ('\U{7F}' <= c <= '\U{9F}')
  }

  /** `Char.isDigit()` on the Latin-1 range (the only decimal digits there are ASCII). */
  predicate IsDigit(c: char) { '0' <= c <= '9' }

  /** `Char.isUpperCase()` on the Latin-1 range. */
  predicate IsUpperCase(c: char) {
    ('A' <= c <= 'Z') || ('\U{C0}' <= c <= '\U{D6}') || ('\U{D8}' <= c <= '\U{DE}')
  }

  /** `Char.isLowerCase()` on the Latin-1 range (including the ordinal indicators). */
  predicate IsLowerCase(c: char) {
    ('a' <= c <= 'z') || c == '\U{AA}' || c == '\U{B5}' || c == '\U{BA}'
    || ('\U{DF}' <= c <= '\U{F6}') || ('\U{F8}' <= c <= '\U{FF}')
  }

  /** `Char.isLetter()` on the Latin-1 range: every letter there is cased. */
  predicate IsLetter(c: char) { IsUpperCase(c) || IsLowerCase(c) }

  predicate IsLetterOrDigit(c: char) { IsLetter(c) || IsDigit(c) }

  /** `Char.lowercaseChar()` on the Latin-1 range; other characters are kept. */
  function LowercaseChar(c: char): char {
    if IsUpperCase(c) then (c as int + 0x20) as char else c
  }

  function Lowercase(s: string): string {
    seq(|s|, i requires 0 <= i < |s| => LowercaseChar(s[i]))
  }

  /** Lower-casing leaves a string without upper-case letters unchanged. */
  lemma LowercaseOfNoUpper(s: string)
    requires forall i :: 0 <= i < |s| ==> !IsUpperCase(s[i])
    ensures Lowercase(s) == s
  {
  }

  // ----- Strings -----

  predicate StartsWith(s: string, prefix: string) {
    |prefix| <= |s| && s[..|prefix|] == prefix
  }

  predicate EndsWith(s: string, suffix: string) {
    |suffix| <= |s| && s[|s| - |suffix|..] == suffix
  }

  /** `sub in s` / `s.contains(sub)`. */
  predicate Contains(s: string, sub: string)
    decreases |s|
  {
    StartsWith(s, sub) || (|s| > 0 && Contains(s[1..], sub))
  }

  /** A string cannot contain a text that has a character the string lacks. */
  lemma {:induction false} NotContainsMissingChar(s: string, sub: string, c: char)
    requires c in sub && c !in s
    ensures !Contains(s, sub)
    decreases |s|
  {
    var k :| 0 <= k < |sub| && sub[k] == c;
    if |sub| <= |s| {
      assert s[..|sub|][k] == s[k] && s[k] in s;
    }
    if |s| > 0 {
      assert forall k | 0 <= k < |s| - 1 :: s[1..][k] == s[k + 1];
      NotContainsMissingChar(s[1..], sub, c);
    }
  }

  /** `substringBefore(delimiter)`: the text before the first `delimiter`, or all of `s`. */
  function SubstringBefore(s: string, delimiter: char): (r: string)
    ensures delimiter !in r
    ensures |r| <= |s| && r == s[..|r|]
    ensures delimiter !in s ==> r == s
    ensures delimiter in s ==> |r| < |s| && s[..|r| + 1] == r + [delimiter]
  {
    if |s| == 0 then ""
    else if s[0] == delimiter then ""
    else
      var t := SubstringBefore(s[1..], delimiter);
      assert delimiter in s[1..] ==> s[1..][..|t| + 1] == t + [delimiter];
      [s[0]] + t
  }

  /** `split(delimiter)`: the pieces between delimiters; always at least one. */
  function Split(s: string, delimiter: char): (r: seq<string>)
    ensures |r| > 0
    ensures forall i :: 0 <= i < |r| ==> delimiter !in r[i]
    decreases |s|
  {
    if delimiter !in s then [s]
    else
      var head := SubstringBefore(s, delimiter);
      [head] + Split(s[|head| + 1..], delimiter)
  }

  /** `joinToString(delimiter)`. */
  function Join(pieces: seq<string>, delimiter: char): string
    requires |pieces| > 0
  {
    if |pieces| == 1 then pieces[0] else pieces[0] + [delimiter] + Join(pieces[1..], delimiter)
  }

  /** Splitting loses nothing: joining the pieces again gives the text back. */
  lemma {:induction false} JoinSplit(s: string, delimiter: char)
    ensures Join(Split(s, delimiter), delimiter) == s
    decreases |s|
  {
    if delimiter in s {
      var head := SubstringBefore(s, delimiter);
      JoinSplit(s[|head| + 1..], delimiter);
      assert s == s[..|head| + 1] + s[|head| + 1..];
    }
  }

  /** Joining one more piece appends the delimiter and the piece. */
  lemma {:induction false} JoinSnoc(pieces: seq<string>, last: string, delimiter: char)
    requires |pieces| > 0
    ensures Join(pieces + [last], delimiter) == Join(pieces, delimiter) + [delimiter] + last
    decreases |pieces|
  {
    if |pieces| > 1 {
      assert (pieces + [last])[1..] == pieces[1..] + [last];
      JoinSnoc(pieces[1..], last, delimiter);
    }
  }

  /** Joining delimiter-free pieces and splitting again gives the pieces back. */
  lemma {:induction false} SplitJoin(pieces: seq<string>, delimiter: char)
    requires |pieces| > 0
    requires forall i :: 0 <= i < |pieces| ==> delimiter !in pieces[i]
    ensures Split(Join(pieces, delimiter), delimiter) == pieces
    decreases |pieces|
  {
    if |pieces| > 1 {
      SplitJoin(pieces[1..], delimiter);
      SplitCons(pieces[0], delimiter, Join(pieces[1..], delimiter));
      assert pieces == [pieces[0]] + pieces[1..];
    }
  }

  /** The text before the first delimiter of `head + delimiter + rest` is `head`. */
  lemma SubstringBeforeCons(head: string, delimiter: char, rest: string)
    requires delimiter !in head
    ensures SubstringBefore(head + [delimiter] + rest, delimiter) == head
  {
    var s := head + [delimiter] + rest;
    assert s[|head|] == delimiter;
    var r := SubstringBefore(s, delimiter);
    assert s[..|r| + 1] == r + [delimiter];
    assert s[|r|] == delimiter;
    if |r| != |head| {
      assert false;
    }
    assert s[..|head|] == head;
  }

  /** Splitting a text that starts with a delimiter-free piece yields that piece first. */
  lemma SplitCons(head: string, delimiter: char, rest: string)
    requires delimiter !in head
    ensures Split(head + [delimiter] + rest, delimiter) == [head] + Split(rest, delimiter)
  {
    var s := head + [delimiter] + rest;
    assert s[|head|] == delimiter;
    SubstringBeforeCons(head, delimiter, rest);
    assert s[|head| + 1..] == rest;
  }

  /** `isBlank()`: empty or whitespace only. */
  predicate IsBlank(s: string) {
    forall i :: 0 <= i < |s| ==> IsWhitespace(s[i])
  }

  function TrimStart(s: string): string
    decreases |s|
  {
    if |s| > 0 && IsWhitespace(s[0]) then TrimStart(s[1..]) else s
  }

  function TrimEnd(s: string): string
    decreases |s|
  {
    if |s| > 0 && IsWhitespace(s[|s| - 1]) then TrimEnd(s[..|s| - 1]) else s
  }

  /** `trim()`: drops whitespace at both ends. */
  function Trim(s: string): string {
    TrimEnd(TrimStart(s))
  }

  /** Neither end of `s` is whitespace. */
  predicate Trimmed(s: string) {
    |s| == 0 || (!IsWhitespace(s[0]) && !IsWhitespace(s[|s| - 1]))
  }

  /** The number of whitespace characters `s` starts with. */
  function LeadingBlank(s: string): (k: nat)
    ensures k <= |s|
    decreases |s|
  {
    if |s| > 0 && IsWhitespace(s[0]) then 1 + LeadingBlank(s[1..]) else 0
  }

  /** The length `s` keeps once the whitespace it ends with is dropped. */
  function KeptBeforeBlank(s: string): (k: nat)
    ensures k <= |s|
    decreases |s|
  {
    if |s| > 0 && IsWhitespace(s[|s| - 1]) then KeptBeforeBlank(s[..|s| - 1]) else |s|
  }

  lemma {:induction false} TrimStartSpec(s: string)
    ensures TrimStart(s) == s[LeadingBlank(s)..] && IsBlank(s[..LeadingBlank(s)])
    ensures |TrimStart(s)| > 0 ==> !IsWhitespace(TrimStart(s)[0])
    decreases |s|
  {
    if |s| > 0 && IsWhitespace(s[0]) {
      var t := s[1..];
      TrimStartSpec(t);
      var k := LeadingBlank(t);
      assert t[k..] == s[k + 1..];
      assert s[..k + 1] == [s[0]] + t[..k];
    } else {
      assert s[0..] == s;
    }
  }

  lemma {:induction false} TrimEndSpec(s: string)
    ensures TrimEnd(s) == s[..KeptBeforeBlank(s)] && IsBlank(s[KeptBeforeBlank(s)..])
    ensures |TrimEnd(s)| > 0 ==> !IsWhitespace(TrimEnd(s)[|TrimEnd(s)| - 1])
    decreases |s|
  {
    if |s| > 0 && IsWhitespace(s[|s| - 1]) {
      var t := s[..|s| - 1];
      TrimEndSpec(t);
      var k := KeptBeforeBlank(t);
      assert t[..k] == s[..k];
      assert s[k..] == t[k..] + [s[|s| - 1]];
    } else {
      assert s[..|s|] == s;
    }
  }

  /** A string with no whitespace at its first position survives `TrimEnd` with that property. */
  lemma {:induction false} TrimEndKeepsFirst(s: string)
    requires |s| > 0 && !IsWhitespace(s[0])
    ensures |TrimEnd(s)| > 0 && TrimEnd(s)[0] == s[0]
    decreases |s|
  {
    if IsWhitespace(s[|s| - 1]) {
      TrimEndKeepsFirst(s[..|s| - 1]);
    }
  }

  /** `trim()` removes a blank prefix and a blank suffix and leaves no whitespace at either end. */
  lemma TrimSpec(s: string)
    ensures Trimmed(Trim(s))
    ensures exists i, j :: 0 <= i <= j <= |s| && Trim(s) == s[i..j] && IsBlank(s[..i]) && IsBlank(s[j..])
  {
    var t := TrimStart(s);
    TrimStartSpec(s);
    TrimEndSpec(t);
    var i := LeadingBlank(s);
    var k := KeptBeforeBlank(t);
    assert Trim(s) == t[..k] == s[i..i + k];
    assert t[k..] == s[i + k..];
    if |Trim(s)| > 0 {
      assert |t| > 0 && !IsWhitespace(t[0]);
      TrimEndKeepsFirst(t);
    }
    assert 0 <= i <= i + k <= |s| && Trim(s) == s[i..i + k] && IsBlank(s[..i]) && IsBlank(s[i + k..]);
  }

  /** `trim()` is empty exactly when the string is blank. */
  lemma TrimEmptyIffBlank(s: string)
    ensures Trim(s) == [] <==> IsBlank(s)
  {
    TrimSpec(s);
    var i, j :| 0 <= i <= j <= |s| && Trim(s) == s[i..j] && IsBlank(s[..i]) && IsBlank(s[j..]);
    if Trim(s) == [] {
      forall k | 0 <= k < |s| ensures IsWhitespace(s[k]) {
        if k < i { assert s[k] == s[..i][k]; } else { assert s[k] == s[j..][k - j]; }
      }
    } else {
      assert !IsWhitespace(s[i]);
    }
  }

  lemma {:induction false} TrimStartOfTrimmed(s: string)
    requires |s| == 0 || !IsWhitespace(s[0])
    ensures TrimStart(s) == s
  {
  }

  /** Trimming a string that has no whitespace at its ends changes nothing. */
  lemma TrimOfTrimmed(s: string)
    requires Trimmed(s)
    ensures Trim(s) == s
  {
    TrimStartOfTrimmed(s);
  }

  // ----- Decimal numbers -----

  function DigitValue(c: char): nat requires IsDigit(c) { c as int - '0' as int }

  predicate AllDigits(s: string) { forall i :: 0 <= i < |s| ==> IsDigit(s[i]) }

  /** The value of a string of decimal digits, most significant first. */
  function DigitsValue(s: string): nat
    requires AllDigits(s)
    decreases |s|
  {
    if |s| == 0 then 0 else DigitsValue(s[..|s| - 1]) * 10 + DigitValue(s[|s| - 1])
  }

  /** The decimal digits of `n`, no leading zeros (`"0"` for zero). */
  function Digits(n: nat): (r: string)
    ensures |r| > 0 && AllDigits(r)
    decreases n
  {
    if n < 10 then [('0' as int + n) as char] else Digits(n / 10) + [('0' as int + n % 10) as char]
  }

  /** `Int.toString()` / `Long.toString()`. */
  function DecimalString(n: int): string {
    if n < 0 then "-" + Digits(-n) else Digits(n)
  }

  lemma {:induction false} DigitsValueOfDigits(n: nat)
    ensures DigitsValue(Digits(n)) == n
    decreases n
  {
    var d := Digits(n);
    if n >= 10 {
      DigitsValueOfDigits(n / 10);
      assert d[..|d| - 1] == Digits(n / 10);
    }
  }

  /**
   * The exact value of an optional sign followed by one or more decimal
   * digits, or None: the grammar `String.toIntOrNull()` accepts.
   */
  function ParseInteger(s: string): Option<int> {
    if |s| == 0 then None
    else
      var body := if s[0] == '-' || s[0] == '+' then s[1..] else s;
      if |body| == 0 || !AllDigits(body) then None
      else if s[0] == '-' then Some(-(DigitsValue(body) as int))
      else Some(DigitsValue(body))
  }

  /** `String.toIntOrNull()`: None also when the value does not fit in an `Int`. */
  function ToIntOrNull(s: string): (r: Option<int>)
    ensures r.Some? ==> InInt(r.value) && ParseInteger(s) == r
    ensures ParseInteger(s).Some? && InInt(ParseInteger(s).value) ==> r.Some?
  {
    match ParseInteger(s)
    case Some(v) => if InInt(v) then Some(v) else None
    case None => None
  }

  /** `String.toLongOrNull()`: None also when the value does not fit in a `Long`. */
  function ToLongOrNull(s: string): (r: Option<int>)
    ensures r.Some? ==> InLong(r.value) && ParseInteger(s) == r
    ensures ParseInteger(s).Some? && InLong(ParseInteger(s).value) ==> r.Some?
  {
    match ParseInteger(s)
    case Some(v) => if InLong(v) then Some(v) else None
    case None => None
  }

  /** Parsing reads back the decimal text of every integer. */
  lemma ParseDecimalString(n: int)
    ensures ParseInteger(DecimalString(n)) == Some(n)
  {
    if n < 0 {
      DigitsValueOfDigits(-n);
      assert DecimalString(n)[1..] == Digits(-n);
    } else {
      DigitsValueOfDigits(n);
      var d := Digits(n);
      assert d[0] != '-' && d[0] != '+' by { assert IsDigit(d[0]); }
    }
  }
}
