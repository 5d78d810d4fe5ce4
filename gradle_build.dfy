/**
 * The two helpers of app/build.gradle.kts: the Android version code computed from the
 * version name, and the lookup of signing settings in project properties or the
 * environment.
 */
module GradleBuild {
  import opened Wrappers
  import opened Kotlin

  /** `list.getOrNull(i)`. */
  function GetOrNull(xs: seq<string>, i: nat): (r: Option<string>)
    ensures r.Some? <==> i < |xs|
    ensures i < |xs| ==> r.value == xs[i]
  {
    if i < |xs| then Some(xs[i]) else None
  }

  /** `segments.getOrNull(i)?.toIntOrNull() ?: 0`. */
  function Segment(segments: seq<string>, i: nat): (r: int)
    ensures InInt(r)
    ensures i >= |segments| ==> r == 0
    ensures i < |segments| && ToIntOrNull(segments[i]).None? ==> r == 0
    ensures i < |segments| && ToIntOrNull(segments[i]).Some? ==> r == ToIntOrNull(segments[i]).value
  {
    match GetOrNull(segments, i)
    case Some(text) => ToIntOrNull(text).OrElse(0)
    case None => 0
  }

  /**
   * `String.toVersionCode()`: `major * 10000 + minor * 100 + patch` from the numeric part
   * before the first '-'. The arithmetic is 32-bit `Int`, which wraps around; wrapping
   * after every operation or once at the end gives the same value.
   */
  function ToVersionCode(name: string): (r: int)
    ensures InInt(r)
  {
    NumericVersionCode(SubstringBefore(name, '-'))
  }

  /** The code of the numeric part, "major.minor.patch". */
  function NumericVersionCode(numeric: string): (r: int)
    ensures InInt(r)
  {
    var segments := Split(numeric, '.');
    WrapInt(Segment(segments, 0) * 10000 + Segment(segments, 1) * 100 + Segment(segments, 2))
  }

  /** Everything from the first '-' on is ignored. */
  lemma VersionCodeIgnoresSuffix(numeric: string, suffix: string)
    requires '-' !in numeric
    ensures ToVersionCode(numeric + "-" + suffix) == ToVersionCode(numeric)
  {
    var name := numeric + "-" + suffix;
    assert name == numeric + ['-'] + suffix;
    SubstringBeforeCons(numeric, '-', suffix);
    assert SubstringBefore(name, '-') == SubstringBefore(numeric, '-');
  }

  /** Missing or non-numeric segments count as zero: a name without digits has code 0. */
  lemma VersionCodeWithoutNumbers(name: string)
    requires forall i :: 0 <= i < |name| ==> !IsDigit(name[i])
    ensures ToVersionCode(name) == 0
  {
    var segments := Split(SubstringBefore(name, '-'), '.');
    forall i: nat | i < |segments| ensures ToIntOrNull(segments[i]).None? {
      NoDigitsSegment(name, i);
    }
  }

  lemma NoDigitsSegment(name: string, i: nat)
    requires forall i :: 0 <= i < |name| ==> !IsDigit(name[i])
    requires i < |Split(SubstringBefore(name, '-'), '.')|
    ensures ToIntOrNull(Split(SubstringBefore(name, '-'), '.')[i]).None?
  {
    var numeric := SubstringBefore(name, '-');
    assert forall k | 0 <= k < |numeric| :: numeric[k] == name[k] && name[k] in name;
    SplitPiecesWithin(numeric, '.');
    var piece := Split(numeric, '.')[i];
    assert forall k | 0 <= k < |piece| :: piece[k] in numeric;
    if |piece| > 0 {
      var body := if piece[0] == '-' || piece[0] == '+' then piece[1..] else piece;
      if |body| > 0 { assert body[0] in piece; }
    }
  }

  /** Every character of a piece occurs in the text split. */
  lemma {:induction false} SplitPiecesWithin(s: string, delimiter: char)
    ensures forall i, k :: 0 <= i < |Split(s, delimiter)| && 0 <= k < |Split(s, delimiter)[i]| ==>
      Split(s, delimiter)[i][k] in s
    decreases |s|
  {
    if delimiter in s {
      var head := SubstringBefore(s, delimiter);
      var rest := s[|head| + 1..];
      SplitPiecesWithin(rest, delimiter);
      assert forall k | 0 <= k < |rest| :: rest[k] == s[|head| + 1 + k];
      assert forall k | 0 <= k < |head| :: head[k] == s[k];
    }
  }

  /** A non-empty run of decimal digits parses to its value. */
  lemma ParseDigits(d: string)
    requires |d| > 0 && AllDigits(d) && DigitsValue(d) <= INT_MAX
    ensures ToIntOrNull(d) == Some(DigitsValue(d))
  {
    assert IsDigit(d[0]);
  }

  /** Decimal digits hold neither separator of a version name. */
  lemma NoSeparators(d: string)
    requires AllDigits(d)
    ensures '-' !in d && '.' !in d
  {
    assert forall i | 0 <= i < |d| :: IsDigit(d[i]);
  }

  /** The first three pieces of "M.m.p" followed by nothing or by dotted segments. */
  lemma ReleaseSegments(major: string, minor: string, patch: string, more: string)
    requires |major| > 0 && |minor| > 0 && |patch| > 0
    requires AllDigits(major) && AllDigits(minor) && AllDigits(patch)
    requires |more| == 0 || more[0] == '.'
    ensures var segments := Split(major + ['.'] + minor + ['.'] + patch + more, '.');
      |segments| >= 3 && segments[0] == major && segments[1] == minor && segments[2] == patch
  {
    NoSeparators(major);
    NoSeparators(minor);
    var numeric := major + ['.'] + minor + ['.'] + patch + more;
    assert numeric == major + ['.'] + (minor + ['.'] + (patch + more));
    SplitCons(major, '.', minor + ['.'] + (patch + more));
    SplitCons(minor, '.', patch + more);
    if |more| == 0 {
      assert patch + more == patch;
      PatchAlone(patch);
    } else {
      PatchThenMore(patch, more);
    }
  }

  /**
   * A release name "M.m.p", with any further dotted segments after the patch, gets the
   * code M*10000 + m*100 + p when that fits in an `Int`.
   */
  lemma VersionCodeOfRelease(major: string, minor: string, patch: string, more: string)
    requires |major| > 0 && |minor| > 0 && |patch| > 0
    requires AllDigits(major) && AllDigits(minor) && AllDigits(patch)
    requires |more| == 0 || more[0] == '.'
    requires '-' !in more
    requires DigitsValue(major) * 10000 + DigitsValue(minor) * 100 + DigitsValue(patch) <= INT_MAX
    ensures ToVersionCode(major + ['.'] + minor + ['.'] + patch + more)
      == DigitsValue(major) * 10000 + DigitsValue(minor) * 100 + DigitsValue(patch)
  {
    var name := major + ['.'] + minor + ['.'] + patch + more;
    ReleaseHasNoDash(major, minor, patch, more);
    ReleaseSegmentValues(major, minor, patch, more);
    var code := DigitsValue(major) * 10000 + DigitsValue(minor) * 100 + DigitsValue(patch);
    assert InInt(code);
    assert ToVersionCode(name) == WrapInt(code);
  }

  /** The first three segments of a release name read as its three numbers. */
  lemma ReleaseSegmentValues(major: string, minor: string, patch: string, more: string)
    requires |major| > 0 && |minor| > 0 && |patch| > 0
    requires AllDigits(major) && AllDigits(minor) && AllDigits(patch)
    requires |more| == 0 || more[0] == '.'
    requires DigitsValue(major) * 10000 + DigitsValue(minor) * 100 + DigitsValue(patch) <= INT_MAX
    ensures var segments := Split(major + ['.'] + minor + ['.'] + patch + more, '.');
      Segment(segments, 0) == DigitsValue(major) && Segment(segments, 1) == DigitsValue(minor)
      && Segment(segments, 2) == DigitsValue(patch)
  {
    ReleaseSegments(major, minor, patch, more);
    ParseDigits(major);
    ParseDigits(minor);
    ParseDigits(patch);
  }
  /** A release name has no suffix to strip. */
  lemma ReleaseHasNoDash(major: string, minor: string, patch: string, more: string)
    requires AllDigits(major) && AllDigits(minor) && AllDigits(patch) && '-' !in more
    ensures '-' !in major + ['.'] + minor + ['.'] + patch + more
  {
    NoSeparators(major);
    NoSeparators(minor);
    NoSeparators(patch);
  }

  /** A patch number alone is its own first piece. */
  lemma PatchAlone(patch: string)
    requires |patch| > 0 && AllDigits(patch)
    ensures Split(patch, '.')[0] == patch
  {
    NoSeparators(patch);
  }

  /** A patch number followed by further dotted segments is the first piece. */
  lemma PatchThenMore(patch: string, more: string)
    requires |patch| > 0 && AllDigits(patch)
    requires |more| > 0 && more[0] == '.'
    ensures Split(patch + more, '.')[0] == patch
  {
    NoSeparators(patch);
    var rest := more[1..];
    assert more == ['.'] + rest;
    assert patch + more == patch + ['.'] + rest;
    SplitCons(patch, '.', rest);
    assert Split(patch + more, '.') == [patch] + Split(rest, '.');
  }

  /**
   * `envOrProperty(key)`: the project property when it is a non-blank string, else the
   * environment variable when it is non-blank, else null. `property` is None when the
   * property is absent or not a string.
   */
  function EnvOrProperty(property: Option<string>, env: Option<string>): (r: Option<string>)
    ensures property.Some? && !IsBlank(property.value) ==> r == property
    ensures !(property.Some? && !IsBlank(property.value)) && env.Some? && !IsBlank(env.value) ==> r == env
    ensures r.None? <==> (property.None? || IsBlank(property.value)) && (env.None? || IsBlank(env.value))
  {
    if property.Some? && !IsBlank(property.value) then property
    else if env.Some? && !IsBlank(env.value) then env
    else None
  }
}
