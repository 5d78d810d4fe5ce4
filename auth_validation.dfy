/**
 * The domain validators of the sign-in and sign-up forms: an e-mail address,
 * a password and its confirmation. Each result carries the sanitized text and
 * at most one error; a result is valid exactly when it has no error.
 */
module AuthValidation {
  import opened Wrappers
  import opened Kotlin

  // ----- Results -----

  datatype EmailValidationError = REQUIRED | INVALID_FORMAT

  datatype EmailValidationResult = EmailValidationResult(sanitized: string, error: Option<EmailValidationError>) {
    predicate IsValid() { error.None? }
  }

  datatype PasswordValidationError = REQUIRED | TOO_SHORT | MISSING_UPPER | MISSING_LOWER | MISSING_DIGIT | MISSING_SYMBOL

  datatype PasswordValidationResult = PasswordValidationResult(sanitized: string, error: Option<PasswordValidationError>) {
    predicate IsValid() { error.None? }
  }

  /** The pair checked by the sign-in and sign-up forms; valid when both parts are. */
  datatype CredentialValidationResult = CredentialValidationResult(email: EmailValidationResult, password: PasswordValidationResult) {
    predicate IsValid() { email.IsValid() && password.IsValid() }
  }

  datatype PasswordConfirmationError = REQUIRED | MISMATCH

  datatype PasswordConfirmationResult = PasswordConfirmationResult(sanitized: string, error: Option<PasswordConfirmationError>) {
    predicate IsValid() { error.None? }
  }

  // ----- The e-mail pattern -----

  predicate IsAsciiLetter(c: char) { ('A' <= c <= 'Z') || ('a' <= c <= 'z') }

  /** `[A-Z0-9._%+-]` with case ignored. */
  predicate IsLocalChar(c: char) {
    IsAsciiLetter(c) || IsDigit(c) || c == '.' || c == '_' || c == '%' || c == '+' || c == '-'
  }

  /** `[A-Z0-9.-]` with case ignored. */
  predicate IsDomainChar(c: char) {
    IsAsciiLetter(c) || IsDigit(c) || c == '.' || c == '-'
  }

  predicate AllLocal(s: string) { forall i :: 0 <= i < |s| ==> IsLocalChar(s[i]) }

  predicate AllDomain(s: string) { forall i :: 0 <= i < |s| ==> IsDomainChar(s[i]) }

  predicate AllLetters(s: string) { forall i :: 0 <= i < |s| ==> IsAsciiLetter(s[i]) }

  /**
   * `EMAIL_REGEX.matches(s)` for `^[A-Z0-9._%+-]+@[A-Z0-9.-]+\.[A-Z]{2,}$`
   * with case ignored: a non-empty local part, '@' at `at`, a non-empty
   * domain, '.' at `dot` and at least two letters after it.
   */
  predicate MatchesEmailRegex(s: string) {
    exists dot, at | 0 <= dot < |s| && 0 <= at < dot :: EmailSplitAt(s, at, dot)
  }

  predicate EmailSplitAt(s: string, at: int, dot: int) {
    0 < at && at + 1 < dot && dot + 3 <= |s|
    && s[at] == '@' && s[dot] == '.'
    && AllLocal(s[..at]) && AllDomain(s[at + 1..dot]) && AllLetters(s[dot + 1..])
  }

  /** A matching address starts with a local character and ends with a letter, so it has no whitespace at its ends. */
  lemma MatchIsTrimmed(s: string)
    requires MatchesEmailRegex(s)
    ensures Trimmed(s) && |s| > 0
  {
    var dot, at :| 0 <= dot < |s| && 0 <= at < dot && EmailSplitAt(s, at, dot);
    assert IsLocalChar(s[..at][0]);
    assert IsAsciiLetter(s[dot + 1..][|s| - dot - 2]);
  }

  lemma LowercaseLocal(c: char)
    requires IsLocalChar(c)
    ensures IsLocalChar(LowercaseChar(c)) && (IsDomainChar(c) ==> IsDomainChar(LowercaseChar(c)))
    ensures IsAsciiLetter(c) ==> IsAsciiLetter(LowercaseChar(c))
  {
  }

  /** Lower-casing a matching address keeps it matching: every class of the pattern is closed under lower-casing. */
  lemma LowercaseKeepsMatch(s: string)
    requires MatchesEmailRegex(s)
    ensures MatchesEmailRegex(Lowercase(s))
  {
    var dot, at :| 0 <= dot < |s| && 0 <= at < dot && EmailSplitAt(s, at, dot);
    var t := Lowercase(s);
    forall i | 0 <= i < |s|
      ensures (i < at ==> IsLocalChar(t[i])) && (at < i < dot ==> IsDomainChar(t[i])) && (dot < i ==> IsAsciiLetter(t[i]))
    {
      if i < at {
        assert IsLocalChar(s[..at][i]);
      } else if at < i < dot {
        assert IsDomainChar(s[at + 1..dot][i - at - 1]);
      } else if dot < i {
        assert IsAsciiLetter(s[dot + 1..][i - dot - 1]);
      }
    }
    assert AllLocal(t[..at]) by {
      forall i | 0 <= i < at ensures IsLocalChar(t[..at][i]) { assert t[..at][i] == t[i]; }
    }
    var domain := t[at + 1..dot];
    forall i | 0 <= i < |domain| ensures IsDomainChar(domain[i]) { assert domain[i] == t[at + 1 + i]; }
    var tld := t[dot + 1..];
    forall i | 0 <= i < |tld| ensures IsAsciiLetter(tld[i]) { assert tld[i] == t[dot + 1 + i]; }
    assert EmailSplitAt(t, at, dot);
  }

  // ----- validateEmail -----

  /**
   * `validateEmail`: the input is trimmed; a blank input is REQUIRED; an
   * input that does not match the pattern is INVALID_FORMAT and keeps its
   * trimmed text; a matching one is valid and lower-cased.
   */
  function ValidateEmail(input: string): (r: EmailValidationResult)
    ensures r.error == Some(EmailValidationError.REQUIRED) <==> IsBlank(input)
    ensures r.error == Some(INVALID_FORMAT) <==> !IsBlank(input) && !MatchesEmailRegex(Trim(input))
    ensures r.IsValid() ==> r.sanitized == Lowercase(Trim(input)) && MatchesEmailRegex(r.sanitized)
    ensures !r.IsValid() ==> r.sanitized == Trim(input)
  {
    TrimEmptyIffBlank(input);
    var sanitized := Trim(input);
    if |sanitized| == 0 then
      EmailValidationResult(sanitized, Some(EmailValidationError.REQUIRED))
    else if MatchesEmailRegex(sanitized) then
      LowercaseKeepsMatch(sanitized);
      EmailValidationResult(Lowercase(sanitized), None)
    else
      EmailValidationResult(sanitized, Some(INVALID_FORMAT))
  }

  /** Validating the sanitized text again gives the same result: the sanitized address is a fixed point. */
  lemma ValidateEmailIdempotent(input: string)
    ensures ValidateEmail(ValidateEmail(input).sanitized) == ValidateEmail(input)
  {
    var r := ValidateEmail(input);
    var t := Trim(input);
    TrimSpec(input);
    TrimOfTrimmed(t);
    if r.IsValid() {
      var low := Lowercase(t);
      MatchIsTrimmed(low);
      TrimOfTrimmed(low);
      LowercaseIdempotent(t);
    }
  }

  lemma LowercaseIdempotent(s: string)
    ensures Lowercase(Lowercase(s)) == Lowercase(s)
  {
    LowercaseOfNoUpper(Lowercase(s));
  }

  // ----- validatePassword -----

  /** The order in which `validatePassword` checks its rules. */
  const PASSWORD_RULES: seq<PasswordValidationError> :=
    [PasswordValidationError.REQUIRED, TOO_SHORT, MISSING_UPPER, MISSING_LOWER, MISSING_DIGIT, MISSING_SYMBOL]

  const MIN_PASSWORD_LENGTH: nat := 8

  predicate NoUpper(t: string) { forall i :: 0 <= i < |t| ==> !IsUpperCase(t[i]) }
  predicate NoLower(t: string) { forall i :: 0 <= i < |t| ==> !IsLowerCase(t[i]) }
  predicate NoDigit(t: string) { forall i :: 0 <= i < |t| ==> !IsDigit(t[i]) }
  /** No symbol: every character is a letter or a digit. */
  predicate NoSymbol(t: string) { forall i :: 0 <= i < |t| ==> IsLetterOrDigit(t[i]) }

  /** Whether the trimmed password `t` breaks `rule`, each rule on its own. */
  predicate Violates(t: string, rule: PasswordValidationError) {
    match rule
    case REQUIRED => |t| == 0
    case TOO_SHORT => |t| < MIN_PASSWORD_LENGTH
    case MISSING_UPPER => NoUpper(t)
    case MISSING_LOWER => NoLower(t)
    case MISSING_DIGIT => NoDigit(t)
    case MISSING_SYMBOL => NoSymbol(t)
  }

  /** The first of `rules` that `t` breaks. */
  function FirstViolation(t: string, rules: seq<PasswordValidationError>): (r: Option<PasswordValidationError>)
  {
    if |rules| == 0 then None
    else if Violates(t, rules[0]) then Some(rules[0])
    else FirstViolation(t, rules[1..])
  }

  /** `FirstViolation` picks a broken rule that no earlier rule precedes, and gives nothing only when no rule is broken. */
  lemma {:induction false} FirstViolationSpec(t: string, rules: seq<PasswordValidationError>)
    ensures FirstViolation(t, rules).None? <==> forall k :: 0 <= k < |rules| ==> !Violates(t, rules[k])
    ensures FirstViolation(t, rules).Some? ==>
      exists k :: 0 <= k < |rules| && rules[k] == FirstViolation(t, rules).value && Violates(t, rules[k])
        && forall j :: 0 <= j < k ==> !Violates(t, rules[j])
  {
    if |rules| > 0 && !Violates(t, rules[0]) {
      FirstViolationSpec(t, rules[1..]);
      if FirstViolation(t, rules).Some? {
        var k :| 0 <= k < |rules| - 1 && rules[1..][k] == FirstViolation(t, rules).value && Violates(t, rules[1..][k])
          && forall j :: 0 <= j < k ==> !Violates(t, rules[1..][j]);
        assert forall j :: 0 <= j < k + 1 ==> !Violates(t, rules[j]) by {
          forall j | 0 <= j < k + 1 ensures !Violates(t, rules[j]) {
            if j > 0 { assert rules[j] == rules[1..][j - 1]; }
          }
        }
      } else {
        forall k | 0 <= k < |rules| ensures !Violates(t, rules[k]) {
          if k > 0 { assert rules[k] == rules[1..][k - 1]; }
        }
      }
    } else if |rules| > 0 {
      assert rules[0] == FirstViolation(t, rules).value;
    }
  }

  /** The place of each rule in `PASSWORD_RULES`. */
  function Rank(rule: PasswordValidationError): (k: nat)
    ensures k < |PASSWORD_RULES| && PASSWORD_RULES[k] == rule
  {
    match rule
    case REQUIRED => 0
    case TOO_SHORT => 1
    case MISSING_UPPER => 2
    case MISSING_LOWER => 3
    case MISSING_DIGIT => 4
    case MISSING_SYMBOL => 5
  }

  /** `FirstViolation` over `PASSWORD_RULES`, written out as the chain of checks. */
  lemma PasswordRulesInOrder(t: string)
    ensures FirstViolation(t, PASSWORD_RULES) ==
      if |t| == 0 then Some(PasswordValidationError.REQUIRED)
      else if |t| < MIN_PASSWORD_LENGTH then Some(TOO_SHORT)
      else if NoUpper(t) then Some(MISSING_UPPER)
      else if NoLower(t) then Some(MISSING_LOWER)
      else if NoDigit(t) then Some(MISSING_DIGIT)
      else if NoSymbol(t) then Some(MISSING_SYMBOL)
      else None
  {
    var r0 := PASSWORD_RULES;
    var r1 := [TOO_SHORT, MISSING_UPPER, MISSING_LOWER, MISSING_DIGIT, MISSING_SYMBOL];
    var r2 := [MISSING_UPPER, MISSING_LOWER, MISSING_DIGIT, MISSING_SYMBOL];
    var r3 := [MISSING_LOWER, MISSING_DIGIT, MISSING_SYMBOL];
    var r4 := [MISSING_DIGIT, MISSING_SYMBOL];
    var r5 := [MISSING_SYMBOL];
    assert r0[1..] == r1 && r1[1..] == r2 && r2[1..] == r3 && r3[1..] == r4 && r4[1..] == r5 && r5[1..] == [];
    assert FirstViolation(t, r5) == if NoSymbol(t) then Some(MISSING_SYMBOL) else None;
    assert FirstViolation(t, r4) == if NoDigit(t) then Some(MISSING_DIGIT) else FirstViolation(t, r5);
    assert FirstViolation(t, r3) == if NoLower(t) then Some(MISSING_LOWER) else FirstViolation(t, r4);
    assert FirstViolation(t, r2) == if NoUpper(t) then Some(MISSING_UPPER) else FirstViolation(t, r3);
    assert FirstViolation(t, r1) == if |t| < MIN_PASSWORD_LENGTH then Some(TOO_SHORT) else FirstViolation(t, r2);
  }

  /**
   * `validatePassword`: the input is trimmed and the first broken rule, in
   * the order REQUIRED, TOO_SHORT, MISSING_UPPER, MISSING_LOWER,
   * MISSING_DIGIT, MISSING_SYMBOL, is reported.
   */
  function ValidatePassword(input: string): (r: PasswordValidationResult)
    ensures r.sanitized == Trim(input)
    ensures r.error == FirstViolation(Trim(input), PASSWORD_RULES)
  {
    var sanitized := Trim(input);
    PasswordRulesInOrder(sanitized);
    if |sanitized| == 0 then PasswordValidationResult(sanitized, Some(PasswordValidationError.REQUIRED))
    else if |sanitized| < MIN_PASSWORD_LENGTH then PasswordValidationResult(sanitized, Some(TOO_SHORT))
    else if NoUpper(sanitized) then PasswordValidationResult(sanitized, Some(MISSING_UPPER))
    else if NoLower(sanitized) then PasswordValidationResult(sanitized, Some(MISSING_LOWER))
    else if NoDigit(sanitized) then PasswordValidationResult(sanitized, Some(MISSING_DIGIT))
    else if NoSymbol(sanitized) then PasswordValidationResult(sanitized, Some(MISSING_SYMBOL))
    else PasswordValidationResult(sanitized, None)
  }

  /** An accepted password has at least eight characters, of which one is upper-case, one lower-case, one a digit and one a symbol. */
  lemma AcceptedPasswordIsStrong(input: string)
    requires ValidatePassword(input).IsValid()
    ensures var t := ValidatePassword(input).sanitized;
      |t| >= MIN_PASSWORD_LENGTH
      && (exists i :: 0 <= i < |t| && IsUpperCase(t[i]))
      && (exists i :: 0 <= i < |t| && IsLowerCase(t[i]))
      && (exists i :: 0 <= i < |t| && IsDigit(t[i]))
      && (exists i :: 0 <= i < |t| && !IsLetterOrDigit(t[i]))
  {
    var t := Trim(input);
    FirstViolationSpec(t, PASSWORD_RULES);
    assert !Violates(t, PASSWORD_RULES[1]) && !Violates(t, PASSWORD_RULES[2]) && !Violates(t, PASSWORD_RULES[3]);
    assert !Violates(t, PASSWORD_RULES[4]) && !Violates(t, PASSWORD_RULES[5]);
  }

  /** A rejected password breaks the reported rule and none of the rules checked before it. */
  lemma RejectedPasswordReportsFirstRule(input: string)
    requires !ValidatePassword(input).IsValid()
    ensures var t := Trim(input);
      var e := ValidatePassword(input).error.value;
      Violates(t, e) && forall earlier :: Rank(earlier) < Rank(e) ==> !Violates(t, earlier)
  {
    var t := Trim(input);
    var e := ValidatePassword(input).error.value;
    FirstViolationSpec(t, PASSWORD_RULES);
    var k :| 0 <= k < |PASSWORD_RULES| && PASSWORD_RULES[k] == e && Violates(t, PASSWORD_RULES[k])
      && forall j :: 0 <= j < k ==> !Violates(t, PASSWORD_RULES[j]);
    assert k == Rank(e);
    forall earlier | Rank(earlier) < Rank(e) ensures !Violates(t, earlier) {
      assert PASSWORD_RULES[Rank(earlier)] == earlier;
    }
  }

  /** Validating the sanitized password again gives the same result. */
  lemma ValidatePasswordIdempotent(input: string)
    ensures ValidatePassword(ValidatePassword(input).sanitized) == ValidatePassword(input)
  {
    TrimSpec(input);
    TrimOfTrimmed(Trim(input));
  }

  // ----- validatePasswordConfirmation -----

  /**
   * `validatePasswordConfirmation`: only the confirmation is trimmed; a blank
   * one is REQUIRED, and one that differs from `password` as given is MISMATCH.
   */
  function ValidatePasswordConfirmation(password: string, confirmation: string): (r: PasswordConfirmationResult)
    ensures r.sanitized == Trim(confirmation)
    ensures r.error == Some(PasswordConfirmationError.REQUIRED) <==> IsBlank(confirmation)
    ensures r.error == Some(MISMATCH) <==> !IsBlank(confirmation) && Trim(confirmation) != password
  {
    TrimEmptyIffBlank(confirmation);
    var sanitized := Trim(confirmation);
    if |sanitized| == 0 then PasswordConfirmationResult(sanitized, Some(PasswordConfirmationError.REQUIRED))
    else if password == sanitized then PasswordConfirmationResult(sanitized, None)
    else PasswordConfirmationResult(sanitized, Some(MISMATCH))
  }

  /**
   * A confirmation is accepted exactly when it is the password once its own
   * surrounding whitespace is dropped; a password with whitespace at either
   * end can never be confirmed, because it is not trimmed itself.
   */
  lemma ConfirmationTrimsOnlyConfirmation(password: string, confirmation: string)
    ensures ValidatePasswordConfirmation(password, confirmation).IsValid() ==>
      Trimmed(password) && password != [] && Trim(confirmation) == password
    ensures !Trimmed(password) ==> !ValidatePasswordConfirmation(password, confirmation).IsValid()
  {
    TrimSpec(confirmation);
    TrimEmptyIffBlank(confirmation);
  }

  /** A trimmed, non-empty password is confirmed by itself padded with a space on either side. */
  lemma PaddedConfirmationAccepted(password: string)
    requires Trimmed(password) && password != []
    ensures ValidatePasswordConfirmation(password, " " + password + " ").IsValid()
  {
    var padded := " " + password + " ";
    assert padded[1..] == password + " ";
    TrimStartOfTrimmed(password + " ");
    assert TrimStart(padded) == password + " ";
    assert (password + " ")[..|password|] == password;
    assert TrimEnd(password + " ") == TrimEnd(password);
    assert Trim(padded) == password;
    TrimEmptyIffBlank(padded);
  }
}
