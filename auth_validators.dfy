/**
 * The UI layer's own copy of the e-mail and password validators, with its own
 * result and error types. Its code is the domain validators' code line for
 * line, so it is defined here by carrying the domain result over into the UI
 * types; the contracts state what the form relies on.
 */
module AuthValidators {
  import opened Wrappers
  import opened Kotlin
  import Domain = AuthValidation

  datatype EmailValidationError = REQUIRED | INVALID_FORMAT

  datatype EmailValidationResult = EmailValidationResult(sanitized: string, error: Option<EmailValidationError>) {
    predicate IsValid() { error.None? }
  }

  datatype PasswordValidationError = REQUIRED | TOO_SHORT | MISSING_UPPER | MISSING_LOWER | MISSING_DIGIT | MISSING_SYMBOL

  datatype PasswordValidationResult = PasswordValidationResult(sanitized: string, error: Option<PasswordValidationError>) {
    predicate IsValid() { error.None? }
  }

  function EmailErrorOf(e: Domain.EmailValidationError): EmailValidationError {
    match e
    case REQUIRED => EmailValidationError.REQUIRED
    case INVALID_FORMAT => INVALID_FORMAT
  }

  function PasswordErrorOf(e: Domain.PasswordValidationError): PasswordValidationError {
    match e
    case REQUIRED => PasswordValidationError.REQUIRED
    case TOO_SHORT => TOO_SHORT
    case MISSING_UPPER => MISSING_UPPER
    case MISSING_LOWER => MISSING_LOWER
    case MISSING_DIGIT => MISSING_DIGIT
    case MISSING_SYMBOL => MISSING_SYMBOL
  }

  /**
   * `validateEmail`: the sanitized text is always the trimmed input, lower-cased
   * only when the address is valid; blank input is REQUIRED and input that
   * does not match the pattern is INVALID_FORMAT.
   */
  function ValidateEmail(input: string): (r: EmailValidationResult)
    ensures r.IsValid() ==> r.sanitized == Lowercase(Trim(input)) && Domain.MatchesEmailRegex(r.sanitized)
    ensures !r.IsValid() ==> r.sanitized == Trim(input)
    ensures r.error == Some(EmailValidationError.REQUIRED) <==> IsBlank(input)
    ensures r.error == Some(INVALID_FORMAT) <==> !IsBlank(input) && !Domain.MatchesEmailRegex(Trim(input))
  {
    var d := Domain.ValidateEmail(input);
    EmailValidationResult(d.sanitized, if d.error.Some? then Some(EmailErrorOf(d.error.value)) else None)
  }

  /**
   * `validatePassword`: the sanitized text is the trimmed input, and the error
   * is the first broken rule in the order REQUIRED, TOO_SHORT (fewer than
   * eight characters), MISSING_UPPER, MISSING_LOWER, MISSING_DIGIT,
   * MISSING_SYMBOL; a password that breaks none is valid.
   */
  function ValidatePassword(input: string): (r: PasswordValidationResult)
    ensures r.sanitized == Trim(input)
    ensures r.IsValid() <==> forall rule :: !Domain.Violates(Trim(input), rule)
    ensures r.error.Some? ==>
      exists rule :: r.error.value == PasswordErrorOf(rule) && Domain.Violates(Trim(input), rule)
        && forall earlier :: Domain.Rank(earlier) < Domain.Rank(rule) ==> !Domain.Violates(Trim(input), earlier)
  {
    var d := Domain.ValidatePassword(input);
    var t := Trim(input);
    Domain.FirstViolationSpec(t, Domain.PASSWORD_RULES);
    if d.IsValid() then
      assert forall rule :: !Domain.Violates(t, rule) by {
        forall rule ensures !Domain.Violates(t, rule) {
          assert Domain.PASSWORD_RULES[Domain.Rank(rule)] == rule;
        }
      }
      PasswordValidationResult(d.sanitized, None)
    else
      Domain.RejectedPasswordReportsFirstRule(input);
      PasswordValidationResult(d.sanitized, Some(PasswordErrorOf(d.error.value)))
  }

  /** Validating the sanitized text again gives the same result, for both fields. */
  lemma ValidationIdempotent(email: string, password: string)
    ensures ValidateEmail(ValidateEmail(email).sanitized) == ValidateEmail(email)
    ensures ValidatePassword(ValidatePassword(password).sanitized) == ValidatePassword(password)
  {
    Domain.ValidateEmailIdempotent(email);
    Domain.ValidatePasswordIdempotent(password);
  }
}
