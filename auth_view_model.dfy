/**
 * The authentication screen's view model: its UI state (user, loading flag,
 * error), the events it emits, the guards that keep a second request from
 * starting while one is in flight, and the classification of failures into
 * the errors the screens show.
 *
 * Each request is split in two, as the code splits it: the synchronous part
 * checks the guard and the input and returns the request it launched, and
 * `Complete` runs the launched block once the outcome of the remote call is
 * known.
 */
module AuthViewModel {
  import opened Wrappers
  import opened Kotlin
  import V = AuthValidation

  // ----- Failures and their cause chains -----

  /**
   * A `Throwable`: its class's simple name (null for anonymous classes), its
   * message, its cause, and whether it is a coroutine `CancellationException`.
   */
  datatype Throwable = Throwable(simpleName: Option<string>, message: Option<string>, cause: Option<Throwable>, isCancellation: bool)

  /** The throwable and its causes, outermost first. */
  function Chain(t: Throwable): (r: seq<Throwable>)
    ensures |r| > 0 && r[0] == t
    decreases t
  {
    [t] + if t.cause.Some? then Chain(t.cause.value) else []
  }

  /** A message that is present and not blank. */
  predicate HasText(t: Throwable) {
    t.message.Some? && !IsBlank(t.message.value)
  }

  /** `hints.any { it in message }`. */
  predicate AnyHint(message: string, hints: seq<string>) {
    exists h :: h in hints && Contains(message, h)
  }

  /** The lower-cased message contains one of `hints`. */
  predicate MessageHits(t: Throwable, hints: seq<string>) {
    t.message.Some? && AnyHint(Lowercase(t.message.value), hints)
  }

  /** The lower-cased simple class name mentions a network failure. */
  predicate NameHits(t: Throwable) {
    t.simpleName.Some? && MentionsNetwork(Lowercase(t.simpleName.value))
  }

  predicate MentionsNetwork(name: string) {
    Contains(name, "network") || Contains(name, "timeout") || Contains(name, "ioexception")
  }

  const INVALID_CREDENTIAL_HINTS: seq<string> := [
    "password is invalid",
    "invalid password",
    "invalid credential",
    "credential is incorrect",
    "no user record",
    "user not found"
  ]

  const NETWORK_ERROR_HINTS: seq<string> := [
    "network error",
    "network request failed",
    "network unreachable",
    "unable to resolve host",
    "connection reset",
    "timed out",
    "timeout"
  ]

  /** What the loop of `firstNonBlankMessage` finds from `current` on. */
  function FirstNonBlankFrom(current: Option<Throwable>): Option<string>
    decreases current
  {
    if current.None? then None
    else if HasText(current.value) then current.value.message
    else FirstNonBlankFrom(current.value.cause)
  }

  /** Some throwable from `current` on along the cause chain satisfies `p`: the shape of the loops of `messageMatches` and `isNetworkError`. */
  predicate AnyFrom(current: Option<Throwable>, p: Throwable -> bool)
    decreases current
  {
    current.Some? && (p(current.value) || AnyFrom(current.value.cause, p))
  }

  /** What the loop of `messageMatches` finds from `current` on. */
  predicate MatchesFrom(current: Option<Throwable>, hints: seq<string>) {
    AnyFrom(current, t => MessageHits(t, hints))
  }

  /** What the class-name loop of `isNetworkError` finds from `current` on. */
  predicate NameHitsFrom(current: Option<Throwable>) {
    AnyFrom(current, NameHits)
  }

  /** The first message with text along the cause chain, and nothing only when no throwable in the chain has one. */
  lemma {:induction false} FirstNonBlankSpec(t: Throwable)
    ensures FirstNonBlankFrom(Some(t)).None? <==> forall k :: 0 <= k < |Chain(t)| ==> !HasText(Chain(t)[k])
    ensures FirstNonBlankFrom(Some(t)).Some? ==>
      exists k :: 0 <= k < |Chain(t)| && HasText(Chain(t)[k]) && Chain(t)[k].message == FirstNonBlankFrom(Some(t))
        && forall j :: 0 <= j < k ==> !HasText(Chain(t)[j])
    decreases t
  {
    var c := Chain(t);
    if HasText(t) {
      assert HasText(c[0]) && c[0].message == FirstNonBlankFrom(Some(t));
      assert !(forall k :: 0 <= k < |c| ==> !HasText(c[k]));
      assert exists k ::
          0 <= k < |c| && HasText(c[k]) && c[k].message == FirstNonBlankFrom(Some(t)) && forall j :: 0 <= j < k ==> !HasText(c[j]);
    } else if t.cause.Some? {
      var u := t.cause.value;
      FirstNonBlankSpec(u);
      assert c == [t] + Chain(u);
      assert FirstNonBlankFrom(Some(t)) == FirstNonBlankFrom(Some(u));
      if FirstNonBlankFrom(Some(u)).Some? {
        var k :| 0 <= k < |Chain(u)| && HasText(Chain(u)[k]) && Chain(u)[k].message == FirstNonBlankFrom(Some(u))
          && forall j :: 0 <= j < k ==> !HasText(Chain(u)[j]);
        assert c[k + 1] == Chain(u)[k];
        forall j | 0 <= j < k + 1 ensures !HasText(c[j]) {
          if j > 0 { assert c[j] == Chain(u)[j - 1]; }
        }
        assert exists k ::
            0 <= k < |c| && HasText(c[k]) && c[k].message == FirstNonBlankFrom(Some(t)) && forall j :: 0 <= j < k ==> !HasText(c[j]);
      } else {
        forall k | 0 <= k < |c| ensures !HasText(c[k]) {
          if k > 0 { assert c[k] == Chain(u)[k - 1]; }
        }
      }
    } else {
      assert c == [t];
    }
  }

  /** The loop shape `AnyFrom` finds a throwable exactly when one of the chain satisfies `p`. */
  lemma {:induction false} AnyFromSpec(t: Throwable, p: Throwable -> bool)
    ensures AnyFrom(Some(t), p) <==> exists k :: 0 <= k < |Chain(t)| && p(Chain(t)[k])
    decreases t
  {
    var c := Chain(t);
    if p(t) {
      assert p(c[0]);
      assert AnyFrom(Some(t), p);
      assert exists k :: 0 <= k < |Chain(t)| && p(Chain(t)[k]);
    } else if t.cause.Some? {
      var u := t.cause.value;
      AnyFromSpec(u, p);
      assert c == [t] + Chain(u);
      if AnyFrom(Some(u), p) {
        var k :| 0 <= k < |Chain(u)| && p(Chain(u)[k]);
        assert c[k + 1] == Chain(u)[k];
        assert p(c[k + 1]);
        assert AnyFrom(Some(t), p) == AnyFrom(Some(u), p);
        assert AnyFrom(Some(t), p);
        assert exists k :: 0 <= k < |Chain(t)| && p(Chain(t)[k]);
      } else {
        forall k | 0 <= k < |c| ensures !p(c[k]) {
          if k > 0 { assert c[k] == Chain(u)[k - 1]; }
        }
        assert AnyFrom(Some(t), p) == AnyFrom(Some(u), p);
        assert !AnyFrom(Some(t), p);
        assert !exists k :: 0 <= k < |Chain(t)| && p(Chain(t)[k]);
      }
    } else {
      assert c == [t];
      assert !AnyFrom(Some(t), p);
      assert !exists k :: 0 <= k < |Chain(t)| && p(Chain(t)[k]);
    }
  }

  /** Some throwable of the chain has a message containing a hint exactly when the loop of `messageMatches` says so. */
  lemma MatchesSpec(t: Throwable, hints: seq<string>)
    ensures MatchesFrom(Some(t), hints) <==> exists k :: 0 <= k < |Chain(t)| && MessageHits(Chain(t)[k], hints)
  {
    AnyFromSpec(t, u => MessageHits(u, hints));
  }

  /** Some throwable of the chain has a network-like class name exactly when the class-name loop says so. */
  lemma NameHitsSpec(t: Throwable)
    ensures NameHitsFrom(Some(t)) <==> exists k :: 0 <= k < |Chain(t)| && NameHits(Chain(t)[k])
  {
    AnyFromSpec(t, NameHits);
  }

  /** `firstNonBlankMessage`: walk the cause chain and return the first message that is not blank. */
  method FirstNonBlankMessage(error: Throwable) returns (message: Option<string>)
    ensures message == FirstNonBlankFrom(Some(error))
  {
    var current := Some(error);
    while current.Some?
      invariant FirstNonBlankFrom(current) == FirstNonBlankFrom(Some(error))
      decreases current
    {
      var m := current.value.message;
      if m.Some? && !IsBlank(m.value) {
        return m;
      }
      current := current.value.cause;
    }
    return None;
  }

  /** `messageMatches`: walk the cause chain and report whether a lower-cased message contains a hint. */
  method MessageMatches(error: Throwable, hints: seq<string>) returns (matches: bool)
    ensures matches == MatchesFrom(Some(error), hints)
  {
    var current := Some(error);
    while current.Some?
      invariant MatchesFrom(current, hints) == MatchesFrom(Some(error), hints)
      decreases current
    {
      var m := current.value.message;
      if m.Some? && AnyHint(Lowercase(m.value), hints) {
        return true;
      }
      current := current.value.cause;
    }
    return false;
  }

  /** `isInvalidCredentialError`. */
  method IsInvalidCredentialError(error: Throwable) returns (invalid: bool)
    ensures invalid == MatchesFrom(Some(error), INVALID_CREDENTIAL_HINTS)
  {
    invalid := MessageMatches(error, INVALID_CREDENTIAL_HINTS);
  }

  /** `isNetworkError`: a network hint in a message, or else a class name mentioning network, timeout or IO. */
  method IsNetworkError(error: Throwable) returns (network: bool)
    ensures network == (MatchesFrom(Some(error), NETWORK_ERROR_HINTS) || NameHitsFrom(Some(error)))
  {
    var hinted := MessageMatches(error, NETWORK_ERROR_HINTS);
    if hinted {
      return true;
    }
    var current := Some(error);
    while current.Some?
      invariant NameHitsFrom(current) == NameHitsFrom(Some(error))
      decreases current
    {
      if NameHits(current.value) {
        return true;
      }
      current := current.value.cause;
    }
    return false;
  }

  // ----- Errors shown to the user -----

  datatype AuthError = GenericValidation | Network | InvalidCredentials | Custom(message: string)

  /**
   * The error `publishError` stores for a failure that is not a cancellation:
   * invalid credentials first, then a network failure, then the first message
   * with text along the cause chain, and the generic error last.
   */
  function ResolveError(error: Throwable): (r: AuthError)
    ensures r == InvalidCredentials <==>
      exists k :: 0 <= k < |Chain(error)| && MessageHits(Chain(error)[k], INVALID_CREDENTIAL_HINTS)
    ensures r == Network <==>
      (forall k :: 0 <= k < |Chain(error)| ==> !MessageHits(Chain(error)[k], INVALID_CREDENTIAL_HINTS))
      && exists k :: 0 <= k < |Chain(error)| && (MessageHits(Chain(error)[k], NETWORK_ERROR_HINTS) || NameHits(Chain(error)[k]))
    ensures r.Custom? ==>
      exists k :: 0 <= k < |Chain(error)| && HasText(Chain(error)[k]) && Chain(error)[k].message == Some(r.message)
        && forall j :: 0 <= j < k ==> !HasText(Chain(error)[j])
    ensures r == GenericValidation <==>
      forall k :: 0 <= k < |Chain(error)| ==>
        !MessageHits(Chain(error)[k], INVALID_CREDENTIAL_HINTS) && !MessageHits(Chain(error)[k], NETWORK_ERROR_HINTS)
        && !NameHits(Chain(error)[k]) && !HasText(Chain(error)[k])
  {
    MatchesSpec(error, INVALID_CREDENTIAL_HINTS);
    MatchesSpec(error, NETWORK_ERROR_HINTS);
    NameHitsSpec(error);
    FirstNonBlankSpec(error);
    if MatchesFrom(Some(error), INVALID_CREDENTIAL_HINTS) then InvalidCredentials
    else if MatchesFrom(Some(error), NETWORK_ERROR_HINTS) || NameHitsFrom(Some(error)) then Network
    else
      var message := FirstNonBlankFrom(Some(error));
      if message.Some? then Custom(message.value) else GenericValidation
  }

  /** `emailErrorMessage`: a message for every e-mail error, none without one. */
  function EmailErrorMessage(error: Option<V.EmailValidationError>): (m: Option<string>)
    ensures m.Some? <==> error.Some?
  {
    match error
    case None => None
    case Some(e) =>
      match e
      case REQUIRED => Some("Email is required")
      case INVALID_FORMAT => Some("Enter a valid email address")
  }

  const PASSWORD_RULES_MESSAGE: string := "Password must include upper, lower, digit, and symbol"

  /** `passwordErrorMessage`: a message for every password error, none without one. */
  function PasswordErrorMessage(error: Option<V.PasswordValidationError>): (m: Option<string>)
    ensures m.Some? <==> error.Some?
  {
    match error
    case None => None
    case Some(e) =>
      match e
      case REQUIRED => Some("Password is required")
      case TOO_SHORT => Some("Password must be at least 8 characters")
      case MISSING_UPPER => Some(PASSWORD_RULES_MESSAGE)
      case MISSING_LOWER => Some(PASSWORD_RULES_MESSAGE)
      case MISSING_DIGIT => Some(PASSWORD_RULES_MESSAGE)
      case MISSING_SYMBOL => Some(PASSWORD_RULES_MESSAGE)
  }

  predicate IsMissingRule(e: V.PasswordValidationError) {
    e.MISSING_UPPER? || e.MISSING_LOWER? || e.MISSING_DIGIT? || e.MISSING_SYMBOL?
  }

  /**
   * The four character-class rules share one message, which differs from the
   * messages for a missing and for a short password; the short-password
   * message names the minimum length the validator enforces.
   */
  lemma PasswordMessages(a: V.PasswordValidationError, b: V.PasswordValidationError)
    ensures IsMissingRule(a) && IsMissingRule(b) ==> PasswordErrorMessage(Some(a)) == PasswordErrorMessage(Some(b))
    ensures IsMissingRule(a) ==>
      PasswordErrorMessage(Some(a)) != PasswordErrorMessage(Some(V.PasswordValidationError.REQUIRED))
      && PasswordErrorMessage(Some(a)) != PasswordErrorMessage(Some(V.TOO_SHORT))
    ensures PasswordErrorMessage(Some(V.TOO_SHORT)).value == "Password must be at least " + DecimalString(V.MIN_PASSWORD_LENGTH) + " characters"
  {
    assert |PASSWORD_RULES_MESSAGE| == 53;
    assert DecimalString(8) == "8" by {
      assert Digits(8) == "8";
    }
  }

  /** `confirmationErrorMessage`. */
  function ConfirmationErrorMessage(error: Option<V.PasswordConfirmationError>): (m: Option<string>)
    ensures m.Some? <==> error.Some?
  {
    match error
    case None => None
    case Some(e) =>
      match e
      case REQUIRED => Some("Confirm your password")
      case MISMATCH => Some("Passwords must match")
  }

  /** The error stored for a message that may be missing: `message?.let { Custom(it) } ?: GenericValidation`. */
  function ErrorFor(message: Option<string>): (r: AuthError)
    ensures message.Some? ==> r == Custom(message.value)
    ensures message.None? ==> r == GenericValidation
  {
    if message.Some? then Custom(message.value) else GenericValidation
  }

  /** `useCases.validateCredentials`: the domain validators applied to each field. */
  function ValidateCredentials(email: string, password: string): (v: V.CredentialValidationResult)
    ensures v.email == V.ValidateEmail(email) && v.password == V.ValidatePassword(password)
  {
    V.CredentialValidationResult(V.ValidateEmail(email), V.ValidatePassword(password))
  }

  // ----- The view model -----

  /** The signed-in user; only the display name is used here. */
  datatype AuthUser = AuthUser(uid: string, displayName: Option<string>)

  datatype AuthEvent = LoginSuccess | SignUpSuccess | PasswordResetSent(email: string)

  /** A launched block, with the values it passes to the remote call. */
  datatype Request =
    | LoginRequest(email: string, password: string)
    | GoogleRequest(idToken: string, accessToken: Option<string>)
    | SignUpRequest(name: string, email: string, password: string)
    | PasswordResetRequest(email: string)
    | LogoutRequest

  /** How the remote call of a launched block ended. */
  datatype Outcome = Succeeded | Failed(error: Throwable)

  const MISSING_GOOGLE_TOKEN: string := "Missing Google token"

  class AuthViewModel {
    var user: Option<AuthUser>
    var isUserResolved: bool
    var loading: bool
    var error: Option<AuthError>
    /** The events emitted so far, oldest first. */
    var events: seq<AuthEvent>

    constructor ()
      ensures user.None? && !isUserResolved && !loading && error.None? && events == []
    {
      user := None;
      isUserResolved := false;
      loading := false;
      error := None;
      events := [];
    }

    /** The current-user observer started at construction: each value resolves the user. */
    method OnCurrentUser(authUser: Option<AuthUser>)
      modifies this
      ensures user == authUser && isUserResolved
      ensures loading == old(loading) && error == old(error) && events == old(events)
    {
      user := authUser;
      isUserResolved := true;
    }

    method ClearError()
      modifies this
      ensures error.None?
      ensures user == old(user) && isUserResolved == old(isUserResolved) && loading == old(loading) && events == old(events)
    {
      error := None;
    }

    method SetError(message: string)
      modifies this
      ensures error == Some(Custom(message))
      ensures user == old(user) && isUserResolved == old(isUserResolved) && loading == old(loading) && events == old(events)
    {
      error := Some(Custom(message));
    }

    /** `setLoading`: loading, and the previous error cleared. */
    method SetLoading()
      modifies this
      ensures loading && error.None?
      ensures user == old(user) && isUserResolved == old(isUserResolved) && events == old(events)
    {
      loading := true;
      error := None;
    }

    /**
     * `publishError`: a cancellation is thrown on and changes nothing;
     * any other failure is classified by `ResolveError`.
     */
    method PublishError(e: Throwable) returns (rethrown: bool)
      modifies this
      ensures rethrown <==> e.isCancellation
      ensures error == if rethrown then old(error) else Some(ResolveError(e))
      ensures user == old(user) && isUserResolved == old(isUserResolved) && loading == old(loading) && events == old(events)
    {
      if e.isCancellation {
        return true;
      }
      rethrown := false;
      var invalid := IsInvalidCredentialError(e);
      var resolved;
      if invalid {
        resolved := InvalidCredentials;
      } else {
        var network := IsNetworkError(e);
        if network {
          resolved := Network;
        } else {
          var message := FirstNonBlankMessage(e);
          resolved := ErrorFor(message);
        }
      }
      error := Some(resolved);
    }

    /**
     * `handleCredentialValidationFailure`: the e-mail's message when the
     * e-mail is invalid, else the password's; the generic error only when
     * neither gives a message.
     */
    method HandleCredentialValidationFailure(validation: V.CredentialValidationResult)
      modifies this
      ensures !validation.email.IsValid() ==> error == Some(ErrorFor(EmailErrorMessage(validation.email.error)))
      ensures validation.email.IsValid() ==> error == Some(ErrorFor(PasswordErrorMessage(validation.password.error)))
      ensures user == old(user) && isUserResolved == old(isUserResolved) && loading == old(loading) && events == old(events)
    {
      var message: Option<string> := None;
      if !validation.email.IsValid() {
        message := EmailErrorMessage(validation.email.error);
      }
      if !validation.password.IsValid() {
        if message.None? {
          message := PasswordErrorMessage(validation.password.error);
        }
      }
      error := Some(ErrorFor(message));
    }

    /** `handleEmailValidationFailure`. */
    method HandleEmailValidationFailure(result: V.EmailValidationResult)
      modifies this
      ensures error == Some(ErrorFor(EmailErrorMessage(result.error)))
      ensures user == old(user) && isUserResolved == old(isUserResolved) && loading == old(loading) && events == old(events)
    {
      error := Some(ErrorFor(EmailErrorMessage(result.error)));
    }

    /** `handlePasswordConfirmationFailure`. */
    method HandlePasswordConfirmationFailure(result: V.PasswordConfirmationResult)
      modifies this
      ensures error == Some(ErrorFor(ConfirmationErrorMessage(result.error)))
      ensures user == old(user) && isUserResolved == old(isUserResolved) && loading == old(loading) && events == old(events)
    {
      error := Some(ErrorFor(ConfirmationErrorMessage(result.error)));
    }

    /**
     * `loginWithEmail`: nothing while loading; invalid credentials set the
     * validation error; otherwise loading starts and the sanitized
     * credentials are sent.
     */
    method LoginWithEmail(email: string, password: string) returns (launched: Option<Request>)
      modifies this
      ensures old(loading) ==> launched.None? && error == old(error) && loading
      ensures var v := ValidateCredentials(email, password);
        !old(loading) && !v.IsValid() ==> launched.None? && !loading && error.Some? && error.value.Custom?
      ensures var v := ValidateCredentials(email, password);
        !old(loading) && !v.IsValid() ==>
          error == Some(ErrorFor(if !v.email.IsValid() then EmailErrorMessage(v.email.error)
                                 else PasswordErrorMessage(v.password.error)))
      ensures var v := ValidateCredentials(email, password);
        !old(loading) && v.IsValid() ==>
          launched == Some(LoginRequest(v.email.sanitized, v.password.sanitized)) && loading && error.None?
      ensures user == old(user) && isUserResolved == old(isUserResolved) && events == old(events)
    {
      if loading {
        return None;
      }
      var validation := ValidateCredentials(email, password);
      if !validation.IsValid() {
        HandleCredentialValidationFailure(validation);
        CredentialFailureShowsMessage(validation);
        return None;
      }
      SetLoading();
      launched := Some(LoginRequest(validation.email.sanitized, validation.password.sanitized));
    }

    /**
     * `signInWithGoogleToken`: nothing while loading; a blank token sets the
     * "Missing Google token" error without starting to load; otherwise
     * loading starts and the tokens are sent.
     */
    method SignInWithGoogleToken(idToken: string, accessToken: Option<string>) returns (launched: Option<Request>)
      modifies this
      ensures old(loading) ==> launched.None? && error == old(error) && loading
      ensures !old(loading) && IsBlank(idToken) ==> launched.None? && !loading && error == Some(Custom(MISSING_GOOGLE_TOKEN))
      ensures !old(loading) && !IsBlank(idToken) ==> launched == Some(GoogleRequest(idToken, accessToken)) && loading && error.None?
      ensures user == old(user) && isUserResolved == old(isUserResolved) && events == old(events)
    {
      if loading {
        return None;
      }
      if IsBlank(idToken) {
        error := Some(Custom(MISSING_GOOGLE_TOKEN));
        return None;
      }
      SetLoading();
      launched := Some(GoogleRequest(idToken, accessToken));
    }

    /**
     * `signUp`: nothing while loading; invalid credentials, then a bad
     * confirmation of the sanitized password, set their errors; otherwise
     * loading starts and the name and sanitized credentials are sent.
     */
    method SignUp(name: string, email: string, password: string, confirmPassword: string) returns (launched: Option<Request>)
      modifies this
      ensures old(loading) ==> launched.None? && error == old(error) && loading
      ensures var v := ValidateCredentials(email, password);
        !old(loading) && !v.IsValid() ==> launched.None? && !loading && error.Some? && error.value.Custom?
      ensures var v := ValidateCredentials(email, password);
        !old(loading) && !v.IsValid() ==>
          error == Some(ErrorFor(if !v.email.IsValid() then EmailErrorMessage(v.email.error)
                                 else PasswordErrorMessage(v.password.error)))
      ensures var v := ValidateCredentials(email, password);
        var c := V.ValidatePasswordConfirmation(v.password.sanitized, confirmPassword);
        !old(loading) && v.IsValid() && !c.IsValid() ==>
          launched.None? && !loading && error == Some(ErrorFor(ConfirmationErrorMessage(c.error)))
      ensures var v := ValidateCredentials(email, password);
        var c := V.ValidatePasswordConfirmation(v.password.sanitized, confirmPassword);
        !old(loading) && v.IsValid() && c.IsValid() ==>
          launched == Some(SignUpRequest(name, v.email.sanitized, v.password.sanitized)) && loading && error.None?
      ensures user == old(user) && isUserResolved == old(isUserResolved) && events == old(events)
    {
      if loading {
        return None;
      }
      var validation := ValidateCredentials(email, password);
      if !validation.IsValid() {
        HandleCredentialValidationFailure(validation);
        CredentialFailureShowsMessage(validation);
        return None;
      }
      var confirmation := V.ValidatePasswordConfirmation(validation.password.sanitized, confirmPassword);
      if !confirmation.IsValid() {
        HandlePasswordConfirmationFailure(confirmation);
        return None;
      }
      SetLoading();
      launched := Some(SignUpRequest(name, validation.email.sanitized, validation.password.sanitized));
    }

    /** `sendPasswordReset`: nothing while loading; an invalid e-mail sets its error; otherwise the sanitized address is sent. */
    method SendPasswordReset(email: string) returns (launched: Option<Request>)
      modifies this
      ensures old(loading) ==> launched.None? && error == old(error) && loading
      ensures var v := V.ValidateEmail(email);
        !old(loading) && !v.IsValid() ==> launched.None? && !loading && error == Some(ErrorFor(EmailErrorMessage(v.error)))
      ensures var v := V.ValidateEmail(email);
        !old(loading) && v.IsValid() ==> launched == Some(PasswordResetRequest(v.sanitized)) && loading && error.None?
      ensures user == old(user) && isUserResolved == old(isUserResolved) && events == old(events)
    {
      if loading {
        return None;
      }
      var validation := V.ValidateEmail(email);
      if !validation.IsValid() {
        HandleEmailValidationFailure(validation);
        return None;
      }
      SetLoading();
      launched := Some(PasswordResetRequest(validation.sanitized));
    }

    /** `logout`: always launched, whatever the loading flag. */
    method Logout() returns (launched: Request)
      ensures launched == LogoutRequest
    {
      launched := LogoutRequest;
    }

    /**
     * The launched block of each request, once its remote call has ended.
     * Success emits the request's event (sign-up first renames the current
     * user; logout clears the user and the error); failure goes through
     * `publishError`. Loading stops afterwards, except when `publishError`
     * throws a cancellation on, which leaves the block early.
     */
    method Complete(request: Request, outcome: Outcome)
      modifies this
      ensures outcome.Failed? && outcome.error.isCancellation ==>
        error == old(error) && loading == old(loading) && events == old(events) && user == old(user)
      ensures outcome.Failed? && !outcome.error.isCancellation ==>
        error == Some(ResolveError(outcome.error)) && events == old(events) && user == old(user)
        && loading == (request.LogoutRequest? && old(loading))
      ensures outcome.Succeeded? && (request.LoginRequest? || request.GoogleRequest?) ==>
        events == old(events) + [LoginSuccess] && !loading && error == old(error) && user == old(user)
      ensures outcome.Succeeded? && request.SignUpRequest? ==>
        events == old(events) + [SignUpSuccess] && !loading && error == old(error)
        && user == if old(user).Some? then Some(old(user).value.(displayName := Some(request.name))) else None
      ensures outcome.Succeeded? && request.PasswordResetRequest? ==>
        events == old(events) + [PasswordResetSent(request.email)] && !loading && error == old(error) && user == old(user)
      ensures outcome.Succeeded? && request.LogoutRequest? ==>
        user.None? && isUserResolved && !loading && error.None? && events == old(events)
      ensures !(outcome.Succeeded? && request.LogoutRequest?) ==> isUserResolved == old(isUserResolved)
    {
      if outcome.Failed? {
        var rethrown := PublishError(outcome.error);
        if rethrown || request.LogoutRequest? {
          return;
        }
        loading := false;
        return;
      }
      match request {
        case LoginRequest(_, _) =>
          events := events + [LoginSuccess];
        case GoogleRequest(_, _) =>
          events := events + [LoginSuccess];
        case SignUpRequest(name, _, _) =>
          if user.Some? {
            user := Some(user.value.(displayName := Some(name)));
          }
          events := events + [SignUpSuccess];
        case PasswordResetRequest(email) =>
          events := events + [PasswordResetSent(email)];
        case LogoutRequest =>
          user := None;
          loading := false;
          error := None;
          isUserResolved := true;
          return;
      }
      loading := false;
    }
  }

  /**
   * A credential failure always shows a message: an invalid field always has
   * an error, and every error has a message, so the generic fallback is
   * never reached; the e-mail's message wins when both fields are invalid.
   */
  lemma CredentialFailureShowsMessage(validation: V.CredentialValidationResult)
    requires !validation.IsValid()
    ensures !validation.email.IsValid() ==>
      ErrorFor(EmailErrorMessage(validation.email.error)) == Custom(EmailErrorMessage(validation.email.error).value)
    ensures validation.email.IsValid() ==>
      ErrorFor(PasswordErrorMessage(validation.password.error)) == Custom(PasswordErrorMessage(validation.password.error).value)
  {
  }
}
