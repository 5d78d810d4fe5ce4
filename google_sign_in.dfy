/**
 * The string side of the iOS Google sign-in: percent-encoding of query
 * values (`pEncode`), the authorization URL, the PKCE code verifier, the
 * classification of the web session's callback and the guard that resumes
 * the waiting coroutine only once. The web session, the token exchange and
 * the UUID source are platform calls; their results are parameters.
 */
module GoogleSignIn {
  import opened Wrappers
  import opened Kotlin

  // ----- pEncode -----

  /** The characters copied as they are: letters, digits and `- . _ ~`. */
  predicate IsUnreserved(c: char) {
    IsLetterOrDigit(c) || c == '-' || c == '.' || c == '_' || c == '~'
  }

  predicate IsUpperHexChar(c: char) {
    ('0' <= c <= '9') || ('A' <= c <= 'F')
  }

  /** The upper-case hex digit for `d`. */
  function HexDigit(d: nat): (c: char)
    requires d < 16
    ensures IsUpperHexChar(c)
  {
    if d < 10 then ('0' as int + d) as char else ('A' as int + d - 10) as char
  }

  /** `n.toString(16).uppercase()`: the digits of `n` in base 16, most significant first. */
  function UpperHexDigits(n: nat): (r: string)
    ensures |r| > 0
    ensures forall i :: 0 <= i < |r| ==> IsUpperHexChar(r[i])
    ensures n < 256 ==> |r| <= 2
  {
    if n < 16 then [HexDigit(n)] else UpperHexDigits(n / 16) + [HexDigit(n % 16)]
  }

  /** `padStart(2, '0')`. */
  function PadStart2(s: string): (r: string)
    ensures |r| == if |s| >= 2 then |s| else 2
    ensures |s| >= 2 ==> r == s
  {
    if |s| >= 2 then s else if |s| == 1 then ['0'] + s else "00"
  }

  /** How one character is written: itself, or '%' and its code in upper-case hex, at least two digits. */
  function Escape(c: char): (r: string)
    ensures IsUnreserved(c) ==> r == [c]
    ensures !IsUnreserved(c) ==> r == "%" + PadStart2(UpperHexDigits(c as int))
  {
    if IsUnreserved(c) then [c] else "%" + PadStart2(UpperHexDigits(c as int))
  }

  /** What `pEncode` builds for `s`: the escapes of its characters in order. */
  function PEncodeOf(s: string): string
  {
    if |s| == 0 then "" else PEncodeOf(s[..|s| - 1]) + Escape(s[|s| - 1])
  }

  /** `pEncode`: append each character or its escape to a builder. */
  method PEncode(s: string) returns (out: string)
    ensures out == PEncodeOf(s)
  {
    out := "";
    for i := 0 to |s|
      invariant out == PEncodeOf(s[..i])
    {
      assert s[..i + 1][..i] == s[..i];
      if IsLetterOrDigit(s[i]) || s[i] == '-' || s[i] == '.' || s[i] == '_' || s[i] == '~' {
        out := out + [s[i]];
      } else {
        out := out + "%" + PadStart2(UpperHexDigits(s[i] as int));
      }
    }
    assert s[..|s|] == s;
  }

  /** A character below 256 that is escaped takes exactly two hex digits. */
  lemma EscapeOfByte(c: char)
    requires !IsUnreserved(c) && c as int < 256
    ensures Escape(c) == ['%', HexDigit(c as int / 16), HexDigit(c as int % 16)]
  {
    var n := c as int;
    if n < 16 {
      assert UpperHexDigits(n) == [HexDigit(n)];
      assert HexDigit(0) == '0';
    } else {
      assert UpperHexDigits(n / 16) == [HexDigit(n / 16)];
    }
  }

  /** An escape holds only unreserved characters and '%'. */
  lemma EscapeIsSafe(c: char)
    ensures forall k :: 0 <= k < |Escape(c)| ==> IsUnreserved(Escape(c)[k]) || Escape(c)[k] == '%'
  {
    if !IsUnreserved(c) {
      var digits := PadStart2(UpperHexDigits(c as int));
      forall k | 0 <= k < |digits| ensures IsUnreserved(digits[k]) {
        if k >= |digits| - |UpperHexDigits(c as int)| {
          assert digits[k] == UpperHexDigits(c as int)[k - (|digits| - |UpperHexDigits(c as int)|)];
        }
      }
    }
  }

  /**
   * Encoded text holds only letters, digits, `- . _ ~` and '%': no reserved
   * character such as '&', '=', '?', '/' or '#' survives unescaped.
   */
  lemma {:induction false} PEncodeIsSafe(s: string)
    ensures forall k :: 0 <= k < |PEncodeOf(s)| ==> IsUnreserved(PEncodeOf(s)[k]) || PEncodeOf(s)[k] == '%'
  {
    if |s| > 0 {
      PEncodeIsSafe(s[..|s| - 1]);
      EscapeIsSafe(s[|s| - 1]);
    }
  }

  /** Text of unreserved characters only is encoded as itself. */
  lemma {:induction false} PEncodeOfUnreserved(s: string)
    requires forall k :: 0 <= k < |s| ==> IsUnreserved(s[k])
    ensures PEncodeOf(s) == s
  {
    if |s| > 0 {
      PEncodeOfUnreserved(s[..|s| - 1]);
      assert s == s[..|s| - 1] + [s[|s| - 1]];
    }
  }

  /** Encoding text that holds no '&' and nothing else reserved keeps it free of '&'. */
  lemma PEncodeHasNoAmpersand(s: string)
    ensures '&' !in PEncodeOf(s)
  {
    PEncodeIsSafe(s);
  }

  /**
   * The escape of a character above U+00FF has three or more digits, so it
   * reads like the escape of a smaller code followed by plain digits: the
   * euro sign U+20AC and the text " AC" are encoded alike.
   */
  lemma PEncodeCollision()
    ensures PEncodeOf("€") == PEncodeOf(" AC") == "%20AC"
  {
    EuroEscape();
    SpaceACEncoding();
    assert "€"[..0] == "";
  }

  lemma EuroEscape()
    ensures Escape('€') == "%20AC"
  {
    assert UpperHexDigits(0x20) == "20";
    assert UpperHexDigits(0x20A) == "20A";
    assert UpperHexDigits(0x20AC) == "20AC";
  }

  lemma SpaceACEncoding()
    ensures PEncodeOf(" AC") == "%20AC"
  {
    EscapeOfByte(' ');
    assert " AC"[..2] == " A" && " A"[..1] == " " && " "[..0] == "";
  }

  // ----- buildAuthUrl -----

  const AUTH_BASE: string := "https://accounts.google.com/o/oauth2/v2/auth"
  const SCOPE: string := "openid email profile"

  function RedirectUri(redirectScheme: string): string {
    redirectScheme + ":/oauth2redirect"
  }

  /** The seven query parameters of `buildAuthUrl`, each "name=value", values encoded. */
  function AuthParameters(clientId: string, redirectScheme: string, codeChallenge: string): seq<string> {
    [ "client_id=" + PEncodeOf(clientId),
      "redirect_uri=" + PEncodeOf(RedirectUri(redirectScheme)),
      "response_type=code",
      "scope=" + PEncodeOf(SCOPE),
      "code_challenge=" + PEncodeOf(codeChallenge),
      "code_challenge_method=plain",
      "prompt=select_account" ]
  }

  /** The query string `buildAuthUrl` writes after the '?': the parameters separated by '&'. */
  function AuthQuery(clientId: string, redirectScheme: string, codeChallenge: string): string {
    var p := AuthParameters(clientId, redirectScheme, codeChallenge);
    p[0] + "&" + p[1] + "&" + p[2] + "&" + p[3] + "&" + p[4] + "&" + p[5] + "&" + p[6]
  }

  /** `buildAuthUrl`, up to the platform's URL parsing. */
  function BuildAuthUrl(clientId: string, redirectScheme: string, codeChallenge: string): string {
    AUTH_BASE + "?" + AuthQuery(clientId, redirectScheme, codeChallenge)
  }

  /** Seven pieces joined by '&' in one template are their `Join`. */
  lemma JoinSeven(p: seq<string>)
    requires |p| == 7
    ensures p[0] + "&" + p[1] + "&" + p[2] + "&" + p[3] + "&" + p[4] + "&" + p[5] + "&" + p[6] == Join(p, '&')
  {
    for k := 1 to 7
      invariant Join(p[..k], '&') == JoinedPrefix(p, k)
    {
      assert p[..k + 1] == p[..k] + [p[k]];
      JoinSnoc(p[..k], p[k], '&');
    }
    assert p[..7] == p;
    assert JoinedPrefix(p, 2) == p[0] + "&" + p[1];
    assert JoinedPrefix(p, 3) == p[0] + "&" + p[1] + "&" + p[2];
    assert JoinedPrefix(p, 4) == p[0] + "&" + p[1] + "&" + p[2] + "&" + p[3];
    assert JoinedPrefix(p, 5) == p[0] + "&" + p[1] + "&" + p[2] + "&" + p[3] + "&" + p[4];
    assert JoinedPrefix(p, 6) == p[0] + "&" + p[1] + "&" + p[2] + "&" + p[3] + "&" + p[4] + "&" + p[5];
  }

  /** The first `k` pieces of the template, left to right. */
  function JoinedPrefix(p: seq<string>, k: nat): string
    requires 1 <= k <= |p|
  {
    if k == 1 then p[0] else JoinedPrefix(p, k - 1) + "&" + p[k - 1]
  }

  /** Nothing before the '?' but the endpoint. */
  lemma AuthUrlPrefix(query: string)
    ensures SubstringBefore(AUTH_BASE + "?" + query, '?') == AUTH_BASE
  {
    assert forall i :: 0 <= i < |AUTH_BASE| ==> AUTH_BASE[i] != '?';
    assert AUTH_BASE + "?" + query == AUTH_BASE + ['?'] + query;
    SubstringBeforeCons(AUTH_BASE, '?', query);
  }

  /** No parameter holds an '&': the names are fixed and the values encoded. */
  lemma ParametersHaveNoAmpersand(clientId: string, redirectScheme: string, codeChallenge: string)
    ensures var p := AuthParameters(clientId, redirectScheme, codeChallenge);
      forall i :: 0 <= i < |p| ==> '&' !in p[i]
  {
    var p := AuthParameters(clientId, redirectScheme, codeChallenge);
    NameHasNoAmpersand("client_id=", clientId);
    NameHasNoAmpersand("redirect_uri=", RedirectUri(redirectScheme));
    NameHasNoAmpersand("scope=", SCOPE);
    NameHasNoAmpersand("code_challenge=", codeChallenge);
    FixedParametersHaveNoAmpersand();
  }

  lemma NameHasNoAmpersand(name: string, value: string)
    requires forall i :: 0 <= i < |name| ==> name[i] != '&'
    ensures '&' !in name + PEncodeOf(value)
  {
    PEncodeHasNoAmpersand(value);
  }

  lemma FixedParametersHaveNoAmpersand()
    ensures '&' !in "response_type=code"
    ensures '&' !in "code_challenge_method=plain"
    ensures '&' !in "prompt=select_account"
  {
  }

  /** The query splits at '&' into the seven parameters. */
  lemma AuthQuerySplits(clientId: string, redirectScheme: string, codeChallenge: string)
    ensures Split(AuthQuery(clientId, redirectScheme, codeChallenge), '&') == AuthParameters(clientId, redirectScheme, codeChallenge)
  {
    var p := AuthParameters(clientId, redirectScheme, codeChallenge);
    JoinSeven(p);
    ParametersHaveNoAmpersand(clientId, redirectScheme, codeChallenge);
    SplitJoin(p, '&');
  }

  /**
   * Whatever the client id, redirect scheme and challenge hold, the query
   * splits at '&' into exactly the seven parameters in order: no value can
   * add or break a parameter.
   */
  lemma AuthUrlParameters(clientId: string, redirectScheme: string, codeChallenge: string)
    ensures var url := BuildAuthUrl(clientId, redirectScheme, codeChallenge);
      && SubstringBefore(url, '?') == AUTH_BASE
      && url == AUTH_BASE + "?" + AuthQuery(clientId, redirectScheme, codeChallenge)
      && Split(AuthQuery(clientId, redirectScheme, codeChallenge), '&') == AuthParameters(clientId, redirectScheme, codeChallenge)
  {
    AuthUrlPrefix(AuthQuery(clientId, redirectScheme, codeChallenge));
    AuthQuerySplits(clientId, redirectScheme, codeChallenge);
  }

  // ----- generateCodeVerifier -----

  /** `filter { it.isLetterOrDigit() || it in "-._~" }`. */
  function KeepUnreserved(s: string): (r: string)
    ensures |r| <= |s|
    ensures forall k :: 0 <= k < |r| ==> IsUnreserved(r[k])
    ensures (forall k :: 0 <= k < |s| ==> IsUnreserved(s[k])) ==> r == s
  {
    if |s| == 0 then ""
    else if IsUnreserved(s[0]) then [s[0]] + KeepUnreserved(s[1..])
    else KeepUnreserved(s[1..])
  }

  const VERIFIER_LENGTH: nat := 64

  /** `generateCodeVerifier`, with the two UUID strings as parameters: filter, then `take(64)`. */
  function CodeVerifier(uuid1: string, uuid2: string): (r: string)
    ensures |r| <= VERIFIER_LENGTH
    ensures forall k :: 0 <= k < |r| ==> IsUnreserved(r[k])
    ensures |KeepUnreserved(uuid1 + uuid2)| >= VERIFIER_LENGTH ==> |r| == VERIFIER_LENGTH
  {
    var kept := KeepUnreserved(uuid1 + uuid2);
    if |kept| <= VERIFIER_LENGTH then kept else kept[..VERIFIER_LENGTH]
  }

  /** A UUID string: 36 characters, hex digits and dashes. */
  predicate IsUuidString(s: string) {
    |s| == 36 && forall k :: 0 <= k < |s| ==> s[k] == '-' || IsUpperHexChar(s[k])
  }

  /** Two UUIDs give the first 64 of their 72 characters, and the verifier goes into the URL unescaped. */
  lemma CodeVerifierOfUuids(uuid1: string, uuid2: string)
    requires IsUuidString(uuid1) && IsUuidString(uuid2)
    ensures CodeVerifier(uuid1, uuid2) == (uuid1 + uuid2)[..VERIFIER_LENGTH]
    ensures PEncodeOf(CodeVerifier(uuid1, uuid2)) == CodeVerifier(uuid1, uuid2)
  {
    var raw := uuid1 + uuid2;
    assert forall k :: 0 <= k < |raw| ==> raw[k] == '-' || IsUpperHexChar(raw[k]);
    PEncodeOfUnreserved(CodeVerifier(uuid1, uuid2));
  }

  // ----- The completion handler -----

  /** `GoogleSignInResult`. */
  datatype SignInResult = SignInResult(idToken: Option<string>, accessToken: Option<string>, errorMessage: Option<string>)

  datatype QueryItem = QueryItem(name: string, value: Option<string>)

  /** A "code" item with a non-blank value. */
  predicate IsCodeItem(q: QueryItem) {
    q.name == "code" && q.value.Some? && !IsBlank(q.value.value)
  }

  /** `extractAuthCode`: the first "code" item with a non-blank value. */
  function ExtractAuthCode(items: seq<QueryItem>): (r: Option<string>)
    ensures r.Some? ==> !IsBlank(r.value) && QueryItem("code", r) in items
    ensures r.Some? ==> exists k | 0 <= k < |items| ::
      items[k] == QueryItem("code", r) && forall j | 0 <= j < k :: !IsCodeItem(items[j])
    ensures r.None? ==> forall k :: 0 <= k < |items| && items[k].name == "code" ==>
      items[k].value.None? || IsBlank(items[k].value.value)
  {
    if |items| == 0 then None
    else if IsCodeItem(items[0]) then items[0].value
    else
      var r := ExtractAuthCode(items[1..]);
      if r.Some? then
        var k :| 0 <= k < |items[1..]| && items[1..][k] == QueryItem("code", r)
          && forall j | 0 <= j < k :: !IsCodeItem(items[1..][j]);
        assert items[k + 1] == QueryItem("code", r) && forall j | 0 <= j < k + 1 :: !IsCodeItem(items[j]);
        r
      else r
  }

  /** What the completion handler does: resume with a result now, or start the token exchange. */
  datatype Completion = ResumeWith(result: SignInResult) | ExchangeCode(code: string)

  /**
   * The `when` of the completion handler: an error wins, then a callback URL
   * with or without a code; no URL and no error means the user cancelled.
   */
  function CompletionOf(callbackItems: Option<seq<QueryItem>>, error: Option<string>): (c: Completion)
    ensures error.Some? ==> c == ResumeWith(SignInResult(None, None, error))
    ensures error.None? && callbackItems.None? ==> c == ResumeWith(SignInResult(None, None, Some("Google sign in canceled")))
    ensures c.ExchangeCode? <==> error.None? && callbackItems.Some? && ExtractAuthCode(callbackItems.value).Some?
    ensures c.ExchangeCode? ==> Some(c.code) == ExtractAuthCode(callbackItems.value)
    ensures error.None? && callbackItems.Some? && ExtractAuthCode(callbackItems.value).None? ==>
      c == ResumeWith(SignInResult(None, None, Some("Missing authorization code")))
  {
    if error.Some? then ResumeWith(SignInResult(None, None, error))
    else if callbackItems.Some? then
      match ExtractAuthCode(callbackItems.value)
      case Some(code) => ExchangeCode(code)
      case None => ResumeWith(SignInResult(None, None, Some("Missing authorization code")))
    else ResumeWith(SignInResult(None, None, Some("Google sign in canceled")))
  }

  /**
   * The state `completion` closes over: the `didResume` flag and what the
   * continuation has received.
   */
  class ResumeGuard {
    var didResume: bool
    var delivered: seq<SignInResult>

    /** The continuation receives at most one result, and only once the flag is set. */
    ghost predicate Valid()
      reads this
    {
      |delivered| <= 1 && (!didResume ==> delivered == [])
    }

    constructor()
      ensures Valid() && !didResume && delivered == []
    {
      didResume := false;
      delivered := [];
    }

    /**
     * `resumeOnce`: later calls are ignored; the first sets the flag and
     * resumes the continuation if it is still active.
     */
    method ResumeOnce(result: SignInResult, isActive: bool)
      requires Valid()
      modifies this
      ensures Valid() && didResume
      ensures old(didResume) ==> delivered == old(delivered)
      ensures !old(didResume) ==> delivered == (if isActive then [result] else [])
    {
      if didResume {
        return;
      }
      didResume := true;
      if isActive {
        delivered := delivered + [result];
      }
    }
  }

  /** A second callback from the platform changes nothing. */
  method DuplicateCallbackIgnored(first: SignInResult, second: SignInResult) returns (received: seq<SignInResult>)
    ensures received == [first]
  {
    var guard := new ResumeGuard();
    guard.ResumeOnce(first, true);
    guard.ResumeOnce(second, true);
    received := guard.delivered;
  }
}
