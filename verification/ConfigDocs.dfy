/** The list-valued project-config documents: auth methods, MFA factors, rate limits, consents. */
module ConfigDocs {
  import opened Text
  import opened Bytes
  import opened SeenMap

  // ------------------------------------------------------------------ registries

  const AUTH_METHODS: seq<string> := ["email", "oauth", "passkey", "magic_link", "phone"]
  const MFA_FACTORS: seq<string> := ["totp", "sms", "email_otp", "webauthn", "backup_codes"]
  const RATE_LIMIT_BY: seq<string> := ["ip"]
  const RATE_LIMIT_ACTIONS: seq<string> := []
  function RateLimitEndpoints(): (r: seq<string>)
    ensures |r| == 25
  {
    [
      "/v1/auth/guest",
      "/v1/auth/sign-in/password",
      "/v1/auth/password/forgot",
      "/v1/auth/password/reset",
      "/v1/auth/password/verify",
      "/v1/auth/email/verification/start",
      "/v1/auth/email/verification/verify",
      "/v1/auth/phone/verification/start",
      "/v1/auth/phone/verification/verify",
      "/v1/auth/otp/start",
      "/v1/auth/otp/verify",
      "/v1/auth/magic-link/start",
      "/v1/auth/magic-link/verify",
      "/v1/auth/mfa/challenge",
      "/v1/auth/mfa/verify",
      "/v1/auth/webauthn/login/options",
      "/v1/auth/webauthn/login/verify",
      "/v1/auth/webauthn/register/options",
      "/v1/auth/webauthn/register/verify",
      "/v1/challenges/captcha/verify",
      "/v1/auth/sign-up",
      "/v1/auth/token/refresh",
      "/v1/auth/token/exchange",
      "/v1/auth/oauth/exchange",
      "/v1/auth/access-requests"
    ]
  }

  // ------------------------------------------------------------------ auth methods

  function CheckMember(registry: seq<string>): string -> Result<string, string> {
    v => if v in registry then Ok(v) else Err("unsupported")
  }

  method ValidateMethods(methods: seq<string>) returns (r: Option<string>)
    ensures r.None? <==>
              && (forall m | m in methods :: m in ["email", "oauth", "passkey", "magic_link", "phone"])
              && Distinct(methods)
  {
    r := CheckEntries(methods, CheckMember(AUTH_METHODS), "duplicate");
  }

  // ------------------------------------------------------------------ mfa_policy

  /** A factor list that is present but empty differs from an absent one. */
  datatype MfaPolicy = MfaPolicy(requiredForAdmins: Option<bool>, allowedFactors: Option<seq<string>>) {
    function Factors(): seq<string> {
      if allowedFactors.None? then [] else allowedFactors.value
    }

    predicate LocksOut() {
      allowedFactors == Some([]) && requiredForAdmins == Some(true)
    }

    /** Known factors without repetition, and some factor to use if MFA is required. */
    ghost predicate Accepted() {
      allowedFactors.Some? ==>
        && (forall f | f in allowedFactors.value :: f in ["totp", "sms", "email_otp", "webauthn", "backup_codes"])
        && Distinct(allowedFactors.value)
        && (requiredForAdmins == Some(true) ==> allowedFactors.value != [])
    }
  }

  method ValidateMfaPolicy(p: MfaPolicy) returns (r: Option<string>)
    ensures r.None? <==> p.Accepted()
  {
    r := CheckEntries(p.Factors(), CheckMember(MFA_FACTORS), "duplicate");
    if r.None? && p.LocksOut() {
      r := Some("allowed_factors cannot be empty when MFA is required");
    }
  }

  function PolicyFactorName(dbFactor: string): string {
    if dbFactor == "email" then "email_otp"
    else if dbFactor == "recovery" || dbFactor == "backup_codes" then "backup_codes"
    else dbFactor
  }

  method FactorAllowed(p: MfaPolicy, dbFactor: string) returns (ok: bool)
    ensures ok <==>
              || p.allowedFactors.None? || p.allowedFactors == Some([])
              || match dbFactor
                 case "email" => "email_otp" in p.allowedFactors.value
                 case "recovery" => "backup_codes" in p.allowedFactors.value
                 case "backup_codes" => "backup_codes" in p.allowedFactors.value
                 case _ => dbFactor in p.allowedFactors.value
  {
    var factors := p.Factors();
    if |factors| == 0 {
      return true;
    }
    for i := 0 to |factors|
      invariant PolicyFactorName(dbFactor) !in factors[..i]
    {
      if factors[i] == PolicyFactorName(dbFactor) {
        return true;
      }
    }
    assert factors[..|factors|] == factors;
    return false;
  }

  /** The factor types that exist in the database. */
  const DB_FACTORS: seq<string> := ["totp", "sms", "email", "webauthn", "recovery"]

  /** Every factor a policy may list is what some database factor type maps to ... */
  lemma EveryFactorIsReal(f: string) returns (db: string)
    requires f in MFA_FACTORS
    ensures db in DB_FACTORS && PolicyFactorName(db) == f
  {
    db := if f == "email_otp" then "email" else if f == "backup_codes" then "recovery" else f;
    assert db in DB_FACTORS by {
      assert DB_FACTORS[0] == "totp" && DB_FACTORS[1] == "sms" && DB_FACTORS[3] == "webauthn";
      assert DB_FACTORS[2] == "email" && DB_FACTORS[4] == "recovery";
    }
  }

  /** ... and of only one, ... */
  lemma FactorNamesDiffer(a: string, b: string)
    requires a in DB_FACTORS && b in DB_FACTORS && a != b
    ensures PolicyFactorName(a) != PolicyFactorName(b)
  {
    assert DB_FACTORS == ["totp", "sms", "email", "webauthn", "recovery"];
    assert forall i, j | 0 <= i < j < 5 :: DB_FACTORS[i] != DB_FACTORS[j];
  }

  /** ... so no accepted policy leaves a user without any factor to enrol. */
  lemma AcceptedPolicyAllowsSomeFactor(p: MfaPolicy) returns (db: string)
    requires p.Accepted()
    ensures db in DB_FACTORS && (p.Factors() == [] || PolicyFactorName(db) in p.Factors())
  {
    if p.Factors() == [] {
      db := DB_FACTORS[0];
    } else {
      assert p.Factors()[0] in p.Factors();
      db := EveryFactorIsReal(p.Factors()[0]);
    }
  }

  /** Dropping or reordering factors keeps a policy accepted, except for dropping all of them while
      MFA is required. */
  lemma FewerFactors(p: MfaPolicy, fs: seq<string>)
    requires p.Accepted() && multiset(fs) <= multiset(p.Factors())
    ensures p.(allowedFactors := Some(fs)).Accepted() <==> !(fs == [] && p.requiredForAdmins == Some(true))
  {
    assert Accepts(p.Factors(), CheckMember(MFA_FACTORS));
    FewerEntriesAccepted(p.Factors(), fs, CheckMember(MFA_FACTORS));
    forall f | f in fs ensures f in MFA_FACTORS {
      var i :| 0 <= i < |fs| && fs[i] == f;
    }
    forall i, j | 0 <= i < j < |fs| ensures fs[i] != fs[j] {
      assert CheckMember(MFA_FACTORS)(fs[i]) != CheckMember(MFA_FACTORS)(fs[j]);
    }
  }

  // ------------------------------------------------------------------ rate_limits

  datatype RateLimitRule = RateLimitRule(
    endpoint: Option<string>, action: Option<string>, limit: Option<int>,
    windowSeconds: Option<int>, subject: Option<string>)

  const MAX_LIMIT := 1000000
  const MAX_WINDOW := 86400

  /** One rule on its own; the key is read only after both its parts are known to be present. */
  function CheckRule(r: RateLimitRule): Result<(string, string), string> {
    if r.subject.None? || TrimSpace(r.subject.value) == "" then Err("by is required")
    else if r.subject.value !in RATE_LIMIT_BY then Err("by: unsupported subject")
    else if r.endpoint.None? || TrimSpace(r.endpoint.value) == "" then Err("endpoint is required")
    else if r.endpoint.value !in RateLimitEndpoints() then Err("endpoint: unsupported endpoint")
    else if r.action.Some? && TrimSpace(r.action.value) != "" && r.action.value !in RATE_LIMIT_ACTIONS then
      Err("action not supported yet")
    else if r.limit.None? || r.limit.value < 1 then Err("limit must be >= 1")
    else if r.limit.value > MAX_LIMIT then Err("limit exceeds maximum")
    else if r.windowSeconds.None? || r.windowSeconds.value < 1 then Err("window_seconds must be >= 1")
    else if r.windowSeconds.value > MAX_WINDOW then Err("window_seconds exceeds maximum")
    else Ok((r.endpoint.value, r.subject.value))
  }

  lemma NonBlankFirst(s: string)
    requires s != "" && !IsSpace(s[0])
    ensures TrimSpace(s) != ""
  {
    assert TrimLeft(s) == s;
    TrimRightKeepsFirst(s);
  }

  lemma {:induction false} TrimRightKeepsFirst(s: string)
    requires s != "" && !IsSpace(s[0])
    ensures TrimRight(s) != ""
  {
    if IsSpace(s[|s| - 1]) {
      TrimRightKeepsFirst(s[..|s| - 1]);
    }
  }

  lemma EndpointsStartWithSlash()
    ensures forall i | 0 <= i < |RateLimitEndpoints()| ::
              RateLimitEndpoints()[i] != "" && RateLimitEndpoints()[i][0] == '/'
  {
  }

  /** The endpoints that can be limited: signing in and up, one-time secrets, second factors,
      verification of addresses, and tokens. */
  predicate LimitedEndpoint(e: string) {
    || e in {"/v1/auth/guest", "/v1/auth/sign-in/password", "/v1/auth/sign-up", "/v1/auth/access-requests"}
    || e in {"/v1/auth/password/forgot", "/v1/auth/password/reset", "/v1/auth/password/verify"}
    || e in {"/v1/auth/email/verification/start", "/v1/auth/email/verification/verify"}
    || e in {"/v1/auth/phone/verification/start", "/v1/auth/phone/verification/verify"}
    || e in {"/v1/auth/otp/start", "/v1/auth/otp/verify"}
    || e in {"/v1/auth/magic-link/start", "/v1/auth/magic-link/verify"}
    || e in {"/v1/auth/mfa/challenge", "/v1/auth/mfa/verify", "/v1/challenges/captcha/verify"}
    || e in {"/v1/auth/webauthn/login/options", "/v1/auth/webauthn/login/verify"}
    || e in {"/v1/auth/webauthn/register/options", "/v1/auth/webauthn/register/verify"}
    || e in {"/v1/auth/token/refresh", "/v1/auth/token/exchange", "/v1/auth/oauth/exchange"}
  }

  /** A rule on its own: a known endpoint per IP, no action, both numbers in range. */
  predicate RuleValid(r: RateLimitRule) {
    && r.subject == Some("ip")
    && r.endpoint.Some? && LimitedEndpoint(r.endpoint.value)
    && (r.action.None? || forall i | 0 <= i < |r.action.value| :: IsSpace(r.action.value[i]))
    && r.limit.Some? && 1 <= r.limit.value <= 1_000_000
    && r.windowSeconds.Some? && 1 <= r.windowSeconds.value <= 86_400
  }

  lemma EndpointIff(e: string)
    ensures e in RateLimitEndpoints() <==> LimitedEndpoint(e)
  {
  }

  /** The chain of checks accepts exactly the valid rules; the blank tests add nothing to the
      registries. */
  lemma RuleValidIff(r: RateLimitRule)
    ensures CheckRule(r).Ok? <==> RuleValid(r)
  {
    EndpointsStartWithSlash();
    hide RateLimitEndpoints, LimitedEndpoint, TrimSpace, IsSpace;
    assert RATE_LIMIT_BY == ["ip"];
    SlashAndI();
    if r.subject == Some("ip") {
      NonBlankFirst("ip");
    }
    if r.endpoint.Some? {
      EndpointIff(r.endpoint.value);
      if r.endpoint.value in RateLimitEndpoints() {
        NonBlankFirst(r.endpoint.value);
      }
    }
    if r.action.Some? {
      TrimSpaceEmptyIff(r.action.value);
    }
  }

  lemma SlashAndI()
    ensures !IsSpace('/') && !IsSpace('i')
  {
  }

  /** Valid rules, no two for the same endpoint. */
  ghost predicate RulesValid(rules: seq<RateLimitRule>) {
    && (forall i | 0 <= i < |rules| :: RuleValid(rules[i]))
    && (forall i, j | 0 <= i < j < |rules| :: rules[i].endpoint != rules[j].endpoint)
  }

  method ValidateRateLimits(rules: seq<RateLimitRule>) returns (r: Option<string>)
    ensures r.None? <==> RulesValid(rules)
  {
    hide CheckRule, RuleValid, RulesValid;
    r := CheckEntries(rules, CheckRule, "duplicate (endpoint, by) rule");
    RulesValidIff(rules);
  }

  lemma RulesValidIff(rules: seq<RateLimitRule>)
    ensures Accepts(rules, CheckRule) <==> RulesValid(rules)
  {
    hide CheckRule, RuleValid;
    forall i | 0 <= i < |rules|
      ensures CheckRule(rules[i]).Ok? <==> RuleValid(rules[i])
      ensures CheckRule(rules[i]).Ok? ==>
                rules[i].endpoint.Some? && CheckRule(rules[i]) == Ok((rules[i].endpoint.value, "ip"))
    {
      RuleValidIff(rules[i]);
      if CheckRule(rules[i]).Ok? { RuleKey(rules[i]); }
    }
  }

  lemma RuleKey(r: RateLimitRule)
    requires CheckRule(r).Ok?
    ensures r.endpoint.Some? && r.endpoint.value in RateLimitEndpoints()
    ensures CheckRule(r) == Ok((r.endpoint.value, "ip"))
  {
    hide RateLimitEndpoints, TrimSpace;
    assert r.subject.value == RATE_LIMIT_BY[0];
  }

  /** There is one subject, so each endpoint is named at most once; by pigeonhole there are no more
      rules than endpoints. */
  lemma AtMostOneRulePerEndpoint(rules: seq<RateLimitRule>)
    requires RulesValid(rules)
    ensures |rules| <= 25
  {
    RulesValidIff(rules);
    hide RuleValid;
    forall i | 0 <= i < |rules|
      ensures rules[i].endpoint.Some? && rules[i].endpoint.value in RateLimitEndpoints()
      ensures CheckRule(rules[i]) == Ok((rules[i].endpoint.value, "ip"))
    {
      RuleKey(rules[i]);
    }
    hide CheckRule, RateLimitEndpoints;
    var endpoints := seq(|rules|, i requires 0 <= i < |rules| => rules[i].endpoint.value);
    DistinctCount(endpoints, Elements(RateLimitEndpoints()));
    ElementsCount(RateLimitEndpoints());
  }

  // ------------------------------------------------------------------ consent

  datatype ConsentDocument = ConsentDocument(
    key: string, version: string, title: Option<string>, body: Option<string>,
    locale: Option<string>, required: Option<bool>, url: Option<string>)

  const MAX_DOCS := 200
  const MAX_BODY := 64 * 1024

  predicate NonBlank(s: Option<string>) { s.Some? && TrimSpace(s.value) != "" }

  lemma NonBlankIff(s: Option<string>)
    ensures NonBlank(s) <==> s.Some? && exists i | 0 <= i < |s.value| :: !IsSpace(s.value[i])
  {
    if s.Some? {
      TrimSpaceEmptyIff(s.value);
    }
  }

  /** One document on its own.  absolute decides whether a string is an absolute http(s) URL. */
  function CheckDocument(absolute: string -> bool): ConsentDocument -> Result<(string, string, string), string> {
    (d: ConsentDocument) =>
      if TrimSpace(d.key) == "" then Err("key is required")
      else if TrimSpace(d.version) == "" then Err("version is required")
      else if d.required == Some(true) && !NonBlank(d.title) then Err("title is required for a required consent")
      else if d.required == Some(true) && !NonBlank(d.body) && !NonBlank(d.url) then
        Err("body or url is required for a required consent")
      else if d.body.Some? && |Utf8(d.body.value)| > MAX_BODY then Err("body exceeds maximum size")
      else if d.locale.Some? && TrimSpace(d.locale.value) == "" && d.locale.value != "" then
        Err("locale must not be blank")
      else if NonBlank(d.url) && !absolute(d.url.value) then Err("url must be an absolute http(s) URL")
      else Ok((TrimSpace(d.key), if d.locale.Some? then d.locale.value else "", TrimSpace(d.version)))
  }

  ghost predicate ConsentAccepted(docs: seq<ConsentDocument>, absolute: string -> bool) {
    |docs| <= MAX_DOCS && Accepts(docs, CheckDocument(absolute))
  }

  method ValidateConsent(docs: seq<ConsentDocument>, absolute: string -> bool) returns (r: Option<string>)
    ensures r.None? <==> ConsentAccepted(docs, absolute)
  {
    if |docs| > MAX_DOCS {
      return Some("too many consent documents");
    }
    r := CheckEntries(docs, CheckDocument(absolute), "duplicate consent document (key, locale, version)");
  }

  /** Deleting or reordering documents keeps a consent config accepted, cap included. */
  lemma FewerDocuments(docs: seq<ConsentDocument>, fewer: seq<ConsentDocument>, absolute: string -> bool)
    requires ConsentAccepted(docs, absolute) && multiset(fewer) <= multiset(docs)
    ensures ConsentAccepted(fewer, absolute)
  {
    FewerEntriesAccepted(docs, fewer, CheckDocument(absolute));
    assert |multiset(docs)| == |multiset(fewer)| + |multiset(docs) - multiset(fewer)|;
  }

  /** A document on its own: named and versioned, of bounded size, with a real locale and a real
      link where given; a required one has a title and something to read. */
  predicate Presentable(d: ConsentDocument, absolute: string -> bool) {
    && NonBlank(Some(d.key)) && NonBlank(Some(d.version))
    && (d.required == Some(true) ==> NonBlank(d.title) && (NonBlank(d.body) || NonBlank(d.url)))
    && (d.body.Some? ==> |Utf8(d.body.value)| <= 65536)
    && (d.locale.Some? ==> d.locale.value == "" || NonBlank(d.locale))
    && (NonBlank(d.url) ==> absolute(d.url.value))
  }

  /** Two texts of the same document: white space around key and version is no difference, and a
      missing locale is the empty one. */
  predicate SameDocument(a: ConsentDocument, b: ConsentDocument) {
    && TrimSpace(a.key) == TrimSpace(b.key) && TrimSpace(a.version) == TrimSpace(b.version)
    && (a.locale == b.locale || (a.locale in {None, Some("")} && b.locale in {None, Some("")}))
  }

  lemma DocumentValidIff(d: ConsentDocument, absolute: string -> bool)
    ensures CheckDocument(absolute)(d).Ok? <==> Presentable(d, absolute)
  {
    hide TrimSpace, Utf8;
  }

  lemma DocumentKeys(a: ConsentDocument, b: ConsentDocument, absolute: string -> bool)
    requires Presentable(a, absolute) && Presentable(b, absolute)
    ensures CheckDocument(absolute)(a) == CheckDocument(absolute)(b) <==> SameDocument(a, b)
  {
    hide TrimSpace, Utf8;
  }

  /** A consent config is accepted exactly when it has at most 200 documents, all presentable, no two
      the same. */
  lemma ConsentAcceptedIff(docs: seq<ConsentDocument>, absolute: string -> bool)
    ensures ConsentAccepted(docs, absolute) <==>
              && |docs| <= 200
              && (forall i | 0 <= i < |docs| :: Presentable(docs[i], absolute))
              && (forall i, j | 0 <= i < j < |docs| :: !SameDocument(docs[i], docs[j]))
  {
    hide CheckDocument, Presentable, SameDocument;
    forall i | 0 <= i < |docs|
      ensures CheckDocument(absolute)(docs[i]).Ok? <==> Presentable(docs[i], absolute)
    {
      DocumentValidIff(docs[i], absolute);
    }
    forall i, j | 0 <= i < j < |docs| && Presentable(docs[i], absolute) && Presentable(docs[j], absolute)
      ensures CheckDocument(absolute)(docs[i]) == CheckDocument(absolute)(docs[j])
              <==> SameDocument(docs[i], docs[j])
    {
      DocumentKeys(docs[i], docs[j], absolute);
    }
  }
}
