/** The bearer-token validator configured at start-up: signing key, issuer,
    audience and lifetime checks, and the principal an accepted token yields. */
module TokenValidation {
  import opened Wrappers
  import opened Models
  import opened Configuration
  import opened TokenService
  import Utf8
  import Hmac
  import Text

  /** The validation parameters; issuer, audience, lifetime and signing-key checks are all on. */
  datatype ValidationParameters = ValidationParameters(
    validIssuer: string,
    validAudience: string,
    signingKey: seq<Utf8.Byte>,
    clockSkew: int)

  /** Why a presented token is refused. */
  datatype Rejection = InvalidSignature | InvalidLifetime | NotYetValid | Expired | InvalidAudience | InvalidIssuer

  /** The claims of an authenticated caller. */
  datatype Principal = Principal(claims: seq<Claim>)

  /** The algorithms a symmetric key verifies. */
  const HmacAlgorithms: set<string> := {"HS256", "HS384", "HS512"}

  /** Builds the parameters from the settings with zero clock skew. The key object
      refuses an empty key, so an empty Jwt:Key yields no validator. */
  function BuildValidationParameters(settings: JwtSettings): (r: Result<ValidationParameters, Exception>)
    ensures r.Success? <==> settings.key != ""
    ensures r.Failure? ==> r.error == EmptySigningKey
    ensures r.Success? ==>
              && r.value.validIssuer == settings.issuer
              && r.value.validAudience == settings.audience
              && r.value.signingKey == Utf8.Encode(settings.key)
              && r.value.clockSkew == 0
  {
    Utf8.EncodeEmpty(settings.key);
    var key := Utf8.Encode(settings.key);
    if |key| == 0 then Failure(EmptySigningKey)
    else Success(ValidationParameters(settings.issuer, settings.audience, key, 0))
  }

  /** The validator a configuration gives: start-up needs all three settings, then the parameters are built. */
  function ValidatorFor(cfg: Config): Result<ValidationParameters, Exception> {
    match LoadJwtSettings(cfg)
    case Failure(e) => Failure(e)
    case Success(settings) => BuildValidationParameters(settings)
  }

  /** The signature verifies when it uses an HMAC algorithm, the expected key is large
      enough for the signature provider, and the two keys sign alike under HMAC. */
  predicate SignatureValid(p: ValidationParameters, s: SigningCredentials) {
    && s.algorithm in HmacAlgorithms
    && |p.signingKey| >= Hmac.MinKeyBytes
    && Hmac.SignAlike(s.algorithm, s.key, p.signingKey)
  }

  /** Audiences match when equal, or equal once one of them drops a single trailing '/'. */
  predicate AudienceMatches(valid: string, audience: string) {
    || valid == audience
    || (|valid| == |audience| + 1 && valid[|audience|] == '/' && valid[..|audience|] == audience)
    || (|audience| == |valid| + 1 && audience[|valid|] == '/' && audience[..|valid|] == valid)
  }

  /** A blank expected audience refuses everything; a blank token audience (an empty one
      is not even written into the token) matches nothing. */
  predicate AudienceValid(p: ValidationParameters, t: Token) {
    !Text.IsBlank(p.validAudience) && !Text.IsBlank(t.audience) && AudienceMatches(p.validAudience, t.audience)
  }

  /** Issuers must be equal and neither may be blank. */
  predicate IssuerValid(p: ValidationParameters, t: Token) {
    !Text.IsBlank(p.validIssuer) && !Text.IsBlank(t.issuer) && t.issuer == p.validIssuer
  }

  /** Validates a presented token at time `now`: signature first, then lifetime,
      audience and issuer. */
  function ValidateToken(p: ValidationParameters, t: Token, now: int): (r: Result<Principal, Rejection>)
    ensures r.Success? <==>
              && SignatureValid(p, t.signing)
              && t.notBefore <= t.expires
              && t.notBefore <= now + p.clockSkew
              && now - p.clockSkew <= t.expires
              && AudienceValid(p, t)
              && IssuerValid(p, t)
    ensures r.Success? ==> r.value.claims == t.claims
    ensures !SignatureValid(p, t.signing) ==> r == Failure(InvalidSignature)
  {
    if !SignatureValid(p, t.signing) then Failure(InvalidSignature)
    else if t.notBefore > t.expires then Failure(InvalidLifetime)
    else if t.notBefore > now + p.clockSkew then Failure(NotYetValid)
    else if t.expires < now - p.clockSkew then Failure(Expired)
    else if !AudienceValid(p, t) then Failure(InvalidAudience)
    else if !IssuerValid(p, t) then Failure(InvalidIssuer)
    else Success(Principal(t.claims))
  }

  /** Neither the configured issuer nor the configured audience is blank. */
  predicate Live(cfg: Config)
    requires Complete(cfg)
  {
    !Text.IsBlank(cfg[IssuerPath]) && !Text.IsBlank(cfg[AudiencePath])
  }

  /** With the configured zero skew, a well-signed token carrying the configured issuer and
      audience is accepted exactly inside its closed lifetime window, provided neither
      setting is blank; earlier it is not yet valid, later it has expired. */
  lemma ZeroSkewWindow(cfg: Config, t: Token, now: int)
    requires ValidatorFor(cfg).Success?
    requires SignatureValid(ValidatorFor(cfg).value, t.signing)
    requires t.issuer == cfg[IssuerPath] && t.audience == cfg[AudiencePath]
    ensures ValidateToken(ValidatorFor(cfg).value, t, now).Success?
            <==> t.notBefore <= now <= t.expires && Live(cfg)
    ensures now < t.notBefore <= t.expires ==> ValidateToken(ValidatorFor(cfg).value, t, now) == Failure(NotYetValid)
    ensures t.notBefore <= t.expires < now ==> ValidateToken(ValidatorFor(cfg).value, t, now) == Failure(Expired)
  {
  }

  /** A blank Jwt:Issuer or Jwt:Audience still starts the service, but its validator
      refuses every token. */
  lemma BlankSettingRefusesAll(cfg: Config, t: Token, now: int)
    requires ValidatorFor(cfg).Success?
    requires !Live(cfg)
    ensures ValidateToken(ValidatorFor(cfg).value, t, now).Failure?
  {
  }

  /** The roles of a caller, as a set. */
  function RolesOf(p: Principal): set<string> {
    set r | r in RoleNames(p.claims)
  }
}
