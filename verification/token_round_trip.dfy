/** Issuance and validation together: a token minted under a configuration is
    accepted by the validator built from the same configuration for exactly its
    thirty-minute window, refused under any other key, issuer or audience, and
    admits its holder by the roles it was minted with. */
module TokenRoundTrip {
  import opened Wrappers
  import opened Models
  import opened Configuration
  import opened TokenService
  import opened TokenValidation
  import opened AdminEndpoints
  import Utf8
  import Hmac
  import Text

  /** The token a successful issuance for `user` returns. */
  function Issued(user: User, cfg: Config, roles: seq<string>, issuedAt: Instant, jti: string): Token
    requires GenerateToken(Some(AppUser(user)), cfg, Success(roles), issuedAt, jti).Success?
  {
    GenerateToken(Some(AppUser(user)), cfg, Success(roles), issuedAt, jti).value
  }

  /** Without all three settings there is neither an issuer nor a validator. */
  lemma IncompleteConfiguration(cfg: Config, principal: Option<IdentityUser>,
                                roles: Result<seq<string>, Exception>, now: Instant, jti: string)
    requires !Complete(cfg)
    ensures ValidatorFor(cfg).Failure? && ValidatorFor(cfg).error.ArgumentNull?
    ensures GenerateToken(principal, cfg, roles, now, jti).Failure?
  {
  }

  /** Issue then validate: within its window the token is accepted exactly when neither
      the issuer nor the audience setting is blank, and the caller it authenticates holds
      exactly the roles it was minted with. Before 1970 the window is clamped to start at 0. */
  lemma IssuedTokenAccepted(user: User, cfg: Config, roles: seq<string>, issuedAt: Instant,
                            jti: string, now: int)
    requires GenerateToken(Some(AppUser(user)), cfg, Success(roles), issuedAt, jti).Success?
    requires EpochSeconds(issuedAt) <= now <= EpochSeconds(issuedAt + LifetimeSeconds)
    ensures ValidatorFor(cfg).Success?
    ensures ValidateToken(ValidatorFor(cfg).value, Issued(user, cfg, roles, issuedAt, jti), now).Success?
            <==> Live(cfg)
    ensures Live(cfg) ==>
              ValidateToken(ValidatorFor(cfg).value, Issued(user, cfg, roles, issuedAt, jti), now)
              == Success(Principal(Issued(user, cfg, roles, issuedAt, jti).claims))
    ensures RoleNames(Issued(user, cfg, roles, issuedAt, jti).claims) == roles
  {
    ComposedRoleNames(user, jti, issuedAt, roles);
    var t := Issued(user, cfg, roles, issuedAt, jti);
    assert t.claims == FixedClaims(user, jti, issuedAt) + RoleClaims(roles);
  }

  /** A token minted at T (from 1970 on) is accepted at T+29 minutes when the settings are
      live, and refused as expired at T+31 minutes; at any time the token is refused as
      expired after its written expiry and as not yet valid before its written start. */
  lemma ThirtyMinuteWindow(user: User, cfg: Config, roles: seq<string>, issuedAt: Instant, jti: string, now: int)
    requires GenerateToken(Some(AppUser(user)), cfg, Success(roles), issuedAt, jti).Success?
    ensures ValidatorFor(cfg).Success?
    ensures issuedAt >= 0 ==>
              (ValidateToken(ValidatorFor(cfg).value, Issued(user, cfg, roles, issuedAt, jti), issuedAt + 29 * 60).Success?
               <==> Live(cfg))
    ensures issuedAt >= 0 ==>
              ValidateToken(ValidatorFor(cfg).value, Issued(user, cfg, roles, issuedAt, jti), issuedAt + 31 * 60)
              == Failure(Expired)
    ensures now > EpochSeconds(issuedAt + LifetimeSeconds) ==>
              ValidateToken(ValidatorFor(cfg).value, Issued(user, cfg, roles, issuedAt, jti), now) == Failure(Expired)
    ensures now < EpochSeconds(issuedAt) ==>
              ValidateToken(ValidatorFor(cfg).value, Issued(user, cfg, roles, issuedAt, jti), now) == Failure(NotYetValid)
  {
  }

  /** A validator refuses the token when its key is too short for the signature provider
      or does not sign like the issuing key, when its issuer differs, or when its audience
      does not match up to a trailing '/'; a key problem is refused at the signature. */
  lemma ForeignValidatorRejects(user: User, cfg: Config, other: Config, roles: seq<string>,
                                issuedAt: Instant, jti: string, now: int)
    requires GenerateToken(Some(AppUser(user)), cfg, Success(roles), issuedAt, jti).Success?
    requires ValidatorFor(other).Success?
    requires || |Utf8.Encode(other[KeyPath])| < Hmac.MinKeyBytes
             || !Hmac.SignAlike(HmacSha256, Utf8.Encode(cfg[KeyPath]), Utf8.Encode(other[KeyPath]))
             || cfg[IssuerPath] != other[IssuerPath]
             || !AudienceMatches(other[AudiencePath], cfg[AudiencePath])
    ensures ValidateToken(ValidatorFor(other).value, Issued(user, cfg, roles, issuedAt, jti), now).Failure?
    ensures || |Utf8.Encode(other[KeyPath])| < Hmac.MinKeyBytes
            || !Hmac.SignAlike(HmacSha256, Utf8.Encode(cfg[KeyPath]), Utf8.Encode(other[KeyPath]))
            ==> ValidateToken(ValidatorFor(other).value, Issued(user, cfg, roles, issuedAt, jti), now)
                == Failure(InvalidSignature)
  {
  }

  /** A different key string can still verify the token: the issuing key followed by a NUL
      character signs alike as long as it fits in the HMAC block, so its validator accepts. */
  lemma ZeroPaddedKeyAccepted(user: User, cfg: Config, other: Config, roles: seq<string>,
                              issuedAt: Instant, jti: string, now: int)
    requires GenerateToken(Some(AppUser(user)), cfg, Success(roles), issuedAt, jti).Success?
    requires Live(cfg)
    requires other == cfg[KeyPath := cfg[KeyPath] + "\0"]
    requires |Utf8.Encode(cfg[KeyPath])| < Hmac.BlockBytes(HmacSha256)
    requires EpochSeconds(issuedAt) <= now <= EpochSeconds(issuedAt + LifetimeSeconds)
    ensures other[KeyPath] != cfg[KeyPath]
    ensures ValidatorFor(other).Success?
    ensures ValidateToken(ValidatorFor(other).value, Issued(user, cfg, roles, issuedAt, jti), now).Success?
  {
    var key := Utf8.Encode(cfg[KeyPath]);
    Utf8.EncodeAppend(cfg[KeyPath], "\0");
    assert Utf8.Encode("\0") == Hmac.Zeros(1);
    Hmac.ZeroPaddedKeySignsAlike(HmacSha256, key, 1);
    assert |other[KeyPath]| == |cfg[KeyPath]| + 1;
  }

  /** An audience setting that differs only by a trailing '/' still accepts the token. */
  lemma TrailingSlashAudienceAccepted(user: User, cfg: Config, other: Config, roles: seq<string>,
                                      issuedAt: Instant, jti: string, now: int)
    requires GenerateToken(Some(AppUser(user)), cfg, Success(roles), issuedAt, jti).Success?
    requires Live(cfg)
    requires other == cfg[AudiencePath := cfg[AudiencePath] + "/"]
    requires EpochSeconds(issuedAt) <= now <= EpochSeconds(issuedAt + LifetimeSeconds)
    ensures ValidatorFor(other).Success?
    ensures ValidateToken(ValidatorFor(other).value, Issued(user, cfg, roles, issuedAt, jti), now).Success?
  {
    var a := cfg[AudiencePath];
    assert (a + "/")[..|a|] == a;
    assert !Text.IsBlank(a + "/") by {
      var i :| 0 <= i < |a| && !Text.IsWhiteSpace(a[i]);
      assert (a + "/")[i] == a[i];
    }
  }

  /** Presenting a token inside its window, the holder is admitted to an endpoint exactly
      when the roles read from the store at issuance satisfy it and is otherwise forbidden;
      with a blank issuer or audience setting every such request is challenged. */
  lemma IssuedRolesDecideAccess(e: Endpoint, user: User, cfg: Config, roles: seq<string>,
                                issuedAt: Instant, jti: string, now: int)
    requires GenerateToken(Some(AppUser(user)), cfg, Success(roles), issuedAt, jti).Success?
    requires EpochSeconds(issuedAt) <= now <= EpochSeconds(issuedAt + LifetimeSeconds)
    ensures Decide(e, ValidatorFor(cfg), Some(Issued(user, cfg, roles, issuedAt, jti)), now)
            == if !Live(cfg) then Challenge else if Grants(e, set r | r in roles) then Allow else Forbid
  {
    IssuedTokenAccepted(user, cfg, roles, issuedAt, jti, now);
  }
}
