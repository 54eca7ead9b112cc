/** Token issuance: the claims a token carries, its issuer, audience, lifetime
    and signing credentials, and the order in which issuance fails. */
module TokenService {
  import opened Wrappers
  import opened Models
  import opened Configuration
  import Decimal
  import Utf8
  import Hmac

  /** Registered JWT claim names and the framework's long claim-type URIs. */
  const SubClaim := "sub"
  const JtiClaim := "jti"
  const IatClaim := "iat"
  const NameIdentifierClaim := "http://schemas.xmlsoap.org/ws/2005/05/identity/claims/nameidentifier"
  const RoleClaim := "http://schemas.microsoft.com/ws/2008/06/identity/claims/role"

  /** The signing algorithm identifier for HMAC-SHA256. */
  const HmacSha256 := "HS256"

  const UserParam := "identityUser"
  const InvalidUserTypeMessage := "Invalid user type"
  const WrappedFailureMessage := "Failed to retrieve user roles"

  /** Tokens expire thirty minutes after they are minted. */
  const LifetimeMinutes := 30
  const LifetimeSeconds := LifetimeMinutes * 60

  datatype Claim = Claim(claimType: string, value: string)

  /** The numeric date a time is written as in the token: unix seconds, with any
      time before 1970 written as 0. */
  function EpochSeconds(t: int): nat {
    if t < 0 then 0 else t
  }

  /** The signature stands for its inputs: the algorithm and the key bytes. */
  datatype SigningCredentials = SigningCredentials(algorithm: string, key: seq<Utf8.Byte>)

  /** A minted token as its payload carries it; `notBefore` and `expires` are numeric dates. */
  datatype Token = Token(
    issuer: string,
    audience: string,
    claims: seq<Claim>,
    notBefore: int,
    expires: int,
    signing: SigningCredentials)

  /** The four claims every token starts with: subject (the user name, or empty when
      null), token id, issue time in unix seconds, and the user id. */
  function FixedClaims(user: User, jti: string, now: Instant): seq<Claim> {
    [ Claim(SubClaim, if user.userName.Some? then user.userName.value else ""),
      Claim(JtiClaim, jti),
      Claim(IatClaim, Decimal.IntToDecimal(now)),
      Claim(NameIdentifierClaim, user.id) ]
  }

  /** One role claim per role name, in the order given. */
  function RoleClaims(roles: seq<string>): seq<Claim> {
    seq(|roles|, i requires 0 <= i < |roles| => Claim(RoleClaim, roles[i]))
  }

  /** The role names a claim list asserts, in order: its partner on the reading side. */
  function RoleNames(claims: seq<Claim>): seq<string>
    decreases |claims|
  {
    if |claims| == 0 then []
    else (if claims[0].claimType == RoleClaim then [claims[0].value] else []) + RoleNames(claims[1..])
  }

  lemma {:induction false} RoleNamesAppend(a: seq<Claim>, b: seq<Claim>)
    ensures RoleNames(a + b) == RoleNames(a) + RoleNames(b)
    decreases |a|
  {
    if |a| > 0 {
      RoleNamesAppend(a[1..], b);
      assert (a + b)[0] == a[0];
      assert (a + b)[1..] == a[1..] + b;
      var head := if a[0].claimType == RoleClaim then [a[0].value] else [];
      calc {
        RoleNames(a + b);
        head + RoleNames(a[1..] + b);
        head + (RoleNames(a[1..]) + RoleNames(b));
        (head + RoleNames(a[1..])) + RoleNames(b);
      }
    } else {
      assert a + b == b;
    }
  }

  lemma {:induction false} RoleNamesOfRoleClaims(roles: seq<string>)
    ensures RoleNames(RoleClaims(roles)) == roles
    decreases |roles|
  {
    if |roles| > 0 {
      RoleNamesOfRoleClaims(roles[1..]);
      assert RoleClaims(roles)[1..] == RoleClaims(roles[1..]);
    }
  }

  /** Reading the role claims of a freshly composed claim list gives back exactly the
      roles it was composed from, in order, and nothing from the fixed claims. */
  lemma ComposedRoleNames(user: User, jti: string, now: Instant, roles: seq<string>)
    ensures RoleNames(FixedClaims(user, jti, now) + RoleClaims(roles)) == roles
  {
    var fixed := FixedClaims(user, jti, now);
    assert RoleNames(fixed[3..]) == RoleNames(fixed[4..]) == [];
    assert RoleNames(fixed[2..]) == RoleNames(fixed[3..]);
    assert RoleNames(fixed[1..]) == RoleNames(fixed[2..]);
    assert RoleNames(fixed) == RoleNames(fixed[1..]);
    RoleNamesAppend(fixed, RoleClaims(roles));
    RoleNamesOfRoleClaims(roles);
  }

  /** The body of the try block: read the roles, compose the claims, build the key
      and the lifetime. Any exception here is wrapped by the caller. */
  function Mint(user: User, settings: JwtSettings, roles: Result<seq<string>, Exception>,
                now: Instant, jti: string): Result<Token, Exception>
  {
    if roles.Failure? then Failure(roles.error)
    else
      var key := Utf8.Encode(settings.key);
      if |key| == 0 then Failure(EmptySigningKey)
      else if now + LifetimeSeconds > MaxInstant then Failure(ArgumentOutOfRange("value"))
      // Writing the token creates the signature provider, which refuses a short key.
      else if |key| < Hmac.MinKeyBytes then Failure(ArgumentOutOfRange("key"))
      else Success(Token(
        settings.issuer,
        settings.audience,
        FixedClaims(user, jti, now) + RoleClaims(roles.value),
        EpochSeconds(now),
        EpochSeconds(now + LifetimeSeconds),
        SigningCredentials(HmacSha256, key)))
  }

  /** Issues a token for `principal` (None for a null reference) under `cfg`.
      `roles` is what the role store answers for the user, `now` the clock reading
      and `jti` the freshly generated token id. */
  function GenerateToken(principal: Option<IdentityUser>, cfg: Config,
                         roles: Result<seq<string>, Exception>, now: Instant, jti: string)
    : (r: Result<Token, Exception>)
    // A null user fails first, whatever the configuration and the roles.
    ensures principal.None? ==> r == Failure(ArgumentNull(UserParam, NullArgumentMessage))
    // An identity user that is not the service's own user type fails next.
    ensures principal.Some? && principal.value.BaseIdentityUser?
            ==> r == Failure(Argument(UserParam, InvalidUserTypeMessage))
    // Then the settings, in order, unwrapped.
    ensures principal.Some? && principal.value.AppUser? && !Complete(cfg)
            ==> r.Failure? && r.error.ArgumentNull? && r == LoadJwtSettings(cfg).PropagateFailure()
    // A role-store failure surfaces wrapped, carrying the store's exception.
    ensures principal.Some? && principal.value.AppUser? && Complete(cfg) && roles.Failure?
            ==> r == Failure(InvalidOperation(WrappedFailureMessage, roles.error))
    // Every failure after the settings are read is the wrapped one.
    ensures principal.Some? && principal.value.AppUser? && Complete(cfg) && r.Failure?
            ==> r.error.InvalidOperation? && r.error.message == WrappedFailureMessage
    // Then the key: the key object refuses an empty one, the lifetime may overflow, and
    // writing the token refuses a key under 128 bits.
    ensures principal.Some? && principal.value.AppUser? && Complete(cfg) && roles.Success? && cfg[KeyPath] == ""
            ==> r == Failure(InvalidOperation(WrappedFailureMessage, EmptySigningKey))
    ensures && principal.Some? && principal.value.AppUser? && Complete(cfg) && roles.Success?
            && cfg[KeyPath] != "" && now + LifetimeSeconds <= MaxInstant
            && |Utf8.Encode(cfg[KeyPath])| < Hmac.MinKeyBytes
            ==> r == Failure(InvalidOperation(WrappedFailureMessage, ArgumentOutOfRange("key")))
    ensures r.Success? <==>
              && principal.Some? && principal.value.AppUser? && Complete(cfg) && roles.Success?
              && |Utf8.Encode(cfg[KeyPath])| >= Hmac.MinKeyBytes && now + LifetimeSeconds <= MaxInstant
    // The shape of an issued token.
    ensures r.Success? ==>
              var user := principal.value.user;
              var t := r.value;
              && |t.claims| == 4 + |roles.value|
              && t.claims[0] == Claim(SubClaim, if user.userName.Some? then user.userName.value else "")
              && t.claims[1] == Claim(JtiClaim, jti)
              && t.claims[2] == Claim(IatClaim, Decimal.IntToDecimal(now))
              && t.claims[3] == Claim(NameIdentifierClaim, user.id)
              && (forall i :: 0 <= i < |roles.value| ==> t.claims[4 + i] == Claim(RoleClaim, roles.value[i]))
              && t.issuer == cfg[IssuerPath] && t.audience == cfg[AudiencePath]
              && t.notBefore == EpochSeconds(now) && t.expires == EpochSeconds(now + LifetimeSeconds)
              && (now >= 0 ==> t.notBefore == now && t.expires == now + LifetimeSeconds)
              && (now < 0 ==> t.notBefore == 0)
              && t.signing == SigningCredentials(HmacSha256, Utf8.Encode(cfg[KeyPath]))
  {
    if principal.None? then Failure(ArgumentNull(UserParam, NullArgumentMessage))
    else match principal.value
      case BaseIdentityUser(_, _, _) => Failure(Argument(UserParam, InvalidUserTypeMessage))
      case AppUser(user) =>
        match LoadJwtSettings(cfg)
        case Failure(e) => Failure(e)
        case Success(settings) =>
          Utf8.EncodeEmpty(settings.key);
          match Mint(user, settings, roles, now, jti)
          case Failure(inner) => Failure(InvalidOperation(WrappedFailureMessage, inner))
          case Success(token) => Success(token)
  }
}
