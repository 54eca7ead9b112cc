/** The role-gated admin endpoints: each declares a comma-separated list of
    roles, any one of which admits the caller. */
module AdminEndpoints {
  import opened Wrappers
  import opened Models
  import opened TokenService
  import opened TokenValidation
  import Text

  datatype Endpoint = AdminOnly | UserOnly | AdminOrUser

  /** The outcome of a request: served, refused for want of a valid token (401),
      refused for want of a role (403), or a server fault. */
  datatype Decision = Allow | Challenge | Forbid | Fault

  /** The roles string each endpoint's authorisation attribute declares. */
  function RolesAttribute(e: Endpoint): string {
    match e
    case AdminOnly => "Admin"
    case UserOnly => "User"
    case AdminOrUser => "Admin,User"
  }

  /** The pieces of a roles string that are not blank, trimmed. */
  function NonBlankTrimmed(parts: seq<string>): seq<string>
    decreases |parts|
  {
    if |parts| == 0 then []
    else (if Text.IsBlank(parts[0]) then [] else [Text.Trim(parts[0])]) + NonBlankTrimmed(parts[1..])
  }

  /** The role names a roles string admits: split at commas, blanks dropped, each trimmed. */
  function AllowedRoles(attribute: string): seq<string> {
    NonBlankTrimmed(Text.Split(attribute, ','))
  }

  /** A word with no white space at either end is its own trimmed, non-blank piece. */
  lemma WordPiece(w: string)
    requires |w| > 0 && !Text.IsWhiteSpace(w[0]) && !Text.IsWhiteSpace(w[|w| - 1])
    ensures NonBlankTrimmed([w]) == [w]
  {
  }

  /** A comma-free word with no white space at either end is admitted as itself. */
  lemma SingleRole(w: string)
    requires |w| > 0 && !Text.IsWhiteSpace(w[0]) && !Text.IsWhiteSpace(w[|w| - 1]) && ',' !in w
    ensures AllowedRoles(w) == [w]
  {
    Text.SplitPlain(w, ',');
    WordPiece(w);
  }

  /** Two such words joined by a comma are admitted as the two of them, in order. */
  lemma TwoRoles(a: string, b: string)
    requires |a| > 0 && !Text.IsWhiteSpace(a[0]) && !Text.IsWhiteSpace(a[|a| - 1]) && ',' !in a
    requires |b| > 0 && !Text.IsWhiteSpace(b[0]) && !Text.IsWhiteSpace(b[|b| - 1]) && ',' !in b
    ensures AllowedRoles(a + [','] + b) == [a, b]
  {
    Text.SplitPlain(b, ',');
    Text.SplitCons(a, ',', b);
    WordPiece(a);
    WordPiece(b);
    var parts := [a] + [b];
    assert parts[1..] == [b];
    assert NonBlankTrimmed(parts) == NonBlankTrimmed([a]) + NonBlankTrimmed(parts[1..]);
  }

  lemma EndpointRoles(e: Endpoint)
    ensures e == AdminOnly ==> AllowedRoles(RolesAttribute(e)) == ["Admin"]
    ensures e == UserOnly ==> AllowedRoles(RolesAttribute(e)) == ["User"]
    ensures e == AdminOrUser ==> AllowedRoles(RolesAttribute(e)) == ["Admin", "User"]
  {
    match e
    case AdminOnly => SingleRole("Admin");
    case UserOnly => SingleRole("User");
    case AdminOrUser =>
      TwoRoles("Admin", "User");
      assert "Admin,User" == "Admin" + [','] + "User";
  }

  /** Any-of semantics: some admitted role is among the caller's roles. */
  predicate AnyOf(allowed: seq<string>, roles: set<string>) {
    exists i :: 0 <= i < |allowed| && allowed[i] in roles
  }

  /** Whether a caller holding `roles` passes the endpoint's role requirement. */
  function Grants(e: Endpoint, roles: set<string>): (b: bool)
    ensures e == AdminOnly ==> (b <==> "Admin" in roles)
    ensures e == UserOnly ==> (b <==> "User" in roles)
    ensures e == AdminOrUser ==> (b <==> "Admin" in roles || "User" in roles)
  {
    EndpointRoles(e);
    var allowed := AllowedRoles(RolesAttribute(e));
    assert e == AdminOrUser ==> allowed[0] == "Admin" && allowed[1] == "User";
    AnyOf(allowed, roles)
  }

  /** A caller with no roles is refused everywhere. */
  lemma NoRolesNoAccess(e: Endpoint)
    ensures !Grants(e, {})
  {
  }

  /** Whatever the single-role endpoints admit, the combined endpoint admits too. */
  lemma CombinedEndpointAdmitsBoth(roles: set<string>)
    ensures Grants(AdminOnly, roles) ==> Grants(AdminOrUser, roles)
    ensures Grants(UserOnly, roles) ==> Grants(AdminOrUser, roles)
    ensures Grants(AdminOrUser, roles) <==> Grants(AdminOnly, roles) || Grants(UserOnly, roles)
  {
  }

  /** Holding more roles never turns an admission into a refusal. */
  lemma GrantsMonotone(e: Endpoint, roles: set<string>, more: set<string>)
    requires roles <= more
    ensures Grants(e, roles) ==> Grants(e, more)
  {
  }

  /** The decision for a request to endpoint `e` carrying the bearer token `bearer`
      (None when absent), under the validator the configuration yields, at time `now`. */
  function Decide(e: Endpoint, validator: Result<ValidationParameters, Exception>,
                  bearer: Option<Token>, now: int): (d: Decision)
    ensures validator.Failure? <==> d == Fault
    ensures d == Allow <==>
              && validator.Success? && bearer.Some?
              && ValidateToken(validator.value, bearer.value, now).Success?
              && Grants(e, RolesOf(Principal(bearer.value.claims)))
    ensures validator.Success? && bearer.None? ==> d == Challenge
    ensures validator.Success? && bearer.Some? && ValidateToken(validator.value, bearer.value, now).Failure?
            ==> d == Challenge
    // An authenticated caller without a listed role is forbidden, not challenged.
    ensures && validator.Success? && bearer.Some? && ValidateToken(validator.value, bearer.value, now).Success?
            && !Grants(e, RolesOf(Principal(bearer.value.claims)))
            ==> d == Forbid
  {
    if validator.Failure? then Fault
    else if bearer.None? then Challenge
    else match ValidateToken(validator.value, bearer.value, now)
      case Failure(_) => Challenge
      case Success(p) => if Grants(e, RolesOf(p)) then Allow else Forbid
  }
}
