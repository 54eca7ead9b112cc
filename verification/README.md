# AuthService authorization core, modelled in Dafny

AuthService is an ASP.NET service that registers users, signs them in and issues
JWT bearer tokens carrying role claims, then gates admin endpoints on those roles.
This project models the deterministic rules inside it:

- **Token issuance** (`TokenService.GenerateToken`): the order in which it fails
  (null user, wrong user type, each missing Jwt setting, then a wrapped failure of
  the role lookup or token construction), the claims it composes (`sub` = user name,
  `jti`, `iat`, the user id, then one role claim per role in the order the store
  returns them), the issuer, audience, a lifetime of thirty minutes from the clock
  reading, and HMAC-SHA256 credentials over the UTF-8 bytes of Jwt:Key, which must
  be at least 128 bits long.
- **Token validation** (the bearer options at start-up): signature key, issuer,
  audience and lifetime with zero clock skew; with issuance this gives the
  issue-then-validate round trip and the thirty-minute window.
- **Endpoint decisions** (`AdminController`): the three role lists, split at commas
  with any-of semantics, and the resulting allow / 401 / 403 decision.
- **Password and user rules** (the identity options): the password rules in the
  order they are reported, and user creation with unique user names and e-mail
  addresses.
- **Role bootstrap** (`RoleInitializer.InitializeAsync`): create Admin and User when
  absent, touching nothing else.

Time is whole unix seconds, passed in as a parameter. A clock reading is an
`Instant`, bounded by the `DateTime` range, so that adding thirty minutes can
overflow as it does in the source. Signing is an abstract record of the algorithm
and key bytes; a signature verifies under another key when the two keys agree once
zero-padded to the HMAC block. The token id is an opaque parameter. The role store's answer is a
parameter too: a list of names, or the exception it threw. The configuration is a
map, where an absent key stands for null.

Modules: `Wrappers` (Option, Result), `Text` (character classes, normalisation,
trim, split/join), `Decimal` (the `iat` rendering), `Utf8` (key bytes), `Models`
(User, Role, exceptions, Instant), `Hmac` (key blocks), `Configuration`, `TokenService`,
`TokenValidation`, `AdminEndpoints`, `TokenRoundTrip`, `PasswordPolicy`,
`UserStore`, `RoleInitializer`.

Behaviour worth knowing:
- The `sub` claim is the user name, or empty when the name is null. It is not the
  user id; the id travels in a separate name-identifier claim.
- Role claims follow the store's order, not a sorted order.
- The lifetime check is closed at both ends with zero skew: a token is accepted
  up to and including the instant it expires.
- The token writes its start and expiry as unix seconds, and any time before 1970
  is written as 0.
- Jwt:Issuer and Jwt:Audience are only checked for null at start-up. A blank value
  starts the service, but its validator then refuses every token.
- Audiences match when equal or equal up to one trailing '/'.
- The password length counts UTF-16 code units, so a character above U+FFFF counts twice.
- The role bootstrap reads the clock separately for each role it creates.
- No endpoint assigns roles, and registration neither assigns a role nor issues a token.
- A missing setting is checked again on every issuance, besides at start-up.
- A Jwt:Key of 1 to 15 UTF-8 bytes passes every start-up check, but signing refuses it,
  so every issuance ends in the wrapped failure.
- A key followed by NUL characters, while it still fits in the 64-byte HMAC block, verifies
  the same signatures: such a validator accepts tokens issued under the shorter key.
- An empty Jwt:Key passes the null checks. The symmetric-key constructor then
  refuses it: inside the token service's try block this becomes the wrapped
  failure; in the validator every request faults, because the bearer options are
  built lazily.

## Model

| member | source | states |
|---|---|---|
| Configuration.LoadJwtSettings | Program.cs:54-59 | The settings load exactly when Jwt:Key, Jwt:Issuer and Jwt:Audience are all present; otherwise the first missing one, in that order, raises an ArgumentNullException naming it with its message |
| TokenRoundTrip.IncompleteConfiguration | Program.cs:54-59 | Without all three settings there is no validator and every issuance fails |
| TokenService.GenerateToken | Services/TokenService.cs:25-74 | A null user fails with ArgumentNullException before anything else; a non-service user type fails with "Invalid user type"; missing settings fail unwrapped; a role-store exception and every later failure surface as InvalidOperationException "Failed to retrieve user roles" wrapping the cause; an empty key fails as the wrapped key-object refusal, and a key of 1–15 UTF-8 bytes as the wrapped key-size refusal; success iff the user is a service user, settings complete, roles read, the key at least 16 UTF-8 bytes and now+30 min representable; the token's claims are sub, jti, iat, name identifier, then one role claim per role in order, with configured issuer and audience, notBefore = now and expires = now + 1800 written as numeric dates (clamped to 0 before 1970), HS256 over the key's UTF-8 bytes |
| TokenService.ComposedRoleNames | Services/TokenService.cs:47-53 | Reading the role claims back from the composed claim list gives exactly the store's roles, in order, none from the fixed claims |
| Decimal.IntRoundTrip | Services/TokenService.cs:51 | The `iat` text of a clock reading parses back to that reading |
| Decimal.IntToDecimalInjective | Services/TokenService.cs:51 | Different issue times give different `iat` texts |
| Decimal.NatToDecimal | Services/TokenService.cs:51 | The rendering is a non-empty digit string without a leading zero |
| Utf8.Encode | Services/TokenService.cs:55 | A key of n characters encodes to between n and 4n bytes, so only an empty key has empty bytes |
| Utf8.EncodeAppend | Services/TokenService.cs:55 | The bytes of a concatenation are the bytes of its parts, in order |
| Hmac.SameBlockKey | Program.cs:80 | Two keys share their key block iff they are equal, or both fit in the block and the longer is the shorter followed by zero bytes; a key longer than the block is kept as it is (see Left out) |
| Utf8.EncodeInjective | Program.cs:80 | Different key strings of Unicode scalar values give different key bytes |
| TokenValidation.BuildValidationParameters | Program.cs:72-82 | The validator exists iff the key is non-empty; it expects the configured issuer and audience, the key's UTF-8 bytes, and zero clock skew |
| TokenValidation.ValidateToken | Program.cs:72-82 | A token is accepted iff its signature uses an HMAC algorithm, the expected key has at least 16 bytes and signs like the token's key (same zero-padded key block; a key longer than the block is kept as it is, see Left out), its lifetime is well-ordered and contains now within the skew, its audience matches the expected one up to a trailing '/', its issuer equals the expected one, and none of these four strings is blank; a bad signature is reported as such; the accepted principal carries the token's claims |
| TokenValidation.ZeroSkewWindow | Program.cs:74-81 | With zero skew, a well-signed token carrying the configured issuer and audience is accepted iff notBefore <= now <= expires and neither setting is blank; earlier is not-yet-valid, later is expired |
| TokenValidation.BlankSettingRefusesAll | Program.cs:56-79 | A blank Jwt:Issuer or Jwt:Audience passes the start-up null checks, but the validator built from it refuses every token |
| TokenRoundTrip.IssuedTokenAccepted | Program.cs:72-82 | Inside its written window, a token issued under a configuration is accepted by that configuration's validator iff neither issuer nor audience is blank, and its holder's roles are exactly those issued |
| TokenRoundTrip.ThirtyMinuteWindow | Services/TokenService.cs:57-64 | A token minted at T >= 0 is accepted at T+29 min iff the settings are not blank, and refused as expired at T+31 min; at any T it is refused as expired after its written expiry and as not yet valid before its written start |
| TokenRoundTrip.ForeignValidatorRejects | Program.cs:74-80 | A validator whose key is under 16 bytes or does not sign like the issuing key, whose issuer differs, or whose audience does not match up to a trailing '/', refuses the token; the key cases are refused at the signature |
| TokenRoundTrip.ZeroPaddedKeyAccepted | Program.cs:80 | A validator whose key is the issuing key followed by a NUL character, while it fits in the 64-byte block, is a different setting yet accepts the live token inside its window |
| TokenRoundTrip.TrailingSlashAudienceAccepted | Program.cs:75-79 | A validator whose audience setting adds a trailing '/' still accepts a live token inside its window |
| TokenRoundTrip.IssuedRolesDecideAccess | Controllers/AdminController.cs:10-29 | A holder of a token inside its window is allowed at an endpoint iff the roles read at issuance satisfy it, and forbidden otherwise; with a blank issuer or audience setting the request is challenged |
| AdminEndpoints.EndpointRoles | Controllers/AdminController.cs:11-25 | The three attributes admit ["Admin"], ["User"] and ["Admin", "User"] |
| AdminEndpoints.SingleRole | Controllers/AdminController.cs:11-18 | A single comma-free name with no white space at either end admits just itself |
| AdminEndpoints.TwoRoles | Controllers/AdminController.cs:25 | Two names joined by a comma admit both, in order |
| AdminEndpoints.Grants | Controllers/AdminController.cs:10-29 | admin-only admits iff the caller holds Admin; user-only iff User; admin-or-user iff Admin or User |
| AdminEndpoints.NoRolesNoAccess | Controllers/AdminController.cs:11-25 | A caller with no roles is refused at all three endpoints |
| AdminEndpoints.CombinedEndpointAdmitsBoth | Controllers/AdminController.cs:11-25 | Whatever admin-only or user-only admits, admin-or-user admits, and nothing else |
| AdminEndpoints.GrantsMonotone | Controllers/AdminController.cs:11-25 | Adding roles never turns an admission into a refusal |
| AdminEndpoints.Decide | Controllers/AdminController.cs:8-29 | A request faults iff the validator cannot be built, which in a running service means an empty key (a missing setting stops start-up); it is allowed iff a bearer token is present, valid now, and its roles satisfy the endpoint; a missing or invalid token is challenged (401); an authenticated token without a listed role is forbidden (403) |
| Text.JoinSplit | Controllers/AdminController.cs:25 | Joining the comma-split pieces of a roles string gives the string back |
| Text.SplitJoin | Controllers/AdminController.cs:25 | Splitting a comma-joined list of comma-free names gives the names back |
| PasswordPolicy.ConfiguredPolicy | Program.cs:40-44 | A password is accepted iff it has at least 6 UTF-16 code units, a digit, a lower-case letter, an upper-case letter and a non-alphanumeric character |
| PasswordPolicy.ConfiguredErrors | Program.cs:40-44 | Each rule's error is reported iff the password breaks that rule; too-short means blank or under 6 UTF-16 code units |
| PasswordPolicy.SupplementaryCountsTwice | Program.cs:44 | A five-character password whose emoji counts as two code units meets the length rule and is accepted |
| Text.Utf16Length | Program.cs:44 | The length the password rule compares counts each character once, or twice above U+FFFF, so it lies between the character count and twice that |
| UserStore.CreateUser | Program.cs:38-46 | A weak password is refused with its rule violations alone; a well-formed e-mail (or valid user name) another user holds is refused as a duplicate; success iff password and user validation pass and the id is new, and then the store gains exactly the new record at the end |
| UserStore.CreatePreservesUnique | Program.cs:45 | Creation keeps ids, normalised user names and normalised e-mail addresses unique across the store |
| RoleInitializer.EnsureRolesSpec | Data/RoleInitializer.cs:15-26 | The create-if-absent loop keeps every existing record in place, makes every listed name exist, and adds only default records for listed names that were missing, each stamped with its own iteration's clock reading |
| RoleInitializer.EnsureRolesOrder | Data/RoleInitializer.cs:15-26 | Each added record is the default record of the iteration that found its name missing from everything stored before it, once every earlier listed name existed; so no role is created twice |
| RoleInitializer.CreationOrder | Data/RoleInitializer.cs:15 | Records further along the store come from strictly later iterations of the loop |
| RoleInitializer.InitializeSpec | Data/RoleInitializer.cs:13-27 | Afterwards Admin and User exist and earlier records are unchanged; the store is the old one followed by exactly one "Default Admin role" record stamped with the Admin iteration's reading if Admin was missing, then exactly one "Default User role" record stamped with the User iteration's reading if User was missing, so it grows by the number of missing roles |
| RoleInitializer.InitializeKeepsExisting | Data/RoleInitializer.cs:17-18 | When both roles already exist nothing is created or changed |
| RoleInitializer.InitializeIdempotent | Data/RoleInitializer.cs:15-26 | Running the bootstrap a second time, at any time, yields the same store as running it once |
| RoleInitializer.InitializeNames | Data/RoleInitializer.cs:13-27 | The normalised role names afterwards are those before plus ADMIN and USER |

## Left out

- Controllers/AuthController.cs is not part of this model. It is a thin wrapper over the identity system's create and sign-in calls. It issues a token for a framework user type that the token service rejects, and it returns an un-awaited task as the token.
- Data/MyDbContext.cs is not part of this model. It maps tables, and its length limits are schema, not behaviour.
- The request models and the token-service interface carry annotations only. The registration form's minimum password length of 6 equals the configured one.
- The hash computations of HMAC, the compact JWT serialisation, password hashing and GUID generation are left out. The signature is the record of algorithm and key bytes, compared through the zero-padded key block, and `jti` is a parameter.
- TokenService.GenerateToken: the key-size floor is the 128 bits that every version of the identity-model library enforces, for signing and for verifying. Version 7 and later raise it to 256 bits for HS256, so there keys of 16 to 31 bytes are refused too; the library version is not part of the source, so the model issues them.
- TokenService.GenerateToken: the two clock reads (for `iat` and for the lifetime) are one input. Sub-second precision is dropped, since the token carries whole seconds.
- Hmac.SameBlockKey: HMAC replaces a key longer than the block by its hash (SHA-256 for HS256) before padding, so a long key shares its block with the key equal to its digest. Hashing is not modelled: a long key is kept as it is and shares its block only with itself.
- TokenValidation.ValidateToken: signature comparison inherits the long-key gap of Hmac.SameBlockKey: a validator key equal to the digest of a long signing key verifies in the library but not in the model. The verifying floor is the 128 bits every library version enforces; version 7 and later refuse HS256 keys under 256 bits when verifying too, which the model accepts.
- TokenValidation.ValidateToken: the clock is read in whole seconds, while the validator compares with a tick-precision clock. A token is refused from the first tick after its expiry second, which the model places in the next second.
- Utf8.EncodeInjective: keys are modelled as strings of Unicode scalar values. A .NET string can hold unpaired surrogates, which the UTF-8 encoder maps all to EF BF BD, so two such keys can share their bytes; this is not modelled.
- Decimal.IntToDecimal: a negative `iat` is written with '-', while `ToString()` uses the current culture's negative sign. Non-negative values carry no sign, so they are unaffected.
- PasswordPolicy.PasswordErrors: the distinct-character rule counts distinct characters, where the validator counts distinct code units. At the configured minimum of 1 both just mean a non-empty password.
- TokenValidation.ValidateToken: the registered `iss`/`aud`/`nbf`/`exp` claims the library adds, inbound claim-type mapping, token replay and actor checks are not modelled.
- UserStore.CreateUser: normalisation upper-cases ASCII letters only. Full invariant upper-casing is a Unicode table, which is not modelled.
- UserStore.CreateUser: the address check is the one-'@' rule. Line-break rejection, which some framework versions add, is not modelled.
- UserStore.CreateUser: a user whose id is already stored is refused with `DuplicateKey`, standing for the database's key-violation exception. Lookups report a clash with any other holder, where the store would throw when several rows match.
- TokenRoundTrip.ForeignValidatorRejects: a key longer than the HMAC block is replaced by its hash before use (SHA-256 for HS256), so it signs like the key equal to that digest. Hashing is not modelled: a long key is kept as it is and signs only like itself.
- AdminEndpoints.Decide: a validator failure stands for the lazily built bearer options throwing, which in a running service happens only for an empty Jwt:Key. A missing Jwt setting throws at start-up, before the application is built, so no request is decided at all; the model's Fault for that case has no counterpart in the service.
- RoleInitializer.RoleExists: the existence check compares names normalised by upper-casing ASCII letters only, as for user names. The role manager's invariant upper-casing also folds other letters, which is not modelled.
- RoleInitializer: the role manager's own validation of a new role cannot fail here, because the existence check just passed; its ignored result is not modelled.
- Database provider, migrations, Swagger, HTTPS redirection, dependency injection, middleware ordering, async execution and store concurrency are left out.
