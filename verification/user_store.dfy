/** Creating a user: the password rules first, then the user validator (user name,
    then e-mail, which must be unique), then the store's insert. */
module UserStore {
  import opened Wrappers
  import opened Models
  import opened Text
  import opened PasswordPolicy

  /** The characters a user name may contain, as the identity system's default allows. */
  const AllowedUserNameCharacters := "abcdefghijklmnopqrstuvwxyzABCDEFGHIJKLMNOPQRSTUVWXYZ0123456789-._@+"

  datatype IdentityError =
    | InvalidUserName(userName: Option<string>)
    | DuplicateUserName(takenName: string)
    | InvalidEmail(email: Option<string>)
    | DuplicateEmail(takenEmail: string)
    | PasswordRule(rule: PasswordError)

  /** A refused creation: validation errors reported as a result, or the store's own
      key violation when a row with the same id already exists (an exception). */
  datatype CreateFailure = Rejected(errors: seq<IdentityError>) | DuplicateKey(id: string)

  /** The address check the validator applies: exactly one '@', neither first nor last. */
  predicate IsEmailAddress(e: string) {
    multiset(e)['@'] == 1 && e[0] != '@' && e[|e| - 1] != '@'
  }

  /** Another user (a different id) already holds the name, compared normalised. */
  predicate NameTaken(users: seq<User>, name: string, id: string) {
    exists i :: 0 <= i < |users| && users[i].userName.Some?
      && Normalize(users[i].userName.value) == Normalize(name) && users[i].id != id
  }

  predicate EmailTaken(users: seq<User>, email: string, id: string) {
    exists i :: 0 <= i < |users| && users[i].email.Some?
      && Normalize(users[i].email.value) == Normalize(email) && users[i].id != id
  }

  predicate IdTaken(users: seq<User>, id: string) {
    exists i :: 0 <= i < |users| && users[i].id == id
  }

  function UserNameErrors(users: seq<User>, u: User): seq<IdentityError> {
    match u.userName
    case None => [InvalidUserName(None)]
    case Some(n) =>
      if IsBlank(n) then [InvalidUserName(u.userName)]
      else if exists i :: 0 <= i < |n| && n[i] !in AllowedUserNameCharacters then [InvalidUserName(u.userName)]
      else if NameTaken(users, n, u.id) then [DuplicateUserName(n)]
      else []
  }

  function EmailErrors(users: seq<User>, u: User): seq<IdentityError> {
    match u.email
    case None => [InvalidEmail(None)]
    case Some(e) =>
      if IsBlank(e) || !IsEmailAddress(e) then [InvalidEmail(u.email)]
      else if EmailTaken(users, e, u.id) then [DuplicateEmail(e)]
      else []
  }

  /** The user validator with unique e-mail required: user-name errors, then e-mail errors. */
  function ValidateUser(users: seq<User>, u: User): seq<IdentityError> {
    UserNameErrors(users, u) + EmailErrors(users, u)
  }

  function PasswordRules(errors: seq<PasswordError>): seq<IdentityError> {
    seq(|errors|, i requires 0 <= i < |errors| => PasswordRule(errors[i]))
  }

  /** No two stored users share an id, a normalised user name or a normalised e-mail. */
  predicate Unique(users: seq<User>) {
    forall i, j :: 0 <= i < j < |users| ==>
      && users[i].id != users[j].id
      && (users[i].userName.Some? && users[j].userName.Some?
          ==> Normalize(users[i].userName.value) != Normalize(users[j].userName.value))
      && (users[i].email.Some? && users[j].email.Some?
          ==> Normalize(users[i].email.value) != Normalize(users[j].email.value))
  }

  /** Creates `u` with `password` in the store `users`. */
  function CreateUser(users: seq<User>, u: User, password: string): (r: Result<seq<User>, CreateFailure>)
    // A weak password is refused with its rule violations alone, before the user is looked at.
    ensures !Accepts(Configured, password)
            ==> r == Failure(Rejected(PasswordRules(PasswordErrors(Configured, password))))
    // A well-formed address another user already holds is refused as a duplicate.
    ensures Accepts(Configured, password) && u.email.Some? && !IsBlank(u.email.value)
            && IsEmailAddress(u.email.value) && EmailTaken(users, u.email.value, u.id)
            ==> r.Failure? && r.error.Rejected? && DuplicateEmail(u.email.value) in r.error.errors
    ensures Accepts(Configured, password) && u.userName.Some? && !IsBlank(u.userName.value)
            && (forall i :: 0 <= i < |u.userName.value| ==> u.userName.value[i] in AllowedUserNameCharacters)
            && NameTaken(users, u.userName.value, u.id)
            ==> r.Failure? && r.error.Rejected? && DuplicateUserName(u.userName.value) in r.error.errors
    // Success appends the new record and leaves every existing one as it was.
    ensures r.Success? <==>
              Accepts(Configured, password) && ValidateUser(users, u) == [] && !IdTaken(users, u.id)
    ensures r.Success? ==> r.value == users + [u] && u.userName.Some? && u.email.Some?
  {
    var weak := PasswordErrors(Configured, password);
    if weak != [] then Failure(Rejected(PasswordRules(weak)))
    else
      var invalid := ValidateUser(users, u);
      if invalid != [] then Failure(Rejected(invalid))
      else if IdTaken(users, u.id) then Failure(DuplicateKey(u.id))
      else Success(users + [u])
  }

  /** Creation keeps ids, user names and e-mail addresses unique: a second account
      with an address already in use never gets in. */
  lemma CreatePreservesUnique(users: seq<User>, u: User, password: string)
    requires Unique(users)
    requires CreateUser(users, u, password).Success?
    ensures Unique(CreateUser(users, u, password).value)
  {
    var after := users + [u];
    forall i, j | 0 <= i < j < |after|
      ensures && after[i].id != after[j].id
              && (after[i].userName.Some? && after[j].userName.Some?
                  ==> Normalize(after[i].userName.value) != Normalize(after[j].userName.value))
              && (after[i].email.Some? && after[j].email.Some?
                  ==> Normalize(after[i].email.value) != Normalize(after[j].email.value))
    {
      if j == |users| {
        assert after[i] == users[i];
        assert after[j] == u;
        assert !IdTaken(users, u.id);
        assert !NameTaken(users, u.userName.value, u.id);
        assert !EmailTaken(users, u.email.value, u.id);
      }
    }
  }
}
