/** The entities of the service: its user and role records, the identity users
    the token service may be handed, the exceptions it raises, and the clock range. */
module Models {
  import opened Wrappers

  /** The earliest and latest whole second a `DateTime` can hold (0001-01-01 and
      9999-12-31T23:59:59 UTC), as unix seconds. */
  const MinInstant: int := -62135596800
  const MaxInstant: int := 253402300799

  /** A clock reading: whole unix seconds within the `DateTime` range. */
  type Instant = t: int | MinInstant <= t <= MaxInstant

  /** The service's own user record (the identity user plus its extra fields).
      The identity base always assigns an id; the user name and e-mail may be null. */
  datatype User = User(
    id: string,
    userName: Option<string>,
    email: Option<string>,
    firstName: string,
    lastName: string,
    createdAt: int)

  /** What the token service is handed: either the service's own `User`, or an
      identity user of the framework's base type that is not one. */
  datatype IdentityUser =
    | AppUser(user: User)
    | BaseIdentityUser(id: string, userName: Option<string>, email: Option<string>)

  /** The service's role record: a named role with a description and creation time. */
  datatype Role = Role(name: string, description: string, createdAt: int)

  /** The exceptions the modelled code raises or wraps. */
  datatype Exception =
    | ArgumentNull(paramName: string, message: string)
    | Argument(paramName: string, message: string)
    | ArgumentOutOfRange(paramName: string)
    /** `SymmetricSecurityKey` refuses a zero-length key. */
    | EmptySigningKey
    /** Whatever the role store throws while reading a user's roles. */
    | StoreFault(detail: string)
    | InvalidOperation(message: string, inner: Exception)

  /** The message `ArgumentNullException` carries when only a parameter name is given. */
  const NullArgumentMessage := "Value cannot be null."
}
