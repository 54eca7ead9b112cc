/** The password rules configured for the identity system, checked the way its
    password validator checks them, reporting every rule a password breaks. */
module PasswordPolicy {
  import opened Text

  datatype PasswordOptions = PasswordOptions(
    requiredLength: nat,
    requiredUniqueChars: nat,
    requireNonAlphanumeric: bool,
    requireLowercase: bool,
    requireUppercase: bool,
    requireDigit: bool)

  /** The service's settings: length 6, a digit, a lower- and an upper-case letter and a
      non-alphanumeric character; the distinct-character count keeps its default of 1.
      The registration form's minimum length of 6 is the same bound. */
  const Configured := PasswordOptions(6, 1, true, true, true, true)

  datatype PasswordError =
    | PasswordTooShort(length: nat)
    | PasswordRequiresNonAlphanumeric
    | PasswordRequiresDigit
    | PasswordRequiresLower
    | PasswordRequiresUpper
    | PasswordRequiresUniqueChars(count: nat)

  predicate HasDigit(p: string) { exists i :: 0 <= i < |p| && IsDigit(p[i]) }
  predicate HasLower(p: string) { exists i :: 0 <= i < |p| && IsLower(p[i]) }
  predicate HasUpper(p: string) { exists i :: 0 <= i < |p| && IsUpper(p[i]) }
  predicate HasNonAlphanumeric(p: string) { exists i :: 0 <= i < |p| && !IsLetterOrDigit(p[i]) }

  function DistinctCount(p: string): nat {
    |set c | c in p|
  }

  /** The rules `p` breaks, in the order the validator reports them. */
  function PasswordErrors(o: PasswordOptions, p: string): seq<PasswordError> {
    (if IsBlank(p) || Utf16Length(p) < o.requiredLength then [PasswordTooShort(o.requiredLength)] else [])
    + (if o.requireNonAlphanumeric && !HasNonAlphanumeric(p) then [PasswordRequiresNonAlphanumeric] else [])
    + (if o.requireDigit && !HasDigit(p) then [PasswordRequiresDigit] else [])
    + (if o.requireLowercase && !HasLower(p) then [PasswordRequiresLower] else [])
    + (if o.requireUppercase && !HasUpper(p) then [PasswordRequiresUpper] else [])
    + (if o.requiredUniqueChars >= 1 && DistinctCount(p) < o.requiredUniqueChars
       then [PasswordRequiresUniqueChars(o.requiredUniqueChars)] else [])
  }

  predicate Accepts(o: PasswordOptions, p: string) {
    PasswordErrors(o, p) == []
  }

  lemma NonEmptyHasDistinct(p: string)
    requires |p| > 0
    ensures DistinctCount(p) >= 1
  {
    var distinct := set c | c in p;
    assert p[0] in distinct;
    assert distinct != {};
  }

  /** The configured policy, stated rule by rule: a password is accepted exactly when it is
      at least 6 UTF-16 code units long and contains a digit, a lower-case letter, an upper-case
      letter and a character that is none of these. */
  lemma ConfiguredPolicy(p: string)
    ensures Accepts(Configured, p) <==>
              Utf16Length(p) >= 6 && HasDigit(p) && HasLower(p) && HasUpper(p) && HasNonAlphanumeric(p)
  {
    if Utf16Length(p) >= 6 && HasDigit(p) && HasLower(p) && HasUpper(p) && HasNonAlphanumeric(p) {
      assert |p| > 0;
      NonEmptyHasDistinct(p);
      var i :| 0 <= i < |p| && IsDigit(p[i]);
      assert !IsWhiteSpace(p[i]);
      assert !IsBlank(p);
    }
  }

  /** An error appears in a list made of optional single entries exactly when its entry
      was included. */
  lemma InSixPieces(e: PasswordError, a: seq<PasswordError>, b: seq<PasswordError>, c: seq<PasswordError>,
                    d: seq<PasswordError>, f: seq<PasswordError>, g: seq<PasswordError>)
    ensures e in a + b + c + d + f + g <==> e in a || e in b || e in c || e in d || e in f || e in g
  {
  }

  /** Each configured rule is reported exactly when the password breaks it. */
  lemma ConfiguredErrors(p: string)
    ensures PasswordTooShort(6) in PasswordErrors(Configured, p) <==> IsBlank(p) || Utf16Length(p) < 6
    ensures PasswordRequiresNonAlphanumeric in PasswordErrors(Configured, p) <==> !HasNonAlphanumeric(p)
    ensures PasswordRequiresDigit in PasswordErrors(Configured, p) <==> !HasDigit(p)
    ensures PasswordRequiresLower in PasswordErrors(Configured, p) <==> !HasLower(p)
    ensures PasswordRequiresUpper in PasswordErrors(Configured, p) <==> !HasUpper(p)
    ensures PasswordRequiresUniqueChars(1) in PasswordErrors(Configured, p) <==> p == ""
  {
    var tooShort, noSymbol, noDigit := IsBlank(p) || Utf16Length(p) < 6, !HasNonAlphanumeric(p), !HasDigit(p);
    var noLower, noUpper, noDistinct := !HasLower(p), !HasUpper(p), DistinctCount(p) < 1;
    var short := if tooShort then [PasswordTooShort(6)] else [];
    var symbol := if noSymbol then [PasswordRequiresNonAlphanumeric] else [];
    var digit := if noDigit then [PasswordRequiresDigit] else [];
    var lower := if noLower then [PasswordRequiresLower] else [];
    var upper := if noUpper then [PasswordRequiresUpper] else [];
    var unique := if noDistinct then [PasswordRequiresUniqueChars(1)] else [];
    var errs := PasswordErrors(Configured, p);
    assert errs == short + symbol + digit + lower + upper + unique;
    forall e: PasswordError
      ensures e in errs <==> e in short || e in symbol || e in digit || e in lower || e in upper || e in unique
    {
      InSixPieces(e, short, symbol, digit, lower, upper, unique);
    }
    if |p| > 0 {
      NonEmptyHasDistinct(p);
    }
    assert noDistinct <==> p == "";
  }

  /** A character above U+FFFF counts twice towards the length: five characters,
      one of them an emoji, make an acceptable six-unit password. */
  lemma SupplementaryCountsTwice()
    ensures Accepts(Configured, "Aa1!\U{1F600}")
  {
    var p := "Aa1!\U{1F600}";
    assert Utf16Length(p) == 6;
    assert IsDigit(p[2]) && IsLower(p[1]) && IsUpper(p[0]) && !IsLetterOrDigit(p[3]);
    ConfiguredPolicy(p);
  }
}
