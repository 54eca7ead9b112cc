/** Start-up role bootstrap: the well-known roles are created when absent, and
    nothing else in the role store is touched. */
module RoleInitializer {
  import opened Models
  import opened Text

  const DefaultRoleNames: seq<string> := ["Admin", "User"]

  function DefaultDescription(name: string): string {
    "Default " + name + " role"
  }

  /** The role manager's existence check: a role whose normalised name matches. */
  predicate RoleExists(roles: seq<Role>, name: string) {
    exists i :: 0 <= i < |roles| && Normalize(roles[i].name) == Normalize(name)
  }

  /** The record the bootstrap creates for a missing role, stamped with the clock
      reading taken when it is created. */
  function NewRole(name: string, now: int): Role {
    Role(name, DefaultDescription(name), now)
  }

  /** One iteration: create the role with its default description unless it exists. */
  function EnsureRole(roles: seq<Role>, name: string, now: int): seq<Role> {
    if RoleExists(roles, name) then roles else roles + [NewRole(name, now)]
  }

  /** The loop over `names`, in order; `clock[m]` is the clock reading the m-th
      iteration takes if it creates its role. */
  function EnsureRoles(roles: seq<Role>, names: seq<string>, clock: seq<int>): seq<Role>
    requires |clock| == |names|
    decreases |names|
  {
    if |names| == 0 then roles
    else EnsureRoles(EnsureRole(roles, names[0], clock[0]), names[1..], clock[1..])
  }

  /** The whole bootstrap; `clock` holds the readings of the Admin and the User iteration. */
  function Initialize(roles: seq<Role>, clock: seq<int>): seq<Role>
    requires |clock| == 2
  {
    EnsureRoles(roles, DefaultRoleNames, clock)
  }

  /** The role names in a store, normalised. */
  function NormalizedNames(roles: seq<Role>): set<string> {
    set i | 0 <= i < |roles| :: Normalize(roles[i].name)
  }

  /** The loop keeps what was there, makes every listed name exist, and adds only
      default records, each stamped with its own iteration's reading, for listed
      names that did not exist before. */
  lemma {:induction false} EnsureRolesSpec(roles: seq<Role>, names: seq<string>, clock: seq<int>)
    requires |clock| == |names|
    ensures |roles| <= |EnsureRoles(roles, names, clock)|
    ensures EnsureRoles(roles, names, clock)[..|roles|] == roles
    ensures forall n :: n in names ==> RoleExists(EnsureRoles(roles, names, clock), n)
    ensures forall k :: |roles| <= k < |EnsureRoles(roles, names, clock)| ==>
              exists m :: 0 <= m < |names| && !RoleExists(roles, names[m])
                && EnsureRoles(roles, names, clock)[k] == NewRole(names[m], clock[m])
    ensures forall n :: RoleExists(roles, n) ==> RoleExists(EnsureRoles(roles, names, clock), n)
    decreases |names|
  {
    if |names| > 0 {
      var step := EnsureRole(roles, names[0], clock[0]);
      var rest, later := names[1..], clock[1..];
      EnsureRolesSpec(step, rest, later);
      var r := EnsureRoles(step, rest, later);
      assert r == EnsureRoles(roles, names, clock);
      assert step[..|roles|] == roles;
      assert r[..|roles|] == r[..|step|][..|roles|];
      assert RoleExists(step, names[0]) by {
        if !RoleExists(roles, names[0]) {
          assert step[|roles|] == NewRole(names[0], clock[0]);
        }
      }
      forall n | RoleExists(roles, n)
        ensures RoleExists(step, n)
      {
        var i :| 0 <= i < |roles| && Normalize(roles[i].name) == Normalize(n);
        assert step[i] == roles[i];
      }
      forall n | n in names
        ensures RoleExists(r, n)
      {
        if n != names[0] {
          assert n in rest;
        }
      }
      forall k | |roles| <= k < |r|
        ensures exists m :: 0 <= m < |names| && !RoleExists(roles, names[m]) && r[k] == NewRole(names[m], clock[m])
      {
        if k < |step| {
          assert step != roles;
          assert r[k] == step[k] == NewRole(names[0], clock[0]);
          assert !RoleExists(roles, names[0]);
        } else {
          var m :| 0 <= m < |rest| && !RoleExists(step, rest[m]) && r[k] == NewRole(rest[m], later[m]);
          assert names[m + 1] == rest[m] && clock[m + 1] == later[m];
        }
      }
    }
  }

  /** Record `k` of `store` is the one the `m`-th iteration created: it is that
      iteration's default record, its name was missing from every record before it, and
      every earlier listed name was present by then. */
  predicate CreatedBy(store: seq<Role>, names: seq<string>, clock: seq<int>, k: nat, m: nat)
    requires k < |store| && m < |names| == |clock|
  {
    && store[k] == NewRole(names[m], clock[m])
    && !RoleExists(store[..k], names[m])
    && (forall i :: 0 <= i < m ==> RoleExists(store[..k], names[i]))
  }

  /** A name present in a store is present in any store that extends it. */
  lemma ExistsInExtension(a: seq<Role>, b: seq<Role>, n: string)
    requires |a| <= |b| && b[..|a|] == a
    requires RoleExists(a, n)
    ensures RoleExists(b, n)
  {
    var i :| 0 <= i < |a| && Normalize(a[i].name) == Normalize(n);
    assert b[i] == a[i];
  }

  /** Every record the loop adds was created by the iteration that found its name missing
      from everything stored before it; so no role is created twice. */
  lemma {:induction false} EnsureRolesOrder(roles: seq<Role>, names: seq<string>, clock: seq<int>)
    requires |clock| == |names|
    ensures forall k :: |roles| <= k < |EnsureRoles(roles, names, clock)| ==>
              exists m :: 0 <= m < |names| && EnsureRoles(roles, names, clock)[k] == NewRole(names[m], clock[m])
                && CreatedBy(EnsureRoles(roles, names, clock), names, clock, k, m)
    decreases |names|
  {
    if |names| > 0 {
      var step := EnsureRole(roles, names[0], clock[0]);
      var rest, later := names[1..], clock[1..];
      EnsureRolesSpec(step, rest, later);
      EnsureRolesOrder(step, rest, later);
      var r := EnsureRoles(step, rest, later);
      assert r == EnsureRoles(roles, names, clock);
      assert RoleExists(step, names[0]) by {
        if !RoleExists(roles, names[0]) {
          assert step[|roles|] == NewRole(names[0], clock[0]);
        }
      }
      forall k | |roles| <= k < |r|
        ensures exists m :: 0 <= m < |names| && r[k] == NewRole(names[m], clock[m]) && CreatedBy(r, names, clock, k, m)
      {
        if k < |step| {
          assert r[k] == step[k] == NewRole(names[0], clock[0]);
          assert r[..k] == r[..|step|][..k] == roles;
          assert CreatedBy(r, names, clock, k, 0);
        } else {
          var j :| 0 <= j < |rest| && r[k] == NewRole(rest[j], later[j]) && CreatedBy(r, rest, later, k, j);
          assert r[..k][..|step|] == step;
          ExistsInExtension(step, r[..k], names[0]);
          assert names[j + 1] == rest[j] && clock[j + 1] == later[j];
          forall i | 0 <= i < j + 1
            ensures RoleExists(r[..k], names[i])
          {
            if i > 0 {
              assert names[i] == rest[i - 1];
            }
          }
          assert CreatedBy(r, names, clock, k, j + 1);
        }
      }
    } else {
      assert EnsureRoles(roles, names, clock) == roles;
    }
  }

  /** Later records come from later iterations: the creating iteration strictly increases
      along the store. */
  lemma CreationOrder(store: seq<Role>, names: seq<string>, clock: seq<int>, k1: nat, k2: nat, m1: nat, m2: nat)
    requires k1 < k2 < |store| && m1 < |names| == |clock| && m2 < |names|
    requires CreatedBy(store, names, clock, k1, m1) && CreatedBy(store, names, clock, k2, m2)
    ensures m1 < m2
  {
    assert store[..k2][k1] == store[k1];
    assert RoleExists(store[..k2], names[m1]);
    if m2 < m1 {
      assert RoleExists(store[..k1], names[m2]);
      assert store[..k2][..k1] == store[..k1];
      ExistsInExtension(store[..k1], store[..k2], names[m2]);
    }
  }

  /** A run over names that all exist already changes nothing. */
  lemma {:induction false} EnsureRolesPresent(roles: seq<Role>, names: seq<string>, clock: seq<int>)
    requires |clock| == |names|
    requires forall n :: n in names ==> RoleExists(roles, n)
    ensures EnsureRoles(roles, names, clock) == roles
    decreases |names|
  {
    if |names| > 0 {
      assert names[0] in names;
      EnsureRolesPresent(roles, names[1..], clock[1..]);
    }
  }

  /** After the bootstrap both Admin and User exist; every record that was there is still
      there, unchanged and in place; and the only records added are a default Admin record
      stamped with the first reading and a default User record stamped with the second,
      each only if that role was missing. */
  lemma InitializeSpec(roles: seq<Role>, clock: seq<int>)
    requires |clock| == 2
    ensures RoleExists(Initialize(roles, clock), "Admin") && RoleExists(Initialize(roles, clock), "User")
    ensures |roles| <= |Initialize(roles, clock)| && Initialize(roles, clock)[..|roles|] == roles
    ensures forall k :: |roles| <= k < |Initialize(roles, clock)| ==>
              || (Initialize(roles, clock)[k] == Role("Admin", "Default Admin role", clock[0])
                  && !RoleExists(roles, "Admin"))
              || (Initialize(roles, clock)[k] == Role("User", "Default User role", clock[1])
                  && !RoleExists(roles, "User"))
    // Exactly one record per missing role, Admin's first.
    ensures Initialize(roles, clock)
            == roles + (if RoleExists(roles, "Admin") then [] else [Role("Admin", "Default Admin role", clock[0])])
                     + (if RoleExists(roles, "User") then [] else [Role("User", "Default User role", clock[1])])
    ensures |Initialize(roles, clock)|
            == |roles| + (if RoleExists(roles, "Admin") then 0 else 1) + (if RoleExists(roles, "User") then 0 else 1)
  {
    NormalizedDefaults();
    var step := EnsureRole(roles, "Admin", clock[0]);
    assert Initialize(roles, clock) == EnsureRole(step, "User", clock[1]) by {
      assert DefaultRoleNames[1..] == ["User"] && clock[1..][1..] == [];
    }
    assert RoleExists(step, "User") <==> RoleExists(roles, "User") by {
      if RoleExists(roles, "User") {
        ExistsInExtension(roles, step, "User");
      }
    }
    EnsureRolesSpec(roles, DefaultRoleNames, clock);
    assert "Admin" in DefaultRoleNames && "User" in DefaultRoleNames;
    assert DefaultDescription("Admin") == "Default Admin role";
    assert DefaultDescription("User") == "Default User role";
    forall k | |roles| <= k < |Initialize(roles, clock)|
      ensures || (Initialize(roles, clock)[k] == Role("Admin", "Default Admin role", clock[0])
                  && !RoleExists(roles, "Admin"))
              || (Initialize(roles, clock)[k] == Role("User", "Default User role", clock[1])
                  && !RoleExists(roles, "User"))
    {
      var m :| 0 <= m < 2 && !RoleExists(roles, DefaultRoleNames[m])
        && Initialize(roles, clock)[k] == NewRole(DefaultRoleNames[m], clock[m]);
      assert m == 0 || m == 1;
    }
  }

  /** A store that already holds both roles is left exactly as it is. */
  lemma InitializeKeepsExisting(roles: seq<Role>, clock: seq<int>)
    requires |clock| == 2
    requires RoleExists(roles, "Admin") && RoleExists(roles, "User")
    ensures Initialize(roles, clock) == roles
  {
    EnsureRolesPresent(roles, DefaultRoleNames, clock);
  }

  /** Running the bootstrap again, with any later clock readings, changes nothing. */
  lemma InitializeIdempotent(roles: seq<Role>, clock: seq<int>, later: seq<int>)
    requires |clock| == 2 && |later| == 2
    ensures Initialize(Initialize(roles, clock), later) == Initialize(roles, clock)
  {
    InitializeSpec(roles, clock);
    InitializeKeepsExisting(Initialize(roles, clock), later);
  }

  lemma NormalizedDefaults()
    ensures Normalize("Admin") == "ADMIN" && Normalize("User") == "USER"
  {
  }

  /** The normalised role names afterwards are those before plus ADMIN and USER: no other
      role is added or removed. */
  lemma InitializeNames(roles: seq<Role>, clock: seq<int>)
    requires |clock| == 2
    ensures NormalizedNames(Initialize(roles, clock)) == NormalizedNames(roles) + {"ADMIN", "USER"}
  {
    InitializeSpec(roles, clock);
    NormalizedDefaults();
    var after := Initialize(roles, clock);
    forall x | x in NormalizedNames(after)
      ensures x in NormalizedNames(roles) + {"ADMIN", "USER"}
    {
      var k :| 0 <= k < |after| && Normalize(after[k].name) == x;
      if k < |roles| {
        assert after[k] == after[..|roles|][k] == roles[k];
      }
    }
    forall x | x in NormalizedNames(roles) + {"ADMIN", "USER"}
      ensures x in NormalizedNames(after)
    {
      if x in NormalizedNames(roles) {
        var k :| 0 <= k < |roles| && Normalize(roles[k].name) == x;
        assert after[k] == after[..|roles|][k];
      } else if x == "ADMIN" {
        var k :| 0 <= k < |after| && Normalize(after[k].name) == Normalize("Admin");
      } else {
        var k :| 0 <= k < |after| && Normalize(after[k].name) == Normalize("User");
      }
    }
  }
}
