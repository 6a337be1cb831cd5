/** The authenticated caller as the controllers see it: the numeric user
    id from the `"id"` claim and the remaining claims of the bearer token.
    The token issuer writes the role under the framework's long role claim
    type, which is also the type `[Authorize(Roles = ...)]` and
    `FindFirst(ClaimTypes.Role)` consult; some actions instead look for a
    claim typed `"role"`. */
module Claims {
  import opened Base

  datatype Claim = Claim(claimType: string, value: string)

  /** `id` is the converted value of the first `"id"` claim, `None` when
      the token carries none. */
  datatype Principal = Principal(id: Option<int>, claims: seq<Claim>)

  const RoleClaimType := "http://schemas.microsoft.com/ws/2008/06/identity/claims/role"
  const ShortRoleClaimType := "role"
  const UserNameClaimType := "username"
  const AdminRole := "Admin"
  const UserRole := "User"

  /** `Convert.ToInt32(...FirstOrDefault(c => c.Type == "id")?.Value)`:
      a missing claim converts to 0. */
  function CallerId(p: Principal): (id: int)
    ensures p.id.Some? ==> id == p.id.value
    ensures p.id.None? ==> id == 0
  {
    if p.id.Some? then p.id.value else 0
  }

  /** The value of the first claim of the given type, if any. */
  function FirstClaim(claims: seq<Claim>, claimType: string): (r: Option<string>)
    ensures r.Some? <==> exists i :: 0 <= i < |claims| && claims[i].claimType == claimType
    ensures r.Some? ==> exists i :: 0 <= i < |claims| && claims[i] == Claim(claimType, r.value)
                                      && forall j :: 0 <= j < i ==> claims[j].claimType != claimType
  {
    if claims == [] then None
    else if claims[0].claimType == claimType then Some(claims[0].value)
    else
      var r := FirstClaim(claims[1..], claimType);
      assert forall i :: 1 <= i < |claims| ==> claims[i] == claims[1..][i - 1];
      if r.Some? then
        ghost var k :| 0 <= k < |claims[1..]| && claims[1..][k] == Claim(claimType, r.value)
                       && forall j :: 0 <= j < k ==> claims[1..][j].claimType != claimType;
        assert claims[k + 1] == Claim(claimType, r.value);
        r
      else r
  }

  /** `User.IsInRole(role)`, which `[Authorize(Roles = ...)]` checks: some
      role claim carries that value. */
  predicate IsInRole(p: Principal, role: string) {
    exists i :: 0 <= i < |p.claims| && p.claims[i] == Claim(RoleClaimType, role)
  }

  /** An action's own test `role == "Admin"` on the first claim of the
      type it reads. */
  predicate FirstClaimIsAdmin(p: Principal, claimType: string) {
    FirstClaim(p.claims, claimType) == Some(AdminRole)
  }

  /** The first role claim saying "Admin" implies the attribute check
      passes; with a single role claim the two checks agree. */
  lemma FirstRoleClaimAgreesWithIsInRole(p: Principal)
    ensures FirstClaimIsAdmin(p, RoleClaimType) ==> IsInRole(p, AdminRole)
    ensures (forall i, j :: 0 <= i < j < |p.claims| ==>
               p.claims[i].claimType == RoleClaimType ==> p.claims[j].claimType != RoleClaimType)
            ==> (FirstClaimIsAdmin(p, RoleClaimType) <==> IsInRole(p, AdminRole))
  {
    if IsInRole(p, AdminRole) && FirstClaim(p.claims, RoleClaimType) != Some(AdminRole) {
      var i :| 0 <= i < |p.claims| && p.claims[i] == Claim(RoleClaimType, AdminRole);
      var r := FirstClaim(p.claims, RoleClaimType);
      var k :| 0 <= k < |p.claims| && p.claims[k] == Claim(RoleClaimType, r.value)
               && forall j :: 0 <= j < k ==> p.claims[j].claimType != RoleClaimType;
      assert k != i;
    }
  }

  /** The caller a token from the login endpoint yields: its id, user
      name and one role claim of the long type. */
  function IssuedPrincipal(id: int, userName: string, role: string): (p: Principal)
    ensures CallerId(p) == id
    ensures IsInRole(p, role)
  {
    var p := Principal(Some(id), [Claim(UserNameClaimType, userName), Claim(RoleClaimType, role)]);
    assert p.claims[1] == Claim(RoleClaimType, role);
    p
  }

  /** For a token from the login endpoint, reading the role under the long
      type agrees with `IsInRole`, while the short `"role"` type finds no
      claim at all, so a check written against it never sees an admin. */
  lemma IssuedPrincipalRoles(id: int, userName: string, role: string)
    ensures var p := IssuedPrincipal(id, userName, role);
      && (FirstClaimIsAdmin(p, RoleClaimType) <==> role == AdminRole)
      && (IsInRole(p, AdminRole) <==> role == AdminRole)
      && FirstClaim(p.claims, ShortRoleClaimType).None?
      && !FirstClaimIsAdmin(p, ShortRoleClaimType)
  {
    var p := IssuedPrincipal(id, userName, role);
    assert p.claims[0].claimType == UserNameClaimType;
    assert UserNameClaimType != RoleClaimType;
    assert ShortRoleClaimType != RoleClaimType && ShortRoleClaimType != UserNameClaimType;
  }
}
