/** The roles guard: a route annotated with required roles admits a caller when the
    caller's role string includes one of the required role names. */
module RolesGuard {
  import opened Wrappers
  import opened Strings
  import opened Identity

  /** `roles.some(role => userRole.includes(role))` */
  function SomeIncluded(roles: seq<Role>, userRole: string): (r: bool)
    ensures r <==> exists i :: 0 <= i < |roles| && Includes(userRole, RoleName(roles[i]))
    decreases |roles|
  {
    if |roles| == 0 then false
    else
      var rest := SomeIncluded(roles[1..], userRole);
      assert forall i :: 1 <= i < |roles| ==> roles[i] == roles[1..][i - 1];
      Includes(userRole, RoleName(roles[0])) || rest
  }

  /** `canActivate`: `required` is the roles metadata of the handler or, failing that,
      of its class (None when neither is annotated); `user` is what the token guard attached. */
  function CanActivate(required: Option<seq<Role>>, user: Payload): (allowed: bool)
    ensures required.None? ==> allowed
    ensures required.Some? && user.role.None? ==> !allowed
    ensures required == Some([]) ==> !allowed
    ensures required.Some? && user.role.Some? ==>
      (allowed <==> exists i :: 0 <= i < |required.value| && OccursIn(user.role.value, RoleName(required.value[i])))
  {
    match required
    case None => true
    case Some(roles) =>
      match user.role
      case None => false
      case Some(role) =>
        var r := SomeIncluded(roles, role);
        IncludesMeansOccurs(role, roles);
        r
  }

  ghost predicate OccursIn(s: string, needle: string) {
    exists i :: OccursAt(s, needle, i)
  }

  lemma IncludesMeansOccurs(role: string, roles: seq<Role>)
    ensures forall i :: 0 <= i < |roles| ==>
      (Includes(role, RoleName(roles[i])) <==> OccursIn(role, RoleName(roles[i])))
  {
    forall i | 0 <= i < |roles|
      ensures Includes(role, RoleName(roles[i])) <==> OccursIn(role, RoleName(roles[i]))
    {
      IncludesIffOccurs(role, RoleName(roles[i]));
    }
  }

  /** No role name of the enum occurs inside another, so for the enum's own values the
      substring test coincides with equality. */
  lemma RoleNamesNotNested(a: Role, b: Role)
    ensures Includes(RoleName(a), RoleName(b)) <==> a == b
  {
    if a != b {
      FirstCharAbsent(RoleName(a), RoleName(b));
    }
  }

  /** A needle whose first character never appears in `s` is not included in `s`;
      nor is a needle that is at least as long as `s` and differs from it. */
  lemma {:induction false} FirstCharAbsent(s: string, needle: string)
    requires |needle| > 0 && s != needle
    requires needle[0] !in s || |needle| >= |s|
    ensures !Includes(s, needle)
    decreases |s|
  {
    if |s| > 0 {
      assert s[0] in s;
      FirstCharAbsent(s[1..], needle);
    }
  }

  /** For a token whose role is one of the enum values the guard is a membership test. */
  lemma CanActivateIsMembershipForEnumRoles(roles: seq<Role>, user: Payload, role: Role)
    requires user.role == Some(RoleName(role))
    ensures CanActivate(Some(roles), user) <==> role in roles
  {
    if role in roles {
      var i :| 0 <= i < |roles| && roles[i] == role;
      RoleNamesNotNested(role, roles[i]);
    }
    if CanActivate(Some(roles), user) {
      var i :| 0 <= i < |roles| && Includes(RoleName(role), RoleName(roles[i]));
      RoleNamesNotNested(role, roles[i]);
    }
  }

  /** The test is on substrings: a role string merely containing "admin" passes an
      admin-only route. */
  lemma SubstringRoleIsAdmitted()
    ensures CanActivate(Some([Admin]), Payload(7, Some("superadmin")))
  {
    assert OccursAt("superadmin", "admin", 5);
  }
}
