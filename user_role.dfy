// The role constants of the admin panel and the arithmetic over them:
// display names, membership and the permission hierarchy
// super_admin > editor > reporter.

module UserRole {

  const SuperAdmin: string := "super_admin"
  const Editor: string := "editor"
  const Reporter: string := "reporter"

  /** Every role, most powerful first. */
  function All(): (roles: seq<string>)
    ensures |roles| == 3
    ensures forall i, j :: 0 <= i < j < |roles| ==> roles[i] != roles[j]
  {
    [SuperAdmin, Editor, Reporter]
  }

  /** Membership is plain string equality with one of the three constants. */
  predicate Exists(role: string) {
    role in All()
  }

  /** The label shown to users; anything unrecognised reads "Unknown Role". */
  function DisplayName(role: string): (name: string)
    ensures name == "Unknown Role" <==> !Exists(role)
  {
    if role == SuperAdmin then "Super Admin"
    else if role == Editor then "Editor"
    else if role == Reporter then "Reporter"
    else "Unknown Role"
  }

  /** Higher is more powerful; 0 for a string that is not a role. */
  function HierarchyLevel(role: string): (level: nat)
    ensures level <= 3
    ensures level > 0 <==> Exists(role)
    ensures level > 0 ==> All()[3 - level] == role
  {
    if role == SuperAdmin then 3
    else if role == Editor then 2
    else if role == Reporter then 1
    else 0
  }

  predicate HasPermissionLevel(role: string, requiredLevel: int) {
    HierarchyLevel(role) >= requiredLevel
  }

  /** All() lists the roles in strictly decreasing level, 3, 2, 1. */
  lemma AllByLevel()
    ensures forall i :: 0 <= i < |All()| ==> HierarchyLevel(All()[i]) == 3 - i
  {
  }

  /** Passing a level means passing every lower one. */
  lemma PermissionMonotone(role: string, m: int, n: int)
    requires HasPermissionLevel(role, n) && m <= n
    ensures HasPermissionLevel(role, m)
  {
  }

  /** A string that is not a role passes no level above 0. */
  lemma UnknownRoleRefused(role: string, requiredLevel: int)
    requires !Exists(role) && requiredLevel >= 1
    ensures !HasPermissionLevel(role, requiredLevel)
  {
  }

  /** For a level 1..3, exactly the first 4 - n roles of All() pass it. */
  lemma PassingRoles(role: string, n: int)
    requires 1 <= n <= 3
    ensures HasPermissionLevel(role, n) <==> role in All()[..4 - n]
  {
    AllByLevel();
    forall r | r in All()[..4 - n]
      ensures HierarchyLevel(r) >= n
    {
      var i :| 0 <= i < 4 - n && All()[..4 - n][i] == r;
      assert All()[i] == r;
    }
    if HasPermissionLevel(role, n) {
      var level := HierarchyLevel(role);
      assert All()[..4 - n][3 - level] == role;
    }
  }

  /** Different roles have different display names. */
  lemma DisplayNamesDistinct(a: string, b: string)
    requires Exists(a) && Exists(b) && a != b
    ensures DisplayName(a) != DisplayName(b)
  {
  }
}
