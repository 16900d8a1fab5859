// The authenticated user record: role checks that delegate to UserRole, and
// the six-digit password-reset code with its fifteen-minute lifetime.
// Clock readings ("now") are integer seconds supplied by the caller, and the
// random draw behind the code is a parameter.

module UserModel {
  import opened Common
  import UserRole
  import Decimal

  /** A reset code stays valid for 15 minutes. */
  const ResetCodeLifetime: int := 15 * 60

  /** The largest value random_int(0, 999999) can draw. */
  const MaxResetDraw: nat := 999999

  /**
   * The code shown to the user for a random draw: the draw in decimal,
   * left-padded with '0' to six characters.
   */
  function ResetCodeFor(draw: nat): (code: string)
    requires draw <= MaxResetDraw
    ensures |code| == 6 && Decimal.AllDigits(code)
    ensures Decimal.ParseDigits(code) == draw
  {
    var digits := Decimal.NatToString(draw);
    assert Decimal.Pow10(6) == 1000000 by {
      assert Decimal.Pow10(1) == 10;
      assert Decimal.Pow10(2) == 100;
      assert Decimal.Pow10(3) == 1000;
      assert Decimal.Pow10(4) == 10000;
      assert Decimal.Pow10(5) == 100000;
    }
    Decimal.NatToStringLength(draw, 6);
    Decimal.ParseNatToString(draw);
    Decimal.ParseLeadingZeros(6 - |digits|, digits);
    Decimal.PadLeft(digits, 6, '0')
  }

  /** Two different draws never give the same code. */
  lemma ResetCodesDistinct(a: nat, b: nat)
    requires a <= MaxResetDraw && b <= MaxResetDraw && a != b
    ensures ResetCodeFor(a) != ResetCodeFor(b)
  {
  }

  class User {
    const id: int
    var role: string
    var resetCode: Option<string>
    /** Expiry instant of the reset code, in seconds. */
    var resetCodeExpiresAt: Option<int>

    constructor (id: int, role: string)
      ensures this.id == id && this.role == role
      ensures resetCode == None && resetCodeExpiresAt == None
    {
      this.id := id;
      this.role := role;
      resetCode := None;
      resetCodeExpiresAt := None;
    }

    /** Strict string equality with the stored role. */
    predicate HasRole(r: string)
      reads this
    {
      role == r
    }

    predicate IsSuperAdmin()
      reads this
    {
      HasRole(UserRole.SuperAdmin)
    }

    predicate IsEditor()
      reads this
    {
      HasRole(UserRole.Editor)
    }

    predicate IsReporter()
      reads this
    {
      HasRole(UserRole.Reporter)
    }

    predicate HasPermissionLevel(requiredLevel: int)
      reads this
    {
      UserRole.HasPermissionLevel(role, requiredLevel)
    }

    function RoleDisplayName(): (name: string)
      reads this
      ensures name == "Unknown Role" <==> !(IsSuperAdmin() || IsEditor() || IsReporter())
    {
      UserRole.DisplayName(role)
    }

    /** True iff the stored code equals the input and its expiry is strictly later than now. */
    predicate VerifyResetCode(code: string, now: int)
      reads this
    {
      resetCode == Some(code) && resetCodeExpiresAt.Some? && resetCodeExpiresAt.value > now
    }

    /** Issues a fresh code from a random draw and stores it with expiry now + 15 minutes. */
    method GenerateResetCode(draw: nat, now: int) returns (code: string)
      requires draw <= MaxResetDraw
      modifies this
      ensures code == ResetCodeFor(draw)
      ensures resetCode == Some(code) && resetCodeExpiresAt == Some(now + ResetCodeLifetime)
      ensures role == old(role)
      ensures forall c, t :: VerifyResetCode(c, t) <==> c == code && t < now + ResetCodeLifetime
    {
      code := ResetCodeFor(draw);
      resetCode := Some(code);
      resetCodeExpiresAt := Some(now + ResetCodeLifetime);
    }

    /** Forgets the code and its expiry; afterwards no code verifies. */
    method ClearResetCode()
      modifies this
      ensures resetCode == None && resetCodeExpiresAt == None
      ensures role == old(role)
      ensures forall c, t :: !VerifyResetCode(c, t)
    {
      resetCode := None;
      resetCodeExpiresAt := None;
    }
  }

  /** At most one of the three role checks holds, and one holds iff the role exists. */
  lemma RoleChecksExclusive(u: User)
    ensures !(u.IsSuperAdmin() && u.IsEditor()) && !(u.IsSuperAdmin() && u.IsReporter())
    ensures !(u.IsEditor() && u.IsReporter())
    ensures u.IsSuperAdmin() || u.IsEditor() || u.IsReporter() <==> UserRole.Exists(u.role)
  {
  }

  /** A super admin passes every level the hierarchy defines. */
  lemma SuperAdminPassesEveryLevel(u: User, requiredLevel: int)
    requires u.IsSuperAdmin() && requiredLevel <= 3
    ensures u.HasPermissionLevel(requiredLevel)
  {
  }
}
