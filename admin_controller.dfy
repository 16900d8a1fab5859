// Management of admin accounts by a super admin: the users table as a map
// from id to account, the field rules of store and update, the guard that
// stops an admin from deleting their own account, the role list offered to
// forms, and the index filters. Hash::make is the parameter hash; an
// uploaded avatar arrives as the path the storage layer chose.

module AdminController {
  import opened Common
  import UserRole
  import ListingFilters

  /** The columns of a users row that these screens read and write. */
  datatype Account = Account(
    id: int,
    name: string,
    email: string,
    passwordHash: string,
    role: string,
    isActive: int,
    avatar: Option<string>)

  /**
   * A store or update request, after the framework's middleware: name and
   * email arrive trimmed, with an empty value read as "", while the password
   * and its confirmation are never trimmed. otherErrors holds the failed
   * rules the model does not evaluate, keyed by field name: the e-mail syntax
   * rule under "email", the string type rules, and the avatar's image, type
   * and size rules under "avatar".
   */
  datatype AdminRequest = AdminRequest(
    name: string,
    email: string,
    password: Option<string>,
    passwordConfirmation: Option<string>,
    role: string,
    isActive: Option<int>,
    avatarUpload: Option<string>,
    otherErrors: set<string>)

  const MaxLength: nat := 255
  const MinPasswordLength: nat := 8

  const ModelledFields: set<string> := {"name", "email", "password", "role", "is_active"}

  /** Another account than `self` already uses the address. */
  predicate EmailTaken(accounts: map<int, Account>, email: string, self: Option<int>) {
    exists id :: id in accounts && Some(id) != self && accounts[id].email == email
  }

  /** The characters PHP's trim() strips by default. */
  const TrimCharacters: string := " \t\n\r\0\U{000B}"

  /** Nothing is left once trim() has run. */
  predicate Blank(s: string) {
    forall i :: 0 <= i < |s| ==> s[i] in TrimCharacters
  }

  /**
   * Laravel's filled(), and what the required rule accepts in a string: the
   * value is present and is not blank after trimming. A blank value also
   * makes the validator skip every rule of the field that is not implicit.
   */
  predicate Filled(s: Option<string>) {
    s.Some? && !Blank(s.value)
  }

  /** The min:8 and confirmed rules on a password that was sent. */
  predicate PasswordAcceptable(req: AdminRequest) {
    req.password.Some? && |req.password.value| >= MinPasswordLength && req.passwordConfirmation == req.password
  }

  /**
   * The validator's error keys: the verdicts of the rules evaluated here,
   * added to those of the other rules. On store (self == None) a password is
   * required and the e-mail must be unused; on update (self == Some(id)) a
   * password is checked only when a non-blank one is sent, and the account's
   * own address does not count as taken.
   */
  function ValidationErrors(accounts: map<int, Account>, req: AdminRequest, self: Option<int>): (errors: set<string>)
    ensures "name" in errors <==> "name" in req.otherErrors || req.name == "" || |req.name| > MaxLength
    ensures "email" in errors <==>
              "email" in req.otherErrors || req.email == "" || |req.email| > MaxLength || EmailTaken(accounts, req.email, self)
    ensures self.None? ==>
              ("password" in errors <==> "password" in req.otherErrors || !Filled(req.password) || !PasswordAcceptable(req))
    ensures self.Some? ==>
              ("password" in errors <==> "password" in req.otherErrors || (Filled(req.password) && !PasswordAcceptable(req)))
    ensures "role" in errors <==> "role" in req.otherErrors || !UserRole.Exists(req.role)
    ensures "is_active" in errors <==>
              "is_active" in req.otherErrors || (req.isActive.Some? && !(0 <= req.isActive.value <= 1))
  {
    var passwordBad :=
      if self.None? then !Filled(req.password) || !PasswordAcceptable(req)
      else Filled(req.password) && !PasswordAcceptable(req);
    req.otherErrors
    + (if req.name == "" || |req.name| > MaxLength then {"name"} else {})
    + (if req.email == "" || |req.email| > MaxLength || EmailTaken(accounts, req.email, self) then {"email"} else {})
    + (if passwordBad then {"password"} else {})
    + (if !UserRole.Exists(req.role) then {"role"} else {})
    + (if req.isActive.Some? && !(0 <= req.isActive.value <= 1) then {"is_active"} else {})
  }

  /**
   * Every verdict of a rule the model does not evaluate reaches the answer,
   * and the rules evaluated here add keys of their own fields only.
   */
  lemma OtherErrorsKept(accounts: map<int, Account>, req: AdminRequest, self: Option<int>)
    ensures req.otherErrors <= ValidationErrors(accounts, req, self)
    ensures ValidationErrors(accounts, req, self) - ModelledFields == req.otherErrors - ModelledFields
  {
  }

  /**
   * A password of spaces only: store refuses it as missing, while update
   * skips the password rules and keeps the stored hash.
   */
  lemma BlankPassword(accounts: map<int, Account>, a: Account, req: AdminRequest, hash: string -> string)
    requires req.password.Some? && Blank(req.password.value)
    ensures "password" in ValidationErrors(accounts, req, None)
    ensures "password" !in req.otherErrors ==> "password" !in ValidationErrors(accounts, req, Some(a.id))
    ensures UpdatedAccount(a, req, hash).passwordHash == a.passwordHash
  {
  }

  /** Eight spaces are blank, though long enough for min:8. */
  lemma EightSpacesBlank()
    ensures |"        "| >= MinPasswordLength && Blank("        ")
  {
    assert forall i :: 0 <= i < |"        "| ==> "        "[i] == ' ';
  }

  /** The account store() saves: is_active defaults to 1 (true). */
  function NewAccount(id: int, req: AdminRequest, hash: string -> string): (a: Account)
    requires Filled(req.password)
    ensures a.isActive == if req.isActive.Some? then req.isActive.value else 1
    ensures a.passwordHash == hash(req.password.value)
  {
    Account(id, req.name, req.email, hash(req.password.value), req.role, req.isActive.GetOr(1), req.avatarUpload)
  }

  /**
   * The account update() saves: is_active defaults to 0 when absent, the
   * password hash changes only for a filled password, and the avatar only
   * for an upload.
   */
  function UpdatedAccount(a: Account, req: AdminRequest, hash: string -> string): (r: Account)
    ensures r.id == a.id
    ensures r.isActive == if req.isActive.Some? then req.isActive.value else 0
    ensures r.passwordHash == if Filled(req.password) then hash(req.password.value) else a.passwordHash
    ensures req.avatarUpload.None? ==> r.avatar == a.avatar
  {
    a.(name := req.name,
       email := req.email,
       role := req.role,
       isActive := req.isActive.GetOr(0),
       passwordHash := if Filled(req.password) then hash(req.password.value) else a.passwordHash,
       avatar := if req.avatarUpload.Some? then req.avatarUpload else a.avatar)
  }

  /** Omitting is_active deactivates on update but activates on store. */
  lemma IsActiveDefaultsDiffer(a: Account, id: int, req: AdminRequest, hash: string -> string)
    requires req.isActive.None? && Filled(req.password)
    ensures NewAccount(id, req, hash).isActive == 1
    ensures UpdatedAccount(a, req, hash).isActive == 0
  {
  }

  /** An update without a password keeps the stored hash, whatever the hash function. */
  lemma UpdateWithoutPasswordKeepsHash(a: Account, req: AdminRequest, h1: string -> string, h2: string -> string)
    requires !Filled(req.password)
    ensures UpdatedAccount(a, req, h1).passwordHash == a.passwordHash
    ensures UpdatedAccount(a, req, h1) == UpdatedAccount(a, req, h2)
  {
  }

  /** One role option offered to the admin forms: the value and its label (the `label` key). */
  datatype RoleOption = RoleOption(value: string, labelText: string)

  /** getRoles: every role, in the order of UserRole.All(), with its display name. */
  function Roles(): (options: seq<RoleOption>)
    ensures |options| == |UserRole.All()|
    ensures forall i :: 0 <= i < |options| ==>
              options[i].value == UserRole.All()[i] && options[i].labelText == UserRole.DisplayName(UserRole.All()[i])
  {
    var all := UserRole.All();
    seq(|all|, i requires 0 <= i < |all| => RoleOption(all[i], UserRole.DisplayName(all[i])))
  }

  /** The offered values are exactly the valid roles, and every label is a known one, all distinct. */
  lemma RolesAreTheValidRoles()
    ensures forall r :: (exists i :: 0 <= i < |Roles()| && Roles()[i].value == r) <==> UserRole.Exists(r)
    ensures forall i :: 0 <= i < |Roles()| ==> Roles()[i].labelText != "Unknown Role"
    ensures forall i, j :: 0 <= i < j < |Roles()| ==> Roles()[i].labelText != Roles()[j].labelText
  {
    var options := Roles();
    forall r | UserRole.Exists(r)
      ensures exists i :: 0 <= i < |options| && options[i].value == r
    {
      var i :| 0 <= i < |UserRole.All()| && UserRole.All()[i] == r;
      assert options[i].value == r;
    }
    forall i, j | 0 <= i < j < |options|
      ensures options[i].labelText != options[j].labelText
    {
      UserRole.DisplayNamesDistinct(options[i].value, options[j].value);
    }
  }

  /** Whether the index lists an account for the given role and status parameters (search aside). */
  predicate Listed(a: Account, role: Input<string>, status: Input<string>) {
    var roleFilter := ListingFilters.RoleFilter(role);
    (roleFilter.None? || a.role == roleFilter.value) &&
    ListingFilters.PassesActiveFilter(a.isActive, ListingFilters.ActiveFilter(status))
  }

  /** The users table as these screens see it. */
  class AdminTable {
    var accounts: map<int, Account>
    var nextId: int

    /** Ids are keys below nextId, e-mail addresses are unique, and every role is valid. */
    predicate Valid()
      reads this
    {
      (forall id :: id in accounts ==> accounts[id].id == id && id < nextId) &&
      (forall i, j :: i in accounts && j in accounts && i != j ==> accounts[i].email != accounts[j].email) &&
      (forall id :: id in accounts ==> UserRole.Exists(accounts[id].role))
    }

    constructor ()
      ensures Valid() && accounts == map[]
    {
      accounts := map[];
      nextId := 1;
    }

    method Store(req: AdminRequest, hash: string -> string) returns (resp: Response)
      requires Valid()
      modifies this
      ensures Valid()
      ensures ValidationErrors(old(accounts), req, None) != {} ==>
                resp == Invalid(ValidationErrors(old(accounts), req, None)) &&
                accounts == old(accounts) && nextId == old(nextId)
      ensures ValidationErrors(old(accounts), req, None) == {} ==>
                resp == Ok(201) && nextId == old(nextId) + 1 &&
                accounts == old(accounts)[old(nextId) := NewAccount(old(nextId), req, hash)]
    {
      var errors := ValidationErrors(accounts, req, None);
      if errors != {} {
        return Invalid(errors);
      }
      accounts := accounts[nextId := NewAccount(nextId, req, hash)];
      nextId := nextId + 1;
      resp := Ok(201);
    }

    method Update(id: int, req: AdminRequest, hash: string -> string) returns (resp: Response)
      requires Valid()
      modifies this
      ensures Valid() && nextId == old(nextId)
      ensures id !in old(accounts) ==> resp == NotFound && accounts == old(accounts)
      ensures id in old(accounts) && ValidationErrors(old(accounts), req, Some(id)) != {} ==>
                resp == Invalid(ValidationErrors(old(accounts), req, Some(id))) && accounts == old(accounts)
      ensures id in old(accounts) && ValidationErrors(old(accounts), req, Some(id)) == {} ==>
                resp == Ok(200) && accounts == old(accounts)[id := UpdatedAccount(old(accounts)[id], req, hash)]
    {
      if id !in accounts {
        return NotFound;
      }
      var errors := ValidationErrors(accounts, req, Some(id));
      if errors != {} {
        return Invalid(errors);
      }
      accounts := accounts[id := UpdatedAccount(accounts[id], req, hash)];
      resp := Ok(200);
    }

    /** An admin cannot delete their own account; any other account is removed. */
    method Destroy(id: int, actorId: int) returns (resp: Response)
      requires Valid()
      modifies this
      ensures Valid() && nextId == old(nextId)
      ensures id !in old(accounts) ==> resp == NotFound && accounts == old(accounts)
      ensures id in old(accounts) && id == actorId ==> resp == Forbidden && accounts == old(accounts)
      ensures id in old(accounts) && id != actorId ==> resp == Ok(200) && accounts == old(accounts) - {id}
    {
      if id !in accounts {
        return NotFound;
      }
      if id == actorId {
        return Forbidden;
      }
      accounts := accounts - {id};
      resp := Ok(200);
    }
  }
}
