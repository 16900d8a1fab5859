// The browser-side session: the bearer token kept in local storage, the
// signed-in user as the API last described them, and the role checks the
// screens use to show or hide actions. A server answer is an input: None
// stands for a request that failed (the action's catch branch).

module AuthStore {
  import opened Common
  import opened ClientData
  import UserRole
  import ArticleModel

  /** The user object the login, me and profile endpoints return, as far as the store reads it. */
  datatype SessionUser = SessionUser(role: JsValue, avatar: Option<string>, avatarUrl: Option<string>)

  /** A successful login answer: the new token and the user. */
  datatype LoginAnswer = LoginAnswer(token: string, user: SessionUser)

  /** A token passes `!!token` when it is a non-empty string. */
  predicate TokenPresent(token: Option<string>) {
    token.Some? && token.value != ""
  }

  /** The isAuthenticated getter: a token and a user. */
  predicate IsAuthenticated(token: Option<string>, user: Option<SessionUser>) {
    TokenPresent(token) && user.Some?
  }

  /** `this.user?.role === role`: with no user the left side is undefined. */
  predicate HasRole(user: Option<SessionUser>, role: JsValue) {
    (if user.Some? then user.value.role else Undefined) == role
  }

  /** With no user, hasRole holds for undefined and nothing else. */
  lemma NoUserHasRoleUndefined(role: JsValue)
    ensures HasRole(None, role) <==> role == Undefined
  {
  }

  /**
   * Properties every plain object inherits from Object.prototype. Looking one
   * up in the role table yields a function or an object rather than a number.
   */
  const PrototypeKeys: set<string> := {
    "constructor", "__proto__", "toString", "toLocaleString", "valueOf", "hasOwnProperty",
    "isPrototypeOf", "propertyIsEnumerable", "__defineGetter__", "__defineSetter__",
    "__lookupGetter__", "__lookupSetter__"}

  /**
   * `roleLevels[role] || 0`: 3, 2 or 1 for the three roles and 0 for any other
   * key; None when the lookup hits an inherited property, whose value is a
   * truthy non-number that compares as NaN, so that every `>=` on it is false.
   * A non-string role becomes the key "undefined", "null", a numeral or
   * "true"/"false", none of which is in the table or inherited.
   */
  function ClientLevel(role: JsValue): (level: Option<int>)
    ensures level.None? <==> role.Str? && role.s in PrototypeKeys
    ensures level.Some? ==> 0 <= level.value <= 3
    ensures level.Some? && level.value > 0 ==> role.Str? && UserRole.Exists(role.s)
  {
    if role == Str("super_admin") then Some(3)
    else if role == Str("editor") then Some(2)
    else if role == Str("reporter") then Some(1)
    else if role.Str? && role.s in PrototypeKeys then None
    else Some(0)
  }

  /** The hasPermissionLevel action: the user's level, or 0 with no user, is at least the required one. */
  predicate HasPermissionLevel(user: Option<SessionUser>, requiredLevel: int) {
    var level := ClientLevel(if user.Some? then user.value.role else Undefined);
    level.Some? && level.value >= requiredLevel
  }

  /**
   * For every role string that is not an inherited property name, the
   * client's table gives the server's hierarchy level, so the client shows an
   * action exactly when the server's permission middleware would let the
   * request through.
   */
  lemma ClientLevelMatchesServer(u: SessionUser, requiredLevel: int)
    requires u.role.Str? && u.role.s !in PrototypeKeys
    ensures ClientLevel(u.role) == Some(UserRole.HierarchyLevel(u.role.s))
    ensures HasPermissionLevel(Some(u), requiredLevel) <==> UserRole.HasPermissionLevel(u.role.s, requiredLevel)
  {
    assert UserRole.SuperAdmin == "super_admin" && UserRole.Editor == "editor" && UserRole.Reporter == "reporter";
  }

  /**
   * The one disagreement: a role string naming an inherited property (such as
   * "constructor") passes level 0 on the server but no level at all here.
   */
  lemma InheritedKeyRefusedEverywhere(u: SessionUser, requiredLevel: int)
    requires u.role.Str? && u.role.s in PrototypeKeys
    ensures !HasPermissionLevel(Some(u), requiredLevel)
    ensures requiredLevel <= 0 ==> UserRole.HasPermissionLevel(u.role.s, requiredLevel)
  {
  }

  /** Signed out, only a required level of 0 or less passes. */
  lemma NoUserLevel(requiredLevel: int)
    ensures HasPermissionLevel(None, requiredLevel) <==> requiredLevel <= 0
  {
  }

  /** The avatar_url the store derives: an http(s) address as it is, a stored path under /storage/. */
  function AvatarUrl(avatar: string): (url: string)
    ensures StartsWith(avatar, "http") ==> url == avatar
    ensures !StartsWith(avatar, "http") ==> StartsWith(url, "/storage/") && url[|"/storage/"|..] == avatar
  {
    if StartsWith(avatar, "http") then avatar else "/storage/" + avatar
  }

  /**
   * The user as the store keeps it after login, fetchUser and updateProfile:
   * avatar_url is added when the avatar is truthy in JavaScript (a non-empty
   * string); otherwise the user is kept as received.
   */
  function WithAvatarUrl(u: SessionUser): (r: SessionUser)
    ensures r.role == u.role && r.avatar == u.avatar
    ensures u.avatar.Some? && u.avatar.value != "" ==> r.avatarUrl == Some(AvatarUrl(u.avatar.value))
    ensures !(u.avatar.Some? && u.avatar.value != "") ==> r == u
  {
    if u.avatar.Some? && u.avatar.value != "" then u.(avatarUrl := Some(AvatarUrl(u.avatar.value))) else u
  }

  /**
   * The client's avatar rule is the article model's featured-image rule,
   * except for the path "0": JavaScript finds it truthy and builds
   * "/storage/0", PHP finds it empty and yields null.
   */
  lemma AvatarUrlMatchesServerRule(path: string)
    ensures path != "0" ==> WithAvatarUrl(SessionUser(Undefined, Some(path), None)).avatarUrl == ArticleModel.FeaturedImageUrl(Some(path))
    ensures path == "0" ==> WithAvatarUrl(SessionUser(Undefined, Some(path), None)).avatarUrl == Some("/storage/0") &&
                            ArticleModel.FeaturedImageUrl(Some(path)).None?
  {
    if path == "0" {
      assert !StartsWith(path, "http");
      assert "/storage/" + path == "/storage/0";
    }
  }

  /** Deriving the avatar URL twice changes nothing more. */
  lemma WithAvatarUrlIdempotent(u: SessionUser)
    ensures WithAvatarUrl(WithAvatarUrl(u)) == WithAvatarUrl(u)
  {
  }

  class AuthSession {
    var token: Option<string>
    var user: Option<SessionUser>
    var isInitialized: bool

    /** The state a page load starts with: the token local storage held, and no user yet. */
    constructor (storedToken: Option<string>)
      ensures token == storedToken && user == None && !isInitialized
    {
      token := storedToken;
      user := None;
      isInitialized := false;
    }

    /** A successful login stores the token and the user with its avatar URL; a failed one changes nothing. */
    method Login(response: Option<LoginAnswer>)
      modifies this
      ensures response.None? ==> token == old(token) && user == old(user)
      ensures response.Some? ==>
                token == Some(response.value.token) && user == Some(WithAvatarUrl(response.value.user))
      ensures response.Some? ==> (IsAuthenticated(token, user) <==> response.value.token != "")
      ensures isInitialized == old(isInitialized)
    {
      if response.Some? {
        token := Some(response.value.token);
        user := Some(WithAvatarUrl(response.value.user));
      }
    }

    /** Forgets the token and the user and marks the session initialised. */
    method ClearAuth()
      modifies this
      ensures token == None && user == None && isInitialized
      ensures !IsAuthenticated(token, user)
      ensures forall n :: HasPermissionLevel(user, n) <==> n <= 0
      ensures forall role :: HasRole(user, role) <==> role == Undefined
    {
      token := None;
      user := None;
      isInitialized := true;
    }

    /** Whether or not the server call succeeds, logout ends in clearAuth. */
    method Logout()
      modifies this
      ensures token == None && user == None && isInitialized
      ensures !IsAuthenticated(token, user)
    {
      ClearAuth();
    }

    /**
     * fetchUser: without a token only isInitialized is set; with one, a
     * successful answer replaces the user, and a failed one clears the session.
     */
    method FetchUser(response: Option<SessionUser>)
      modifies this
      ensures isInitialized
      ensures !TokenPresent(old(token)) ==> token == old(token) && user == old(user)
      ensures TokenPresent(old(token)) && response.Some? ==>
                token == old(token) && user == Some(WithAvatarUrl(response.value))
      ensures TokenPresent(old(token)) && response.None? ==> token == None && user == None
      ensures IsAuthenticated(token, user) <==> TokenPresent(old(token)) && response.Some?
    {
      if !TokenPresent(token) {
        isInitialized := true;
        return;
      }
      if response.Some? {
        user := Some(WithAvatarUrl(response.value));
      } else {
        ClearAuth();
      }
      isInitialized := true;
    }

    /** initAuth: fetch the user when a token is stored, else just mark the session initialised. */
    method InitAuth(response: Option<SessionUser>)
      modifies this
      ensures isInitialized
      ensures !TokenPresent(old(token)) ==> token == old(token) && user == old(user)
      ensures TokenPresent(old(token)) && response.Some? ==>
                token == old(token) && user == Some(WithAvatarUrl(response.value))
      ensures TokenPresent(old(token)) && response.None? ==> token == None && user == None
      ensures IsAuthenticated(token, user) <==> TokenPresent(old(token)) && response.Some?
    {
      if TokenPresent(token) {
        FetchUser(response);
      } else {
        isInitialized := true;
      }
    }

    /** A successful profile update replaces the user; the token stays. */
    method UpdateProfile(response: Option<SessionUser>)
      modifies this
      ensures user == if response.Some? then Some(WithAvatarUrl(response.value)) else old(user)
      ensures token == old(token) && isInitialized == old(isInitialized)
    {
      if response.Some? {
        user := Some(WithAvatarUrl(response.value));
      }
    }
  }
}
