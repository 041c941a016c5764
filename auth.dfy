/** The login decision of routes/auth.py (`login`). */
module Auth {
  import opened Base
  import opened Models

  /** A JSON field that Python treats as true: present and not the empty string. */
  predicate Truthy(field: Option<string>) {
    field.Some? && field.value != ""
  }

  /** `User.query.filter_by(user_id=gia_id, role='gia').first() is not None`. */
  predicate IsGia(users: seq<User>, giaId: Option<string>) {
    giaId.Some? && exists i :: 0 <= i < |users| && users[i].userId == giaId.value && users[i].role == "gia"
  }

  datatype LoginOutcome =
    | Welcome(user: User)
      /** The 404 of the GIA path. */
    | GiaNotFound
      /** The 404 of the admin path. */
    | AdminNotFound
    | WrongPassword
    | NoCredentials

  function StatusOf(outcome: LoginOutcome): (status: int)
    ensures status == 200 <==> outcome.Welcome?
    ensures status == 404 <==> outcome == GiaNotFound || outcome == AdminNotFound
    ensures status == 401 <==> outcome == WrongPassword || outcome == NoCredentials
  {
    match outcome
    case Welcome(_) => 200
    case GiaNotFound => 404
    case AdminNotFound => 404
    case WrongPassword => 401
    case NoCredentials => 401
  }

  /** A lookup by `user_id`; a missing field (`None`) matches no row, since the column is
      NOT NULL. */
  function FindBy(users: seq<User>, userId: Option<string>): (r: Option<User>)
    ensures r.None? <==> userId.None? || !HasUserId(users, userId.value)
    ensures r.Some? ==> r == FindUser(users, userId.value)
  {
    if userId.None? then None else FindUser(users, userId.value)
  }

  /** `login()` on the fields `giaId`, `adminId` and `password` of the request body.
      `checkHash` stands for Werkzeug's `check_password_hash`. */
  function Login(users: seq<User>, giaId: Option<string>, adminId: Option<string>, password: Option<string>,
                 checkHash: (string, Option<string>) -> bool): (r: LoginOutcome)
    ensures r.Welcome? ==> r.user in users
    ensures r == NoCredentials <==> !(Truthy(giaId) && IsGia(users, giaId)) && !Truthy(adminId)
    ensures r == AdminNotFound <==>
      !(Truthy(giaId) && IsGia(users, giaId)) && Truthy(adminId) && !HasUserId(users, adminId.value)
    ensures r.Welcome? && !(Truthy(giaId) && IsGia(users, giaId)) ==>
      r.user.userId == adminId.value && checkHash(r.user.password, password)
    ensures r == WrongPassword ==>
      && Truthy(adminId) && HasUserId(users, adminId.value)
      && !checkHash(FindUser(users, adminId.value).value.password, password)
  {
    var gia := FindBy(users, giaId);
    if Truthy(giaId) && IsGia(users, giaId) then
      if gia.None? then GiaNotFound else Welcome(gia.value)
    else if Truthy(adminId) then
      match FindBy(users, adminId)
      case None => AdminNotFound
      case Some(admin) => if !checkHash(admin.password, password) then WrongPassword else Welcome(admin)
    else NoCredentials
  }

  /** The "User not found" answer of the GIA path is never given: a GIA match is a row with
      that user_id, so the first lookup has found one. */
  lemma GiaNotFoundUnreachable(users: seq<User>, giaId: Option<string>, adminId: Option<string>,
                               password: Option<string>, checkHash: (string, Option<string>) -> bool)
    ensures Login(users, giaId, adminId, password, checkHash) != GiaNotFound
  {
    if Truthy(giaId) && IsGia(users, giaId) {
      var i :| 0 <= i < |users| && users[i].userId == giaId.value && users[i].role == "gia";
      assert HasUserId(users, giaId.value);
    }
  }

  /** A GIA user logs in by id alone, whatever the other fields say: no password is checked
      and a GIA id beats an admin id in the same request. */
  lemma GiaLoginNeedsNoPassword(users: seq<User>, i: nat, adminId: Option<string>,
                                password: Option<string>, checkHash: (string, Option<string>) -> bool)
    requires UniqueUserIds(users)
    requires i < |users| && users[i].role == "gia" && users[i].userId != ""
    ensures Login(users, Some(users[i].userId), adminId, password, checkHash) == Welcome(users[i])
  {
    FindUserUnique(users, users[i].userId, i);
  }

  /** The admin path, taken when the GIA path is not: an unknown id gives 404, a failed hash
      check 401, and otherwise the user logs in whatever their role. */
  lemma AdminPath(users: seq<User>, giaId: Option<string>, adminId: Option<string>, password: Option<string>,
                  checkHash: (string, Option<string>) -> bool)
    requires !(Truthy(giaId) && IsGia(users, giaId)) && Truthy(adminId)
    ensures var out := Login(users, giaId, adminId, password, checkHash);
      && (out == AdminNotFound <==> !HasUserId(users, adminId.value))
      && (out == WrongPassword <==>
            HasUserId(users, adminId.value) && !checkHash(FindUser(users, adminId.value).value.password, password))
      && (out.Welcome? <==>
            HasUserId(users, adminId.value) && checkHash(FindUser(users, adminId.value).value.password, password))
      && (out.Welcome? ==> out.user.userId == adminId.value && out.user in users)
  {
  }

  /** Any existing user, an employee or a GIA included, logs in through the admin path with a
      matching password: the role is not looked at. */
  lemma AdminPathIgnoresRole(users: seq<User>, i: nat, password: Option<string>,
                             checkHash: (string, Option<string>) -> bool)
    requires UniqueUserIds(users)
    requires i < |users| && users[i].userId != ""
    requires checkHash(users[i].password, password)
    ensures Login(users, None, Some(users[i].userId), password, checkHash) == Welcome(users[i])
  {
    FindUserUnique(users, users[i].userId, i);
  }

  /** Without a GIA match and without an admin id the answer is 401. */
  lemma NoCredentialsRefused(users: seq<User>, giaId: Option<string>, adminId: Option<string>,
                             password: Option<string>, checkHash: (string, Option<string>) -> bool)
    requires !(Truthy(giaId) && IsGia(users, giaId)) && !Truthy(adminId)
    ensures Login(users, giaId, adminId, password, checkHash) == NoCredentials
    ensures StatusOf(Login(users, giaId, adminId, password, checkHash)) == 401
  {
  }

  /** Whoever is welcomed is a row of the table, found by one of the two ids. */
  lemma WelcomeIsAUser(users: seq<User>, giaId: Option<string>, adminId: Option<string>,
                       password: Option<string>, checkHash: (string, Option<string>) -> bool)
    ensures var out := Login(users, giaId, adminId, password, checkHash);
      out.Welcome? ==>
        && out.user in users
        && ((giaId.Some? && out.user.userId == giaId.value) || (adminId.Some? && out.user.userId == adminId.value))
  {
  }
}
