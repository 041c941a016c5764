/** The user-table routes of routes/api.py: listing, adding, reading, updating, deleting and
    exporting users. A JSON payload is a map from keys to strings; `None` stands for a body
    that is missing or not JSON. */
module Api {
  import opened Base
  import opened Text
  import opened Models
  import opened Sorting

  type Payload = map<string, string>

  /** The role check every route starts with; a refused caller gets status 400. */
  predicate Authorized(callerRole: string) {
    callerRole == "superadmin" || callerRole == "admin"
  }

  /** `data.get(key)`. */
  function Lookup(data: Payload, key: string): (r: Option<string>)
    ensures r.Some? <==> key in data
    ensures r.Some? ==> r.value == data[key]
  {
    if key in data then Some(data[key]) else None
  }

  /** `not data`: no body, or an empty JSON object. */
  predicate Missing(data: Option<Payload>) {
    data.None? || data.value == map[]
  }

  // ---------------------------------------------------------------------------
  // get_data
  // ---------------------------------------------------------------------------

  /** A listed user: every column except `password` and `id`. */
  datatype UserView = UserView(userId: string, firstName: string, lastName: string,
                               middleName: Option<string>, role: string, status: string)

  function View(u: User): (v: UserView)
    ensures v.userId == u.userId && v.firstName == u.firstName && v.lastName == u.lastName
    ensures v.middleName == u.middleName && v.role == u.role && v.status == u.status
  {
    UserView(u.userId, u.firstName, u.lastName, u.middleName, u.role, u.status)
  }

  function Views(users: seq<User>): (r: seq<UserView>)
    ensures |r| == |users|
    ensures forall k :: 0 <= k < |users| ==> r[k] == View(users[k])
  {
    if users == [] then [] else [View(users[0])] + Views(users[1..])
  }

  /** `get_data()`; `None` is the refusal. */
  method GetData(db: Database, callerRole: string) returns (listing: Option<seq<UserView>>)
    ensures !Authorized(callerRole) ==> listing.None?
    ensures Authorized(callerRole) ==> listing == Some(Views(NonSuperadmins(db.users)))
  {
    if !Authorized(callerRole) {
      return None;
    }
    var users := NonSuperadmins(db.users);
    var usersList: seq<UserView> := [];
    var i := 0;
    while i < |users|
      invariant 0 <= i <= |users|
      invariant |usersList| == i
      invariant forall k :: 0 <= k < i ==> usersList[k] == View(users[k])
    {
      usersList := usersList + [View(users[i])];
      i := i + 1;
    }
    assert usersList == Views(users);
    return Some(usersList);
  }

  /** The listing shows exactly the users who are not superadmins. */
  lemma ListingIsNonSuperadmins(users: seq<User>, v: UserView)
    ensures v in Views(NonSuperadmins(users)) <==> exists u :: u in users && u.role != Superadmin && View(u) == v
  {
    var listed := NonSuperadmins(users);
    if v in Views(listed) {
      var k :| 0 <= k < |listed| && Views(listed)[k] == v;
      assert listed[k] in users;
    }
    if exists u :: u in users && u.role != Superadmin && View(u) == v {
      var u :| u in users && u.role != Superadmin && View(u) == v;
      var k :| 0 <= k < |listed| && listed[k] == u;
      assert Views(listed)[k] == v;
    }
  }

  // ---------------------------------------------------------------------------
  // add_user
  // ---------------------------------------------------------------------------

  /** MySQL comparing the integer `id` column with a string: the string's leading number
      (after leading spaces and an optional sign), or 0 when it has none. */
  function MysqlNumber(s: string): int {
    LeadingDecimal(s).GetOr(0)
  }

  /** `User.query.get(user_id)` finds a row: the lookup is by the primary key `id`. */
  predicate PrimaryKeyTaken(users: seq<User>, key: Option<string>) {
    key.Some? && exists i :: 0 <= i < |users| && users[i].id == MysqlNumber(key.value)
  }

  /** The status of a request and the user table after it. */
  datatype TableReply = TableReply(status: int, users: seq<User>)

  /** The user `add_user` builds: `generate_password_hash('admin123')` is `defaultHash`, and
      the ORM leaves a `None` role to the column default. */
  function Applicant(data: Payload, freshId: int, defaultHash: string): User
    requires "userId" in data && "firstName" in data && "lastName" in data
  {
    NewUser(freshId, data["userId"], data["firstName"], data["lastName"],
            Lookup(data, "middleInitial"), defaultHash, Lookup(data, "role"))
  }

  /** `add_user()` as written. After the primary-key check, a missing user_id, first name or
      last name violates NOT NULL and a user_id already in use violates UNIQUE: both end in an
      unhandled database error, status 500, with nothing inserted. */
  function AddUserSpec(users: seq<User>, callerRole: string, data: Option<Payload>,
                       freshId: int, defaultHash: string): (r: TableReply)
    ensures r.status in {200, 400, 500}
    ensures r.status != 200 ==> r.users == users
    ensures r.status == 200 ==>
      && data.Some? && "userId" in data.value && "firstName" in data.value && "lastName" in data.value
      && !HasUserId(users, data.value["userId"])
      && r.users == users + [Applicant(data.value, freshId, defaultHash)]
      && r.users[|users|].role == Lookup(data.value, "role").GetOr(DefaultRole)
    ensures !Authorized(callerRole) || Missing(data) ==> r.status == 400
    ensures Authorized(callerRole) && !Missing(data) ==>
      (r.status == 400 <==> PrimaryKeyTaken(users, Lookup(data.value, "userId")))
    ensures Authorized(callerRole) && !Missing(data) && !PrimaryKeyTaken(users, Lookup(data.value, "userId")) ==>
      (r.status == 200 <==> "userId" in data.value && "firstName" in data.value && "lastName" in data.value
                            && !HasUserId(users, data.value["userId"]))
  {
    if !Authorized(callerRole) || Missing(data) then TableReply(400, users)
    else
      var d := data.value;
      if PrimaryKeyTaken(users, Lookup(d, "userId")) then TableReply(400, users)
      else if "userId" !in d || "firstName" !in d || "lastName" !in d then TableReply(500, users)
      else if HasUserId(users, d["userId"]) then TableReply(500, users)
      else TableReply(200, users + [Applicant(d, freshId, defaultHash)])
  }

  /** `add_user()` against the database; `freshId` is the auto-increment value, which no
      row holds yet. */
  method AddUser(db: Database, callerRole: string, data: Option<Payload>, freshId: int, defaultHash: string)
    returns (status: int)
    requires db.Valid()
    requires forall i :: 0 <= i < |db.users| ==> db.users[i].id != freshId
    modifies db
    ensures db.Valid()
    ensures TableReply(status, db.users) == AddUserSpec(old(db.users), callerRole, data, freshId, defaultHash)
    ensures db.attendance == old(db.attendance) && db.schedules == old(db.schedules)
    ensures db.settings == old(db.settings) && db.logs == old(db.logs)
  {
    AddUserKeepsConstraints(db.users, callerRole, data, freshId, defaultHash);
    if !Authorized(callerRole) || Missing(data) {
      return 400;
    }
    var d := data.value;
    var userId := Lookup(d, "userId");
    if PrimaryKeyTaken(db.users, userId) {
      return 400;
    }
    var firstName := Lookup(d, "firstName");
    var lastName := Lookup(d, "lastName");
    if userId.None? || firstName.None? || lastName.None? || HasUserId(db.users, userId.value) {
      return 500;
    }
    var newUser := NewUser(freshId, userId.value, firstName.value, lastName.value,
                           Lookup(d, "middleInitial"), defaultHash, Lookup(d, "role"));
    db.users := db.users + [newUser];
    return 200;
  }

  /** Whatever `add_user` answers, the table keeps the schema's constraints when the new
      `id` is fresh. */
  lemma AddUserKeepsConstraints(users: seq<User>, callerRole: string, data: Option<Payload>,
                                freshId: int, defaultHash: string)
    requires UniqueUserIds(users) && UniqueKeys(users)
    requires forall i :: 0 <= i < |users| ==> users[i].id != freshId
    ensures var r := AddUserSpec(users, callerRole, data, freshId, defaultHash);
      UniqueUserIds(r.users) && UniqueKeys(r.users)
  {
  }

  /** The duplicate check looks at the wrong column: re-adding an existing user_id that
      does not spell a primary key passes it and fails in the database with status 500. */
  lemma AddUserMissesDuplicate(users: seq<User>, data: Payload, freshId: int, defaultHash: string)
    requires "userId" in data && "firstName" in data && "lastName" in data
    requires HasUserId(users, data["userId"])
    requires forall i :: 0 <= i < |users| ==> users[i].id != MysqlNumber(data["userId"])
    ensures AddUserSpec(users, "admin", Some(data), freshId, defaultHash).status == 500
  {
    assert data != map[] by { assert "userId" in data; }
  }

  /** Concretely: with user "jdoe" holding id 1, adding "jdoe" again gives 500. */
  lemma AddUserJdoeAgain()
    ensures AddUserSpec([NewUser(1, "jdoe", "John", "Doe", None, "h", None)], "admin",
                        Some(map["userId" := "jdoe", "firstName" := "Jane", "lastName" := "Doe"]), 2, "h").status == 500
  {
    var users := [NewUser(1, "jdoe", "John", "Doe", None, "h", None)];
    var data := map["userId" := "jdoe", "firstName" := "Jane", "lastName" := "Doe"];
    assert "userId" in data && "firstName" in data && "lastName" in data;
    assert data["userId"] == "jdoe";
    assert LeadingDigits("jdoe") == "" by { assert !IsDigit('j'); }
    assert SignFree(TrimStart("jdoe")) == "jdoe" by { assert !IsSpace('j'); }
    assert MysqlNumber("jdoe") == 0;
    assert users[0].userId == "jdoe";
    assert HasUserId(users, "jdoe");
    AddUserMissesDuplicate(users, data, 2, "h");
  }

  /** And a user_id that merely spells an existing primary key is refused with 400 although
      nobody holds that user_id. */
  lemma AddUserRefusesNumeral()
    ensures var users := [NewUser(1, "jdoe", "John", "Doe", None, "h", None)];
      && !HasUserId(users, "1")
      && AddUserSpec(users, "admin", Some(map["userId" := "1", "firstName" := "Jane", "lastName" := "Doe"]), 2, "h").status == 400
  {
    var users := [NewUser(1, "jdoe", "John", "Doe", None, "h", None)];
    var data := map["userId" := "1", "firstName" := "Jane", "lastName" := "Doe"];
    assert data["userId"] == "1";
    LeadingDecimalOfDigits("1");
    assert DigitsValue("1") == 1;
    assert users[0].id == MysqlNumber("1");
    assert PrimaryKeyTaken(users, Lookup(data, "userId"));
    assert !HasUserId(users, "1") by { assert users[0].userId != "1"; }
  }

  /** `add_user()` as evidently intended: the duplicate check looks up the user_id. */
  function AddUserIntendedSpec(users: seq<User>, callerRole: string, data: Option<Payload>,
                               freshId: int, defaultHash: string): (r: TableReply)
    ensures r.status in {200, 400, 500}
    ensures r.status != 200 ==> r.users == users
    ensures r.status == 200 ==>
      && data.Some? && "userId" in data.value && "firstName" in data.value && "lastName" in data.value
      && r.users == users + [Applicant(data.value, freshId, defaultHash)]
  {
    if !Authorized(callerRole) || Missing(data) then TableReply(400, users)
    else
      var d := data.value;
      var userId := Lookup(d, "userId");
      if userId.Some? && HasUserId(users, userId.value) then TableReply(400, users)
      else if "userId" !in d || "firstName" !in d || "lastName" !in d then TableReply(500, users)
      else TableReply(200, users + [Applicant(d, freshId, defaultHash)])
  }

  /** With the intended check, a taken user_id is refused with 400 and a complete request
      for a new user_id is inserted: the unique constraint is never what refuses it. */
  lemma IntendedAddUserRefusesDuplicates(users: seq<User>, data: Payload, freshId: int, defaultHash: string)
    requires data != map[] && "userId" in data && "firstName" in data && "lastName" in data
    requires UniqueUserIds(users)
    ensures var r := AddUserIntendedSpec(users, "admin", Some(data), freshId, defaultHash);
      && (r.status == 400 <==> HasUserId(users, data["userId"]))
      && (r.status == 200 <==> !HasUserId(users, data["userId"]))
      && UniqueUserIds(r.users)
  {
  }

  // ---------------------------------------------------------------------------
  // get_user
  // ---------------------------------------------------------------------------

  /** `user.middle_name[0] if user.middle_name else ''`. */
  function MiddleInitial(middleName: Option<string>): (m: string)
    ensures |m| <= 1
    ensures m == "" <==> middleName.None? || middleName.value == ""
    ensures m != "" ==> m[0] == middleName.value[0]
  {
    if middleName.Some? && middleName.value != "" then [middleName.value[0]] else ""
  }

  datatype UserDetails = UserDetails(userId: string, firstName: string, lastName: string,
                                     middleName: string, roleId: string, status: string)

  datatype GetUserReply = Refused | UserNotFound | Details(details: UserDetails)

  /** `get_user(user_id)`: the details of the first row holding the user_id. */
  function GetUser(users: seq<User>, callerRole: string, userId: string): (r: GetUserReply)
    ensures r == Refused <==> !Authorized(callerRole)
    ensures Authorized(callerRole) ==> (r == UserNotFound <==> !HasUserId(users, userId))
    ensures r.Details? ==>
      exists k :: 0 <= k < |users| && users[k].userId == userId
        && (forall i :: 0 <= i < k ==> users[i].userId != userId)
        && r.details == UserDetails(users[k].userId, users[k].firstName, users[k].lastName,
                                    MiddleInitial(users[k].middleName), users[k].role, users[k].status)
  {
    if !Authorized(callerRole) then Refused
    else
      match FindUserIndex(users, userId)
      case None => UserNotFound
      case Some(k) =>
        var u := users[k];
        Details(UserDetails(u.userId, u.firstName, u.lastName, MiddleInitial(u.middleName), u.role, u.status))
  }

  // ---------------------------------------------------------------------------
  // update_user
  // ---------------------------------------------------------------------------

  /** The field replacements of `update_user`: a key present in the payload replaces its
      field, an absent key keeps the old value; `id`, `user_id` and the password stay. */
  function UpdateFields(u: User, data: Payload): (r: User)
    ensures r.id == u.id && r.userId == u.userId && r.password == u.password
    ensures r.firstName == Lookup(data, "firstName").GetOr(u.firstName)
    ensures r.lastName == Lookup(data, "lastName").GetOr(u.lastName)
    ensures r.middleName == if "middleInitial" in data then Some(data["middleInitial"]) else u.middleName
    ensures r.role == Lookup(data, "role").GetOr(u.role)
    ensures r.status == Lookup(data, "status").GetOr(u.status)
  {
    var u1 := u.(firstName := Lookup(data, "firstName").GetOr(u.firstName));
    var u2 := u1.(lastName := Lookup(data, "lastName").GetOr(u1.lastName));
    var u3 := u2.(middleName := if "middleInitial" in data then Some(data["middleInitial"]) else u2.middleName);
    var u4 := u3.(role := Lookup(data, "role").GetOr(u3.role));
    var u5 := u4.(status := Lookup(data, "status").GetOr(u4.status));
    u5.(role := Lookup(data, "role").GetOr(u5.role))
  }

  /** `update_user(user_id)`: 404 for an unknown user before the payload is looked at. */
  function UpdateUserSpec(users: seq<User>, callerRole: string, userId: string, data: Option<Payload>): (r: TableReply)
    ensures r.status in {200, 400, 404}
    ensures r.status != 200 ==> r.users == users
    ensures Authorized(callerRole) ==> (r.status == 404 <==> !HasUserId(users, userId))
    ensures |r.users| == |users|
    ensures !Authorized(callerRole) ==> r.status == 400
    ensures Authorized(callerRole) && HasUserId(users, userId) ==>
      var k := FindUserIndex(users, userId).value;
      && (r.status == 400 <==> Missing(data))
      && (!Missing(data) ==> r.status == 200 && r.users == users[k := UpdateFields(users[k], data.value)])
  {
    if !Authorized(callerRole) then TableReply(400, users)
    else
      match FindUserIndex(users, userId)
      case None => TableReply(404, users)
      case Some(k) =>
        if Missing(data) then TableReply(400, users)
        else TableReply(200, users[k := UpdateFields(users[k], data.value)])
  }

  method UpdateUser(db: Database, callerRole: string, userId: string, data: Option<Payload>)
    returns (status: int)
    requires db.Valid()
    modifies db
    ensures db.Valid()
    ensures TableReply(status, db.users) == UpdateUserSpec(old(db.users), callerRole, userId, data)
    ensures db.attendance == old(db.attendance) && db.schedules == old(db.schedules)
    ensures db.settings == old(db.settings) && db.logs == old(db.logs)
  {
    UpdateUserTouchesOneRow(db.users, callerRole, userId, data);
    if !Authorized(callerRole) {
      return 400;
    }
    var found := FindUserIndex(db.users, userId);
    if found.None? {
      return 404;
    }
    if Missing(data) {
      return 400;
    }
    var k := found.value;
    db.users := db.users[k := UpdateFields(db.users[k], data.value)];
    return 200;
  }

  /** Only the named row changes, and only in the fields the payload carries: the user's
      `user_id` and every other row stay, so the constraints are kept. */
  lemma UpdateUserTouchesOneRow(users: seq<User>, callerRole: string, userId: string, data: Option<Payload>)
    requires UniqueUserIds(users) && UniqueKeys(users)
    ensures var r := UpdateUserSpec(users, callerRole, userId, data);
      && UniqueUserIds(r.users) && UniqueKeys(r.users)
      && (forall i :: 0 <= i < |users| && users[i].userId != userId ==> r.users[i] == users[i])
      && (forall i :: 0 <= i < |users| ==> r.users[i].userId == users[i].userId && r.users[i].id == users[i].id)
  {
  }

  /** Sending the same update twice has the effect of sending it once. */
  lemma UpdateUserIdempotent(users: seq<User>, callerRole: string, userId: string, data: Option<Payload>)
    ensures var once := UpdateUserSpec(users, callerRole, userId, data);
      UpdateUserSpec(once.users, callerRole, userId, data).users == once.users
  {
    var once := UpdateUserSpec(users, callerRole, userId, data);
    if Authorized(callerRole) && FindUserIndex(users, userId).Some? && !Missing(data) {
      var k := FindUserIndex(users, userId).value;
      assert once.users[k].userId == userId;
      assert forall i :: 0 <= i < k ==> once.users[i].userId != userId;
      assert FindUserIndex(once.users, userId) == Some(k);
    }
  }

  // ---------------------------------------------------------------------------
  // delete_user_page
  // ---------------------------------------------------------------------------

  /** The attendance rows that survive a bulk delete of `userId`'s rows. */
  function WithoutAttendanceOf(rows: seq<Attendance>, userId: string): (r: seq<Attendance>)
    ensures |r| <= |rows|
    ensures forall k :: 0 <= k < |r| ==> r[k] in rows && r[k].userId != userId
    ensures forall a :: a in rows && a.userId != userId ==> a in r
    ensures forall a :: multiset(r)[a] == if a.userId != userId then multiset(rows)[a] else 0
    ensures Subsequence(r, rows)
  {
    var keep := (a: Attendance) => a.userId != userId;
    FilterCounts(rows, keep);
    FilterMembers(rows, keep);
    FilterOrder(rows, keep);
    Filter(rows, keep)
  }

  /** The schedule rows that survive the `ON DELETE CASCADE` of the user's row. */
  function WithoutSchedulesOf(rows: seq<Schedule>, userId: string): (r: seq<Schedule>)
    ensures |r| <= |rows|
    ensures forall k :: 0 <= k < |r| ==> r[k] in rows && r[k].userId != userId
    ensures forall s :: s in rows && s.userId != userId ==> s in r
    ensures forall s :: multiset(r)[s] == if s.userId != userId then multiset(rows)[s] else 0
    ensures Subsequence(r, rows)
  {
    var keep := (s: Schedule) => s.userId != userId;
    FilterCounts(rows, keep);
    FilterMembers(rows, keep);
    FilterOrder(rows, keep);
    Filter(rows, keep)
  }

  /** The log rows after the `ON DELETE SET NULL` of the user's row. */
  function DetachLogsOf(rows: seq<LogEntry>, userId: string): (r: seq<LogEntry>)
    ensures |r| == |rows|
    ensures forall k :: 0 <= k < |rows| ==>
      r[k] == if rows[k].userId == Some(userId) then rows[k].(userId := None) else rows[k]
  {
    if rows == [] then []
    else [if rows[0].userId == Some(userId) then rows[0].(userId := None) else rows[0]] + DetachLogsOf(rows[1..], userId)
  }

  /** The status of a delete and every table it reaches. */
  datatype DeleteReply = DeleteReply(status: int, users: seq<User>, attendance: seq<Attendance>,
                                     schedules: seq<Schedule>, logs: seq<LogEntry>)

  /** `delete_user_page(user_id)`: the user's attendance is deleted explicitly, the user row
      by the ORM, and the foreign keys take the schedules and the log references with it. */
  function DeleteUserSpec(users: seq<User>, attendance: seq<Attendance>, schedules: seq<Schedule>,
                          logs: seq<LogEntry>, callerRole: string, userId: string): (r: DeleteReply)
    ensures r.status in {200, 400, 404}
    ensures r.status != 200 ==> r == DeleteReply(r.status, users, attendance, schedules, logs)
    ensures Authorized(callerRole) ==> (r.status == 404 <==> !HasUserId(users, userId))
    ensures !Authorized(callerRole) ==> r.status == 400
    ensures Authorized(callerRole) && HasUserId(users, userId) ==>
      var k := FindUserIndex(users, userId).value;
      r == DeleteReply(200, users[..k] + users[k + 1..], WithoutAttendanceOf(attendance, userId),
                       WithoutSchedulesOf(schedules, userId), DetachLogsOf(logs, userId))
  {
    if !Authorized(callerRole) then DeleteReply(400, users, attendance, schedules, logs)
    else
      match FindUserIndex(users, userId)
      case None => DeleteReply(404, users, attendance, schedules, logs)
      case Some(k) =>
        DeleteReply(200, users[..k] + users[k + 1..], WithoutAttendanceOf(attendance, userId),
                    WithoutSchedulesOf(schedules, userId), DetachLogsOf(logs, userId))
  }

  method DeleteUser(db: Database, callerRole: string, userId: string) returns (status: int)
    requires db.Valid()
    modifies db
    ensures db.Valid()
    ensures DeleteReply(status, db.users, db.attendance, db.schedules, db.logs)
      == DeleteUserSpec(old(db.users), old(db.attendance), old(db.schedules), old(db.logs), callerRole, userId)
    ensures db.settings == old(db.settings)
  {
    if !Authorized(callerRole) {
      return 400;
    }
    var found := FindUserIndex(db.users, userId);
    if found.None? {
      return 404;
    }
    var k := found.value;
    db.attendance := WithoutAttendanceOf(db.attendance, userId);
    db.users := db.users[..k] + db.users[k + 1..];
    db.schedules := WithoutSchedulesOf(db.schedules, userId);
    db.logs := DetachLogsOf(db.logs, userId);
    // The reply is settled before the uniqueness facts enter the context.
    assert DeleteReply(200, db.users, db.attendance, db.schedules, db.logs)
      == DeleteUserSpec(old(db.users), old(db.attendance), old(db.schedules), old(db.logs), callerRole, userId);
    RemoveRowKeepsConstraints(old(db.users), old(db.schedules), k, userId);
    return 200;
  }

  /** A successful delete leaves no trace of the user_id in the users, attendance, schedule
      or log references, and keeps every other user, attendance row and schedule. */
  lemma DeleteUserRemovesEverything(users: seq<User>, attendance: seq<Attendance>, schedules: seq<Schedule>,
                                    logs: seq<LogEntry>, callerRole: string, userId: string)
    requires UniqueUserIds(users)
    ensures var r := DeleteUserSpec(users, attendance, schedules, logs, callerRole, userId);
      r.status == 200 ==>
        && !HasUserId(r.users, userId)
        && |r.users| == |users| - 1
        && (forall u :: u in users && u.userId != userId ==> u in r.users)
        && (forall a :: a in r.attendance <==> a in attendance && a.userId != userId)
        && (forall s :: s in r.schedules <==> s in schedules && s.userId != userId)
        && (forall k :: 0 <= k < |r.logs| ==> r.logs[k].userId != Some(userId))
  {
    var r := DeleteUserSpec(users, attendance, schedules, logs, callerRole, userId);
    if r.status == 200 {
      RemoveUserRow(users, FindUserIndex(users, userId).value, userId);
    }
  }

  /** Whatever `delete_user` answers, the tables keep the schema's constraints: removing a
      row and dropping schedule rows never creates a duplicate. */
  lemma DeleteUserKeepsConstraints(users: seq<User>, attendance: seq<Attendance>, schedules: seq<Schedule>,
                                   logs: seq<LogEntry>, callerRole: string, userId: string)
    requires UniqueUserIds(users) && UniqueKeys(users) && UniqueScheduleKeys(schedules)
    ensures var r := DeleteUserSpec(users, attendance, schedules, logs, callerRole, userId);
      UniqueUserIds(r.users) && UniqueKeys(r.users) && UniqueScheduleKeys(r.schedules)
  {
    if Authorized(callerRole) && HasUserId(users, userId) {
      RemoveRowKeepsConstraints(users, schedules, FindUserIndex(users, userId).value, userId);
    }
  }

  /** Removing row `k` of the users and the user's schedule rows keeps both tables free of
      duplicates. */
  lemma RemoveRowKeepsConstraints(users: seq<User>, schedules: seq<Schedule>, k: nat, userId: string)
    requires UniqueUserIds(users) && UniqueKeys(users) && UniqueScheduleKeys(schedules) && k < |users|
    ensures UniqueUserIds(users[..k] + users[k + 1..]) && UniqueKeys(users[..k] + users[k + 1..])
    ensures UniqueScheduleKeys(WithoutSchedulesOf(schedules, userId))
  {
    var rest := users[..k] + users[k + 1..];
    var distinctIds := (a: User, b: User) => a.userId != b.userId;
    var distinctKeys := (a: User, b: User) => a.id != b.id;
    var distinctDays := (a: Schedule, b: Schedule) => a.userId != b.userId || a.day != b.day;
    assert Pairwise(users, distinctIds) && Pairwise(users, distinctKeys);
    RemovePairwise(users, k, distinctIds);
    RemovePairwise(users, k, distinctKeys);
    assert Pairwise(rest, distinctIds) && Pairwise(rest, distinctKeys);
    assert Pairwise(schedules, distinctDays);
    SubsequencePairwise(WithoutSchedulesOf(schedules, userId), schedules, distinctDays);
  }

  /** Taking out the user's row leaves every other row and no row with that user_id. */
  lemma RemoveUserRow(users: seq<User>, k: nat, userId: string)
    requires UniqueUserIds(users) && k < |users| && users[k].userId == userId
    ensures var rest := users[..k] + users[k + 1..];
      && !HasUserId(rest, userId)
      && |rest| == |users| - 1
      && (forall u :: u in users && u.userId != userId ==> u in rest)
  {
    var rest := users[..k] + users[k + 1..];
    forall i | 0 <= i < |rest|
      ensures rest[i].userId != userId
    {
      if i < k {
        assert rest[i] == users[i];
      } else {
        assert rest[i] == users[i + 1];
      }
    }
    forall u | u in users && u.userId != userId
      ensures u in rest
    {
      var i :| 0 <= i < |users| && users[i] == u;
      if i < k {
        assert rest[i] == u;
      } else {
        assert rest[i - 1] == u;
      }
    }
  }

  // ---------------------------------------------------------------------------
  // export_users
  // ---------------------------------------------------------------------------

  /** The sort key `(last_name, first_name)`, compared as Python compares tuples. */
  predicate KeyLess(a: User, b: User) {
    StrLess(a.lastName, b.lastName) || (a.lastName == b.lastName && StrLess(a.firstName, b.firstName))
  }

  lemma KeyLessAsymmetric(a: User, b: User)
    requires KeyLess(a, b)
    ensures !KeyLess(b, a)
  {
    if StrLess(b.lastName, a.lastName) {
      StrLessTransitive(a.lastName, b.lastName, a.lastName);
      StrLessIrreflexive(a.lastName);
    }
    if a.lastName == b.lastName {
      StrLessIrreflexive(a.lastName);
      if StrLess(b.firstName, a.firstName) {
        StrLessTransitive(a.firstName, b.firstName, a.firstName);
        StrLessIrreflexive(a.firstName);
      }
    }
  }

  lemma KeyLessTotal(a: User, b: User)
    requires !KeyLess(a, b)
    ensures KeyLess(b, a) || (a.lastName == b.lastName && a.firstName == b.firstName)
  {
    StrLessTotal(a.lastName, b.lastName);
    StrLessTotal(a.firstName, b.firstName);
  }

  /** "Not after" is transitive. */
  lemma KeyLeqTransitive(a: User, b: User, c: User)
    requires !KeyLess(b, a) && !KeyLess(c, b)
    ensures !KeyLess(c, a)
  {
    KeyLessTotal(b, a);
    KeyLessTotal(c, b);
    if KeyLess(a, b) && KeyLess(b, c) {
      if StrLess(a.lastName, b.lastName) && StrLess(b.lastName, c.lastName) {
        StrLessTransitive(a.lastName, b.lastName, c.lastName);
      } else if StrLess(a.lastName, b.lastName) || StrLess(b.lastName, c.lastName) {
      } else {
        StrLessTransitive(a.firstName, b.firstName, c.firstName);
      }
      KeyLessAsymmetric(a, c);
    } else if KeyLess(a, b) {
      KeyLessAsymmetric(a, b);
    } else if KeyLess(b, c) {
      KeyLessAsymmetric(b, c);
    } else {
      StrLessIrreflexive(a.lastName);
      StrLessIrreflexive(a.firstName);
    }
  }

  /** The key comparison is a strict weak order. */
  lemma KeyOrder()
    ensures StrictWeakOrder(KeyLess)
  {
    forall a: User, b: User | KeyLess(a, b)
      ensures !KeyLess(b, a)
    {
      KeyLessAsymmetric(a, b);
    }
    forall a: User, b: User, c: User | !KeyLess(b, a) && !KeyLess(c, b)
      ensures !KeyLess(c, a)
    {
      KeyLeqTransitive(a, b, c);
    }
  }

  /** `User.query.filter(User.role == "gia")`. */
  function GiaUsers(users: seq<User>): (r: seq<User>)
    ensures forall u :: u in r <==> u in users && u.role == "gia"
    ensures forall u :: multiset(r)[u] == if u.role == "gia" then multiset(users)[u] else 0
    ensures Subsequence(r, users)
  {
    var keep := (u: User) => u.role == "gia";
    FilterCounts(users, keep);
    FilterMembers(users, keep);
    FilterOrder(users, keep);
    Filter(users, keep)
  }

  /** `user.middle_name[0].upper() if user.middle_name else ''`. */
  function ExportInitial(middleName: Option<string>): (m: string)
    ensures |m| <= 1
    ensures m == "" <==> MiddleInitial(middleName) == ""
    ensures m != "" ==> m[0] == UpperChar(middleName.value[0])
  {
    if middleName.Some? && middleName.value != "" then [UpperChar(middleName.value[0])] else ""
  }

  /** One line of the CSV export. */
  datatype ExportRow = ExportRow(userId: string, lastName: string, firstName: string, middleInitial: string)

  function ExportRows(users: seq<User>): (r: seq<ExportRow>)
    ensures |r| == |users|
    ensures forall k :: 0 <= k < |users| ==>
      r[k] == ExportRow(users[k].userId, users[k].lastName, users[k].firstName, ExportInitial(users[k].middleName))
  {
    if users == [] then []
    else
      [ExportRow(users[0].userId, users[0].lastName, users[0].firstName, ExportInitial(users[0].middleName))]
      + ExportRows(users[1..])
  }

  /** `export_users()`: the rows of the CSV, or `None` for a refused caller. */
  function ExportUsers(users: seq<User>, callerRole: string): (r: Option<seq<ExportRow>>)
    ensures r.None? <==> !Authorized(callerRole)
    ensures r.Some? ==> |r.value| == |GiaUsers(users)|
  {
    if !Authorized(callerRole) then None else Some(ExportRows(SortBy(GiaUsers(users), KeyLess)))
  }

  /** For every authorized caller the export lists exactly the gia users, each once per row
      they have, ordered by last name and then first name. */
  lemma ExportUsersOrdered(users: seq<User>)
    ensures var sorted := SortBy(GiaUsers(users), KeyLess);
      && multiset(sorted) == multiset(GiaUsers(users))
      && (forall u :: multiset(sorted)[u] == if u.role == "gia" then multiset(users)[u] else 0)
      && (forall u :: u in sorted <==> u in users && u.role == "gia")
      && SortedBy(sorted, KeyLess)
      && (forall callerRole :: Authorized(callerRole) ==> ExportUsers(users, callerRole) == Some(ExportRows(sorted)))
  {
    KeyOrder();
    SortBySorted(GiaUsers(users), KeyLess);
  }
}
