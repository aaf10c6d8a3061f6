/**
 The request handlers, one pure function per route. Each takes the database
 and the caller's session (the user id the session cookie names, if any) and
 returns the outcome and the database after the request. `@login_required`
 is the first guard of every handler except `Login`.

 A submission of `None` stands for a request with no submitted form
 (a GET): the form page is rendered and nothing changes.
 */
module Handlers {
  import opened Optional
  import opened Forms
  import opened Store
  import opened Responses
  import RowIds
  import Credentials

  /** The username of another row than `id` is `name`: storing `name` at `id`
      would break the unique constraint. */
  predicate NameTakenByOther(users: map<nat, User>, name: string, id: nat)
  {
    exists other :: other in users && other != id && users[other].username == name
  }

  /** `index`: list every entry. */
  function Index(db: Db, session: Option<nat>): (r: Reply)
    ensures r.db == db
    ensures !Authenticated(db, session) ==> r.outcome == LoginRequired
    ensures Authenticated(db, session) ==> r.outcome == Rendered(EntryList(db.entries))
  {
    if !Authenticated(db, session) then Reply(LoginRequired, db)
    else Reply(Rendered(EntryList(db.entries)), db)
  }

  /** `view`: show one entry. */
  function View(db: Db, session: Option<nat>, entryId: nat): (r: Reply)
    ensures r.db == db
    ensures !Authenticated(db, session) ==> r.outcome == LoginRequired
    ensures Authenticated(db, session) && entryId !in db.entries ==> r.outcome == NotFound
    ensures Authenticated(db, session) && entryId in db.entries ==>
      r.outcome == Rendered(EntryPage(db.entries[entryId]))
  {
    if !Authenticated(db, session) then Reply(LoginRequired, db)
    else if entryId !in db.entries then Reply(NotFound, db)
    else Reply(Rendered(EntryPage(db.entries[entryId])), db)
  }

  /** `delete`: root only; the root check comes before the existence check. */
  function Delete(db: Db, session: Option<nat>, entryId: nat): (r: Reply)
    ensures !r.outcome.Redirect? ==> r.db == db
    ensures !Authenticated(db, session) ==> r.outcome == LoginRequired
    ensures Authenticated(db, session) && !RootCaller(db, session) ==> r.outcome == Forbidden
    ensures RootCaller(db, session) && entryId !in db.entries ==> r.outcome == NotFound
    ensures r.outcome.Redirect? <==> RootCaller(db, session) && entryId in db.entries
    ensures r.outcome.Redirect? ==>
      && r.outcome == Redirect(ToIndex)
      && r.db.users == db.users
      && r.db.entries.Keys == db.entries.Keys - {entryId}
      && (forall id :: id in r.db.entries ==> r.db.entries[id] == db.entries[id])
    ensures Valid(db) ==> Valid(r.db)
  {
    if !Authenticated(db, session) then Reply(LoginRequired, db)
    else if !RootCaller(db, session) then Reply(Forbidden, db)
    else if entryId !in db.entries then Reply(NotFound, db)
    else Reply(Redirect(ToIndex), db.(entries := db.entries - {entryId}))
  }

  /** `edit`: any authenticated user may edit any entry. Only the form's
      fields are written, an absent age keeping the stored one; the id,
      creator and creation time are kept. */
  function Edit(db: Db, session: Option<nat>, entryId: nat, submission: Option<EntryFields>): (r: Reply)
    ensures !r.outcome.Redirect? ==> r.db == db
    ensures !Authenticated(db, session) ==> r.outcome == LoginRequired
    ensures Authenticated(db, session) && entryId !in db.entries ==> r.outcome == NotFound
    ensures Authenticated(db, session) && entryId in db.entries && submission.None? ==>
      r.outcome == Rendered(EditPage(db.entries[entryId]))
    ensures Authenticated(db, session) && entryId in db.entries
            && submission.Some? && !RequiredPresent(submission.value)
      ==> r.outcome == ValidationFailed
    ensures r.outcome.Redirect? <==>
      Authenticated(db, session) && entryId in db.entries
      && submission.Some? && RequiredPresent(submission.value)
    ensures r.outcome.Redirect? ==>
      && r.outcome == Redirect(ToView(entryId))
      && r.db.users == db.users
      && r.db.entries.Keys == db.entries.Keys
      && r.db.entries[entryId].fields == Populate(db.entries[entryId].fields, submission.value)
      && r.db.entries[entryId].creator == db.entries[entryId].creator
      && r.db.entries[entryId].createdAt == db.entries[entryId].createdAt
      && (forall id :: id in r.db.entries && id != entryId ==> r.db.entries[id] == db.entries[id])
    ensures Valid(db) ==> Valid(r.db)
  {
    if !Authenticated(db, session) then Reply(LoginRequired, db)
    else if entryId !in db.entries then Reply(NotFound, db)
    else match submission
      case None => Reply(Rendered(EditPage(db.entries[entryId])), db)
      case Some(f) =>
        if !EntryValid(f) then Reply(ValidationFailed, db)
        else
          var e := db.entries[entryId];
          Reply(Redirect(ToView(entryId)), db.(entries := db.entries[entryId := e.(fields := Populate(e.fields, f))]))
  }

  /** `add`: any authenticated user may add an entry; its creator is the
      caller's current username and its creation time is `now`. */
  function Add(db: Db, session: Option<nat>, now: Timestamp, submission: Option<EntryFields>): (r: Reply)
    ensures !r.outcome.Redirect? ==> r.db == db
    ensures !Authenticated(db, session) ==> r.outcome == LoginRequired
    ensures Authenticated(db, session) && submission.None? ==> r.outcome == Rendered(AddPage)
    ensures Authenticated(db, session) && submission.Some? && !RequiredPresent(submission.value) ==>
      r.outcome == ValidationFailed
    ensures r.outcome.Redirect? <==>
      Authenticated(db, session) && submission.Some? && RequiredPresent(submission.value)
    ensures r.outcome.Redirect? ==>
      && r.outcome == Redirect(ToIndex)
      && r.db.users == db.users
      && r.db.entries.Keys == db.entries.Keys + {RowIds.NextId(db.entries.Keys)}
      && exists id: nat :: id !in db.entries
           && r.db.entries == db.entries[id := Entry(submission.value, db.users[session.value].username, now)]
    ensures Valid(db) ==> Valid(r.db)
  {
    if !Authenticated(db, session) then Reply(LoginRequired, db)
    else match submission
      case None => Reply(Rendered(AddPage), db)
      case Some(f) =>
        if !EntryValid(f) then Reply(ValidationFailed, db)
        else
          var id := RowIds.NextId(db.entries.Keys);
          var e := Entry(f, db.users[session.value].username, now);
          Reply(Redirect(ToIndex), db.(entries := db.entries[id := e]))
  }

  /** `login`: needs no session. An unknown username and a wrong password give
      the same answer; the database never changes. */
  function Login(db: Db, verify: Credentials.Verifier, submission: Option<LoginInput>): (r: Reply)
    ensures r.db == db
    ensures submission.None? ==> r.outcome == Rendered(LoginPage)
    ensures submission.Some? && !LoginValid(submission.value) ==> r.outcome == ValidationFailed
    ensures r.outcome.SignedIn? <==>
      && submission.Some? && LoginValid(submission.value)
      && var found := FindByUsername(db.users, submission.value.username);
         found.Some? && verify(submission.value.password, db.users[found.value].password)
    ensures r.outcome.SignedIn? ==>
      r.outcome.userId in db.users && db.users[r.outcome.userId].username == submission.value.username
    ensures submission.Some? && LoginValid(submission.value) && !r.outcome.SignedIn? ==>
      r.outcome == InvalidCredentials
  {
    match submission
    case None => Reply(Rendered(LoginPage), db)
    case Some(f) =>
      if !LoginValid(f) then Reply(ValidationFailed, db)
      else match FindByUsername(db.users, f.username)
        case Some(id) =>
          if verify(f.password, db.users[id].password) then Reply(SignedIn(id), db)
          else Reply(InvalidCredentials, db)
        case None => Reply(InvalidCredentials, db)
  }

  /** `logout`: end the session. */
  function Logout(db: Db, session: Option<nat>): (r: Reply)
    ensures r.db == db
    ensures r.outcome == (if Authenticated(db, session) then SignedOut else LoginRequired)
  {
    if !Authenticated(db, session) then Reply(LoginRequired, db)
    else Reply(SignedOut, db)
  }

  /** `register`: root only. A username already in use makes the commit fail. */
  function Register(db: Db, session: Option<nat>, hash: Credentials.Hasher,
                    submission: Option<AccountInput>): (r: Reply)
    ensures !r.outcome.Redirect? ==> r.db == db
    ensures !Authenticated(db, session) ==> r.outcome == LoginRequired
    ensures Authenticated(db, session) && !RootCaller(db, session) ==> r.outcome == Forbidden
    ensures RootCaller(db, session) && submission.None? ==> r.outcome == Rendered(RegisterPage)
    ensures RootCaller(db, session) && submission.Some? && !RegisterValid(submission.value) ==>
      r.outcome == ValidationFailed
    ensures RootCaller(db, session) && submission.Some? && RegisterValid(submission.value)
            && HasUsername(db.users, submission.value.username)
      ==> r.outcome == StoreRejected
    ensures r.outcome.Redirect? <==>
      && RootCaller(db, session) && submission.Some? && RegisterValid(submission.value)
      && !HasUsername(db.users, submission.value.username)
    ensures r.outcome.Redirect? ==>
      && r.outcome == Redirect(ToManageUsers)
      && r.db.entries == db.entries
      && var f := submission.value;
         && r.db.users.Keys == db.users.Keys + {RowIds.NextId(db.users.Keys)}
         && (exists id: nat :: id !in db.users
               && r.db.users == db.users[id := User(f.username, hash(f.password), f.isRoot)])
    ensures Valid(db) ==> Valid(r.db)
  {
    if !Authenticated(db, session) then Reply(LoginRequired, db)
    else if !RootCaller(db, session) then Reply(Forbidden, db)
    else match submission
      case None => Reply(Rendered(RegisterPage), db)
      case Some(f) =>
        if !RegisterValid(f) then Reply(ValidationFailed, db)
        else if HasUsername(db.users, f.username) then Reply(StoreRejected, db)
        else
          var id := RowIds.NextId(db.users.Keys);
          Reply(Redirect(ToManageUsers),
                db.(users := db.users[id := User(f.username, hash(f.password), f.isRoot)]))
  }

  /** `change_password`: the caller replaces their own credential. No old
      password is asked for, and the submitted username is validated but
      not stored. */
  function ChangePassword(db: Db, session: Option<nat>, hash: Credentials.Hasher,
                          submission: Option<PasswordInput>): (r: Reply)
    ensures !r.outcome.Redirect? ==> r.db == db
    ensures !Authenticated(db, session) ==> r.outcome == LoginRequired
    ensures Authenticated(db, session) && submission.None? ==> r.outcome == Rendered(ChangePasswordPage)
    ensures Authenticated(db, session) && submission.Some? && !ChangePasswordValid(submission.value) ==>
      r.outcome == ValidationFailed
    ensures r.outcome.Redirect? <==>
      Authenticated(db, session) && submission.Some? && ChangePasswordValid(submission.value)
    ensures r.outcome.Redirect? ==>
      && r.outcome == Redirect(ToIndex)
      && r.db.entries == db.entries
      && var me := session.value;
         && r.db.users.Keys == db.users.Keys
         && r.db.users[me].password == hash(submission.value.password)
         && r.db.users[me].username == db.users[me].username
         && r.db.users[me].isRoot == db.users[me].isRoot
         && (forall id :: id in db.users && id != me ==> r.db.users[id] == db.users[id])
    ensures Valid(db) ==> Valid(r.db)
  {
    if !Authenticated(db, session) then Reply(LoginRequired, db)
    else match submission
      case None => Reply(Rendered(ChangePasswordPage), db)
      case Some(f) =>
        if !ChangePasswordValid(f) then Reply(ValidationFailed, db)
        else
          var me := session.value;
          Reply(Redirect(ToIndex),
                db.(users := db.users[me := db.users[me].(password := hash(f.password))]))
  }

  /** `manage_users`: root only; list every user. */
  function ManageUsers(db: Db, session: Option<nat>): (r: Reply)
    ensures r.db == db
    ensures !Authenticated(db, session) ==> r.outcome == LoginRequired
    ensures Authenticated(db, session) && !RootCaller(db, session) ==> r.outcome == Forbidden
    ensures RootCaller(db, session) ==> r.outcome == Rendered(UserList(db.users))
  {
    if !Authenticated(db, session) then Reply(LoginRequired, db)
    else if !RootCaller(db, session) then Reply(Forbidden, db)
    else Reply(Rendered(UserList(db.users)), db)
  }

  /** `edit_user`: root only, then 404 for a missing id. On success the
      target's username, credential and root flag are all replaced; nothing
      stops a root from demoting itself or the last root. */
  function EditUser(db: Db, session: Option<nat>, hash: Credentials.Hasher, userId: nat,
                    submission: Option<AccountInput>): (r: Reply)
    ensures !r.outcome.Redirect? ==> r.db == db
    ensures !Authenticated(db, session) ==> r.outcome == LoginRequired
    ensures Authenticated(db, session) && !RootCaller(db, session) ==> r.outcome == Forbidden
    ensures RootCaller(db, session) && userId !in db.users ==> r.outcome == NotFound
    ensures RootCaller(db, session) && userId in db.users && submission.None? ==>
      r.outcome == Rendered(EditUserPage(db.users[userId]))
    ensures RootCaller(db, session) && userId in db.users && submission.Some?
            && !EditUserValid(submission.value)
      ==> r.outcome == ValidationFailed
    ensures RootCaller(db, session) && userId in db.users && submission.Some?
            && EditUserValid(submission.value)
            && NameTakenByOther(db.users, submission.value.username, userId)
      ==> r.outcome == StoreRejected
    ensures r.outcome.Redirect? <==>
      && RootCaller(db, session) && userId in db.users
      && submission.Some? && EditUserValid(submission.value)
      && !NameTakenByOther(db.users, submission.value.username, userId)
    ensures r.outcome.Redirect? ==>
      && r.outcome == Redirect(ToManageUsers)
      && r.db.entries == db.entries
      && r.db.users.Keys == db.users.Keys
      && var f := submission.value;
         && r.db.users[userId] == User(f.username, hash(f.password), f.isRoot)
         && (forall id :: id in db.users && id != userId ==> r.db.users[id] == db.users[id])
    ensures Valid(db) ==> Valid(r.db)
  {
    if !Authenticated(db, session) then Reply(LoginRequired, db)
    else if !RootCaller(db, session) then Reply(Forbidden, db)
    else if userId !in db.users then Reply(NotFound, db)
    else match submission
      case None => Reply(Rendered(EditUserPage(db.users[userId])), db)
      case Some(f) =>
        if !EditUserValid(f) then Reply(ValidationFailed, db)
        else if NameTakenByOther(db.users, f.username, userId) then Reply(StoreRejected, db)
        else
          Reply(Redirect(ToManageUsers),
                db.(users := db.users[userId := User(f.username, hash(f.password), f.isRoot)]))
  }

  /** `delete_user`: root only, then 404 for a missing id. The row is removed
      whoever it is, the caller included; entries keep their creator text. */
  function DeleteUser(db: Db, session: Option<nat>, userId: nat): (r: Reply)
    ensures !r.outcome.Redirect? ==> r.db == db
    ensures !Authenticated(db, session) ==> r.outcome == LoginRequired
    ensures Authenticated(db, session) && !RootCaller(db, session) ==> r.outcome == Forbidden
    ensures RootCaller(db, session) && userId !in db.users ==> r.outcome == NotFound
    ensures r.outcome.Redirect? <==> RootCaller(db, session) && userId in db.users
    ensures r.outcome.Redirect? ==>
      && r.outcome == Redirect(ToManageUsers)
      && r.db.entries == db.entries
      && r.db.users.Keys == db.users.Keys - {userId}
      && (forall id :: id in r.db.users ==> r.db.users[id] == db.users[id])
    ensures Valid(db) ==> Valid(r.db)
  {
    if !Authenticated(db, session) then Reply(LoginRequired, db)
    else if !RootCaller(db, session) then Reply(Forbidden, db)
    else if userId !in db.users then Reply(NotFound, db)
    else Reply(Redirect(ToManageUsers), db.(users := db.users - {userId}))
  }

}
