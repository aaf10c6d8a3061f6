/**
 The two tables of the application, the session lookup, and the root
 seeding done by `create_tables`. Tables are maps from the integer primary
 key to the row.
 */
module Store {
  import opened Optional
  import opened Forms
  import RowIds
  import Credentials

  /** A creation time; the clock is read outside the model. */
  type Timestamp = nat

  /** A row of the User table. `password` holds the stored credential, never
      the plaintext. */
  datatype User = User(username: string, password: string, isRoot: bool)

  /** A row of the Entry table. `creator` is a copy of the creating user's
      username taken at creation time, not a reference to the User row. */
  datatype Entry = Entry(fields: EntryFields, creator: string, createdAt: Timestamp)

  datatype Db = Db(users: map<nat, User>, entries: map<nat, Entry>)

  const EmptyDb: Db := Db(map[], map[])

  /** The seeded administrator account and its default password. */
  const RootUsername: string := "root"
  const RootDefaultPassword: string := "default"

  predicate HasUsername(users: map<nat, User>, name: string)
  {
    exists id :: id in users && users[id].username == name
  }

  /** The row `User.query.filter_by(username=name).first()` returns: the
      first matching row in rowid order. */
  function FindByUsername(users: map<nat, User>, name: string): (r: Option<nat>)
    ensures r.None? <==> !HasUsername(users, name)
    ensures r.Some? ==> r.value in users && users[r.value].username == name
    ensures r.Some? ==> forall id :: id in users && users[id].username == name ==> r.value <= id
  {
    var ids := set id | id in users && users[id].username == name;
    assert forall id :: id in users && users[id].username == name ==> id in ids;
    if ids == {} then None
    else
      var id := RowIds.Least(ids);
      assert id in ids;
      Some(id)
  }

  /** Flask-Login's `current_user`: the session's user id resolved through
      `load_user`. A session whose user row is gone is anonymous. */
  function CurrentUser(db: Db, session: Option<nat>): (r: Option<nat>)
    ensures r.Some? <==> session.Some? && session.value in db.users
    ensures r.Some? ==> r == session
  {
    match session
    case Some(id) => if id in db.users then Some(id) else None
    case None => None
  }

  predicate Authenticated(db: Db, session: Option<nat>)
  {
    CurrentUser(db, session).Some?
  }

  predicate RootCaller(db: Db, session: Option<nat>)
  {
    match CurrentUser(db, session)
    case Some(id) => db.users[id].isRoot
    case None => false
  }

  ghost predicate UniqueUsernames(users: map<nat, User>)
  {
    forall i, j :: i in users && j in users && users[i].username == users[j].username ==> i == j
  }

  ghost predicate EntryWellFormed(e: Entry)
  {
    RequiredPresent(e.fields) && UsernameInBounds(e.creator)
  }

  /** What every reachable database satisfies: usernames are unique (the
      column's unique constraint) and within the form bounds, and every entry
      has its required fields and a creator. */
  ghost predicate Valid(db: Db)
  {
    && UniqueUsernames(db.users)
    && (forall id :: id in db.users ==> UsernameInBounds(db.users[id].username))
    && (forall id :: id in db.entries ==> EntryWellFormed(db.entries[id]))
  }

  ghost predicate HasRoot(db: Db)
  {
    exists id :: id in db.users && db.users[id].isRoot
  }

  /** `create_tables`: add a root account with the default password unless
      some user is already called "root". Only the name is checked. */
  function CreateTables(db: Db, hash: Credentials.Hasher): (r: Db)
    ensures HasUsername(r.users, RootUsername)
    ensures r.entries == db.entries
    ensures HasUsername(db.users, RootUsername) ==> r == db
    ensures !HasUsername(db.users, RootUsername) ==>
      && r.users.Keys == db.users.Keys + {RowIds.NextId(db.users.Keys)}
      && exists id: nat :: id !in db.users && r.users == db.users[id := User(RootUsername, hash(RootDefaultPassword), true)]
    ensures Valid(db) ==> Valid(r)
  {
    if HasUsername(db.users, RootUsername) then db
    else
      var id := RowIds.NextId(db.users.Keys);
      var r := db.(users := db.users[id := User(RootUsername, hash(RootDefaultPassword), true)]);
      assert r.users[id].username == RootUsername;
      r
  }

}
