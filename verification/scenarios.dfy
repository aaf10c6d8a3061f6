/**
 Properties that relate several requests: what a later request sees after
 an earlier one, the login rule stated over the whole user table, root
 seeding, and the end-to-end sequence of requests the application is meant to support.
 */
module Scenarios {
  import opened Optional
  import opened Forms
  import opened Store
  import opened Responses
  import opened Handlers
  import Credentials

  /** With unique usernames, a well-formed login succeeds exactly when some
      user has that username and the password checks against its stored
      credential. */
  lemma LoginSucceedsIff(db: Db, verify: Credentials.Verifier, f: LoginInput)
    requires UniqueUsernames(db.users)
    requires LoginValid(f)
    ensures Login(db, verify, Some(f)).outcome.SignedIn? <==>
      exists id :: id in db.users && db.users[id].username == f.username
                   && verify(f.password, db.users[id].password)
  {
  }

  /** An unknown username and a known one with a wrong password get the very
      same reply. */
  lemma LoginFailureIsUniform(db: Db, verify: Credentials.Verifier, unknown: LoginInput, wrong: LoginInput)
    requires LoginValid(unknown) && LoginValid(wrong)
    requires !HasUsername(db.users, unknown.username)
    requires HasUsername(db.users, wrong.username)
    requires forall id :: id in db.users && db.users[id].username == wrong.username ==>
               !verify(wrong.password, db.users[id].password)
    ensures Login(db, verify, Some(unknown)) == Login(db, verify, Some(wrong)) == Reply(InvalidCredentials, db)
  {
  }

  /** A user registered by root can then log in with the same username and
      password, and the new session resolves to that user. */
  lemma RegisterThenLogin(db: Db, root: nat, hash: Credentials.Hasher, verify: Credentials.Verifier,
                          f: AccountInput, remember: bool)
    requires Valid(db)
    requires RootCaller(db, Some(root))
    requires RegisterValid(f) && !HasUsername(db.users, f.username)
    requires Credentials.Agrees(hash, verify)
    ensures var after := Register(db, Some(root), hash, Some(f)).db;
      var login := Login(after, verify, Some(LoginInput(f.username, f.password, remember)));
      && login.outcome.SignedIn?
      && CurrentUser(after, Some(login.outcome.userId)) == Some(login.outcome.userId)
      && after.users[login.outcome.userId] == User(f.username, hash(f.password), f.isRoot)
  {
  }

  /** After a successful login the signed-in user can log out: the session
      is ended and the database is unchanged. */
  lemma LoginThenLogout(db: Db, verify: Credentials.Verifier, f: LoginInput)
    requires Login(db, verify, Some(f)).outcome.SignedIn?
    ensures var me := Login(db, verify, Some(f)).outcome.userId;
      && Authenticated(db, Some(me))
      && db.users[me].username == f.username
      && Logout(db, Some(me)) == Reply(SignedOut, db)
  {
  }

  /** After root registers a user, root's user list holds the new row under
      an id no user had before, next to every earlier user. */
  lemma RegisterThenManageUsers(db: Db, root: nat, hash: Credentials.Hasher, f: AccountInput)
    requires RootCaller(db, Some(root))
    requires RegisterValid(f) && !HasUsername(db.users, f.username)
    ensures var after := Register(db, Some(root), hash, Some(f)).db;
      && ManageUsers(after, Some(root)).outcome.Rendered?
      && var listed := ManageUsers(after, Some(root)).outcome.page.users;
         && (forall id :: id in db.users ==> id in listed && listed[id] == db.users[id])
         && |listed| == |db.users| + 1
         && (exists id :: id !in db.users && id in listed && listed[id] == User(f.username, hash(f.password), f.isRoot))
  {
  }

  /** Registering a username that is already taken stores nothing. */
  lemma DuplicateRegisterStoresNothing(db: Db, root: nat, hash: Credentials.Hasher, f: AccountInput)
    requires RootCaller(db, Some(root))
    requires RegisterValid(f) && HasUsername(db.users, f.username)
    ensures var r := Register(db, Some(root), hash, Some(f));
      r.outcome == StoreRejected && |r.db.users| == |db.users| && r.db == db
  {
  }

  /** After changing their password a user logs in with the new one. */
  lemma ChangePasswordThenLogin(db: Db, me: nat, hash: Credentials.Hasher, verify: Credentials.Verifier,
                                f: PasswordInput, remember: bool)
    requires Valid(db)
    requires Authenticated(db, Some(me))
    requires ChangePasswordValid(f)
    requires Credentials.Agrees(hash, verify)
    ensures var after := ChangePassword(db, Some(me), hash, Some(f)).db;
      Login(after, verify, Some(LoginInput(db.users[me].username, f.password, remember))).outcome == SignedIn(me)
  {
  }

  /** After root edits a user, that user's row logs in with the new username
      and password. */
  lemma EditUserThenLogin(db: Db, root: nat, hash: Credentials.Hasher, verify: Credentials.Verifier,
                          target: nat, f: AccountInput, remember: bool)
    requires Valid(db)
    requires RootCaller(db, Some(root)) && target in db.users
    requires EditUserValid(f) && !NameTakenByOther(db.users, f.username, target)
    requires Credentials.Agrees(hash, verify)
    ensures var after := EditUser(db, Some(root), hash, target, Some(f)).db;
      && Login(after, verify, Some(LoginInput(f.username, f.password, remember))).outcome == SignedIn(target)
      && after.users[target].isRoot == f.isRoot
  {
  }

  /** After a user is deleted, the next request from a session bound to it is
      sent to the login page. This holds for a root that deletes itself. The
      session is not invalidated, though: see `ReusedIdRevivesSession`. */
  lemma DeleteUserEndsSession(db: Db, root: nat, target: nat)
    requires RootCaller(db, Some(root)) && target in db.users
    ensures var after := DeleteUser(db, Some(root), target).db;
      && !Authenticated(after, Some(target))
      && Index(after, Some(target)).outcome == LoginRequired
  {
  }

  /** A session names a user id and nothing more, and the id of a deleted
      newest row is handed to the next inserted row. So when root deletes a
      user and then registers another who receives the same id, the old
      session authenticates again, now as the new user. */
  lemma ReusedIdRevivesSession(db: Db, root: nat, target: nat, hash: Credentials.Hasher, f: AccountInput)
    requires RootCaller(db, Some(root)) && target in db.users && target != root
    requires target == RowIds.NextId(db.users.Keys - {target})
    requires RegisterValid(f) && !HasUsername(db.users - {target}, f.username)
    ensures var deleted := DeleteUser(db, Some(root), target).db;
      var registered := Register(deleted, Some(root), hash, Some(f)).db;
      && !Authenticated(deleted, Some(target))
      && Authenticated(registered, Some(target))
      && registered.users[target] == User(f.username, hash(f.password), f.isRoot)
      && Index(registered, Some(target)).outcome == Rendered(EntryList(db.entries))
  {
  }

  /** An added entry can be viewed: it carries the submitted fields, the
      adder's username and the given time. */
  lemma AddThenView(db: Db, me: nat, now: Timestamp, f: EntryFields)
    requires Authenticated(db, Some(me)) && RequiredPresent(f)
    ensures var after := Add(db, Some(me), now, Some(f)).db;
      && |after.entries| == |db.entries| + 1
      && exists id :: id !in db.entries
           && View(after, Some(me), id).outcome == Rendered(EntryPage(Entry(f, db.users[me].username, now)))
  {
  }

  /** After an edit, viewing the entry shows the new fields with its original
      creator and creation time, whatever was submitted; an age left out of
      the submission shows the age stored before. */
  lemma EditThenView(db: Db, me: nat, entryId: nat, f: EntryFields)
    requires Authenticated(db, Some(me)) && entryId in db.entries && RequiredPresent(f)
    ensures var before := db.entries[entryId];
      var shown := View(Edit(db, Some(me), entryId, Some(f)).db, Some(me), entryId).outcome;
      && shown == Rendered(EntryPage(Entry(Populate(before.fields, f), before.creator, before.createdAt)))
      && shown.page.entry.fields.age == (if f.age.Some? then f.age else before.fields.age)
  {
  }

  /** After root deletes an entry, viewing it is a 404 and one entry fewer
      remains. */
  lemma DeleteThenView(db: Db, root: nat, entryId: nat)
    requires RootCaller(db, Some(root)) && entryId in db.entries
    ensures var after := Delete(db, Some(root), entryId).db;
      && View(after, Some(root), entryId).outcome == NotFound
      && |after.entries| == |db.entries| - 1
  {
  }

  /** Seeding twice is the same as seeding once, whatever credential the
      second seeding would have hashed. */
  lemma SeedIsIdempotent(db: Db, first: Credentials.Hasher, second: Credentials.Hasher)
    ensures CreateTables(CreateTables(db, first), second) == CreateTables(db, first)
  {
  }

  /** On a database with no user called "root", seeding creates a root
      account that logs in with the default password. */
  lemma SeedThenRootLogin(db: Db, hash: Credentials.Hasher, verify: Credentials.Verifier)
    requires Valid(db) && !HasUsername(db.users, RootUsername)
    requires Credentials.Agrees(hash, verify)
    ensures var seeded := CreateTables(db, hash);
      var login := Login(seeded, verify, Some(LoginInput(RootUsername, RootDefaultPassword, false)));
      login.outcome.SignedIn? && RootCaller(seeded, Some(login.outcome.userId))
  {
  }

  /** Seeding looks only at the name: a user called "root" whose root flag
      was cleared stays unprivileged, and the database can be left without
      any root user. */
  lemma SeedKeepsDemotedRoot(hash: Credentials.Hasher)
    ensures var db := Db(map[1 := User(RootUsername, "credential", false)], map[]);
      Valid(db) && !HasRoot(CreateTables(db, hash))
  {
  }

  /** Nothing stops the only root from deleting itself or clearing its own
      root flag: afterwards no user can administer the system. */
  lemma LastRootCanBeRemoved(hash: Credentials.Hasher)
    ensures var db := Db(map[1 := User(RootUsername, "credential", true)], map[]);
      && Valid(db) && HasRoot(db)
      && !HasRoot(DeleteUser(db, Some(1), 1).db)
      && !HasRoot(EditUser(db, Some(1), hash, 1, Some(AccountInput(RootUsername, "password", false))).db)
  {
    var db := Db(map[1 := User(RootUsername, "credential", true)], map[]);
    assert db.users[1].isRoot;
    var edited := EditUser(db, Some(1), hash, 1, Some(AccountInput(RootUsername, "password", false))).db;
    assert edited.users.Keys == {1};
  }

  // The end-to-end sequence, one request at a time.

  const Sample: EntryFields := EntryFields("T", "S", "", "", None, "", "D", "")
  const Alice: AccountInput := AccountInput("alice", "password1", false)

  function Seeded(seedHash: Credentials.Hasher): Db
  {
    Db(map[1 := User(RootUsername, seedHash(RootDefaultPassword), true)], map[])
  }

  function WithEntry(seedHash: Credentials.Hasher, now: Timestamp): Db
  {
    Seeded(seedHash).(entries := map[1 := Entry(Sample, RootUsername, now)])
  }

  function WithAlice(seedHash: Credentials.Hasher, userHash: Credentials.Hasher, now: Timestamp): Db
  {
    var db := WithEntry(seedHash, now);
    db.(users := db.users[2 := User(Alice.username, userHash(Alice.password), Alice.isRoot)])
  }

  lemma SeedEmptyThenLogin(seedHash: Credentials.Hasher, verify: Credentials.Verifier)
    requires Credentials.Agrees(seedHash, verify)
    ensures CreateTables(EmptyDb, seedHash) == Seeded(seedHash)
    ensures Login(Seeded(seedHash), verify, Some(LoginInput(RootUsername, RootDefaultPassword, false))).outcome
            == SignedIn(1)
  {
  }

  lemma RootAddsSample(seedHash: Credentials.Hasher, now: Timestamp)
    ensures Add(Seeded(seedHash), Some(1), now, Some(Sample)) == Reply(Redirect(ToIndex), WithEntry(seedHash, now))
    ensures Index(WithEntry(seedHash, now), Some(1)).outcome.page.entries[1].creator == RootUsername
  {
  }

  lemma RootRegistersAlice(seedHash: Credentials.Hasher, userHash: Credentials.Hasher, now: Timestamp)
    ensures Register(WithEntry(seedHash, now), Some(1), userHash, Some(Alice))
            == Reply(Redirect(ToManageUsers), WithAlice(seedHash, userHash, now))
    ensures FindByUsername(WithAlice(seedHash, userHash, now).users, Alice.username) == Some(2)
    ensures !RootCaller(WithAlice(seedHash, userHash, now), Some(2))
  {
  }

  lemma OnlyRootDeletes(seedHash: Credentials.Hasher, userHash: Credentials.Hasher, now: Timestamp)
    ensures var db := WithAlice(seedHash, userHash, now);
      && Delete(db, Some(2), 1) == Reply(Forbidden, db)
      && Delete(db, Some(1), 1).db == db.(entries := map[])
  {
  }

  lemma DuplicateAliceRefused(seedHash: Credentials.Hasher, userHash: Credentials.Hasher, now: Timestamp)
    ensures var db := WithAlice(seedHash, userHash, now).(entries := map[]);
      && Register(db, Some(1), userHash, Some(Alice)) == Reply(StoreRejected, db)
      && |db.users| == 2
  {
    var db := WithAlice(seedHash, userHash, now).(entries := map[]);
    assert HasUsername(db.users, Alice.username) by {
      assert db.users[2].username == Alice.username;
    }
    assert RegisterValid(Alice);
    assert db.users.Keys == {1, 2};
  }

  /** The end-to-end sequence: seed root, log in as root, add an entry, register
      a non-root user, let that user try to delete the entry (403), then
      delete it as root; registering the same username again is refused and
      leaves two users. */
  lemma EndToEnd(seedHash: Credentials.Hasher, userHash: Credentials.Hasher,
                 verify: Credentials.Verifier, now: Timestamp)
    requires Credentials.Agrees(seedHash, verify)
    ensures var seeded := CreateTables(EmptyDb, seedHash);
      var login := Login(seeded, verify, Some(LoginInput(RootUsername, RootDefaultPassword, false)));
      var root := login.outcome.userId;
      var added := Add(seeded, Some(root), now, Some(Sample)).db;
      var registered := Register(added, Some(root), userHash, Some(Alice)).db;
      var alice := FindByUsername(registered.users, Alice.username).value;
      var deleted := Delete(registered, Some(root), 1).db;
      && login.outcome == SignedIn(1)
      && Index(added, Some(root)).outcome.page.entries == map[1 := Entry(Sample, RootUsername, now)]
      && !RootCaller(registered, Some(alice))
      && Delete(registered, Some(alice), 1) == Reply(Forbidden, registered)
      && Index(deleted, Some(root)).outcome == Rendered(EntryList(map[]))
      && Register(deleted, Some(root), userHash, Some(Alice)) == Reply(StoreRejected, deleted)
      && |deleted.users| == 2
  {
    SeedEmptyThenLogin(seedHash, verify);
    RootAddsSample(seedHash, now);
    RootRegistersAlice(seedHash, userHash, now);
    OnlyRootDeletes(seedHash, userHash, now);
    DuplicateAliceRefused(seedHash, userHash, now);
  }

}
