# Person-Database request handlers in Dafny

A model of the request-handler layer of the Person-Database web application
(`app.py`): a small record-keeping site where signed-in users manage
*entries* (title, subject, contact details, free-text details, links) and a
*root* user manages the user accounts.

The application is read as a state machine over two tables. Each route
handler is a pure function

    (database, session, request input) -> Reply(outcome, database')

where the session is the user id the login cookie names (or none), and the
outcome is one of: a redirect after a stored submission, a rendered page,
a validation failure, invalid credentials, sign-in / sign-out, a redirect to
the login page (`@login_required`), 403, 404, or a rejected commit.

Modules, one per file:

- `Optional` (`optional.dfy`): the option type.
- `RowIds` (`rowids.dfy`): integer primary keys. A new row gets the largest
  id in its table plus one, or 1 in an empty table, as SQLite assigns rowids.
- `Credentials` (`credentials.dfy`): the stored credential is the text the
  password hasher returns. Hashing and checking are foreign calls, so they
  are function-valued parameters. A hasher is passed per request, because
  salting makes two hashes of one password differ. `Agrees(hash, verify)`
  says the verifier accepts what the hasher produced for the same password.
- `Forms` (`forms.dfy`): the five form classes. Each field's validators are
  written as data (`InputRequired`, `Length(min, max)`), one declaration per
  form as in the source. Each form's validity is then proved equal to the
  plain length rules.
- `Store` (`store.dfy`): the `User` and `Entry` rows, the tables, the lookup
  by username, the session lookup (`load_user`), root seeding
  (`create_tables`) and the database invariant `Valid`. `Valid` says that
  usernames are unique and 3..50 characters long, and that every entry has
  a title, subject, details and a creator.
- `Responses` (`responses.dfy`): outcomes, pages and redirect targets.
- `Handlers` (`handlers.dfy`): the twelve route handlers. Each contract
  gives the guard order, the outcome in every case, exactly what changes on
  success, that nothing changes otherwise, and that `Valid` is preserved.
- `Scenarios` (`scenarios.dfy`): properties that span several requests.
  They cover the login rule over the whole user table, login after
  register / change-password / edit-user, view after add / edit / delete,
  the end of a deleted user's session, and seeding. They also cover the
  missing last-root guard and an end-to-end sequence of requests: seed, log in, add,
  forbidden delete, root delete, duplicate register.

Two behaviours of the code may differ from what a reader expects:

- One might expect a duplicate username on register or edit-user to be
  reported as a form error. The code has no such check: the column's
  unique constraint makes the commit fail, so the request fails and
  nothing is stored (`StoreRejected`).
- One might expect seeding to guarantee that some root user exists. The
  code instead checks only whether a user *named* `root` exists, so a
  `root` whose root flag was cleared is not promoted again, and the
  database can be left without any root user (`SeedKeepsDemotedRoot`).

Modelling choice:

- `filter_by(username=...).first()` is modelled as the lowest id with that
  username. With the unique constraint there is at most one such row.

## Model

| member | source | states |
|---|---|---|
| RowIds.NextId | app.py:23 | a new row's id is exactly the largest existing id plus one (so the id of a deleted newest row is reused), and 1 in an empty table |
| Forms.Accepts | app.py:39-40 | a field accepts its data exactly when every validator declared for the field passes |
| Forms.RequiredWithLength | app.py:39 | a field declared with InputRequired and Length(min, max), where min is positive, accepts exactly the strings whose length is in min..max |
| Forms.LoginValid | app.py:38-40 | the login form is valid iff the username has 3..50 characters and the password 7..80 |
| Forms.RegisterValid | app.py:44-46 | the register form is valid iff the username has 3..50 characters and the password 7..80; the root box adds no rule |
| Forms.ChangePasswordValid | app.py:50-52 | the change-password form is valid iff the (read-only) username has 3..50 characters and the new password 7..80 |
| Forms.EditUserValid | app.py:55-57 | the edit-user form is valid iff the username has 3..50 characters and the password 7..80 |
| Forms.Populate | app.py:133-135 | an edit stores every submitted text field, the submitted age when one was given, and otherwise the stored age; required fields stay present |
| Forms.EntryValid | app.py:61-70 | the entry form is valid iff title, subject and details are non-empty; the four optional text fields carry no validator, and the age is taken as already parsed (see Left out) |
| Store.FindByUsername | app.py:168 | finds a user iff some user has that username; the one found has it and has the least such id |
| Store.CurrentUser | app.py:34-36 | a session resolves to its user id exactly when that user row still exists |
| Store.CreateTables | app.py:85-95 | afterwards a user named root exists and entries are untouched; if one existed nothing changes, otherwise exactly one root-flagged "root" row with the hashed default password is added under the next rowid (largest id plus one); the invariant is kept |
| Handlers.Index | app.py:97-101 | anonymous callers are sent to login; authenticated ones see every entry; nothing changes |
| Handlers.View | app.py:103-109 | anonymous callers are sent to login; a missing id is 404; otherwise the stored entry is shown; nothing changes |
| Handlers.Delete | app.py:111-124 | a non-root caller gets 403 whether or not the id exists; root gets 404 for a missing id; otherwise exactly that entry is removed with all users and other entries unchanged; any other outcome changes nothing |
| Handlers.Edit | app.py:126-140 | a missing id is 404; an invalid form changes nothing; a valid one overwrites only the entry's form fields (an absent age keeps the stored one), keeping its creator and creation time and every other row |
| Handlers.Add | app.py:142-162 | a form with title, subject and details inserts exactly one new entry under the next rowid (largest id plus one), with the caller's current username as creator and the given time; a failing form changes nothing |
| Handlers.Login | app.py:164-173 | sign-in happens iff the form is valid, the username is found and the password verifies against its stored credential; an unknown user and a wrong password both give InvalidCredentials; the database never changes |
| Handlers.Logout | app.py:191-195 | an authenticated caller is signed out, an anonymous one sent to login; nothing changes |
| Handlers.Register | app.py:175-189 | non-root callers get 403 with no change; a valid form with a new username adds exactly one user under the next rowid, with the hashed password and the chosen root flag; a taken username is rejected with no change |
| Handlers.ChangePassword | app.py:197-206 | a valid form replaces only the caller's credential; username, root flag, other users and entries stay; the submitted username is not stored |
| Handlers.ManageUsers | app.py:208-215 | non-root callers get 403; root sees every user; nothing changes |
| Handlers.EditUser | app.py:217-236 | 403 for non-root comes before 404 for a missing id; on success exactly the target's username, credential and root flag are replaced, with no guard for the last root or oneself; a username held by another user is rejected with no change |
| Handlers.DeleteUser | app.py:238-250 | 403 for non-root comes before 404 for a missing id; on success exactly that user is removed, the caller included, and entries keep their creator text |
| Scenarios.LoginSucceedsIff | app.py:168-172 | with unique usernames, a valid login succeeds iff some user has that username and the password verifies against that user's credential |
| Scenarios.LoginFailureIsUniform | app.py:168-172 | an unknown username and a wrong password get the identical reply and leave the database unchanged |
| Scenarios.RegisterThenLogin | app.py:182-186 | after root registers a user, logging in with the same username and password succeeds and the session resolves to the new row |
| Scenarios.LoginThenLogout | app.py:191-195 | the user id a successful login returns is authenticated, carries the submitted username, and signs out with the database unchanged |
| Scenarios.RegisterThenManageUsers | app.py:208-215 | after root registers a user, root's user list keeps every earlier user and holds the new row under a previously unused id, one row more than before |
| Scenarios.DuplicateRegisterStoresNothing | app.py:183-186 | registering a taken username is rejected and the user count is unchanged |
| Scenarios.ChangePasswordThenLogin | app.py:201-203 | after a password change the user logs in with the new password as the same user |
| Scenarios.EditUserThenLogin | app.py:228-232 | after root edits a user, the new username and password log in as that same row, with the new root flag |
| Scenarios.DeleteUserEndsSession | app.py:248-249 | after a user row is deleted, the next request from its session is sent to login, even when root deleted itself |
| Scenarios.ReusedIdRevivesSession | app.py:34-36 | sessions are resolved by id alone: when root deletes the newest user and registers another, who receives the same id, the deleted user's old session authenticates again as the new user |
| Scenarios.AddThenView | app.py:146-159 | an added entry can be viewed under a new id with the submitted fields, the adder's username and the given time; the table grows by one |
| Scenarios.EditThenView | app.py:133-136 | viewing an edited entry shows the new fields with the original creator and creation time; an age left out of the submission shows the age stored before |
| Scenarios.DeleteThenView | app.py:117-122 | after root deletes an entry, viewing it is 404 and one entry fewer remains |
| Scenarios.SeedIsIdempotent | app.py:90-95 | seeding twice gives the same database as seeding once |
| Scenarios.SeedThenRootLogin | app.py:90-95 | on a database without a "root" user, seeding creates a root account that logs in with the default password |
| Scenarios.SeedKeepsDemotedRoot | app.py:90-92 | seeding looks only at the name: a non-root user called "root" is left as is and no root user exists afterwards |
| Scenarios.LastRootCanBeRemoved | app.py:229-231 | the only root may delete itself or clear its own root flag, leaving no root user |
| Scenarios.SeedEmptyThenLogin | app.py:85-95 | seeding an empty database gives one root row with id 1, and root logs in with the default password as id 1 |
| Scenarios.RootAddsSample | app.py:146-159 | root adds entry T/S/D as id 1 with creator "root", and the listing shows it |
| Scenarios.RootRegistersAlice | app.py:182-186 | root registers a non-root user who gets id 2 and is not root |
| Scenarios.OnlyRootDeletes | app.py:114-122 | the non-root user's delete is 403 with no change; root's delete empties the entry table |
| Scenarios.DuplicateAliceRefused | app.py:183-186 | registering the same username again is rejected, and two users remain |
| Scenarios.EndToEnd | app.py:85-124 | seed, root login, add, listing with creator root, non-root delete 403, root delete, empty listing and refused duplicate register, as one sequence of requests |

## Left out

- Flask routing, templates, `flash`, `redirect`/`url_for`. A response is
  reduced to an `Outcome`; flashed messages are not modelled.
- SQLAlchemy sessions, commits, transactions and concurrent requests. Each
  request is one atomic step on immutable maps.
- Flask-Login cookies, the "remember me" flag (it only sets how long the
  cookie lives) and `is_active`. A session is the user id it names, resolved
  as `load_user` does.
- werkzeug's salted hashing is abstract. The promises that a stored digest
  never equals the plaintext, and that a digest of one password never
  verifies a different one, belong to werkzeug. They cannot be stated over
  an abstract hasher, so they are not proved.
- `datetime.utcnow`: the creation time is a parameter of `Add`.
- WTForms parsing: CSRF tokens, and fields missing from a POST body (such
  a field keeps its previous value on edit). The text fields of a
  submission are modelled as submitted in full.
- Forms.EntryValid: does not model the `IntegerField` parse of the age
  (app.py:66). A blank or non-integer age fails the real form, which is
  then shown again with nothing stored; the model has no such failure. In
  a submission, `Some(n)` stands for an age that parsed to `n`, and `None`
  for an age absent from the POST body: `Add` then stores no age, and
  `Edit` keeps the stored one (`Forms.Populate`).
- Handlers.Add: ages are unbounded integers. An age outside SQLite's
  signed 64-bit range makes the real commit fail with nothing stored; the
  model stores it.
- Handlers.Edit: ages and entry ids are unbounded integers. An age or id
  outside SQLite's signed 64-bit range makes the real request fail with
  nothing stored; the model stores the age, or answers 404 for the id.
- Handlers.View: entry ids are unbounded integers. An id outside SQLite's
  signed 64-bit range makes the real lookup fail; the model answers 404.
- Handlers.Delete: an entry id outside SQLite's signed 64-bit range makes
  the real lookup fail with nothing deleted; the model answers root with 404.
- Handlers.EditUser: a user id outside SQLite's signed 64-bit range makes
  the real lookup fail with nothing stored; the model answers root with 404.
- Handlers.DeleteUser: a user id outside SQLite's signed 64-bit range makes
  the real lookup fail with nothing deleted; the model answers root with 404.
- Column length limits (`String(50)`, `String(100)`, `String(20)`). SQLite
  does not enforce them.
- `create_all`, the secret key, the database URI and `app.run`: process
  start-up and configuration.
- Store.FindByUsername: `first()` without an ORDER BY leaves the row order
  to the database; the model fixes it as the lowest id. This only matters
  when usernames repeat, which the unique constraint prevents.
