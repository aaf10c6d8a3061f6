/**
 What a request handler answers. Rendering, flashing and URL building are
 left out: a response is reduced to which page is shown, where the browser
 is redirected, or which error status is returned.
 */
module Responses {
  import opened Store

  /** Redirect targets after a successful submission. */
  datatype Route = ToIndex | ToView(entryId: nat) | ToManageUsers

  /** Pages rendered with status 200 when no valid form was submitted, and
      the data each one shows. */
  datatype Page =
    | EntryList(entries: map<nat, Entry>)
    | EntryPage(entry: Entry)
    | AddPage
    | EditPage(entry: Entry)
    | LoginPage
    | RegisterPage
    | ChangePasswordPage
    | UserList(users: map<nat, User>)
    | EditUserPage(user: User)

  datatype Outcome =
    | Redirect(to: Route)          // a submission was stored
    | Rendered(page: Page)         // a page, or a form not yet submitted
    | ValidationFailed             // the form is shown again with field errors
    | InvalidCredentials           // the login form is shown again with one generic message
    | SignedIn(userId: nat)        // the session is bound to this user; redirect to the index
    | SignedOut                    // the session is ended; redirect to the login page
    | LoginRequired                // no authenticated user; redirect to the login page
    | Forbidden                    // 403
    | NotFound                     // 404
    | StoreRejected                // the commit violated the unique username; nothing stored

  /** A handler's outcome and the database after the request. */
  datatype Reply = Reply(outcome: Outcome, db: Db)

}
