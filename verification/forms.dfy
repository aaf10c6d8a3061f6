/**
 The five WTForms form classes of the application and the validators they
 declare. A form is valid when every field passes every validator listed
 for it; fields declared without validators accept anything.
 */
module Forms {
  import opened Optional

  /** The two WTForms validators the application uses. `Length` treats a
      bound of -1 as "no bound", as WTForms does. */
  datatype Validator = InputRequired | Length(min: int, max: int)

  function Passes(v: Validator, data: string): bool
  {
    match v
    case InputRequired => |data| > 0
    case Length(min, max) => min <= |data| && (max == -1 || |data| <= max)
  }

  /** A field with the validator list `rules` accepts `data`. */
  function Accepts(rules: seq<Validator>, data: string): (ok: bool)
    ensures ok <==> forall i :: 0 <= i < |rules| ==> Passes(rules[i], data)
  {
    if rules == [] then true else Passes(rules[0], data) && Accepts(rules[1..], data)
  }

  /** A field declared `[InputRequired(), Length(min, max)]` with a positive
      minimum and an upper bound accepts exactly the strings whose length
      lies in `min..max`: InputRequired adds nothing beyond the minimum. */
  lemma RequiredWithLength(min: int, max: int, data: string)
    requires 1 <= min && max != -1
    ensures Accepts([InputRequired, Length(min, max)], data) <==> min <= |data| <= max
  {
  }

  /** The bounds every username field enforces. */
  predicate UsernameInBounds(s: string)
  {
    3 <= |s| <= 50
  }

  /** The bounds every password field enforces. */
  predicate PasswordInBounds(s: string)
  {
    7 <= |s| <= 80
  }

  // Field declarations, one per form class, as the application declares them.

  const LoginUsernameRules: seq<Validator> := [InputRequired, Length(3, 50)]
  const LoginPasswordRules: seq<Validator> := [InputRequired, Length(7, 80)]

  const RegisterUsernameRules: seq<Validator> := [InputRequired, Length(3, 50)]
  const RegisterPasswordRules: seq<Validator> := [InputRequired, Length(7, 80)]

  const ChangePasswordUsernameRules: seq<Validator> := [InputRequired, Length(3, 50)]
  const ChangePasswordPasswordRules: seq<Validator> := [InputRequired, Length(7, 80)]

  const EditUserUsernameRules: seq<Validator> := [InputRequired, Length(3, 50)]
  const EditUserPasswordRules: seq<Validator> := [InputRequired, Length(7, 80)]

  const TitleRules: seq<Validator> := [InputRequired]
  const SubjectRules: seq<Validator> := [InputRequired]
  const DetailsRules: seq<Validator> := [InputRequired]

  /** Submitted LoginForm data; `remember` is the "Remember me" box. */
  datatype LoginInput = LoginInput(username: string, password: string, remember: bool)

  /** Submitted RegisterForm or EditUserForm data (the two share a shape). */
  datatype AccountInput = AccountInput(username: string, password: string, isRoot: bool)

  /** Submitted ChangePasswordForm data. The username field is read-only in
      the page but is still validated. */
  datatype PasswordInput = PasswordInput(username: string, password: string)

  /** Submitted EntryForm data: the eight editable columns of an entry. The
      age arrives already coerced to an integer, or absent. */
  datatype EntryFields = EntryFields(
    title: string,
    subject: string,
    personName: string,
    phoneNumber: string,
    age: Option<int>,
    email: string,
    details: string,
    additionalLinks: string)

  function LoginValid(f: LoginInput): (ok: bool)
    ensures ok <==> UsernameInBounds(f.username) && PasswordInBounds(f.password)
  {
    RequiredWithLength(3, 50, f.username);
    RequiredWithLength(7, 80, f.password);
    Accepts(LoginUsernameRules, f.username) && Accepts(LoginPasswordRules, f.password)
  }

  function RegisterValid(f: AccountInput): (ok: bool)
    ensures ok <==> UsernameInBounds(f.username) && PasswordInBounds(f.password)
  {
    RequiredWithLength(3, 50, f.username);
    RequiredWithLength(7, 80, f.password);
    Accepts(RegisterUsernameRules, f.username) && Accepts(RegisterPasswordRules, f.password)
  }

  function ChangePasswordValid(f: PasswordInput): (ok: bool)
    ensures ok <==> UsernameInBounds(f.username) && PasswordInBounds(f.password)
  {
    RequiredWithLength(3, 50, f.username);
    RequiredWithLength(7, 80, f.password);
    Accepts(ChangePasswordUsernameRules, f.username)
    && Accepts(ChangePasswordPasswordRules, f.password)
  }

  function EditUserValid(f: AccountInput): (ok: bool)
    ensures ok <==> UsernameInBounds(f.username) && PasswordInBounds(f.password)
  {
    RequiredWithLength(3, 50, f.username);
    RequiredWithLength(7, 80, f.password);
    Accepts(EditUserUsernameRules, f.username) && Accepts(EditUserPasswordRules, f.password)
  }

  /** The required fields of an entry are the title, subject and details. */
  predicate RequiredPresent(f: EntryFields)
  {
    |f.title| > 0 && |f.subject| > 0 && |f.details| > 0
  }

  /** The fields an edit stores: the form is built from the stored entry and
      then filled from the submission, so every text field takes the
      submitted value and an age absent from the submission keeps the stored
      age. */
  function Populate(stored: EntryFields, f: EntryFields): (r: EntryFields)
    ensures r.title == f.title && r.subject == f.subject && r.details == f.details
    ensures r.personName == f.personName && r.phoneNumber == f.phoneNumber
    ensures r.email == f.email && r.additionalLinks == f.additionalLinks
    ensures f.age.Some? ==> r.age == f.age
    ensures f.age.None? ==> r.age == stored.age
    ensures RequiredPresent(f) ==> RequiredPresent(r)
  {
    match f.age
    case Some(_) => f
    case None => f.(age := stored.age)
  }

  function EntryValid(f: EntryFields): (ok: bool)
    ensures ok <==> RequiredPresent(f)
  {
    Accepts(TitleRules, f.title) && Accepts(SubjectRules, f.subject)
    && Accepts(DetailsRules, f.details)
  }

}
