/**
 * `RegisterAPIView.post`: field-by-field validation of a sign-up payload into an
 * error map, and the creation of the user when the map stays empty.
 */
module AccountsViews {
  import opened Wrappers
  import opened Text
  import opened Json
  import opened Models

  datatype Field = UsernameField | EmailField | PasswordField

  /** What is wrong with a field: empty, a password under six characters, or already used. */
  datatype Problem = Required | TooShort | Taken

  const MinPasswordLength: nat := 6

  /** `User.objects.filter(username__iexact=name).exists()`. */
  predicate UsernameTaken(users: seq<User>, name: string) {
    exists i | 0 <= i < |users| :: SameIgnoringCase(users[i].username, name)
  }

  /** `User.objects.filter(email__iexact=email).exists()`. */
  predicate EmailTaken(users: seq<User>, email: string) {
    exists i | 0 <= i < |users| :: SameIgnoringCase(users[i].email, email)
  }

  /**
   * The problem with one field, stated field by field: a non-empty name or email that
   * is already used is Taken; an empty one is Required; a password is TooShort when
   * it has fewer than six characters (the empty password included).
   */
  function FieldProblem(users: seq<User>, username: string, email: string, password: string, f: Field): Option<Problem>
  {
    match f
    case UsernameField =>
      if username == "" then Some(Required) else if UsernameTaken(users, username) then Some(Taken) else None
    case EmailField =>
      if email == "" then Some(Required) else if EmailTaken(users, email) then Some(Taken) else None
    case PasswordField =>
      if |password| < MinPasswordLength then Some(TooShort) else None
  }

  /** The error map the view answers with: one entry per field that has a problem. */
  function RegistrationErrors(users: seq<User>, username: string, email: string, password: string): (m: map<Field, Problem>)
    ensures forall f: Field :: f in m <==> FieldProblem(users, username, email, password, f).Some?
    ensures forall f | f in m :: Some(m[f]) == FieldProblem(users, username, email, password, f)
  {
    map f | f in {UsernameField, EmailField, PasswordField} && FieldProblem(users, username, email, password, f).Some? ::
      FieldProblem(users, username, email, password, f).value
  }

  /** The input is accepted exactly when every field is present, new, and the password long enough. */
  lemma {:induction false} AcceptedIff(users: seq<User>, username: string, email: string, password: string)
    ensures RegistrationErrors(users, username, email, password) == map[] <==>
      && username != "" && !UsernameTaken(users, username)
      && email != "" && !EmailTaken(users, email)
      && |password| >= MinPasswordLength
  {
    var m := RegistrationErrors(users, username, email, password);
    if m == map[] {
      assert UsernameField !in m && EmailField !in m && PasswordField !in m;
    }
  }

  /**
   * The view's own construction of the error map: the three "required" checks, then
   * the two uniqueness checks, which only run on a non-empty name or email and so
   * never meet an earlier entry for the same field.
   */
  method CollectErrors(users: seq<User>, username: string, email: string, password: string)
    returns (errors: map<Field, Problem>)
    ensures errors == RegistrationErrors(users, username, email, password)
  {
    errors := map[];
    if username == "" {
      errors := errors[UsernameField := Required];
    }
    if email == "" {
      errors := errors[EmailField := Required];
    }
    if password == "" || |password| < MinPasswordLength {
      errors := errors[PasswordField := TooShort];
    }
    if username != "" && UsernameTaken(users, username) {
      errors := errors[UsernameField := Taken];
    }
    if email != "" && EmailTaken(users, email) {
      errors := errors[EmailField := Taken];
    }
    assert errors.Keys == RegistrationErrors(users, username, email, password).Keys;
  }

  /** The exits of the registration endpoint. */
  datatype RegisterResponse =
    | Invalid(errors: map<Field, Problem>)
    | RegisterServerError
    | Created(id: UserId, username: string, email: string)
  {
    function Status(): int {
      match this
      case Invalid(_) => 400
      case RegisterServerError => 500
      case Created(_, _, _) => 201
    }
  }

  /**
   * The request payload as a dict: `request.data or {}`. None where `.get` would raise
   * (a non-empty payload that is not an object).
   */
  function PayloadFields(data: Json): (r: Option<map<string, Json>>)
    ensures !Truthy(data) ==> r == Some(map[])
    ensures data.JObject? ==> r == Some(data.fields)
    ensures r.Some? ==> !Truthy(data) || data.JObject?
  {
    if !Truthy(data) then Some(map[]) else if data.JObject? then Some(data.fields) else None
  }

  /** The five inputs after `(x or "")`, `.strip()` and, for the email, `.lower()`; None where one raises. */
  datatype SignUp = SignUp(username: string, email: string, password: string, firstName: string, lastName: string)

  function ReadSignUp(data: Json): (r: Option<SignUp>)
    ensures r.Some? <==>
      PayloadFields(data).Some? &&
      forall key | key in {"username", "email", "password", "first_name", "last_name"} ::
        StringValue(Get(PayloadFields(data).value, key)).Some?
    ensures r.Some? ==>
      var d := PayloadFields(data).value;
      && r.value.username == Trim(StringValue(Get(d, "username")).value)
      && r.value.email == Lower(Trim(StringValue(Get(d, "email")).value))
      && r.value.password == StringValue(Get(d, "password")).value
      && r.value.firstName == Trim(StringValue(Get(d, "first_name")).value)
      && r.value.lastName == Trim(StringValue(Get(d, "last_name")).value)
    ensures r.Some? ==> Lower(r.value.email) == r.value.email
  {
    match PayloadFields(data)
    case None => None
    case Some(d) =>
      var username := StringValue(Get(d, "username"));
      var email := StringValue(Get(d, "email"));
      var password := StringValue(Get(d, "password"));
      var first := StringValue(Get(d, "first_name"));
      var last := StringValue(Get(d, "last_name"));
      if username.None? || email.None? || password.None? || first.None? || last.None? then None
      else
        LowerIdempotent(Trim(email.value));
        Some(SignUp(Trim(username.value), Lower(Trim(email.value)), password.value, Trim(first.value), Trim(last.value)))
  }

  /**
   * `RegisterAPIView.post`: answers 400 with the error map and creates nothing when the
   * map is non-empty; otherwise appends exactly one active user with the next id and
   * answers 201 with its id, username and email.
   */
  method Register(db: Database, data: Json) returns (r: RegisterResponse)
    requires db.Valid()
    modifies db`users
    ensures db.Valid()
    ensures !r.Created? ==> db.users == old(db.users)
    ensures ReadSignUp(data).None? <==> r == RegisterServerError
    ensures ReadSignUp(data).Some? ==> RegisterOutcome(old(db.users), ReadSignUp(data).value, r, db.users)
  {
    var input := ReadSignUp(data);
    if input.None? {
      return RegisterServerError;
    }
    r := CreateAccount(db, input.value);
  }

  /** What registering the (already read) input `s` against the table `before` answers and leaves. */
  ghost predicate RegisterOutcome(before: seq<User>, s: SignUp, r: RegisterResponse, after: seq<User>) {
    var errors := RegistrationErrors(before, s.username, s.email, s.password);
    && (errors != map[] ==> r == Invalid(errors) && after == before)
    && (errors == map[] ==>
          var id := NextUserId(before);
          && r == Created(id, s.username, s.email)
          && after == before + [User(id, s.username, s.email, s.firstName, s.lastName, true, Secret(s.password))])
  }

  /** Validation and `create_user` on input already read from the payload. */
  method CreateAccount(db: Database, s: SignUp) returns (r: RegisterResponse)
    requires db.Valid()
    modifies db`users
    ensures db.Valid()
    ensures r.Invalid? || r.Created?
    ensures RegisterOutcome(old(db.users), s, r, db.users)
  {
    var errors := CollectErrors(db.users, s.username, s.email, s.password);
    if errors != map[] {
      return Invalid(errors);
    }
    AcceptedIff(db.users, s.username, s.email, s.password);
    var id := NextUserId(db.users);
    var user := User(id, s.username, s.email, "", "", true, Secret(s.password));
    user := user.(firstName := s.firstName, lastName := s.lastName);
    NewNameIsFree(db.users, s.username);
    AppendUser(db.users, user);
    db.users := db.users + [user];
    return Created(user.id, user.username, user.email);
  }

  /** A username no existing name matches case-insensitively is not in the table at all. */
  lemma NewNameIsFree(users: seq<User>, name: string)
    requires !UsernameTaken(users, name)
    ensures name !in Usernames(users)
  {
  }

  /** Once registered, the same username in any letter case is refused as Taken. */
  lemma RegisteredNameTaken(users: seq<User>, u: User, name: string)
    requires SameIgnoringCase(u.username, name) && name != ""
    ensures var errors := RegistrationErrors(users + [u], name, "", "");
      UsernameField in errors && errors[UsernameField] == Taken
  {
    assert (users + [u])[|users|] == u;
  }
}
