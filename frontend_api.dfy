/**
 * The session login endpoints of the front end: tolerant JSON body reading, login by
 * username or email, and sign-in with a Google identity token, which reuses the
 * account with the same email or creates one under a fresh username.
 */
module FrontendApi {
  import opened Wrappers
  import opened Text
  import opened Json
  import opened Models

  /** Django's default `SESSION_COOKIE_AGE` (two weeks, in seconds); the settings leave it unset. */
  const SessionCookieAge: nat := 1209600

  /**
   * `_json_body(request)`: the decoded JSON document, or `{}` when the body is not
   * UTF-8, is empty, or does not parse. `parse` is `json.loads` (None where it raises).
   */
  function JsonBody(body: Body, parse: string -> Option<Json>): (v: Json)
    ensures body.NotUtf8? || body == Utf8("") ==> v == JObject(map[])
    ensures body.Utf8? && body.text != "" && parse(body.text).None? ==> v == JObject(map[])
    ensures body.Utf8? && body.text != "" && parse(body.text).Some? ==> v == parse(body.text).value
  {
    match body
    case NotUtf8 => JObject(map[])
    case Utf8(text) => if text == "" then JObject(map[]) else parse(text).GetOr(JObject(map[]))
  }

  /** The position of the first user (in primary-key order) whose email matches case-insensitively; |users| when none does. */
  function FirstEmailMatch(users: seq<User>, email: string): (i: nat)
    ensures i <= |users|
    ensures i < |users| ==> SameIgnoringCase(users[i].email, email)
    ensures forall j | 0 <= j < i :: !SameIgnoringCase(users[j].email, email)
  {
    if users == [] then 0
    else if SameIgnoringCase(users[0].email, email) then 0
    else 1 + FirstEmailMatch(users[1..], email)
  }

  /** `User.objects.filter(email__iexact=email).first()`. */
  function FirstUserByEmail(users: seq<User>, email: string): (r: Option<User>)
    ensures r.None? <==> forall j | 0 <= j < |users| :: !SameIgnoringCase(users[j].email, email)
    ensures r.Some? ==> r.value == users[FirstEmailMatch(users, email)]
  {
    var i := FirstEmailMatch(users, email);
    if i < |users| then Some(users[i]) else None
  }

  /**
   * The name handed to `authenticate`: input containing "@" is replaced by the username
   * of the first user with that email, when there is one; anything else is kept.
   */
  function ResolveLoginName(users: seq<User>, input: string): (name: string)
    ensures '@' !in input ==> name == input
    ensures '@' in input && FirstUserByEmail(users, input).Some? ==> name == FirstUserByEmail(users, input).value.username
    ensures '@' in input && FirstUserByEmail(users, input).None? ==> name == input
    ensures name == input || exists i | 0 <= i < |users| :: name == users[i].username && SameIgnoringCase(users[i].email, input)
  {
    if '@' in input then
      match FirstUserByEmail(users, input)
      case Some(u) => u.username
      case None => input
    else input
  }

  /** The exits of `login_view`. */
  datatype LoginResponse =
    | LoginBadRequest
    | LoginInvalid
    | LoginInactive
    | LoginServerError
    | LoggedIn(user: UserId, expiry: nat)
  {
    function Status(): int {
      match this
      case LoginBadRequest => 400
      case LoginInvalid => 401
      case LoginInactive => 403
      case LoginServerError => 500
      case LoggedIn(_, _) => 200
    }
  }

  /**
   * `login_view`. `authenticate` stands for Django's backend check of a name and a
   * password. The empty-field check comes before any lookup; `remember` picks a
   * two-week session over one that ends with the browser (expiry 0).
   */
  method Login(db: Database, body: Body, parse: string -> Option<Json>,
               authenticate: (string, Json) -> Option<User>) returns (r: LoginResponse)
    ensures var data := JsonBody(body, parse);
      !data.JObject? || StringValue(Get(data.fields, "username")).None? ==> r == LoginServerError
    ensures JsonBody(body, parse) == JObject(map[]) ==> r == LoginBadRequest
    ensures var data := JsonBody(body, parse);
      data.JObject? && StringValue(Get(data.fields, "username")).Some? ==>
        var input := Trim(StringValue(Get(data.fields, "username")).value);
        var password := Get(data.fields, "password");
        if input == "" || !Truthy(password) then r == LoginBadRequest
        else
          match authenticate(ResolveLoginName(db.users, input), password)
          case None => r == LoginInvalid
          case Some(u) =>
            if !u.isActive then r == LoginInactive
            else r == LoggedIn(u.id, if Truthy(Get(data.fields, "remember")) then SessionCookieAge else 0)
  {
    var data := JsonBody(body, parse);
    if !data.JObject? {
      return LoginServerError;
    }
    var given := StringValue(Get(data.fields, "username"));
    if given.None? {
      return LoginServerError;
    }
    var usernameOrEmail := Trim(given.value);
    var password := Get(data.fields, "password");
    var remember := Truthy(Get(data.fields, "remember"));
    if usernameOrEmail == "" || !Truthy(password) {
      return LoginBadRequest;
    }
    var username := ResolveLoginName(db.users, usernameOrEmail);
    var user := authenticate(username, password);
    if user.None? {
      return LoginInvalid;
    }
    if !user.value.isActive {
      return LoginInactive;
    }
    return LoggedIn(user.value.id, if remember then SessionCookieAge else 0);
  }

  /** The claims of a verified Google identity token that the view reads ("" where a claim is absent). */
  datatype IdInfo = IdInfo(email: string, emailVerified: bool, sub: string, givenName: string, familyName: string)

  datatype ClaimError = MissingEmail | EmailUnverified | MissingSub

  /** The claim checks, in the view's order; on success the normalised (trimmed, lowercased) email. */
  function CheckClaims(info: IdInfo): (r: Result<string, ClaimError>)
    ensures r.Success? <==> Lower(Trim(info.email)) != "" && info.emailVerified && info.sub != ""
    ensures r.Success? ==> r.value == Lower(Trim(info.email)) && Lower(r.value) == r.value
    ensures r == Failure(MissingEmail) <==> Lower(Trim(info.email)) == ""
    ensures r == Failure(EmailUnverified) <==> Lower(Trim(info.email)) != "" && !info.emailVerified
    ensures r == Failure(MissingSub) <==> Lower(Trim(info.email)) != "" && info.emailVerified && info.sub == ""
  {
    var email := Lower(Trim(info.email));
    LowerIdempotent(Trim(info.email));
    if email == "" then Failure(MissingEmail)
    else if !info.emailVerified then Failure(EmailUnverified)
    else if info.sub == "" then Failure(MissingSub)
    else Success(email)
  }

  /** The i-th username tried for `base`: `base` itself, then `base2`, `base3`, ... */
  function Candidate(base: string, i: nat): (c: string)
    ensures i <= 1 ==> c == base
    ensures i >= 2 ==> |c| > |base| && c[..|base|] == base && c[|base|..] == NatStr(i)
  {
    if i <= 1 then base else base + NatStr(i)
  }

  /** Different attempts try different usernames. */
  lemma CandidateInjective(base: string, a: nat, b: nat)
    requires 1 <= a && 1 <= b && Candidate(base, a) == Candidate(base, b)
    ensures a == b
  {
    if a >= 2 && b >= 2 {
      assert NatStr(a) == Candidate(base, a)[|base|..];
      assert NatStr(b) == Candidate(base, b)[|base|..];
      NatStrInjective(a, b);
    }
  }

  /**
   * The view's `while` loop: the first of `base`, `base2`, `base3`, ... that no existing
   * username equals, and the attempt number it was found at.
   */
  method FreshUsername(taken: set<string>, base: string) returns (candidate: string, i: nat)
    ensures candidate !in taken
    ensures i >= 1 && candidate == Candidate(base, i)
    ensures forall j | 1 <= j < i :: Candidate(base, j) in taken
    ensures i == 1 <==> base !in taken
  {
    candidate := base;
    i := 1;
    ghost var tried: set<string> := {};
    while candidate in taken
      invariant i >= 1 && candidate == Candidate(base, i)
      invariant forall j | 1 <= j < i :: Candidate(base, j) in taken
      invariant tried <= taken
      invariant forall s | s in tried :: exists j | 1 <= j < i :: s == Candidate(base, j)
      invariant i > 1 ==> base in taken
      decreases taken - tried
    {
      if candidate in tried {
        var j :| 1 <= j < i && candidate == Candidate(base, j);
        CandidateInjective(base, j, i);
      }
      tried := tried + {candidate};
      i := i + 1;
      candidate := base + NatStr(i);
    }
  }

  /** The exits of `google_login_view`. */
  datatype GoogleResponse =
    | MissingCredential
    | ClientIdMissing
    | TokenInvalid
    | ClaimRejected(reason: ClaimError)
    | GoogleServerError
    | GoogleLoggedIn(user: UserId, created: bool, expiry: nat)
  {
    function Status(): int {
      match this
      case MissingCredential => 400
      case ClientIdMissing => 500
      case TokenInvalid => 401
      case ClaimRejected(reason) => if reason == EmailUnverified then 401 else 400
      case GoogleServerError => 500
      case GoogleLoggedIn(_, _, _) => 200
    }
  }

  /** The account `google_login_view` creates for a new email. */
  function GoogleAccount(users: seq<User>, username: string, email: string, info: IdInfo): (u: User)
    ensures UsersWellFormed(users) ==> forall i | 0 <= i < |users| :: users[i].id < u.id
    ensures u.username == username && u.email == email && u.isActive && u.password == Unusable
    ensures |u.firstName| <= 150 && |u.firstName| <= |info.givenName| && u.firstName == info.givenName[..|u.firstName|]
    ensures |info.givenName| > 150 ==> |u.firstName| == 150
    ensures |u.lastName| <= 150 && |u.lastName| <= |info.familyName| && u.lastName == info.familyName[..|u.lastName|]
    ensures |info.familyName| > 150 ==> |u.lastName| == 150
  {
    User(NextUserId(users), username, email, Take(info.givenName, 150), Take(info.familyName, 150), true, Unusable)
  }

  /**
   * `google_login_view`. `clientId` is `GOOGLE_CLIENT_ID`; `verify` stands for the
   * token check against Google (None where it raises). An existing account with the
   * email is signed in unchanged; otherwise exactly one account is appended under the
   * first free username derived from the email's local part.
   */
  method GoogleLogin(db: Database, body: Body, parse: string -> Option<Json>, clientId: string,
                     verify: (Json, string) -> Option<IdInfo>) returns (r: GoogleResponse)
    requires db.Valid()
    modifies db`users
    ensures db.Valid()
    ensures !(r.GoogleLoggedIn? && r.created) ==> db.users == old(db.users)
    ensures !JsonBody(body, parse).JObject? ==> r == GoogleServerError
    ensures var data := JsonBody(body, parse);
      data.JObject? ==>
        var credential := Get(data.fields, "credential");
        if !Truthy(credential) then r == MissingCredential
        else if clientId == "" then r == ClientIdMissing
        else match verify(credential, clientId)
          case None => r == TokenInvalid
          case Some(info) =>
            match CheckClaims(info)
            case Failure(e) => r == ClaimRejected(e)
            case Success(email) =>
              match FirstUserByEmail(old(db.users), email)
              case Some(u) => r == GoogleLoggedIn(u.id, false, SessionCookieAge)
              case None =>
                && r.GoogleLoggedIn? && r.created && r.expiry == SessionCookieAge
                && |db.users| == |old(db.users)| + 1
                && db.users[..|old(db.users)|] == old(db.users)
                && var created := db.users[|old(db.users)|];
                   && created == GoogleAccount(old(db.users), created.username, email, info)
                   && r.user == created.id
                   && created.username !in Usernames(old(db.users))
                   && (exists i | i >= 1 ::
                         && created.username == Candidate(BeforeFirst(email, '@'), i)
                         && forall j | 1 <= j < i :: Candidate(BeforeFirst(email, '@'), j) in Usernames(old(db.users)))
  {
    var data := JsonBody(body, parse);
    if !data.JObject? {
      return GoogleServerError;
    }
    var credential := Get(data.fields, "credential");
    if !Truthy(credential) {
      return MissingCredential;
    }
    if clientId == "" {
      return ClientIdMissing;
    }
    var verified := verify(credential, clientId);
    if verified.None? {
      return TokenInvalid;
    }
    var info := verified.value;
    var checked := CheckClaims(info);
    if checked.Failure? {
      return ClaimRejected(checked.error);
    }
    var email := checked.value;
    var existing := FirstUserByEmail(db.users, email);
    if existing.Some? {
      return GoogleLoggedIn(existing.value.id, false, SessionCookieAge);
    }
    var base := BeforeFirst(email, '@');
    var candidate, i := FreshUsername(Usernames(db.users), base);
    var user := GoogleAccount(db.users, candidate, email, info);
    AppendUser(db.users, user);
    db.users := db.users + [user];
    return GoogleLoggedIn(user.id, true, SessionCookieAge);
  }

  /** After a Google sign-up, signing in with the same email finds the created account. */
  lemma SecondGoogleLoginReuses(users: seq<User>, u: User, email: string)
    requires u.email == email
    requires FirstUserByEmail(users, email).None?
    ensures FirstUserByEmail(users + [u], email) == Some(u)
  {
    var all := users + [u];
    assert all[|users|] == u;
    assert forall j | 0 <= j < |users| :: all[j] == users[j];
    assert FirstEmailMatch(all, email) == |users|;
  }
}
