/** Signing in and registering: app/actions/auth.ts.  The SHA-256 hex
    digest is a parameter `hash`; the session row and cookie that
    `createSession` writes are represented by the user id returned. */
module AuthActions {
  import opened Results
  import opened RateLimit
  import opened Store

  const LoginLimit: int := 5
  const LoginWindowMs: int := 60000
  const MinPasswordLength: nat := 6
  const AdminHome: string := "/admin"
  const UserHome: string := "/dashboard"

  /** `hashPassword`: the digest of the password. */
  function HashPassword(hash: string -> string, password: string): string {
    hash(password)
  }

  /** `verifyPassword`: the password's digest equals the stored one. */
  predicate VerifyPassword(hash: string -> string, password: string, stored: string) {
    HashPassword(hash, password) == stored
  }

  /** A stored hash accepts the password it was made from, and, when the
      digest is injective, that password only. */
  lemma VerifyMatchesHash(hash: string -> string, password: string, other: string)
    ensures VerifyPassword(hash, password, HashPassword(hash, password))
    ensures (forall a, b :: hash(a) == hash(b) ==> a == b) ==>
              (VerifyPassword(hash, other, HashPassword(hash, password)) <==> other == password)
  {
  }

  // ---------------------------------------------------------------------
  // loginAction
  // ---------------------------------------------------------------------

  /** `SELECT ... FROM users WHERE email = ... LIMIT 1`: the user with
      exactly this email (the key is unique). */
  function FindUserByEmail(users: seq<UserRecord>, email: string): (r: Option<nat>)
    ensures r.None? <==> forall i :: 0 <= i < |users| ==> users[i].email != email
    ensures r.Some? ==> r.value < |users| && users[r.value].email == email &&
                        forall j :: 0 <= j < r.value ==> users[j].email != email
    decreases |users|
  {
    if users == [] then None
    else if users[0].email == email then Some(0)
    else match FindUserByEmail(users[1..], email)
      case None => None
      case Some(i) => Some(i + 1)
  }

  /** The credential check after the rate limit: the signed-in user and the
      page they land on.  An unknown email and a wrong password give the
      same answer. */
  function Credentials(users: seq<UserRecord>, hash: string -> string, email: string, password: string)
    : (r: Result<(nat, string), Failure>)
    ensures r.Err? ==> r.error == InvalidCredentials
    ensures r.Ok? <==>
              exists i :: 0 <= i < |users| && users[i].email == email &&
                          VerifyPassword(hash, password, users[i].passwordHash) &&
                          forall j :: 0 <= j < i ==> users[j].email != email
    ensures r.Ok? ==>
              r.value.0 < |users| && users[r.value.0].email == email &&
              VerifyPassword(hash, password, users[r.value.0].passwordHash) &&
              (r.value.1 == AdminHome <==> users[r.value.0].role == Admin) &&
              (r.value.1 == UserHome <==> users[r.value.0].role == User)
  {
    match FindUserByEmail(users, email)
    case None => Err(InvalidCredentials)
    case Some(i) =>
      if !VerifyPassword(hash, password, users[i].passwordHash) then Err(InvalidCredentials)
      else Ok((i, if users[i].role == Admin then AdminHome else UserHome))
  }

  /** The limiter key of a login attempt. */
  function LoginKey(email: string): string {
    "login:" + email
  }

  /** `loginAction(formData)` at instant `now`.  Missing fields are refused
      before the limiter is consulted; every other attempt, right or wrong,
      counts against the email's window, and an attempt over the limit is
      refused without reading the users table. */
  method Login(db: Database, limiter: RateLimiter, hash: string -> string,
               email: string, password: string, now: int)
    returns (r: Result<(nat, string), Failure>)
    modifies limiter
    ensures email == [] || password == [] ==>
              r == Err(MissingCredentials) && limiter.entries == old(limiter.entries)
    ensures email != [] && password != [] ==>
              var step := Step(old(limiter.entries), LoginKey(email), LoginLimit, LoginWindowMs, now);
              limiter.entries == step.0 &&
              r == if step.1.success then Credentials(db.users, hash, email, password) else Err(TooManyAttempts)
  {
    if email == [] || password == [] {
      return Err(MissingCredentials);
    }
    var verdict := limiter.Check(LoginKey(email), LoginLimit, LoginWindowMs, now);
    if !verdict.success {
      return Err(TooManyAttempts);
    }
    var found := FindUserByEmail(db.users, email);
    if found.None? {
      return Err(InvalidCredentials);
    }
    var user := found.value;
    if !VerifyPassword(hash, password, db.users[user].passwordHash) {
      return Err(InvalidCredentials);
    }
    var home := if db.users[user].role == Admin then AdminHome else UserHome;
    r := Ok((user, home));
  }

  /** Within one minute of the attempt that opens an email's window, at
      most five attempts for that email get past the limiter. */
  lemma LoginWindowBound(entries: map<string, Entry>, email: string, start: int, times: seq<int>)
    requires OpensWindow(entries, LoginKey(email), start)
    requires forall i :: 0 <= i < |times| ==> times[i] <= start + LoginWindowMs
    ensures Replay(entries, LoginKey(email), LoginLimit, LoginWindowMs, [start] + times).1 <= LoginLimit
  {
    WindowBound(entries, LoginKey(email), LoginLimit, LoginWindowMs, start, times);
  }

  // ---------------------------------------------------------------------
  // registerAction
  // ---------------------------------------------------------------------

  /** The text fields of the sign-up form; an absent field reads as empty. */
  datatype RegisterForm = RegisterForm(
    fullName: string,
    email: string,
    password: string,
    confirmPassword: string,
    caseId: string)

  /** What `registerAction` decides: why it refuses, in order (all three
      fields, at least six characters, the confirmation, a free email), or
      the row it inserts, always with the user role. */
  function RegisterOutcome(users: seq<UserRecord>, hash: string -> string, form: RegisterForm)
    : (r: Result<UserRecord, Failure>)
    ensures r == Err(MissingRegistrationFields) <==>
              form.fullName == [] || form.email == [] || form.password == []
    ensures r == Err(PasswordTooShort) <==>
              form.fullName != [] && form.email != [] && form.password != [] &&
              |form.password| < MinPasswordLength
    ensures r == Err(PasswordMismatch) <==>
              form.fullName != [] && form.email != [] && |form.password| >= MinPasswordLength &&
              form.password != form.confirmPassword
    ensures r == Err(EmailTaken) <==>
              form.fullName != [] && form.email != [] && |form.password| >= MinPasswordLength &&
              form.password == form.confirmPassword &&
              exists i :: 0 <= i < |users| && users[i].email == form.email
    ensures r.Ok? <==>
              form.fullName != [] && form.email != [] && |form.password| >= MinPasswordLength &&
              form.password == form.confirmPassword &&
              forall i :: 0 <= i < |users| ==> users[i].email != form.email
    ensures r.Ok? ==>
              r.value.role == User && r.value.fullName == form.fullName && r.value.email == form.email &&
              VerifyPassword(hash, form.password, r.value.passwordHash)
  {
    if form.fullName == [] || form.email == [] || form.password == [] then Err(MissingRegistrationFields)
    else if |form.password| < MinPasswordLength then Err(PasswordTooShort)
    else if form.password != form.confirmPassword then Err(PasswordMismatch)
    else if FindUserByEmail(users, form.email).Some? then Err(EmailTaken)
    else Ok(UserRecord(form.fullName, form.email, HashPassword(hash, form.password), User))
  }

  /** Where a new user lands: the dashboard, told about the case id the
      sign-up form carried, if any.  `encodeURIComponent` is the parameter
      `encode`. */
  function RegisterRedirect(encode: string -> string, caseId: string): (r: string)
    ensures caseId == [] ==> r == UserHome
    ensures caseId != [] ==> r == UserHome + "?caseId=" + encode(caseId)
  {
    if caseId == [] then UserHome else UserHome + "?caseId=" + encode(caseId)
  }

  /** `registerAction(formData)`: on success one user row is appended, the
      new user is signed in (their id is returned) and sent on. */
  method Register(db: Database, hash: string -> string, encode: string -> string, form: RegisterForm)
    returns (r: Result<(nat, string), Failure>)
    requires db.Valid()
    modifies db`users
    ensures db.Valid()
    ensures match RegisterOutcome(old(db.users), hash, form)
            case Err(e) => r == Err(e) && db.users == old(db.users)
            case Ok(row) =>
              r == Ok((|old(db.users)|, RegisterRedirect(encode, form.caseId))) &&
              db.users == old(db.users) + [row]
  {
    if form.fullName == [] || form.email == [] || form.password == [] {
      return Err(MissingRegistrationFields);
    }
    if |form.password| < MinPasswordLength {
      return Err(PasswordTooShort);
    }
    if form.password != form.confirmPassword {
      return Err(PasswordMismatch);
    }
    if FindUserByEmail(db.users, form.email).Some? {
      return Err(EmailTaken);
    }
    var row := UserRecord(form.fullName, form.email, HashPassword(hash, form.password), User);
    NewUserKeepsInvariant(db.users, db.cases, db.accessRequests, db.participants, db.messages,
                          db.attachments, db.reports, db.branding, row);
    var id := |db.users|;
    db.users := db.users + [row];
    r := Ok((id, RegisterRedirect(encode, form.caseId)));
  }

  /** Registering and then signing in with the same email and password
      succeeds, as that new user, on the user dashboard. */
  lemma RegisterThenLogin(users: seq<UserRecord>, hash: string -> string, form: RegisterForm)
    requires RegisterOutcome(users, hash, form).Ok?
    ensures Credentials(users + [RegisterOutcome(users, hash, form).value], hash, form.email, form.password)
         == Ok((|users|, UserHome))
  {
    var row := RegisterOutcome(users, hash, form).value;
    FindByEmailAfterAppend(users, row, form.email);
  }

  /** An email no existing user has is found at the appended row. */
  lemma {:induction false} FindByEmailAfterAppend(users: seq<UserRecord>, row: UserRecord, email: string)
    requires row.email == email
    requires forall i :: 0 <= i < |users| ==> users[i].email != email
    ensures FindUserByEmail(users + [row], email) == Some(|users|)
    decreases |users|
  {
    if users != [] {
      assert (users + [row])[1..] == users[1..] + [row];
      FindByEmailAfterAppend(users[1..], row, email);
    }
  }
}
