/** The account list behind the lab's sign-in server: registration,
    password login, the Google sign-in store step, password-reset tokens and
    the fallback for an unreadable store file.

    A request or record field that may be missing is an `Option`; missing
    fields compare equal to each other, as undefined values do in the
    server's strict comparisons. */
module UserStore {
  import opened Results

  type Text = string

  datatype User = User(
    username: Option<Text>,
    email: Option<Text>,
    password: Option<Text>,   // absent for accounts created by Google sign-in
    googleId: Option<Text>,
    createdAt: Text,
    resetToken: Option<Text>,
    resetExpires: Option<int>  // milliseconds since the epoch
  )

  type Users = seq<User>

  /** The users file: unreadable (missing or not JSON), or its user list. */
  datatype StoreFile = Unreadable | Parsed(users: Users)

  /** An unreadable store reads as an empty user list. */
  function ReadUsers(f: StoreFile): (users: Users)
    ensures f.Unreadable? ==> users == []
    ensures f.Parsed? ==> users == f.users
  {
    match f
    case Unreadable => []
    case Parsed(us) => us
  }

  /** A request field that is present and not the empty string. */
  predicate Present(x: Option<Text>) {
    x.Some? && x.value != ""
  }

  predicate UniqueEmails(users: Users) {
    forall i, j :: 0 <= i < j < |users| ==> users[i].email != users[j].email
  }

  predicate EmailTaken(users: Users, email: Option<Text>) {
    exists i :: 0 <= i < |users| && users[i].email == email
  }

  /** The first user with the given email. */
  function FindByEmail(users: Users, email: Option<Text>): (r: Option<nat>)
    ensures r.None? <==> !EmailTaken(users, email)
    ensures r.Some? ==> r.value < |users| && users[r.value].email == email
                        && forall j :: 0 <= j < r.value ==> users[j].email != email
  {
    if |users| == 0 then None
    else if users[0].email == email then Some(0)
    else match FindByEmail(users[1..], email) {
      case None =>
        assert forall i :: 1 <= i < |users| ==> users[i] == users[1..][i - 1];
        None
      case Some(i) => Some(i + 1)
    }
  }

  predicate Matches(u: User, email: Option<Text>, password: Option<Text>) {
    u.email == email && u.password == password
  }

  /** The first user whose email and password both equal the request's. */
  function FindByCredentials(users: Users, email: Option<Text>, password: Option<Text>): (r: Option<nat>)
    ensures r.None? <==> forall i :: 0 <= i < |users| ==> !Matches(users[i], email, password)
    ensures r.Some? ==> r.value < |users| && Matches(users[r.value], email, password)
                        && forall j :: 0 <= j < r.value ==> !Matches(users[j], email, password)
  {
    if |users| == 0 then None
    else if Matches(users[0], email, password) then Some(0)
    else match FindByCredentials(users[1..], email, password) {
      case None =>
        assert forall i :: 1 <= i < |users| ==> users[i] == users[1..][i - 1];
        None
      case Some(i) => Some(i + 1)
    }
  }

  datatype RegisterError = MissingFields | EmailAlreadyRegistered

  /** Registration: every field must be present; the email must be new; the
      new account is appended with its creation time `now`. */
  function Register(users: Users, username: Option<Text>, email: Option<Text>, password: Option<Text>, now: Text)
    : (r: Result<Users, RegisterError>)
    ensures r == Err(MissingFields) <==> !(Present(username) && Present(email) && Present(password))
    ensures r == Err(EmailAlreadyRegistered) <==>
              Present(username) && Present(email) && Present(password) && EmailTaken(users, email)
    ensures r.Ok? ==> r.value == users + [User(username, email, password, None, now, None, None)]
  {
    if !Present(username) || !Present(email) || !Present(password) then Err(MissingFields)
    else if exists i :: 0 <= i < |users| && users[i].email == email then Err(EmailAlreadyRegistered)
    else Ok(users + [User(username, email, password, None, now, None, None)])
  }

  /** Appending an account whose email is new keeps emails unique. */
  lemma AppendNewKeepsUnique(users: Users, u: User)
    requires UniqueEmails(users) && !EmailTaken(users, u.email)
    ensures UniqueEmails(users + [u])
  {
    var us := users + [u];
    forall i, j | 0 <= i < j < |us|
      ensures us[i].email != us[j].email
    {
      if j == |users| {
        assert us[i] == users[i];
      }
    }
  }

  lemma RegisterKeepsUnique(users: Users, username: Option<Text>, email: Option<Text>, password: Option<Text>, now: Text)
    requires UniqueEmails(users)
    ensures Register(users, username, email, password, now).Ok? ==>
              UniqueEmails(Register(users, username, email, password, now).value)
  {
    if Register(users, username, email, password, now).Ok? {
      AppendNewKeepsUnique(users, User(username, email, password, None, now, None, None));
    }
  }

  /** What a successful login reveals of the account. */
  datatype Profile = Profile(username: Option<Text>, email: Option<Text>)

  datatype LoginError = InvalidCredentials

  /** Login: the first account with this email and password, exposing only
      its username and email. */
  function Login(users: Users, email: Option<Text>, password: Option<Text>): (r: Result<Profile, LoginError>)
    ensures r.Ok? <==> exists i :: 0 <= i < |users| && Matches(users[i], email, password)
    ensures r.Ok? ==> r.value.email == email
                      && exists i :: 0 <= i < |users| && Matches(users[i], email, password)
                                     && r.value.username == users[i].username
  {
    match FindByCredentials(users, email, password) {
      case None => Err(InvalidCredentials)
      case Some(i) => Ok(Profile(users[i].username, users[i].email))
    }
  }

  /** After registering, the same email and password log in as the new
      account. */
  lemma RegisterThenLogin(users: Users, username: Option<Text>, email: Option<Text>, password: Option<Text>, now: Text)
    requires UniqueEmails(users)
    requires Register(users, username, email, password, now).Ok?
    ensures Login(Register(users, username, email, password, now).value, email, password)
            == Ok(Profile(username, email))
  {
    var us := Register(users, username, email, password, now).value;
    var k := FindByCredentials(us, email, password);
    assert Matches(us[|users|], email, password);
    assert forall j :: 0 <= j < |users| ==> us[j] == users[j] && users[j].email != email;
  }

  /** An account created by Google sign-in has no password, so a login
      request without a password field signs into it. */
  lemma GoogleAccountOpensWithoutPassword(users: Users, k: nat)
    requires k < |users| && users[k].password.None?
    ensures Login(users, users[k].email, None).Ok?
  {
    assert Matches(users[k], users[k].email, None);
  }

  /** The Google sign-in store step: an account is added only for an email
      not yet stored. */
  function StoreGoogleUser(users: Users, name: Option<Text>, email: Option<Text>, googleId: Option<Text>, now: Text)
    : (r: Users)
    ensures EmailTaken(users, email) ==> r == users
    ensures !EmailTaken(users, email) ==> r == users + [User(name, email, None, googleId, now, None, None)]
  {
    match FindByEmail(users, email) {
      case Some(_) => users
      case None => users + [User(name, email, None, googleId, now, None, None)]
    }
  }

  lemma StoreGoogleUserKeepsUnique(users: Users, name: Option<Text>, email: Option<Text>, googleId: Option<Text>, now: Text)
    requires UniqueEmails(users)
    ensures UniqueEmails(StoreGoogleUser(users, name, email, googleId, now))
    ensures EmailTaken(StoreGoogleUser(users, name, email, googleId, now), email)
  {
    var u := User(name, email, None, googleId, now, None, None);
    if !EmailTaken(users, email) {
      AppendNewKeepsUnique(users, u);
      assert (users + [u])[|users|] == u;
    }
  }

  /** A reset token lives one hour. */
  const ResetLifetime: int := 3600000

  datatype ForgotError = EmailNotFound

  /** Forgot-password: unknown emails are refused; otherwise the first
      account with the email gets the token (`token` stands for the random
      string) and an expiry one hour after `nowMs`. */
  function ForgotPassword(users: Users, email: Option<Text>, token: Text, nowMs: int): (r: Result<Users, ForgotError>)
    ensures r.Err? <==> !EmailTaken(users, email)
    ensures r.Ok? ==> |r.value| == |users|
    ensures r.Ok? ==> FindByEmail(users, email).Some?
    ensures r.Ok? ==> var k := FindByEmail(users, email).value;
                      && r.value[k] == users[k].(resetToken := Some(token), resetExpires := Some(nowMs + ResetLifetime))
                      && forall j :: 0 <= j < |users| && j != k ==> r.value[j] == users[j]
  {
    match FindByEmail(users, email) {
      case None => Err(EmailNotFound)
      case Some(k) =>
        Ok(users[k := users[k].(resetToken := Some(token), resetExpires := Some(nowMs + ResetLifetime))])
    }
  }

  /** Issuing a reset token changes neither the emails nor who can log in. */
  lemma ForgotPasswordKeepsAccounts(users: Users, email: Option<Text>, token: Text, nowMs: int,
                                    loginEmail: Option<Text>, loginPassword: Option<Text>)
    requires UniqueEmails(users)
    requires ForgotPassword(users, email, token, nowMs).Ok?
    ensures UniqueEmails(ForgotPassword(users, email, token, nowMs).value)
    ensures Login(ForgotPassword(users, email, token, nowMs).value, loginEmail, loginPassword)
            == Login(users, loginEmail, loginPassword)
  {
    var us := ForgotPassword(users, email, token, nowMs).value;
    assert forall i :: 0 <= i < |us| ==> us[i].email == users[i].email && us[i].password == users[i].password
                                         && us[i].username == users[i].username;
    SameCredentialsSameFind(us, users, loginEmail, loginPassword);
  }

  lemma {:induction false} SameCredentialsSameFind(a: Users, b: Users, email: Option<Text>, password: Option<Text>)
    requires |a| == |b|
    requires forall i :: 0 <= i < |a| ==> a[i].email == b[i].email && a[i].password == b[i].password
    ensures FindByCredentials(a, email, password) == FindByCredentials(b, email, password)
  {
    if |a| > 0 {
      SameCredentialsSameFind(a[1..], b[1..], email, password);
    }
  }
}
