/**
 * The authentication service (auth.service.ts): registration with an email
 * verification token, the verification flow, credential checking and the
 * login response, over an abstract user store. Password hashing, token
 * signing, mail delivery and the clock are parameters.
 */
module Auth {
  import opened Wrappers
  import opened Text

  datatype User = User(id: nat, email: string, password: string,
                       verificationToken: Option<string>, isEmailVerified: bool)

  /**
   * The user table: rows by email (the lookup key of findOne) and the next
   * value of the auto-increment id.
   */
  datatype Db = Db(users: map<string, User>, nextId: nat)

  /** A user row without its password hash (`const { password, ...result } = user`). */
  datatype SafeUser = SafeUser(id: nat, email: string, verificationToken: Option<string>, isEmailVerified: bool)

  datatype Payload = Payload(email: string, sub: nat)

  /**
   * bcrypt and the JWT signer. `hash` takes the salt it would draw at random;
   * `compare(plain, hashed)` is bcrypt's check.
   */
  datatype Crypto = Crypto(hash: (string, nat) -> string, compare: (string, string) -> bool,
                           sign: Payload -> string)

  /** The one property of bcrypt the service relies on: a plain text matches its own hash. */
  ghost predicate Sound(c: Crypto) {
    forall p, salt :: c.compare(p, c.hash(p, salt))
  }

  /** Rows are stored under their own email, ids are distinct and below the next id. */
  ghost predicate Valid(db: Db) {
    (forall e :: e in db.users ==> db.users[e].email == e && db.users[e].id < db.nextId)
    && (forall e1, e2 :: e1 in db.users && e2 in db.users && db.users[e1].id == db.users[e2].id ==> e1 == e2)
  }

  // ------------------------------------------------------------------ the verification token

  /** `${email}-${Date.now()}` */
  function MakeToken(email: string, now: nat): (t: string)
    ensures |t| > |email| + 1 && t[..|email|] == email && t[|email|] == '-'
    ensures forall i :: |email| < i < |t| ==> IsDigit(t[i])
    ensures var stamp := t[|email| + 1..];
      (forall i :: 0 <= i < |stamp| ==> IsDigit(stamp[i])) && DecimalValue(stamp) == now
  {
    var digits := Decimal(now);
    DecimalRoundTrip(now);
    var t := email + "-" + digits;
    assert t[|email| + 1..] == digits;
    t
  }

  const TokenRequired: string := "Token is required"
  const InvalidFormat: string := "Invalid token format"

  /** The email part of a token: everything before its last hyphen. */
  function TokenEmail(token: string): (r: Result<string, string>)
    ensures token == "" ==> r == Err(TokenRequired)
    ensures token != "" && '-' !in token ==> r == Err(InvalidFormat)
    ensures token != "" && '-' in token ==> r.Ok?
    ensures r.Ok? ==> exists i :: (0 <= i < |token| && token[i] == '-' && r.value == token[..i]
                                   && forall j :: i < j < |token| ==> token[j] != '-')
  {
    if token == "" then Err(TokenRequired)
    else
      var i := LastIndexOf(token, '-');
      if i == -1 then Err(InvalidFormat) else Ok(token[..i])
  }

  /** The token round-trip: the email comes back out whole, hyphens in it included. */
  lemma TokenRoundTrip(email: string, now: nat)
    ensures TokenEmail(MakeToken(email, now)) == Ok(email)
  {
    var t := MakeToken(email, now);
    var digits := Decimal(now);
    assert t == email + "-" + digits;
    forall j | |email| < j < |t| ensures t[j] != '-' {
      assert t[j] == digits[j - |email| - 1];
      assert IsDigit(digits[j - |email| - 1]);
    }
    assert LastIndexOf(t, '-') == |email|;
  }

  // ------------------------------------------------------------------ registration

  const Created: string := "Account created! Please check your email to verify your account."

  /** What the caller gets: the message and the new user's id and email. */
  datatype Registered = Registered(message: string, id: nat, email: string)

  /** The log line the mail attempt leaves; it never reaches the caller. */
  datatype MailLog = Sent(to: string) | SendFailed(to: string)

  /**
   * The insert's error, re-thrown to the caller. findOne looks users up with
   * findUnique on email, so email is a unique column and a second row with
   * the same email is refused.
   */
  datatype RegisterError = DuplicateEmail

  /**
   * The caller's result, the table afterwards, the plain token put in the
   * verification link of the mail (whether or not delivery succeeds), and the
   * log line of the delivery attempt.
   */
  datatype RegisterOutcome = RegisterOutcome(result: Result<Registered, RegisterError>, db: Db,
                                            linkToken: Option<string>, log: Option<MailLog>)

  /**
   * register(email, pass) at time `now`, with the two salts bcrypt draws and
   * whether the mail transport accepts the message. A duplicate email makes
   * the insert fail and the error is re-thrown.
   */
  function Register(db: Db, c: Crypto, email: string, pass: string, now: nat,
                    salt1: nat, salt2: nat, mailOk: bool): (out: RegisterOutcome)
    ensures email in db.users ==> out.result == Err(DuplicateEmail) && out.db == db && out.linkToken.None?
    ensures email !in db.users ==> out.result == Ok(Registered(Created, db.nextId, email))
    ensures email !in db.users ==>
              out.db.users == db.users[email := User(db.nextId, email, c.hash(pass, salt1),
                                                     Some(c.hash(MakeToken(email, now), salt2)), false)]
              && out.db.nextId == db.nextId + 1
    ensures email !in db.users ==> out.linkToken == Some(MakeToken(email, now))
  {
    var hashedPassword := c.hash(pass, salt1);
    var token := MakeToken(email, now);
    var hashedToken := c.hash(token, salt2);
    if email in db.users then
      RegisterOutcome(Err(DuplicateEmail), db, None, None)
    else
      var user := User(db.nextId, email, hashedPassword, Some(hashedToken), false);
      var db' := Db(db.users[email := user], db.nextId + 1);
      RegisterOutcome(Ok(Registered(Created, user.id, user.email)), db', Some(token),
                      Some(if mailOk then Sent(email) else SendFailed(email)))
  }

  /** Registration keeps the table well formed. */
  lemma RegisterValid(db: Db, c: Crypto, email: string, pass: string, now: nat, s1: nat, s2: nat, mailOk: bool)
    requires Valid(db)
    ensures Valid(Register(db, c, email, pass, now, s1, s2, mailOk).db)
  {
    var out := Register(db, c, email, pass, now, s1, s2, mailOk);
    if email !in db.users {
      forall e1, e2 | e1 in out.db.users && e2 in out.db.users && out.db.users[e1].id == out.db.users[e2].id
        ensures e1 == e2
      {
        if e1 != email && e2 != email {
          assert db.users[e1].id == db.users[e2].id;
        }
      }
    }
  }

  /** A failed mail delivery does not change what the caller gets or what is stored. */
  lemma RegisterIgnoresMail(db: Db, c: Crypto, email: string, pass: string, now: nat, s1: nat, s2: nat)
    ensures Register(db, c, email, pass, now, s1, s2, true).result == Register(db, c, email, pass, now, s1, s2, false).result
    ensures Register(db, c, email, pass, now, s1, s2, true).db == Register(db, c, email, pass, now, s1, s2, false).db
    ensures email !in db.users ==> Register(db, c, email, pass, now, s1, s2, false).log == Some(SendFailed(email))
  {
  }

  // ------------------------------------------------------------------ verification

  const InvalidLink: string := "Invalid or expired verification link."
  const AlreadyVerified: string := "Email already verified."
  const VerifiedOk: string := "Email verified successfully! You can now save workflows."

  /** A thrown BadRequestException, or the `{ success, message }` object. */
  datatype Response = BadRequest(error: string) | Reply(success: bool, message: string)

  /** usersService.update(id, { isEmailVerified: true, verificationToken: null }). */
  function MarkVerified(users: map<string, User>, id: nat): (r: map<string, User>)
    ensures r.Keys == users.Keys
    ensures forall e :: e in users && users[e].id != id ==> r[e] == users[e]
    ensures forall e :: e in users && users[e].id == id ==>
              r[e] == users[e].(isEmailVerified := true, verificationToken := None)
  {
    map e | e in users :: if users[e].id == id then users[e].(isEmailVerified := true, verificationToken := None) else users[e]
  }

  /** The stored token hash, or '' when there is none (`user.verificationToken || ''`). */
  function StoredToken(u: User): string {
    match u.verificationToken
    case Some(h) => h
    case None => ""
  }

  /** verifyEmail(token): the response and the table afterwards. */
  function VerifyEmail(db: Db, c: Crypto, token: string): (out: (Response, Db))
    ensures token == "" ==> out == (BadRequest(TokenRequired), db)
    ensures token != "" && '-' !in token ==> out == (BadRequest(InvalidFormat), db)
    ensures out.0.BadRequest? <==> TokenEmail(token).Err?
    ensures !(out.0.Reply? && out.0.success) ==> out.1 == db
    ensures out.0.Reply? && out.0.success <==>
              TokenEmail(token).Ok? && TokenEmail(token).value in db.users
              && !db.users[TokenEmail(token).value].isEmailVerified
              && c.compare(token, StoredToken(db.users[TokenEmail(token).value]))
  {
    match TokenEmail(token)
    case Err(why) => (BadRequest(why), db)
    case Ok(email) =>
      if email !in db.users then (Reply(false, InvalidLink), db)
      else
        var user := db.users[email];
        if user.isEmailVerified then (Reply(false, AlreadyVerified), db)
        else if !c.compare(token, StoredToken(user)) then (Reply(false, InvalidLink), db)
        else (Reply(true, VerifiedOk), Db(MarkVerified(db.users, user.id), db.nextId))
  }

  /**
   * The failure replies: an unknown email or a hash mismatch say the link is
   * invalid, an already verified user is told so before any hash check.
   */
  lemma VerifyEmailReplies(db: Db, c: Crypto, token: string)
    requires TokenEmail(token).Ok?
    ensures var email := TokenEmail(token).value;
      var out := VerifyEmail(db, c, token);
      (email !in db.users ==> out.0 == Reply(false, InvalidLink))
      && (email in db.users && db.users[email].isEmailVerified ==> out.0 == Reply(false, AlreadyVerified))
      && (email in db.users && !db.users[email].isEmailVerified && !c.compare(token, StoredToken(db.users[email]))
          ==> out.0 == Reply(false, InvalidLink))
      && (out.0.Reply? && out.0.success ==> out.0.message == VerifiedOk)
  {
  }

  /**
   * A successful verification marks exactly the token's user as verified and
   * drops its token; every other row is untouched and the table stays well formed.
   */
  lemma VerifySuccessEffect(db: Db, c: Crypto, token: string)
    requires Valid(db)
    requires VerifyEmail(db, c, token).0 == Reply(true, VerifiedOk)
    ensures var email := TokenEmail(token).value;
      var db' := VerifyEmail(db, c, token).1;
      db'.users.Keys == db.users.Keys && db'.nextId == db.nextId
      && db'.users[email] == db.users[email].(isEmailVerified := true, verificationToken := None)
      && (forall e :: e in db.users && e != email ==> db'.users[e] == db.users[e])
      && Valid(db')
  {
    var email := TokenEmail(token).value;
    var id := db.users[email].id;
    var db' := VerifyEmail(db, c, token).1;
    assert db'.users == MarkVerified(db.users, id);
    forall e | e in db.users && e != email ensures db'.users[e] == db.users[e] {
      assert db.users[e].id != id;
    }
  }

  /** Once a verification succeeds, any later one for the same email is refused as already verified. */
  lemma SecondVerifyFails(db: Db, c: Crypto, token: string, again: string)
    requires Valid(db)
    requires VerifyEmail(db, c, token).0 == Reply(true, VerifiedOk)
    requires TokenEmail(again) == TokenEmail(token)
    ensures VerifyEmail(VerifyEmail(db, c, token).1, c, again).0 == Reply(false, AlreadyVerified)
  {
    VerifySuccessEffect(db, c, token);
  }

  /**
   * End to end: a fresh registration followed by verification with the token
   * from the mail succeeds, with a sound bcrypt.
   */
  lemma RegisterThenVerify(db: Db, c: Crypto, email: string, pass: string, now: nat, s1: nat, s2: nat, mailOk: bool)
    requires Sound(c)
    requires email !in db.users
    ensures var reg := Register(db, c, email, pass, now, s1, s2, mailOk);
      reg.linkToken.Some?
      && VerifyEmail(reg.db, c, reg.linkToken.value).0 == Reply(true, VerifiedOk)
      && VerifyEmail(reg.db, c, reg.linkToken.value).1.users[email].isEmailVerified
  {
    var reg := Register(db, c, email, pass, now, s1, s2, mailOk);
    var token := MakeToken(email, now);
    TokenRoundTrip(email, now);
    assert c.compare(token, c.hash(token, s2));
    assert StoredToken(reg.db.users[email]) == c.hash(token, s2);
  }

  // ------------------------------------------------------------------ credentials and login

  function Strip(u: User): (r: SafeUser)
    ensures r.id == u.id && r.email == u.email && r.isEmailVerified == u.isEmailVerified
    ensures r.verificationToken == u.verificationToken
  {
    SafeUser(u.id, u.email, u.verificationToken, u.isEmailVerified)
  }

  /** validateUser(email, pass): the row minus its password iff it exists and the password matches. */
  function ValidateUser(db: Db, c: Crypto, email: string, pass: string): (r: Option<SafeUser>)
    ensures r.Some? <==> email in db.users && c.compare(pass, db.users[email].password)
    ensures r.Some? ==> r.value == Strip(db.users[email])
  {
    if email in db.users && c.compare(pass, db.users[email].password) then Some(Strip(db.users[email])) else None
  }

  datatype LoginUser = LoginUser(id: nat, email: string, isEmailVerified: bool)
  datatype LoginResponse = LoginResponse(accessToken: string, user: LoginUser)

  /** login(user): a token signed over `{ email, sub: id }` and the public part of the user. */
  function Login(c: Crypto, u: SafeUser): (r: LoginResponse)
    ensures r.accessToken == c.sign(Payload(u.email, u.id))
    ensures r.user.id == u.id && r.user.email == u.email && r.user.isEmailVerified == u.isEmailVerified
  {
    LoginResponse(c.sign(Payload(u.email, u.id)), LoginUser(u.id, u.email, u.isEmailVerified))
  }

  /**
   * validateUser followed by login: the access token is signed over the
   * stored email and id, and the user shown is that row's id, email and
   * verification flag, with neither password nor token.
   */
  lemma LoginOfValidated(db: Db, c: Crypto, email: string, pass: string)
    requires ValidateUser(db, c, email, pass).Some?
    ensures email in db.users
    ensures var row := db.users[email];
      var r := Login(c, ValidateUser(db, c, email, pass).value);
      r.accessToken == c.sign(Payload(row.email, row.id))
      && r.user == LoginUser(row.id, row.email, row.isEmailVerified)
  {
  }

  /** A fresh account accepts its own password and logs in unverified, with its new id as subject. */
  lemma RegisterThenLogin(db: Db, c: Crypto, email: string, pass: string, now: nat, s1: nat, s2: nat, mailOk: bool)
    requires Sound(c)
    requires email !in db.users
    ensures var db' := Register(db, c, email, pass, now, s1, s2, mailOk).db;
      ValidateUser(db', c, email, pass).Some?
      && Login(c, ValidateUser(db', c, email, pass).value).user == LoginUser(db.nextId, email, false)
      && Login(c, ValidateUser(db', c, email, pass).value).accessToken == c.sign(Payload(email, db.nextId))
  {
    assert c.compare(pass, c.hash(pass, s1));
  }
}
