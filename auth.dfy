/** The `/auth` routes: registration and login. */
module AuthRoutes {
  import opened Outcomes
  import opened Models
  import opened Security

  /** The registration body (`UserCreate`). */
  datatype UserCreate = UserCreate(email: string, fullName: Option<string>, password: string)

  /** The login body (`UserLogin`). */
  datatype UserLogin = UserLogin(email: string, password: string)

  /** The login response (`Token`). */
  datatype TokenResponse = TokenResponse(accessToken: string, tokenType: string)

  const IncorrectCredentials := ApiError(401, "Incorrect email or password")
  const InactiveAccount := ApiError(400, "Inactive user account")

  /**
    What `register` does to the table and returns: an email already present is
    refused with 400 and nothing changes; otherwise exactly one row is appended,
    with the next id, the digest of the password, role user whatever the body
    says, and the column default `is_active = true`.
  */
  function Registration(s: Store, sha256: Hasher, data: UserCreate): (out: (Store, Result<User>))
    ensures out.1.Err? <==> EmailTaken(s.rows, data.email)
    ensures out.1.Err? ==> out.1.error == EmailAlreadyRegistered && out.0 == s
    ensures out.1.Ok? ==> out.0.rows == s.rows + [out.1.value] && out.0.nextId == s.nextId + 1
    ensures out.1.Ok? ==> out.1.value.id == s.nextId && out.1.value.email == data.email
    ensures out.1.Ok? ==> out.1.value.digest == HashPassword(sha256, data.password)
    ensures out.1.Ok? ==> out.1.value.fullName == data.fullName
    ensures out.1.Ok? ==> out.1.value.role == Regular && out.1.value.isActive
  {
    if IndexOfEmail(s.rows, data.email).Some? then (s, Err(EmailAlreadyRegistered))
    else
      var u := User(s.nextId, data.email, HashPassword(sha256, data.password), data.fullName, Regular, true);
      (Store(s.rows + [u], s.nextId + 1), Ok(u))
  }

  /** Registration keeps the table's constraints, in particular email uniqueness. */
  lemma RegistrationPreservesValid(s: Store, sha256: Hasher, data: UserCreate)
    requires StoreValid(s)
    requires |data.email| <= MaxEmailLength
    ensures StoreValid(Registration(s, sha256, data).0)
  {
    var out := Registration(s, sha256, data);
    if out.1.Ok? {
      var rows := out.0.rows;
      assert rows[|s.rows|] == out.1.value;
      forall i, j | 0 <= i < j < |rows| ensures rows[i].email != rows[j].email && rows[i].id < rows[j].id {
        if j == |s.rows| {
          assert rows[i] == s.rows[i];
        }
      }
    }
  }

  /**
    Registering the same email twice: the second attempt is refused with 400 and
    the row the first one created is left as it was.
  */
  lemma RegisterTwiceRejected(s: Store, sha256: Hasher, first: UserCreate, second: UserCreate)
    requires first.email == second.email
    requires !EmailTaken(s.rows, first.email)
    ensures var (s1, r1) := Registration(s, sha256, first);
            var (s2, r2) := Registration(s1, sha256, second);
            r1.Ok? && r2 == Err(EmailAlreadyRegistered) && s2 == s1 && r1.value in s2.rows
  {
    var (s1, r1) := Registration(s, sha256, first);
    assert s1.rows[|s.rows|].email == second.email;
  }

  /** `register` on the session: the table becomes what `Registration` describes. */
  method Register(db: Database, sha256: Hasher, data: UserCreate) returns (r: Result<User>)
    requires db.Valid()
    requires |data.email| <= MaxEmailLength
    modifies db
    ensures db.Valid()
    ensures (db.State(), r) == Registration(old(db.State()), sha256, data)
  {
    if IndexOfEmail(db.rows, data.email).Some? {
      return Err(EmailAlreadyRegistered);
    }
    var newUser := db.Insert(data.email, HashPassword(sha256, data.password), data.fullName, Regular, true);
    RegistrationPreservesValid(old(db.State()), sha256, data);
    r := Ok(newUser);
  }

  /**
    `login`: an unknown email or a wrong password is 401 (the same answer for
    both); only a correct password reaches the active check, which answers 400.
    Success issues a token for the stored email and the STORED role.
  */
  function Login(jwt: JwtCodec, settings: Settings, sha256: Hasher, s: Store, data: UserLogin, now: int)
    : (r: Result<TokenResponse>)
    ensures !EmailTaken(s.rows, data.email) ==> r == Err(IncorrectCredentials)
    ensures r.Err? ==> r.error == IncorrectCredentials || r.error == InactiveAccount
    ensures r.Ok? ==> r.value.tokenType == "bearer"
    ensures r.Ok? ==> exists i :: 0 <= i < |s.rows| && s.rows[i].email == data.email && SignedIn(s, s.rows[i])
  {
    match IndexOfEmail(s.rows, data.email)
    case None => Err(IncorrectCredentials)
    case Some(i) =>
      var user := s.rows[i];
      if !VerifyPassword(sha256, data.password, user.digest) then Err(IncorrectCredentials)
      else if !user.isActive then Err(InactiveAccount)
      else Ok(TokenResponse(CreateAccessToken(jwt, settings, user.email, RoleValue(user.role), now), "bearer"))
  }

  /**
    Login against the row `u` carrying the email, in a valid table: the password
    is checked before the active flag, so a wrong password on an inactive
    account still gets 401.
  */
  lemma LoginOutcomes(jwt: JwtCodec, settings: Settings, sha256: Hasher, s: Store, data: UserLogin, now: int, u: User)
    requires StoreValid(s)
    requires u in s.rows && u.email == data.email
    ensures var r := Login(jwt, settings, sha256, s, data, now);
            && (!VerifyPassword(sha256, data.password, u.digest) ==> r == Err(IncorrectCredentials))
            && (VerifyPassword(sha256, data.password, u.digest) && !u.isActive ==> r == Err(InactiveAccount))
            && (VerifyPassword(sha256, data.password, u.digest) && u.isActive ==>
                  r == Ok(TokenResponse(CreateAccessToken(jwt, settings, u.email, RoleValue(u.role), now), "bearer")))
  {
    var j :| 0 <= j < |s.rows| && s.rows[j] == u;
    EmailLookupUnique(s, u.email, j);
  }

  /**
    The token a login returns opens the guard for the same account until it
    expires (as long as the table does not change in between).
  */
  lemma LoginTokenAuthenticates(jwt: JwtCodec, settings: Settings, sha256: Hasher, s: Store, data: UserLogin,
                                issued: int, now: int)
    requires SoundCodec(jwt) && StoreValid(s)
    requires data.email != ""
    requires Login(jwt, settings, sha256, s, data, issued).Ok?
    requires issued <= now <= ExpiryAt(settings, issued)
    ensures var token := Login(jwt, settings, sha256, s, data, issued).value.accessToken;
            var auth := GetCurrentUser(jwt, s, Some(BearerPrefix + token), now);
            auth.Ok? && auth.value.email == data.email
  {
    var j :| 0 <= j < |s.rows| && s.rows[j].email == data.email && SignedIn(s, s.rows[j]);
    var u := s.rows[j];
    LoginOutcomes(jwt, settings, sha256, s, data, issued, u);
    IssuedTokenAuthenticates(jwt, settings, s, u, issued, now);
  }
}
