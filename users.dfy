/** The `/users` routes: the caller's own profile and the admin's user management. */
module UserRoutes {
  import opened Outcomes
  import opened Models
  import opened Security
  import opened AuthRoutes

  /** The self-update body (`UserUpdate`); every field is optional. */
  datatype UserUpdate = UserUpdate(
    email: Option<string>,
    fullName: Option<string>,
    password: Option<string>,
    isActive: Option<bool>)

  /** The admin update body (`UserUpdateAdmin`): a `UserUpdate` plus an optional role. */
  datatype UserUpdateAdmin = UserUpdateAdmin(
    email: Option<string>,
    fullName: Option<string>,
    password: Option<string>,
    isActive: Option<bool>,
    role: Option<UserRole>)

  const NotAuthorizedToView := ApiError(403, "Not authorized to view this user")
  const UserNotFound := ApiError(404, "User not found")
  const CannotDeleteOwnAccount := ApiError(400, "Cannot delete your own account")

  /** Python truthiness of an optional string: present and non-empty. */
  predicate Truthy(o: Option<string>) {
    o.Some? && o.value != ""
  }

  /** The update asks for an email other than the row's current one. */
  predicate ChangesEmail(requested: Option<string>, current: string) {
    Truthy(requested) && requested.value != current
  }

  /** An update body whose email passed the schema's email validation. */
  predicate EmailShaped(requested: Option<string>) {
    requested.Some? ==> |requested.value| <= MaxEmailLength
  }

  /**
    `get_my_profile` behind `Depends(get_current_user)`: the guard's 401, or the
    caller's row exactly as stored.
  */
  function GetMyProfile(jwt: JwtCodec, s: Store, header: Option<string>, now: int): (r: Result<User>)
    ensures r.Err? ==> r == Err(InvalidToken)
    ensures r.Ok? ==> SignedIn(s, r.value)
    ensures r.Ok? ==> header.Some? && DecodeToken(jwt, ExtractToken(header.value), now).Some?
                      && DecodeToken(jwt, ExtractToken(header.value), now).value.sub == Some(r.value.email)
    ensures GetCurrentUser(jwt, s, header, now).Ok? ==> r == GetCurrentUser(jwt, s, header, now)
  {
    match GetCurrentUser(jwt, s, header, now)
    case Err(e) => Err(e)
    case Ok(current) => Ok(current)
  }

  /**
    What `update_my_profile` does: a requested email held by another row is
    refused with 400 before anything is written; otherwise only the caller's row
    changes, and in it only email, full name and digest. A missing field keeps
    its value, a missing or empty password keeps the digest, and role and
    `is_active` never change, whatever the body carries.
  */
  function ProfileUpdate(s: Store, sha256: Hasher, current: User, data: UserUpdate): (out: (Store, Result<User>))
    requires StoreValid(s) && current in s.rows
    ensures out.1.Err? <==> ChangesEmail(data.email, current.email) && EmailTaken(s.rows, data.email.value)
    ensures out.1.Err? ==> out.1.error == EmailAlreadyRegistered && out.0 == s
    ensures out.1.Ok? ==> out.1.value.id == current.id
    ensures out.1.Ok? ==> out.1.value.role == current.role && out.1.value.isActive == current.isActive
    ensures out.1.Ok? ==> out.1.value.email == if Truthy(data.email) then data.email.value else current.email
    ensures out.1.Ok? ==> out.1.value.fullName == if data.fullName.Some? then data.fullName else current.fullName
    ensures out.1.Ok? ==>
              out.1.value.digest == if Truthy(data.password) then HashPassword(sha256, data.password.value) else current.digest
    ensures out.1.Ok? ==> out.0.nextId == s.nextId && |out.0.rows| == |s.rows|
    ensures out.1.Ok? ==> forall j :: 0 <= j < |s.rows| ==>
              out.0.rows[j] == if s.rows[j].id == current.id then out.1.value else s.rows[j]
  {
    IdLookupFindsRow(s, current);
    var i := IndexOfId(s.rows, current.id).value;
    if ChangesEmail(data.email, current.email) && IndexOfEmail(s.rows, data.email.value).Some? then
      (s, Err(EmailAlreadyRegistered))
    else
      var u := current.(
        email := if Truthy(data.email) then data.email.value else current.email,
        fullName := if data.fullName.Some? then data.fullName else current.fullName,
        digest := if Truthy(data.password) then HashPassword(sha256, data.password.value) else current.digest);
      assert forall j :: 0 <= j < |s.rows| && s.rows[j].id == current.id ==> j == i by {
        forall j | 0 <= j < |s.rows| && s.rows[j].id == current.id ensures j == i {
          IdUnique(s, i, j);
        }
      }
      (Store(s.rows[i := u], s.nextId), Ok(u))
  }

  /** A self-update keeps the table's constraints, in particular email uniqueness. */
  lemma ProfileUpdatePreservesValid(s: Store, sha256: Hasher, current: User, data: UserUpdate)
    requires StoreValid(s) && current in s.rows
    requires EmailShaped(data.email)
    ensures StoreValid(ProfileUpdate(s, sha256, current, data).0)
  {
    var out := ProfileUpdate(s, sha256, current, data);
    if out.1.Ok? {
      RowUpdatePreservesValid(s, out.0, current.id, out.1.value);
    }
  }

  /**
    Replacing the row with id `id` by `u` keeps a table valid when `u` keeps the
    id and takes an email that is its old one or free.
  */
  lemma RowUpdatePreservesValid(s: Store, s': Store, id: nat, u: User)
    requires StoreValid(s)
    requires u.id == id && |u.email| <= MaxEmailLength
    requires forall j :: 0 <= j < |s.rows| && s.rows[j].id == id ==> u.email == s.rows[j].email || !EmailTaken(s.rows, u.email)
    requires s'.nextId == s.nextId && |s'.rows| == |s.rows|
    requires forall j :: 0 <= j < |s.rows| ==> s'.rows[j] == if s.rows[j].id == id then u else s.rows[j]
    ensures StoreValid(s')
  {
    forall i, j | 0 <= i < j < |s'.rows| ensures s'.rows[i].email != s'.rows[j].email {
      if s.rows[i].id == id {
        assert s.rows[j].id != id;
      } else if s.rows[j].id == id {
        assert s.rows[i].id != id;
      }
    }
  }

  /** `update_my_profile` on the session, assigning the fields one by one before the commit. */
  method UpdateMyProfile(db: Database, sha256: Hasher, current: User, data: UserUpdate) returns (r: Result<User>)
    requires db.Valid() && current in db.rows
    requires EmailShaped(data.email)
    modifies db
    ensures db.Valid()
    ensures (db.State(), r) == ProfileUpdate(old(db.State()), sha256, current, data)
  {
    ghost var before := db.State();
    IdLookupFindsRow(before, current);
    var i := IndexOfId(db.rows, current.id).value;
    var user := db.rows[i];
    if Truthy(data.email) && data.email.value != user.email {
      if IndexOfEmail(db.rows, data.email.value).Some? {
        return Err(EmailAlreadyRegistered);
      }
      user := user.(email := data.email.value);
    }
    if data.fullName.Some? {
      user := user.(fullName := data.fullName);
    }
    if Truthy(data.password) {
      user := user.(digest := HashPassword(sha256, data.password.value));
    }
    db.Replace(i, user);
    r := Ok(user);
    ProfileUpdatePreservesValid(before, sha256, current, data);
  }

  /** The query parameters' defaults of `list_all_users`. */
  const DefaultSkip: nat := 0
  const DefaultLimit: nat := 100

  /**
    `list_all_users`: the page of at most `limit` rows that starts at row
    `skip`, in table order.
  */
  function ListAllUsers(s: Store, skip: nat, limit: nat): (page: seq<User>)
    ensures |page| == if skip >= |s.rows| then 0 else if limit < |s.rows| - skip then limit else |s.rows| - skip
    ensures forall k :: 0 <= k < |page| ==> page[k] == s.rows[skip + k]
  {
    if skip >= |s.rows| then []
    else
      var rest := s.rows[skip..];
      if limit < |rest| then rest[..limit] else rest
  }

  /** Without query parameters the listing is the first hundred rows, or all of them. */
  lemma DefaultPage(s: Store)
    ensures ListAllUsers(s, DefaultSkip, DefaultLimit) == s.rows[..if |s.rows| < DefaultLimit then |s.rows| else DefaultLimit]
  {
  }

  /**
    `list_all_users` behind `Depends(require_admin)`: the guard's 401, a 403 for
    a caller whose stored role is user, otherwise the page.
  */
  function ListUsersEndpoint(jwt: JwtCodec, s: Store, header: Option<string>, now: int, skip: nat, limit: nat)
    : (r: Result<seq<User>>)
    ensures var auth := GetCurrentUser(jwt, s, header, now);
            && (auth.Err? ==> r == Err(InvalidToken))
            && (auth.Ok? && auth.value.role == Regular ==> r == Err(AdminRequired))
            && (auth.Ok? && auth.value.role == Admin ==> r == Ok(ListAllUsers(s, skip, limit)))
  {
    match RequireAdmin(GetCurrentUser(jwt, s, header, now))
    case Err(e) => Err(e)
    case Ok(_) => Ok(ListAllUsers(s, skip, limit))
  }

  /**
    `get_user_by_id`: a caller who is not an admin and asks for another id gets
    403 before any lookup; an allowed caller gets the row with that id, or 404.
  */
  function GetUserById(s: Store, current: User, userId: int): (r: Result<User>)
    ensures r == Err(NotAuthorizedToView) <==> current.role != Admin && current.id != userId
    ensures r == Err(UserNotFound) <==> (current.role == Admin || current.id == userId) && !HasId(s.rows, userId)
    ensures r.Ok? ==> r.value in s.rows && r.value.id == userId
    ensures r.Ok? || r == Err(NotAuthorizedToView) || r == Err(UserNotFound)
  {
    if current.role != Admin && current.id != userId then Err(NotAuthorizedToView)
    else
      match IndexOfId(s.rows, userId)
      case None => Err(UserNotFound)
      case Some(i) => Ok(s.rows[i])
  }

  /** The row an admin update leaves behind: only supplied fields are written. */
  function AdminEdited(u: User, sha256: Hasher, data: UserUpdateAdmin): User {
    u.(
      email := if Truthy(data.email) then data.email.value else u.email,
      fullName := if data.fullName.Some? then data.fullName else u.fullName,
      digest := if Truthy(data.password) then HashPassword(sha256, data.password.value) else u.digest,
      isActive := if data.isActive.Some? then data.isActive.value else u.isActive,
      role := if data.role.Some? then data.role.value else u.role)
  }

  /**
    What `update_user_admin` does: 404 for a missing id, 400 for an email held by
    another row, both with no change; otherwise the row with that id becomes
    `AdminEdited` of itself and every other row is unchanged. Nothing stops an
    admin from demoting or deactivating their own row here.
  */
  function AdminUserUpdate(s: Store, sha256: Hasher, userId: int, data: UserUpdateAdmin): (out: (Store, Result<User>))
    requires StoreValid(s)
    ensures out.1 == Err(UserNotFound) <==> !HasId(s.rows, userId)
    ensures out.1.Err? ==> out.0 == s
    ensures out.1.Err? ==> out.1.error == UserNotFound || out.1.error == EmailAlreadyRegistered
    ensures out.1.Ok? ==> out.0.nextId == s.nextId && |out.0.rows| == |s.rows|
    ensures forall j :: 0 <= j < |s.rows| && s.rows[j].id == userId ==>
              && (out.1.Err? <==> ChangesEmail(data.email, s.rows[j].email) && EmailTaken(s.rows, data.email.value))
              && (out.1.Ok? ==> out.1.value == AdminEdited(s.rows[j], sha256, data))
    ensures out.1.Ok? ==> forall j :: 0 <= j < |s.rows| ==>
              out.0.rows[j] == if s.rows[j].id == userId then out.1.value else s.rows[j]
  {
    match IndexOfId(s.rows, userId)
    case None => (s, Err(UserNotFound))
    case Some(i) =>
      var target := s.rows[i];
      assert forall j :: 0 <= j < |s.rows| && s.rows[j].id == userId ==> j == i by {
        forall j | 0 <= j < |s.rows| && s.rows[j].id == userId ensures j == i {
          IdUnique(s, i, j);
        }
      }
      if ChangesEmail(data.email, target.email) && IndexOfEmail(s.rows, data.email.value).Some? then
        (s, Err(EmailAlreadyRegistered))
      else
        var u := AdminEdited(target, sha256, data);
        (Store(s.rows[i := u], s.nextId), Ok(u))
  }

  /**
    `update_user_admin` behind `Depends(require_admin)`: a refused caller (401 or
    403) leaves the table alone; an admitted admin gets the update.
  */
  function AdminUpdateEndpoint(jwt: JwtCodec, s: Store, header: Option<string>, now: int,
                               sha256: Hasher, userId: int, data: UserUpdateAdmin): (out: (Store, Result<User>))
    requires StoreValid(s)
    ensures var auth := GetCurrentUser(jwt, s, header, now);
            && (auth.Err? ==> out == (s, Err(InvalidToken)))
            && (auth.Ok? && auth.value.role == Regular ==> out == (s, Err(AdminRequired)))
            && (auth.Ok? && auth.value.role == Admin ==> out == AdminUserUpdate(s, sha256, userId, data))
  {
    match RequireAdmin(GetCurrentUser(jwt, s, header, now))
    case Err(e) => (s, Err(e))
    case Ok(_) => AdminUserUpdate(s, sha256, userId, data)
  }

  /** An admin update keeps the table's constraints. */
  lemma AdminUserUpdatePreservesValid(s: Store, sha256: Hasher, userId: int, data: UserUpdateAdmin)
    requires StoreValid(s)
    requires EmailShaped(data.email)
    ensures StoreValid(AdminUserUpdate(s, sha256, userId, data).0)
  {
    var out := AdminUserUpdate(s, sha256, userId, data);
    if out.1.Ok? {
      var i := IndexOfId(s.rows, userId).value;
      RowUpdatePreservesValid(s, out.0, s.rows[i].id, out.1.value);
    }
  }

  /** `update_user_admin` on the session, assigning the supplied fields one by one before the commit. */
  method UpdateUserAdmin(db: Database, sha256: Hasher, userId: int, data: UserUpdateAdmin) returns (r: Result<User>)
    requires db.Valid()
    requires EmailShaped(data.email)
    modifies db
    ensures db.Valid()
    ensures (db.State(), r) == AdminUserUpdate(old(db.State()), sha256, userId, data)
  {
    ghost var before := db.State();
    var found := IndexOfId(db.rows, userId);
    if found.None? {
      return Err(UserNotFound);
    }
    var i := found.value;
    var user := db.rows[i];
    if Truthy(data.email) && data.email.value != user.email {
      if IndexOfEmail(db.rows, data.email.value).Some? {
        return Err(EmailAlreadyRegistered);
      }
      user := user.(email := data.email.value);
    }
    if data.fullName.Some? {
      user := user.(fullName := data.fullName);
    }
    if Truthy(data.password) {
      user := user.(digest := HashPassword(sha256, data.password.value));
    }
    if data.isActive.Some? {
      user := user.(isActive := data.isActive.value);
    }
    if data.role.Some? {
      user := user.(role := data.role.value);
    }
    db.Replace(i, user);
    r := Ok(user);
    AdminUserUpdatePreservesValid(before, sha256, userId, data);
  }

  /**
    What `delete_user` does: 404 for a missing id, 400 when the target is the
    acting admin, both with no change; otherwise a soft delete: the row stays and
    only its `is_active` becomes false.
  */
  function Deactivation(s: Store, current: User, userId: int): (out: (Store, Result<string>))
    requires StoreValid(s)
    ensures out.1 == Err(UserNotFound) <==> !HasId(s.rows, userId)
    ensures out.1 == Err(CannotDeleteOwnAccount) <==> HasId(s.rows, userId) && userId == current.id
    ensures HasId(s.rows, userId) && userId != current.id ==> out.1.Ok?
    ensures out.1.Err? ==> out.0 == s
    ensures out.1.Ok? ==> out.0.nextId == s.nextId && |out.0.rows| == |s.rows|
    ensures out.1.Ok? ==> forall j :: 0 <= j < |s.rows| ==>
              out.0.rows[j] == if s.rows[j].id == userId then s.rows[j].(isActive := false) else s.rows[j]
    ensures forall j :: 0 <= j < |s.rows| && s.rows[j].id == userId && out.1.Ok? ==>
              out.1.value == "User " + s.rows[j].email + " has been deactivated"
  {
    match IndexOfId(s.rows, userId)
    case None => (s, Err(UserNotFound))
    case Some(i) =>
      var target := s.rows[i];
      assert forall j :: 0 <= j < |s.rows| && s.rows[j].id == userId ==> j == i by {
        forall j | 0 <= j < |s.rows| && s.rows[j].id == userId ensures j == i {
          IdUnique(s, i, j);
        }
      }
      if target.id == current.id then (s, Err(CannotDeleteOwnAccount))
      else (Store(s.rows[i := target.(isActive := false)], s.nextId), Ok("User " + target.email + " has been deactivated"))
  }

  /**
    `delete_user` behind `Depends(require_admin)`: a refused caller (401 or 403)
    leaves the table alone; an admitted admin is the acting user the soft delete
    compares the target with.
  */
  function DeleteEndpoint(jwt: JwtCodec, s: Store, header: Option<string>, now: int, userId: int)
    : (out: (Store, Result<string>))
    requires StoreValid(s)
    ensures var auth := GetCurrentUser(jwt, s, header, now);
            && (auth.Err? ==> out == (s, Err(InvalidToken)))
            && (auth.Ok? && auth.value.role == Regular ==> out == (s, Err(AdminRequired)))
            && (auth.Ok? && auth.value.role == Admin ==> out == Deactivation(s, auth.value, userId))
  {
    match RequireAdmin(GetCurrentUser(jwt, s, header, now))
    case Err(e) => (s, Err(e))
    case Ok(admin) => Deactivation(s, admin, userId)
  }

  /** Through the dependency, no admin can soft-delete their own row. */
  lemma AdminCannotDeleteSelf(jwt: JwtCodec, s: Store, header: Option<string>, now: int)
    requires StoreValid(s)
    ensures var auth := GetCurrentUser(jwt, s, header, now);
            auth.Ok? ==> DeleteEndpoint(jwt, s, header, now, auth.value.id).0 == s
  {
    var auth := GetCurrentUser(jwt, s, header, now);
    if auth.Ok? && auth.value.role == Admin {
      var j :| 0 <= j < |s.rows| && s.rows[j] == auth.value;
      assert HasId(s.rows, auth.value.id);
    }
  }

  /** A soft delete keeps the table's constraints. */
  lemma DeactivationPreservesValid(s: Store, current: User, userId: int)
    requires StoreValid(s)
    ensures StoreValid(Deactivation(s, current, userId).0)
  {
    var out := Deactivation(s, current, userId);
    if out.1.Ok? {
      var i := IndexOfId(s.rows, userId).value;
      RowUpdatePreservesValid(s, out.0, s.rows[i].id, s.rows[i].(isActive := false));
    }
  }

  /** Deleting the same user twice leaves the table as deleting once. */
  lemma DeactivationIdempotent(s: Store, current: User, userId: int)
    requires StoreValid(s)
    ensures var once := Deactivation(s, current, userId).0;
            StoreValid(once) && Deactivation(once, current, userId).0 == once
  {
    DeactivationPreservesValid(s, current, userId);
    var once := Deactivation(s, current, userId).0;
    var twice := Deactivation(once, current, userId).0;
    if Deactivation(s, current, userId).1.Ok? && Deactivation(once, current, userId).1.Ok? {
      assert twice.rows == once.rows;
    }
  }

  /** `delete_user` on the session. */
  method DeleteUser(db: Database, current: User, userId: int) returns (r: Result<string>)
    requires db.Valid()
    modifies db
    ensures db.Valid()
    ensures (db.State(), r) == Deactivation(old(db.State()), current, userId)
  {
    ghost var before := db.State();
    var found := IndexOfId(db.rows, userId);
    if found.None? {
      return Err(UserNotFound);
    }
    var i := found.value;
    var user := db.rows[i];
    if user.id == current.id {
      return Err(CannotDeleteOwnAccount);
    }
    user := user.(isActive := false);
    db.Replace(i, user);
    r := Ok("User " + user.email + " has been deactivated");
    DeactivationPreservesValid(before, current, userId);
  }

  /**
    Register "a@x.com" with password "secret1", log in, and read the profile
    with the token: the profile is the new row, with that email, role user and
    active.
  */
  lemma RegisterLoginProfileScenario(jwt: JwtCodec, settings: Settings, sha256: Hasher, s: Store, issued: int, now: int)
    requires SoundCodec(jwt) && StoreValid(s)
    requires !EmailTaken(s.rows, "a@x.com")
    requires issued <= now <= ExpiryAt(settings, issued)
    ensures var (s1, reg) := Registration(s, sha256, UserCreate("a@x.com", None, "secret1"));
            var login := Login(jwt, settings, sha256, s1, UserLogin("a@x.com", "secret1"), issued);
            && reg.Ok? && login.Ok?
            && GetMyProfile(jwt, s1, Some(BearerPrefix + login.value.accessToken), now) == Ok(reg.value)
            && reg.value.email == "a@x.com" && reg.value.role == Regular && reg.value.isActive
  {
    var data := UserCreate("a@x.com", None, "secret1");
    RegistrationPreservesValid(s, sha256, data);
    var (s1, reg) := Registration(s, sha256, data);
    var u := reg.value;
    assert s1.rows[|s.rows|] == u;
    LoginOutcomes(jwt, settings, sha256, s1, UserLogin("a@x.com", "secret1"), issued, u);
    IssuedTokenAuthenticates(jwt, settings, s1, u, issued, now);
  }
}
