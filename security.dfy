/**
  Credentials and access control: the password digest, the access token and
  the guard every protected handler depends on.

  SHA-256 and JWT signing are library calls outside this model. The digest
  function is a parameter (`Hasher`); the JWT library, keyed with the server's
  secret and algorithm, is a pair of functions (`JwtCodec`) whose `decode`
  returns None when the signature does not verify or the token is malformed.
  The clock is the parameter `now`, in whole seconds.
*/
module Security {
  import opened Outcomes
  import opened Models

  /** The hex digest of SHA-256 over the UTF-8 encoding of a string. */
  type Hasher = string -> string

  /**
    `hash_password`: the stored digest of a plaintext password. The password
    verifies against it, and so does exactly every string with the same digest.
  */
  function HashPassword(sha256: Hasher, password: string): (d: string)
    ensures VerifyPassword(sha256, password, d)
    ensures forall other :: VerifyPassword(sha256, other, d) <==> sha256(other) == sha256(password)
  {
    sha256(password)
  }

  /** `verify_password`: the digest of the plaintext, compared with the stored one. */
  function VerifyPassword(sha256: Hasher, plain: string, digest: string): bool {
    sha256(plain) == digest
  }

  /** A password is accepted against its own digest, and against no other string. */
  lemma VerifyPasswordExactly(sha256: Hasher, plain: string, digest: string)
    ensures VerifyPassword(sha256, plain, HashPassword(sha256, plain))
    ensures digest != HashPassword(sha256, plain) ==> !VerifyPassword(sha256, plain, digest)
  {
  }

  /** The settings the core reads: token lifetime and the seeded administrator. */
  datatype Settings = Settings(accessTokenExpireMinutes: int, adminEmail: string, adminPassword: string)

  /** A token's payload; each claim may be absent from a token someone else signed. */
  datatype Claims = Claims(sub: Option<string>, role: Option<string>, exp: Option<int>)

  /** `jwt.encode` and `jwt.decode` with the configured secret key and algorithm. */
  datatype JwtCodec = JwtCodec(encode: Claims -> string, decode: string -> Option<Claims>)

  /**
    What the JWT library guarantees of the tokens it signs: they decode to the
    claims they were made from, and, being dot-separated base64url, contain no space.
  */
  ghost predicate SoundCodec(jwt: JwtCodec) {
    forall c :: jwt.decode(jwt.encode(c)) == Some(c) && ' ' !in jwt.encode(c)
  }

  /** The expiry stamped on a token issued at `now`. */
  function ExpiryAt(settings: Settings, now: int): int {
    now + 60 * settings.accessTokenExpireMinutes
  }

  /**
    `create_access_token`: sign {sub: email, role: role, exp: now + lifetime}.
    With a sound codec the token carries exactly those claims and no space.
  */
  function CreateAccessToken(jwt: JwtCodec, settings: Settings, email: string, role: string, now: int): (token: string)
    ensures SoundCodec(jwt) ==> jwt.decode(token) == Some(Claims(Some(email), Some(role), Some(ExpiryAt(settings, now))))
    ensures SoundCodec(jwt) ==> ' ' !in token
  {
    jwt.encode(Claims(Some(email), Some(role), Some(ExpiryAt(settings, now))))
  }

  /**
    `jwt.decode(token, ...)`: fails when the signature does not verify or the
    payload is malformed, and when an `exp` claim lies in the past. A token
    without `exp` never expires.
  */
  function DecodeToken(jwt: JwtCodec, token: string, now: int): (r: Option<Claims>)
    ensures r.Some? ==> jwt.decode(token) == r
    ensures r.Some? ==> r.value.exp.None? || now <= r.value.exp.value
    ensures r.Some? <==> jwt.decode(token).Some? && (jwt.decode(token).value.exp.None? || now <= jwt.decode(token).value.exp.value)
  {
    match jwt.decode(token)
    case None => None
    case Some(c) => if c.exp.Some? && c.exp.value < now then None else Some(c)
  }

  /**
    An issued token decodes to exactly the claims it was issued with until its
    expiry, and fails from the first second after it.
  */
  lemma IssuedTokenLifetime(jwt: JwtCodec, settings: Settings, email: string, role: string, issued: int, now: int)
    requires SoundCodec(jwt)
    ensures var r := DecodeToken(jwt, CreateAccessToken(jwt, settings, email, role, issued), now);
            (r.Some? <==> now <= ExpiryAt(settings, issued))
            && (r.Some? ==> r.value == Claims(Some(email), Some(role), Some(ExpiryAt(settings, issued))))
  {
    var c := Claims(Some(email), Some(role), Some(ExpiryAt(settings, issued)));
    assert jwt.decode(jwt.encode(c)) == Some(c);
  }

  const BearerPrefix := "Bearer "

  predicate StartsWithBearer(s: string) {
    |BearerPrefix| <= |s| && s[..|BearerPrefix|] == BearerPrefix
  }

  /**
    Python's `s.replace("Bearer ", "")`: every occurrence, scanning left to
    right, is cut out, and nothing is ever added.
  */
  function RemoveAllBearer(s: string): (r: string)
    ensures |r| <= |s|
    decreases |s|
  {
    if |s| < |BearerPrefix| then s
    else if s[..|BearerPrefix|] == BearerPrefix then
      assert s[|BearerPrefix| - 1] == ' ';
      RemoveAllBearer(s[|BearerPrefix|..])
    else
      [s[0]] + RemoveAllBearer(s[1..])
  }

  /** A string without a space contains no "Bearer " and comes back unchanged. */
  lemma {:induction false} RemoveSpaceFree(s: string)
    requires ' ' !in s
    ensures RemoveAllBearer(s) == s
    decreases |s|
  {
    if |BearerPrefix| <= |s| {
      assert s[..|BearerPrefix|] != BearerPrefix by {
        assert s[..|BearerPrefix|][6] == s[6];
      }
      SpaceFreeTail(s);
      RemoveSpaceFree(s[1..]);
      assert s == [s[0]] + s[1..];
    }
  }

  /** The prefix is cut and the rest is scanned on: "Bearer " + t loses what t loses. */
  lemma RemoveBearerPrefix(t: string)
    ensures RemoveAllBearer(BearerPrefix + t) == RemoveAllBearer(t)
  {
    var s := BearerPrefix + t;
    assert s[..|BearerPrefix|] == BearerPrefix;
    assert s[|BearerPrefix|..] == t;
  }

  /** A non-empty space-free stretch before "Bearer " does not itself start with "Bearer ". */
  lemma NoPrefixBeforeBearer(a: string, b: string)
    requires a != [] && ' ' !in a
    ensures var s := a + BearerPrefix + b; |BearerPrefix| <= |s| && s[..|BearerPrefix|] != BearerPrefix
  {
    var s := a + BearerPrefix + b;
    if |a| > 6 {
      assert s[6] == a[6];
    } else {
      assert s[6] == BearerPrefix[6 - |a|];
    }
    assert s[..|BearerPrefix|][6] == s[6];
  }

  /** A string that does not start with "Bearer " keeps its first character. */
  lemma RemoveKeepsHead(head: string, rest: string)
    requires |head| == 1 && !StartsWithBearer(head + rest)
    ensures RemoveAllBearer(head + rest) == head + RemoveAllBearer(rest)
  {
    assert (head + rest)[1..] == rest;
  }

  lemma SpaceFreeTail(a: string)
    requires a != [] && ' ' !in a
    ensures ' ' !in a[1..]
  {
    assert forall k :: 0 <= k < |a[1..]| ==> a[1..][k] == a[k + 1];
  }

  /**
    Every occurrence is removed, not only a leading one: a space-free stretch
    `a` before a "Bearer " is kept and the prefix after it disappears.
  */
  lemma {:induction false} RemoveInnerBearer(a: string, b: string)
    requires ' ' !in a
    ensures RemoveAllBearer(a + BearerPrefix + b) == a + RemoveAllBearer(b)
    decreases |a|
  {
    var s := a + BearerPrefix + b;
    if a == [] {
      assert s == BearerPrefix + b;
      RemoveBearerPrefix(b);
    } else {
      var a' := a[1..];
      var rest := a' + BearerPrefix + b;
      assert a == [a[0]] + a';
      assert s == [a[0]] + rest;
      assert RemoveAllBearer(s) == [a[0]] + RemoveAllBearer(rest) by {
        NoPrefixBeforeBearer(a, b);
        RemoveKeepsHead([a[0]], rest);
      }
      assert RemoveAllBearer(rest) == a' + RemoveAllBearer(b) by {
        SpaceFreeTail(a);
        RemoveInnerBearer(a', b);
      }
    }
  }

  /**
    The token the guard decodes from a header: prefixed headers lose every
    "Bearer ", others are used verbatim; either way nothing is added.
  */
  function ExtractToken(header: string): (token: string)
    ensures |token| <= |header|
    ensures !StartsWithBearer(header) ==> token == header
    ensures StartsWithBearer(header) ==> token == RemoveAllBearer(header[|BearerPrefix|..])
  {
    if StartsWithBearer(header) then RemoveAllBearer(header) else header
  }

  /** "Bearer " followed by a token without spaces (every token the codec signs) yields that token. */
  lemma ExtractBearerToken(token: string)
    requires ' ' !in token
    ensures ExtractToken(BearerPrefix + token) == token
  {
    var h := BearerPrefix + token;
    assert h[..|BearerPrefix|] == BearerPrefix;
    assert h[|BearerPrefix|..] == token;
    RemoveSpaceFree(token);
  }

  /** Not only the prefix is removed: an inner "Bearer " disappears too. */
  lemma ExtractRemovesInnerBearer(a: string, b: string)
    requires ' ' !in a
    ensures ExtractToken(BearerPrefix + a + BearerPrefix + b) == a + RemoveAllBearer(b)
  {
    var h := BearerPrefix + a + BearerPrefix + b;
    assert h == BearerPrefix + (a + BearerPrefix + b);
    RemoveBearerPrefix(a + BearerPrefix + b);
    RemoveInnerBearer(a, b);
  }

  /** The 401 every failure of `get_current_user` raises, whatever the cause. */
  const InvalidToken := ApiError(401, "Invalid or missing token")

  /** The 403 of `require_admin`. */
  const AdminRequired := ApiError(403, "Admin access required")

  /** A caller the guard may hand to a handler: a live row of the table. */
  predicate SignedIn(s: Store, u: User) {
    u in s.rows && u.isActive
  }

  /**
    `get_current_user`: the Authorization header (None when absent) must be
    non-empty, decode to claims with a non-empty `sub`, and name the email of an
    active row; that row is returned. The `role` claim is never read.
  */
  function GetCurrentUser(jwt: JwtCodec, s: Store, header: Option<string>, now: int): (r: Result<User>)
    ensures r.Err? ==> r.error == InvalidToken
    ensures (header.None? || header.value == "") ==> r.Err?
    ensures r.Ok? ==> SignedIn(s, r.value)
    ensures r.Ok? ==> header.Some? && DecodeToken(jwt, ExtractToken(header.value), now).Some?
    ensures r.Ok? ==> DecodeToken(jwt, ExtractToken(header.value), now).value.sub == Some(r.value.email)
  {
    if header.None? || header.value == "" then Err(InvalidToken)
    else
      match DecodeToken(jwt, ExtractToken(header.value), now)
      case None => Err(InvalidToken)
      case Some(claims) =>
        if claims.sub.None? || claims.sub.value == "" then Err(InvalidToken)
        else
          match IndexOfEmail(s.rows, claims.sub.value)
          case None => Err(InvalidToken)
          case Some(i) => if !s.rows[i].isActive then Err(InvalidToken) else Ok(s.rows[i])
  }

  /**
    In a valid table the guard admits exactly the active row whose email is the
    non-empty subject of a present, non-empty, decodable header.
  */
  lemma GuardAdmitsExactly(jwt: JwtCodec, s: Store, header: Option<string>, now: int, u: User)
    requires StoreValid(s)
    ensures GetCurrentUser(jwt, s, header, now) == Ok(u) <==>
              && header.Some? && header.value != ""
              && DecodeToken(jwt, ExtractToken(header.value), now).Some?
              && DecodeToken(jwt, ExtractToken(header.value), now).value.sub == Some(u.email)
              && u.email != ""
              && SignedIn(s, u)
  {
    if header.Some? && header.value != "" && DecodeToken(jwt, ExtractToken(header.value), now).Some?
       && DecodeToken(jwt, ExtractToken(header.value), now).value.sub == Some(u.email)
       && u.email != "" && SignedIn(s, u)
    {
      var j :| 0 <= j < |s.rows| && s.rows[j] == u;
      EmailLookupUnique(s, u.email, j);
    }
  }

  /** A row that exists but is inactive is refused whatever token is presented. */
  lemma InactiveUserRefused(jwt: JwtCodec, s: Store, header: Option<string>, now: int, u: User)
    requires StoreValid(s)
    requires u in s.rows && !u.isActive
    ensures GetCurrentUser(jwt, s, header, now).Ok? ==> GetCurrentUser(jwt, s, header, now).value.email != u.email
  {
    var j :| 0 <= j < |s.rows| && s.rows[j] == u;
    EmailLookupUnique(s, u.email, j);
  }

  /**
    Two tokens whose decoded claims differ at most in `role` are treated alike:
    the guard never reads the role claim.
  */
  lemma GuardIgnoresRoleClaim(jwt1: JwtCodec, jwt2: JwtCodec, s: Store, header: string, now: int)
    requires var t := ExtractToken(header);
             && (jwt1.decode(t).Some? <==> jwt2.decode(t).Some?)
             && (jwt1.decode(t).Some? ==> jwt1.decode(t).value.(role := None) == jwt2.decode(t).value.(role := None))
    ensures GetCurrentUser(jwt1, s, Some(header), now) == GetCurrentUser(jwt2, s, Some(header), now)
  {
  }

  /**
    `require_admin`: an authentication failure passes through untouched (so a
    401 always wins over the role check); an authenticated caller whose stored
    role is not admin gets 403.
  */
  function RequireAdmin(auth: Result<User>): (r: Result<User>)
    ensures auth.Err? ==> r == auth
    ensures r.Ok? <==> auth.Ok? && auth.value.role == Admin
    ensures r.Ok? ==> r == auth
    ensures auth.Ok? && auth.value.role != Admin ==> r == Err(AdminRequired)
  {
    match auth
    case Err(_) => auth
    case Ok(u) => if u.role != Admin then Err(AdminRequired) else auth
  }

  /**
    The admin dependency in full: admitted exactly when the guard admits a row
    whose STORED role is admin; 401 when the guard refuses, 403 otherwise.
    Whatever role claim the token carries plays no part.
  */
  lemma AdminDependency(jwt: JwtCodec, s: Store, header: Option<string>, now: int)
    ensures var auth := GetCurrentUser(jwt, s, header, now);
            var r := RequireAdmin(auth);
            && (auth.Err? ==> r == Err(InvalidToken))
            && (auth.Ok? && auth.value.role == Regular ==> r == Err(AdminRequired))
            && (r.Ok? ==> SignedIn(s, r.value) && r.value.role == Admin && r == auth)
  {
  }

  /**
    A token a user obtains is honoured, until it expires, as long as the row it
    names stays active: presented as "Bearer <token>" it resolves to that row.
  */
  lemma IssuedTokenAuthenticates(jwt: JwtCodec, settings: Settings, s: Store, u: User, issued: int, now: int)
    requires SoundCodec(jwt) && StoreValid(s)
    requires SignedIn(s, u) && u.email != ""
    requires issued <= now <= ExpiryAt(settings, issued)
    ensures GetCurrentUser(jwt, s, Some(BearerPrefix + CreateAccessToken(jwt, settings, u.email, RoleValue(u.role), issued)), now)
            == Ok(u)
  {
    var c := Claims(Some(u.email), Some(RoleValue(u.role)), Some(ExpiryAt(settings, issued)));
    var token := CreateAccessToken(jwt, settings, u.email, RoleValue(u.role), issued);
    assert jwt.decode(jwt.encode(c)) == Some(c) && ' ' !in jwt.encode(c);
    ExtractBearerToken(token);
    IssuedTokenLifetime(jwt, settings, u.email, RoleValue(u.role), issued, now);
    GuardAdmitsExactly(jwt, s, Some(BearerPrefix + token), now, u);
  }
}
