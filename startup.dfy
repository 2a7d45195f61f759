/** Application start-up: seeding the default administrator account. */
module Startup {
  import opened Outcomes
  import opened Models
  import opened Security
  import opened AuthRoutes

  const AdminFullName := "System Administrator"

  /** The row seeding inserts into a table with next id `id`. */
  function SeedRow(sha256: Hasher, settings: Settings, id: nat): User {
    User(id, settings.adminEmail, HashPassword(sha256, settings.adminPassword), Some(AdminFullName), Admin, true)
  }

  /**
    The seeding block: when no row has ADMIN_EMAIL, exactly one is appended (the
    configured email, the digest of ADMIN_PASSWORD, "System Administrator",
    role admin, active); when one exists the table is left alone, even if that
    row is not an admin or is inactive. Either way a row with ADMIN_EMAIL exists
    afterwards.
  */
  function SeedAdmin(s: Store, sha256: Hasher, settings: Settings): (s': Store)
    ensures EmailTaken(s.rows, settings.adminEmail) ==> s' == s
    ensures !EmailTaken(s.rows, settings.adminEmail) ==>
              s' == Store(s.rows + [SeedRow(sha256, settings, s.nextId)], s.nextId + 1)
    ensures EmailTaken(s'.rows, settings.adminEmail)
  {
    if IndexOfEmail(s.rows, settings.adminEmail).Some? then s
    else
      var s' := Store(s.rows + [SeedRow(sha256, settings, s.nextId)], s.nextId + 1);
      assert s'.rows[|s.rows|].email == settings.adminEmail;
      s'
  }

  /** Starting the application twice leaves the table as starting it once. */
  lemma SeedIdempotent(s: Store, sha256: Hasher, settings: Settings)
    ensures SeedAdmin(SeedAdmin(s, sha256, settings), sha256, settings) == SeedAdmin(s, sha256, settings)
  {
  }

  /** Seeding keeps the table's constraints when ADMIN_EMAIL fits the email column. */
  lemma SeedPreservesValid(s: Store, sha256: Hasher, settings: Settings)
    requires StoreValid(s)
    requires |settings.adminEmail| <= MaxEmailLength
    ensures StoreValid(SeedAdmin(s, sha256, settings))
  {
    var s' := SeedAdmin(s, sha256, settings);
    if !EmailTaken(s.rows, settings.adminEmail) {
      assert s'.rows[|s.rows|] == SeedRow(sha256, settings, s.nextId);
      forall i, j | 0 <= i < j < |s'.rows| ensures s'.rows[i].email != s'.rows[j].email && s'.rows[i].id < s'.rows[j].id {
        if j == |s.rows| {
          assert s'.rows[i] == s.rows[i];
        }
      }
    }
  }

  /** The seeding block run against the session. */
  method SeedDefaultAdmin(db: Database, sha256: Hasher, settings: Settings)
    requires db.Valid()
    requires |settings.adminEmail| <= MaxEmailLength
    modifies db
    ensures db.Valid()
    ensures db.State() == SeedAdmin(old(db.State()), sha256, settings)
  {
    var existing := IndexOfEmail(db.rows, settings.adminEmail);
    if existing.None? {
      var _ := db.Insert(settings.adminEmail, HashPassword(sha256, settings.adminPassword),
                         Some(AdminFullName), Admin, true);
      SeedPreservesValid(old(db.State()), sha256, settings);
    }
  }

  /**
    On a table without ADMIN_EMAIL, the seeded administrator can log in with
    ADMIN_PASSWORD, and the token passes the admin dependency until it expires.
  */
  lemma SeededAdminIsAdmitted(jwt: JwtCodec, sha256: Hasher, settings: Settings, s: Store, issued: int, now: int)
    requires SoundCodec(jwt) && StoreValid(s)
    requires settings.adminEmail != "" && |settings.adminEmail| <= MaxEmailLength
    requires !EmailTaken(s.rows, settings.adminEmail)
    requires issued <= now <= ExpiryAt(settings, issued)
    ensures var seeded := SeedAdmin(s, sha256, settings);
            var login := Login(jwt, settings, sha256, seeded, UserLogin(settings.adminEmail, settings.adminPassword), issued);
            && login.Ok?
            && var auth := RequireAdmin(GetCurrentUser(jwt, seeded, Some(BearerPrefix + login.value.accessToken), now));
               auth == Ok(SeedRow(sha256, settings, s.nextId))
  {
    var seeded := SeedAdmin(s, sha256, settings);
    var u := SeedRow(sha256, settings, s.nextId);
    SeedPreservesValid(s, sha256, settings);
    assert seeded.rows[|s.rows|] == u;
    LoginOutcomes(jwt, settings, sha256, seeded, UserLogin(settings.adminEmail, settings.adminPassword), issued, u);
    IssuedTokenAuthenticates(jwt, settings, seeded, u, issued, now);
  }
}
