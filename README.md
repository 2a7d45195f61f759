# User accounts and access control of a FastAPI blog backend, in Dafny

This project models the account and access-control core of a small FastAPI
blog administration backend. It covers:

- the users table with its role enum and constraints, plus the declared
  constraints of the category, tag, blog and `blog_tag` tables;
- password digests and access tokens;
- the bearer-token guard (`get_current_user`) and the admin dependency
  (`require_admin`);
- registration and login;
- the caller's own profile and the admin's user management (read, list,
  update, soft delete);
- the admin dashboard statistics;
- the start-up seeding of the default administrator.

Every handler answers with `Result<T>`: either `Ok(value)` or
`Err(ApiError(status, detail))`. The error carries the HTTP status the handler
raises (400, 401, 403 or 404) and its detail text.

Layout, one module per source file:

- `outcomes.dfy` (`Outcomes`): `Option`, `ApiError`, `Result`.
- `models.dfy` (`Models`), from `app/models.py`:
  - `UserRole` and the `User` row;
  - `Store`, the users table as a value: rows in insertion order plus the next id;
  - `StoreValid`: positive increasing ids, unique emails of at most 255 characters;
  - the `.filter(...).first()` lookups;
  - the `Database` session class that the mutating handlers change;
  - the blog-side tables and `CatalogValid`.
- `security.dfy` (`Security`), from `app/user_role.py`: digests, tokens,
  `"Bearer "` stripping, the guard and the admin dependency.
- `auth.dfy` (`AuthRoutes`), from `app/routes/auth.py`: `register` and `login`.
- `users.dfy` (`UserRoutes`), from `app/routes/users.py`: profile,
  listing, read by id, admin update, soft delete.
- `admin.dfy` (`AdminRoutes`), from `app/routes/admin.py`: counts and the dashboard.
- `startup.dfy` (`Startup`), from `app/main.py` lines 14-31: administrator seeding.

How the source's shapes are rendered:

- The read-only handlers (`login`, `get_my_profile`, `get_user_by_id`,
  `list_all_users`, `admin_dashboard`) and the guard are functions of the table.
- Each handler that writes (`register`, `update_my_profile`, `update_user_admin`,
  `delete_user`, the seeding block) is two members. One is a method on a
  `Database`: it looks the row up, assigns fields one at a time, then inserts
  or replaces the row. The other is a function on `Store` saying what the
  handler does. The method's postcondition equates the new table and the
  result with that function. Lemmas about the function give the properties:
  invariant preservation, idempotence, what stays unchanged.
- The dependencies `get_current_user` and `require_admin` are the functions
  `GetCurrentUser` and `RequireAdmin`. Each handler is first modelled for a
  caller the dependency already admitted: `ProfileUpdate`, `GetUserById` and
  `Deactivation` take that row as `current`; `ListAllUsers` and
  `AdminUserUpdate` do not read it. Then an endpoint function puts the
  dependency in front of the handler: `GetMyProfile`, `ListUsersEndpoint`,
  `AdminUpdateEndpoint`, `DeleteEndpoint` and `DashboardEndpoint`.
- SHA-256 is the function parameter `sha256`. The JWT library, keyed with the
  configured secret and algorithm, is `JwtCodec(encode, decode)`. `decode`
  returns `None` for a bad signature or a malformed token. `SoundCodec` states
  what the library guarantees: a signed token decodes to its claims and
  contains no space. The clock is the parameter `now`, in whole seconds.
  python-jose rejects a token exactly when `exp < now`.
- The settings the core reads (token lifetime, admin email and password) are
  the immutable value `Settings`.

Behaviour of the code worth noting:

- Only `delete_user` refuses to act on the acting admin. `update_user_admin`
  lets an admin deactivate or demote their own row.
- Every authentication failure raises the same 401 "Invalid or missing token".
- Login answers 400, not 401, for an inactive account, but only after the
  password matched.
- The token's `role` claim is written but never read: admin rights come from
  the stored role.

## Model

| member | source | states |
|---|---|---|
| `Models.RoleValue` | app/models.py:19-21 | a member's enum value is "admin" or "user", and it parses back to that member |
| `Models.ParseRole` | app/models.py:19-21 | an enum value is accepted iff it is "admin" or "user"; "admin" gives the admin member and "user" the user member |
| `Models.RoleValueInjective` | app/models.py:19-21 | distinct members have distinct values |
| `Models.StoreValid` | app/models.py:33-45 | the users table's constraints; they make ids and emails pairwise distinct and keep the next id unused |
| `Models.EmptyStoreValid` | app/models.py:33-45 | the freshly created users table satisfies the table's constraints |
| `Models.IndexOfEmail` | app/user_role.py:55 | the email query finds a row carrying that email, and finds nothing exactly when no row carries it |
| `Models.IndexOfId` | app/routes/users.py:83 | the id query finds a row with that id, and finds nothing exactly when no row has it |
| `Models.EmailLookupUnique` | app/models.py:37 | in a valid table the row an email lookup finds is the only row with that email |
| `Models.IdLookupFindsRow` | app/models.py:36 | in a valid table looking up a row's id finds that very row |
| `Models.IdUnique` | app/models.py:36 | in a valid table two rows with the same id are the same row |
| `Models.Database.constructor` | app/main.py:11 | the table starts empty with ids starting at 1, and is valid |
| `Models.Database.Insert` | app/routes/auth.py:28-30 | add and commit append exactly the given row with the next id; nothing else changes |
| `Models.Database.Replace` | app/routes/users.py:50-51 | committing an edited row changes that row only |
| `Models.CatalogValid` | app/models.py:25-89 | the blog tables' declared constraints; they make category and tag ids, and tag names, pairwise distinct |
| `Models.TagIdsOf` | app/models.py:85-89 | a tag id belongs to a blog's tags iff the pair is in blog_tag |
| `Models.CategoryOf` | app/models.py:82-84 | a blog's category, when found, is a category row with the blog's category_id |
| `Models.BlogCategoryResolves` | app/models.py:82 | in a valid catalog every blog's category resolves, to the unique category with that id |
| `Models.BlogTagsResolve` | app/models.py:25-30 | in a valid catalog every tag paired with a blog in blog_tag is an existing tag, and the blog exists |
| `Security.HashPassword` | app/user_role.py:15-17 | the password verifies against its digest, and so does exactly every string with the same SHA-256 digest |
| `Security.VerifyPasswordExactly` | app/user_role.py:15-22 | a password verifies against its own digest and against no other string |
| `Security.CreateAccessToken` | app/user_role.py:25-29 | with a sound codec the token decodes to exactly {sub: email, role, exp: issue time + lifetime} and contains no space |
| `Security.DecodeToken` | app/user_role.py:47-53 | a token decodes iff the library accepts it and it has no exp or is not past it; the claims are the library's |
| `Security.IssuedTokenLifetime` | app/user_role.py:25-29 | an issued token carries sub = email, role = role, exp = issue time + lifetime; it decodes to exactly those claims until exp and fails afterwards |
| `Security.RemoveAllBearer` | app/user_role.py:45 | removing every "Bearer " never lengthens the header |
| `Security.RemoveSpaceFree` | app/user_role.py:45 | a string without a space comes back unchanged |
| `Security.RemoveBearerPrefix` | app/user_role.py:45 | "Bearer " + t loses exactly what t loses |
| `Security.RemoveInnerBearer` | app/user_role.py:45 | for every space-free a and every b, a + "Bearer " + b becomes a followed by b with its occurrences removed |
| `Security.ExtractToken` | app/user_role.py:45 | a header not starting with "Bearer " is the token verbatim; otherwise the token is the rest after the prefix with every further "Bearer " removed; never longer than the header |
| `Security.ExtractBearerToken` | app/user_role.py:45 | "Bearer " followed by a token without spaces yields that token |
| `Security.ExtractRemovesInnerBearer` | app/user_role.py:45 | for every space-free a and every b, the header "Bearer " + a + "Bearer " + b yields a followed by b with its occurrences removed: not only the prefix goes |
| `Security.GetCurrentUser` | app/user_role.py:32-58 | every failure is the same 401; a missing or empty header fails; success returns an active row of the table whose email is the decoded token's sub |
| `Security.GuardAdmitsExactly` | app/user_role.py:42-58 | in a valid table the guard admits a row iff the header is present and non-empty, decodes, and its non-empty sub is the email of that row, which is active |
| `Security.InactiveUserRefused` | app/user_role.py:55-57 | a token naming an inactive row never authenticates it |
| `Security.GuardIgnoresRoleClaim` | app/user_role.py:48-50 | tokens whose claims differ only in role give the same guard outcome |
| `Security.RequireAdmin` | app/user_role.py:61-65 | an authentication failure passes through unchanged; an authenticated caller passes iff the stored role is admin, else 403 |
| `Security.AdminDependency` | app/user_role.py:61-65 | the guard's 401 comes before any role check; a user-role caller gets 403; an admitted caller is an active admin row |
| `Security.IssuedTokenAuthenticates` | app/user_role.py:25-58 | "Bearer " plus a token issued for an active row resolves to that row until the token expires |
| `AuthRoutes.Registration` | app/routes/auth.py:12-31 | an email already present gives 400 and no change; otherwise exactly one row is appended: next id, given email, digest of the password, given full name, role user whatever was sent, active |
| `AuthRoutes.RegistrationPreservesValid` | app/routes/auth.py:15-30 | registration keeps ids increasing and emails unique |
| `AuthRoutes.RegisterTwiceRejected` | app/routes/auth.py:15-19 | registering an email a second time gives 400 and leaves the first registration's row untouched |
| `AuthRoutes.Register` | app/routes/auth.py:12-31 | the session's table and the answer become what Registration describes, and stay valid |
| `AuthRoutes.Login` | app/routes/auth.py:35-44 | an unknown email gives 401; failures are 401 or 400 only; success returns token_type "bearer" for an existing active row with that email |
| `AuthRoutes.LoginOutcomes` | app/routes/auth.py:37-44 | wrong password gives 401 even on an inactive account; right password on an inactive account gives 400; otherwise a token for the stored email and stored role |
| `AuthRoutes.LoginTokenAuthenticates` | app/routes/auth.py:43-44 | the token a login returns authenticates the same account until it expires |
| `UserRoutes.GetMyProfile` | app/routes/users.py:20-23 | a caller the guard admits gets exactly the row the guard resolved; every refusal is the guard's 401; the profile is an active row whose email is the token's sub |
| `UserRoutes.ProfileUpdate` | app/routes/users.py:27-52 | a new email held by another row gives 400 with no change; an email equal to the current one is no conflict; otherwise only the caller's row changes, only in email, full name and digest; None and empty password keep values; role and is_active never change |
| `UserRoutes.ProfileUpdatePreservesValid` | app/routes/users.py:34-40 | a self-update keeps emails unique |
| `UserRoutes.UpdateMyProfile` | app/routes/users.py:27-52 | the session's table and the answer become what ProfileUpdate describes, and stay valid |
| `UserRoutes.ListAllUsers` | app/routes/users.py:58-66 | the page holds min(limit, rows after skip) rows, the rows starting at offset skip, in table order |
| `UserRoutes.DefaultPage` | app/routes/users.py:59-60 | without query parameters the listing is the first 100 rows, or all rows when there are fewer |
| `UserRoutes.ListUsersEndpoint` | app/routes/users.py:57-66 | the guard's 401 passes through, a caller with stored role user gets 403, an admitted admin gets the page |
| `UserRoutes.GetUserById` | app/routes/users.py:70-89 | 403 iff a non-admin asks for another id, decided before any lookup; 404 iff the caller is allowed and no row has the id; otherwise the row with that id |
| `UserRoutes.AdminUserUpdate` | app/routes/users.py:93-130 | 404 iff the id is missing, 400 iff a new email is held by another row, both with no change; otherwise only the supplied fields of that one row change and all other rows are unchanged |
| `UserRoutes.AdminUpdateEndpoint` | app/routes/users.py:92-98 | a caller refused with 401 or 403 leaves the table unchanged; an admitted admin gets exactly AdminUserUpdate |
| `UserRoutes.AdminUserUpdatePreservesValid` | app/routes/users.py:107-114 | an admin update keeps emails unique |
| `UserRoutes.UpdateUserAdmin` | app/routes/users.py:93-130 | the session's table and the answer become what AdminUserUpdate describes, and stay valid |
| `UserRoutes.Deactivation` | app/routes/users.py:134-157 | 404 iff the id is missing, 400 iff the target is the acting admin, both with no change; otherwise the delete succeeds: the row stays and only its is_active becomes false; the message names the row's email |
| `UserRoutes.DeleteEndpoint` | app/routes/users.py:133-138 | a caller refused with 401 or 403 leaves the table unchanged; an admitted admin is the acting user of Deactivation |
| `UserRoutes.AdminCannotDeleteSelf` | app/routes/users.py:147-152 | through the dependency, no caller's delete of their own id changes the table |
| `UserRoutes.DeactivationPreservesValid` | app/routes/users.py:154-156 | a soft delete keeps the table valid |
| `UserRoutes.DeactivationIdempotent` | app/routes/users.py:154-156 | deleting the same user twice leaves the table as deleting once |
| `UserRoutes.DeleteUser` | app/routes/users.py:134-157 | the session's table and the answer become what Deactivation describes, and stay valid |
| `UserRoutes.RegisterLoginProfileScenario` | app/routes/users.py:20-23 | register a@x.com, log in, read the profile with the token: the profile is the new row, email a@x.com, role user, active |
| `AdminRoutes.Count` | app/routes/admin.py:16-19 | a count never exceeds the number of rows |
| `AdminRoutes.CountIsCardinality` | app/routes/admin.py:17-19 | a count equals the number of matching row positions |
| `AdminRoutes.CountPartition` | app/routes/admin.py:17-19 | two conditions that split every row split the count of the table |
| `AdminRoutes.CountAfterReplace` | app/routes/users.py:155-156 | replacing one row moves a count by exactly what the old and the new row contribute |
| `AdminRoutes.AdminDashboard` | app/routes/admin.py:15-30 | total is the number of rows; active, inactive, admin and user counts are the numbers of such rows; inactive = total - active is non-negative; active + inactive and admins + users both equal total |
| `AdminRoutes.DashboardEndpoint` | app/routes/admin.py:10-14 | admin-only through require_admin: 401 when the guard fails, 403 for a user-role caller, and a caller admitted with stored role admin gets the dashboard built for that caller; the table is only read |
| `AdminRoutes.DeactivationMovesOneRow` | app/routes/admin.py:16-18 | after a soft delete the total and the admin count are unchanged and the active count drops by one exactly when the target was active |
| `Startup.SeedAdmin` | app/main.py:14-31 | with ADMIN_EMAIL absent exactly one row is appended (that email, digest of ADMIN_PASSWORD, "System Administrator", admin, active); with it present nothing changes, whatever that row's role or state; afterwards a row with ADMIN_EMAIL exists |
| `Startup.SeedIdempotent` | app/main.py:16-17 | seeding twice gives the same table as seeding once |
| `Startup.SeedPreservesValid` | app/main.py:16-26 | seeding keeps the table valid |
| `Startup.SeedDefaultAdmin` | app/main.py:14-31 | the session's table becomes what SeedAdmin describes, and stays valid |
| `Startup.SeededAdminIsAdmitted` | app/main.py:18-26 | when ADMIN_EMAIL is a non-empty address in the normalized form request emails arrive in, the seeded administrator can log in with ADMIN_PASSWORD and the token passes the admin dependency |

## Left out

- The start-up block's console messages (`print` of "Admin user created" or "Admin user already exists"): output only, no effect on the table.
- SHA-256 itself: the digest is a parameter function, so "different passwords give different digests" is not modelled.
- JWT signing and verification: these are the library behind `JwtCodec`; SECRET_KEY and ALGORITHM live inside it.
- DecodeToken: does not model python-jose's checks of other registered claims (`nbf`, `iat`, `aud`), nor the rule that a non-string `sub` is refused; `decode` is taken to include them.
- Fractions of a second: `exp` is computed from `now` in whole seconds.
- Settings loading from the environment and `DATABASE_URL`: the values are passed in as `Settings`.
- SeedDefaultAdmin, SeededAdminIsAdmitted: assume ADMIN_EMAIL is an email address already in the normalized form the schemas give request emails (domain lower-cased) and at most 255 characters long. ADMIN_EMAIL is a plain setting that nothing validates. With any other value the seeded administrator could not log in, because login compares the normalized request email with the stored one exactly; the model does not capture this.
- Request-body validation by the schemas. The mutating methods assume what it guarantees: a validated email fits the 255-character column. The password `min_length=6` is not modelled, because no handler relies on it.
- Column widths of `full_name` and `hashed_password`: they are not part of the users-table invariant, since no layer before the database bounds `full_name`.
- Storage-layer failures (connection errors, constraint violations the handlers did not pre-check), which the server answers with a generic error.
- The server-assigned `created_at` and `updated_at` timestamps.
- ORM identity-map behaviour: a row is a value that a handler edits and writes back at commit, not a shared mutable object.
- Concurrency between requests, CORS, `async`, and FastAPI's dependency injection: dependencies are passed explicitly.
- The role column stores the enum's member names; the model keeps the member itself and uses the values "admin" and "user" only where the code reads or writes them as strings (token claim, request body).
- ListAllUsers: takes `skip` and `limit` as naturals; the database's handling of negative values is not modelled. Without ORDER BY the row order is the database's; the model uses insertion order.
- Blog, category and tag operations: no handler for them exists, so only the tables' declared constraints (`CatalogValid`) and the two relationships are modelled. Behaviour such as all-or-nothing tag validation and category deletion is not modelled.
- `app/routes/users.py` imports `BlogCreate` and `BlogResponse`, which the schema module does not define. The model assumes the module loads.
- The Streamlit front end and the HTTP test script.
