/**
  The tables of the blog backend: users with their role enum, categories, tags,
  blogs and the blog/tag association, together with the invariants the schema
  declares for them (primary keys, unique columns, column widths, foreign keys).
  The users table is the state every handler works on: `Store` is its value and
  `Database` the session object the mutating handlers change.
*/
module Models {
  import opened Outcomes

  /** Width of the String(255) columns (users.email, blogs.title, blogs.author). */
  const MaxEmailLength := 255
  const MaxTitleLength := 255
  /** Width of the String(100) name columns of categories and tags. */
  const MaxNameLength := 100

  /** The `user_role` enum: exactly two members. */
  datatype UserRole = Admin | Regular

  /**
    The enum's value (`UserRole.ADMIN.value` is "admin"): what a token's `role`
    claim carries and what request bodies name a role by. The database column
    itself stores the member names.
  */
  function RoleValue(r: UserRole): (v: string)
    ensures v == "admin" || v == "user"
    ensures ParseRole(v) == Some(r)
  {
    match r
    case Admin => "admin"
    case Regular => "user"
  }

  /** Reading an enum value back into the enum; any other string is refused. */
  function ParseRole(s: string): (r: Option<UserRole>)
    ensures r.Some? <==> s == "admin" || s == "user"
    ensures r == Some(Admin) <==> s == "admin"
    ensures r == Some(Regular) <==> s == "user"
  {
    if s == "admin" then Some(Admin)
    else if s == "user" then Some(Regular)
    else None
  }

  /** Distinct members have distinct values, so a role claim names one member. */
  lemma RoleValueInjective(r1: UserRole, r2: UserRole)
    ensures RoleValue(r1) == RoleValue(r2) ==> r1 == r2
  {
  }

  /**
    A row of the users table. `digest` is the stored password hash, never the
    plaintext. `fullName` may be NULL; `is_active` is declared nullable too, but
    every write sets it (default true, or a boolean from a request), so it is a
    plain `bool` here. The server-assigned timestamps are not modelled.
  */
  datatype User = User(
    id: nat,
    email: string,
    digest: string,
    fullName: Option<string>,
    role: UserRole,
    isActive: bool)

  /** The users table: rows in insertion order and the next id the database will assign. */
  datatype Store = Store(rows: seq<User>, nextId: nat)

  /** The table as `create_all` leaves it: empty, ids start at 1. */
  const EmptyStore := Store([], 1)

  /**
    The constraints of the users table: positive auto-increment primary keys
    (assigned in increasing order, so unique), unique non-null email of at most
    255 characters.
  */
  predicate StoreValid(s: Store): (b: bool)
    ensures b ==> forall i, j :: 0 <= i < |s.rows| && 0 <= j < |s.rows| && i != j ==>
                    s.rows[i].id != s.rows[j].id && s.rows[i].email != s.rows[j].email
    ensures b ==> forall i :: 0 <= i < |s.rows| ==> s.rows[i].id != s.nextId
  {
    && 0 < s.nextId
    && (forall i :: 0 <= i < |s.rows| ==> 0 < s.rows[i].id < s.nextId)
    && (forall i :: 0 <= i < |s.rows| ==> |s.rows[i].email| <= MaxEmailLength)
    && (forall i, j :: 0 <= i < j < |s.rows| ==> s.rows[i].id < s.rows[j].id)
    && (forall i, j :: 0 <= i < j < |s.rows| ==> s.rows[i].email != s.rows[j].email)
  }

  lemma EmptyStoreValid()
    ensures StoreValid(EmptyStore)
  {
  }

  /** The index of the first element satisfying `p`: a query's `.first()`. */
  function FirstIndex<T>(s: seq<T>, p: T -> bool): (r: Option<nat>)
    ensures r.Some? ==> r.value < |s| && p(s[r.value])
    ensures r.Some? ==> forall j :: 0 <= j < r.value ==> !p(s[j])
    ensures r.None? <==> forall j :: 0 <= j < |s| ==> !p(s[j])
  {
    if s == [] then None
    else if p(s[0]) then Some(0)
    else match FirstIndex(s[1..], p)
      case None => None
      case Some(k) => Some(k + 1)
  }

  /** `db.query(User).filter(User.email == email).first()`, as an index into the rows. */
  function IndexOfEmail(rows: seq<User>, email: string): (r: Option<nat>)
    ensures r.Some? ==> r.value < |rows| && rows[r.value].email == email
    ensures r.None? <==> forall j :: 0 <= j < |rows| ==> rows[j].email != email
  {
    FirstIndex(rows, (u: User) => u.email == email)
  }

  /** `db.query(User).filter(User.id == id).first()`, as an index into the rows. */
  function IndexOfId(rows: seq<User>, id: int): (r: Option<nat>)
    ensures r.Some? ==> r.value < |rows| && rows[r.value].id == id
    ensures r.None? <==> forall j :: 0 <= j < |rows| ==> rows[j].id != id
  {
    FirstIndex(rows, (u: User) => u.id == id)
  }

  /** Some row already carries this email. */
  predicate EmailTaken(rows: seq<User>, email: string) {
    exists j :: 0 <= j < |rows| && rows[j].email == email
  }

  /** Some row has this primary key. */
  predicate HasId(rows: seq<User>, id: int) {
    exists j :: 0 <= j < |rows| && rows[j].id == id
  }

  /** The 400 raised when a write would give a second row an existing email. */
  const EmailAlreadyRegistered := ApiError(400, "Email already registered")

  /** In a valid table, the row an email lookup finds is the only row with that email. */
  lemma EmailLookupUnique(s: Store, email: string, j: nat)
    requires StoreValid(s)
    requires j < |s.rows| && s.rows[j].email == email
    ensures IndexOfEmail(s.rows, email) == Some(j)
  {
    var r := IndexOfEmail(s.rows, email);
    assert r.Some?;
  }

  /** In a valid table, looking up the id of a row finds that very row. */
  lemma IdLookupFindsRow(s: Store, u: User)
    requires StoreValid(s)
    requires u in s.rows
    ensures IndexOfId(s.rows, u.id).Some?
    ensures s.rows[IndexOfId(s.rows, u.id).value] == u
  {
    var j :| 0 <= j < |s.rows| && s.rows[j] == u;
    assert IndexOfId(s.rows, u.id).Some?;
  }

  /** In a valid table, the row at index `j` is the only one with its id. */
  lemma IdUnique(s: Store, i: nat, j: nat)
    requires StoreValid(s)
    requires i < |s.rows| && j < |s.rows| && s.rows[i].id == s.rows[j].id
    ensures i == j
  {
  }

  /**
    The session object the mutating handlers work on: the users table and the
    id the database will assign to the next inserted row.
  */
  class Database {
    var rows: seq<User>
    var nextId: nat

    function State(): Store
      reads this
    {
      Store(rows, nextId)
    }

    predicate Valid()
      reads this
    {
      StoreValid(State())
    }

    /** The table right after `create_all`. */
    constructor ()
      ensures State() == EmptyStore && Valid()
    {
      rows := [];
      nextId := 1;
    }

    /**
      `db.add(row)` followed by `db.commit()`: the row is appended and receives
      the next id; nothing else changes.
    */
    method Insert(email: string, digest: string, fullName: Option<string>, role: UserRole, isActive: bool)
      returns (u: User)
      modifies this
      ensures u == User(old(nextId), email, digest, fullName, role, isActive)
      ensures rows == old(rows) + [u] && nextId == old(nextId) + 1
    {
      u := User(nextId, email, digest, fullName, role, isActive);
      rows := rows + [u];
      nextId := nextId + 1;
    }

    /** `db.commit()` after fields of the row at index `i` were assigned: only that row changes. */
    method Replace(i: nat, u: User)
      requires i < |rows|
      modifies this
      ensures rows == old(rows)[i := u] && nextId == old(nextId)
    {
      rows := rows[i := u];
    }
  }

  /** A row of the categories table. */
  datatype Category = Category(id: nat, name: string)

  /** A row of the tags table. */
  datatype Tag = Tag(id: nat, name: string)

  /** A row of the blogs table; `author` is free text, not a reference to a user. */
  datatype Blog = Blog(id: nat, title: string, author: string, categoryId: nat)

  /**
    The blog side of the schema: three tables and the `blog_tag` association,
    a set of (blog id, tag id) pairs whose composite key rules out duplicates.
  */
  datatype Catalog = Catalog(
    categories: seq<Category>,
    tags: seq<Tag>,
    blogs: seq<Blog>,
    blogTag: set<(nat, nat)>)

  predicate HasCategory(c: Catalog, id: nat) {
    exists k :: 0 <= k < |c.categories| && c.categories[k].id == id
  }

  predicate HasTag(c: Catalog, id: nat) {
    exists k :: 0 <= k < |c.tags| && c.tags[k].id == id
  }

  predicate HasBlog(c: Catalog, id: nat) {
    exists k :: 0 <= k < |c.blogs| && c.blogs[k].id == id
  }

  /**
    The declared constraints: primary keys unique; category and tag names unique,
    non-null and at most 100 characters; blog title and author at most 255
    characters; every blog's non-null `category_id` references a category; both
    columns of `blog_tag` reference existing rows.
  */
  predicate CatalogValid(c: Catalog): (b: bool)
    ensures b ==> forall i, j :: 0 <= i < |c.categories| && 0 <= j < |c.categories| && i != j ==>
                    c.categories[i].id != c.categories[j].id
    ensures b ==> forall i, j :: 0 <= i < |c.tags| && 0 <= j < |c.tags| && i != j ==>
                    c.tags[i].id != c.tags[j].id && c.tags[i].name != c.tags[j].name
  {
    && (forall i, j :: 0 <= i < j < |c.categories| ==>
          c.categories[i].id != c.categories[j].id && c.categories[i].name != c.categories[j].name)
    && (forall i :: 0 <= i < |c.categories| ==> |c.categories[i].name| <= MaxNameLength)
    && (forall i, j :: 0 <= i < j < |c.tags| ==>
          c.tags[i].id != c.tags[j].id && c.tags[i].name != c.tags[j].name)
    && (forall i :: 0 <= i < |c.tags| ==> |c.tags[i].name| <= MaxNameLength)
    && (forall i, j :: 0 <= i < j < |c.blogs| ==> c.blogs[i].id != c.blogs[j].id)
    && (forall i :: 0 <= i < |c.blogs| ==>
          |c.blogs[i].title| <= MaxTitleLength && |c.blogs[i].author| <= MaxTitleLength)
    && (forall i :: 0 <= i < |c.blogs| ==> HasCategory(c, c.blogs[i].categoryId))
    && (forall p :: p in c.blogTag ==> HasBlog(c, p.0) && HasTag(c, p.1))
  }

  /** The `Blog.category` relationship, resolved through the foreign key. */
  function CategoryOf(c: Catalog, b: Blog): (r: Option<Category>)
    ensures r.Some? ==> r.value in c.categories && r.value.id == b.categoryId
  {
    match FirstIndex(c.categories, (cat: Category) => cat.id == b.categoryId)
    case None => None
    case Some(k) => Some(c.categories[k])
  }

  /** The `Blog.tags` relationship: the ids paired with `blogId` in `blog_tag`. */
  function TagIdsOf(c: Catalog, blogId: nat): (ids: set<nat>)
    ensures forall t :: t in ids <==> (blogId, t) in c.blogTag
  {
    set p | p in c.blogTag && p.0 == blogId :: p.1
  }

  /** In a valid catalog every blog's category resolves, to the unique category with that id. */
  lemma BlogCategoryResolves(c: Catalog, b: Blog)
    requires CatalogValid(c)
    requires b in c.blogs
    ensures CategoryOf(c, b).Some?
    ensures CategoryOf(c, b).value.id == b.categoryId
    ensures forall k :: 0 <= k < |c.categories| && c.categories[k].id == b.categoryId ==>
              CategoryOf(c, b) == Some(c.categories[k])
  {
    var i :| 0 <= i < |c.blogs| && c.blogs[i] == b;
    assert HasCategory(c, b.categoryId);
    var k0 :| 0 <= k0 < |c.categories| && c.categories[k0].id == b.categoryId;
    var p := (cat: Category) => cat.id == b.categoryId;
    assert p(c.categories[k0]);
    var r := FirstIndex(c.categories, p);
    assert r.Some?;
    forall k | 0 <= k < |c.categories| && c.categories[k].id == b.categoryId
      ensures k == r.value
    {
    }
  }

  /** In a valid catalog a blog's tags are all existing tags. */
  lemma BlogTagsResolve(c: Catalog, blogId: nat)
    requires CatalogValid(c)
    ensures forall t :: t in TagIdsOf(c, blogId) ==> HasTag(c, t)
    ensures TagIdsOf(c, blogId) != {} ==> HasBlog(c, blogId)
  {
    forall t | t in TagIdsOf(c, blogId) ensures HasTag(c, t) && HasBlog(c, blogId) {
      var p :| p in c.blogTag && p.0 == blogId && p.1 == t;
    }
  }
}
