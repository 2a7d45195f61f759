/** The `/admin` routes: the dashboard's statistics over the users table. */
module AdminRoutes {
  import opened Outcomes
  import opened Models
  import opened Security
  import opened UserRoutes

  /** `db.query(User).filter(...).count()`: how many rows satisfy `p`. */
  function Count(rows: seq<User>, p: User -> bool): (n: nat)
    ensures n <= |rows|
  {
    if rows == [] then 0
    else Count(rows[..|rows| - 1], p) + (if p(rows[|rows| - 1]) then 1 else 0)
  }

  predicate IsActiveRow(u: User) { u.isActive }
  predicate IsInactiveRow(u: User) { !u.isActive }
  predicate IsAdminRow(u: User) { u.role == Admin }
  predicate IsUserRow(u: User) { u.role == Regular }

  /** The positions of the rows satisfying `p`: an independent reading of a count. */
  function MatchingIndices(rows: seq<User>, p: User -> bool): set<int> {
    set i | 0 <= i < |rows| && p(rows[i])
  }

  /** A count is the number of matching rows. */
  lemma {:induction false} CountIsCardinality(rows: seq<User>, p: User -> bool)
    ensures Count(rows, p) == |MatchingIndices(rows, p)|
  {
    if rows != [] {
      var n := |rows| - 1;
      var front := rows[..n];
      CountIsCardinality(front, p);
      var before := MatchingIndices(front, p);
      var after := MatchingIndices(rows, p);
      if p(rows[n]) {
        assert after == before + {n};
        assert n !in before;
      } else {
        assert after == before;
      }
    }
  }

  /** Two conditions that split every row between them split the count of the table. */
  lemma {:induction false} CountPartition(rows: seq<User>, p: User -> bool, q: User -> bool)
    requires forall k :: 0 <= k < |rows| ==> (p(rows[k]) <==> !q(rows[k]))
    ensures Count(rows, p) + Count(rows, q) == |rows|
  {
    if rows != [] {
      CountPartition(rows[..|rows| - 1], p, q);
    }
  }

  /** Replacing one row changes a count by what the old and the new row contribute. */
  lemma {:induction false} CountAfterReplace(rows: seq<User>, i: nat, u: User, p: User -> bool)
    requires i < |rows|
    ensures Count(rows[i := u], p) + (if p(rows[i]) then 1 else 0) == Count(rows, p) + (if p(u) then 1 else 0)
  {
    var n := |rows| - 1;
    if i == n {
      assert rows[i := u][..n] == rows[..n];
    } else {
      assert rows[i := u][..n] == rows[..n][i := u];
      CountAfterReplace(rows[..n], i, u, p);
    }
  }

  /** The figures of the dashboard. */
  datatype Statistics = Statistics(
    totalUsers: int,
    activeUsers: int,
    inactiveUsers: int,
    adminCount: int,
    userCount: int)

  /** The dashboard response. */
  datatype Dashboard = Dashboard(message: string, statistics: Statistics)

  /**
    `admin_dashboard`: total, active and inactive rows, admins and users. The
    active and inactive figures split the total, and so do the two roles,
    because the role column is non-null and has two values.
  */
  function AdminDashboard(s: Store, admin: User): (d: Dashboard)
    ensures d.message == "Welcome Admin " + admin.email + "!"
    ensures d.statistics.totalUsers == |s.rows|
    ensures d.statistics.activeUsers == |MatchingIndices(s.rows, IsActiveRow)|
    ensures d.statistics.inactiveUsers == |MatchingIndices(s.rows, IsInactiveRow)|
    ensures d.statistics.adminCount == |MatchingIndices(s.rows, IsAdminRow)|
    ensures d.statistics.userCount == |MatchingIndices(s.rows, IsUserRow)|
    ensures 0 <= d.statistics.inactiveUsers
    ensures d.statistics.activeUsers + d.statistics.inactiveUsers == d.statistics.totalUsers
    ensures d.statistics.adminCount + d.statistics.userCount == d.statistics.totalUsers
  {
    var total := |s.rows|;
    var active := Count(s.rows, IsActiveRow);
    CountIsCardinality(s.rows, IsActiveRow);
    CountIsCardinality(s.rows, IsInactiveRow);
    CountIsCardinality(s.rows, IsAdminRow);
    CountIsCardinality(s.rows, IsUserRow);
    CountPartition(s.rows, IsActiveRow, IsInactiveRow);
    CountPartition(s.rows, IsAdminRow, IsUserRow);
    Dashboard(
      "Welcome Admin " + admin.email + "!",
      Statistics(total, active, total - active, Count(s.rows, IsAdminRow), Count(s.rows, IsUserRow)))
  }

  /**
    The route as served: the admin dependency runs first (401 from the guard,
    then 403 for a stored role other than admin), and the dashboard is built
    for the admitted caller. The table is only read.
  */
  function DashboardEndpoint(jwt: JwtCodec, s: Store, header: Option<string>, now: int): (r: Result<Dashboard>)
    ensures GetCurrentUser(jwt, s, header, now).Err? ==> r == Err(InvalidToken)
    ensures GetCurrentUser(jwt, s, header, now).Ok? && GetCurrentUser(jwt, s, header, now).value.role == Regular ==>
              r == Err(AdminRequired)
    ensures r.Ok? ==> exists a :: SignedIn(s, a) && a.role == Admin && r.value == AdminDashboard(s, a)
    ensures var auth := GetCurrentUser(jwt, s, header, now);
            auth.Ok? && auth.value.role == Admin ==> r == Ok(AdminDashboard(s, auth.value))
  {
    match RequireAdmin(GetCurrentUser(jwt, s, header, now))
    case Err(e) => Err(e)
    case Ok(admin) => Ok(AdminDashboard(s, admin))
  }

  /**
    A successful soft delete leaves the total alone and moves exactly one row
    from active to inactive when its target was active.
  */
  lemma DeactivationMovesOneRow(s: Store, current: User, userId: int, admin: User)
    requires StoreValid(s)
    requires Deactivation(s, current, userId).1.Ok?
    ensures var before := AdminDashboard(s, admin).statistics;
            var after := AdminDashboard(Deactivation(s, current, userId).0, admin).statistics;
            && after.totalUsers == before.totalUsers
            && after.adminCount == before.adminCount
            && forall j :: 0 <= j < |s.rows| && s.rows[j].id == userId ==>
                 after.activeUsers == before.activeUsers - (if s.rows[j].isActive then 1 else 0)
  {
    var i := IndexOfId(s.rows, userId).value;
    var out := Deactivation(s, current, userId).0;
    var u := s.rows[i].(isActive := false);
    assert out.rows == s.rows[i := u];
    CountAfterReplace(s.rows, i, u, IsActiveRow);
    CountAfterReplace(s.rows, i, u, IsAdminRow);
    CountIsCardinality(s.rows, IsActiveRow);
    CountIsCardinality(out.rows, IsActiveRow);
    CountIsCardinality(s.rows, IsAdminRow);
    CountIsCardinality(out.rows, IsAdminRow);
    forall j | 0 <= j < |s.rows| && s.rows[j].id == userId ensures j == i {
      IdUnique(s, i, j);
    }
  }
}
