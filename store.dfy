/** The MySQL database the handlers share, held in memory: the `users` and
    `denuncias` tables keyed by their auto-increment ids, the next id of
    each, and the names of the files in the uploads directory. Each handler
    runs as one atomic step against it. */
module Store {
  import opened Records

  /** No two users share a CPF. */
  ghost predicate UniqueCpf(users: map<int, User>)
  {
    forall a, b :: a in users && b in users && users[a].cpf == users[b].cpf ==> a == b
  }

  /** No two users share an e-mail. */
  ghost predicate UniqueEmail(users: map<int, User>)
  {
    forall a, b :: a in users && b in users && users[a].email == users[b].email ==> a == b
  }

  /** A reset token and its expiry are set together and cleared together. */
  ghost predicate ResetPaired(users: map<int, User>)
  {
    forall id :: id in users ==> (users[id].resetToken.Some? <==> users[id].resetExpires.Some?)
  }

  /** No two users hold the same reset token. */
  ghost predicate UniqueTokens(users: map<int, User>)
  {
    forall a, b ::
      a in users && b in users && users[a].resetToken.Some? && users[a].resetToken == users[b].resetToken
      ==> a == b
  }

  /** How many keys of the table hold the row `r`. */
  ghost function Occurrences(m: map<int, Report>, r: Report): nat
  {
    |set k | k in m && m[k] == r|
  }

  /** The keys below `n` whose row is `r`. */
  ghost function KeysOf(m: map<int, Report>, n: int, r: Report): set<int>
  {
    set k | 0 <= k < n && k in m && m[k] == r
  }

  /** The rows whose key is below `n`, in key order: what a full scan of
      the table returns. */
  function RowsBelow(m: map<int, Report>, n: nat): (rows: seq<Report>)
    ensures forall k :: 0 <= k < n && k in m ==> m[k] in rows
    ensures forall r :: r in rows ==> r in m.Values
    ensures forall r :: multiset(rows)[r] == |KeysOf(m, n, r)|
  {
    if n == 0 then []
    else
      var prefix := RowsBelow(m, n - 1);
      var last := if n - 1 in m then [m[n - 1]] else [];
      assert forall r :: multiset(prefix + last)[r] == |KeysOf(m, n, r)| by {
        forall r
          ensures multiset(prefix + last)[r] == |KeysOf(m, n, r)|
        {
          KeysOfStep(m, n, r);
        }
      }
      prefix + last
  }

  /** Raising the bound by one adds the key `n - 1` when its row is `r`. */
  lemma KeysOfStep(m: map<int, Report>, n: int, r: Report)
    ensures |KeysOf(m, n, r)| == |KeysOf(m, n - 1, r)| + (if n - 1 in m && m[n - 1] == r && 0 <= n - 1 then 1 else 0)
  {
    if n - 1 in m && m[n - 1] == r && 0 <= n - 1 {
      assert KeysOf(m, n, r) == KeysOf(m, n - 1, r) + {n - 1};
    } else {
      assert KeysOf(m, n, r) == KeysOf(m, n - 1, r);
    }
  }

  class Database {
    var users: map<int, User>
    var reports: map<int, Report>
    var nextUserId: nat
    var nextReportId: nat
    var uploads: set<string>

    /** Ids start at 1 and are below the next id; every report has an
        owner id; the uniqueness and pairing rules of the users table. */
    ghost predicate Valid()
      reads this
    {
      && 0 < nextUserId && 0 < nextReportId
      && (forall id :: id in users ==> 0 < id < nextUserId)
      && (forall id :: id in reports ==> 0 < id < nextReportId && reports[id].idUsuario != 0)
      && UniqueCpf(users) && UniqueEmail(users)
      && ResetPaired(users) && UniqueTokens(users)
    }

    /** All report rows, in key order. */
    function Rows(): (rows: seq<Report>)
      reads this
      ensures forall k :: k in reports && 0 <= k < nextReportId ==> reports[k] in rows
      ensures forall r :: r in rows ==> r in reports.Values
      ensures forall r :: multiset(rows)[r] == |KeysOf(reports, nextReportId, r)|
    {
      RowsBelow(reports, nextReportId)
    }

    /** In a valid store the scan returns each row once per key that holds
        it: the whole table and nothing else. */
    lemma ScanIsWholeTable()
      requires Valid()
      ensures forall r :: multiset(Rows())[r] == Occurrences(reports, r)
    {
      forall r
        ensures multiset(Rows())[r] == Occurrences(reports, r)
      {
        assert KeysOf(reports, nextReportId, r) == set k | k in reports && reports[k] == r;
      }
    }

    constructor ()
      ensures Valid()
      ensures users == map[] && reports == map[] && uploads == {}
    {
      users, reports := map[], map[];
      nextUserId, nextReportId := 1, 1;
      uploads := {};
    }
  }
}
