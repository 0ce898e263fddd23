/**
 * The read queries of the member model: the rows of one batch, the
 * distinct batch codes in ascending order, and the five most recent rows.
 *
 * SQL leaves the order of an unordered `SELECT` open; the model returns
 * rows in storage order there and states nothing about that order.
 */
module MemberQueries {
  import opened Members
  import opened LexOrder

  /** How many rows the recent-members query returns. */
  const RecentLimit: nat := 5

  /** `getMembersByBatch`: `SELECT * FROM members WHERE batch_code = $1`. */
  function GetMembersByBatch(rows: seq<Member>, batch: string): (r: seq<Member>)
    ensures forall m :: m in r ==> m.batchCode == batch
    ensures forall m: Member :: m.batchCode == batch ==> multiset(r)[m] == multiset(rows)[m]
    ensures multiset(r) <= multiset(rows)
  {
    if |rows| == 0 then []
    else
      var rest := GetMembersByBatch(rows[1..], batch);
      assert rows == [rows[0]] + rows[1..];
      if rows[0].batchCode == batch then [rows[0]] + rest else rest
  }

  /** Adds `x` to a strictly ascending list, keeping it strictly ascending and duplicate-free. */
  function InsertDistinct(x: string, xs: seq<string>): (r: seq<string>)
    requires StrictlyAscending(xs)
    ensures StrictlyAscending(r)
    ensures forall y :: y in r <==> y == x || y in xs
  {
    if |xs| == 0 then [x]
    else if x == xs[0] then xs
    else if Less(x, xs[0]) then
      assert StrictlyAscending([x] + xs) by {
        forall j | 0 < j < |xs| {
          LessTransitive(x, xs[0], xs[j]);
        }
      }
      [x] + xs
    else
      LessTotal(x, xs[0]);
      var rest := InsertDistinct(x, xs[1..]);
      assert forall y :: y in xs[1..] ==> Less(xs[0], y) by {
        forall y | y in xs[1..]
          ensures Less(xs[0], y)
        {
          var j :| 0 <= j < |xs[1..]| && xs[1..][j] == y;
          assert xs[j + 1] == y;
        }
      }
      assert xs == [xs[0]] + xs[1..];
      [xs[0]] + rest
  }

  /**
   * `getUniqueBatchCodes`: `SELECT DISTINCT batch_code ... ORDER BY batch_code`.
   * Every batch code in the table appears, nothing else does, and the
   * list is strictly ascending, so each code appears exactly once.
   */
  function GetUniqueBatchCodes(rows: seq<Member>): (r: seq<string>)
    ensures StrictlyAscending(r)
    ensures forall b :: b in r <==> exists m :: m in rows && m.batchCode == b
  {
    if |rows| == 0 then []
    else
      var rest := GetUniqueBatchCodes(rows[1..]);
      assert forall m :: m in rows <==> m == rows[0] || m in rows[1..] by {
        assert rows == [rows[0]] + rows[1..];
      }
      InsertDistinct(rows[0].batchCode, rest)
  }

  /** The listed batch codes are pairwise distinct. */
  lemma UniqueBatchCodesAreDistinct(rows: seq<Member>)
    ensures var r := GetUniqueBatchCodes(rows);
            forall i, j :: 0 <= i < j < |r| ==> r[i] != r[j]
  {
    StrictlyAscendingHasNoDuplicates(GetUniqueBatchCodes(rows));
  }

  /** Rows in non-increasing `created_at` order. */
  predicate NewestFirst(rows: seq<Member>)
  {
    forall i, j :: 0 <= i < j < |rows| ==> rows[i].createdAt >= rows[j].createdAt
  }

  /** Inserts `m` into a newest-first list before the first row no newer than it. */
  function InsertByRecency(m: Member, xs: seq<Member>): (r: seq<Member>)
    requires NewestFirst(xs)
    ensures NewestFirst(r)
    ensures multiset(r) == multiset(xs) + multiset{m}
  {
    if |xs| == 0 then [m]
    else if m.createdAt >= xs[0].createdAt then [m] + xs
    else
      var rest := InsertByRecency(m, xs[1..]);
      assert xs == [xs[0]] + xs[1..];
      assert forall y :: y in rest ==> xs[0].createdAt >= y.createdAt by {
        forall y | y in rest
          ensures xs[0].createdAt >= y.createdAt
        {
          assert y in multiset(rest);
          if y != m {
            assert y in multiset(xs[1..]);
            var j :| 0 <= j < |xs[1..]| && xs[1..][j] == y;
            assert xs[j + 1] == y;
          }
        }
      }
      [xs[0]] + rest
  }

  /** The rows sorted newest first: `ORDER BY created_at DESC`. */
  function SortByRecency(rows: seq<Member>): (r: seq<Member>)
    ensures NewestFirst(r)
    ensures multiset(r) == multiset(rows)
  {
    if |rows| == 0 then []
    else
      assert rows == [rows[0]] + rows[1..];
      InsertByRecency(rows[0], SortByRecency(rows[1..]))
  }

  /**
   * `getRecentMembers`: `ORDER BY created_at DESC LIMIT 5`. Returns as many
   * rows as the table has, up to five, newest first, and no row left out
   * is newer than any row returned.
   */
  function GetRecentMembers(rows: seq<Member>): (r: seq<Member>)
    ensures |r| == if |rows| < RecentLimit then |rows| else RecentLimit
    ensures multiset(r) <= multiset(rows)
    ensures NewestFirst(r)
    ensures forall m, k :: m in multiset(rows) - multiset(r) && 0 <= k < |r| ==> m.createdAt <= r[k].createdAt
  {
    var sorted := SortByRecency(rows);
    assert |sorted| == |multiset(sorted)| == |multiset(rows)| == |rows|;
    var n := if |rows| < RecentLimit then |rows| else RecentLimit;
    PrefixIsNewest(sorted, n);
    sorted[..n]
  }

  /** A prefix of a newest-first list holds the newest rows. */
  lemma PrefixIsNewest(sorted: seq<Member>, n: nat)
    requires NewestFirst(sorted) && n <= |sorted|
    ensures multiset(sorted[..n]) <= multiset(sorted)
    ensures NewestFirst(sorted[..n])
    ensures forall m, k :: m in multiset(sorted) - multiset(sorted[..n]) && 0 <= k < n ==> m.createdAt <= sorted[k].createdAt
  {
    assert sorted == sorted[..n] + sorted[n..];
    assert multiset(sorted) - multiset(sorted[..n]) == multiset(sorted[n..]);
    forall m, k | m in multiset(sorted[n..]) && 0 <= k < n
      ensures m.createdAt <= sorted[k].createdAt
    {
      assert m in sorted[n..];
      var j :| 0 <= j < |sorted[n..]| && sorted[n..][j] == m;
      assert sorted[n + j] == m;
    }
  }

  /** A batch code is listed exactly when asking for that batch returns some row. */
  lemma BatchListedIffMembersFound(rows: seq<Member>, batch: string)
    ensures batch in GetUniqueBatchCodes(rows) <==> |GetMembersByBatch(rows, batch)| > 0
  {
    var r := GetMembersByBatch(rows, batch);
    if batch in GetUniqueBatchCodes(rows) {
      var m :| m in rows && m.batchCode == batch;
      assert multiset(r)[m] == multiset(rows)[m] > 0;
    }
  }
}
