/** The `messages` table as the handler uses it: rows are appended by an
    insert, and a query selects one user's rows in a time window, ordered by
    `created_at` ascending. Whether a call to the store fails is not decided
    here: each call is told by its caller. */
module Messages {
  import opened TimeWindow

  /** One row: `user_id`, `content` and `created_at` in epoch milliseconds. */
  datatype Row = Row(userId: string, content: string, createdAt: int)

  /** The query's filter: `eq('user_id', ...)`, `gte('created_at', start)`
      and `lte('created_at', end)`. */
  predicate Matches(row: Row, userId: string, w: Window)
  {
    row.userId == userId && InWindow(row.createdAt, w)
  }

  /** The rows that pass the filter, in table order. */
  function Select(rows: seq<Row>, userId: string, w: Window): (r: seq<Row>)
    ensures |r| <= |rows|
    ensures forall k :: 0 <= k < |r| ==> Matches(r[k], userId, w)
  {
    if |rows| == 0 then []
    else Select(rows[..|rows| - 1], userId, w)
         + (if Matches(rows[|rows| - 1], userId, w) then [rows[|rows| - 1]] else [])
  }

  /** Every matching row is selected as often as it occurs in the table, and
      nothing else is. */
  lemma {:induction false} SelectCounts(rows: seq<Row>, userId: string, w: Window, x: Row)
    ensures multiset(Select(rows, userId, w))[x] == if Matches(x, userId, w) then multiset(rows)[x] else 0
  {
    if |rows| > 0 {
      var init := rows[..|rows| - 1];
      SelectCounts(init, userId, w, x);
      assert rows == init + [rows[|rows| - 1]];
    }
  }

  /** A row is selected exactly when it is in the table and matches. */
  lemma SelectMembers(rows: seq<Row>, userId: string, w: Window, x: Row)
    ensures x in Select(rows, userId, w) <==> x in rows && Matches(x, userId, w)
  {
    SelectCounts(rows, userId, w, x);
    assert x in Select(rows, userId, w) <==> multiset(Select(rows, userId, w))[x] > 0;
  }

  // ----------------------------------------------- order by created_at asc

  predicate Ascending(rows: seq<Row>)
  {
    forall i, j :: 0 <= i < j < |rows| ==> rows[i].createdAt <= rows[j].createdAt
  }

  /** Places `row` after every row of `sorted` that is not later than it. */
  function InsertByTime(row: Row, sorted: seq<Row>): (r: seq<Row>)
    ensures multiset(r) == multiset(sorted) + multiset{row}
    ensures Ascending(sorted) ==> Ascending(r)
    ensures |r| == |sorted| + 1
    ensures forall k :: 0 <= k < |r| ==> r[k] == row || r[k] in sorted
  {
    if |sorted| == 0 then [row]
    else if row.createdAt < sorted[0].createdAt then [row] + sorted
    else
      var rest := InsertByTime(row, sorted[1..]);
      assert sorted == [sorted[0]] + sorted[1..];
      [sorted[0]] + rest
  }

  /** `order('created_at', { ascending: true })`: a permutation of the rows
      in ascending `created_at` order. Rows with equal `created_at` keep
      their table order. */
  function OrderByCreatedAt(rows: seq<Row>): (r: seq<Row>)
    ensures Ascending(r)
    ensures multiset(r) == multiset(rows)
  {
    if |rows| == 0 then []
    else
      var init := rows[..|rows| - 1];
      assert rows == init + [rows[|rows| - 1]];
      InsertByTime(rows[|rows| - 1], OrderByCreatedAt(init))
  }

  /** Ordering rows already in ascending order changes nothing. */
  lemma {:induction false} OrderByCreatedAtSorted(rows: seq<Row>)
    requires Ascending(rows)
    ensures OrderByCreatedAt(rows) == rows
  {
    if |rows| > 0 {
      var init, last := rows[..|rows| - 1], rows[|rows| - 1];
      AscendingPrefix(rows);
      OrderByCreatedAtSorted(init);
      assert OrderByCreatedAt(rows) == InsertByTime(last, init);
      InsertLast(last, init);
      assert init + [last] == rows;
    }
  }

  /** Dropping the last row of an ascending list leaves it ascending, and
      that row is not earlier than any of the others. */
  lemma AscendingPrefix(rows: seq<Row>)
    requires Ascending(rows) && |rows| > 0
    ensures Ascending(rows[..|rows| - 1])
    ensures forall k :: 0 <= k < |rows| - 1 ==> rows[k].createdAt <= rows[|rows| - 1].createdAt
  {
  }

  /** A row not earlier than every row of `sorted` goes at the end. */
  lemma {:induction false} InsertLast(row: Row, sorted: seq<Row>)
    requires forall k :: 0 <= k < |sorted| ==> sorted[k].createdAt <= row.createdAt
    ensures InsertByTime(row, sorted) == sorted + [row]
  {
    if |sorted| > 0 {
      InsertLast(row, sorted[1..]);
      assert sorted == [sorted[0]] + sorted[1..];
    }
  }

  /** The outcome of a query: the rows, or the store's error. */
  datatype QueryResult = QueryOk(rows: seq<Row>) | QueryError

  /** The rows of the `messages` table, in the order they were inserted. */
  class MessageStore {
    var rows: seq<Row>

    constructor(initial: seq<Row>)
      ensures rows == initial
    {
      rows := initial;
    }

    /** `insert([row])`: appends the row unless the store reports an error,
        in which case the table is as before. */
    method Insert(row: Row, fails: bool) returns (ok: bool)
      modifies this
      ensures ok == !fails
      ensures rows == if ok then old(rows) + [row] else old(rows)
    {
      ok := !fails;
      if ok {
        rows := rows + [row];
      }
    }

    /** The query of the two history intents: the user's rows in the window,
        ascending by `created_at`, or the store's error. Changes nothing. */
    method Query(userId: string, w: Window, fails: bool) returns (result: QueryResult)
      ensures fails <==> result.QueryError?
      ensures result.QueryOk? ==> Ascending(result.rows)
      ensures result.QueryOk? ==> forall x :: x in result.rows <==> x in rows && Matches(x, userId, w)
      ensures result.QueryOk? ==> multiset(result.rows) == multiset(Select(rows, userId, w))
      ensures result.QueryOk? ==> result.rows == OrderByCreatedAt(Select(rows, userId, w))
    {
      if fails {
        return QueryError;
      }
      var selected := Select(rows, userId, w);
      result := QueryOk(OrderByCreatedAt(selected));
      forall x
        ensures x in result.rows <==> x in rows && Matches(x, userId, w)
      {
        SelectMembers(rows, userId, w, x);
        assert x in result.rows <==> x in multiset(result.rows);
      }
    }
  }
}
