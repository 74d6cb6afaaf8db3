/**
 * The relational meaning of the object-relational mapper's queries that the
 * catalog and the user table use: a `where` filter over a table, and the
 * conversion of a query into a single row pointer.
 */
module Dbo {

  datatype Option<+T> = None | Some(value: T)

  /**
   * A query read as a single row pointer: a null pointer when no row
   * matches, the row when exactly one does, and the mapper's
   * no-unique-result exception when several do.
   */
  datatype Pointer<+T> = Null | Ptr(value: T) | NoUniqueResult

  /** No element occurs twice. */
  predicate NoDuplicates<T(==)>(s: seq<T>) {
    forall i, j :: 0 <= i < j < |s| ==> s[i] != s[j]
  }

  /** No two rows of a table carry the same key: `key` is a unique column of the table. */
  predicate UniqueKeys<T, K(==)>(rows: seq<T>, key: T -> K) {
    forall i, j :: 0 <= i < |rows| && 0 <= j < |rows| && key(rows[i]) == key(rows[j]) ==> i == j
  }

  /** A table with a unique column holds no row twice. */
  lemma UniqueKeysNoDuplicates<T, K>(rows: seq<T>, key: T -> K)
    requires UniqueKeys(rows, key)
    ensures NoDuplicates(rows)
  {
  }

  /** The condition `where("<column> = ?").bind(k)` for the column read by `key`. */
  function KeyIs<T, K(==)>(key: T -> K, k: K): T -> bool {
    (x: T) => key(x) == k
  }

  /** The rows of a table that satisfy a `where` condition, in table order. */
  function Where<T(==)>(rows: seq<T>, p: T -> bool): (r: seq<T>)
    ensures |r| <= |rows|
    ensures forall x :: x in r ==> x in rows && p(x)
    ensures forall x :: x in rows && p(x) ==> x in r
    ensures NoDuplicates(rows) ==> NoDuplicates(r)
  {
    if rows == [] then []
    else
      var rest := Where(rows[1..], p);
      if p(rows[0]) then
        assert NoDuplicates(rows) ==> rows[0] !in rows[1..];
        [rows[0]] + rest
      else rest
  }

  /** Filtering a concatenation filters each part. */
  lemma {:induction false} WhereAppend<T>(a: seq<T>, b: seq<T>, p: T -> bool)
    ensures Where(a + b, p) == Where(a, p) + Where(b, p)
  {
    if a == [] {
      assert a + b == b;
    } else {
      assert (a + b)[0] == a[0];
      assert (a + b)[1..] == a[1..] + b;
      WhereAppend(a[1..], b, p);
    }
  }

  /** Two filtered rows come from two distinct positions of the table. */
  lemma {:induction false} WhereSeveral<T>(rows: seq<T>, p: T -> bool)
    requires |Where(rows, p)| >= 2
    ensures exists i, j :: 0 <= i < j < |rows| && p(rows[i]) && p(rows[j])
  {
    var tail := rows[1..];
    if p(rows[0]) {
      var x := Where(tail, p)[0];
      assert x in Where(tail, p);
      var j :| 0 <= j < |tail| && tail[j] == x;
      assert p(rows[0]) && p(rows[j + 1]);
    } else {
      WhereSeveral(tail, p);
      var i, j :| 0 <= i < j < |tail| && p(tail[i]) && p(tail[j]);
      assert p(rows[i + 1]) && p(rows[j + 1]);
    }
  }

  /** Two matching positions of the table give two filtered rows. */
  lemma {:induction false} WhereTwo<T>(rows: seq<T>, p: T -> bool, i: nat, j: nat)
    requires i < j < |rows| && p(rows[i]) && p(rows[j])
    ensures |Where(rows, p)| >= 2
  {
    var tail := rows[1..];
    if i == 0 {
      assert tail[j - 1] == rows[j];
      assert rows[j] in Where(tail, p);
    } else {
      WhereTwo(tail, p, i - 1, j - 1);
    }
  }

  /** At most one filtered row means no two positions of the table match. */
  lemma WhereAtMostOne<T>(rows: seq<T>, p: T -> bool)
    requires |Where(rows, p)| <= 1
    ensures forall i, j :: 0 <= i < j < |rows| && p(rows[i]) ==> !p(rows[j])
  {
    forall i, j | 0 <= i < j < |rows| && p(rows[i])
      ensures !p(rows[j])
    {
      if p(rows[j]) {
        WhereTwo(rows, p, i, j);
      }
    }
  }

  /**
   * `find().where(...)` converted to a pointer: the unique matching row, a
   * null pointer on a miss, the no-unique-result exception otherwise.
   */
  function Find<T(==)>(rows: seq<T>, p: T -> bool): (r: Pointer<T>)
    ensures r.Null? <==> forall i :: 0 <= i < |rows| ==> !p(rows[i])
    ensures r.Ptr? ==> r.value in rows && p(r.value)
    ensures r.Ptr? ==> forall x :: x in rows && p(x) ==> x == r.value
    ensures r.NoUniqueResult? <==>
              exists i, j :: 0 <= i < j < |rows| && p(rows[i]) && p(rows[j])
  {
    var matches := Where(rows, p);
    if |matches| == 0 then
      WhereAtMostOne(rows, p);
      Null
    else if |matches| == 1 then
      assert matches[0] in matches;
      WhereAtMostOne(rows, p);
      Ptr(matches[0])
    else
      assert matches[0] in matches;
      WhereSeveral(rows, p);
      NoUniqueResult
  }
}
