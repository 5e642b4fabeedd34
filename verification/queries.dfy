/**
  What the models need from the query layer: an optional value, the user
  key that rows refer to, and a queryset `filter(...)` as an order-preserving
  selection over the rows of a table.
*/
module Queries {

  datatype Option<T> = None | Some(value: T)

  /** A user's primary key, as the foreign keys to the user table hold it. */
  type UserId = nat

  /** `queryset.filter(keep)`: the rows that satisfy `keep`, in their original order. */
  function Filter<T>(rows: seq<T>, keep: T -> bool): (r: seq<T>)
    ensures |r| <= |rows|
    ensures forall k :: 0 <= k < |r| ==> r[k] in rows && keep(r[k])
    ensures forall k :: 0 <= k < |rows| && keep(rows[k]) ==> rows[k] in r
  {
    if rows == [] then []
    else if keep(rows[0]) then [rows[0]] + Filter(rows[1..], keep)
    else Filter(rows[1..], keep)
  }

  /** `r` is `rows` with some rows left out and the rest in their original order. */
  ghost predicate Subsequence<T>(r: seq<T>, rows: seq<T>)
    decreases |rows|
  {
    if r == [] then true
    else if rows == [] then false
    else (r[0] == rows[0] && Subsequence(r[1..], rows[1..])) || Subsequence(r, rows[1..])
  }

  /** A filter only drops rows: it never reorders or invents them. */
  lemma {:induction false} FilterIsSubsequence<T>(rows: seq<T>, keep: T -> bool)
    ensures Subsequence(Filter(rows, keep), rows)
  {
    if rows != [] {
      FilterIsSubsequence(rows[1..], keep);
      if keep(rows[0]) {
        assert Filter(rows, keep)[1..] == Filter(rows[1..], keep);
      }
    }
  }

  /** Filtering twice by the same test changes nothing. */
  lemma {:induction false} FilterTwice<T>(rows: seq<T>, keep: T -> bool)
    ensures Filter(Filter(rows, keep), keep) == Filter(rows, keep)
  {
    if rows != [] {
      FilterTwice(rows[1..], keep);
    }
  }

  /** Filtering keeps every row when every row passes. */
  lemma {:induction false} FilterAll<T>(rows: seq<T>, keep: T -> bool)
    requires forall k :: 0 <= k < |rows| ==> keep(rows[k])
    ensures Filter(rows, keep) == rows
  {
    if rows != [] {
      FilterAll(rows[1..], keep);
    }
  }
}
