/**
  Soft deletion: rows are never removed, they are flagged. A row counts as
  deleted when its `deleted` flag is set or when a deleting user is recorded;
  the default queryset view (`all()`) shows only the rows where neither holds.
*/
module SoftDelete {

  import opened Queries

  /** The two deletion columns every soft-deleted table carries. */
  datatype Deletion = Deletion(deleted: bool, deletedBy: Option<UserId>)

  /** The row condition `deleted=False, deleted_by__isnull=True`. */
  predicate Visible(d: Deletion)
  {
    !d.deleted && d.deletedBy.None?
  }

  /** The column defaults of a freshly created row: not deleted, no deleting user. */
  function Created(): (d: Deletion)
    ensures !d.deleted && d.deletedBy == None
    ensures Visible(d)
  {
    Deletion(false, None)
  }

  /**
    `SoftDeletedQueryset.all()` over any table; `deletion` reads a row's two
    deletion columns.
  */
  function All<T>(rows: seq<T>, deletion: T -> Deletion): (r: seq<T>)
    ensures forall k :: 0 <= k < |r| ==> r[k] in rows
    ensures forall k :: 0 <= k < |r| ==> !deletion(r[k]).deleted
    ensures forall k :: 0 <= k < |r| ==> deletion(r[k]).deletedBy == None
    ensures forall k :: 0 <= k < |rows| && deletion(rows[k]).deletedBy.Some? ==> rows[k] !in r
    ensures forall k :: 0 <= k < |rows| && !deletion(rows[k]).deleted && deletion(rows[k]).deletedBy.None? ==> rows[k] in r
  {
    Filter(rows, row => Visible(deletion(row)))
  }

  /** The visible rows keep the order the table gave them. */
  lemma AllKeepsOrder<T>(rows: seq<T>, deletion: T -> Deletion)
    ensures Subsequence(All(rows, deletion), rows)
  {
    FilterIsSubsequence(rows, row => Visible(deletion(row)));
  }

  /** Applying the view twice is the same as applying it once. */
  lemma AllIdempotent<T>(rows: seq<T>, deletion: T -> Deletion)
    ensures All(All(rows, deletion), deletion) == All(rows, deletion)
  {
    FilterTwice(rows, row => Visible(deletion(row)));
  }

  /** A table where nothing was ever deleted is shown whole. */
  lemma AllOfFreshRows<T>(rows: seq<T>, deletion: T -> Deletion)
    requires forall k :: 0 <= k < |rows| ==> deletion(rows[k]) == Created()
    ensures All(rows, deletion) == rows
  {
    FilterAll(rows, row => Visible(deletion(row)));
  }
}
