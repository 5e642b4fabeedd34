/**
  A user's ratings and ordered bookmark list.

  Every user keeps at most one rating per POI, a score in 0..10, and at most
  one bookmark per POI; a bookmark's `order` is its 1-based position in the
  user's list, and the orders are kept dense (1..N, no two alike). The
  operations change the user's rows in place, one step at a time, with bulk
  `update(order=F('order') +/- 1)` statements in between; each is proved to
  keep the rows dense and to be the list operation it stands for.
*/
module Accounts {

  import opened Queries
  import opened Orders

  /** A bookmark row as a caller holds it: owner, POI and the order it was read with. */
  datatype BookmarkRow = BookmarkRow(user: UserId, poi: PoiId, order: nat)

  /** `max(0, min(10, score))`: the score a rating stores. */
  function Clamp(score: int): (r: int)
    ensures 0 <= r <= 10
    ensures 0 <= score <= 10 ==> r == score
    ensures score < 0 ==> r == 0
    ensures score > 10 ==> r == 10
  {
    var capped := if score < 10 then score else 10;
    if capped > 0 then capped else 0
  }

  /** A stored score is its own clamp: re-rating a POI with the score it already stores stores that score unchanged. */
  lemma ClampIdempotent(score: int)
    ensures Clamp(Clamp(score)) == Clamp(score)
  {
  }

  /**
    How a call that reaches a `filter(order_gt=...)` ends: it returns
    normally (`unbookmark` of a POI with no bookmark, telling that nothing was
    removed), or it raises FieldError, with the rows as the steps before the
    lookup left them.
  */
  datatype Attempt =
    | Returned(removed: bool, rows: map<PoiId, nat>)
    | RaisedFieldError(rows: map<PoiId, nat>)

  /**
    `unbookmark` as written: `filter(order_gt=...)` names no field of
    Bookmark, so the filter raises FieldError after the row has been deleted
    and before any order is decremented.
  */
  function UnbookmarkAsWritten(m: map<PoiId, nat>, poi: PoiId): (a: Attempt)
    ensures poi !in m ==> a == Returned(false, m)
    ensures poi in m ==> a.RaisedFieldError? && a.rows.Keys == m.Keys - {poi}
    ensures poi in m ==> forall q :: q in a.rows ==> a.rows[q] == m[q]
  {
    if poi in m then RaisedFieldError(m - {poi}) else Returned(false, m)
  }

  /** Unbookmarking anything but the last bookmark, as written, leaves a gap in the orders. */
  lemma UnbookmarkAsWrittenLeavesGap(m: map<PoiId, nat>, s: seq<PoiId>, i: nat)
    requires Represents(m, s) && i + 1 < |s|
    ensures UnbookmarkAsWritten(m, s[i]).RaisedFieldError?
    ensures !Dense(UnbookmarkAsWritten(m, s[i]).rows)
  {
    RepresentsIsDense(m, s);
    RemoveKeyCard(m, s[i]);
    var last := s[|s| - 1];
    assert last != s[i];
    assert last in m - {s[i]} && (m - {s[i]})[last] == |m|;
  }

  /**
    `_popout` as written: the row is parked at order 0 and saved, then the
    `filter(order_gt=...)` raises FieldError before any order is decremented.
  */
  function PopOutAsWritten(m: map<PoiId, nat>, p: PoiId): (a: Attempt)
    requires p in m
    ensures a.RaisedFieldError? && a.rows.Keys == m.Keys && a.rows[p] == 0
    ensures forall q :: q in m && q != p ==> a.rows[q] == m[q]
  {
    RaisedFieldError(m[p := 0])
  }

  /**
    Every move that passes the ownership checks, as written, raises after
    parking the row at order 0 (both branches start with `_popout`): the
    orders are no longer dense, and the moved bookmark now sorts ahead of all
    the others.
  */
  lemma MoveAsWrittenLeavesOrderZero(m: map<PoiId, nat>, s: seq<PoiId>, p: PoiId)
    requires Represents(m, s) && p in m
    ensures !Dense(PopOutAsWritten(m, p).rows)
    ensures forall q :: q in m && q != p ==> PopOutAsWritten(m, p).rows[q] > PopOutAsWritten(m, p).rows[p]
  {
    var rows := PopOutAsWritten(m, p).rows;
    assert rows[p] == 0;
    forall q | q in m && q != p
      ensures rows[q] > 0
    {
      RepresentsIndex(m, s, q);
    }
  }

  /** Every stored score is within 0..10, as the score column's validator demands. */
  predicate ScoresInRange(ratings: map<PoiId, int>)
  {
    forall p :: p in ratings ==> 0 <= ratings[p] <= 10
  }

  class User {
    const id: UserId
    /** The user's bookmark rows: POI to order. */
    var bookmarks: map<PoiId, nat>
    /** The user's rating rows: POI to score. */
    var ratings: map<PoiId, int>
    /** The bookmarked POIs in list order: `List[i]` has order i + 1. */
    ghost var List: seq<PoiId>

    ghost predicate Valid()
      reads this
    {
      && Represents(bookmarks, List)
      && ScoresInRange(ratings)
    }

    /** The rows of a valid user are dense: orders 1..N, none shared. */
    lemma ValidIsDense()
      requires Valid()
      ensures Dense(bookmarks)
    {
      RepresentsIsDense(bookmarks, List);
    }

    constructor (id: UserId)
      ensures Valid()
      ensures this.id == id && bookmarks == map[] && ratings == map[] && List == []
    {
      this.id := id;
      bookmarks, ratings := map[], map[];
      List := [];
    }

    /**
      `aggregate(max=Max('order'))['max'] or 0`: the largest order among the
      user's bookmarks, 0 when there are none.
    */
    method MaxOrder() returns (max: nat)
      ensures forall p :: p in bookmarks ==> bookmarks[p] <= max
      ensures bookmarks == map[] ==> max == 0
      ensures bookmarks != map[] ==> exists p :: p in bookmarks && bookmarks[p] == max
    {
      max := 0;
      var todo := bookmarks.Keys;
      while todo != {}
        invariant todo <= bookmarks.Keys
        invariant forall p :: p in bookmarks && p !in todo ==> bookmarks[p] <= max
        invariant todo == bookmarks.Keys ==> max == 0
        invariant todo != bookmarks.Keys ==> exists p :: p in bookmarks && p !in todo && bookmarks[p] == max
        decreases todo
      {
        var p :| p in todo;
        if bookmarks[p] > max {
          max := bookmarks[p];
        }
        todo := todo - {p};
      }
    }

    /** `rate`: store the clamped score, overwriting the user's earlier rating of the POI if any. */
    method Rate(poi: PoiId, score: int)
      requires Valid()
      modifies this
      ensures Valid()
      ensures ratings == old(ratings)[poi := Clamp(score)]
      ensures |ratings| == if poi in old(ratings) then |old(ratings)| else |old(ratings)| + 1
      ensures bookmarks == old(bookmarks) && List == old(List)
    {
      var clamped := Clamp(score);
      // get_or_create finds the row or creates it with the clamped score; an
      // existing row then gets the clamped score written over its old one.
      ratings := ratings[poi := clamped];
      assert ratings.Keys == old(ratings).Keys + {poi};
    }

    /** `unrate`: delete the user's rating of the POI, telling whether there was one. */
    method Unrate(poi: PoiId) returns (removed: bool)
      requires Valid()
      modifies this
      ensures Valid()
      ensures removed == (poi in old(ratings))
      ensures ratings == old(ratings) - {poi}
      ensures !removed ==> ratings == old(ratings)
      ensures bookmarks == old(bookmarks) && List == old(List)
    {
      if poi in ratings {
        ratings := ratings - {poi};
        removed := true;
      } else {
        removed := false;
      }
    }

    /**
      `bookmark`: the existing bookmark of the POI, unchanged, or a new one
      appended at order 1 + max.
    */
    method Bookmark(poi: PoiId) returns (row: BookmarkRow, created: bool)
      requires Valid()
      modifies this
      ensures Valid()
      ensures created == (poi !in old(bookmarks))
      ensures poi in bookmarks && row == BookmarkRow(id, poi, bookmarks[poi])
      ensures !created ==> bookmarks == old(bookmarks) && List == old(List)
      ensures created ==> List == old(List) + [poi]
      ensures created ==> bookmarks == old(bookmarks)[poi := |old(bookmarks)| + 1]
      ensures ratings == old(ratings)
    {
      if poi in bookmarks {
        return BookmarkRow(id, poi, bookmarks[poi]), false;
      }
      var max := MaxOrder();
      MaxOfListIsLength(bookmarks, List, max);
      var order := 1 + max;
      AppendKeepsList(bookmarks, List, poi);
      bookmarks := bookmarks[poi := order];
      List := List + [poi];
      row, created := BookmarkRow(id, poi, order), true;
    }

    /**
      `unbookmark`: delete the user's bookmark of the POI and decrement every
      larger order, telling whether there was one.
    */
    method Unbookmark(poi: PoiId) returns (removed: bool)
      requires Valid()
      modifies this
      ensures Valid()
      ensures removed == (poi in old(bookmarks))
      ensures removed ==> bookmarks == ShiftDown(old(bookmarks) - {poi}, old(bookmarks)[poi])
      ensures removed ==> List == RemoveAt(old(List), old(bookmarks)[poi] as int - 1)
      ensures !removed ==> bookmarks == old(bookmarks) && List == old(List)
      ensures ratings == old(ratings)
    {
      if poi !in bookmarks {
        return false;
      }
      var order := bookmarks[poi];
      RepresentsIndex(bookmarks, List, poi);
      ghost var i: nat := order - 1;
      RemoveKeepsList(bookmarks, List, i);
      bookmarks := bookmarks - {poi};
      bookmarks := ShiftDown(bookmarks, order);
      List := RemoveAt(List, i);
      removed := true;
    }

    /**
      `bookmark_move`: move one of the user's bookmarks to the end of the
      list, or to just before another of the user's bookmarks. A bookmark of
      another user, as either argument, is refused without any change.
    */
    method BookmarkMove(bookmark: BookmarkRow, before: Option<BookmarkRow>) returns (moved: bool)
      requires Valid()
      requires bookmark.user == id && (before.None? || before.value.user == id) ==>
        bookmark.poi in bookmarks && bookmarks[bookmark.poi] == bookmark.order
      requires bookmark.user == id && before.Some? && before.value.user == id ==> before.value.poi in bookmarks
      modifies this
      ensures Valid()
      ensures bookmarks.Keys == old(bookmarks).Keys && ratings == old(ratings)
      ensures moved == (bookmark.user == id && (before.None? || before.value.user == id))
      ensures !moved ==> bookmarks == old(bookmarks) && List == old(List)
      ensures moved && before.None? ==>
        && List == RemoveAt(old(List), bookmark.order as int - 1) + [bookmark.poi]
        && bookmarks[bookmark.poi] == |bookmarks|
      ensures moved && before.Some? && before.value.poi == bookmark.poi ==>
        bookmarks == old(bookmarks) && List == old(List)
      ensures moved && before.Some? && before.value.poi != bookmark.poi ==>
        && bookmarks == MoveBefore(old(bookmarks), bookmark.poi, before.value.poi)
        && bookmarks[before.value.poi] == bookmarks[bookmark.poi] + 1
        && List == MoveBeforeList(old(List), bookmark.order as int - 1, old(bookmarks)[before.value.poi] as int - 1)
    {
      if bookmark.user != id {
        moved := false;
      } else if before.None? {
        MoveToEnd(bookmark.poi, bookmark.order);
        moved := true;
      } else if before.value.user != id {
        moved := false;
      } else if before.value.poi == bookmark.poi {
        // Moving a bookmark before itself keeps the list as it is (`MoveBefore`).
        moved := true;
      } else {
        MoveBeforeOther(bookmark.poi, bookmark.order, before.value.poi);
        moved := true;
      }
    }

    /** The `before is None` branch of `bookmark_move`: `_popout`, then `_pushback`. */
    method MoveToEnd(p: PoiId, order: nat)
      requires Valid() && p in bookmarks && bookmarks[p] == order
      modifies this
      ensures Valid()
      ensures bookmarks.Keys == old(bookmarks).Keys && ratings == old(ratings)
      ensures List == RemoveAt(old(List), order as int - 1) + [p]
      ensures bookmarks[p] == |bookmarks|
    {
      ghost var m, s := bookmarks, List;
      MoveToEndKeepsList(m, s, p);
      // _popout
      bookmarks := bookmarks[p := 0];
      bookmarks := ShiftDown(bookmarks, order);
      // _pushback
      var max := MaxOrder();
      PoppedMaxIsLength(m, s, p, max);
      bookmarks := bookmarks[p := 1 + max];
      List := RemoveAt(s, order - 1) + [p];
    }

    /** The branch of `bookmark_move` with a `before` other than the moved bookmark. */
    method MoveBeforeOther(p: PoiId, order: nat, b: PoiId)
      requires Valid() && p in bookmarks && bookmarks[p] == order && b in bookmarks && b != p
      modifies this
      ensures Valid()
      ensures bookmarks.Keys == old(bookmarks).Keys
      ensures ratings == old(ratings)
      ensures bookmarks == MoveBefore(old(bookmarks), p, b)
      ensures bookmarks[b] == bookmarks[p] + 1
      ensures List == MoveBeforeList(old(List), order as int - 1, old(bookmarks)[b] as int - 1)
    {
      ghost var m, s := bookmarks, List;
      MoveBeforeKeepsList(m, s, p, b);
      // _popout
      bookmarks := bookmarks[p := 0];
      bookmarks := ShiftDown(bookmarks, order);
      ghost var popped := PopOut(m, p);
      assert bookmarks == popped;
      // the re-read of `before`, the shift of every order from there on, and the save
      var beforeOrder := bookmarks[b];
      bookmarks := ShiftUp(bookmarks, beforeOrder);
      bookmarks := bookmarks[p := beforeOrder];
      assert bookmarks == MoveBeforeSteps(m, p, b);
      List := MoveBeforeList(s, order as int - 1, m[b] as int - 1);
    }
  }

  /** The largest order of a dense list is its length. */
  lemma MaxOfListIsLength(m: map<PoiId, nat>, s: seq<PoiId>, max: nat)
    requires Represents(m, s)
    requires forall p :: p in m ==> m[p] <= max
    requires m == map[] ==> max == 0
    requires m != map[] ==> exists p :: p in m && m[p] == max
    ensures max == |m|
  {
    RepresentsIsDense(m, s);
    if m != map[] {
      assert m[s[|s| - 1]] == |m|;
    }
  }

  /** After `_popout` the largest order, counting the row parked at 0, is N - 1. */
  lemma PoppedMaxIsLength(m: map<PoiId, nat>, s: seq<PoiId>, p: PoiId, max: nat)
    requires Represents(m, s) && p in m
    requires forall q :: q in PopOut(m, p) ==> PopOut(m, p)[q] <= max
    requires exists q :: q in PopOut(m, p) && PopOut(m, p)[q] == max
    ensures max == |m| - 1
  {
    RepresentsIndex(m, s, p);
    var i := m[p] - 1;
    assert s[i] == p;
    PopOutKeepsList(m, s, i);
    var rest := RemoveAt(s, i);
    var removed := ShiftDown(m - {p}, i + 1);
    assert Represents(removed, rest);
    var popped := PopOut(m, p);
    assert popped == removed[p := 0];
    assert |rest| == |m| - 1;
    RepresentsIsDense(removed, rest);
    var top :| top in popped && popped[top] == max;
    if top != p {
      assert top in removed && max == removed[top] <= |rest|;
    }
    if rest != [] {
      var last := rest[|rest| - 1];
      assert last in removed && last != p && removed[last] == |rest|;
      assert popped[last] == |rest|;
    }
  }
}
