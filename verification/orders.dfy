/**
  The order column of one user's bookmark rows, as a value.

  A user's bookmarks are a map from POI to the row's `order`. The table keeps
  (user, poi) unique, which the map gives for free, and (user, order) unique,
  which is `Injective`. The intended invariant is density: the orders are
  exactly 1..N for N bookmarks. A dense map stands for an ordered list, the
  list whose i-th element (0-based) is the POI with order i + 1; `Represents`
  relates the two, and the operations of the list manager are proved here to
  be the list operations they are meant to be (append, remove at a position,
  insert at a position).
*/
module Orders {

  type PoiId = nat

  /** No two bookmarks of the user share an order: unique (user, order). */
  predicate Injective(m: map<PoiId, nat>)
  {
    forall p, q :: p in m && q in m && m[p] == m[q] ==> p == q
  }

  /** Orders are pairwise distinct and all within 1..N. */
  predicate Dense(m: map<PoiId, nat>)
  {
    Injective(m) && forall p :: p in m ==> 1 <= m[p] <= |m|
  }

  /** The set {1, ..., n}. */
  function OneTo(n: nat): (r: set<nat>)
    ensures |r| == n
    ensures forall i :: i in r <==> 1 <= i <= n
  {
    if n == 0 then {} else OneTo(n - 1) + {n}
  }

  /** The POIs a list holds. */
  function Elems(s: seq<PoiId>): set<PoiId>
  {
    set x | x in s
  }

  /** `s` is the ordered bookmark list that `m` stores: the POI at index i has order i + 1. */
  ghost predicate Represents(m: map<PoiId, nat>, s: seq<PoiId>)
  {
    |s| == |m| && forall i :: 0 <= i < |s| ==> s[i] in m && m[s[i]] == i + 1
  }

  /** The bulk update `filter(order__gt=k).update(order=F('order') - 1)`. */
  function ShiftDown(m: map<PoiId, nat>, k: nat): (r: map<PoiId, nat>)
    ensures r.Keys == m.Keys
  {
    map p | p in m :: if m[p] > k then m[p] - 1 else m[p]
  }

  /** The bulk update `filter(order__gte=k).update(order=F('order') + 1)`. */
  function ShiftUp(m: map<PoiId, nat>, k: nat): (r: map<PoiId, nat>)
    ensures r.Keys == m.Keys
  {
    map p | p in m :: if m[p] >= k then m[p] + 1 else m[p]
  }

  /**
    `_popout`, with the lookup spelled `order__gt` as intended: park the row
    at order 0, then close the gap it left.
  */
  function PopOut(m: map<PoiId, nat>, p: PoiId): (r: map<PoiId, nat>)
    requires p in m
    ensures r.Keys == m.Keys && r[p] == 0
  {
    ShiftDown(m[p := 0], m[p])
  }

  /** `_popout` closes the gap: orders below the parked row stay, orders above it move down by one. */
  lemma PopOutClosesGap(m: map<PoiId, nat>, p: PoiId, q: PoiId)
    requires p in m && q in m && q != p
    ensures m[q] < m[p] ==> PopOut(m, p)[q] == m[q]
    ensures m[q] > m[p] ==> PopOut(m, p)[q] == m[q] - 1
  {
  }

  /**
    The move-before branch of `bookmark_move` as its steps run once the
    lookups are spelled as intended (`order__gt`, `order__gte`): pop `p` out,
    re-read `b`'s order, shift every order >= it up by one, and write that
    order into `p`. Nothing stops `b` from being `p` itself, and then `p` is
    left at order 0.
  */
  function MoveBeforeSteps(m: map<PoiId, nat>, p: PoiId, b: PoiId): (r: map<PoiId, nat>)
    requires p in m && b in m
    ensures r.Keys == m.Keys
    ensures p == b ==> r[p] == 0
    ensures p != b ==> r[b] == r[p] + 1
  {
    var popped := PopOut(m, p);
    ShiftUp(popped, popped[b])[p := popped[b]]
  }

  /**
    The move-before branch as intended: the same steps, except that moving a
    bookmark before itself leaves every order where it was.
  */
  function MoveBefore(m: map<PoiId, nat>, p: PoiId, b: PoiId): (r: map<PoiId, nat>)
    requires p in m && b in m
    ensures r.Keys == m.Keys
    ensures p == b ==> r == m
    ensures p != b ==> r[b] == r[p] + 1
  {
    if p == b then m else MoveBeforeSteps(m, p, b)
  }

  /** The list without its element at index i (unchanged when there is no such index). */
  function RemoveAt(s: seq<PoiId>, i: int): (r: seq<PoiId>)
  {
    if 0 <= i < |s| then s[..i] + s[i + 1..] else s
  }

  /** The list with x inserted at index i (appended when i is past the end). */
  function InsertAt(s: seq<PoiId>, i: int, x: PoiId): (r: seq<PoiId>)
  {
    if 0 <= i <= |s| then s[..i] + [x] + s[i..] else s + [x]
  }

  /**
    The list operation a move stands for: the element at index i leaves its
    place and is put back immediately before the element that was at index k.
  */
  function MoveBeforeList(s: seq<PoiId>, i: int, k: int): (r: seq<PoiId>)
  {
    if 0 <= i < |s| then InsertAt(RemoveAt(s, i), if k < i then k else k - 1, s[i]) else s
  }

  /** Removing a key that is present shrinks the map by one. */
  lemma RemoveKeyCard(m: map<PoiId, nat>, p: PoiId)
    requires p in m
    ensures |m - {p}| == |m| - 1
  {
    assert (m - {p}).Keys == m.Keys - {p};
  }

  /** An injective map has as many distinct orders as rows. */
  lemma {:induction false} InjectiveValuesCard(m: map<PoiId, nat>)
    requires Injective(m)
    ensures |m.Values| == |m|
  {
    if m != map[] {
      var p :| p in m;
      var rest := m - {p};
      RemoveKeyCard(m, p);
      InjectiveValuesCard(rest);
      assert m.Values == rest.Values + {m[p]} by {
        forall v | v in m.Values ensures v in rest.Values + {m[p]} {
          var q :| q in m && m[q] == v;
          if q != p { assert q in rest; }
        }
      }
      assert m[p] !in rest.Values;
    }
  }

  /** Density says exactly that the set of orders is {1..N} with no order shared. */
  lemma DenseIsOneToN(m: map<PoiId, nat>)
    ensures Dense(m) <==> Injective(m) && m.Values == OneTo(|m|)
  {
    if Dense(m) {
      InjectiveValuesCard(m);
      var vs, all := m.Values, OneTo(|m|);
      assert vs <= all;
      assert |all - vs| == 0 by {
        assert all == vs + (all - vs);
        assert vs * (all - vs) == {};
      }
      assert all - vs == {};
      assert vs == all;
    }
    if Injective(m) && m.Values == OneTo(|m|) {
      forall p | p in m ensures 1 <= m[p] <= |m| {
        assert m[p] in m.Values;
      }
    }
  }

  /** Appending an element adds it to the list's elements. */
  lemma ElemsSnoc(s: seq<PoiId>, x: PoiId)
    ensures Elems(s + [x]) == Elems(s) + {x}
  {
    var t := s + [x];
    forall y | y in Elems(t) ensures y in Elems(s) + {x} {
      var k :| 0 <= k < |t| && t[k] == y;
      if k < |s| { assert s[k] == y; }
    }
    forall y | y in Elems(s) + {x} ensures y in Elems(t) {
      if y != x {
        var k :| 0 <= k < |s| && s[k] == y;
        assert t[k] == y;
      } else {
        assert t[|s|] == x;
      }
    }
  }

  /** A sequence without repeated elements has as many distinct elements as positions. */
  lemma {:induction false} DistinctCard(s: seq<PoiId>)
    requires forall i, j :: 0 <= i < j < |s| ==> s[i] != s[j]
    ensures |Elems(s)| == |s|
  {
    if s != [] {
      var init, last := s[..|s| - 1], s[|s| - 1];
      assert s == init + [last];
      assert forall i, j :: 0 <= i < j < |init| ==> init[i] != init[j];
      DistinctCard(init);
      ElemsSnoc(init, last);
      assert last !in Elems(init);
    }
  }

  /** The list a map stands for never repeats a POI, since its orders differ. */
  lemma RepresentsDistinct(m: map<PoiId, nat>, s: seq<PoiId>)
    requires Represents(m, s)
    ensures forall i, j :: 0 <= i < j < |s| ==> s[i] != s[j]
  {
    forall i, j | 0 <= i < j < |s| ensures s[i] != s[j] {
      assert m[s[i]] == i + 1 && m[s[j]] == j + 1;
    }
  }

  /** A map that stands for a list holds exactly the list's POIs. */
  lemma RepresentsKeys(m: map<PoiId, nat>, s: seq<PoiId>)
    requires Represents(m, s)
    ensures m.Keys == Elems(s)
  {
    RepresentsDistinct(m, s);
    DistinctCard(s);
    var ks, inList := m.Keys, Elems(s);
    assert inList <= ks;
    assert |ks - inList| == 0 by {
      assert ks == inList + (ks - inList);
      assert inList * (ks - inList) == {};
    }
    assert ks - inList == {};
  }

  /** A map that stands for a list is dense. */
  lemma RepresentsIsDense(m: map<PoiId, nat>, s: seq<PoiId>)
    requires Represents(m, s)
    ensures Dense(m)
  {
    RepresentsKeys(m, s);
    forall p | p in m ensures exists i :: 0 <= i < |s| && s[i] == p && m[p] == i + 1 {
      assert p in Elems(s);
    }
    forall p, q | p in m && q in m && m[p] == m[q] ensures p == q {
      var i :| 0 <= i < |s| && s[i] == p && m[p] == i + 1;
      var j :| 0 <= j < |s| && s[j] == q && m[q] == j + 1;
    }
  }

  /** Each POI of the map sits in the list at the index its order names. */
  lemma RepresentsIndex(m: map<PoiId, nat>, s: seq<PoiId>, p: PoiId)
    requires Represents(m, s) && p in m
    ensures 1 <= m[p] <= |s| && s[m[p] - 1] == p
  {
    RepresentsKeys(m, s);
    assert p in Elems(s);
    var i :| 0 <= i < |s| && s[i] == p;
  }

  /** Taking a key out and putting it back with its value gives the map back. */
  lemma RestoreKey(m: map<PoiId, nat>, p: PoiId)
    requires p in m
    ensures (m - {p})[p := m[p]] == m
  {
  }

  /** Every dense map stands for some list, so density and `Represents` describe the same states. */
  lemma {:induction false} DenseHasList(m: map<PoiId, nat>)
    requires Dense(m)
    ensures exists s :: Represents(m, s)
  {
    if m == map[] {
      assert Represents(m, []);
    } else {
      DenseIsOneToN(m);
      assert |m| in m.Values;
      var p :| p in m && m[p] == |m|;
      var rest := m - {p};
      RemoveKeyCard(m, p);
      forall q | q in rest ensures 1 <= rest[q] <= |rest| {
        assert m[q] != |m|;
      }
      DenseHasList(rest);
      var s :| Represents(rest, s);
      AppendKeepsList(rest, s, p);
      assert |rest| + 1 == m[p];
      RestoreKey(m, p);
    }
  }

  /** The list a dense map stands for is unique: two maps standing for one list are equal. */
  lemma RepresentsUnique(m1: map<PoiId, nat>, m2: map<PoiId, nat>, s: seq<PoiId>)
    requires Represents(m1, s) && Represents(m2, s)
    ensures m1 == m2
  {
    RepresentsKeys(m1, s);
    RepresentsKeys(m2, s);
    forall p | p in m1 ensures m1[p] == m2[p] {
      RepresentsIndex(m1, s, p);
    }
  }

  /** `bookmark` on a new POI: order N + 1 appends it at the end of the list. */
  lemma AppendKeepsList(m: map<PoiId, nat>, s: seq<PoiId>, p: PoiId)
    requires Represents(m, s) && p !in m
    ensures Represents(m[p := |m| + 1], s + [p])
  {
    assert (m[p := |m| + 1]).Keys == m.Keys + {p};
  }

  /**
    `unbookmark`: deleting the row at list index i (order i + 1) and decrementing
    every larger order removes exactly that element from the list.
  */
  lemma RemoveKeepsList(m: map<PoiId, nat>, s: seq<PoiId>, i: nat)
    requires Represents(m, s) && i < |s|
    ensures Represents(ShiftDown(m - {s[i]}, i + 1), RemoveAt(s, i))
  {
    RepresentsIsDense(m, s);
    RemoveKeyCard(m, s[i]);
    var r, t := ShiftDown(m - {s[i]}, i + 1), RemoveAt(s, i);
    assert r.Keys == (m - {s[i]}).Keys;
    assert |r| == |r.Keys| == |(m - {s[i]}).Keys| == |m - {s[i]}|;
    forall j | 0 <= j < |t| ensures t[j] in r && r[t[j]] == j + 1 {
      if j < i {
        assert t[j] == s[j];
      } else {
        assert t[j] == s[j + 1];
      }
    }
  }

  /**
    The move-before shift: with `p` not yet in the list, shifting every order
    >= j + 1 up by one and giving `p` order j + 1 inserts `p` at index j.
  */
  lemma InsertKeepsList(m: map<PoiId, nat>, s: seq<PoiId>, j: nat, p: PoiId)
    requires Represents(m, s) && p !in m && j <= |s|
    ensures Represents(ShiftUp(m, j + 1)[p := j + 1], InsertAt(s, j, p))
  {
    var shifted := ShiftUp(m, j + 1);
    var r, t := shifted[p := j + 1], InsertAt(s, j, p);
    assert shifted.Keys == m.Keys;
    assert r.Keys == m.Keys + {p};
    assert |r| == |r.Keys| == |m.Keys| + 1;
    assert |t| == |s| + 1;
    forall k | 0 <= k < |t| ensures t[k] in r && r[t[k]] == k + 1 {
      if k < j {
        assert t[k] == s[k];
        assert s[k] in m && m[s[k]] == k + 1;
        assert s[k] != p;
        assert shifted[s[k]] == k + 1;
      } else if k > j {
        assert t[k] == s[k - 1];
        assert s[k - 1] in m && m[s[k - 1]] == k;
        assert s[k - 1] != p;
        assert shifted[s[k - 1]] == k + 1;
      } else {
        assert t[k] == p;
      }
    }
  }

  /** After `_popout` the other rows hold the list without `p`, and `p` is parked at order 0. */
  lemma PopOutKeepsList(m: map<PoiId, nat>, s: seq<PoiId>, i: nat)
    requires Represents(m, s) && i < |s|
    ensures PopOut(m, s[i]) == ShiftDown(m - {s[i]}, i + 1)[s[i] := 0]
    ensures Represents(ShiftDown(m - {s[i]}, i + 1), RemoveAt(s, i))
  {
    RemoveKeepsList(m, s, i);
    var p := s[i];
    var lhs, rhs := PopOut(m, p), ShiftDown(m - {p}, i + 1)[p := 0];
    assert lhs.Keys == rhs.Keys;
    forall q | q in lhs ensures lhs[q] == rhs[q] {
    }
  }

  /** The row parked at order 0 is below every shift point, so parking it first changes nothing. */
  lemma ShiftUpOverParked(removed: map<PoiId, nat>, p: PoiId, j: nat)
    requires p !in removed
    ensures ShiftUp(removed[p := 0], j + 1)[p := j + 1] == ShiftUp(removed, j + 1)[p := j + 1]
  {
    var lhs, rhs := ShiftUp(removed[p := 0], j + 1)[p := j + 1], ShiftUp(removed, j + 1)[p := j + 1];
    assert lhs.Keys == rhs.Keys;
    forall q | q in lhs ensures lhs[q] == rhs[q] {
    }
  }

  /** Taking out index i shifts every later element one place to the left. */
  lemma RemoveAtIndex(s: seq<PoiId>, i: nat, k: nat)
    requires i < |s| && k < |s| && i != k
    ensures var j := if k < i then k else k - 1;
            j < |RemoveAt(s, i)| && RemoveAt(s, i)[j] == s[k]
  {
  }

  /**
    After `_popout` of `p`, with `b` at order j + 1 among the other rows, the
    move-before steps shift every order from j + 1 up and give `p` order j + 1.
  */
  lemma MoveBeforeOnPopped(m: map<PoiId, nat>, p: PoiId, b: PoiId, removed: map<PoiId, nat>, j: nat)
    requires p in m && b in m && p != b
    requires p !in removed && b in removed && removed[b] == j + 1
    requires PopOut(m, p) == removed[p := 0]
    ensures MoveBefore(m, p, b) == ShiftUp(removed, j + 1)[p := j + 1]
  {
    var popped := removed[p := 0];
    assert popped[b] == j + 1;
    ShiftUpOverParked(removed, p, j);
  }

  /**
    Moving a bookmark before itself, with the lookups spelled as intended,
    leaves it at order 0: the orders are no longer dense.
  */
  lemma MoveBeforeSelfBreaksDensity(m: map<PoiId, nat>, p: PoiId)
    requires Dense(m) && p in m
    ensures MoveBeforeSteps(m, p, p)[p] == 0
    ensures !Dense(MoveBeforeSteps(m, p, p))
  {
  }

  /**
    Moving a bookmark to the end: after `_popout`, giving the parked row order
    N takes it out of its old place and appends it.
  */
  lemma MoveToEndKeepsList(m: map<PoiId, nat>, s: seq<PoiId>, p: PoiId)
    requires Represents(m, s) && p in m
    ensures 1 <= m[p] <= |s|
    ensures PopOut(m, p)[p := |m|].Keys == m.Keys
    ensures Represents(PopOut(m, p)[p := |m|], RemoveAt(s, m[p] - 1) + [p])
  {
    RepresentsIndex(m, s, p);
    var i := m[p] - 1;
    assert s[i] == p;
    PopOutKeepsList(m, s, i);
    var removed := ShiftDown(m - {p}, i + 1);
    assert PopOut(m, p) == removed[p := 0];
    RemoveKeyCard(m, p);
    assert p !in removed && |removed| + 1 == |m|;
    AppendKeepsList(removed, RemoveAt(s, i), p);
    assert PopOut(m, p)[p := |m|] == removed[p := |removed| + 1];
  }

  /**
    Moving `p` before another bookmark `b`: the set of POIs stays the same,
    `p` ends up immediately before `b`, and the orders stand for the old list
    with `p` taken out of its index and put back just before `b`.
  */
  lemma MoveBeforeKeepsList(m: map<PoiId, nat>, s: seq<PoiId>, p: PoiId, b: PoiId)
    requires Represents(m, s) && p in m && b in m && p != b
    ensures var r := MoveBefore(m, p, b);
            && r.Keys == m.Keys
            && r[b] == r[p] + 1
            && Represents(r, MoveBeforeList(s, m[p] as int - 1, m[b] as int - 1))
  {
    RepresentsIndex(m, s, p);
    RepresentsIndex(m, s, b);
    var i: nat := m[p] - 1;
    var k: nat := m[b] - 1;
    var j: nat := if k < i then k else k - 1;
    var rest := RemoveAt(s, i);
    var removed := ShiftDown(m - {p}, i + 1);
    RemoveAtIndex(s, i, k);
    assert rest[j] == b;
    PopOutKeepsList(m, s, i);
    assert removed[rest[j]] == j + 1;
    MoveBeforeOnPopped(m, p, b, removed, j);
    InsertKeepsList(removed, rest, j, p);
    assert MoveBeforeList(s, i, k) == InsertAt(rest, j, p);
  }

  /** A four-bookmark list A, B, C, D: moving D before B gives A, D, B, C. */
  lemma MoveBeforeExample()
    ensures MoveBefore(map[1 := 1, 2 := 2, 3 := 3, 4 := 4], 4, 2) == map[1 := 1, 4 := 2, 2 := 3, 3 := 4]
  {
    var m := map[1 := 1, 2 := 2, 3 := 3, 4 := 4];
    var popped := PopOut(m, 4);
    assert popped == map[1 := 1, 2 := 2, 3 := 3, 4 := 0];
  }
}
