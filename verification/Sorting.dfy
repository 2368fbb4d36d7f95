/**
 * The stable sort of ECMAScript's `Array.prototype.sort`: every later element goes
 * behind all earlier ones that are not greater. `le` is the comparator's "not after".
 */
module Sorting {
  import opened Common

  ghost predicate TotalPreorder<T(!new)>(le: (T, T) -> bool) {
    && (forall x, y :: le(x, y) || le(y, x))
    && (forall x, y, z :: le(x, y) && le(y, z) ==> le(x, z))
  }

  ghost predicate Sorted<T(!new)>(s: seq<T>, le: (T, T) -> bool) {
    forall i, j :: 0 <= i < j < |s| ==> le(s[i], s[j])
  }

  function Insert<T>(s: seq<T>, x: T, le: (T, T) -> bool): (r: seq<T>)
    ensures multiset(r) == multiset(s) + multiset{x}
    ensures |r| == |s| + 1
  {
    if s == [] || le(s[|s| - 1], x) then s + [x]
    else
      assert s == s[..|s| - 1] + [s[|s| - 1]];
      Insert(s[..|s| - 1], x, le) + [s[|s| - 1]]
  }

  function Sort<T>(s: seq<T>, le: (T, T) -> bool): (r: seq<T>)
    ensures multiset(r) == multiset(s)
    ensures |r| == |s|
  {
    if s == [] then []
    else
      assert s == s[..|s| - 1] + [s[|s| - 1]];
      Insert(Sort(s[..|s| - 1], le), s[|s| - 1], le)
  }

  lemma SameMembers<T>(a: seq<T>, b: seq<T>)
    requires multiset(a) == multiset(b)
    ensures forall x :: x in a <==> x in b
  {
    forall x ensures x in a <==> x in b {
      assert x in a <==> x in multiset(a);
      assert x in b <==> x in multiset(b);
    }
  }

  lemma {:induction false} InsertSorted<T(!new)>(s: seq<T>, x: T, le: (T, T) -> bool)
    requires TotalPreorder(le)
    requires Sorted(s, le)
    ensures Sorted(Insert(s, x, le), le)
  {
    if s == [] || le(s[|s| - 1], x) {
    } else {
      var init, last := s[..|s| - 1], s[|s| - 1];
      InsertSorted(init, x, le);
      var r := Insert(init, x, le);
      assert multiset(r) == multiset(init + [x]);
      SameMembers(r, init + [x]);
      forall i | 0 <= i < |r| ensures le(r[i], last) {
        assert r[i] in r;
        assert r[i] in init || r[i] == x;
      }
    }
  }

  lemma {:induction false} SortSorted<T(!new)>(s: seq<T>, le: (T, T) -> bool)
    requires TotalPreorder(le)
    ensures Sorted(Sort(s, le), le)
  {
    if s != [] {
      SortSorted(s[..|s| - 1], le);
      InsertSorted(Sort(s[..|s| - 1], le), s[|s| - 1], le);
    }
  }

  ghost predicate Ties<T>(le: (T, T) -> bool, x: T, y: T) {
    le(x, y) && le(y, x)
  }

  lemma {:induction false} InsertStable<T(!new)>(s: seq<T>, x: T, le: (T, T) -> bool, pivot: T)
    requires TotalPreorder(le)
    requires Sorted(s, le)
    ensures Filter(Insert(s, x, le), y => Ties(le, y, pivot)) == Filter(s + [x], y => Ties(le, y, pivot))
  {
    if s == [] || le(s[|s| - 1], x) {
    } else {
      var init, last := s[..|s| - 1], s[|s| - 1];
      InsertStable(init, x, le, pivot);
      assert s == init + [last];
      assert Insert(s, x, le) == Insert(init, x, le) + [last];
      assert !(Ties(le, x, pivot) && Ties(le, last, pivot));
      hide Insert;
      hide Ties;
      SwapUnlike(init, x, last, Insert(init, x, le), y => Ties(le, y, pivot));
    }
  }

  /** Of two neighbours at most one passes the test, so their order does not show. */
  lemma SwapUnlike<T(!new)>(init: seq<T>, x: T, last: T, inserted: seq<T>, p: T -> bool)
    requires Filter(inserted, p) == Filter(init + [x], p) && !(p(x) && p(last))
    ensures Filter(inserted + [last], p) == Filter(init + [last] + [x], p)
  {
    FilterAppend(inserted, [last], p);
    FilterAppend(init, [x], p);
    FilterAppend(init + [last], [x], p);
    FilterAppend(init, [last], p);
    FilterFails(x, p);
    FilterFails(last, p);
    hide Filter;
    var front := Filter(init, p);
    assert front + Filter([x], p) + Filter([last], p) == front + Filter([last], p) + Filter([x], p);
  }

  lemma FilterFails<T(!new)>(x: T, p: T -> bool)
    ensures !p(x) ==> Filter([x], p) == []
  {
  }

  /** The sort is stable: elements that tie keep the order they had. */
  lemma {:induction false} SortStable<T(!new)>(s: seq<T>, le: (T, T) -> bool, pivot: T)
    requires TotalPreorder(le)
    ensures Filter(Sort(s, le), y => Ties(le, y, pivot)) == Filter(s, y => Ties(le, y, pivot))
  {
    if s != [] {
      var p := (y: T) => Ties(le, y, pivot);
      var init, last := s[..|s| - 1], s[|s| - 1];
      SortStable(init, le, pivot);
      SortSorted(init, le);
      InsertStable(Sort(init, le), last, le, pivot);
      assert s == init + [last];
      FilterAppend(Sort(init, le), [last], p);
      FilterAppend(init, [last], p);
    }
  }

  /** In order, and ties in the order `before` has them. */
  ghost predicate StablySorted<T(!new)>(s: seq<T>, le: (T, T) -> bool, before: (T, T) -> bool) {
    forall i, j :: 0 <= i < j < |s| ==> le(s[i], s[j]) && (le(s[j], s[i]) ==> before(s[i], s[j]))
  }

  lemma {:induction false} InsertStablySorted<T(!new)>(s: seq<T>, x: T, le: (T, T) -> bool, before: (T, T) -> bool)
    requires TotalPreorder(le) && StablySorted(s, le, before)
    requires forall y :: y in s ==> before(y, x)
    ensures StablySorted(Insert(s, x, le), le, before)
  {
    if s == [] || le(s[|s| - 1], x) {
    } else {
      var init, last := s[..|s| - 1], s[|s| - 1];
      InsertStablySorted(init, x, le, before);
      var r := Insert(init, x, le);
      assert multiset(r) == multiset(init + [x]);
      SameMembers(r, init + [x]);
      forall i | 0 <= i < |r| ensures le(r[i], last) && (le(last, r[i]) ==> before(r[i], last)) {
        assert r[i] in r;
        if r[i] in init {
          var k :| 0 <= k < |init| && init[k] == r[i];
          assert s[k] == r[i];
        } else {
          assert r[i] == x;
        }
      }
    }
  }

  /** Pair by pair: elements that tie keep the order they had. */
  lemma {:induction false} SortKeepsTiesInOrder<T(!new)>(s: seq<T>, le: (T, T) -> bool, before: (T, T) -> bool)
    requires TotalPreorder(le)
    requires forall i, j :: 0 <= i < j < |s| ==> before(s[i], s[j])
    ensures StablySorted(Sort(s, le), le, before)
  {
    if s != [] {
      var init, last := s[..|s| - 1], s[|s| - 1];
      SortKeepsTiesInOrder(init, le, before);
      SameMembers(Sort(init, le), init);
      forall y | y in Sort(init, le) ensures before(y, last) {
        var k :| 0 <= k < |init| && init[k] == y;
      }
      InsertStablySorted(Sort(init, le), last, le, before);
    }
  }
}
