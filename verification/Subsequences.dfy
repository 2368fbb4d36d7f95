/** Subsequences: what is left of a list after deleting elements, order kept. */
module Subsequences {

  ghost predicate Subsequence<T>(a: seq<T>, b: seq<T>) {
    a == [] || (b != [] &&
      ((a[|a| - 1] == b[|b| - 1] && Subsequence(a[..|a| - 1], b[..|b| - 1]))
       || Subsequence(a, b[..|b| - 1])))
  }

  /** More source text changes nothing. */
  lemma {:induction false} SubsequenceWiden<T>(a: seq<T>, b: seq<T>, t: seq<T>)
    requires Subsequence(a, b)
    ensures Subsequence(a, b + t)
    decreases |t|
  {
    if t == [] {
      assert b + t == b;
    } else {
      SubsequenceWiden(a, b, t[..|t| - 1]);
      assert (b + t)[..|b + t| - 1] == b + t[..|t| - 1];
    }
  }

  /** Appending the same text to both. */
  lemma {:induction false} SubsequenceAppend<T>(a: seq<T>, b: seq<T>, t: seq<T>)
    requires Subsequence(a, b)
    ensures Subsequence(a + t, b + t)
    decreases |t|
  {
    if t == [] {
      assert a + t == a && b + t == b;
    } else {
      SubsequenceAppend(a, b, t[..|t| - 1]);
      assert (a + t)[..|a + t| - 1] == a + t[..|t| - 1];
      assert (b + t)[..|b + t| - 1] == b + t[..|t| - 1];
    }
  }

  lemma {:induction false} SubsequenceDropLast<T>(a: seq<T>, b: seq<T>)
    requires Subsequence(a, b) && a != []
    ensures Subsequence(a[..|a| - 1], b)
    decreases |b|
  {
    var initB := b[..|b| - 1];
    if Subsequence(a, initB) {
      SubsequenceDropLast(a, initB);
      SubsequenceWiden(a[..|a| - 1], initB, [b[|b| - 1]]);
    } else {
      SubsequenceWiden(a[..|a| - 1], initB, [b[|b| - 1]]);
    }
    assert initB + [b[|b| - 1]] == b;
  }

  /** Taking text back off the end. */
  lemma {:induction false} SubsequencePrefix<T>(a: seq<T>, b: seq<T>, n: nat)
    requires Subsequence(a, b) && n <= |a|
    ensures Subsequence(a[..n], b)
    decreases |a|
  {
    if n == |a| {
      assert a[..n] == a;
    } else {
      SubsequenceDropLast(a, b);
      SubsequencePrefix(a[..|a| - 1], b, n);
      assert a[..|a| - 1][..n] == a[..n];
    }
  }

  lemma SubsequenceOfItself<T>(a: seq<T>)
    ensures Subsequence(a, a)
  {
    SubsequenceAppend([], [], a);
    assert [] + a == a;
  }

  lemma {:induction false} SubsequenceTransitive<T>(a: seq<T>, b: seq<T>, c: seq<T>)
    requires Subsequence(a, b) && Subsequence(b, c)
    ensures Subsequence(a, c)
    decreases |c|
  {
    if a != [] {
      var initA, initB, initC := a[..|a| - 1], b[..|b| - 1], c[..|c| - 1];
      if Subsequence(b, initC) {
        SubsequenceTransitive(a, b, initC);
      } else if Subsequence(a, initB) {
        SubsequenceTransitive(a, initB, initC);
      } else {
        SubsequenceTransitive(initA, initB, initC);
      }
    }
  }
}
