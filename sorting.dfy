/**
 * Stable sorting by a key order, as Python's `list.sort(key=...)` does it.
 *
 * `SortBy` is the reference definition (insertion sort, taking the elements
 * from the left and inserting each one after every element it does not
 * precede), `SortInPlace` is the in-place algorithm on an array, proved to
 * compute exactly `SortBy`. The lemmas prove that `SortBy` returns a sorted
 * permutation of its input and that elements with equal keys keep their
 * relative order (stability).
 */
module Sorting {

  /** `le` is a total preorder: any two elements are comparable and `le` is transitive. */
  ghost predicate TotalPreorder<T(!new)>(le: (T, T) -> bool)
  {
    && (forall a, b :: le(a, b) || le(b, a))
    && (forall a, b, c :: le(a, b) && le(b, c) ==> le(a, c))
  }

  /** Two elements are tied: each is at most the other. */
  predicate Tied<T>(le: (T, T) -> bool, a: T, b: T)
  {
    le(a, b) && le(b, a)
  }

  ghost predicate Sorted<T>(s: seq<T>, le: (T, T) -> bool)
  {
    forall i, j :: 0 <= i < j < |s| ==> le(s[i], s[j])
  }

  /** The subsequence of `s` made of the elements tied with `x`, in their order in `s`. */
  function Ties<T>(s: seq<T>, le: (T, T) -> bool, x: T): seq<T>
  {
    if s == [] then []
    else Ties(s[..|s| - 1], le, x) + (if Tied(le, s[|s| - 1], x) then [s[|s| - 1]] else [])
  }

  /** Inserts `x` into `s` after the longest suffix of elements that `x` strictly precedes. */
  function Insert<T>(x: T, s: seq<T>, le: (T, T) -> bool): (r: seq<T>)
    ensures |r| == |s| + 1
  {
    if s == [] then [x]
    else if le(s[|s| - 1], x) then s + [x]
    else
      assert s == s[..|s| - 1] + [s[|s| - 1]];
      Insert(x, s[..|s| - 1], le) + [s[|s| - 1]]
  }

  /** Insertion sort: the reference definition of a stable sort by `le`. */
  function SortBy<T>(s: seq<T>, le: (T, T) -> bool): (r: seq<T>)
    ensures |r| == |s|
  {
    if s == [] then []
    else
      assert s == s[..|s| - 1] + [s[|s| - 1]];
      Insert(s[|s| - 1], SortBy(s[..|s| - 1], le), le)
  }

  lemma {:induction false} InsertMultiset<T>(x: T, s: seq<T>, le: (T, T) -> bool)
    ensures multiset(Insert(x, s, le)) == multiset(s) + multiset{x}
  {
    if s != [] && !le(s[|s| - 1], x) {
      var init, last := s[..|s| - 1], s[|s| - 1];
      InsertMultiset(x, init, le);
      assert s == init + [last];
    }
  }

  /** Sorting only reorders: the result is a permutation of the input. */
  lemma {:induction false} SortByPermutation<T>(s: seq<T>, le: (T, T) -> bool)
    ensures multiset(SortBy(s, le)) == multiset(s)
  {
    if s != [] {
      var init, last := s[..|s| - 1], s[|s| - 1];
      assert s == init + [last];
      calc {
        multiset(SortBy(s, le));
        multiset(Insert(last, SortBy(init, le), le));
        { InsertMultiset(last, SortBy(init, le), le); }
        multiset(SortBy(init, le)) + multiset{last};
        { SortByPermutation(init, le); }
        multiset(init) + multiset{last};
        multiset(init + [last]);
      }
    }
  }

  lemma {:induction false} InsertSorted<T(!new)>(x: T, s: seq<T>, le: (T, T) -> bool)
    requires TotalPreorder(le)
    requires Sorted(s, le)
    ensures Sorted(Insert(x, s, le), le)
  {
    if s != [] && !le(s[|s| - 1], x) {
      var init, last := s[..|s| - 1], s[|s| - 1];
      InsertSorted(x, init, le);
      InsertBounded(x, init, last, le);
      var r := Insert(x, init, le);
      forall i, j | 0 <= i < j < |r| + 1
        ensures le((r + [last])[i], (r + [last])[j])
      {
      }
    }
  }

  /** An upper bound of `x` and of every element of `s` bounds every element of `Insert(x, s, le)`. */
  lemma {:induction false} InsertBounded<T>(x: T, s: seq<T>, b: T, le: (T, T) -> bool)
    requires forall k :: 0 <= k < |s| ==> le(s[k], b)
    requires le(x, b)
    ensures forall i :: 0 <= i < |Insert(x, s, le)| ==> le(Insert(x, s, le)[i], b)
  {
    if s != [] && !le(s[|s| - 1], x) {
      InsertBounded(x, s[..|s| - 1], b, le);
    }
  }

  lemma {:induction false} SortBySorted<T(!new)>(s: seq<T>, le: (T, T) -> bool)
    requires TotalPreorder(le)
    ensures Sorted(SortBy(s, le), le)
  {
    if s != [] {
      SortBySorted(s[..|s| - 1], le);
      InsertSorted(s[|s| - 1], SortBy(s[..|s| - 1], le), le);
    }
  }

  lemma {:induction false} TiesAppend<T>(a: seq<T>, b: seq<T>, le: (T, T) -> bool, x: T)
    ensures Ties(a + b, le, x) == Ties(a, le, x) + Ties(b, le, x)
  {
    if b == [] {
      assert a + b == a;
    } else {
      var init := b[..|b| - 1];
      assert (a + b)[..|a + b| - 1] == a + init;
      TiesAppend(a, init, le, x);
    }
  }

  /** Inserting `y` adds `y` at the end of the elements tied with `x`, if `y` is one of them. */
  lemma {:induction false} InsertTies<T(!new)>(y: T, s: seq<T>, le: (T, T) -> bool, x: T)
    requires TotalPreorder(le)
    ensures Ties(Insert(y, s, le), le, x) == Ties(s, le, x) + Ties([y], le, x)
  {
    if s == [] {
    } else if le(s[|s| - 1], y) {
      TiesAppend(s, [y], le, x);
    } else {
      var init, last := s[..|s| - 1], s[|s| - 1];
      InsertTies(y, init, le, x);
      TiesAppend(Insert(y, init, le), [last], le, x);
      TiesAppend(init, [last], le, x);
      assert s == init + [last];
      // `y` and `last` cannot both be tied with `x`: then `le(last, y)` would hold.
      assert !(Tied(le, y, x) && Tied(le, last, x));
    }
  }

  /** Stability: the elements tied with any `x` appear in the same order before and after sorting. */
  lemma {:induction false} SortByStable<T(!new)>(s: seq<T>, le: (T, T) -> bool, x: T)
    requires TotalPreorder(le)
    ensures Ties(SortBy(s, le), le, x) == Ties(s, le, x)
  {
    if s != [] {
      var init, last := s[..|s| - 1], s[|s| - 1];
      assert s == init + [last];
      calc {
        Ties(SortBy(s, le), le, x);
        Ties(Insert(last, SortBy(init, le), le), le, x);
        { InsertTies(last, SortBy(init, le), le, x); }
        Ties(SortBy(init, le), le, x) + Ties([last], le, x);
        { SortByStable(init, le, x); }
        Ties(init, le, x) + Ties([last], le, x);
        { TiesAppend(init, [last], le, x); }
        Ties(s, le, x);
      }
    }
  }

  lemma InsertShift<T>(x: T, p: seq<T>, j: nat, le: (T, T) -> bool)
    requires 0 < j <= |p| && !le(p[j - 1], x)
    ensures Insert(x, p[..j], le) + p[j..] == Insert(x, p[..j - 1], le) + p[j - 1..]
  {
    assert p[..j][..j - 1] == p[..j - 1];
  }

  lemma InsertStop<T>(x: T, p: seq<T>, j: nat, le: (T, T) -> bool)
    requires j <= |p| && (j == 0 || le(p[j - 1], x))
    ensures Insert(x, p[..j], le) + p[j..] == p[..j] + [x] + p[j..]
  {
  }

  /** Moves `a[i]` left past the elements of `a[..i]` it strictly precedes. */
  method InsertLast<T>(a: array<T>, i: nat, le: (T, T) -> bool)
    requires i < a.Length
    modifies a
    ensures a[..i + 1] == Insert(old(a[i]), old(a[..i]), le)
    ensures forall k :: i < k < a.Length ==> a[k] == old(a[k])
  {
    var x := a[i];
    ghost var p := a[..i];
    var j := i;
    assert p[..j] == p && p[j..] == [];
    while j > 0 && !le(a[j - 1], x)
      invariant 0 <= j <= i
      invariant forall k :: 0 <= k < j ==> a[k] == p[k]
      invariant forall k :: j < k <= i ==> a[k] == p[k - 1]
      invariant forall k :: i < k < a.Length ==> a[k] == old(a[k])
      invariant Insert(x, p, le) == Insert(x, p[..j], le) + p[j..]
    {
      InsertShift(x, p, j, le);
      a[j] := a[j - 1];
      j := j - 1;
    }
    a[j] := x;
    InsertStop(x, p, j, le);
    Placed(a[..i + 1], p, x, j);
  }

  /** A sequence holding `p[..j]`, then `x`, then the rest of `p` shifted one step right is `p` with `x` inserted at `j`. */
  lemma Placed<T>(s: seq<T>, p: seq<T>, x: T, j: nat)
    requires |s| == |p| + 1 && j <= |p|
    requires forall k :: 0 <= k < j ==> s[k] == p[k]
    requires s[j] == x
    requires forall k :: j < k < |s| ==> s[k] == p[k - 1]
    ensures s == p[..j] + [x] + p[j..]
  {
    var r := p[..j] + [x] + p[j..];
    forall k | 0 <= k < |s|
      ensures s[k] == r[k]
    {
    }
  }

  lemma SortByPrefix<T>(s: seq<T>, i: nat, le: (T, T) -> bool)
    requires i < |s|
    ensures SortBy(s[..i + 1], le) == Insert(s[i], SortBy(s[..i], le), le)
  {
    assert s[..i + 1][..i] == s[..i];
  }

  /** Sorts `a` in place by insertion, shifting larger elements one step right. */
  method SortInPlace<T>(a: array<T>, le: (T, T) -> bool)
    modifies a
    ensures a[..] == SortBy(old(a[..]), le)
  {
    ghost var s := a[..];
    var i := 0;
    while i < a.Length
      invariant 0 <= i <= a.Length
      invariant a[..i] == SortBy(s[..i], le)
      invariant forall k :: i <= k < a.Length ==> a[k] == s[k]
    {
      assert a[i] == s[i];
      InsertLast(a, i, le);
      SortByPrefix(s, i, le);
      assert a[i + 1..] == s[i + 1..];
      i := i + 1;
    }
    assert s[..a.Length] == s;
  }
}
