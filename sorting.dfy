/** Ascending sort of real sequences, standing for `np.sort`. */
module Sorting {

  ghost predicate Sorted(s: seq<real>)
  {
    forall i, j :: 0 <= i < j < |s| ==> s[i] <= s[j]
  }

  /** Inserts `x` into the sorted sequence `s`. */
  function Insert(x: real, s: seq<real>): (r: seq<real>)
    requires Sorted(s)
    ensures Sorted(r)
    ensures multiset(r) == multiset(s) + multiset{x}
    ensures |r| == |s| + 1
    ensures r[0] == x || (s != [] && r[0] == s[0])
  {
    if s == [] then [x]
    else if x <= s[0] then
      ConsSorted(x, s);
      [x] + s
    else
      InsertStep(x, s, Insert(x, s[1..]));
      [s[0]] + Insert(x, s[1..])
  }

  /** The step of Insert past a smaller head. */
  lemma InsertStep(x: real, s: seq<real>, t: seq<real>)
    requires Sorted(s) && s != [] && s[0] < x
    requires Sorted(t) && multiset(t) == multiset(s[1..]) + multiset{x}
    requires t != [] && (t[0] == x || (s[1..] != [] && t[0] == s[1..][0]))
    ensures Sorted([s[0]] + t)
    ensures multiset([s[0]] + t) == multiset(s) + multiset{x}
  {
    assert s == [s[0]] + s[1..];
    ConsSorted(s[0], t);
  }

  /** The ascending rearrangement of `s`. */
  function Sort(s: seq<real>): (r: seq<real>)
    ensures Sorted(r)
    ensures multiset(r) == multiset(s)
  {
    if s == [] then []
    else
      assert s == [s[0]] + s[1..];
      Insert(s[0], Sort(s[1..]))
  }

  /** A sorted sequence is determined by its multiset of elements. */
  lemma {:induction false} SortedUnique(a: seq<real>, b: seq<real>)
    requires Sorted(a) && Sorted(b)
    requires multiset(a) == multiset(b)
    ensures a == b
  {
    if a == [] {
      assert |b| == |multiset(b)| == 0;
    } else {
      SameHead(a, b);
      SortedUnique(a[1..], b[1..]);
      assert a == [a[0]] + a[1..];
      assert b == [b[0]] + b[1..];
    }
  }

  /** Two sorted sequences with the same elements start alike and go on
      with the same elements. */
  lemma SameHead(a: seq<real>, b: seq<real>)
    requires Sorted(a) && Sorted(b) && a != []
    requires multiset(a) == multiset(b)
    ensures b != [] && a[0] == b[0]
    ensures Sorted(a[1..]) && Sorted(b[1..])
    ensures multiset(a[1..]) == multiset(b[1..])
  {
    assert |a| == |multiset(a)| == |multiset(b)| == |b|;
    assert b[0] in multiset(a) by { assert b[0] in multiset(b); }
    assert a[0] in multiset(b) by { assert a[0] in multiset(a); }
    HeadIsLeast(a, b[0]);
    HeadIsLeast(b, a[0]);
    TailMultiset(a);
    TailMultiset(b);
    TailSorted(a);
    TailSorted(b);
  }

  lemma ConsSorted(h: real, t: seq<real>)
    requires Sorted(t) && (t != [] ==> h <= t[0])
    ensures Sorted([h] + t)
  {
    var r := [h] + t;
    forall i, j | 0 <= i < j < |r| ensures r[i] <= r[j] {
      if i > 0 {
        assert r[i] == t[i - 1] && r[j] == t[j - 1];
      } else {
        assert r[j] == t[j - 1];
      }
    }
  }

  lemma TailSorted(a: seq<real>)
    requires Sorted(a) && a != []
    ensures Sorted(a[1..])
  {
    assert forall k :: 0 <= k < |a| - 1 ==> a[1..][k] == a[k + 1];
  }

  /** The head of a sorted sequence is at most each of its elements. */
  lemma HeadIsLeast(a: seq<real>, x: real)
    requires Sorted(a) && x in multiset(a)
    ensures a != [] && a[0] <= x
  {
    var i :| 0 <= i < |a| && a[i] == x;
  }

  lemma TailMultiset(a: seq<real>)
    requires a != []
    ensures multiset(a[1..]) == multiset(a) - multiset{a[0]}
  {
    assert a == [a[0]] + a[1..];
  }

  /** A sorted sequence inside [0, 1] stays sorted between a leading 0 and a
      trailing 1. */
  lemma Framed(s: seq<real>)
    requires Sorted(s)
    requires forall k :: 0 <= k < |s| ==> 0.0 <= s[k] <= 1.0
    ensures Sorted([0.0] + s + [1.0])
  {
    var t := [0.0] + s + [1.0];
    assert forall k :: 0 < k < |t| - 1 ==> t[k] == s[k - 1];
  }

  /** Sorting forgets the order of its input. */
  lemma SortOfPermutation(a: seq<real>, b: seq<real>)
    requires multiset(a) == multiset(b)
    ensures Sort(a) == Sort(b)
  {
    SortedUnique(Sort(a), Sort(b));
  }

  /** A sorted sequence is its own sort. */
  lemma SortOfSorted(s: seq<real>)
    requires Sorted(s)
    ensures Sort(s) == s
  {
    SortedUnique(Sort(s), s);
  }
}
