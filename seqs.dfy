/**
 * Sequence helpers shared by the packer and the editing model: element-wise
 * mapping, the index range 0..n-1, and how both interact with multisets.
 */
module Seqs {

  /** f applied to every element of s, in order. */
  function Map<T, U>(f: T -> U, s: seq<T>): (r: seq<U>)
    ensures |r| == |s|
    ensures forall i :: 0 <= i < |s| ==> r[i] == f(s[i])
  {
    seq(|s|, i requires 0 <= i < |s| => f(s[i]))
  }

  /** A non-empty sequence is its head before its tail, also with more after it. */
  lemma HeadTail<T>(a: seq<T>, b: seq<T>)
    requires |a| > 0
    ensures a == [a[0]] + a[1..] && a + b == [a[0]] + (a[1..] + b)
  {
  }

  /** The indices 0, 1, ..., n - 1. */
  function Range(n: nat): (r: seq<int>)
    ensures |r| == n
    ensures forall i :: 0 <= i < n ==> r[i] == i
  {
    seq(n, i => i)
  }

  lemma RangeMembers(n: nat, x: int)
    ensures x in multiset(Range(n)) <==> 0 <= x < n
  {
    if 0 <= x < n {
      assert Range(n)[x] == x;
    }
  }

  lemma RangeSnoc(n: nat)
    ensures Range(n + 1) == Range(n) + [n]
  {
  }

  /** s without its element at position k. */
  function EraseAt<T>(s: seq<T>, k: int): (r: seq<T>)
    requires 0 <= k < |s|
    ensures |r| == |s| - 1
    ensures forall i :: 0 <= i < k ==> r[i] == s[i]
    ensures forall i :: k <= i < |r| ==> r[i] == s[i + 1]
  {
    s[..k] + s[k + 1..]
  }

  /** Removing the element at k leaves the multiset without one copy of it. */
  lemma RemoveMultiset<T>(s: seq<T>, k: int)
    requires 0 <= k < |s|
    ensures multiset(s[..k] + s[k + 1..]) == multiset(s) - multiset{s[k]}
  {
    assert s == s[..k] + [s[k]] + s[k + 1..];
  }

  /**
   * Taking out an element before the last one: the result still ends with
   * the last element, after the prefix with that element taken out.
   */
  lemma RemoveBeforeLast<T>(s: seq<T>, k: int)
    requires 0 <= k < |s| - 1
    ensures var u, t := s[..k] + s[k + 1..], s[..|s| - 1];
      |u| == |s| - 1 && u[..|u| - 1] == t[..k] + t[k + 1..] && u[|u| - 1] == s[|s| - 1]
  {
  }

  /** Taking out the last element leaves the prefix. */
  lemma RemoveLast<T>(s: seq<T>)
    requires |s| > 0
    ensures s[..|s| - 1] + s[|s|..] == s[..|s| - 1]
  {
  }

  /** Mapping commutes with taking out the element at k. */
  lemma MapRemove<T, U>(f: T -> U, s: seq<T>, k: int)
    requires 0 <= k < |s|
    ensures multiset(Map(f, s)) == multiset(Map(f, s[..k] + s[k + 1..])) + multiset{f(s[k])}
  {
    var m := Map(f, s);
    assert Map(f, s[..k] + s[k + 1..]) == m[..k] + m[k + 1..];
    assert m == m[..k] + [m[k]] + m[k + 1..];
  }

  /**
   * For a non-empty a with the elements of b: the position in b of a's last
   * element, such that the rest of a and the rest of b again agree.
   */
  lemma PickSame<T>(a: seq<T>, b: seq<T>) returns (k: int)
    requires multiset(a) == multiset(b) && |a| > 0
    ensures 0 <= k < |b| && b[k] == a[|a| - 1]
    ensures multiset(a[..|a| - 1]) == multiset(b[..k] + b[k + 1..])
  {
    var j := |a| - 1;
    assert a == a[..j] + [a[j]];
    assert a[j] in multiset(b);
    k :| 0 <= k < |b| && b[k] == a[j];
    RemoveMultiset(b, k);
  }

  /** Mapping two sequences with the same elements gives the same elements. */
  lemma {:induction false} MapRespectsMultiset<T, U>(f: T -> U, a: seq<T>, b: seq<T>)
    requires multiset(a) == multiset(b)
    ensures multiset(Map(f, a)) == multiset(Map(f, b))
    decreases |a|
  {
    if |a| == 0 {
      assert |b| == |multiset(b)| == 0;
    } else {
      var j := |a| - 1;
      var k := PickSame(a, b);
      MapRespectsMultiset(f, a[..j], b[..k] + b[k + 1..]);
      assert a[..j] == a[..j] + a[j + 1..];
      MapRemove(f, a, j);
      MapRemove(f, b, k);
    }
  }

  /** One copy of x added to both sides cancels. */
  lemma CancelOne<T>(a: multiset<T>, b: multiset<T>, x: T)
    requires a + multiset{x} == b + multiset{x}
    ensures a == b
  {
    forall y
      ensures a[y] == b[y]
    {
      assert (a + multiset{x})[y] == (b + multiset{x})[y];
    }
  }

  /** s never decreases from one position to a later one. */
  predicate NonDecreasing(s: seq<int>)
  {
    forall i, j :: 0 <= i < j < |s| ==> s[i] <= s[j]
  }

  /** The last element of a sorted sequence holding exactly 0..n-1 is n - 1. */
  lemma SortedRangeLast(s: seq<int>, n: nat)
    requires n > 0 && |s| == n
    requires multiset(s) == multiset(Range(n))
    requires NonDecreasing(s)
    ensures s[n - 1] == n - 1
  {
    RangeMembers(n, n - 1);
    assert n - 1 in multiset(s);
    var j :| 0 <= j < |s| && s[j] == n - 1;
    assert s[j] <= s[n - 1];
    RangeMembers(n, s[n - 1]);
    assert s[n - 1] in multiset(s);
  }

  lemma PrefixNonDecreasing(s: seq<int>, m: nat)
    requires NonDecreasing(s) && m <= |s|
    ensures NonDecreasing(s[..m])
  {
    assert forall i :: 0 <= i < m ==> s[..m][i] == s[i];
  }

  /**
   * A non-decreasing sequence holding exactly the indices 0..n-1 is the
   * sequence 0, 1, ..., n - 1.
   */
  lemma {:induction false} SortedPermutationOfRange(s: seq<int>, n: nat)
    requires multiset(s) == multiset(Range(n))
    requires NonDecreasing(s)
    ensures s == Range(n)
  {
    assert |s| == n by {
      assert |multiset(s)| == |multiset(Range(n))|;
    }
    if n > 0 {
      SortedRangeLast(s, n);
      var t := s[..n - 1];
      assert s == t + [n - 1];
      RangeSnoc(n - 1);
      assert multiset(s) == multiset(t) + multiset{n - 1};
      CancelOne(multiset(t), multiset(Range(n - 1)), n - 1);
      PrefixNonDecreasing(s, n - 1);
      SortedPermutationOfRange(t, n - 1);
    }
  }
}
