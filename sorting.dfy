/** Vec::sort on paths under their total order: an in-place sort whose
    result is the unique ascending permutation of its input. */
module Sorting {

  /** Any two elements are comparable. */
  ghost predicate Total<P(!new)>(le: (P, P) -> bool) {
    forall x, y :: le(x, y) || le(y, x)
  }

  /** Elements below each other are equal: the order agrees with ==. */
  ghost predicate Antisymmetric<P(!new)>(le: (P, P) -> bool) {
    forall x, y :: le(x, y) && le(y, x) ==> x == y
  }

  ghost predicate Transitive<P(!new)>(le: (P, P) -> bool) {
    forall x, y, z :: le(x, y) && le(y, z) ==> le(x, z)
  }

  /** Rust's Ord contract for a "less or equal" test. */
  ghost predicate TotalOrder<P(!new)>(le: (P, P) -> bool) {
    Total(le) && Antisymmetric(le) && Transitive(le)
  }

  /** Ascending under le. */
  ghost predicate Sorted<P>(le: (P, P) -> bool, s: seq<P>) {
    forall i, j :: 0 <= i < j < |s| ==> le(s[i], s[j])
  }

  /** Sorts a in place by insertion, swapping each new element down to its
      place. */
  method SortInPlace<P(!new)>(a: array<P>, le: (P, P) -> bool)
    requires TotalOrder(le)
    modifies a
    ensures Sorted(le, a[..])
    ensures multiset(a[..]) == multiset(old(a[..]))
  {
    var i := 0;
    while i < a.Length
      invariant 0 <= i <= a.Length
      invariant Sorted(le, a[..i])
      invariant multiset(a[..]) == multiset(old(a[..]))
    {
      InsertDown(a, le, i);
      i := i + 1;
    }
    assert a[..a.Length] == a[..];
  }

  /** One pass of the insertion: swaps a[i] down past the larger elements
      of the sorted prefix a[..i], leaving the rest of the array alone. */
  method InsertDown<P(!new)>(a: array<P>, le: (P, P) -> bool, i: nat)
    requires TotalOrder(le)
    requires i < a.Length && Sorted(le, a[..i])
    modifies a
    ensures Sorted(le, a[..i + 1])
    ensures a[i + 1..] == old(a[i + 1..])
    ensures multiset(a[..]) == multiset(old(a[..]))
  {
    var j := i;
    while j > 0 && !le(a[j - 1], a[j])
      invariant 0 <= j <= i
      invariant forall k, l :: 0 <= k < l <= i && k != j && l != j ==> le(a[k], a[l])
      invariant forall l :: j < l <= i ==> le(a[j], a[l])
      invariant a[i + 1..] == old(a[i + 1..])
      invariant multiset(a[..]) == multiset(old(a[..]))
      decreases j
    {
      a[j - 1], a[j] := a[j], a[j - 1];
      j := j - 1;
    }
    InsertedSorted(le, a[..i + 1], j);
  }

  /** The state the inner loop stops in is sorted: the element at j is
      above its left neighbour and below everything to its right. */
  lemma InsertedSorted<P(!new)>(le: (P, P) -> bool, s: seq<P>, j: nat)
    requires TotalOrder(le)
    requires j < |s|
    requires forall k, l :: 0 <= k < l < |s| && k != j && l != j ==> le(s[k], s[l])
    requires forall l :: j < l < |s| ==> le(s[j], s[l])
    requires j > 0 ==> le(s[j - 1], s[j])
    ensures Sorted(le, s)
  {
    forall k, l | 0 <= k < l < |s| ensures le(s[k], s[l]) {
      if l == j && k < j - 1 {
        assert le(s[k], s[j - 1]);
      }
    }
  }

  /** A sorted permutation is unique: two ascending sequences with the
      same elements are equal. */
  lemma {:induction false} SortedUnique<P(!new)>(le: (P, P) -> bool, s: seq<P>, t: seq<P>)
    requires Antisymmetric(le)
    requires Sorted(le, s) && Sorted(le, t)
    requires multiset(s) == multiset(t)
    ensures s == t
    decreases |s|
  {
    if |s| == 0 {
      assert |multiset(t)| == 0;
    } else {
      assert |t| == |s| by { assert |multiset(t)| == |multiset(s)|; }
      assert t[0] in multiset(s) && s[0] in multiset(t);
      HeadIsLeast(le, s, t[0]);
      HeadIsLeast(le, t, s[0]);
      assert s[0] == t[0];
      TailMultiset(s);
      TailMultiset(t);
      SortedTail(le, s);
      SortedTail(le, t);
      SortedUnique(le, s[1..], t[1..]);
    }
  }

  lemma TailMultiset<P>(s: seq<P>)
    requires |s| > 0
    ensures multiset(s[1..]) == multiset(s) - multiset{s[0]}
  {
    assert s == [s[0]] + s[1..];
  }

  lemma SortedTail<P>(le: (P, P) -> bool, s: seq<P>)
    requires |s| > 0 && Sorted(le, s)
    ensures Sorted(le, s[1..])
  {
    forall i, j | 0 <= i < j < |s| - 1 ensures le(s[1..][i], s[1..][j]) {
      assert s[1..][i] == s[i + 1] && s[1..][j] == s[j + 1];
    }
  }

  /** The head of a sorted sequence is below each of its other elements. */
  lemma HeadIsLeast<P>(le: (P, P) -> bool, s: seq<P>, x: P)
    requires Sorted(le, s) && x in s
    ensures s[0] == x || le(s[0], x)
  {
    var i :| 0 <= i < |s| && s[i] == x;
  }
}
