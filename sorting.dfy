/** Python's in-place `list.sort(key=..., reverse=...)`, as used by the blender
    (descending by score) and by the diversity selector (ascending by selection
    position). */
module Sorting {

  /** `x` may precede `y` in the sorted list. */
  predicate InOrder<T>(key: T -> real, reverse: bool, x: T, y: T)
  {
    if reverse then key(x) >= key(y) else key(x) <= key(y)
  }

  ghost predicate SortedBy<T>(s: seq<T>, key: T -> real, reverse: bool)
  {
    forall i, j :: 0 <= i < j < |s| ==> InOrder(key, reverse, s[i], s[j])
  }

  ghost predicate AdjacentSortedBy<T>(s: seq<T>, key: T -> real, reverse: bool)
  {
    forall i :: 0 < i < |s| ==> InOrder(key, reverse, s[i - 1], s[i])
  }

  /** Sortedness checked on neighbours extends to every pair. */
  lemma {:induction false} AdjacentToSorted<T>(s: seq<T>, key: T -> real, reverse: bool)
    requires AdjacentSortedBy(s, key, reverse)
    ensures SortedBy(s, key, reverse)
  {
    if |s| > 1 {
      var n := |s| - 1;
      AdjacentToSorted(s[..n], key, reverse);
      assert forall i :: 0 <= i < n ==> s[..n][i] == s[i];
      forall i, j | 0 <= i < j < |s|
        ensures InOrder(key, reverse, s[i], s[j])
      {
        if j == n && i < n - 1 {
          assert InOrder(key, reverse, s[i], s[n - 1]);
        }
      }
    }
  }

  /** The first `n` elements of `a` are sorted, checked on neighbours. */
  ghost predicate PrefixSorted<T>(a: array<T>, n: int, key: T -> real, reverse: bool)
    reads a
  {
    forall p :: 0 < p < n && p < a.Length ==> InOrder(key, reverse, a[p - 1], a[p])
  }

  method Swap<T>(a: array<T>, i: int, j: int)
    requires 0 <= i < j < a.Length
    modifies a
    ensures a[i] == old(a[j]) && a[j] == old(a[i])
    ensures forall m :: 0 <= m < a.Length && m != i && m != j ==> a[m] == old(a[m])
    ensures multiset(a[..]) == multiset(old(a[..]))
  {
    a[i], a[j] := a[j], a[i];
  }

  /** One insertion step: `a[i]` moves left past every element it must
      precede, so the sorted prefix grows by one. */
  method Insert<T>(a: array<T>, i: int, key: T -> real, reverse: bool)
    requires 0 <= i < a.Length
    requires PrefixSorted(a, i, key, reverse)
    modifies a
    ensures PrefixSorted(a, i + 1, key, reverse)
    ensures forall m :: i < m < a.Length ==> a[m] == old(a[m])
    ensures multiset(a[..]) == multiset(old(a[..]))
  {
    var j := i;
    while j > 0 && !InOrder(key, reverse, a[j - 1], a[j])
      invariant 0 <= j <= i
      invariant forall p :: 0 < p <= i && p != j && p != j + 1 ==> InOrder(key, reverse, a[p - 1], a[p])
      invariant 0 < j < i ==> InOrder(key, reverse, a[j - 1], a[j + 1])
      invariant j < i ==> InOrder(key, reverse, a[j], a[j + 1])
      invariant forall m :: i < m < a.Length ==> a[m] == old(a[m])
      invariant multiset(a[..]) == multiset(old(a[..]))
    {
      Swap(a, j - 1, j);
      j := j - 1;
    }
  }

  /** Insertion sort. Equal keys are never swapped. */
  method SortBy<T>(a: array<T>, key: T -> real, reverse: bool)
    modifies a
    ensures SortedBy(a[..], key, reverse)
    ensures multiset(a[..]) == multiset(old(a[..]))
  {
    var i := 0;
    while i < a.Length
      invariant 0 <= i <= a.Length
      invariant PrefixSorted(a, i, key, reverse)
      invariant multiset(a[..]) == multiset(old(a[..]))
    {
      Insert(a, i, key, reverse);
      i := i + 1;
    }
    AdjacentToSorted(a[..], key, reverse);
  }

  /** `s.sort(key=key, reverse=reverse)` on a list held as a sequence. */
  method SortSeq<T>(s: seq<T>, key: T -> real, reverse: bool) returns (r: seq<T>)
    ensures SortedBy(r, key, reverse)
    ensures multiset(r) == multiset(s)
  {
    var a := new T[|s|](i requires 0 <= i < |s| => s[i]);
    assert a[..] == s;
    SortBy(a, key, reverse);
    r := a[..];
  }
}
