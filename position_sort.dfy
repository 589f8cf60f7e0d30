/**
 * `bubble_sort`, which orders a hit's occurrence buffer in place before the
 * highlighter walks it.
 */
module PositionSort {
  import opened SearchTypes

  ghost predicate Sorted(s: seq<Position>)
  {
    forall i, j :: 0 <= i < j < |s| ==> s[i] <= s[j]
  }

  /** Exchanges `a[i]` and `a[j]` and nothing else. */
  method Swap(a: array<Position>, i: nat, j: nat)
    requires i < j < a.Length
    modifies a
    ensures a[i] == old(a[j]) && a[j] == old(a[i])
    ensures forall m :: 0 <= m < a.Length && m != i && m != j ==> a[m] == old(a[m])
    ensures multiset(a[..]) == multiset(old(a[..]))
  {
    a[i], a[j] := a[j], a[i];
  }

  /**
   * The inner loop of `bubble_sort` for a fixed `i`: every `arr[j]`,
   * `i <= j < n`, smaller than `arr[i]` is exchanged with it. Afterwards
   * `arr[i]` is the least of `arr[i..n)`; entries outside `[i, n)` are
   * untouched, the array is a permutation of what it was, and a prefix that
   * bounded `arr[i..n)` from below still does.
   */
  method PlaceLeast(arr: array<Position>, i: nat, n: nat)
    requires i < n <= arr.Length
    requires forall k, m :: 0 <= k < i <= m < n ==> arr[k] <= arr[m]
    modifies arr
    ensures forall m :: i <= m < n ==> arr[i] <= arr[m]
    ensures forall m :: 0 <= m < arr.Length && !(i <= m < n) ==> arr[m] == old(arr[m])
    ensures forall k, m :: 0 <= k < i <= m < n ==> arr[k] <= arr[m]
    ensures multiset(arr[..]) == multiset(old(arr[..]))
  {
    var j: nat := i;
    while j < n
      invariant i <= j <= n
      invariant forall m :: i <= m < j ==> arr[i] <= arr[m]
      invariant forall m :: 0 <= m < arr.Length && !(i <= m < n) ==> arr[m] == old(arr[m])
      invariant forall k, m :: 0 <= k < i <= m < n ==> arr[k] <= arr[m]
      invariant multiset(arr[..]) == multiset(old(arr[..]))
    {
      if arr[i] > arr[j] {
        Swap(arr, i, j);
      }
      j := j + 1;
    }
  }

  /**
   * `bubble_sort(arr, n)`: the outer loop places the least remaining entry
   * at each `i` in turn. The first `n` entries end sorted and permuted; the
   * rest of the array is untouched, so `n = 0` changes nothing.
   */
  method BubbleSort(arr: array<Position>, n: U32)
    requires n <= arr.Length
    modifies arr
    ensures Sorted(arr[..n])
    ensures multiset(arr[..n]) == multiset(old(arr[..n]))
    ensures arr[n..] == old(arr[n..])
  {
    var i: nat := 0;
    while i < n
      invariant i <= n
      invariant forall k, m :: 0 <= k < m < i ==> arr[k] <= arr[m]
      invariant forall k, m :: 0 <= k < i <= m < n ==> arr[k] <= arr[m]
      invariant multiset(arr[..]) == multiset(old(arr[..]))
      invariant forall m :: n <= m < arr.Length ==> arr[m] == old(arr[m])
    {
      PlaceLeast(arr, i, n);
      i := i + 1;
    }
    PrefixMultiset(old(arr[..]), arr[..], n);
  }

  /** Equal multisets and equal tails give equal multisets of the prefixes. */
  lemma PrefixMultiset(s: seq<Position>, t: seq<Position>, n: nat)
    requires n <= |s| == |t|
    requires multiset(s) == multiset(t)
    requires forall m :: n <= m < |s| ==> s[m] == t[m]
    ensures multiset(s[..n]) == multiset(t[..n])
    ensures s[n..] == t[n..]
  {
    assert s == s[..n] + s[n..] && t == t[..n] + t[n..];
    assert s[n..] == t[n..];
    assert multiset(s) == multiset(s[..n]) + multiset(s[n..]);
    assert multiset(t) == multiset(t[..n]) + multiset(t[n..]);
    MultisetCancel(multiset(s[..n]), multiset(t[..n]), multiset(s[n..]));
  }

  lemma MultisetCancel(a: multiset<Position>, b: multiset<Position>, c: multiset<Position>)
    requires a + c == b + c
    ensures a == b
  {
    forall x ensures a[x] == b[x] {
      assert (a + c)[x] == (b + c)[x];
    }
  }

  /**
   * A sorted permutation is unique, so `BubbleSort`'s contract fixes its
   * result: any two sorted arrangements of the same positions are equal.
   */
  lemma {:induction false} SortedPermutationUnique(s: seq<Position>, t: seq<Position>)
    requires Sorted(s) && Sorted(t) && multiset(s) == multiset(t)
    ensures s == t
    decreases |s|
  {
    if s != [] {
      assert |t| == |multiset(t)| == |multiset(s)| == |s|;
      assert s[0] in multiset(t) && t[0] in multiset(s);
      assert s[0] == t[0] by {
        var i :| 0 <= i < |t| && t[i] == s[0];
        var j :| 0 <= j < |s| && s[j] == t[0];
        assert t[0] <= s[0] && s[0] <= t[0];
      }
      assert s == [s[0]] + s[1..] && t == [t[0]] + t[1..];
      assert multiset(s) == multiset(s[1..]) + multiset{s[0]};
      assert multiset(t) == multiset(t[1..]) + multiset{s[0]};
      MultisetCancel(multiset(s[1..]), multiset(t[1..]), multiset{s[0]});
      SortedPermutationUnique(s[1..], t[1..]);
    } else {
      assert |t| == |multiset(t)| == 0;
    }
  }
}
