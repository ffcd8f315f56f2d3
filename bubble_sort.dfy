/**
  * The bubble sort of the sorting visualiser (components/DSAPlayground.tsx,
  * lines 194-206), without the animation: the input is copied into a fresh
  * array, outer pass `i` bubbles the largest value of `a[..n - i]` up to
  * position `n - i - 1` by swapping out-of-order neighbours.
  */
module BubbleSort {

  predicate Sorted(s: seq<int>) {
    forall p, q :: 0 <= p < q < |s| ==> s[p] <= s[q]
  }

  /**
    * Positions `k..` hold their final values: that suffix is sorted and no
    * value in front of it is larger than a value in it.
    */
  predicate Settled(s: seq<int>, k: nat)
    requires k <= |s|
  {
    (forall p, q :: k <= p < q < |s| ==> s[p] <= s[q]) &&
    (forall p, q :: 0 <= p < k <= q < |s| ==> s[p] <= s[q])
  }

  /** `sort`: copy the values, run the passes, return the sorted copy. */
  method Sort(arr: seq<int>) returns (sorted: seq<int>)
    ensures Sorted(sorted)
    ensures multiset(sorted) == multiset(arr)
  {
    var a := new int[|arr|](k requires 0 <= k < |arr| => arr[k]);
    assert a[..] == arr;
    var n := a.Length;
    for i := 0 to n
      invariant Settled(a[..], n - i)
      invariant multiset(a[..]) == multiset(arr)
    {
      Pass(a, n - i);
    }
    sorted := a[..];
  }

  /**
    * One outer pass: the inner loop over `j < m - 1` swaps `a[j]` and
    * `a[j + 1]` when they are out of order, which leaves the largest value
    * of `a[..m]` at `a[m - 1]`.
    */
  method Pass(a: array<int>, m: nat)
    requires 1 <= m <= a.Length
    requires Settled(a[..], m)
    modifies a
    ensures Settled(a[..], m - 1)
    ensures multiset(a[..]) == multiset(old(a[..]))
    ensures a[m..] == old(a[m..])
  {
    for j := 0 to m - 1
      invariant PassInv(a[..], old(a[..]), j, m)
    {
      ghost var before := a[..];
      if a[j] > a[j + 1] {
        a[j], a[j + 1] := a[j + 1], a[j];
      }
      BubbleStep(before, old(a[..]), j, m);
      assert a[..] == Bubble(before, j);
    }
    PassDone(a[..], old(a[..]), m);
  }

  /**
    * The inner loop's invariant after `j` steps from `s0`: the largest value of
    * `s[..j + 1]` is at `s[j]`, the suffix from `m` is settled and untouched,
    * and the values are those of `s0`.
    */
  predicate PassInv(s: seq<int>, s0: seq<int>, j: nat, m: nat) {
    j < m <= |s| == |s0| &&
    (forall p :: 0 <= p < j ==> s[p] <= s[j]) &&
    Settled(s, m) && multiset(s) == multiset(s0) && s[m..] == s0[m..]
  }

  /** The inner loop's body on the values: swap `s[j]` and `s[j + 1]` when out of order. */
  function Bubble(s: seq<int>, j: nat): seq<int>
    requires j + 1 < |s|
  {
    if s[j] > s[j + 1] then s[j := s[j + 1]][j + 1 := s[j]] else s
  }

  /** One step of the inner loop carries the largest value so far along and keeps the suffix settled. */
  lemma BubbleStep(s: seq<int>, s0: seq<int>, j: nat, m: nat)
    requires j + 1 < m && PassInv(s, s0, j, m)
    ensures PassInv(Bubble(s, j), s0, j + 1, m)
  {
    var t := Bubble(s, j);
    if s[j] > s[j + 1] {
      SwapSame(s, j);
      assert forall p :: 0 <= p < m ==> t[p] == s[p] || t[p] == s[j] || t[p] == s[j + 1];
      assert t[m..] == s[m..];
    }
  }

  /** When the inner loop ends, the largest value of `s[..m]` sits at `m - 1`: the suffix from `m - 1` is settled. */
  lemma PassDone(s: seq<int>, s0: seq<int>, m: nat)
    requires m >= 1 && PassInv(s, s0, m - 1, m)
    ensures Settled(s, m - 1)
  {
  }

  lemma SwapSame(s: seq<int>, j: nat)
    requires j + 1 < |s|
    ensures multiset(s[j := s[j + 1]][j + 1 := s[j]]) == multiset(s)
  {
  }

  /** Two sorted arrangements of the same values are the same sequence. */
  lemma {:induction false} SortedUnique(s: seq<int>, t: seq<int>)
    requires Sorted(s) && Sorted(t) && multiset(s) == multiset(t)
    ensures s == t
    decreases |s|
  {
    SameLength(s, t);
    if s != [] {
      SameFirst(s, t);
      DropFirst(s);
      DropFirst(t);
      SortedUnique(s[1..], t[1..]);
      assert s == [s[0]] + s[1..] && t == [t[0]] + t[1..];
    }
  }

  lemma SameLength(s: seq<int>, t: seq<int>)
    requires multiset(s) == multiset(t)
    ensures |s| == |t|
  {
    assert |multiset(s)| == |s| && |multiset(t)| == |t|;
  }

  /** Sorted arrangements of the same values start with the same (least) value. */
  lemma SameFirst(s: seq<int>, t: seq<int>)
    requires s != [] && |s| == |t| && Sorted(s) && Sorted(t) && multiset(s) == multiset(t)
    ensures s[0] == t[0]
  {
    assert s[0] in multiset(t);
    assert t[0] in multiset(s);
    var i :| 0 <= i < |t| && t[i] == s[0];
    var j :| 0 <= j < |s| && s[j] == t[0];
  }

  /** Settled arrangements with a non-empty suffix end with the same (greatest) value. */
  lemma SameLast(s: seq<int>, k: nat, t: seq<int>)
    requires k < |s| == |t| && Settled(s, k) && Sorted(t) && multiset(s) == multiset(t)
    ensures s[|s| - 1] == t[|t| - 1]
  {
    var last := |s| - 1;
    assert s[last] in multiset(t);
    assert t[last] in multiset(s);
    var i :| 0 <= i < |t| && t[i] == s[last];
    var j :| 0 <= j < |s| && s[j] == t[last];
    assert s[j] <= s[last];
    assert t[i] <= t[last];
  }

  lemma DropFirst(s: seq<int>)
    requires s != []
    ensures multiset(s[1..]) == multiset(s) - multiset{s[0]}
  {
    assert s == [s[0]] + s[1..];
  }

  lemma DropLast(s: seq<int>)
    requires s != []
    ensures multiset(s[..|s| - 1]) == multiset(s) - multiset{s[|s| - 1]}
  {
    assert s == s[..|s| - 1] + [s[|s| - 1]];
  }

  /**
    * A settled suffix already holds its final values: it agrees with every
    * sorted arrangement of the same values.
    */
  lemma {:induction false} SettledSuffixIsFinal(s: seq<int>, k: nat, t: seq<int>)
    requires k <= |s| && Settled(s, k)
    requires Sorted(t) && multiset(t) == multiset(s)
    ensures |t| == |s| && t[k..] == s[k..]
    decreases |s| - k
  {
    SameLength(s, t);
    if k < |s| {
      var last := |s| - 1;
      SameLast(s, k, t);
      DropLast(s);
      DropLast(t);
      SettledSuffixIsFinal(s[..last], k, t[..last]);
      SplitLast(s, k);
      SplitLast(t, k);
    }
  }

  lemma SplitLast(s: seq<int>, k: nat)
    requires k < |s|
    ensures s[k..] == s[..|s| - 1][k..] + [s[|s| - 1]]
  {
  }
}
