/**
  * The array-backed binary max-heap of the projects section: `heapifyDown`,
  * `heapifyUp`, `buildHeap` and the batch pop loop of `popMany`
  * (components/ProjectsHeapStack.tsx, lines 43-60 and 72-81).
  * Position `k > 0` has its parent at `(k - 1) / 2`; a heap keeps every
  * parent at least as large as its children under a comparator `cmp` whose
  * sign orders its arguments. The source's helpers call its one `compare`;
  * here the comparator is a parameter, and the projects section passes
  * `RepoPriority.Compare`, whose laws RepoPriority proves.
  */
module Heap {
  import opened Wrappers

  /** `x` is at least as large as `y` under `cmp`. */
  predicate AtLeast<T>(cmp: (T, T) -> int, x: T, y: T) {
    cmp(x, y) >= 0
  }

  /**
    * The laws of the comparator: every element ties with itself, of any two
    * one is at least as large as the other, and "at least as large" is
    * transitive.
    */
  ghost predicate Preorder<T(!new)>(cmp: (T, T) -> int) {
    && (forall x :: AtLeast(cmp, x, x))
    && (forall x, y :: cmp(x, y) <= 0 ==> AtLeast(cmp, y, x))
    && (forall x, y, z :: Chained(cmp, x, y, z) ==> AtLeast(cmp, x, z))
  }

  /**
    * `x`, `y`, `z` descend under `cmp`; stated as a predicate of its own so
    * that transitivity is used only where a proof asks for it.
    */
  ghost predicate Chained<T>(cmp: (T, T) -> int, x: T, y: T, z: T) {
    AtLeast(cmp, x, y) && AtLeast(cmp, y, z)
  }

  /** Transitivity of "at least as large". */
  lemma Transitive<T(!new)>(cmp: (T, T) -> int, x: T, y: T, z: T)
    requires Preorder(cmp) && AtLeast(cmp, x, y) && AtLeast(cmp, y, z)
    ensures AtLeast(cmp, x, z)
  {
    assert Chained(cmp, x, y, z);
  }

  /** The edge from position `k`'s parent down to `k` is in heap order. */
  ghost predicate EdgeOk<T(!new)>(cmp: (T, T) -> int, s: seq<T>, k: int) {
    0 < k < |s| && AtLeast(cmp, s[(k - 1) / 2], s[k])
  }

  /** Every parent is at least as large as its children. */
  ghost predicate IsHeap<T(!new)>(cmp: (T, T) -> int, s: seq<T>) {
    forall k :: 0 < k < |s| ==> EdgeOk(cmp, s, k)
  }

  /** Each element of `p` is at least as large as each element of `s`. */
  ghost predicate Dominates<T(!new)>(cmp: (T, T) -> int, p: seq<T>, s: seq<T>) {
    forall x, k :: 0 <= x < |p| && 0 <= k < |s| ==> AtLeast(cmp, p[x], s[k])
  }

  /** Non-increasing under `cmp`, for every pair of positions. */
  ghost predicate NonIncreasing<T(!new)>(cmp: (T, T) -> int, s: seq<T>) {
    forall x, y :: 0 <= x < y < |s| ==> AtLeast(cmp, s[x], s[y])
  }

  /** Position `x` is at least as large as position `x + 1`. */
  ghost predicate StepDown<T(!new)>(cmp: (T, T) -> int, s: seq<T>, x: int) {
    0 <= x < |s| - 1 && AtLeast(cmp, s[x], s[x + 1])
  }

  /** The root of a heap is a maximum of it. */
  lemma {:induction false} RootIsMax<T(!new)>(cmp: (T, T) -> int, s: seq<T>, k: nat)
    requires Preorder(cmp) && IsHeap(cmp, s) && k < |s|
    ensures AtLeast(cmp, s[0], s[k])
  {
    if k > 0 {
      RootIsMax(cmp, s, (k - 1) / 2);
      assert EdgeOk(cmp, s, k);
      Transitive(cmp, s[0], s[(k - 1) / 2], s[k]);
    }
  }

  /** Dominance carries over to any sub-multiset. */
  lemma DominatesSubset<T(!new)>(cmp: (T, T) -> int, p: seq<T>, s: seq<T>, t: seq<T>)
    requires Dominates(cmp, p, s) && multiset(t) <= multiset(s)
    ensures Dominates(cmp, p, t)
  {
    forall x, k | 0 <= x < |p| && 0 <= k < |t| ensures AtLeast(cmp, p[x], t[k]) {
      assert t[k] in multiset(t);
      assert t[k] in multiset(s);
      var m :| 0 <= m < |s| && s[m] == t[k];
    }
  }

  /** A sequence that is non-increasing between neighbours is non-increasing. */
  lemma {:induction false} ChainIsNonIncreasing<T(!new)>(cmp: (T, T) -> int, s: seq<T>)
    requires Preorder(cmp)
    requires forall x :: 0 <= x < |s| - 1 ==> StepDown(cmp, s, x)
    ensures NonIncreasing(cmp, s)
  {
    if |s| > 1 {
      var t := s[1..];
      forall x | 0 <= x < |t| - 1 ensures StepDown(cmp, t, x) {
        assert StepDown(cmp, s, x + 1);
      }
      ChainIsNonIncreasing(cmp, t);
      forall x, y | 0 <= x < y < |s| ensures AtLeast(cmp, s[x], s[y]) {
        if x > 0 {
          assert AtLeast(cmp, t[x - 1], t[y - 1]);
        } else if y > 1 {
          assert StepDown(cmp, s, 0);
          assert AtLeast(cmp, t[0], t[y - 1]);
          Transitive(cmp, s[0], s[1], s[y]);
        } else {
          assert StepDown(cmp, s, 0);
        }
      }
    }
  }

  /**
    * `heapifyDown(arr, i)` on the first `n` cells: given that every edge
    * whose parent lies after `i` is in heap order, afterwards every edge whose
    * parent is `i` or after is; it only swaps cells of the subtree at `i`.
    */
  method HeapifyDown<T(!new)>(cmp: (T, T) -> int, a: array<T>, n: nat, i: nat)
    requires Preorder(cmp)
    requires n <= a.Length
    requires forall k :: 0 < k < n && (k - 1) / 2 > i ==> EdgeOk(cmp, a[..n], k)
    modifies a
    ensures forall k :: 0 < k < n && (k - 1) / 2 >= i ==> EdgeOk(cmp, a[..n], k)
    ensures multiset(a[..n]) == multiset(old(a[..n]))
    ensures forall k :: 0 <= k < a.Length && (k < i || k >= n) ==> a[k] == old(a[k])
  {
    var j := i;
    while true
      invariant i <= j
      invariant j > i ==> (j - 1) / 2 >= i && j < n
      invariant multiset(a[..n]) == multiset(old(a[..n]))
      invariant forall k :: 0 <= k < a.Length && (k < i || k >= n) ==> a[k] == old(a[k])
      invariant forall k :: 0 < k < n && (k - 1) / 2 >= i && (k - 1) / 2 != j ==> EdgeOk(cmp, a[..n], k)
      invariant j > i && 2 * j + 1 < n ==> AtLeast(cmp, a[(j - 1) / 2], a[2 * j + 1])
      invariant j > i && 2 * j + 2 < n ==> AtLeast(cmp, a[(j - 1) / 2], a[2 * j + 2])
      decreases n - j
    {
      var l, r := 2 * j + 1, 2 * j + 2;
      var largest := j;
      if l < n && cmp(a[l], a[largest]) > 0 {
        largest := l;
      }
      if r < n && cmp(a[r], a[largest]) > 0 {
        if largest == l {
          Transitive(cmp, a[r], a[l], a[j]);
        } else if l < n {
          Transitive(cmp, a[r], a[j], a[l]);
        }
        largest := r;
      }
      if largest != j {
        SiftStep(cmp, a, n, i, j, largest);
        j := largest;
      } else {
        break;
      }
    }
  }

  /** One swap of `heapifyDown`: cell `j` trades places with its larger child `c`. */
  method SiftStep<T(!new)>(cmp: (T, T) -> int, a: array<T>, n: nat, i: nat, j: nat, c: nat)
    requires Preorder(cmp)
    requires n <= a.Length && i <= j < c < n && (c == 2 * j + 1 || c == 2 * j + 2)
    requires j > i ==> (j - 1) / 2 >= i
    requires AtLeast(cmp, a[c], a[j])
    requires 2 * j + 1 < n ==> AtLeast(cmp, a[c], a[2 * j + 1])
    requires 2 * j + 2 < n ==> AtLeast(cmp, a[c], a[2 * j + 2])
    requires forall k :: 0 < k < n && (k - 1) / 2 >= i && (k - 1) / 2 != j ==> EdgeOk(cmp, a[..n], k)
    requires j > i && 2 * j + 1 < n ==> AtLeast(cmp, a[(j - 1) / 2], a[2 * j + 1])
    requires j > i && 2 * j + 2 < n ==> AtLeast(cmp, a[(j - 1) / 2], a[2 * j + 2])
    modifies a
    ensures multiset(a[..n]) == multiset(old(a[..n]))
    ensures forall k :: 0 <= k < a.Length && k != j && k != c ==> a[k] == old(a[k])
    ensures forall k :: 0 < k < n && (k - 1) / 2 >= i && (k - 1) / 2 != c ==> EdgeOk(cmp, a[..n], k)
    ensures 2 * c + 1 < n ==> AtLeast(cmp, a[j], a[2 * c + 1])
    ensures 2 * c + 2 < n ==> AtLeast(cmp, a[j], a[2 * c + 2])
  {
    ghost var before := a[..n];
    a[j], a[c] := a[c], a[j];
    SwapDownEdges(cmp, before, i, j, c);
    assert a[..n] == Swap(before, j, c);
  }

  /** The swap of `SiftStep` stated on the values of the first `n` cells. */
  lemma SwapDownEdges<T(!new)>(cmp: (T, T) -> int, s: seq<T>, i: nat, j: nat, c: nat)
    requires Preorder(cmp)
    requires i <= j < c < |s| && (c == 2 * j + 1 || c == 2 * j + 2)
    requires j > i ==> (j - 1) / 2 >= i
    requires AtLeast(cmp, s[c], s[j])
    requires 2 * j + 1 < |s| ==> AtLeast(cmp, s[c], s[2 * j + 1])
    requires 2 * j + 2 < |s| ==> AtLeast(cmp, s[c], s[2 * j + 2])
    requires forall k :: 0 < k < |s| && (k - 1) / 2 >= i && (k - 1) / 2 != j ==> EdgeOk(cmp, s, k)
    requires j > i && 2 * j + 1 < |s| ==> AtLeast(cmp, s[(j - 1) / 2], s[2 * j + 1])
    requires j > i && 2 * j + 2 < |s| ==> AtLeast(cmp, s[(j - 1) / 2], s[2 * j + 2])
    ensures forall k :: 0 < k < |s| && (k - 1) / 2 >= i && (k - 1) / 2 != c ==> EdgeOk(cmp, Swap(s, j, c), k)
    ensures 2 * c + 1 < |s| ==> AtLeast(cmp, Swap(s, j, c)[j], Swap(s, j, c)[2 * c + 1])
    ensures 2 * c + 2 < |s| ==> AtLeast(cmp, Swap(s, j, c)[j], Swap(s, j, c)[2 * c + 2])
  {
    var t := Swap(s, j, c);
    forall k | 0 < k < |s| && (k - 1) / 2 >= i && (k - 1) / 2 != c
      ensures EdgeOk(cmp, t, k)
    {
      var p := (k - 1) / 2;
      if p == j {
        assert t[p] == s[c];
      } else if k == j {
        assert t[k] == s[c] && t[p] == s[p];
      } else {
        assert k != c;
        assert EdgeOk(cmp, s, k);
      }
    }
    if 2 * c + 1 < |s| { assert EdgeOk(cmp, s, 2 * c + 1); }
    if 2 * c + 2 < |s| { assert EdgeOk(cmp, s, 2 * c + 2); }
  }

  /**
    * `heapifyUp(arr, i)`: given that every edge except the one above `i` is in
    * heap order (and `i`'s parent already dominates `i`'s children), the
    * whole array becomes a heap by swaps along the path from `i` to the root.
    */
  method HeapifyUp<T(!new)>(cmp: (T, T) -> int, a: array<T>, i: nat)
    requires Preorder(cmp)
    requires i < a.Length
    requires forall k :: 0 < k < a.Length && k != i ==> EdgeOk(cmp, a[..], k)
    requires i > 0 && 2 * i + 1 < a.Length ==> AtLeast(cmp, a[(i - 1) / 2], a[2 * i + 1])
    requires i > 0 && 2 * i + 2 < a.Length ==> AtLeast(cmp, a[(i - 1) / 2], a[2 * i + 2])
    modifies a
    ensures IsHeap(cmp, a[..])
    ensures multiset(a[..]) == multiset(old(a[..]))
    ensures forall k :: i < k < a.Length ==> a[k] == old(a[k])
  {
    var j := i;
    while j > 0
      invariant j <= i
      invariant multiset(a[..]) == multiset(old(a[..]))
      invariant forall k :: i < k < a.Length ==> a[k] == old(a[k])
      invariant forall k :: 0 < k < a.Length && k != j ==> EdgeOk(cmp, a[..], k)
      invariant j > 0 && 2 * j + 1 < a.Length ==> AtLeast(cmp, a[(j - 1) / 2], a[2 * j + 1])
      invariant j > 0 && 2 * j + 2 < a.Length ==> AtLeast(cmp, a[(j - 1) / 2], a[2 * j + 2])
    {
      var p := (j - 1) / 2;
      if cmp(a[j], a[p]) > 0 {
        RiseStep(cmp, a, j, p);
        j := p;
      } else {
        assert EdgeOk(cmp, a[..], j);
        break;
      }
    }
  }

  /** One swap of `heapifyUp`: cell `j` trades places with its smaller parent `p`. */
  method RiseStep<T(!new)>(cmp: (T, T) -> int, a: array<T>, j: nat, p: nat)
    requires Preorder(cmp)
    requires 0 < j < a.Length && p == (j - 1) / 2
    requires cmp(a[j], a[p]) > 0
    requires forall k :: 0 < k < a.Length && k != j ==> EdgeOk(cmp, a[..], k)
    requires 2 * j + 1 < a.Length ==> AtLeast(cmp, a[p], a[2 * j + 1])
    requires 2 * j + 2 < a.Length ==> AtLeast(cmp, a[p], a[2 * j + 2])
    modifies a
    ensures multiset(a[..]) == multiset(old(a[..]))
    ensures forall k :: 0 <= k < a.Length && k != j && k != p ==> a[k] == old(a[k])
    ensures forall k :: 0 < k < a.Length && k != p ==> EdgeOk(cmp, a[..], k)
    ensures p > 0 && 2 * p + 1 < a.Length ==> AtLeast(cmp, a[(p - 1) / 2], a[2 * p + 1])
    ensures p > 0 && 2 * p + 2 < a.Length ==> AtLeast(cmp, a[(p - 1) / 2], a[2 * p + 2])
  {
    ghost var before := a[..];
    a[j], a[p] := a[p], a[j];
    assert a[..] == Swap(before, j, p);
    SwapUpEdges(cmp, before, j, p);
  }

  /** `s` with positions `x` and `y` exchanged. */
  function Swap<T>(s: seq<T>, x: nat, y: nat): (t: seq<T>)
    requires x < |s| && y < |s|
    ensures |t| == |s| && t[x] == s[y] && t[y] == s[x]
    ensures forall k :: 0 <= k < |s| && k != x && k != y ==> t[k] == s[k]
    ensures multiset(t) == multiset(s)
  {
    s[x := s[y]][y := s[x]]
  }

  /** The heap-order facts behind one swap of `heapifyUp`. */
  lemma SwapUpEdges<T(!new)>(cmp: (T, T) -> int, s: seq<T>, j: nat, p: nat)
    requires Preorder(cmp)
    requires 0 < j < |s| && p == (j - 1) / 2
    requires cmp(s[j], s[p]) > 0
    requires forall k :: 0 < k < |s| && k != j ==> EdgeOk(cmp, s, k)
    requires 2 * j + 1 < |s| ==> AtLeast(cmp, s[p], s[2 * j + 1])
    requires 2 * j + 2 < |s| ==> AtLeast(cmp, s[p], s[2 * j + 2])
    ensures forall k :: 0 < k < |s| && k != p ==> EdgeOk(cmp, Swap(s, j, p), k)
    ensures p > 0 && 2 * p + 1 < |s| ==> AtLeast(cmp, Swap(s, j, p)[(p - 1) / 2], Swap(s, j, p)[2 * p + 1])
    ensures p > 0 && 2 * p + 2 < |s| ==> AtLeast(cmp, Swap(s, j, p)[(p - 1) / 2], Swap(s, j, p)[2 * p + 2])
  {
    var t := Swap(s, j, p);
    forall k | 0 < k < |s| && k != p ensures EdgeOk(cmp, t, k) {
      if k == j {
      } else if (k - 1) / 2 == p {
        assert EdgeOk(cmp, s, k);
        Transitive(cmp, s[j], s[p], s[k]);
      } else if (k - 1) / 2 == j {
      } else {
        assert EdgeOk(cmp, s, k);
      }
    }
    if p > 0 {
      var g := (p - 1) / 2;
      assert EdgeOk(cmp, s, p);
      if 2 * p + 1 < |s| && 2 * p + 1 != j {
        assert EdgeOk(cmp, s, 2 * p + 1);
        Transitive(cmp, s[g], s[p], s[2 * p + 1]);
      }
      if 2 * p + 2 < |s| && 2 * p + 2 != j {
        assert EdgeOk(cmp, s, 2 * p + 2);
        Transitive(cmp, s[g], s[p], s[2 * p + 2]);
      }
    }
  }

  /** `buildHeap`: a heap holding exactly the given items (the input is a value, so it is untouched). */
  method BuildHeap<T(!new)>(cmp: (T, T) -> int, items: seq<T>) returns (h: seq<T>)
    requires Preorder(cmp)
    ensures IsHeap(cmp, h)
    ensures multiset(h) == multiset(items)
  {
    var a := new T[|items|](k requires 0 <= k < |items| => items[k]);
    assert a[..] == items;
    var n := a.Length;
    var i := n / 2 - 1;
    while i >= 0
      invariant -1 <= i < n
      invariant forall k :: 0 < k < n && (k - 1) / 2 > i ==> EdgeOk(cmp, a[..n], k)
      invariant multiset(a[..]) == multiset(items)
    {
      assert a[..n] == a[..];
      HeapifyDown(cmp, a, n, i);
      assert a[..n] == a[..];
      i := i - 1;
    }
    assert a[..n] == a[..];
    h := a[..];
  }

  /** How many roots `popMany(count)` removes from a heap of `n` (all of them when `count` is undefined). */
  function BatchSize(count: Option<int>, n: nat): (k: nat)
    ensures k <= n
    ensures count == None ==> k == n
    ensures count.Some? && count.value <= 0 ==> k == 0
    ensures count.Some? && 0 < count.value ==> k == if count.value < n then count.value else n
  {
    var limit := count.GetOr(n);
    if limit <= 0 then 0 else if limit < n then limit else n
  }

  /**
    * Appending the root of a heap that `popped` dominates keeps `popped`
    * descending step by step and dominating the heap.
    */
  lemma PushRoot<T(!new)>(cmp: (T, T) -> int, popped: seq<T>, heap: seq<T>)
    requires Preorder(cmp) && IsHeap(cmp, heap) && |heap| > 0
    requires Dominates(cmp, popped, heap)
    requires forall x :: 0 <= x < |popped| - 1 ==> StepDown(cmp, popped, x)
    ensures forall x :: 0 <= x < |popped| ==> StepDown(cmp, popped + [heap[0]], x)
    ensures Dominates(cmp, popped + [heap[0]], heap)
  {
    var q := popped + [heap[0]];
    forall k | 0 <= k < |heap| ensures AtLeast(cmp, heap[0], heap[k]) {
      RootIsMax(cmp, heap, k);
    }
    forall x | 0 <= x < |popped| ensures StepDown(cmp, q, x) {
      if x < |popped| - 1 {
        assert StepDown(cmp, popped, x);
      } else {
        assert AtLeast(cmp, popped[x], heap[0]);
      }
    }
  }

  /**
    * Moving the last cell of a heap to the root (dropping the old root)
    * leaves every edge below the root's children in heap order.
    */
  lemma LastToRoot<T(!new)>(cmp: (T, T) -> int, heap: seq<T>)
    requires IsHeap(cmp, heap) && |heap| > 1
    ensures var t := [heap[|heap| - 1]] + heap[1..|heap| - 1];
      && (forall k :: 0 < k < |t| && (k - 1) / 2 > 0 ==> EdgeOk(cmp, t, k))
      && multiset(heap) == multiset{heap[0]} + multiset(t)
  {
    var n := |heap| - 1;
    var t := [heap[n]] + heap[1..n];
    forall k | 0 < k < |t| && (k - 1) / 2 > 0 ensures EdgeOk(cmp, t, k) {
      assert EdgeOk(cmp, heap, k);
    }
    assert heap == [heap[0]] + heap[1..n] + [heap[n]];
  }

  /**
    * One round of the `popMany` loop on the first `n` cells: takes the root,
    * moves the last cell to the root and sifts it down, leaving a heap of the
    * other `n - 1` cells.
    */
  method PopRoot<T(!new)>(cmp: (T, T) -> int, a: array<T>, n: nat) returns (top: T)
    requires Preorder(cmp) && 0 < n <= a.Length && IsHeap(cmp, a[..n])
    modifies a
    ensures top == old(a[0])
    ensures multiset(old(a[..n])) == multiset{top} + multiset(a[..n - 1])
    ensures IsHeap(cmp, a[..n - 1])
  {
    ghost var heap := a[..n];
    top := a[0];
    var last := a[n - 1];
    if n > 1 {
      a[0] := last;
      assert a[..n - 1] == [heap[n - 1]] + heap[1..n - 1];
      LastToRoot(cmp, heap);
      HeapifyDown(cmp, a, n - 1, 0);
    } else {
      assert heap == [top];
    }
  }

  /**
    * What `PopBatch` keeps: `popped` and the remaining heap `h` hold the
    * elements of `prev`, `popped` steps down, and each of its elements is at
    * least every element of `h`.
    */
  ghost predicate BatchInv<T(!new)>(cmp: (T, T) -> int, prev: seq<T>, popped: seq<T>, h: seq<T>) {
    multiset(popped) + multiset(h) == multiset(prev) &&
    IsHeap(cmp, h) &&
    Dominates(cmp, popped, h) &&
    forall x :: 0 <= x < |popped| - 1 ==> StepDown(cmp, popped, x)
  }

  /** Moving the root of the remaining heap to the end of `popped` keeps the loop's invariants. */
  lemma BatchStep<T(!new)>(cmp: (T, T) -> int, prev: seq<T>, popped: seq<T>, heap: seq<T>, top: T, rest: seq<T>)
    requires Preorder(cmp) && BatchInv(cmp, prev, popped, heap) && |heap| > 0 && top == heap[0]
    requires multiset(heap) == multiset{top} + multiset(rest) && IsHeap(cmp, rest)
    ensures BatchInv(cmp, prev, popped + [top], rest)
  {
    PushRoot(cmp, popped, heap);
    DominatesSubset(cmp, popped + [top], heap, rest);
  }

  /**
    * The updater of `popMany`: pops `BatchSize(count, |prev|)` roots from a
    * copy of `prev`. The popped items come out in non-increasing order, each
    * dominating everything that remains; popped and remaining together are a
    * permutation of `prev`, and what remains is a heap.
    */
  method PopBatch<T(!new)>(cmp: (T, T) -> int, prev: seq<T>, count: Option<int>) returns (popped: seq<T>, rest: seq<T>)
    requires Preorder(cmp) && IsHeap(cmp, prev)
    ensures |popped| == BatchSize(count, |prev|)
    ensures multiset(popped) + multiset(rest) == multiset(prev)
    ensures IsHeap(cmp, rest)
    ensures NonIncreasing(cmp, popped)
    ensures Dominates(cmp, popped, rest)
    ensures popped != [] ==> popped[0] == prev[0]
  {
    var a := new T[|prev|](k requires 0 <= k < |prev| => prev[k]);
    assert a[..] == prev;
    var n := a.Length;
    assert a[..n] == prev;
    var limit := count.GetOr(|prev|);
    popped := [];
    var i := 0;
    while i < limit && n > 0
      invariant 0 <= n <= a.Length == |prev|
      invariant i == |popped| == |prev| - n
      invariant i == 0 || i <= limit
      invariant BatchInv(cmp, prev, popped, a[..n])
      invariant popped != [] ==> popped[0] == prev[0]
      invariant popped == [] ==> a[..n] == prev
    {
      ghost var heap := a[..n];
      var top := PopRoot(cmp, a, n);
      BatchStep(cmp, prev, popped, heap, top, a[..n - 1]);
      popped := popped + [top];
      n := n - 1;
      i := i + 1;
    }
    ChainIsNonIncreasing(cmp, popped);
    rest := a[..n];
  }
}
