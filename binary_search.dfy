/**
  * The binary search explorer (components/DSAPlayground.tsx, lines
  * 298-306): the array of even numbers, the clamping of a target and the
  * search loop, without the animation.
  */
module BinarySearch {
  import opened Wrappers
  import opened Numbers

  /**
    * The length `Array.from({length: size})` takes from the Size field: the
    * whole part of a positive size, and 0 for a size that is not positive.
    */
  function ArrayLength(size: real): (n: nat)
    ensures size <= 0.0 ==> n == 0
    ensures size > 0.0 ==> n as real <= size < n as real + 1.0
  {
    if size <= 0.0 then 0 else size.Floor
  }

  /** `makeArray(n)` for a length `n`: `n` values, the `i`-th being `i * 2`. */
  function MakeArray(n: nat): (a: seq<int>)
    ensures |a| == n
  {
    seq(n, i => i * 2)
  }

  predicate Even(v: int) {
    v % 2 == 0
  }

  predicate Sorted(a: seq<int>) {
    forall i, j :: 0 <= i < j < |a| ==> a[i] <= a[j]
  }

  /** The values of `makeArray(n)` are the even numbers in `0 .. 2n`, strictly increasing. */
  lemma MakeArrayValues(n: nat)
    ensures forall i, j :: 0 <= i < j < n ==> MakeArray(n)[i] < MakeArray(n)[j]
    ensures Sorted(MakeArray(n))
    ensures forall v :: v in MakeArray(n) <==> Even(v) && 0 <= v < 2 * n
  {
    var a := MakeArray(n);
    forall v | Even(v) && 0 <= v < 2 * n
      ensures v in a
    {
      assert a[v / 2] == v;
    }
  }

  /** `Math.round(x)`: the integer nearest to `x`, a half rounding up. */
  function Round(x: real): (k: int)
    ensures x - 0.5 < k as real <= x + 0.5
  {
    (x + 0.5).Floor
  }

  /**
    * `Math.round(v / 2) * 2`: an even integer within 1 of `v`; an even
    * integer is kept and an odd one goes up by one.
    */
  function RoundToEven(v: real): (e: int)
    ensures Even(e) && v - 1.0 < e as real <= v + 1.0
    ensures Whole(v) && Even(v.Floor) ==> e == v.Floor
    ensures Whole(v) && !Even(v.Floor) ==> e == v.Floor + 1
  {
    Round(v / 2.0) * 2
  }

  function Min(x: int, y: int): int {
    if x <= y then x else y
  }

  function Max(x: int, y: int): int {
    if x >= y then x else y
  }

  /**
    * `snapToValid(val)` on any number: unchanged on an empty array;
    * otherwise clamped to `[arr[0], arr[last]]`, rounded to even and clamped
    * again, which leaves a whole number.
    */
  function SnapToValid(arr: seq<int>, val: real): (r: real)
    ensures arr == [] ==> r == val
    ensures arr != [] ==> Whole(r)
    ensures arr != [] && arr[0] <= arr[|arr| - 1] ==> arr[0] as real <= r <= arr[|arr| - 1] as real
  {
    if arr == [] then val
    else
      var lo, hi := arr[0], arr[|arr| - 1];
      var v := if val < lo as real then lo as real else val;
      var v := if v > hi as real then hi as real else v;
      Min(hi, Max(lo, RoundToEven(v))) as real
  }

  /**
    * On the array of evens the snapped value of any number is an even
    * whole number in range, so it is an element of the array; an even whole
    * target already in range is kept.
    */
  lemma SnapOnEvens(n: nat, val: real)
    requires n > 0
    ensures var r := SnapToValid(MakeArray(n), val);
      Whole(r) && Even(r.Floor) && 0 <= r.Floor <= 2 * (n - 1) && r.Floor in MakeArray(n)
    ensures Whole(val) && Even(val.Floor) && 0 <= val.Floor <= 2 * (n - 1) ==> SnapToValid(MakeArray(n), val) == val
  {
    MakeArrayValues(n);
    var a := MakeArray(n);
    assert a[0] == 0 && a[n - 1] == 2 * (n - 1);
  }

  /**
    * The search loop: `l = 0`, `r = arr.length - 1`; probe the middle, stop
    * when it holds `target`, otherwise continue in the half that can hold
    * it. Returns the index it records as found, if any.
    */
  method Search(arr: seq<int>, target: int) returns (found: Option<nat>)
    ensures found.Some? ==> found.value < |arr| && arr[found.value] == target
    ensures Sorted(arr) && target in arr ==> found.Some?
  {
    var l, r := 0, |arr| - 1;
    found := None;
    while l <= r
      invariant 0 <= l && r < |arr| && l <= r + 1
      invariant found == None
      invariant Sorted(arr) ==> forall i :: 0 <= i < |arr| && arr[i] == target ==> l <= i <= r
      decreases r - l
    {
      var m := (l + r) / 2;
      if arr[m] == target {
        found := Some(m);
        break;
      }
      if arr[m] < target {
        l := m + 1;
      } else {
        r := m - 1;
      }
    }
  }
}
