/**
  * `levels(arr)` (components/ProjectsHeapStack.tsx, line 61): the heap array
  * cut into its tree levels, the first of width 1, each next one twice as
  * wide, the last one possibly short. The projects section draws one row per
  * level (line 142).
  */
module HeapLevels {
  import opened Numbers

  function Min(x: int, y: int): int {
    if x < y then x else y
  }

  /** The rows laid end to end. */
  function Concat<T>(rows: seq<seq<T>>): seq<T> {
    if rows == [] then [] else rows[0] + Concat(rows[1..])
  }

  /** Level `e` of the tree over `arr`: the cells from `2^e - 1` up to (not including) `2^(e+1) - 1`. */
  function Row<T>(arr: seq<T>, e: nat): seq<T>
    requires Pow2(e) - 1 < |arr|
  {
    arr[Pow2(e) - 1 .. Min(Pow2(e + 1) - 1, |arr|)]
  }

  /** The levels of `arr` from level `d` on. */
  function LevelsFrom<T>(arr: seq<T>, d: nat): seq<seq<T>>
    decreases |arr| - Pow2(d)
  {
    if Pow2(d) - 1 >= |arr| then [] else [Row(arr, d)] + LevelsFrom(arr, d + 1)
  }

  /**
    * `levels(arr)`: the loop that slices `arr[i .. i + w]` while doubling `w`
    * yields exactly the levels of `arr`.
    */
  method Levels<T>(arr: seq<T>) returns (out: seq<seq<T>>)
    ensures out == LevelsFrom(arr, 0)
  {
    out := [];
    var i, w := 0, 1;
    while i < |arr|
      invariant w == Pow2(|out|) && i == w - 1
      invariant out + LevelsFrom(arr, |out|) == LevelsFrom(arr, 0)
      decreases |arr| - i
    {
      var end := if i + w < |arr| then i + w else |arr|;
      assert arr[i..end] == Row(arr, |out|);
      out := out + [arr[i..end]];
      i, w := i + w, 2 * w;
    }
  }

  /** Laid end to end, the levels from `d` on are the rest of `arr` from position `2^d - 1`. */
  lemma {:induction false} ConcatLevelsFrom<T>(arr: seq<T>, d: nat)
    ensures Concat(LevelsFrom(arr, d)) == arr[Min(Pow2(d) - 1, |arr|)..]
    decreases |arr| - Pow2(d)
  {
    if Pow2(d) - 1 < |arr| {
      var rest := LevelsFrom(arr, d + 1);
      ConcatLevelsFrom(arr, d + 1);
      assert ([Row(arr, d)] + rest)[1..] == rest;
      assert arr[Pow2(d) - 1..] == Row(arr, d) + arr[Min(Pow2(d + 1) - 1, |arr|)..];
    }
  }

  /** Level `k` of the levels from `d` on is level `d + k` of the tree, which starts inside `arr`. */
  lemma {:induction false} LevelsFromAt<T>(arr: seq<T>, d: nat, k: nat)
    requires k < |LevelsFrom(arr, d)|
    ensures Pow2(d + k) - 1 < |arr| && LevelsFrom(arr, d)[k] == Row(arr, d + k)
    ensures k + 1 < |LevelsFrom(arr, d)| <==> Pow2(d + k + 1) - 1 < |arr|
    decreases k
  {
    if k > 0 {
      LevelsFromAt(arr, d + 1, k - 1);
    } else if Pow2(d + 1) - 1 < |arr| {
      assert |LevelsFrom(arr, d + 1)| > 0;
    }
  }

  /** Laid end to end the levels give back `arr`; there are none exactly when `arr` is empty. */
  lemma LevelsConcat<T>(arr: seq<T>)
    ensures Concat(LevelsFrom(arr, 0)) == arr
    ensures LevelsFrom(arr, 0) == [] <==> arr == []
  {
    ConcatLevelsFrom(arr, 0);
  }

  /**
    * What the projects section draws: level `li` is the slice of `arr`
    * starting at `2^li - 1`; it is non-empty, at most `2^li` wide, and
    * exactly that wide unless it is the last level.
    */
  lemma LevelWidth<T>(arr: seq<T>, li: nat)
    requires li < |LevelsFrom(arr, 0)|
    ensures Pow2(li) - 1 < |arr| && LevelsFrom(arr, 0)[li] == Row(arr, li)
    ensures 0 < |Row(arr, li)| <= Pow2(li)
    ensures li < |LevelsFrom(arr, 0)| - 1 ==> |Row(arr, li)| == Pow2(li)
  {
    LevelsFromAt(arr, 0, li);
    assert Pow2(li + 1) == 2 * Pow2(li);
  }

  /**
    * The levels line up with the heap's tree: element `idx` of level
    * `li + 1` is the cell `k = 2^(li+1) - 1 + idx`, and element `idx / 2`
    * of level `li` is its parent, the cell `(k - 1) / 2` that `heapifyDown`
    * and `heapifyUp` compare it with.
    */
  lemma LevelParent<T>(arr: seq<T>, li: nat, idx: nat)
    requires li + 1 < |LevelsFrom(arr, 0)| && idx < |LevelsFrom(arr, 0)[li + 1]|
    ensures idx / 2 < |LevelsFrom(arr, 0)[li]|
    ensures var k := Pow2(li + 1) - 1 + idx;
      0 < k < |arr| && LevelsFrom(arr, 0)[li + 1][idx] == arr[k] && LevelsFrom(arr, 0)[li][idx / 2] == arr[(k - 1) / 2]
  {
    LevelWidth(arr, li);
    LevelWidth(arr, li + 1);
    ParentIndex(li, idx);
    RowAt(arr, li + 1, idx);
    RowAt(arr, li, idx / 2);
  }

  lemma RowAt<T>(arr: seq<T>, e: nat, j: nat)
    requires Pow2(e) - 1 < |arr| && j < |Row(arr, e)|
    ensures Pow2(e) - 1 + j < |arr| && Row(arr, e)[j] == arr[Pow2(e) - 1 + j]
  {
  }

  lemma ParentIndex(li: nat, idx: nat)
    requires idx < Pow2(li + 1)
    ensures ((Pow2(li + 1) - 1 + idx) - 1) / 2 == Pow2(li) - 1 + idx / 2
    ensures idx / 2 < Pow2(li)
  {
  }
}
