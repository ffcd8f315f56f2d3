/**
  * The N-Queens solver (components/DSAPlayground.tsx, lines 234-258)
  * without the animation. The board is an array `b` with `b[row]` the
  * column of the queen in `row`, `-1` for a row not yet filled; `safe`
  * checks a square against the rows above it and `backtrack` tries the
  * columns of a row from left to right, counting the complete placements.
  */
module NQueens {

  function Abs(x: int): (r: nat)
    ensures r == x || r == -x
  {
    if x < 0 then -x else x
  }

  /** No queen in the rows above `row` shares `col` or a diagonal with it. */
  predicate SafeSpec(row: nat, col: int, b: seq<int>)
    requires row <= |b|
  {
    forall r :: 0 <= r < row ==> b[r] != col && Abs(b[r] - col) != Abs(r - row)
  }

  /** `safe(row, col, b)`: scan the rows above, stop at the first attack. */
  method Safe(row: nat, col: int, b: array<int>) returns (ok: bool)
    requires row <= b.Length
    ensures ok <==> SafeSpec(row, col, b[..])
  {
    for r := 0 to row
      invariant forall r' :: 0 <= r' < r ==> b[r'] != col && Abs(b[r'] - col) != Abs(r' - row)
    {
      var c := b[r];
      if c == col || Abs(c - col) == Abs(r - row) {
        return false;
      }
    }
    return true;
  }

  /** Two queens at `(i, ci)` and `(j, cj)` attack each other. */
  predicate Attack(i: int, ci: int, j: int, cj: int) {
    ci == cj || Abs(ci - cj) == Abs(i - j)
  }

  /** A placement of `|s|` queens in the first rows, columns in `0..n`, no two attacking. */
  predicate Placement(n: nat, s: seq<int>) {
    (forall i :: 0 <= i < |s| ==> 0 <= s[i] < n) &&
    (forall i, j :: 0 <= i < j < |s| ==> !Attack(i, s[i], j, s[j]))
  }

  /** A solution: all `n` rows filled, no two queens attacking. */
  predicate Solution(n: nat, s: seq<int>) {
    |s| == n && Placement(n, s)
  }

  /**
    * The complete boards `backtrack` reaches from the filled rows `p`, in
    * the order it reaches them.
    */
  function Extensions(n: nat, p: seq<int>): seq<seq<int>>
    requires |p| <= n
    decreases n - |p|, n + 1
  {
    if |p| == n then [p] else ExtendCols(n, p, 0)
  }

  /** The boards reached from `p` by the columns `col..n` of the next row. */
  function ExtendCols(n: nat, p: seq<int>, col: nat): seq<seq<int>>
    requires |p| < n
    decreases n - |p|, n - col
  {
    if col >= n then []
    else (if SafeSpec(|p|, col, p) then Extensions(n, p + [col]) else []) + ExtendCols(n, p, col + 1)
  }

  /**
    * `backtrack(row)`: with rows `..row` filled and the rest `-1`, adds to
    * `count` one per complete board reached and leaves `b` as it found it.
    */
  method Backtrack(b: array<int>, n: nat, row: nat, count: nat) returns (total: nat)
    requires b.Length == n && row <= n
    requires forall i :: row <= i < n ==> b[i] == -1
    modifies b
    ensures b[..] == old(b[..])
    ensures total == count + |Extensions(n, old(b[..row]))|
    decreases n - row
  {
    if row == n {
      return count + 1;
    }
    ghost var p := b[..row];
    total := count;
    for col := 0 to n
      invariant b[..] == old(b[..])
      invariant total + |ExtendCols(n, p, col)| == count + |ExtendCols(n, p, 0)|
    {
      var ok := Safe(row, col, b);
      SafeOnPrefix(row, col, b[..], p);
      ExtendColsUnfold(n, p, col);
      if ok {
        b[row] := col;
        assert b[..row + 1] == p + [col];
        total := Backtrack(b, n, row + 1, total);
        b[row] := -1;
        assert b[..] == old(b[..]);
      }
    }
  }

  /** `safe` looks only at the rows above `row`. */
  lemma SafeOnPrefix(row: nat, col: int, s: seq<int>, p: seq<int>)
    requires row <= |s| && p == s[..row]
    ensures SafeSpec(row, col, s) == SafeSpec(|p|, col, p)
  {
    assert forall r :: 0 <= r < row ==> s[r] == p[r];
  }

  /** One column of the next row: the boards through it, then those through the later columns. */
  lemma ExtendColsUnfold(n: nat, p: seq<int>, col: nat)
    requires |p| < n && col < n
    ensures |ExtendCols(n, p, col)| ==
      (if SafeSpec(|p|, col, p) then |Extensions(n, p + [col])| else 0) + |ExtendCols(n, p, col + 1)|
  {
  }

  /**
    * `solve`: an all-`-1` board of size `n`, `backtrack(0)`; returns the
    * number of solutions and the board as `solve` leaves it.
    */
  method Solve(n: nat) returns (count: nat, board: seq<int>)
    ensures count == |Extensions(n, [])|
    ensures board == seq(n, _ => -1)
  {
    var b := new int[n](_ => -1);
    count := Backtrack(b, n, 0, 0);
    assert b[..0] == [];
    board := b[..];
  }

  /** Placing a safe column extends a placement. */
  lemma SafeExtends(n: nat, p: seq<int>, col: int)
    requires Placement(n, p) && 0 <= col < n && SafeSpec(|p|, col, p)
    ensures Placement(n, p + [col])
  {
    var s := p + [col];
    forall i, j | 0 <= i < j < |s|
      ensures !Attack(i, s[i], j, s[j])
    {
      if j < |p| {
        assert s[i] == p[i] && s[j] == p[j];
      } else {
        assert s[i] == p[i] && s[j] == col;
      }
    }
  }

  /** A placement's next row is safe exactly where the extended board is a placement. */
  lemma PlacementNeedsSafe(n: nat, p: seq<int>, col: int)
    requires Placement(n, p + [col])
    ensures SafeSpec(|p|, col, p)
  {
    var s := p + [col];
    forall r | 0 <= r < |p|
      ensures p[r] != col && Abs(p[r] - col) != Abs(r - |p|)
    {
      assert s[r] == p[r] && s[|p|] == col;
      assert !Attack(r, s[r], |p|, s[|p|]);
    }
  }

  /**
    * From a placement `p`, the boards reached are exactly the solutions
    * that begin with `p`.
    */
  lemma {:induction false} ExtensionsAreSolutions(n: nat, p: seq<int>, s: seq<int>)
    requires |p| <= n && Placement(n, p)
    ensures s in Extensions(n, p) <==> Solution(n, s) && s[..|p|] == p
    decreases n - |p|, n + 1
  {
    if |p| == n {
      if Solution(n, s) && s[..|p|] == p {
        assert s == p;
      }
    } else {
      ExtendColsAreSolutions(n, p, 0, s);
    }
  }

  /** The same for the columns `col..n` of the next row. */
  lemma {:induction false} ExtendColsAreSolutions(n: nat, p: seq<int>, col: nat, s: seq<int>)
    requires |p| < n && Placement(n, p)
    ensures s in ExtendCols(n, p, col) <==> Solution(n, s) && s[..|p|] == p && col <= s[|p|]
    decreases n - |p|, n - col
  {
    if col < n {
      var here := if SafeSpec(|p|, col, p) then Extensions(n, p + [col]) else [];
      assert ExtendCols(n, p, col) == here + ExtendCols(n, p, col + 1);
      ExtendColsAreSolutions(n, p, col + 1, s);
      var q := p + [col];
      if SafeSpec(|p|, col, p) {
        SafeExtends(n, p, col);
        ExtensionsAreSolutions(n, q, s);
        if s in here {
          assert s[..|q|] == q;
          assert s[..|p|] == q[..|p|] == p;
          assert s[|p|] == q[|p|] == col;
        }
      }
      if Solution(n, s) && s[..|p|] == p && s[|p|] == col {
        assert s[..|q|] == q;
        assert s[..|q|] == s[..|p| + 1];
        assert Placement(n, q) by {
          assert forall i :: 0 <= i < |q| ==> q[i] == s[i];
        }
        PlacementNeedsSafe(n, p, col);
        ExtensionsAreSolutions(n, q, s);
      }
    } else {
      if Solution(n, s) && s[..|p|] == p {
        assert s[|p|] < n;
      }
    }
  }

  /** No board occurs twice. */
  predicate Distinct(xs: seq<seq<int>>) {
    forall i, j :: 0 <= i < j < |xs| ==> xs[i] != xs[j]
  }

  lemma DistinctConcat(xs: seq<seq<int>>, ys: seq<seq<int>>)
    requires Distinct(xs) && Distinct(ys)
    requires forall i, j :: 0 <= i < |xs| && 0 <= j < |ys| ==> xs[i] != ys[j]
    ensures Distinct(xs + ys)
  {
    var zs := xs + ys;
    forall i, j | 0 <= i < j < |zs|
      ensures zs[i] != zs[j]
    {
      if j < |xs| {
        assert zs[i] == xs[i] && zs[j] == xs[j];
      } else if i < |xs| {
        assert zs[i] == xs[i] && zs[j] == ys[j - |xs|];
      } else {
        assert zs[i] == ys[i - |xs|] && zs[j] == ys[j - |xs|];
      }
    }
  }

  /**
    * `backtrack` never reaches the same board twice, so the count `solve`
    * returns is the number of distinct solutions.
    */
  lemma {:induction false} ExtensionsDistinct(n: nat, p: seq<int>)
    requires |p| <= n && Placement(n, p)
    ensures Distinct(Extensions(n, p))
    decreases n - |p|, n + 1
  {
    if |p| < n {
      ExtendColsDistinct(n, p, 0);
    }
  }

  lemma {:induction false} ExtendColsDistinct(n: nat, p: seq<int>, col: nat)
    requires |p| < n && Placement(n, p)
    ensures Distinct(ExtendCols(n, p, col))
    decreases n - |p|, n - col
  {
    if col < n {
      var q := p + [col];
      var here := if SafeSpec(|p|, col, p) then Extensions(n, q) else [];
      var rest := ExtendCols(n, p, col + 1);
      ExtendColsDistinct(n, p, col + 1);
      if SafeSpec(|p|, col, p) {
        SafeExtends(n, p, col);
        ExtensionsDistinct(n, q);
        forall i, j | 0 <= i < |here| && 0 <= j < |rest|
          ensures here[i] != rest[j]
        {
          ExtensionsAreSolutions(n, q, here[i]);
          ExtendColsAreSolutions(n, p, col + 1, rest[j]);
          assert here[i][|p|] == here[i][..|q|][|p|] == col;
        }
      }
      DistinctConcat(here, rest);
    }
  }

  /** `solve` counts each solution of the `n`-queens problem exactly once. */
  lemma SolveCountsSolutions(n: nat)
    ensures Distinct(Extensions(n, []))
    ensures forall s :: s in Extensions(n, []) <==> Solution(n, s)
  {
    ExtensionsDistinct(n, []);
    forall s
      ensures s in Extensions(n, []) <==> Solution(n, s)
    {
      ExtensionsAreSolutions(n, [], s);
    }
  }
}
