/**
  * Tower of Hanoi (components/DSAPlayground.tsx, lines 136-159): the
  * recursive move generator and the replay loop of `play`. A peg is a
  * sequence of disk sizes whose last element is its top; the disks are
  * `1..n`, and `0` stands for the `undefined` that `pop()` returns on an
  * empty peg (which `play` would then push onto the target peg).
  */
module Hanoi {
  import opened Wrappers
  import opened Numbers

  datatype Move = Move(from: nat, to: nat)

  /** The moves `generateHanoiMoves(n, from, to, aux, acc)` appends to `acc`. */
  function HanoiMoves(n: nat, from: nat, to: nat, aux: nat): seq<Move> {
    if n == 0 then []
    else HanoiMoves(n - 1, from, aux, to) + [Move(from, to)] + HanoiMoves(n - 1, aux, to, from)
  }

  /** `generateHanoiMoves`: recursion that pushes each move onto the accumulator. */
  method GenerateHanoiMoves(n: nat, from: nat, to: nat, aux: nat, acc: seq<Move>) returns (out: seq<Move>)
    ensures out == acc + HanoiMoves(n, from, to, aux)
  {
    if n == 0 {
      return acc;
    }
    var left := GenerateHanoiMoves(n - 1, from, aux, to, acc);
    out := GenerateHanoiMoves(n - 1, aux, to, from, left + [Move(from, to)]);
    assert out == acc + (HanoiMoves(n - 1, from, aux, to) + [Move(from, to)] + HanoiMoves(n - 1, aux, to, from));
  }

  /**
    * `generateHanoiMoves` on the number the disks input stores, which need
    * not be whole: the recursion stops only when `n` is exactly 0. `fuel`
    * bounds its depth, and `None` stands for a recursion deeper than that.
    */
  function MovesOnNumber(n: real, from: nat, to: nat, aux: nat, fuel: nat): Option<seq<Move>>
    decreases fuel
  {
    if n == 0.0 then Some([])
    else if fuel == 0 then None
    else
      var left := MovesOnNumber(n - 1.0, from, aux, to, fuel - 1);
      var right := MovesOnNumber(n - 1.0, aux, to, from, fuel - 1);
      if left.None? || right.None? then None
      else Some(left.value + [Move(from, to)] + right.value)
  }

  /** On a whole number of disks the recursion ends within `n` levels, with the moves of `HanoiMoves`. */
  lemma {:induction false} WholeCountEnds(n: nat, from: nat, to: nat, aux: nat, fuel: nat)
    requires fuel >= n
    ensures MovesOnNumber(n as real, from, to, aux, fuel) == Some(HanoiMoves(n, from, to, aux))
  {
    if n > 0 {
      assert n as real - 1.0 == (n - 1) as real;
      WholeCountEnds(n - 1, from, aux, to, fuel - 1);
      WholeCountEnds(n - 1, aux, to, from, fuel - 1);
    }
  }

  /** On a negative or fractional count the recursion never reaches 0: no depth is enough. */
  lemma {:induction false} OtherCountNeverEnds(n: real, from: nat, to: nat, aux: nat, fuel: nat)
    requires !(0.0 <= n && Whole(n))
    ensures MovesOnNumber(n, from, to, aux, fuel) == None
    decreases fuel
  {
    if fuel > 0 {
      WholeSucc(n - 1.0);
      OtherCountNeverEnds(n - 1.0, from, aux, to, fuel - 1);
    }
  }

  /** One more than a whole non-negative number is one too. */
  lemma WholeSucc(x: real)
    ensures 0.0 <= x && Whole(x) ==> 0.0 <= x + 1.0 && Whole(x + 1.0)
  {
    if 0.0 <= x && Whole(x) {
      assert (x + 1.0).Floor == x.Floor + 1;
    }
  }

  /**
    * The `running` flag after `play`: `setRunning(true)` comes first, and
    * `setRunning(false)` is reached only when the move generation returns.
    */
  function RunningAfterPlay(disks: real, fuel: nat): bool {
    MovesOnNumber(disks, 0, 2, 1, fuel).None?
  }

  /** A count typed as `-1` or `2.5` leaves the panel running, whatever depth is allowed. */
  lemma StuckOnOtherCount(disks: real, fuel: nat)
    requires !(0.0 <= disks && Whole(disks))
    ensures RunningAfterPlay(disks, fuel)
  {
    OtherCountNeverEnds(disks, 0, 2, 1, fuel);
  }

  /** The count the input's `min` and `max` describe: a whole number of disks from 1 to 8. */
  function ClampDisks(x: real): (d: nat)
    ensures 1 <= d <= 8
    ensures Whole(x) && 1.0 <= x <= 8.0 ==> d as real == x
  {
    if x < 1.0 then 1 else if x > 8.0 then 8 else x.Floor
  }

  /** With the count clamped, `play` generates the moves and clears `running`, within 8 levels of recursion. */
  lemma ClampedPlayEnds(x: real, fuel: nat)
    requires fuel >= 8
    ensures MovesOnNumber(ClampDisks(x) as real, 0, 2, 1, fuel) == Some(HanoiMoves(ClampDisks(x), 0, 2, 1))
    ensures !RunningAfterPlay(ClampDisks(x) as real, fuel)
  {
    WholeCountEnds(ClampDisks(x), 0, 2, 1, fuel);
  }

  /** The generator emits `2^n - 1` moves (the count the page shows as optimal). */
  lemma {:induction false} MoveCount(n: nat, from: nat, to: nat, aux: nat)
    ensures |HanoiMoves(n, from, to, aux)| == Pow2(n) - 1
  {
    if n > 0 {
      MoveCount(n - 1, from, aux, to);
      MoveCount(n - 1, aux, to, from);
    }
  }

  /** Every move goes between two different pegs among `from`, `to` and `aux`. */
  lemma {:induction false} MovesUsePegs(n: nat, from: nat, to: nat, aux: nat)
    requires from != to && to != aux && aux != from
    ensures forall i :: 0 <= i < |HanoiMoves(n, from, to, aux)| ==>
      var m := HanoiMoves(n, from, to, aux)[i];
      m.from != m.to && m.from in {from, to, aux} && m.to in {from, to, aux}
  {
    if n > 0 {
      MovesUsePegs(n - 1, from, aux, to);
      MovesUsePegs(n - 1, aux, to, from);
    }
  }

  /** Moves whose pegs are all among the three. */
  predicate OnThreePegs(moves: seq<Move>) {
    forall i :: 0 <= i < |moves| ==> moves[i].from < 3 && moves[i].to < 3
  }

  lemma ThreePegMoves(n: nat, from: nat, to: nat, aux: nat)
    requires from < 3 && to < 3 && aux < 3 && from != to && to != aux && aux != from
    ensures OnThreePegs(HanoiMoves(n, from, to, aux))
  {
    MovesUsePegs(n, from, to, aux);
  }

  /** One round of the `play` loop: pop the top of `from` (0 when empty) and push it onto `to`. */
  function Step(pegs: seq<seq<int>>, m: Move): (next: seq<seq<int>>)
    requires |pegs| == 3 && m.from < 3 && m.to < 3
    ensures |next| == 3
  {
    var src := pegs[m.from];
    var d := if src == [] then 0 else src[|src| - 1];
    var popped := pegs[m.from := if src == [] then [] else src[..|src| - 1]];
    popped[m.to := popped[m.to] + [d]]
  }

  /** The pegs after replaying `moves` in order. */
  function Run(pegs: seq<seq<int>>, moves: seq<Move>): (final: seq<seq<int>>)
    requires |pegs| == 3 && OnThreePegs(moves)
    ensures |final| == 3
  {
    if moves == [] then pegs
    else Step(Run(pegs, moves[..|moves| - 1]), moves[|moves| - 1])
  }

  /** A move is legal when its source peg is not empty and its disk is smaller than the target's top. */
  predicate LegalStep(pegs: seq<seq<int>>, m: Move)
    requires |pegs| == 3 && m.from < 3 && m.to < 3
  {
    var src, dst := pegs[m.from], pegs[m.to];
    src != [] && (dst == [] || src[|src| - 1] < dst[|dst| - 1])
  }

  /**
    * The replay with every move checked: `None` as soon as a move is
    * illegal where it is made, otherwise the final pegs.
    */
  function Replay(pegs: seq<seq<int>>, moves: seq<Move>): (r: Option<seq<seq<int>>>)
    requires |pegs| == 3 && OnThreePegs(moves)
    ensures r.Some? ==> |r.value| == 3
  {
    if moves == [] then Some(pegs)
    else
      match Replay(pegs, moves[..|moves| - 1])
      case None => None
      case Some(p) =>
        if LegalStep(p, moves[|moves| - 1]) then Some(Step(p, moves[|moves| - 1])) else None
  }

  /** A checked replay that succeeds ends where the unchecked replay of `play` ends. */
  lemma {:induction false} ReplayIsRun(pegs: seq<seq<int>>, moves: seq<Move>)
    requires |pegs| == 3 && OnThreePegs(moves)
    ensures Replay(pegs, moves).Some? ==> Replay(pegs, moves).value == Run(pegs, moves)
  {
    if moves != [] {
      ReplayIsRun(pegs, moves[..|moves| - 1]);
    }
  }

  /**
    * `play`: copies the pegs, generates the moves for `disks` from peg 0 to
    * peg 2 over peg 1 and replays them one by one on the copy.
    */
  method Play(pegs: seq<seq<int>>, disks: nat) returns (final: seq<seq<int>>)
    requires |pegs| == 3
    ensures OnThreePegs(HanoiMoves(disks, 0, 2, 1))
    ensures final == Run(pegs, HanoiMoves(disks, 0, 2, 1))
  {
    var moves := GenerateHanoiMoves(disks, 0, 2, 1, []);
    assert moves == HanoiMoves(disks, 0, 2, 1);
    ThreePegMoves(disks, 0, 2, 1);
    assert OnThreePegs(moves);
    var local := new seq<int>[3](i requires 0 <= i < 3 => pegs[i]);
    assert local[..] == pegs;
    MoveAll(local, moves);
    final := local[..];
  }

  /** The `for` loop of `play`: each move in turn, in place on the copied pegs. */
  method MoveAll(local: array<seq<int>>, moves: seq<Move>)
    requires local.Length == 3 && OnThreePegs(moves)
    modifies local
    ensures local[..] == Run(old(local[..]), moves)
  {
    ghost var pegs := local[..];
    for k := 0 to |moves|
      invariant local[..] == Run(pegs, moves[..k])
    {
      RunSnoc(pegs, moves, k);
      MoveDisk(local, moves[k]);
    }
    assert moves[..|moves|] == moves;
  }

  /** Replaying one more move of a prefix is one more `Step`. */
  lemma RunSnoc(pegs: seq<seq<int>>, moves: seq<Move>, k: nat)
    requires |pegs| == 3 && OnThreePegs(moves) && k < |moves|
    ensures OnThreePegs(moves[..k]) && OnThreePegs(moves[..k + 1])
    ensures moves[k].from < 3 && moves[k].to < 3
    ensures Run(pegs, moves[..k + 1]) == Step(Run(pegs, moves[..k]), moves[k])
  {
    assert moves[..k + 1][..k] == moves[..k];
  }

  /** The body of the `play` loop on the copied pegs: `Step` in place. */
  method MoveDisk(local: array<seq<int>>, m: Move)
    requires local.Length == 3 && m.from < 3 && m.to < 3
    modifies local
    ensures local[..] == Step(old(local[..]), m)
  {
    var src := local[m.from];
    var d := if src == [] then 0 else src[|src| - 1];
    local[m.from] := if src == [] then [] else src[..|src| - 1];
    local[m.to] := local[m.to] + [d];
  }

  lemma {:induction false} ReplayAppend(pegs: seq<seq<int>>, a: seq<Move>, b: seq<Move>)
    requires |pegs| == 3 && OnThreePegs(a) && OnThreePegs(b)
    ensures OnThreePegs(a + b)
    ensures Replay(pegs, a + b) == if Replay(pegs, a).None? then None else Replay(Replay(pegs, a).value, b)
    decreases |b|
  {
    if b == [] {
      assert a + b == a;
    } else {
      var b' := b[..|b| - 1];
      assert (a + b)[..|a + b| - 1] == a + b';
      ReplayAppend(pegs, a, b');
    }
  }

  /** Disks `k, k-1, ..., 1`, the smallest on top. */
  function Tower(k: nat): seq<int> {
    if k == 0 then [] else [k as int] + Tower(k - 1)
  }

  /** Every disk of `s` is larger than `k`. */
  predicate Bigger(s: seq<int>, k: int) {
    forall i :: 0 <= i < |s| ==> s[i] > k
  }

  lemma {:induction false} TowerShape(k: nat)
    ensures |Tower(k)| == k
    ensures forall i :: 0 <= i < k ==> Tower(k)[i] == k - i
  {
    if k > 0 {
      TowerShape(k - 1);
    }
  }

  /**
    * The classic argument: with the top `k` disks of `from` forming a tower
    * and every other disk larger, the moves for `k` carry that tower onto
    * `to`, every move legal, and nothing else changes.
    */
  lemma {:induction false} TowerMoves(k: nat, from: nat, to: nat, aux: nat, pegs: seq<seq<int>>, base: seq<int>)
    requires from < 3 && to < 3 && aux < 3 && from != to && to != aux && aux != from
    requires |pegs| == 3 && pegs[from] == base + Tower(k)
    requires Bigger(base, k) && Bigger(pegs[to], k) && Bigger(pegs[aux], k)
    ensures OnThreePegs(HanoiMoves(k, from, to, aux))
    ensures Replay(pegs, HanoiMoves(k, from, to, aux)) == Some(pegs[from := base][to := pegs[to] + Tower(k)])
    decreases k, 1
  {
    ThreePegMoves(k, from, to, aux);
    if k == 0 {
      assert Tower(0) == [] && base + [] == base && pegs[to] + [] == pegs[to];
      SamePegs(pegs[from := base][to := pegs[to] + Tower(k)], pegs);
    } else {
      ThreePegMoves(k - 1, from, aux, to);
      ThreePegMoves(k - 1, aux, to, from);
      var q := pegs[from := base + [k as int]][aux := pegs[aux] + Tower(k - 1)];
      FirstLeg(k, from, to, aux, pegs, base);
      var r := q[from := base][to := pegs[to] + [k as int]];
      assert Replay(q, [Move(from, to)]) == Some(r) by {
        assert q[from] == base + [k as int] && q[to] == pegs[to];
        SingleMove(q, Move(from, to), base, k, pegs[to]);
      }
      LastLeg(k, from, to, aux, pegs, base);
      TowerCompose(k, from, to, aux, pegs, base);
    }
  }

  /** First leg: the `k - 1` smaller disks go from `from` onto `aux`. */
  lemma {:induction false} FirstLeg(k: nat, from: nat, to: nat, aux: nat, pegs: seq<seq<int>>, base: seq<int>)
    requires k > 0 && from < 3 && to < 3 && aux < 3 && from != to && to != aux && aux != from
    requires |pegs| == 3 && pegs[from] == base + Tower(k)
    requires Bigger(base, k) && Bigger(pegs[to], k) && Bigger(pegs[aux], k)
    ensures OnThreePegs(HanoiMoves(k - 1, from, aux, to))
    ensures Replay(pegs, HanoiMoves(k - 1, from, aux, to))
         == Some(pegs[from := base + [k as int]][aux := pegs[aux] + Tower(k - 1)])
    decreases k - 1, 2
  {
    var low := base + [k as int];
    assert pegs[from] == low + Tower(k - 1);
    BiggerAppend(base, [k as int], k);
    TowerMoves(k - 1, from, aux, to, pegs, low);
  }

  /** Last leg: after disk `k` has moved, the `k - 1` smaller disks go from `aux` onto `to`. */
  lemma {:induction false} LastLeg(k: nat, from: nat, to: nat, aux: nat, pegs: seq<seq<int>>, base: seq<int>)
    requires k > 0 && from < 3 && to < 3 && aux < 3 && from != to && to != aux && aux != from
    requires |pegs| == 3
    requires Bigger(base, k) && Bigger(pegs[to], k) && Bigger(pegs[aux], k)
    ensures OnThreePegs(HanoiMoves(k - 1, aux, to, from))
    ensures
      var r := pegs[from := base + [k as int]][aux := pegs[aux] + Tower(k - 1)][from := base][to := pegs[to] + [k as int]];
      Replay(r, HanoiMoves(k - 1, aux, to, from)) == Some(r[aux := pegs[aux]][to := r[to] + Tower(k - 1)])
    decreases k - 1, 2
  {
    var r := pegs[from := base + [k as int]][aux := pegs[aux] + Tower(k - 1)][from := base][to := pegs[to] + [k as int]];
    assert r[aux] == pegs[aux] + Tower(k - 1) && r[from] == base;
    BiggerAppend(pegs[to], [k as int], k);
    BiggerAppend(base, [k as int], k);
    TowerMoves(k - 1, aux, to, from, r, pegs[aux]);
  }

  /** Disks all larger than `k` stay larger than `k - 1`, also after appending disk `k`. */
  lemma BiggerAppend(s: seq<int>, t: seq<int>, k: nat)
    requires k > 0 && Bigger(s, k) && t == [k as int]
    ensures Bigger(s, k - 1) && Bigger(s + t, k - 1)
  {
  }

  /** The three legs of the tower argument for `k > 0` glued into one replay. */
  lemma TowerCompose(k: nat, from: nat, to: nat, aux: nat, pegs: seq<seq<int>>, base: seq<int>)
    requires k > 0 && from < 3 && to < 3 && aux < 3 && from != to && to != aux && aux != from
    requires |pegs| == 3
    requires OnThreePegs(HanoiMoves(k - 1, from, aux, to)) && OnThreePegs(HanoiMoves(k - 1, aux, to, from))
    requires
      var q := pegs[from := base + [k as int]][aux := pegs[aux] + Tower(k - 1)];
      var r := q[from := base][to := pegs[to] + [k as int]];
      var t := r[aux := pegs[aux]][to := r[to] + Tower(k - 1)];
      Replay(pegs, HanoiMoves(k - 1, from, aux, to)) == Some(q) &&
      Replay(q, [Move(from, to)]) == Some(r) &&
      Replay(r, HanoiMoves(k - 1, aux, to, from)) == Some(t)
    ensures OnThreePegs(HanoiMoves(k, from, to, aux))
    ensures Replay(pegs, HanoiMoves(k, from, to, aux)) == Some(pegs[from := base][to := pegs[to] + Tower(k)])
  {
    var q := pegs[from := base + [k as int]][aux := pegs[aux] + Tower(k - 1)];
    var r := q[from := base][to := pegs[to] + [k as int]];
    var t := r[aux := pegs[aux]][to := r[to] + Tower(k - 1)];
    LegsMeet(k, from, to, aux, pegs, base);
    assert OnThreePegs([Move(from, to)]);
    Compose(pegs, HanoiMoves(k - 1, from, aux, to), Move(from, to), HanoiMoves(k - 1, aux, to, from),
            HanoiMoves(k, from, to, aux), q, r, t);
  }

  /** After the three legs, `from` holds `base`, `aux` is as before and `to` has gained the tower. */
  lemma LegsMeet(k: nat, from: nat, to: nat, aux: nat, pegs: seq<seq<int>>, base: seq<int>)
    requires k > 0 && from < 3 && to < 3 && aux < 3 && from != to && to != aux && aux != from
    requires |pegs| == 3
    ensures
      var q := pegs[from := base + [k as int]][aux := pegs[aux] + Tower(k - 1)];
      var r := q[from := base][to := pegs[to] + [k as int]];
      r[aux := pegs[aux]][to := r[to] + Tower(k - 1)] == pegs[from := base][to := pegs[to] + Tower(k)]
  {
    var q := pegs[from := base + [k as int]][aux := pegs[aux] + Tower(k - 1)];
    var r := q[from := base][to := pegs[to] + [k as int]];
    var t := r[aux := pegs[aux]][to := r[to] + Tower(k - 1)];
    var goal := pegs[from := base][to := pegs[to] + Tower(k)];
    assert pegs[to] + [k as int] + Tower(k - 1) == pegs[to] + Tower(k);
    assert t[from] == base == goal[from];
    assert t[to] == pegs[to] + [k as int] + Tower(k - 1) == goal[to];
    assert t[aux] == pegs[aux] == goal[aux];
    SameByRoles(t, goal, from, to, aux);
  }

  /** Three legal replays one after the other make one legal replay. */
  lemma Compose(pegs: seq<seq<int>>, first: seq<Move>, m: Move, last: seq<Move>, moves: seq<Move>,
                q: seq<seq<int>>, r: seq<seq<int>>, t: seq<seq<int>>)
    requires moves == first + [m] + last
    requires |pegs| == 3 && |q| == 3 && |r| == 3
    requires OnThreePegs(first) && OnThreePegs([m]) && OnThreePegs(last)
    requires Replay(pegs, first) == Some(q)
    requires Replay(q, [m]) == Some(r)
    requires Replay(r, last) == Some(t)
    ensures OnThreePegs(moves)
    ensures Replay(pegs, moves) == Some(t)
  {
    ReplayAppend(pegs, first, [m]);
    ReplayAppend(pegs, first + [m], last);
  }

  /** Moving disk `k` from the top of one peg onto a peg of larger disks is legal. */
  lemma SingleMove(q: seq<seq<int>>, m: Move, base: seq<int>, k: nat, dst: seq<int>)
    requires |q| == 3 && m.from < 3 && m.to < 3 && m.from != m.to
    requires q[m.from] == base + [k as int] && q[m.to] == dst && Bigger(dst, k)
    ensures OnThreePegs([m])
    ensures Replay(q, [m]) == Some(q[m.from := base][m.to := dst + [k as int]])
  {
    assert [m][..0] == [];
    assert (base + [k as int])[..|base|] == base;
    SamePegs(Step(q, m), q[m.from := base][m.to := dst + [k as int]]);
  }

  /** Two positions agree when they agree on each of three distinct pegs. */
  lemma SameByRoles(p: seq<seq<int>>, q: seq<seq<int>>, x: nat, y: nat, z: nat)
    requires x < 3 && y < 3 && z < 3 && x != y && y != z && z != x
    requires |p| == 3 && |q| == 3 && p[x] == q[x] && p[y] == q[y] && p[z] == q[z]
    ensures p == q
  {
    SamePegs(p, q);
  }

  /** Two positions are equal when their three pegs are. */
  lemma SamePegs(p: seq<seq<int>>, q: seq<seq<int>>)
    requires |p| == 3 && |q| == 3 && p[0] == q[0] && p[1] == q[1] && p[2] == q[2]
    ensures p == q
  {
  }

  /** The starting position: all `n` disks on peg 0. */
  function Initial(n: nat): seq<seq<int>> {
    [Tower(n), [], []]
  }

  /**
    * Replaying the moves for `(n, 0, 2, 1)` from the starting position never
    * pops an empty peg, never puts a disk on a smaller one, and ends with
    * the whole tower on peg 2.
    */
  lemma HanoiSolves(n: nat)
    ensures OnThreePegs(HanoiMoves(n, 0, 2, 1))
    ensures Replay(Initial(n), HanoiMoves(n, 0, 2, 1)) == Some([[], [], Tower(n)])
    ensures Run(Initial(n), HanoiMoves(n, 0, 2, 1)) == [[], [], Tower(n)]
  {
    assert Initial(n)[0] == [] + Tower(n);
    TowerMoves(n, 0, 2, 1, Initial(n), []);
    ReplayIsRun(Initial(n), HanoiMoves(n, 0, 2, 1));
    assert Initial(n)[0 := []][2 := [] + Tower(n)] == [[], [], Tower(n)];
  }
}
