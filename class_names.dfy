/**
  * `cn(...classes)` (lib/cn.ts, lines 3-9): strings and numbers are turned
  * into text and split on single spaces, `false`, `null` and `undefined`
  * contribute nothing, empty pieces are dropped and the rest are joined
  * with one space.
  */
module ClassNames {
  import opened Text

  /** The argument types `cn` accepts (numbers are integers here). */
  datatype ClassValue = Str(s: string) | Num(n: int) | False | Null | Undefined

  /** What one argument contributes before empty pieces are dropped (the `flatMap` callback). */
  function Pieces(c: ClassValue): seq<string> {
    match c
    case Str(s) => Split(s, ' ')
    case Num(n) => Split(IntText(n), ' ')
    case _ => []
  }

  function FlatPieces(cs: seq<ClassValue>): seq<string> {
    if cs == [] then [] else Pieces(cs[0]) + FlatPieces(cs[1..])
  }

  /** `.filter(Boolean)` on strings: the non-empty ones, in order. */
  function NonEmpty(ps: seq<string>): (ts: seq<string>)
    ensures forall i :: 0 <= i < |ts| ==> ts[i] != "" && ts[i] in ps
  {
    if ps == [] then []
    else if ps[0] == "" then NonEmpty(ps[1..])
    else [ps[0]] + NonEmpty(ps[1..])
  }

  /** The class tokens `cn` joins. */
  function Tokens(cs: seq<ClassValue>): seq<string> {
    NonEmpty(FlatPieces(cs))
  }

  function Cn(cs: seq<ClassValue>): string {
    Join(Tokens(cs), " ")
  }

  /** A token: non-empty, without a space. */
  predicate IsToken(t: string) {
    t != "" && ' ' !in t
  }

  /** No leading or trailing space and never two spaces in a row. */
  predicate WellSpaced(s: string) {
    && (s != "" ==> s[0] != ' ' && s[|s| - 1] != ' ')
    && forall i :: 0 <= i < |s| - 1 ==> !(s[i] == ' ' && s[i + 1] == ' ')
  }

  lemma {:induction false} FlatPiecesNoSpace(cs: seq<ClassValue>)
    ensures forall i :: 0 <= i < |FlatPieces(cs)| ==> ' ' !in FlatPieces(cs)[i]
  {
    if cs != [] {
      FlatPiecesNoSpace(cs[1..]);
    }
  }

  /** Every token is non-empty and free of spaces. */
  lemma TokensAreTokens(cs: seq<ClassValue>)
    ensures forall i :: 0 <= i < |Tokens(cs)| ==> IsToken(Tokens(cs)[i])
  {
    FlatPiecesNoSpace(cs);
  }

  /** Joining tokens with single spaces leaves no stray space. */
  lemma {:induction false} JoinWellSpaced(ts: seq<string>)
    requires forall i :: 0 <= i < |ts| ==> IsToken(ts[i])
    ensures WellSpaced(Join(ts, " "))
    ensures ts != [] ==> Join(ts, " ") != ""
  {
    if |ts| > 1 {
      var rest := ts[1..];
      assert forall i :: 0 <= i < |rest| ==> IsToken(rest[i]) by {
        forall i | 0 <= i < |rest| ensures IsToken(rest[i]) { assert rest[i] == ts[i + 1]; }
      }
      JoinWellSpaced(rest);
      var t := ts[0];
      var r := Join(rest, " ");
      var s := Join(ts, " ");
      assert s == t + " " + r;
      assert t[|t| - 1] != ' ' by { assert t[|t| - 1] in t; }
      forall i | 0 <= i < |s| - 1 ensures !(s[i] == ' ' && s[i + 1] == ' ') {
        if i < |t| {
          assert s[i] == t[i];
          assert s[i] in t;
        } else if i > |t| {
          assert s[i] == r[i - |t| - 1] && s[i + 1] == r[i - |t|];
        } else {
          assert s[i + 1] == r[0];
        }
      }
    } else if |ts| == 1 {
      var t := ts[0];
      forall i | 0 <= i < |t| - 1 ensures !(t[i] == ' ' && t[i + 1] == ' ') {
        assert t[i] in t;
      }
      assert t[0] in t && t[|t| - 1] in t;
    }
  }

  /** The result of `cn` never starts or ends with a space and never holds two in a row. */
  lemma CnWellSpaced(cs: seq<ClassValue>)
    ensures WellSpaced(Cn(cs))
  {
    TokensAreTokens(cs);
    JoinWellSpaced(Tokens(cs));
  }

  /** `false`, `null` and `undefined` contribute nothing, so `cn()` and `cn(false, null)` are empty. */
  lemma FalsyIgnored()
    ensures Cn([]) == ""
    ensures Cn([False, Null]) == ""
    ensures Cn([Undefined]) == ""
  {
    assert FlatPieces([False, Null]) == [] by {
      assert [False, Null][1..] == [Null];
    }
  }

  lemma {:induction false} NonEmptyAppend(xs: seq<string>, ys: seq<string>)
    ensures NonEmpty(xs + ys) == NonEmpty(xs) + NonEmpty(ys)
  {
    if xs != [] {
      assert (xs + ys)[1..] == xs[1..] + ys;
      NonEmptyAppend(xs[1..], ys);
    } else {
      assert xs + ys == ys;
    }
  }

  lemma {:induction false} FlatPiecesAppend(xs: seq<ClassValue>, ys: seq<ClassValue>)
    ensures FlatPieces(xs + ys) == FlatPieces(xs) + FlatPieces(ys)
  {
    if xs != [] {
      assert (xs + ys)[1..] == xs[1..] + ys;
      FlatPiecesAppend(xs[1..], ys);
    } else {
      assert xs + ys == ys;
    }
  }

  /**
    * Tokens keep argument order: the tokens of two argument lists are those
    * of the first followed by those of the second, and a single string
    * argument contributes its non-empty space-separated pieces in order.
    */
  lemma TokensInOrder(xs: seq<ClassValue>, ys: seq<ClassValue>, s: string)
    ensures Tokens(xs + ys) == Tokens(xs) + Tokens(ys)
    ensures Tokens([Str(s)]) == NonEmpty(Split(s, ' '))
  {
    FlatPiecesAppend(xs, ys);
    NonEmptyAppend(FlatPieces(xs), FlatPieces(ys));
    assert [Str(s)][1..] == [];
    assert FlatPieces([Str(s)]) == Split(s, ' ') + [];
    assert Split(s, ' ') + [] == Split(s, ' ');
  }

  /** A number, `0` included, is kept as its decimal text. */
  lemma NumberKept(n: int)
    ensures Cn([Num(n)]) == IntText(n)
    ensures Cn([Num(0)]) == "0"
  {
    assert [Num(n)][1..] == [];
    SplitJoin([IntText(n)], ' ');
    assert FlatPieces([Num(n)]) == [IntText(n)] + [];
    assert NonEmpty([IntText(n)]) == [IntText(n)] by {
      assert [IntText(n)][1..] == [];
    }
    assert IntText(0) == "0";
  }

  /** Dropping empty strings from tokens changes nothing. */
  lemma {:induction false} NonEmptyOfTokens(ts: seq<string>)
    requires forall i :: 0 <= i < |ts| ==> ts[i] != ""
    ensures NonEmpty(ts) == ts
  {
    if ts != [] {
      NonEmptyOfTokens(ts[1..]);
    }
  }

  /** `cn` is idempotent on its own output: `cn(cn(xs...)) == cn(xs...)`. */
  lemma CnIdempotent(cs: seq<ClassValue>)
    ensures Cn([Str(Cn(cs))]) == Cn(cs)
  {
    var ts := Tokens(cs);
    TokensAreTokens(cs);
    assert FlatPieces([Str(Cn(cs))]) == Split(Cn(cs), ' ') + [];
    assert Split(Cn(cs), ' ') + [] == Split(Cn(cs), ' ');
    assert [Str(Cn(cs))][1..] == [];
    assert [' '] == " ";
    if ts == [] {
      assert Split("", ' ') == [""];
    } else {
      SplitJoin(ts, ' ');
      NonEmptyOfTokens(ts);
    }
  }
}
