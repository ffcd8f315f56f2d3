/**
  * The JavaScript string operations the modelled code relies on:
  * `Array.prototype.join`, `String.prototype.split` with a one-character
  * separator, and the decimal text of an integer (`String(n)`, or `${n}` in
  * a template).
  */
module Text {

  /** `parts.join(sep)`. */
  function Join(parts: seq<string>, sep: string): string {
    if parts == [] then ""
    else if |parts| == 1 then parts[0]
    else parts[0] + sep + Join(parts[1..], sep)
  }

  /**
    * `s.split(c)`: the pieces between occurrences of `c`, empty pieces
    * included, so there is always at least one; none contains `c`, and
    * joining them with `c` gives back `s`.
    */
  function Split(s: string, c: char): (parts: seq<string>)
    ensures |parts| >= 1
    ensures forall i :: 0 <= i < |parts| ==> c !in parts[i]
    ensures Join(parts, [c]) == s
  {
    if s == [] then [""]
    else
      var rest := Split(s[1..], c);
      if s[0] == c then
        assert Join([""] + rest, [c]) == [c] + Join(rest, [c]);
        [""] + rest
      else
        JoinExtendFirst(s[0], rest, [c]);
        [[s[0]] + rest[0]] + rest[1..]
  }

  /** Prefixing the first piece with `x` prefixes the joined text with `x`. */
  lemma JoinExtendFirst(x: char, parts: seq<string>, sep: string)
    requires |parts| >= 1
    ensures Join([[x] + parts[0]] + parts[1..], sep) == [x] + Join(parts, sep)
  {
    var q := [[x] + parts[0]] + parts[1..];
    if |parts| > 1 {
      assert q[1..] == parts[1..];
    }
  }

  /**
    * Splitting joined text gives back the pieces, provided there is at
    * least one and none contains the separator.
    */
  lemma {:induction false} SplitJoin(parts: seq<string>, c: char)
    requires |parts| >= 1
    requires forall i :: 0 <= i < |parts| ==> c !in parts[i]
    ensures Split(Join(parts, [c]), c) == parts
    decreases |parts|, |parts[0]|
  {
    var p := parts[0];
    if p == [] {
      if |parts| > 1 {
        var rest := parts[1..];
        SplitJoin(rest, c);
        assert Join(parts, [c]) == [c] + Join(rest, [c]);
        assert parts == [""] + rest;
      }
    } else {
      var shorter := [p[1..]] + parts[1..];
      forall i | 0 <= i < |shorter| ensures c !in shorter[i] {
        if i == 0 {
          assert forall k :: 0 <= k < |p[1..]| ==> p[1..][k] == p[k + 1];
        } else {
          assert shorter[i] == parts[i];
        }
      }
      SplitJoin(shorter, c);
      JoinExtendFirst(p[0], shorter, [c]);
      assert [p[0]] + p[1..] == p && shorter[1..] == parts[1..];
      assert [[p[0]] + shorter[0]] + shorter[1..] == parts;
      assert p[0] != c by { assert p[0] == parts[0][0]; }
      var s := Join(parts, [c]);
      assert s[0] == p[0] && s[1..] == Join(shorter, [c]);
    }
  }

  function Digit(d: nat): char
    requires d < 10
  {
    "0123456789"[d]
  }

  /** The decimal text of `n`: digits only, no leading zero except for `0` itself. */
  function Decimal(n: nat): (s: string)
    ensures |s| > 0
    ensures forall i :: 0 <= i < |s| ==> '0' <= s[i] <= '9'
    ensures s[0] == '0' ==> n == 0
  {
    if n < 10 then [Digit(n)] else Decimal(n / 10) + [Digit(n % 10)]
  }

  /** The value a string of decimal digits denotes. */
  function Value(s: string): nat
    requires forall i :: 0 <= i < |s| ==> '0' <= s[i] <= '9'
  {
    if s == [] then 0 else 10 * Value(s[..|s| - 1]) + (s[|s| - 1] - '0') as nat
  }

  /** Reading `Decimal(n)` back gives `n`. */
  lemma {:induction false} DecimalValue(n: nat)
    ensures Value(Decimal(n)) == n
  {
    if n >= 10 {
      DecimalValue(n / 10);
      var s := Decimal(n);
      assert s[..|s| - 1] == Decimal(n / 10);
    }
  }

  /** `String(n)` for an integer: a minus sign before the digits of a negative number. */
  function IntText(n: int): (s: string)
    ensures |s| > 0 && ' ' !in s
  {
    if n < 0 then "-" + Decimal(-n) else Decimal(n)
  }
}
