/**
  * Ranking of repositories in the projects heap: the keyword classifier
  * (`isAIRepo`), the three-tier priority and the comparator the heap uses
  * (components/ProjectsHeapStack.tsx, lines 11-42).
  */
module RepoPriority {
  import opened Wrappers

  /** A repository as the heap sees it (`RepoLite`); `stars` is `stargazers_count`. */
  datatype Repo = Repo(name: string, description: Option<string>, stars: nat, url: string)

  // ---------------------------------------------------------------------------
  // Text handling
  // ---------------------------------------------------------------------------

  /** `toLowerCase` on one character (ASCII letters only). */
  function LowerChar(c: char): char {
    if 'A' <= c <= 'Z' then (c as int + 32) as char else c
  }

  function Lower(s: string): (r: string)
    ensures |r| == |s|
    ensures forall i :: 0 <= i < |s| ==> r[i] == LowerChar(s[i])
  {
    if s == [] then [] else [LowerChar(s[0])] + Lower(s[1..])
  }

  /** The text the classifier runs on: `(name + ' ' + (description || '')).toLowerCase()`. */
  function SearchText(r: Repo): string {
    Lower(r.name + " " + r.description.GetOr(""))
  }

  /** Membership in the regex class `[a-z0-9]`. */
  predicate IsWordChar(c: char) {
    ('a' <= c <= 'z') || ('0' <= c <= '9')
  }

  /** `k` occurs in `text` starting at position `i`. */
  predicate OccursAt(text: string, k: string, i: int) {
    0 <= i && i + |k| <= |text| && text[i..i + |k|] == k
  }

  /** Reference definition of `text.includes(k)`. */
  ghost predicate Includes(text: string, k: string) {
    exists i :: OccursAt(text, k, i)
  }

  /** Left-to-right scan for `k` in `text[from..]`. */
  function IncludesFrom(text: string, k: string, from: nat): bool
    decreases |text| - from
  {
    if from + |k| > |text| then false
    else if text[from..from + |k|] == k then true
    else IncludesFrom(text, k, from + 1)
  }

  lemma {:induction false} IncludesFromSpec(text: string, k: string, from: nat)
    ensures IncludesFrom(text, k, from) <==> exists i :: from <= i && OccursAt(text, k, i)
    decreases |text| - from
  {
    if from + |k| > |text| {
      forall i | from <= i ensures !OccursAt(text, k, i) {}
    } else if text[from..from + |k|] == k {
      assert OccursAt(text, k, from);
    } else {
      IncludesFromSpec(text, k, from + 1);
      assert !OccursAt(text, k, from);
      forall i | from <= i && OccursAt(text, k, i) ensures from + 1 <= i {}
    }
  }

  /** `text.includes(k)`, proved equal to the reference definition. */
  function Contains(text: string, k: string): (b: bool)
    ensures b <==> Includes(text, k)
  {
    IncludesFromSpec(text, k, 0);
    IncludesFrom(text, k, 0)
  }

  // ---------------------------------------------------------------------------
  // Keyword lists
  // ---------------------------------------------------------------------------

  const ShortTokens: seq<string> := ["ai", "ml", "llm"]
  const PhraseKeywords: seq<string> :=
    ["deep learning", "machine learning", "chat", "chatbot", "neural", "transformer", "gpt", "langchain"]

  /** `PHRASE_KEYWORDS.some(k => text.includes(k))`. */
  function AnyPhrase(text: string, ks: seq<string>): (b: bool)
    ensures b <==> exists j :: 0 <= j < |ks| && Includes(text, ks[j])
  {
    if ks == [] then false
    else Contains(text, ks[0]) || AnyPhrase(text, ks[1..])
  }

  /**
    * One match of `(^|[^a-z0-9])(ai|ml|llm)([^a-z0-9]|$)` with the token at `i`:
    * the token is preceded by the start of the text or a non-word character,
    * and followed by the end of the text or a non-word character.
    */
  predicate BoundedAt(text: string, tok: string, i: int) {
    && OccursAt(text, tok, i)
    && (i == 0 || !IsWordChar(text[i - 1]))
    && (i + |tok| == |text| || !IsWordChar(text[i + |tok|]))
  }

  /** Reference definition of `shortTokenRegex.test(text)`. */
  ghost predicate HasShortToken(text: string) {
    exists j, i :: 0 <= j < |ShortTokens| && BoundedAt(text, ShortTokens[j], i)
  }

  /** Whether some short token matches with boundaries at `i`. */
  predicate TokenAt(text: string, i: int) {
    BoundedAt(text, "ai", i) || BoundedAt(text, "ml", i) || BoundedAt(text, "llm", i)
  }

  /** The regex search, as an explicit scan over the start positions `from..|text|`. */
  function ScanTokens(text: string, from: nat): bool
    decreases |text| - from
  {
    if from > |text| then false
    else TokenAt(text, from) || ScanTokens(text, from + 1)
  }

  lemma {:induction false} ScanTokensSpec(text: string, from: nat)
    ensures ScanTokens(text, from) <==> exists i :: from <= i && TokenAt(text, i)
    decreases |text| - from
  {
    if from > |text| {
      forall i | from <= i ensures !TokenAt(text, i) {}
    } else if !TokenAt(text, from) {
      ScanTokensSpec(text, from + 1);
      forall i | from <= i && TokenAt(text, i) ensures from + 1 <= i {}
    }
  }

  /** `TokenAt` is the regex's alternation over the three short tokens. */
  lemma TokenAtSpec(text: string)
    ensures HasShortToken(text) <==> exists i :: 0 <= i && TokenAt(text, i)
  {
    assert ShortTokens[0] == "ai" && ShortTokens[1] == "ml" && ShortTokens[2] == "llm";
    if HasShortToken(text) {
      var j, i :| 0 <= j < |ShortTokens| && BoundedAt(text, ShortTokens[j], i);
      assert TokenAt(text, i);
    }
    if exists i :: 0 <= i && TokenAt(text, i) {
      var i :| 0 <= i && TokenAt(text, i);
      if BoundedAt(text, "ai", i) {
        assert BoundedAt(text, ShortTokens[0], i);
      } else if BoundedAt(text, "ml", i) {
        assert BoundedAt(text, ShortTokens[1], i);
      } else {
        assert BoundedAt(text, ShortTokens[2], i);
      }
    }
  }

  /** `shortTokenRegex.test(text)`, proved equal to the reference definition. */
  function MatchesShortToken(text: string): (b: bool)
    ensures b <==> HasShortToken(text)
  {
    ScanTokensSpec(text, 0);
    TokenAtSpec(text);
    ScanTokens(text, 0)
  }

  /** `isAIRepo`: a phrase keyword occurs anywhere, or a short token occurs at word boundaries. */
  function IsAIRepo(r: Repo): (b: bool)
    ensures b <==> (exists j :: 0 <= j < |PhraseKeywords| && Includes(SearchText(r), PhraseKeywords[j]))
                   || HasShortToken(SearchText(r))
  {
    var text := SearchText(r);
    AnyPhrase(text, PhraseKeywords) || MatchesShortToken(text)
  }

  // ---------------------------------------------------------------------------
  // Priority and comparator
  // ---------------------------------------------------------------------------

  const TopOffset: int := 2_000_000
  const AIOffset: int := 1_000_000
  const TopStars: int := 1000

  function Priority(r: Repo): int {
    if r.stars >= TopStars then TopOffset + r.stars
    else if IsAIRepo(r) then AIOffset + r.stars
    else r.stars
  }

  /** The three tiers in decreasing order of rank. */
  datatype Tier = Top | AI | Base

  function TierOf(r: Repo): Tier {
    if r.stars >= TopStars then Top else if IsAIRepo(r) then AI else Base
  }

  function TierRank(t: Tier): nat {
    match t
    case Top => 2
    case AI => 1
    case Base => 0
  }

  /**
    * The numeric offsets implement the lexicographic order on (tier, stars):
    * a higher tier always wins, and within a tier more stars win.
    */
  lemma PriorityIsTierThenStars(a: Repo, b: Repo)
    ensures Priority(a) > Priority(b) <==>
      TierRank(TierOf(a)) > TierRank(TierOf(b))
      || (TierOf(a) == TierOf(b) && a.stars > b.stars)
    ensures Priority(a) == Priority(b) <==> TierOf(a) == TierOf(b) && a.stars == b.stars
  {
  }

  /** `a.localeCompare(b)`, modelled as code-point lexicographic order: -1, 0 or 1. */
  function NameCompare(a: string, b: string): int {
    if a == [] && b == [] then 0
    else if a == [] then -1
    else if b == [] then 1
    else if a[0] < b[0] then -1
    else if a[0] > b[0] then 1
    else NameCompare(a[1..], b[1..])
  }

  /** Independent statement of "`a` sorts before `b`": a proper prefix, or smaller at the first difference. */
  ghost predicate LexLess(a: string, b: string) {
    (|a| < |b| && a == b[..|a|])
    || exists k :: 0 <= k < |a| && k < |b| && a[..k] == b[..k] && a[k] < b[k]
  }

  lemma {:induction false} NameCompareSpec(a: string, b: string)
    ensures NameCompare(a, b) == 0 <==> a == b
    ensures NameCompare(a, b) < 0 <==> LexLess(a, b)
    ensures NameCompare(a, b) > 0 <==> LexLess(b, a)
    ensures -1 <= NameCompare(a, b) <= 1
  {
    if a == [] || b == [] {
      if a != [] {
        assert !LexLess(a, b);
        assert a[..0] == b;
      }
      if b != [] {
        assert !LexLess(b, a);
        assert b[..0] == a;
      }
    } else if a[0] != b[0] {
      FirstCharDecides(a, b);
      FirstCharDecides(b, a);
    } else {
      NameCompareSpec(a[1..], b[1..]);
      LexLessTail(a, b);
      LexLessTail(b, a);
      if a[1..] == b[1..] { assert a == [a[0]] + a[1..] && b == [b[0]] + b[1..]; }
    }
  }

  /** When the first characters differ, they alone decide `LexLess`. */
  lemma FirstCharDecides(a: string, b: string)
    requires a != [] && b != [] && a[0] != b[0]
    ensures LexLess(a, b) <==> a[0] < b[0]
  {
    forall k | 0 < k <= |a| && k <= |b| ensures a[..k] != b[..k] {
      assert a[..k][0] == a[0] && b[..k][0] == b[0];
    }
    assert b[..|b|] == b;
    assert a[..0] == b[..0];
  }

  /** Dropping a common first character does not change `LexLess`. */
  lemma LexLessTail(a: string, b: string)
    requires a != [] && b != [] && a[0] == b[0]
    ensures LexLess(a, b) <==> LexLess(a[1..], b[1..])
  {
    if LexLess(a, b) {
      LexLessDropFirst(a, b);
    }
    if LexLess(a[1..], b[1..]) {
      LexLessAddFirst(a, b);
    }
  }

  lemma LexLessDropFirst(a: string, b: string)
    requires a != [] && b != [] && a[0] == b[0] && LexLess(a, b)
    ensures LexLess(a[1..], b[1..])
  {
    if |a| < |b| && a == b[..|a|] {
      assert a[1..] == b[1..][..|a[1..]|];
    } else {
      var k :| 0 <= k < |a| && k < |b| && a[..k] == b[..k] && a[k] < b[k];
      assert k != 0;
      assert a[1..][..k - 1] == a[1..k] == b[1..k] == b[1..][..k - 1];
    }
  }

  lemma LexLessAddFirst(a: string, b: string)
    requires a != [] && b != [] && a[0] == b[0] && LexLess(a[1..], b[1..])
    ensures LexLess(a, b)
  {
    if |a[1..]| < |b[1..]| && a[1..] == b[1..][..|a[1..]|] {
      assert a == [a[0]] + a[1..];
      assert a == b[..|a|];
    } else {
      var k :| 0 <= k < |a[1..]| && k < |b[1..]| && a[1..][..k] == b[1..][..k] && a[1..][k] < b[1..][k];
      assert a[..k + 1] == [a[0]] + a[1..][..k];
      assert b[..k + 1] == [b[0]] + b[1..][..k];
    }
  }

  lemma {:induction false} NameCompareTransitive(a: string, b: string, c: string)
    requires NameCompare(a, b) >= 0 && NameCompare(b, c) >= 0
    ensures NameCompare(a, c) >= 0
  {
    if a != [] && b != [] && c != [] && a[0] == b[0] == c[0] {
      NameCompareTransitive(a[1..], b[1..], c[1..]);
    }
  }

  lemma {:induction false} NameCompareAntisymmetric(a: string, b: string)
    ensures NameCompare(a, b) == -NameCompare(b, a)
  {
    if a != [] && b != [] && a[0] == b[0] {
      NameCompareAntisymmetric(a[1..], b[1..]);
    }
  }

  /**
    * `compare`: the difference of priorities when they differ, else the
    * name comparison (the later name counts as larger).
    */
  function Compare(a: Repo, b: Repo): int {
    var pa, pb := Priority(a), Priority(b);
    if pa != pb then pa - pb else NameCompare(a.name, b.name)
  }

  /**
    * The sign of `compare`: higher priority is larger; on equal priority the
    * lexicographically later name is larger, and only equal names tie.
    */
  lemma CompareSign(a: Repo, b: Repo)
    ensures Compare(a, b) > 0 <==>
      Priority(a) > Priority(b) || (Priority(a) == Priority(b) && LexLess(b.name, a.name))
    ensures Compare(a, b) == 0 <==> Priority(a) == Priority(b) && a.name == b.name
  {
    NameCompareSpec(a.name, b.name);
  }

  lemma CompareAntisymmetric(a: Repo, b: Repo)
    ensures Compare(a, b) > 0 <==> Compare(b, a) < 0
    ensures Compare(a, b) == 0 <==> Compare(b, a) == 0
  {
    NameCompareAntisymmetric(a.name, b.name);
  }

  lemma CompareTotal(a: Repo, b: Repo)
    ensures Compare(a, b) >= 0 || Compare(b, a) >= 0
  {
    CompareAntisymmetric(a, b);
  }

  lemma CompareTransitive(a: Repo, b: Repo, c: Repo)
    requires Compare(a, b) >= 0 && Compare(b, c) >= 0
    ensures Compare(a, c) >= 0
  {
    if Priority(a) == Priority(b) == Priority(c) {
      NameCompareTransitive(a.name, b.name, c.name);
    }
  }

  lemma CompareReflexive(a: Repo)
    ensures Compare(a, a) == 0
  {
    NameCompareSpec(a.name, a.name);
  }
}

module RepoPriorityExamples {
  import opened Wrappers
  import opened RepoPriority

  /** "brain" holds "ai" only inside a word, so it is not flagged. */
  lemma BrainIsNotAI()
    ensures !IsAIRepo(Repo("brain", None, 5, "u"))
  {
    assert SearchText(Repo("brain", None, 5, "u")) == "brain ";
    NoPhraseInBrain();
    NoTokenInBrain();
    Unflagged(Repo("brain", None, 5, "u"), "brain ");
  }

  /** A repository whose search text holds no phrase keyword and no bounded short token is not flagged. */
  lemma Unflagged(r: Repo, text: string)
    requires SearchText(r) == text
    requires forall j :: 0 <= j < |PhraseKeywords| ==> !Includes(text, PhraseKeywords[j])
    requires forall i :: 0 <= i ==> !TokenAt(text, i)
    ensures !IsAIRepo(r)
  {
    TokenAtSpec(text);
  }

  lemma NoPhraseInBrain()
    ensures forall j :: 0 <= j < |PhraseKeywords| ==> !Includes("brain ", PhraseKeywords[j])
  {
    forall j | 0 <= j < |PhraseKeywords| ensures !Includes("brain ", PhraseKeywords[j]) {
      var k := PhraseKeywords[j];
      assert k[0] in {'d', 'm', 'c', 'n', 't', 'g', 'l'};
      assert k[0] == 'n' ==> |k| == 6;
      AbsentFirstChar("brain ", k);
    }
  }

  lemma NoPhraseInZeta()
    ensures forall j :: 0 <= j < |PhraseKeywords| ==> !Includes("zeta ", PhraseKeywords[j])
  {
    forall j | 0 <= j < |PhraseKeywords| ensures !Includes("zeta ", PhraseKeywords[j]) {
      var k := PhraseKeywords[j];
      assert k[0] in {'d', 'm', 'c', 'n', 't', 'g', 'l'};
      assert k[0] == 't' ==> |k| == 11;
      AbsentFirstChar("zeta ", k);
    }
  }

  lemma NoTokenInBrain()
    ensures forall i :: 0 <= i ==> !TokenAt("brain ", i)
  {
    var text := "brain ";
    forall i | 0 <= i ensures !TokenAt(text, i) {
      if i + 2 <= |text| {
        assert text[i..i + 2][0] == text[i] && text[i..i + 2][1] == text[i + 1];
      }
    }
  }

  lemma NoTokenInZeta()
    ensures forall i :: 0 <= i ==> !TokenAt("zeta ", i)
  {
    var text := "zeta ";
    forall i | 0 <= i ensures !TokenAt(text, i) {
      if i + 2 <= |text| {
        assert text[i..i + 2][0] == text[i] && text[i..i + 2][1] == text[i + 1];
      }
    }
  }

  /** A keyword whose first character is missing at every place it could start does not occur. */
  lemma AbsentFirstChar(text: string, k: string)
    requires k != []
    requires forall i :: 0 <= i && i + |k| <= |text| ==> text[i] != k[0]
    ensures !Includes(text, k)
  {
    forall i | OccursAt(text, k, i) ensures text[i] == k[0] {
      assert text[i..i + |k|][0] == text[i];
    }
  }

  /** "my-ai-tool" holds "ai" between hyphens, so it is flagged. */
  lemma HyphenatedAIIsAI()
    ensures IsAIRepo(Repo("my-ai-tool", None, 5, "u"))
  {
    var text := SearchText(Repo("my-ai-tool", None, 5, "u"));
    assert text == "my-ai-tool ";
    assert BoundedAt(text, ShortTokens[0], 3);
  }

  /**
    * The three-repository scenario: a 2000-star repository outranks the
    * 5-star "Apex AI", which outranks the 5-star plain "Zeta".
    */
  lemma TierScenario()
    ensures Priority(Repo("Mega", None, 2000, "c")) == 2_002_000
    ensures Priority(Repo("Apex AI", None, 5, "b")) == 1_000_005
    ensures Priority(Repo("Zeta", None, 5, "a")) == 5
  {
    ApexIsAI();
    ZetaIsNotAI();
  }

  /** Hence `compare` ranks the three repositories in that order. */
  lemma TierOrder()
    ensures Compare(Repo("Mega", None, 2000, "c"), Repo("Apex AI", None, 5, "b")) > 0
    ensures Compare(Repo("Apex AI", None, 5, "b"), Repo("Zeta", None, 5, "a")) > 0
  {
    TierScenario();
  }

  /** "Apex AI" holds "ai" between a space and the end of its text, so it is flagged. */
  lemma ApexIsAI()
    ensures IsAIRepo(Repo("Apex AI", None, 5, "b"))
  {
    var apex := SearchText(Repo("Apex AI", None, 5, "b"));
    assert apex == "apex ai ";
    assert BoundedAt(apex, ShortTokens[0], 5);
  }

  /** "Zeta" holds no keyword and no short token, so it is not flagged. */
  lemma ZetaIsNotAI()
    ensures !IsAIRepo(Repo("Zeta", None, 5, "a"))
  {
    assert SearchText(Repo("Zeta", None, 5, "a")) == "zeta ";
    NoPhraseInZeta();
    NoTokenInZeta();
    Unflagged(Repo("Zeta", None, 5, "a"), "zeta ");
  }
}
