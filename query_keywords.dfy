/** The query keyword extractor: the normalised query's space-separated tokens,
    without empty tokens and stopwords, each kept at its first occurrence, at
    most 24 of them. */
module ExtractQueryKeywords {
  import opened Wrappers
  import opened Text
  import NormalizeQueryText

  const Stopwords: set<string> := {
    "a", "an", "and", "are", "as", "at", "be", "by", "for", "from", "how",
    "in", "is", "it", "of", "on", "or", "that", "the", "this", "to", "with"
  }

  const MaxKeywords: nat := 24

  /** `_normalize`: its three steps are, character for character, those of the
      normaliser tool's `run`, so it is defined as that tool applied to the value. */
  function Normalize(value: string): string {
    NormalizeQueryText.Run(Some(value))
  }

  /** Records that `_normalize` is the chain lower-case, punctuation to spaces,
      whitespace runs to one space, strip, as written in this tool. */
  lemma NormalizeAgrees(value: string)
    ensures Normalize(value) == Strip(CollapseRuns(ScrubPunctuation(Lower(value)), IsSpace, ' '), IsSpace)
  {
  }

  /** So the output has only lower-case letters, digits and single inner spaces. */
  lemma NormalizeShape(value: string)
    ensures var r := Normalize(value);
      (forall c | c in r :: IsLowerAlnum(c) || c == ' ') && Separated(r, ' ')
  {
    NormalizeAgrees(value);
    NormalizeQueryText.RunShape(Some(value));
  }

  predicate Candidate(t: string) {
    t != "" && t !in Stopwords
  }

  /** The candidate tokens, each at its first occurrence, in order. */
  function FirstOccurrences(tokens: seq<string>): (r: seq<string>)
    ensures forall t | t in r :: Candidate(t) && t in tokens
    ensures forall t | t in tokens && Candidate(t) :: t in r
  {
    if tokens == [] then []
    else
      var init := tokens[..|tokens| - 1];
      var t := tokens[|tokens| - 1];
      var prev := FirstOccurrences(init);
      assert tokens == init + [t];
      if !Candidate(t) || t in prev then prev else prev + [t]
  }

  predicate Distinct(r: seq<string>) {
    forall i, j | 0 <= i < j < |r| :: r[i] != r[j]
  }

  /** No keyword appears twice. */
  lemma {:induction false} FirstOccurrencesDistinct(tokens: seq<string>)
    ensures Distinct(FirstOccurrences(tokens))
  {
    if tokens != [] {
      var init := tokens[..|tokens| - 1];
      FirstOccurrencesDistinct(init);
      var prev := FirstOccurrences(init);
      var t := tokens[|tokens| - 1];
      if Candidate(t) && t !in prev {
        AppendDistinct(prev, t);
      }
    }
  }

  lemma AppendDistinct(prev: seq<string>, t: string)
    requires Distinct(prev) && t !in prev
    ensures Distinct(prev + [t])
  {
    var r := prev + [t];
    forall i, j | 0 <= i < j < |r| ensures r[i] != r[j] {
      assert r[i] == prev[i];
      if j == |prev| {
        assert prev[i] in prev;
      } else {
        assert r[j] == prev[j];
      }
    }
  }

  /** Considering more tokens only appends keywords. */
  lemma {:induction false} FirstOccurrencesPrefix(tokens: seq<string>, k: nat)
    requires k <= |tokens|
    ensures FirstOccurrences(tokens[..k]) <= FirstOccurrences(tokens)
    decreases |tokens| - k
  {
    if k < |tokens| {
      FirstOccurrencesPrefix(tokens, k + 1);
      assert tokens[..k + 1][..k] == tokens[..k];
    } else {
      assert tokens[..k] == tokens;
    }
  }

  /** Keywords keep the order of their first occurrences: a keyword earlier in the
      list first occurs earlier in the tokens. */
  lemma {:induction false} FirstOccurrencesOrder(tokens: seq<string>, i: nat, j: nat)
    requires var r := FirstOccurrences(tokens); i < j < |r|
    ensures var r := FirstOccurrences(tokens);
      exists a | 0 <= a < |tokens| :: tokens[a] == r[i] && r[j] !in tokens[..a + 1]
  {
    var n := |tokens|;
    var init := tokens[..n - 1];
    var t := tokens[n - 1];
    var prev := FirstOccurrences(init);
    var r := FirstOccurrences(tokens);
    assert tokens == init + [t];
    if j < |prev| {
      assert r[i] == prev[i] && r[j] == prev[j];
      FirstOccurrencesOrder(init, i, j);
      var a :| 0 <= a < |init| && init[a] == prev[i] && prev[j] !in init[..a + 1];
      assert tokens[..a + 1] == init[..a + 1];
    } else {
      assert r == prev + [t] && r[j] == t && t !in prev;
      assert r[i] == prev[i] && prev[i] in init;
      var a :| 0 <= a < |init| && init[a] == prev[i];
      assert tokens[..a + 1] == init[..a + 1];
      assert t !in init;
      assert forall x | x in init[..a + 1] :: x in init;
    }
  }

  /** One more token: appended when it is a new candidate. */
  lemma FirstOccurrencesStep(tokens: seq<string>, i: nat)
    requires i < |tokens|
    ensures var prev := FirstOccurrences(tokens[..i]); var t := tokens[i];
      FirstOccurrences(tokens[..i + 1]) == if !Candidate(t) || t in prev then prev else prev + [t]
  {
    assert tokens[..i + 1][..i] == tokens[..i];
  }

  /** The first `MaxKeywords` keywords, or all of them when there are fewer. */
  function Capped(all: seq<string>): (r: seq<string>)
    ensures |r| <= MaxKeywords && r <= all
    ensures |all| <= MaxKeywords ==> r == all
  {
    if |all| <= MaxKeywords then all else all[..MaxKeywords]
  }

  lemma NoTokens()
    ensures Capped(FirstOccurrences(Split("", ' '))) == []
  {
    assert Split("", ' ') == [""];
    assert FirstOccurrences([""]) == [];
  }

  /** `run`: a query that normalises to nothing has no keywords; otherwise the
      keywords of its space-separated tokens. */
  method Run(query: Option<string>) returns (keywords: seq<string>)
    ensures keywords == Capped(FirstOccurrences(Split(Normalize(NormalizeQueryText.QueryText(query)), ' ')))
    ensures Normalize(NormalizeQueryText.QueryText(query)) == "" ==> keywords == []
  {
    var normalized := Normalize(NormalizeQueryText.QueryText(query));
    if normalized == "" {
      NoTokens();
      return [];
    }
    keywords := Collect(Split(normalized, ' '));
  }

  /** The loop of `run`: skips empty tokens, stopwords and tokens already in
      `seen`, and stops once 24 keywords are collected. */
  method Collect(tokens: seq<string>) returns (ordered: seq<string>)
    ensures ordered == Capped(FirstOccurrences(tokens))
  {
    ordered := [];
    var seen: set<string> := {};
    var i := 0;
    while i < |tokens|
      invariant 0 <= i <= |tokens|
      invariant ordered == FirstOccurrences(tokens[..i])
      invariant forall t :: t in seen <==> t in ordered
      invariant |ordered| < MaxKeywords
    {
      var token := tokens[i];
      FirstOccurrencesStep(tokens, i);
      i := i + 1;
      if !Candidate(token) {
        continue;
      }
      if token in seen {
        continue;
      }
      seen := seen + {token};
      ordered := ordered + [token];
      if |ordered| >= MaxKeywords {
        FirstOccurrencesPrefix(tokens, i);
        return;
      }
    }
    assert tokens[..i] == tokens;
  }
}
