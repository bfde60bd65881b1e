/** The support-chat knowledge-base lookup: the query and every entry's question
    are normalised, an entry's score is how many query tokens occur in its
    question, and the answer of the earliest best-scoring entry is returned. */
module SearchKb {
  import opened Wrappers
  import opened Text

  /** `" ".join(text.lower().split())` */
  function Normalize(text: string): string {
    Join(" ", Words(Lower(text)))
  }

  /** `[t for t in Normalize(text).split(" ") if t]` */
  function Tokenize(text: string): seq<string> {
    NonEmpty(Split(Normalize(text), ' '))
  }

  /** Normalised text is lower-case, has no whitespace but single inner spaces,
      and keeps only characters of the input (lower-cased). */
  lemma NormalizeShape(text: string)
    ensures var r := Normalize(text);
      Separated(r, ' ') &&
      (forall c | c in r :: !IsUpper(c) && (c == ' ' || !IsSpace(c))) &&
      (forall c | c in r && c != ' ' :: c in Lower(text))
  {
    LowerNoUpper(text);
    JoinWordsShape(Lower(text));
  }

  /** Normalising twice is normalising once. */
  lemma NormalizeIdempotent(text: string)
    ensures Normalize(Normalize(text)) == Normalize(text)
  {
    var r := Normalize(text);
    NormalizeShape(text);
    LowerFixed(r);
    JoinWordsIdempotent(Lower(text));
  }

  /** The tokens are exactly the whitespace-separated words of the lower-cased
      text, so each is non-empty and free of whitespace. */
  lemma TokenizeWords(text: string)
    ensures Tokenize(text) == Words(Lower(text))
    ensures forall t | t in Tokenize(text) :: t != "" && NoneSatisfy(t, IsSpace)
  {
    var ws := Words(Lower(text));
    assert forall w | w in ws :: ' ' !in w;
    if ws == [] {
      assert Normalize(text) == "";
      assert Split("", ' ') == [""];
      assert NonEmpty([""]) == [];
    } else {
      SplitOfJoin(ws, ' ');
      NonEmptyOfNonEmpty(ws);
    }
  }

  /** How many of `tokens` (with repetition) occur in `hay`. */
  function Hits(tokens: seq<string>, hay: string): (n: nat)
    ensures n <= |tokens|
  {
    if tokens == [] then 0
    else Hits(tokens[..|tokens| - 1], hay) + (if Contains(hay, tokens[|tokens| - 1]) then 1 else 0)
  }

  /** No hit iff no token occurs; every token hits iff all occur. */
  lemma {:induction false} HitsExtremes(tokens: seq<string>, hay: string)
    ensures Hits(tokens, hay) == 0 <==> forall t | t in tokens :: !Contains(hay, t)
    ensures Hits(tokens, hay) == |tokens| <==> forall t | t in tokens :: Contains(hay, t)
  {
    if tokens != [] {
      var init := tokens[..|tokens| - 1];
      var last := tokens[|tokens| - 1];
      HitsExtremes(init, hay);
      var h := Hits(init, hay);
      assert Hits(tokens, hay) == h + (if Contains(hay, last) then 1 else 0);
      assert h <= |init| == |tokens| - 1;
      assert tokens == init + [last];
      assert last in tokens;
      assert forall t | t in init :: t in tokens;
      if forall t | t in init :: !Contains(hay, t) {
        if !Contains(hay, last) {
          forall t | t in tokens ensures !Contains(hay, t) {
            assert t in init || t == last;
          }
        }
      }
      if forall t | t in init :: Contains(hay, t) {
        if Contains(hay, last) {
          forall t | t in tokens ensures Contains(hay, t) {
            assert t in init || t == last;
          }
        }
      }
    }
  }

  /** `_score`: counts the tokens found in the normalised question. */
  method Score(question: string, tokens: seq<string>) returns (score: nat)
    ensures score == Hits(tokens, Normalize(question))
    ensures score <= |tokens|
  {
    var haystack := Normalize(question);
    score := 0;
    var i := 0;
    while i < |tokens|
      invariant 0 <= i <= |tokens|
      invariant score == Hits(tokens[..i], haystack)
    {
      assert tokens[..i + 1][..i] == tokens[..i];
      if Contains(haystack, tokens[i]) {
        score := score + 1;
      }
      i := i + 1;
    }
    assert tokens[..i] == tokens;
  }

  /** A knowledge-base entry; a missing field is the empty string. */
  datatype Entry = Entry(question: string, answer: string)

  predicate Eligible(e: Entry) {
    e.question != "" && e.answer != ""
  }

  /** The score `_score` gives an entry's question for the query tokens. */
  function ScoreFor(tokens: seq<string>): Entry -> nat {
    (e: Entry) => Hits(tokens, Normalize(e.question))
  }

  /** The best score of an eligible entry, 0 when there is none. */
  function MaxScore(entries: seq<Entry>, score: Entry -> nat): (m: nat)
    ensures forall i | 0 <= i < |entries| && Eligible(entries[i]) :: score(entries[i]) <= m
    ensures m > 0 ==> exists i | 0 <= i < |entries| :: Eligible(entries[i]) && score(entries[i]) == m
  {
    if entries == [] then 0
    else
      var n := |entries|;
      var init := entries[..n - 1];
      var m0 := MaxScore(init, score);
      var last := if Eligible(entries[n - 1]) then score(entries[n - 1]) else 0;
      assert forall i | 0 <= i < n - 1 :: entries[i] == init[i];
      if last > m0 then last else m0
  }

  predicate Scores(e: Entry, score: Entry -> nat, m: nat) {
    Eligible(e) && score(e) == m
  }

  /** The first eligible entry at or after `from` whose score is `m`. */
  function FirstWithScore(entries: seq<Entry>, score: Entry -> nat, m: nat, from: nat): (r: Option<nat>)
    requires from <= |entries|
    ensures r.Some? ==> from <= r.value < |entries| && Scores(entries[r.value], score, m)
    ensures r.Some? ==> forall j | from <= j < r.value :: !Scores(entries[j], score, m)
    ensures r.None? ==> forall j | from <= j < |entries| :: !Scores(entries[j], score, m)
    decreases |entries| - from
  {
    if from == |entries| then None
    else if Scores(entries[from], score, m) then Some(from)
    else FirstWithScore(entries, score, m, from + 1)
  }

  /** Which entry the lookup answers with: the earliest eligible entry of maximal
      score, and none when that score is 0. */
  function Selected(entries: seq<Entry>, score: Entry -> nat): Option<nat> {
    var m := MaxScore(entries, score);
    if m == 0 then None else FirstWithScore(entries, score, m, 0)
  }

  /** The selected entry is eligible, scores the maximum, beats every earlier
      eligible entry strictly, and exists exactly when the maximum is positive. */
  lemma SelectedMeaning(entries: seq<Entry>, score: Entry -> nat)
    ensures var s := Selected(entries, score); var m := MaxScore(entries, score);
      (s.None? <==> m == 0) &&
      (s.Some? ==>
        s.value < |entries| && Eligible(entries[s.value]) && score(entries[s.value]) == m &&
        (forall j | 0 <= j < |entries| && Eligible(entries[j]) :: score(entries[j]) <= m) &&
        (forall j | 0 <= j < s.value && Eligible(entries[j]) :: score(entries[j]) < m))
  {
    var s := Selected(entries, score);
    var m := MaxScore(entries, score);
    if m > 0 {
      var i :| 0 <= i < |entries| && Eligible(entries[i]) && score(entries[i]) == m;
      assert Scores(entries[i], score, m);
      if s.Some? {
        forall j | 0 <= j < s.value && Eligible(entries[j]) ensures score(entries[j]) < m {
          assert !Scores(entries[j], score, m);
        }
      }
    }
  }

  /** How `Selected` changes when one more entry is considered: the new entry
      takes over only with a strictly higher score. */
  lemma SelectedStep(entries: seq<Entry>, score: Entry -> nat, k: nat)
    requires k < |entries|
    ensures var before := entries[..k]; var after := entries[..k + 1];
      var m0 := MaxScore(before, score);
      var sc := if Eligible(entries[k]) then score(entries[k]) else 0;
      MaxScore(after, score) == (if sc > m0 then sc else m0) &&
      Selected(after, score) == (if sc > m0 then Some(k) else Selected(before, score))
  {
    var before := entries[..k];
    var after := entries[..k + 1];
    MaxStep(entries, score, k);
    var m0 := MaxScore(before, score);
    var sc := if Eligible(entries[k]) then score(entries[k]) else 0;
    if sc > m0 {
      NewBest(entries, score, k);
    } else {
      KeepBest(entries, score, k, m0);
    }
  }

  /** When the new entry does not beat the best score `m0` so far, the selection
      stays where it was. */
  lemma KeepBest(entries: seq<Entry>, score: Entry -> nat, k: nat, m0: nat)
    requires k < |entries| && m0 == MaxScore(entries[..k], score)
    requires MaxScore(entries[..k + 1], score) == m0
    requires !Eligible(entries[k]) || score(entries[k]) <= m0
    ensures Selected(entries[..k + 1], score) == Selected(entries[..k], score)
  {
    if m0 > 0 {
      var after := entries[..k + 1];
      var before := entries[..k];
      assert after[..k] == before && after[..k + 1] == after;
      SelectedMeaning(before, score);
      var s0 := FirstWithScore(before, score, m0, 0);
      assert Selected(before, score) == s0 && s0.Some?;
      FirstOfPrefix(after, score, m0, 0, k);
      assert Selected(after, score) == FirstWithScore(after, score, m0, 0) == s0;
    }
  }

  lemma MaxStep(entries: seq<Entry>, score: Entry -> nat, k: nat)
    requires k < |entries|
    ensures var m0 := MaxScore(entries[..k], score);
      var sc := if Eligible(entries[k]) then score(entries[k]) else 0;
      MaxScore(entries[..k + 1], score) == (if sc > m0 then sc else m0)
  {
    assert entries[..k + 1][..k] == entries[..k];
  }

  lemma NewBest(entries: seq<Entry>, score: Entry -> nat, k: nat)
    requires k < |entries|
    requires Eligible(entries[k]) && score(entries[k]) > MaxScore(entries[..k], score)
    requires MaxScore(entries[..k + 1], score) == score(entries[k])
    ensures Selected(entries[..k + 1], score) == Some(k)
  {
    var before := entries[..k];
    var after := entries[..k + 1];
    var m1 := score(entries[k]);
    forall j | 0 <= j < k ensures !Scores(after[j], score, m1) {
      assert after[j] == before[j];
    }
    assert after[k] == entries[k];
    FirstAtLast(after, score, m1, 0);
  }

  /** When no entry before the last one has score `m` but the last one does. */
  lemma {:induction false} FirstAtLast(es: seq<Entry>, score: Entry -> nat, m: nat, from: nat)
    requires from < |es|
    requires Scores(es[|es| - 1], score, m)
    requires forall j | from <= j < |es| - 1 :: !Scores(es[j], score, m)
    ensures FirstWithScore(es, score, m, from) == Some(|es| - 1)
    decreases |es| - from
  {
    if from < |es| - 1 {
      FirstAtLast(es, score, m, from + 1);
    }
  }

  /** Over `k + 1` entries the search finds what it finds over the first `k`,
      unless only the last entry qualifies. */
  lemma {:induction false} FirstOfPrefix(es: seq<Entry>, score: Entry -> nat, m: nat, from: nat, k: nat)
    requires from <= k < |es|
    requires FirstWithScore(es[..k], score, m, from).Some? || !Scores(es[k], score, m)
    ensures FirstWithScore(es[..k + 1], score, m, from) == FirstWithScore(es[..k], score, m, from)
    decreases k - from
  {
    var a := es[..k + 1];
    var b := es[..k];
    if from < k {
      assert a[from] == b[from];
      if !Scores(b[from], score, m) {
        FirstOfPrefix(es, score, m, from + 1, k);
      }
    } else {
      assert a[k] == es[k];
    }
  }

  /** `run`: scans the entries once, keeping the best score, its index and its
      answer; only a strictly higher score replaces the best, so ties go to the
      earliest entry. */
  method Run(query: string, entries: seq<Entry>) returns (answer: string)
    ensures var s := Selected(entries, ScoreFor(Tokenize(query)));
      answer == (if s.Some? then entries[s.value].answer else "")
  {
    var tokens := Tokenize(query);
    ghost var sc := ScoreFor(tokens);
    var bestAnswer := "";
    var bestScore: nat := 0;
    var bestIndex: Option<nat> := None;
    var idx := 0;
    while idx < |entries|
      invariant 0 <= idx <= |entries|
      invariant bestScore == MaxScore(entries[..idx], sc)
      invariant bestIndex == Selected(entries[..idx], sc)
      invariant bestIndex.Some? ==> bestIndex.value < idx && bestAnswer == entries[bestIndex.value].answer
      invariant bestIndex.None? ==> bestAnswer == ""
    {
      var entry := entries[idx];
      SelectedStep(entries, sc, idx);
      ghost var nextScore := MaxScore(entries[..idx + 1], sc);
      ghost var nextIndex := Selected(entries[..idx + 1], sc);
      if !Eligible(entry) {
        assert bestScore == nextScore && bestIndex == nextIndex;
        idx := idx + 1;
        continue;
      }
      var score := Score(entry.question, tokens);
      assert score == sc(entry);
      if score > bestScore {
        bestScore := score;
        bestAnswer := entry.answer;
        bestIndex := Some(idx);
      } else if score == bestScore && score > 0 && bestIndex.Some? {
        if idx < bestIndex.value {
          // `idx` only grows, so an earlier best index is never replaced.
          assert false;
        }
      }
      assert bestScore == nextScore && bestIndex == nextIndex;
      idx := idx + 1;
    }
    assert entries[..idx] == entries;
    if bestScore == 0 {
      bestAnswer := "";
    }
    answer := bestAnswer;
  }

  /** What the lookup promises: the answer is "" exactly when no eligible entry
      shares a token with the query, and otherwise the non-empty answer of an entry. */
  lemma AnswerCharacterised(query: string, entries: seq<Entry>)
    ensures var tokens := Tokenize(query); var s := Selected(entries, ScoreFor(tokens));
      (s.None? <==> forall i | 0 <= i < |entries| && Eligible(entries[i]) :: Hits(tokens, Normalize(entries[i].question)) == 0) &&
      (s.Some? ==> s.value < |entries| && entries[s.value].answer != "")
  {
    var sc := ScoreFor(Tokenize(query));
    SelectedMeaning(entries, sc);
    if Selected(entries, sc).Some? {
      var i := Selected(entries, sc).value;
      assert sc(entries[i]) > 0;
    }
  }
}
