/** The offline evaluation gate of the RAG demo: every golden case is asked in
    id order, its answer record is scored against the retrieval rows and the chat
    citations, the first case that expects a source is replayed, the per-case
    flags are averaged into six metrics, and the run fails when a metric is below
    its threshold or has regressed against the baseline report.

    The runtime's action and record-store calls are not modelled: for each case,
    in id order, an `Observation` gives what the store and the state held after
    the question was asked, and the answer records after the replay are a
    separate input. */
module RunEval {
  import opened Wrappers
  import opened Text
  import opened StringOrder
  import opened Rounding

  // ---------------------------------------------------------------------------
  // Records

  datatype ExpectedCitation = ExpectedCitation(sourceContains: string, page: Option<int>)

  /** A row of the chat state's `citations`; a missing field is "" or None. */
  datatype ChatCitation = ChatCitation(title: string, sourceName: string, pageNumber: Option<int>, snippet: string)

  datatype EvalCase = EvalCase(
    id: string,
    question: string,
    expectNoSource: bool,
    expectedCitations: seq<ExpectedCitation>,
    expectedThemes: seq<string>)

  datatype AnswerRecord = AnswerRecord(id: int, answerText: string, citations: seq<string>)

  datatype RetrievalRow = RetrievalRow(queryId: int, chunkId: string, decision: string)

  /** What asking one question leaves behind: the answer records, the retrieval
      candidate rows, and the chat citations and answer mode of the new state. */
  datatype Observation = Observation(
    answers: seq<AnswerRecord>,
    retrieval: seq<RetrievalRow>,
    chat: seq<ChatCitation>,
    answerMode: string)

  /** `EvalCaseResult` */
  datatype CaseResult = CaseResult(
    id: string,
    question: string,
    expectNoSource: bool,
    answerMode: string,
    answerText: string,
    citations: seq<string>,
    selectedCandidateIds: seq<string>,
    citationCoverage: bool,
    citationCorrectness: bool,
    constraintsOk: bool,
    themeScore: real,
    noSourceOk: bool)

  /** The exceptions that end a run: an empty question (`RuntimeError`) and an
      empty answer list (`IndexError` on `answers[-1]`). */
  datatype EvalError = EmptyQuestion(caseId: string) | NoAnswerRecord(caseId: string) | NoReplayRecord

  datatype Thresholds = Thresholds(
    coverageMin: real,
    correctnessMin: real,
    constraintsMin: real,
    helpfulnessMin: real,
    noSourceMin: real,
    replayMin: real)

  const DefaultThresholds := Thresholds(1.0, 1.0, 1.0, 0.67, 1.0, 1.0)

  // ---------------------------------------------------------------------------
  // Theme score

  function ThemeToken(theme: string): string {
    Lower(Strip(theme, IsSpace))
  }

  /** The answer text and the snippets, one per line, lower-cased. */
  function Corpus(answerText: string, snippets: seq<string>): string {
    Lower(answerText + "\n" + Join("\n", snippets))
  }

  predicate ThemeHit(corpus: string, theme: string) {
    ThemeToken(theme) != "" && Contains(corpus, ThemeToken(theme))
  }

  function ThemeHits(corpus: string, themes: seq<string>): (n: nat)
    ensures n <= |themes|
  {
    if themes == [] then 0
    else ThemeHits(corpus, themes[..|themes| - 1]) + (if ThemeHit(corpus, themes[|themes| - 1]) then 1 else 0)
  }

  /** The rounded share of the themes found in `corpus`; 1.0 without themes. */
  function ThemeFraction(corpus: string, themes: seq<string>): real {
    if themes == [] then 1.0 else Round4(ThemeHits(corpus, themes) as real / |themes| as real)
  }

  function ThemeScoreOf(answerText: string, snippets: seq<string>, themes: seq<string>): real {
    ThemeFraction(Corpus(answerText, snippets), themes)
  }

  /** `_theme_score` */
  method ThemeScore(answerText: string, snippets: seq<string>, themes: seq<string>) returns (score: real)
    ensures score == ThemeScoreOf(answerText, snippets, themes)
  {
    if themes == [] {
      return 1.0;
    }
    var corpus := Corpus(answerText, snippets);
    var hits := CountHits(corpus, themes);
    score := Round4(hits as real / |themes| as real);
  }

  /** The hit counter of `_theme_score`. */
  method CountHits(corpus: string, themes: seq<string>) returns (hits: nat)
    ensures hits == ThemeHits(corpus, themes)
  {
    hits := 0;
    var i := 0;
    while i < |themes|
      invariant 0 <= i <= |themes|
      invariant hits == ThemeHits(corpus, themes[..i])
    {
      assert themes[..i + 1][..i] == themes[..i];
      var token := ThemeToken(themes[i]);
      i := i + 1;
      if token == "" {
        continue;
      }
      if Contains(corpus, token) {
        hits := hits + 1;
      }
    }
    assert themes[..i] == themes;
  }

  lemma {:induction false} ThemeHitsExtremes(corpus: string, themes: seq<string>)
    ensures ThemeHits(corpus, themes) == |themes| <==> forall t | t in themes :: ThemeHit(corpus, t)
    ensures ThemeHits(corpus, themes) == 0 <==> forall t | t in themes :: !ThemeHit(corpus, t)
  {
    if themes != [] {
      var init := themes[..|themes| - 1];
      var last := themes[|themes| - 1];
      ThemeHitsExtremes(corpus, init);
      InitLast(themes);
      HitsExtremesStep(ThemeHits(corpus, init), |init|, ThemeHit(corpus, last),
        forall t | t in init :: ThemeHit(corpus, t), forall t | t in init :: !ThemeHit(corpus, t));
    }
  }

  /** Every member of a non-empty sequence is in its initial part or is its last element. */
  lemma InitLast<T>(xs: seq<T>)
    requires xs != []
    ensures forall t :: t in xs <==> t in xs[..|xs| - 1] || t == xs[|xs| - 1]
  {
    assert xs == xs[..|xs| - 1] + [xs[|xs| - 1]];
  }

  /** One step of `ThemeHitsExtremes`, on plain values. */
  lemma HitsExtremesStep(h: nat, n: nat, hit: bool, all: bool, none: bool)
    requires h <= n && (h == n <==> all) && (h == 0 <==> none)
    ensures h + (if hit then 1 else 0) == n + 1 <==> all && hit
    ensures h + (if hit then 1 else 0) == 0 <==> none && !hit
  {
  }

  /** The score is a fraction of the themes: 1.0 without themes, otherwise in
      [0, 1]; with at most 19999 themes it is 1.0 exactly when every theme
      is found, and a blank theme (counted in the denominator) is never found. */
  lemma ThemeFractionMeaning(corpus: string, themes: seq<string>)
    ensures 0.0 <= ThemeFraction(corpus, themes) <= 1.0
    ensures themes == [] ==> ThemeFraction(corpus, themes) == 1.0
    ensures |themes| <= 19999 ==> (ThemeFraction(corpus, themes) == 1.0 <==> forall t | t in themes :: ThemeHit(corpus, t))
    ensures themes != [] && (forall t | t in themes :: ThemeToken(t) == "") ==> ThemeFraction(corpus, themes) == 0.0
  {
    ThemeHitsExtremes(corpus, themes);
    if themes != [] {
      var hits := ThemeHits(corpus, themes);
      assert ThemeFraction(corpus, themes) == Ratio(hits, |themes|);
      RatioBounds(hits, |themes|);
      if |themes| <= 19999 {
        RatioFull(hits, |themes|);
      }
      if forall t | t in themes :: ThemeToken(t) == "" {
        assert forall t | t in themes :: !ThemeHit(corpus, t);
        RatioZero(|themes|);
      }
    }
  }

  // ---------------------------------------------------------------------------
  // Citation constraints

  /** The lower-cased title, or the source name when the title is empty. */
  function SourceName(row: ChatCitation): string {
    Lower(if row.title != "" then row.title else row.sourceName)
  }

  /** An empty `source_contains` and a missing page match anything. */
  predicate Matches(expected: ExpectedCitation, row: ChatCitation) {
    var needle := Lower(expected.sourceContains);
    (needle == "" || Contains(SourceName(row), needle)) && (expected.page.None? || row.pageNumber == expected.page)
  }

  predicate MatchedBy(chat: seq<ChatCitation>, expected: ExpectedCitation) {
    exists j | 0 <= j < |chat| :: Matches(expected, chat[j])
  }

  predicate ConstraintsHold(chat: seq<ChatCitation>, expected: seq<ExpectedCitation>) {
    forall i | 0 <= i < |expected| :: MatchedBy(chat, expected[i])
  }

  /** `_citation_constraints_ok`: true iff every expected row is matched by some
      chat citation; so true without expected rows and false without citations
      when some row is expected. */
  method ConstraintsOk(chat: seq<ChatCitation>, expected: seq<ExpectedCitation>) returns (ok: bool)
    ensures ok == ConstraintsHold(chat, expected)
    ensures expected == [] ==> ok
    ensures chat == [] && expected != [] ==> !ok
  {
    var i := 0;
    while i < |expected|
      invariant 0 <= i <= |expected|
      invariant forall k | 0 <= k < i :: MatchedBy(chat, expected[k])
    {
      var matched := false;
      var j := 0;
      while j < |chat|
        invariant 0 <= j <= |chat|
        invariant !matched
        invariant forall k | 0 <= k < j :: !Matches(expected[i], chat[k])
      {
        if Matches(expected[i], chat[j]) {
          matched := true;
          break;
        }
        j := j + 1;
      }
      if !matched {
        assert !MatchedBy(chat, expected[i]);
        return false;
      }
      assert MatchedBy(chat, expected[i]);
      i := i + 1;
    }
    ConstraintsEdges(chat, expected);
    return true;
  }

  lemma ConstraintsEdges(chat: seq<ChatCitation>, expected: seq<ExpectedCitation>)
    ensures expected == [] ==> ConstraintsHold(chat, expected)
    ensures chat == [] && expected != [] ==> !ConstraintsHold(chat, expected)
  {
    if chat == [] && expected != [] {
      assert !MatchedBy(chat, expected[0]);
    }
  }

  // ---------------------------------------------------------------------------
  // Scoring one case

  /** The non-empty chunk ids of the rows of query `queryId` whose decision is
      "selected", in row order. */
  function SelectedIds(rows: seq<RetrievalRow>, queryId: int): (ids: seq<string>)
    ensures forall x :: x in ids <==> exists row | row in rows :: row.queryId == queryId && row.decision == "selected" && row.chunkId == x && x != ""
  {
    if rows == [] then []
    else
      var rest := SelectedIds(rows[1..], queryId);
      var row := rows[0];
      assert forall r | r in rows :: r == row || r in rows[1..];
      if row.queryId == queryId && row.decision == "selected" && row.chunkId != "" then [row.chunkId] + rest else rest
  }

  function Snippets(chat: seq<ChatCitation>): (r: seq<string>)
    ensures |r| == |chat| && forall i | 0 <= i < |chat| :: r[i] == chat[i].snippet
  {
    seq(|chat|, i requires 0 <= i < |chat| => chat[i].snippet)
  }

  function Last<T>(xs: seq<T>): T
    requires xs != []
  {
    xs[|xs| - 1]
  }

  /** The loop body of `_evaluate_cases` for one case. */
  function CaseOf(c: EvalCase, obs: Observation): Result<CaseResult, EvalError> {
    var question := Strip(c.question, IsSpace);
    if question == "" then Failure(EmptyQuestion(c.id))
    else if obs.answers == [] then Failure(NoAnswerRecord(c.id))
    else Success(Scored(c, question, obs, Last(obs.answers)))
  }

  /** The record of a case whose question is `question` and whose latest answer
      record is `latest`. */
  function Scored(c: EvalCase, question: string, obs: Observation, latest: AnswerRecord): CaseResult {
    var selected := SelectedIds(obs.retrieval, latest.id);
    var citations := NonEmpty(latest.citations);
    CaseResult(
      c.id, question, c.expectNoSource, obs.answerMode, latest.answerText, citations, selected,
      |citations| > 0,
      forall cid | cid in citations :: cid in selected,
      ConstraintsHold(obs.chat, c.expectedCitations),
      ThemeScoreOf(latest.answerText, Snippets(obs.chat), c.expectedThemes),
      !c.expectNoSource || (obs.answerMode == "no_support" && |citations| == 0))
  }

  method ScoreCase(c: EvalCase, obs: Observation) returns (r: Result<CaseResult, EvalError>)
    ensures r == CaseOf(c, obs)
  {
    var question := Strip(c.question, IsSpace);
    if question == "" {
      return Failure(EmptyQuestion(c.id));
    }
    if obs.answers == [] {
      return Failure(NoAnswerRecord(c.id));
    }
    var latest := obs.answers[|obs.answers| - 1];
    var scored := ScoreAnswer(c, question, obs, latest);
    r := Success(scored);
  }

  /** Scores the latest answer record of a case with a non-blank question. */
  method ScoreAnswer(c: EvalCase, question: string, obs: Observation, latest: AnswerRecord) returns (r: CaseResult)
    ensures r == Scored(c, question, obs, latest)
  {
    var selected := SelectedIds(obs.retrieval, latest.id);
    var citations := NonEmpty(latest.citations);
    var snippets := Snippets(obs.chat);
    var coverage := |citations| > 0;
    var correctness := forall cid | cid in citations :: cid in selected;
    var constraintsOk := ConstraintsOk(obs.chat, c.expectedCitations);
    var noSourceOk := true;
    if c.expectNoSource {
      noSourceOk := obs.answerMode == "no_support" && |citations| == 0;
    }
    var score := ThemeScore(latest.answerText, snippets, c.expectedThemes);
    r := CaseResult(
      c.id, question, c.expectNoSource, obs.answerMode, latest.answerText, citations, selected,
      coverage, correctness, constraintsOk, score, noSourceOk);
  }

  /** What the flags of a scored case mean in terms of the latest answer record:
      coverage iff it has a non-empty citation id, correctness iff each of them is
      a selected candidate (so vacuous without citations), and for a case that
      expects no source, the mode is "no_support" and nothing is cited. A case
      fails only on an empty question or an empty answer list. */
  lemma CaseMeaning(c: EvalCase, obs: Observation)
    ensures CaseOf(c, obs).Failure? <==> Strip(c.question, IsSpace) == "" || obs.answers == []
    ensures CaseOf(c, obs).Success? ==>
      var r := CaseOf(c, obs).value;
      var latest := Last(obs.answers);
      r.id == c.id && r.expectNoSource == c.expectNoSource &&
      (r.citationCoverage <==> exists x | x in latest.citations :: x != "") &&
      (r.citationCorrectness <==> forall x | x in latest.citations && x != "" ::
        exists row | row in obs.retrieval :: row.queryId == latest.id && row.decision == "selected" && row.chunkId == x) &&
      (r.noSourceOk <==> !c.expectNoSource || (obs.answerMode == "no_support" && forall x | x in latest.citations :: x == "")) &&
      0.0 <= r.themeScore <= 1.0
  {
    if CaseOf(c, obs).Success? {
      var latest := Last(obs.answers);
      NonEmptyNone(latest.citations);
      ThemeFractionMeaning(Corpus(latest.answerText, Snippets(obs.chat)), c.expectedThemes);
    }
  }

  lemma NonEmptyNone(xs: seq<string>)
    ensures NonEmpty(xs) == [] <==> forall x | x in xs :: x == ""
  {
    if NonEmpty(xs) != [] {
      assert NonEmpty(xs)[0] in NonEmpty(xs);
    }
  }

  // ---------------------------------------------------------------------------
  // All cases, the anchor and the replay

  function CaseId(c: EvalCase): string {
    c.id
  }

  /** Scoring of one case against what asking it left behind. */
  type Scorer = (EvalCase, Observation) -> Result<CaseResult, EvalError>

  /** The case results of `sorted` in order, or the first case's error. */
  function Results(sorted: seq<EvalCase>, obs: seq<Observation>, score: Scorer): Result<seq<CaseResult>, EvalError>
    requires |sorted| == |obs|
  {
    if sorted == [] then Success([])
    else
      match Results(sorted[..|sorted| - 1], obs[..|obs| - 1], score)
      case Failure(e) => Failure(e)
      case Success(rs) =>
        match score(sorted[|sorted| - 1], obs[|obs| - 1])
        case Failure(e) => Failure(e)
        case Success(r) => Success(rs + [r])
  }

  lemma ResultsStep(sorted: seq<EvalCase>, obs: seq<Observation>, score: Scorer, i: nat,
                    results: seq<CaseResult>, c: Result<CaseResult, EvalError>)
    requires i < |sorted| == |obs|
    requires Results(sorted[..i], obs[..i], score) == Success(results)
    requires c == score(sorted[i], obs[i])
    ensures Results(sorted[..i + 1], obs[..i + 1], score) == if c.Failure? then Failure(c.error) else Success(results + [c.value])
  {
    assert sorted[..i + 1][..i] == sorted[..i] && obs[..i + 1][..i] == obs[..i];
    assert sorted[..i + 1][i] == sorted[i] && obs[..i + 1][i] == obs[i];
  }

  lemma {:induction false} ResultsShape(sorted: seq<EvalCase>, obs: seq<Observation>, score: Scorer)
    requires |sorted| == |obs|
    ensures Results(sorted, obs, score).Success? ==>
      var rs := Results(sorted, obs, score).value;
      |rs| == |sorted| && forall i | 0 <= i < |rs| :: score(sorted[i], obs[i]) == Success(rs[i])
    ensures Results(sorted, obs, score).Failure? <==> exists i | 0 <= i < |sorted| :: score(sorted[i], obs[i]).Failure?
  {
    if sorted != [] {
      var n := |sorted| - 1;
      ResultsShape(sorted[..n], obs[..n], score);
      assert forall i | 0 <= i < n :: sorted[..n][i] == sorted[i] && obs[..n][i] == obs[i];
    }
  }

  lemma {:induction false} ResultsFailPrefix(sorted: seq<EvalCase>, obs: seq<Observation>, score: Scorer, k: nat, e: EvalError)
    requires |sorted| == |obs| && k <= |sorted|
    requires Results(sorted[..k], obs[..k], score) == Failure(e)
    ensures Results(sorted, obs, score) == Failure(e)
    decreases |sorted| - k
  {
    if k < |sorted| {
      assert sorted[..k + 1][..k] == sorted[..k] && obs[..k + 1][..k] == obs[..k];
      ResultsFailPrefix(sorted, obs, score, k + 1, e);
    } else {
      assert sorted[..k] == sorted && obs[..k] == obs;
    }
  }

  /** The first result whose case expects a source. */
  function Anchor(results: seq<CaseResult>): Option<CaseResult> {
    if results == [] then None
    else if !results[0].expectNoSource then Some(results[0])
    else Anchor(results[1..])
  }

  lemma {:induction false} AnchorMeaning(results: seq<CaseResult>)
    ensures Anchor(results).None? <==> forall i | 0 <= i < |results| :: results[i].expectNoSource
    ensures Anchor(results).Some? ==> exists i | 0 <= i < |results| ::
      results[i] == Anchor(results).value && !results[i].expectNoSource &&
      forall k | 0 <= k < i :: results[k].expectNoSource
  {
    if results != [] && results[0].expectNoSource {
      AnchorMeaning(results[1..]);
      if Anchor(results).Some? {
        var i :| 0 <= i < |results[1..]| && results[1..][i] == Anchor(results).value &&
          !results[1..][i].expectNoSource && forall k | 0 <= k < i :: results[1..][k].expectNoSource;
        assert results[i + 1] == results[1..][i];
        assert forall k | 1 <= k < i + 1 :: results[k] == results[1..][k - 1];
      }
      assert forall i | 1 <= i < |results| :: results[i] == results[1..][i - 1];
    }
  }

  lemma {:induction false} AnchorAppend(results: seq<CaseResult>, r: CaseResult)
    ensures Anchor(results + [r]) == if Anchor(results).Some? then Anchor(results) else if !r.expectNoSource then Some(r) else None
  {
    if results != [] {
      assert (results + [r])[1..] == results[1..] + [r];
      AnchorAppend(results[1..], r);
    }
  }

  /** Replay passes iff the latest replayed record has the anchor's answer text
      and exactly its citation list; with no anchor nothing is replayed. */
  function ReplayOf(anchor: Option<CaseResult>, replayAnswers: seq<AnswerRecord>): Result<bool, EvalError> {
    if anchor.None? then Success(true)
    else if replayAnswers == [] then Failure(NoReplayRecord)
    else
      var latest := Last(replayAnswers);
      Success(latest.answerText == anchor.value.answerText && latest.citations == anchor.value.citations)
  }

  /** Without an anchor the replay passes; otherwise it needs a replayed record,
      and passes iff the latest one has the anchor's text and the anchor's
      citation ids position by position, so the same ids in another order fail. */
  lemma ReplayMeaning(anchor: CaseResult, replayAnswers: seq<AnswerRecord>)
    ensures ReplayOf(None, replayAnswers) == Success(true)
    ensures ReplayOf(Some(anchor), replayAnswers).Failure? <==> replayAnswers == []
    ensures replayAnswers != [] ==>
      var latest := Last(replayAnswers);
      (ReplayOf(Some(anchor), replayAnswers).value <==>
        latest.answerText == anchor.answerText && |latest.citations| == |anchor.citations| &&
        forall i | 0 <= i < |anchor.citations| :: latest.citations[i] == anchor.citations[i])
    ensures (replayAnswers != [] && multiset(Last(replayAnswers).citations) == multiset(anchor.citations) &&
             Last(replayAnswers).citations != anchor.citations) ==> ReplayOf(Some(anchor), replayAnswers) == Success(false)
  {
    if replayAnswers != [] {
      var latest := Last(replayAnswers);
      if |latest.citations| == |anchor.citations| && forall i | 0 <= i < |anchor.citations| :: latest.citations[i] == anchor.citations[i] {
        assert latest.citations == anchor.citations;
      }
    }
  }

  /** The replayed record's citations are compared unfiltered with the anchor's
      filtered ones, so a record that stores an empty citation id fails a replay
      that reproduces it exactly. */
  lemma ReplayOfBlankCitationFails(anchorCase: EvalCase, obs: Observation, replayAnswers: seq<AnswerRecord>)
    requires CaseOf(anchorCase, obs).Success?
    requires replayAnswers != [] && Last(replayAnswers) == Last(obs.answers)
    requires "" in Last(obs.answers).citations
    ensures ReplayOf(Some(CaseOf(anchorCase, obs).value), replayAnswers) == Success(false)
  {
    assert "" !in CaseOf(anchorCase, obs).value.citations;
  }

  datatype Metrics = Metrics(
    citationCoverage: real,
    citationCorrectness: real,
    expectedCitationConstraints: real,
    helpfulness: real,
    noSourceBehavior: real,
    deterministicReplay: real)

  datatype Evaluation = Evaluation(results: seq<CaseResult>, metrics: Metrics, replayOk: bool)

  /** `_evaluate_cases` as a function of the observations. */
  function EvaluationOf(cases: seq<EvalCase>, obs: seq<Observation>, replayAnswers: seq<AnswerRecord>): Result<Evaluation, EvalError>
    requires |obs| == |cases|
  {
    var sorted := SortBy(cases, CaseId);
    assert |sorted| == |multiset(sorted)| == |cases|;
    match Results(sorted, obs, CaseOf)
    case Failure(e) => Failure(e)
    case Success(rs) =>
      match ReplayOf(Anchor(rs), replayAnswers)
      case Failure(e) => Failure(e)
      case Success(ok) => Success(Evaluation(rs, BuildMetrics(rs, ok), ok))
  }

  /** `_evaluate_cases`: scores the cases in id order, keeps the first sourced
      result as the replay anchor, then checks the replay. */
  method EvaluateCases(cases: seq<EvalCase>, obs: seq<Observation>, replayAnswers: seq<AnswerRecord>) returns (r: Result<Evaluation, EvalError>)
    requires |obs| == |cases|
    ensures r == EvaluationOf(cases, obs, replayAnswers)
  {
    var sorted := SortBy(cases, CaseId);
    assert |sorted| == |multiset(sorted)| == |cases|;
    var scored, anchor := ScoreSorted(sorted, obs);
    if scored.Failure? {
      return Failure(scored.error);
    }
    var results := scored.value;
    var replayOk := true;
    if anchor.Some? {
      if replayAnswers == [] {
        return Failure(NoReplayRecord);
      }
      var latest := replayAnswers[|replayAnswers| - 1];
      replayOk := latest.answerText == anchor.value.answerText && latest.citations == anchor.value.citations;
    }
    r := Success(Evaluation(results, BuildMetrics(results, replayOk), replayOk));
  }

  /** The scoring loop of `_evaluate_cases`: stops at the first case that fails,
      and keeps the first result that expects a source as it goes. */
  method ScoreSorted(sorted: seq<EvalCase>, obs: seq<Observation>) returns (r: Result<seq<CaseResult>, EvalError>, anchor: Option<CaseResult>)
    requires |sorted| == |obs|
    ensures r == Results(sorted, obs, CaseOf)
    ensures r.Success? ==> anchor == Anchor(r.value)
  {
    var results: seq<CaseResult> := [];
    anchor := None;
    var i := 0;
    while i < |sorted|
      invariant 0 <= i <= |sorted|
      invariant Results(sorted[..i], obs[..i], CaseOf) == Success(results)
      invariant anchor == Anchor(results)
    {
      var c := ScoreCase(sorted[i], obs[i]);
      ResultsStep(sorted, obs, CaseOf, i, results, c);
      if c.Failure? {
        ResultsFailPrefix(sorted, obs, CaseOf, i + 1, c.error);
        return Failure(c.error), anchor;
      }
      var next := results + [c.value];
      assert Results(sorted[..i + 1], obs[..i + 1], CaseOf) == Success(next);
      AnchorAppend(results, c.value);
      results := next;
      if anchor.None? && !c.value.expectNoSource {
        anchor := Some(c.value);
      }
      i := i + 1;
    }
    assert sorted[..i] == sorted && obs[..i] == obs;
    r := Success(results);
  }

  /** A successful evaluation has one result per case, in id order and in the
      order the cases were given among equal ids, each the scoring of its case;
      its replay flag is set iff there is no anchor (no sourced case, by
      `AnchorMeaning`) or the latest replayed record matches the anchor. */
  lemma EvaluationMeaning(cases: seq<EvalCase>, obs: seq<Observation>, replayAnswers: seq<AnswerRecord>)
    requires |obs| == |cases|
    ensures var r := EvaluationOf(cases, obs, replayAnswers); r.Success? ==>
      var sorted := SortBy(cases, CaseId);
      var rs := r.value.results;
      |rs| == |sorted| == |cases| &&
      multiset(sorted) == multiset(cases) &&
      (forall i | 0 <= i < |rs| :: CaseOf(sorted[i], obs[i]) == Success(rs[i]) && rs[i].id == sorted[i].id) &&
      (forall i, j | 0 <= i < j < |rs| :: !Less(rs[j].id, rs[i].id)) &&
      (r.value.replayOk <==>
        (Anchor(rs).None? ||
         (replayAnswers != [] && Last(replayAnswers).answerText == Anchor(rs).value.answerText &&
          Last(replayAnswers).citations == Anchor(rs).value.citations)))
  {
    var sorted := SortBy(cases, CaseId);
    assert |sorted| == |multiset(sorted)| == |cases|;
    ResultsShape(sorted, obs, CaseOf);
    var r := EvaluationOf(cases, obs, replayAnswers);
    if r.Success? {
      var rs := r.value.results;
      assert Results(sorted, obs, CaseOf) == Success(rs);
      forall i | 0 <= i < |rs| ensures rs[i].id == sorted[i].id {
        CaseKeepsId(sorted[i], obs[i]);
      }
    }
  }

  lemma CaseKeepsId(c: EvalCase, obs: Observation)
    ensures CaseOf(c, obs).Success? ==> CaseOf(c, obs).value.id == c.id
  {
  }

  // ---------------------------------------------------------------------------
  // Metrics

  function Filter(rs: seq<CaseResult>, p: CaseResult -> bool): (r: seq<CaseResult>)
    ensures forall c :: c in r <==> c in rs && p(c)
  {
    if rs == [] then []
    else
      assert forall c | c in rs :: c == rs[0] || c in rs[1..];
      if p(rs[0]) then [rs[0]] + Filter(rs[1..], p) else Filter(rs[1..], p)
  }

  function NoSourceCases(rs: seq<CaseResult>): seq<CaseResult> {
    Filter(rs, (c: CaseResult) => c.expectNoSource)
  }

  /** As written: the results that are not (equal to) a no-source result. */
  function SourcedCases(rs: seq<CaseResult>): seq<CaseResult> {
    var noSource := NoSourceCases(rs);
    Filter(rs, (c: CaseResult) => c !in noSource)
  }

  function Count(rs: seq<CaseResult>, p: CaseResult -> bool): (n: nat)
    ensures n <= |rs|
  {
    if rs == [] then 0 else (if p(rs[0]) then 1 else 0) + Count(rs[1..], p)
  }

  function ThemeScores(rs: seq<CaseResult>): (scores: seq<real>)
    ensures |scores| == |rs| && forall i | 0 <= i < |rs| :: scores[i] == rs[i].themeScore
  {
    seq(|rs|, i requires 0 <= i < |rs| => rs[i].themeScore)
  }

  predicate Covered(c: CaseResult) { c.citationCoverage }
  predicate Correct(c: CaseResult) { c.citationCorrectness }
  predicate ConstraintsMet(c: CaseResult) { c.constraintsOk }
  predicate NoSourceBehaved(c: CaseResult) { c.noSourceOk }

  /** `_build_metrics` */
  function BuildMetrics(rs: seq<CaseResult>, replayOk: bool): Metrics {
    var sourced := SourcedCases(rs);
    var noSource := NoSourceCases(rs);
    Metrics(
      Ratio(Count(sourced, Covered), |sourced|),
      Ratio(Count(sourced, Correct), |sourced|),
      Ratio(Count(sourced, ConstraintsMet), |sourced|),
      Mean(ThemeScores(sourced)),
      Ratio(Count(noSource, NoSourceBehaved), |noSource|),
      if replayOk then 1.0 else 0.0)
  }

  lemma {:induction false} FilterAgree(rs: seq<CaseResult>, p: CaseResult -> bool, q: CaseResult -> bool)
    requires forall c | c in rs :: p(c) == q(c)
    ensures Filter(rs, p) == Filter(rs, q)
  {
    if rs != [] {
      assert forall c | c in rs[1..] :: c in rs;
      FilterAgree(rs[1..], p, q);
    }
  }

  lemma FilterNone(rs: seq<CaseResult>, p: CaseResult -> bool)
    ensures Filter(rs, p) == [] <==> forall c | c in rs :: !p(c)
  {
    if Filter(rs, p) != [] {
      assert Filter(rs, p)[0] in Filter(rs, p);
    }
  }

  lemma {:induction false} FilterPartition(rs: seq<CaseResult>, p: CaseResult -> bool)
    ensures multiset(Filter(rs, p)) + multiset(Filter(rs, (c: CaseResult) => !p(c))) == multiset(rs)
  {
    if rs != [] {
      FilterPartition(rs[1..], p);
      assert rs == [rs[0]] + rs[1..];
    }
  }

  /** A result equal to a no-source result expects no source itself, so the
      sourced results are exactly those that expect a source, and the two lists
      partition the results. */
  lemma SourcedPartition(rs: seq<CaseResult>)
    ensures SourcedCases(rs) == Filter(rs, (c: CaseResult) => !c.expectNoSource)
    ensures multiset(SourcedCases(rs)) + multiset(NoSourceCases(rs)) == multiset(rs)
  {
    var noSource := NoSourceCases(rs);
    FilterAgree(rs, (c: CaseResult) => c !in noSource, (c: CaseResult) => !c.expectNoSource);
    var p := (c: CaseResult) => c.expectNoSource;
    FilterPartition(rs, p);
    FilterAgree(rs, (c: CaseResult) => !p(c), (c: CaseResult) => !c.expectNoSource);
  }

  lemma {:induction false} CountAll(rs: seq<CaseResult>, p: CaseResult -> bool)
    ensures Count(rs, p) == |rs| <==> forall c | c in rs :: p(c)
  {
    if rs != [] {
      CountAll(rs[1..], p);
      assert forall c | c in rs :: c == rs[0] || c in rs[1..];
    }
  }

  lemma {:induction false} ThemeScoresBounded(rs: seq<CaseResult>)
    requires forall c | c in rs :: 0.0 <= c.themeScore <= 1.0
    ensures forall i | 0 <= i < |ThemeScores(rs)| :: 0.0 <= ThemeScores(rs)[i] <= 1.0
  {
    forall i | 0 <= i < |rs| ensures 0.0 <= ThemeScores(rs)[i] <= 1.0 {
      assert rs[i] in rs;
    }
  }

  lemma SourcedMembers(rs: seq<CaseResult>)
    ensures forall c :: c in SourcedCases(rs) <==> c in rs && !c.expectNoSource
    ensures forall c :: c in NoSourceCases(rs) <==> c in rs && c.expectNoSource
    ensures |SourcedCases(rs)| <= |rs| && |NoSourceCases(rs)| <= |rs|
  {
    SourcedPartition(rs);
    assert |multiset(SourcedCases(rs))| + |multiset(NoSourceCases(rs))| == |multiset(rs)|;
  }

  /** A ratio over a partition is in [0, 1], and with up to 19999 members
      it is 1.0 exactly when every member passes. */
  lemma PartRatio(part: seq<CaseResult>, p: CaseResult -> bool)
    ensures 0.0 <= Ratio(Count(part, p), |part|) <= 1.0
    ensures |part| <= 19999 ==> (Ratio(Count(part, p), |part|) == 1.0 <==> forall c | c in part :: p(c))
  {
    RatioBounds(Count(part, p), |part|);
    if |part| <= 19999 {
      RatioFull(Count(part, p), |part|);
      CountAll(part, p);
    }
  }

  /** Every metric is in [0, 1] and replay is exactly 1.0 or 0.0. */
  lemma MetricsBounds(rs: seq<CaseResult>, replayOk: bool)
    requires forall c | c in rs :: 0.0 <= c.themeScore <= 1.0
    ensures var m := BuildMetrics(rs, replayOk);
      0.0 <= m.citationCoverage <= 1.0 && 0.0 <= m.citationCorrectness <= 1.0 &&
      0.0 <= m.expectedCitationConstraints <= 1.0 && 0.0 <= m.helpfulness <= 1.0 &&
      0.0 <= m.noSourceBehavior <= 1.0 && m.deterministicReplay == (if replayOk then 1.0 else 0.0)
  {
    SourcedMembers(rs);
    var sourced := SourcedCases(rs);
    PartRatio(sourced, Covered);
    PartRatio(sourced, Correct);
    PartRatio(sourced, ConstraintsMet);
    PartRatio(NoSourceCases(rs), NoSourceBehaved);
    ThemeScoresBounded(sourced);
    MeanBounds(ThemeScores(sourced));
  }

  /** With up to 19999 results the three citation metrics are 1.0
      exactly when every sourced case passes, and the no-source metric exactly
      when every no-source case behaves; an empty partition gives 1.0. */
  lemma MetricsFull(rs: seq<CaseResult>, replayOk: bool)
    requires |rs| <= 19999
    ensures var m := BuildMetrics(rs, replayOk);
      (m.citationCoverage == 1.0 <==> (forall c | c in rs && !c.expectNoSource :: c.citationCoverage)) &&
      (m.citationCorrectness == 1.0 <==> (forall c | c in rs && !c.expectNoSource :: c.citationCorrectness)) &&
      (m.expectedCitationConstraints == 1.0 <==> (forall c | c in rs && !c.expectNoSource :: c.constraintsOk)) &&
      (m.noSourceBehavior == 1.0 <==> forall c | c in rs && c.expectNoSource :: c.noSourceOk)
    ensures (forall c | c in rs :: c.expectNoSource) ==> var m := BuildMetrics(rs, replayOk);
      m.citationCoverage == 1.0 && m.citationCorrectness == 1.0 && m.expectedCitationConstraints == 1.0 && m.helpfulness == 1.0
  {
    SourcedMembers(rs);
    var sourced := SourcedCases(rs);
    PartRatio(sourced, Covered);
    PartRatio(sourced, Correct);
    PartRatio(sourced, ConstraintsMet);
    PartRatio(NoSourceCases(rs), NoSourceBehaved);
    FilterNone(rs, (c: CaseResult) => !c.expectNoSource);
    SourcedPartition(rs);
  }

  // ---------------------------------------------------------------------------
  // Threshold and regression gates

  /** The six metric keys of the report; `KeyName` is the JSON key. */
  datatype MetricKey =
    | CitationCoverage
    | CitationCorrectness
    | ExpectedCitationConstraints
    | Helpfulness
    | NoSourceBehavior
    | DeterministicReplay

  function KeyName(key: MetricKey): string {
    match key
    case CitationCoverage => "citation_coverage"
    case CitationCorrectness => "citation_correctness"
    case ExpectedCitationConstraints => "expected_citation_constraints"
    case Helpfulness => "helpfulness"
    case NoSourceBehavior => "no_source_behavior"
    case DeterministicReplay => "deterministic_replay"
  }

  /** The report's metrics in key order. */
  function Entries(m: Metrics): seq<(MetricKey, real)> {
    [(CitationCoverage, m.citationCoverage),
     (CitationCorrectness, m.citationCorrectness),
     (ExpectedCitationConstraints, m.expectedCitationConstraints),
     (Helpfulness, m.helpfulness),
     (NoSourceBehavior, m.noSourceBehavior),
     (DeterministicReplay, m.deterministicReplay)]
  }

  /** The minimum of each metric, in the same order. */
  function Minimums(t: Thresholds): seq<real> {
    [t.coverageMin, t.correctnessMin, t.constraintsMin, t.helpfulnessMin, t.noSourceMin, t.replayMin]
  }

  /** The message a threshold failure prints. */
  function BelowMessage(key: MetricKey): string {
    KeyName(key) + " below threshold"
  }

  /** The key of each entry strictly below its minimum, in entry order (one
      `BelowMessage` each). */
  function Failing(entries: seq<(MetricKey, real)>, mins: seq<real>): seq<MetricKey>
    requires |entries| == |mins|
  {
    FailingTo(entries, mins, |entries|)
  }

  /** `Failing` on the first `n` entries. */
  function FailingTo(entries: seq<(MetricKey, real)>, mins: seq<real>, n: nat): seq<MetricKey>
    requires |entries| == |mins| && n <= |entries|
  {
    if n == 0 then [] else FailingTo(entries, mins, n - 1) + Below(entries[n - 1], mins[n - 1])
  }

  function Below(entry: (MetricKey, real), min: real): seq<MetricKey> {
    if entry.1 < min then [entry.0] else []
  }

  lemma BelowMembers(entry: (MetricKey, real), min: real)
    ensures Below(entry, min) == [] <==> entry.1 >= min
    ensures forall k :: k in Below(entry, min) <==> entry.1 < min && k == entry.0
  {
  }

  /** `_threshold_failures` */
  method ThresholdFailures(m: Metrics, t: Thresholds) returns (failures: seq<MetricKey>)
    ensures failures == Failing(Entries(m), Minimums(t))
  {
    ghost var e := Entries(m);
    ghost var mins := Minimums(t);
    failures := [];
    assert failures == FailingTo(e, mins, 0);
    if m.citationCoverage < t.coverageMin {
      failures := failures + [CitationCoverage];
    }
    assert failures == FailingTo(e, mins, 1);
    if m.citationCorrectness < t.correctnessMin {
      failures := failures + [CitationCorrectness];
    }
    assert failures == FailingTo(e, mins, 2);
    if m.expectedCitationConstraints < t.constraintsMin {
      failures := failures + [ExpectedCitationConstraints];
    }
    assert failures == FailingTo(e, mins, 3);
    if m.helpfulness < t.helpfulnessMin {
      failures := failures + [Helpfulness];
    }
    assert failures == FailingTo(e, mins, 4);
    if m.noSourceBehavior < t.noSourceMin {
      failures := failures + [NoSourceBehavior];
    }
    assert failures == FailingTo(e, mins, 5);
    if m.deterministicReplay < t.replayMin {
      failures := failures + [DeterministicReplay];
    }
    assert failures == FailingTo(e, mins, 6);
  }

  /** The gate fails iff some metric is below its minimum; each key reported
      is a metric below its minimum and each metric below its minimum is
      reported. */
  lemma FailingMeaning(entries: seq<(MetricKey, real)>, mins: seq<real>)
    requires |entries| == |mins|
    ensures Failing(entries, mins) == [] <==> forall i | 0 <= i < |entries| :: entries[i].1 >= mins[i]
    ensures forall i | 0 <= i < |entries| && entries[i].1 < mins[i] :: entries[i].0 in Failing(entries, mins)
    ensures forall k | k in Failing(entries, mins) :: exists i | 0 <= i < |entries| :: entries[i].0 == k && entries[i].1 < mins[i]
  {
    FailingToMeaning(entries, mins, |entries|);
  }

  lemma {:induction false} FailingToMeaning(entries: seq<(MetricKey, real)>, mins: seq<real>, n: nat)
    requires |entries| == |mins| && n <= |entries|
    ensures FailingTo(entries, mins, n) == [] <==> forall i | 0 <= i < n :: entries[i].1 >= mins[i]
    ensures forall i | 0 <= i < n && entries[i].1 < mins[i] :: entries[i].0 in FailingTo(entries, mins, n)
    ensures forall k | k in FailingTo(entries, mins, n) :: exists i | 0 <= i < n :: entries[i].0 == k && entries[i].1 < mins[i]
  {
    if n > 0 {
      FailingToMeaning(entries, mins, n - 1);
      var prev := FailingTo(entries, mins, n - 1);
      var last := Below(entries[n - 1], mins[n - 1]);
      assert FailingTo(entries, mins, n) == prev + last;
      BelowMembers(entries[n - 1], mins[n - 1]);
      assert forall k :: k in prev + last <==> k in prev || k in last;
      forall i | 0 <= i < n && entries[i].1 < mins[i] ensures entries[i].0 in prev + last {
        if i < n - 1 {
          assert entries[i].0 in prev;
        }
      }
      forall k | k in prev + last ensures exists i | 0 <= i < n :: entries[i].0 == k && entries[i].1 < mins[i] {
        if k !in prev {
          assert entries[n - 1].0 == k && entries[n - 1].1 < mins[n - 1];
        }
      }
    }
  }

  /** Under the default thresholds the gate passes iff every metric is at least
      its minimum: 1.0 for all but helpfulness, 0.67 for helpfulness, equality
      passing. */
  lemma DefaultThresholdsMeaning(m: Metrics)
    ensures Failing(Entries(m), Minimums(DefaultThresholds)) == [] <==>
      m.citationCoverage >= 1.0 && m.citationCorrectness >= 1.0 && m.expectedCitationConstraints >= 1.0 &&
      m.helpfulness >= 0.67 && m.noSourceBehavior >= 1.0 && m.deterministicReplay >= 1.0
  {
    FailingMeaning(Entries(m), Minimums(DefaultThresholds));
    var e := Entries(m);
    var n := Minimums(DefaultThresholds);
    assert e[0].1 == m.citationCoverage && e[1].1 == m.citationCorrectness && e[2].1 == m.expectedCitationConstraints;
    assert e[3].1 == m.helpfulness && e[4].1 == m.noSourceBehavior && e[5].1 == m.deterministicReplay;
    assert n[3] == 0.67;
  }

  /** The drop each metric may show against the baseline. */
  function AllowedDrop(key: MetricKey): real {
    if key == Helpfulness then 0.1 else 0.0
  }

  /** A regression message's values; the text formatting is not modelled. */
  datatype Regression = Regression(key: MetricKey, baseline: real, current: real, allowedDrop: real)

  /** The entries, in order, whose baseline value exceeds them by more than their
      allowed drop; keys missing from the baseline are skipped. */
  function Regressions(entries: seq<(MetricKey, real)>, baseline: map<string, real>): seq<Regression> {
    if entries == [] then []
    else
      var init := Regressions(entries[..|entries| - 1], baseline);
      var (key, current) := entries[|entries| - 1];
      var name := KeyName(key);
      if name in baseline && baseline[name] - current > AllowedDrop(key) then
        init + [Regression(key, baseline[name], current, AllowedDrop(key))]
      else init
  }

  /** `_compare_with_baseline` */
  method CompareWithBaseline(entries: seq<(MetricKey, real)>, baseline: map<string, real>) returns (failures: seq<Regression>)
    ensures failures == Regressions(entries, baseline)
  {
    failures := [];
    var i := 0;
    while i < |entries|
      invariant 0 <= i <= |entries|
      invariant failures == Regressions(entries[..i], baseline)
    {
      assert entries[..i + 1][..i] == entries[..i];
      var (key, current) := entries[i];
      i := i + 1;
      var name := KeyName(key);
      if name !in baseline {
        continue;
      }
      var base := baseline[name];
      var drop := base - current;
      var allowed := AllowedDrop(key);
      if drop > allowed {
        failures := failures + [Regression(key, base, current, allowed)];
      }
    }
    assert entries[..i] == entries;
  }

  predicate Regressed(entry: (MetricKey, real), baseline: map<string, real>) {
    KeyName(entry.0) in baseline && baseline[KeyName(entry.0)] - entry.1 > AllowedDrop(entry.0)
  }

  /** Each regression is a regressed entry and each regressed entry is reported,
      in entry order: concatenating entry lists concatenates their reports. */
  lemma {:induction false} RegressionsMeaning(entries: seq<(MetricKey, real)>, baseline: map<string, real>)
    ensures forall f | f in Regressions(entries, baseline) ::
      (f.key, f.current) in entries && Regressed((f.key, f.current), baseline) &&
      f.baseline == baseline[KeyName(f.key)] && f.allowedDrop == AllowedDrop(f.key)
    ensures forall e | e in entries && Regressed(e, baseline) ::
      Regression(e.0, baseline[KeyName(e.0)], e.1, AllowedDrop(e.0)) in Regressions(entries, baseline)
  {
    if entries != [] {
      var init := entries[..|entries| - 1];
      RegressionsMeaning(init, baseline);
      assert entries == init + [entries[|entries| - 1]];
      var last := entries[|entries| - 1];
      forall f | f in Regressions(entries, baseline)
        ensures (f.key, f.current) in entries && Regressed((f.key, f.current), baseline)
        ensures f.baseline == baseline[KeyName(f.key)] && f.allowedDrop == AllowedDrop(f.key)
      {
        if f in Regressions(init, baseline) {
          assert (f.key, f.current) in init;
        } else {
          assert f == Regression(last.0, baseline[KeyName(last.0)], last.1, AllowedDrop(last.0));
          assert (f.key, f.current) == last;
        }
      }
    }
  }

  lemma {:induction false} RegressionsAppend(a: seq<(MetricKey, real)>, b: seq<(MetricKey, real)>, baseline: map<string, real>)
    ensures Regressions(a + b, baseline) == Regressions(a, baseline) + Regressions(b, baseline)
    decreases |b|
  {
    if b != [] {
      var bi := b[..|b| - 1];
      assert (a + b)[..|a + b| - 1] == a + bi;
      RegressionsAppend(a, bi, baseline);
    } else {
      assert a + b == a;
    }
  }

  /** Helpfulness may drop by exactly 0.1 and no more; every other metric may
      not drop at all; a missing baseline key never fails. */
  lemma SoftDropBoundary(current: real, base: real)
    ensures Regressions([(Helpfulness, current)], map[KeyName(Helpfulness) := base]) == [] <==> base - current <= 0.1
    ensures Regressions([(CitationCoverage, current)], map[KeyName(CitationCoverage) := base]) == [] <==> current >= base
    ensures Regressions([(Helpfulness, current)], map[]) == []
  {
    assert [(Helpfulness, current)][..0] == [];
    assert [(CitationCoverage, current)][..0] == [];
  }

  // ---------------------------------------------------------------------------
  // Exit code

  /** The regression check runs only with `--fail-on-regression` and an existing
      baseline report (None when the file is absent; its `metrics or {}`). */
  function BaselineFailures(m: Metrics, failOnRegression: bool, baseline: Option<map<string, real>>): seq<Regression> {
    if failOnRegression && baseline.Some? then Regressions(Entries(m), baseline.value) else []
  }

  /** The process exit status: an uncaught exception exits with 1. */
  function ExitStatus(cases: seq<EvalCase>, obs: seq<Observation>, replayAnswers: seq<AnswerRecord>,
                      failOnRegression: bool, baseline: Option<map<string, real>>): int
    requires |obs| == |cases|
  {
    match EvaluationOf(cases, obs, replayAnswers)
    case Failure(_) => 1
    case Success(ev) =>
      if Failing(Entries(ev.metrics), Minimums(DefaultThresholds)) != [] ||
         BaselineFailures(ev.metrics, failOnRegression, baseline) != [] then 1 else 0
  }

  /** The exit decision of `main`, from the outcomes of the steps before it. */
  method Gate(cases: seq<EvalCase>, obs: seq<Observation>, replayAnswers: seq<AnswerRecord>,
              failOnRegression: bool, baseline: Option<map<string, real>>) returns (status: int)
    requires |obs| == |cases|
    ensures status == ExitStatus(cases, obs, replayAnswers, failOnRegression, baseline)
  {
    var ev := EvaluateCases(cases, obs, replayAnswers);
    if ev.Failure? {
      return 1;
    }
    var thresholdFailures := ThresholdFailures(ev.value.metrics, DefaultThresholds);
    var baselineFailures: seq<Regression> := [];
    if failOnRegression && baseline.Some? {
      baselineFailures := CompareWithBaseline(Entries(ev.value.metrics), baseline.value);
    }
    if thresholdFailures != [] || baselineFailures != [] {
      return 1;
    }
    return 0;
  }

  /** A passing run (status 0) means: no case raised, and, with up to 19999
      cases, every sourced case cites something, cites only selected
      candidates and meets its citation constraints, the mean theme score of
      the sourced cases is at least 0.67, every no-source case behaved, and the
      replay of the anchor matched. */
  lemma PassingRunMeaning(cases: seq<EvalCase>, obs: seq<Observation>, replayAnswers: seq<AnswerRecord>,
                          failOnRegression: bool, baseline: Option<map<string, real>>)
    requires |obs| == |cases| && |cases| <= 19999
    requires ExitStatus(cases, obs, replayAnswers, failOnRegression, baseline) == 0
    ensures EvaluationOf(cases, obs, replayAnswers).Success?
    ensures var ev := EvaluationOf(cases, obs, replayAnswers).value;
      (forall c | c in ev.results && !c.expectNoSource :: c.citationCoverage) &&
      (forall c | c in ev.results && !c.expectNoSource :: c.citationCorrectness) &&
      (forall c | c in ev.results && !c.expectNoSource :: c.constraintsOk) &&
      (forall c | c in ev.results && c.expectNoSource :: c.noSourceOk) &&
      ev.metrics.helpfulness >= 0.67 && ev.replayOk
  {
    var ev := EvaluationOf(cases, obs, replayAnswers).value;
    EvaluationMeaning(cases, obs, replayAnswers);
    var sorted := SortBy(cases, CaseId);
    forall c | c in ev.results ensures 0.0 <= c.themeScore <= 1.0 {
      var i :| 0 <= i < |ev.results| && ev.results[i] == c;
      CaseMeaning(sorted[i], obs[i]);
    }
    MetricsBounds(ev.results, ev.replayOk);
    MetricsFull(ev.results, ev.replayOk);
    DefaultThresholdsMeaning(ev.metrics);
  }
}
