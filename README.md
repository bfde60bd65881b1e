# Deterministic quality gate of the namel3ss reference apps, in Dafny

This project models the rule-based core of the namel3ss reference apps and
proves what it promises:

- **The offline evaluation gate of the RAG demo** (`RunEval`, `Rounding`).
  - Every golden case is asked in id order.
  - The latest answer record is scored. The scores are citation coverage, citation correctness (cited ids are selected retrieval candidates), expected-citation constraints, a lexical theme score, and no-source behaviour.
  - The first case that expects a source is the replay anchor. Its replayed answer must match exactly.
  - The per-case flags are reduced to six metrics over the sourced and no-source partitions. An empty partition gives 1.0.
  - The run fails when a metric is strictly below its threshold. With `--fail-on-regression`, it also fails when a metric dropped against the baseline by more than allowed: 0.1 for helpfulness, 0 for the others.
- **The constitutional invariant checker** (`CheckInvariants`).
  - There are five independent checks: the constitution headings, the replay metric, the citation metrics, forbidden nondeterministic tokens, and explicit degradation markers.
  - The checks are aggregated into status, violations and exit code.
  - An execution error produces a single-violation payload.
- **The support-chat knowledge-base lookup** (`SearchKb`): whitespace normalisation, tokenisation, overlap scoring, and a best-match fold in which the earliest entry wins ties.
- **The query text tools** (`NormalizeQueryText`, `ExtractQueryKeywords`).
  - The normaliser lower-cases, replaces punctuation with spaces, collapses whitespace and strips.
  - The keyword extractor applies the same normalisation, then removes stopwords, keeps each token at its first occurrence, and keeps at most 24.
- **The URL snapshot helpers** (`FetchUrlSnapshot`): allowlist normalisation, host and subdomain matching, slugs, snapshot text normalisation, and the manifest merge (de-duplicated by URL, last entry wins, sorted by URL).
- **Shared models of Python built-ins.**
  - `Text` covers `str.lower`, `strip`, `split()`, `split(sep)`, `join`, `in` and the two regular-expression substitutions.
  - `StringOrder` covers string `<`, `sorted(set(...))` and the stable `sorted(key=...)`.
  - `Rounding` covers `round(x, 4)`, `_ratio` and `_mean`.
  - `Wrappers` holds `Option` and `Result`.

Loops in the source are methods with loop invariants. Each such method is proved equal to a specification function:
`CountHits`, `ConstraintsOk`, `ScoreSorted`, `CompareWithBaseline`, `CheckNoNondeterministicTokens`, `Score`, `Run` of the knowledge-base lookup, `Collect`, `IsAllowed` and `Dedup`.
The properties the source promises are lemmas about those functions.

Behaviour of the code worth noting:

- The evaluation runner exits with 1 when either the threshold list or the regression list is non-empty (`apps/rag-demo/eval/run_eval.py:462-467`).
- A missing constitution file makes the first check fail; it does not raise (`invariants/check_invariants.py:65-74`, `CheckInvariants.ChecksShape`). Among the inputs the model represents, only a missing app or report file aborts the run.
- The replay compares the replayed record's raw citation list against the anchor's citations, from which empty ids were filtered out (`apps/rag-demo/eval/run_eval.py:203`, `263`). `RunEval.ReplayOfBlankCitationFails` shows the consequence: a record that stores an empty citation id fails a replay that reproduces it exactly.
- The sourced cases are the results that are not equal to some no-source result (`apps/rag-demo/eval/run_eval.py:273`). `RunEval.SourcedPartition` proves these are exactly the results that expect a source.

## Model

| member | source | states |
|---|---|---|
| Text.IsSpace | apps/rag-demo/tools/normalize_query_text.py:6 | the whitespace class of `\s`, `split()` and `strip()`, on ASCII characters; what these operations do with it is stated by the Runs, DropWhile, DropWhileEnd and Strip rows |
| Text.Lower | apps/rag-demo/tools/normalize_query_text.py:11 | `str.lower` on ASCII: its content is stated by the LowerNoUpper and LowerFixed rows |
| Text.LowerNoUpper | apps/rag-demo/tools/normalize_query_text.py:11 | the lower-cased text has no upper-case letter, and each character keeps its whitespace and alphanumeric class |
| Text.LowerFixed | apps/rag-demo/tools/normalize_query_text.py:11 | a text without upper-case letters is unchanged by lower-casing |
| Text.ScrubPunctuation | apps/rag-demo/tools/normalize_query_text.py:12 | `_PUNCT_RE.sub(" ", ...)`: its content is stated by the ScrubShape and ScrubFixed rows |
| Text.ScrubShape | apps/rag-demo/tools/normalize_query_text.py:12 | scrubbing keeps the length, leaves only letters, digits and whitespace, and every non-whitespace character comes from the input |
| Text.ScrubFixed | apps/rag-demo/tools/normalize_query_text.py:12 | a text of letters, digits and whitespace only is unchanged by scrubbing |
| Text.Contains | apps/support-chat/search_kb.py:28 | Python `needle in hay`: its content is stated by the ContainsMeaning row |
| Text.ContainsMeaning | apps/support-chat/search_kb.py:28 | `needle in hay` holds iff `needle` occurs at some position of `hay` |
| Text.EndsWith | apps/rag-demo/scripts/fetch_url_snapshot.py:27 | `host.endswith(suffix)`: the suffix is the last characters of the string; the EndsWithAppend and SubdomainAllowed rows state its consequences |
| Text.Words | apps/support-chat/search_kb.py:17 | `str.split()`: the runs of the Runs row with whitespace as separator |
| Text.Runs | apps/support-chat/search_kb.py:17 | `str.split()`: every word is non-empty, has no whitespace, and uses only characters of the input |
| Text.Split | apps/support-chat/search_kb.py:21 | `str.split(sep)`: at least one piece, and no piece contains the separator |
| Text.NonEmpty | apps/support-chat/search_kb.py:21 | `[t for t in xs if t]`: keeps exactly the non-empty elements |
| Text.DropWhile | apps/rag-demo/scripts/fetch_url_snapshot.py:65 | `lstrip`: a suffix of the input that does not start with a stripped character, and every character removed is one |
| Text.DropWhileEnd | apps/rag-demo/scripts/fetch_url_snapshot.py:65 | `rstrip`: a prefix of the input that does not end with a stripped character, and every character removed is one |
| Text.Strip | apps/rag-demo/tools/normalize_query_text.py:13 | `strip()`: neither end of the result is a stripped character |
| Text.StripWindow | apps/rag-demo/tools/normalize_query_text.py:13 | `strip()` keeps a contiguous slice of the input, and every character outside it is a stripped one |
| Text.CollapseRuns | apps/rag-demo/tools/normalize_query_text.py:13 | `re.sub(r"\s+", " ", ...)` and `re.sub(r"[^a-zA-Z0-9]+", "-", ...)`: its content is stated by the CollapseStripIsJoin row |
| Text.CollapseStripIsJoin | apps/rag-demo/tools/normalize_query_text.py:13 | collapsing runs of a class to one character and then stripping it equals joining the maximal runs outside the class with that character |
| Text.JoinWordsShape | apps/support-chat/search_kb.py:17 | `" ".join(s.split())` has no leading, trailing or doubled space, and no whitespace other than the single separators |
| Text.JoinWordsIdempotent | apps/support-chat/search_kb.py:17 | applying `" ".join(s.split())` twice equals applying it once |
| Text.Join | apps/support-chat/search_kb.py:17 | `sep.join(parts)`: its content is stated by the JoinSplit, SplitOfJoin and JoinWordsShape rows |
| Text.JoinSplit | apps/rag-demo/scripts/fetch_url_snapshot.py:65 | joining the pieces of `split(sep)` with `sep` gives back the text |
| Text.SplitOfJoin | apps/support-chat/search_kb.py:21 | splitting a join on its separator gives back the parts when no part contains the separator |
| StringOrder.Less | apps/rag-demo/eval/run_eval.py:182 | string `<` (code point by code point, a proper prefix first): the LessTotal row and the lemmas beside it make it a strict total order |
| StringOrder.SortedSet | apps/rag-demo/scripts/fetch_url_snapshot.py:19 | `sorted(set(xs))`: strictly sorted, with exactly the elements of `xs` |
| StringOrder.SortedUnique | apps/rag-demo/scripts/fetch_url_snapshot.py:19 | two strictly sorted lists with the same elements are equal, so `SortedSet` is the only possible result |
| StringOrder.SortBy | apps/rag-demo/eval/run_eval.py:182 | stable `sorted(key=...)`: ordered by key, a permutation, and equal keys keep their input order |
| StringOrder.LessTotal | apps/rag-demo/eval/run_eval.py:182 | string `<` is total on distinct strings (irreflexivity, transitivity and asymmetry are the lemmas beside it) |
| Rounding.RoundHalfEven | apps/rag-demo/eval/run_eval.py:98 | the nearest integer, with a tie going to the even one |
| Rounding.Round4 | apps/rag-demo/eval/run_eval.py:98 | `round(x, 4)`: a multiple of 1/10000 within 0.00005 of `x` |
| Rounding.RoundExact | apps/rag-demo/eval/run_eval.py:128 | a value already on the 1/10000 grid is unchanged by rounding |
| Rounding.RoundBounds | apps/rag-demo/eval/run_eval.py:128 | rounding keeps a value in [0, 1] |
| Rounding.RoundBelowOne | apps/rag-demo/eval/run_eval.py:128 | a value whose scaled form is below 9999.5 (so below 0.99995) rounds to at most 0.9999 |
| Rounding.Ratio | apps/rag-demo/eval/run_eval.py:125-128 | `_ratio`: its content is stated by the RatioEmpty, RatioBounds, RatioFull and RatioZero rows |
| Rounding.RatioEmpty | apps/rag-demo/eval/run_eval.py:125-127 | `_ratio` is 1.0 when the denominator is not positive |
| Rounding.RatioBounds | apps/rag-demo/eval/run_eval.py:125-128 | with 0 <= numerator <= denominator the ratio is in [0, 1] |
| Rounding.RatioFull | apps/rag-demo/eval/run_eval.py:125-128 | with a denominator of at most 19999, the ratio is 1.0 iff numerator == denominator |
| Rounding.RatioLimit | apps/rag-demo/eval/run_eval.py:128 | the bound of RatioFull is tight: 19999/20000 rounds to 1.0 |
| Rounding.RatioZero | apps/rag-demo/eval/run_eval.py:125-128 | a zero numerator over a positive denominator gives exactly 0.0 |
| Rounding.StepShort | apps/rag-demo/eval/run_eval.py:128 | a count short of the denominator (at most 19999) is more than half a rounding step below 1 |
| Rounding.Mean | apps/rag-demo/eval/run_eval.py:119-122 | `_mean`: its content is stated by the MeanBounds row |
| Rounding.MeanBounds | apps/rag-demo/eval/run_eval.py:119-122 | `_mean` is 1.0 for no values, and in [0, 1] for values in [0, 1] |
| Rounding.SumBounds | apps/rag-demo/eval/run_eval.py:122 | a sum of values in [0, 1] lies between 0 and their count |
| RunEval.Thresholds | apps/rag-demo/eval/run_eval.py:46-53 | the `Thresholds` record, one minimum per metric |
| RunEval.DefaultThresholds | apps/rag-demo/eval/run_eval.py:46-53 | the dataclass defaults, copied verbatim; the DefaultThresholdsMeaning row states what they mean |
| RunEval.ThemeToken | apps/rag-demo/eval/run_eval.py:93 | a theme stripped and lower-cased; the CountHits row states how it is used |
| RunEval.Corpus | apps/rag-demo/eval/run_eval.py:90 | the answer text and the snippets, one per line, lower-cased; the ThemeScore row states how it is used |
| RunEval.ThemeHits | apps/rag-demo/eval/run_eval.py:91-97 | the hit count never exceeds the number of themes |
| RunEval.CountHits | apps/rag-demo/eval/run_eval.py:91-97 | the `hits` loop counts the themes whose stripped, lower-cased token is non-empty and occurs in the corpus |
| RunEval.ThemeFraction | apps/rag-demo/eval/run_eval.py:88-98 | the theme score over a corpus: its content is stated by the ThemeFractionMeaning row, and ThemeScore computes it |
| RunEval.ThemeScore | apps/rag-demo/eval/run_eval.py:87-98 | `_theme_score` is 1.0 without themes; otherwise hits over the number of themes, rounded |
| RunEval.ThemeHitsExtremes | apps/rag-demo/eval/run_eval.py:91-97 | every theme is counted iff every theme hits; the count is 0 iff no theme hits |
| RunEval.ThemeFractionMeaning | apps/rag-demo/eval/run_eval.py:87-98 | the score is in [0, 1] and 1.0 without themes; with at most 19999 themes it is 1.0 iff every theme hits; all-blank themes score 0.0 |
| RunEval.SourceName | apps/rag-demo/eval/run_eval.py:107 | the lower-cased title, or the source name when the title is empty; the ConstraintsOk row states how it is used |
| RunEval.Matches | apps/rag-demo/eval/run_eval.py:103-111 | one chat citation matches one expected row; the ConstraintsOk and ConstraintsEdges rows state its effect |
| RunEval.ConstraintsHold | apps/rag-demo/eval/run_eval.py:101-116 | every expected row is matched by some chat citation: the ConstraintsOk row proves the loop equal to it, and ConstraintsEdges gives its edge cases |
| RunEval.ConstraintsOk | apps/rag-demo/eval/run_eval.py:101-116 | true iff every expected row is matched by some chat citation. A match needs an empty or contained `source_contains` in the lower-cased title (or source name) and no page or an equal page |
| RunEval.ConstraintsEdges | apps/rag-demo/eval/run_eval.py:101-116 | true when no rows are expected; false with expected rows and no citations |
| RunEval.SelectedIds | apps/rag-demo/eval/run_eval.py:194-201 | an id is selected iff some retrieval row of the latest query has decision "selected" and that non-empty chunk id |
| RunEval.CaseOf | apps/rag-demo/eval/run_eval.py:182-239 | one case of the loop: its content is stated by the ScoreCase and CaseMeaning rows |
| RunEval.ScoreCase | apps/rag-demo/eval/run_eval.py:182-239 | one case: the empty-question error, the no-answer-record error, otherwise the scored latest answer record |
| RunEval.Scored | apps/rag-demo/eval/run_eval.py:194-238 | the `EvalCaseResult` of a case: its content is stated by the ScoreAnswer and CaseMeaning rows |
| RunEval.ScoreAnswer | apps/rag-demo/eval/run_eval.py:194-238 | the `EvalCaseResult` fields of a case from its latest answer record, retrieval rows and chat citations |
| RunEval.CaseMeaning | apps/rag-demo/eval/run_eval.py:183-238 | fails iff the question is blank or there is no answer record. Coverage iff a non-empty citation exists. Correctness iff every non-empty citation is a selected candidate. No-source ok iff not expected, or mode "no_support" with no citation. Theme score in [0, 1] |
| RunEval.NonEmptyNone | apps/rag-demo/eval/run_eval.py:203 | the filtered citation list is empty iff every stored citation is empty |
| RunEval.Results | apps/rag-demo/eval/run_eval.py:182-239 | the results of all cases or the first error: its content is stated by the ResultsStep, ResultsShape and ResultsFailPrefix rows, and ScoreSorted computes it |
| RunEval.ResultsStep | apps/rag-demo/eval/run_eval.py:182-239 | one more case appends its result, or stops at its error |
| RunEval.ResultsShape | apps/rag-demo/eval/run_eval.py:182-239 | on success, one result per case, each the scoring of its case; failure iff some case fails |
| RunEval.ResultsFailPrefix | apps/rag-demo/eval/run_eval.py:184-185 | the first failing case aborts the whole run with its error |
| RunEval.Anchor | apps/rag-demo/eval/run_eval.py:241-246 | the replay anchor: its content is stated by the AnchorMeaning and AnchorAppend rows |
| RunEval.AnchorMeaning | apps/rag-demo/eval/run_eval.py:241-246 | no anchor iff every case expects no source; otherwise the anchor is the first result that expects a source |
| RunEval.AnchorAppend | apps/rag-demo/eval/run_eval.py:241-246 | the anchor is set once: a later result never replaces it |
| RunEval.ReplayOf | apps/rag-demo/eval/run_eval.py:248-264 | the replay verdict: its content is stated by the ReplayMeaning and ReplayOfBlankCitationFails rows |
| RunEval.ReplayMeaning | apps/rag-demo/eval/run_eval.py:248-264 | true without an anchor; an error without a replayed record; otherwise true iff text and citation ids are equal position by position, so a reordering fails |
| RunEval.ReplayOfBlankCitationFails | apps/rag-demo/eval/run_eval.py:261-264 | a stored empty citation id makes an exactly reproduced replay fail |
| RunEval.ScoreSorted | apps/rag-demo/eval/run_eval.py:177-246 | the scoring loop gives the results of all cases in order, or the first error, and the first sourced result as anchor |
| RunEval.EvaluationOf | apps/rag-demo/eval/run_eval.py:164-268 | `_evaluate_cases` as a value: its content is stated by the EvaluationMeaning row, and EvaluateCases computes it |
| RunEval.EvaluateCases | apps/rag-demo/eval/run_eval.py:164-268 | `_evaluate_cases`: sort, score, replay the anchor, build the metrics |
| RunEval.EvaluationMeaning | apps/rag-demo/eval/run_eval.py:182-268 | the sorted cases are a permutation of the input, the results follow them in non-decreasing id order, each the scoring of its case; replay ok iff there is no anchor or the latest replayed record matches it |
| RunEval.Filter | apps/rag-demo/eval/run_eval.py:272-273 | a result is kept iff it is in the list and satisfies the condition |
| RunEval.NoSourceCases | apps/rag-demo/eval/run_eval.py:272 | the results that expect no source; the SourcedPartition and SourcedMembers rows state its content |
| RunEval.SourcedCases | apps/rag-demo/eval/run_eval.py:273 | the results not in the no-source list: the SourcedPartition row proves these are the results that expect a source |
| RunEval.SourcedPartition | apps/rag-demo/eval/run_eval.py:272-273 | the sourced cases are exactly those that expect a source; together with the no-source cases they partition the results |
| RunEval.SourcedMembers | apps/rag-demo/eval/run_eval.py:272-273 | membership in each partition, and neither is longer than the results |
| RunEval.FilterPartition | apps/rag-demo/eval/run_eval.py:272-273 | filtering by a condition and by its negation splits the multiset of results |
| RunEval.CountAll | apps/rag-demo/eval/run_eval.py:276 | the count equals the length iff every member satisfies the condition |
| RunEval.PartRatio | apps/rag-demo/eval/run_eval.py:275-291 | a partition's ratio is in [0, 1]; with at most 19999 members it is 1.0 iff every member passes |
| RunEval.BuildMetrics | apps/rag-demo/eval/run_eval.py:271-300 | `_build_metrics`: its content is stated by the SourcedPartition, PartRatio, MetricsBounds and MetricsFull rows |
| RunEval.MetricsBounds | apps/rag-demo/eval/run_eval.py:271-300 | all six metrics are in [0, 1], and replay is exactly 1.0 or 0.0 |
| RunEval.MetricsFull | apps/rag-demo/eval/run_eval.py:271-300 | with at most 19999 results: each citation metric is 1.0 iff every sourced case passes it; no-source behaviour is 1.0 iff every no-source case behaved; without sourced cases the four sourced metrics are 1.0 |
| RunEval.Entries | apps/rag-demo/eval/run_eval.py:293-300 | the metrics in the order of the report dict, which fixes the order of threshold failures and regressions (the ThresholdFailures and RegressionsAppend rows) |
| RunEval.BelowMessage | apps/rag-demo/eval/run_eval.py:322-333 | the message of a threshold failure, "<key> below threshold" |
| RunEval.Failing | apps/rag-demo/eval/run_eval.py:320-334 | the keys below their minimum: its content is stated by the FailingMeaning and BelowMembers rows, and ThresholdFailures computes it |
| RunEval.ThresholdFailures | apps/rag-demo/eval/run_eval.py:320-334 | `_threshold_failures`: the keys of the metrics strictly below their minimum, in metric order |
| RunEval.FailingMeaning | apps/rag-demo/eval/run_eval.py:320-334 | no failure iff every metric is at least its minimum; every key reported is below its minimum, and every metric below its minimum is reported |
| RunEval.BelowMembers | apps/rag-demo/eval/run_eval.py:322-323 | one metric contributes its key iff it is strictly below its minimum |
| RunEval.DefaultThresholdsMeaning | apps/rag-demo/eval/run_eval.py:47-53 | under the default thresholds the gate passes iff helpfulness >= 0.67 and every other metric >= 1.0 |
| RunEval.Regressions | apps/rag-demo/eval/run_eval.py:303-317 | the regressions of a metric list: its content is stated by the RegressionsMeaning, RegressionsAppend and SoftDropBoundary rows, and CompareWithBaseline computes it |
| RunEval.CompareWithBaseline | apps/rag-demo/eval/run_eval.py:303-317 | `_compare_with_baseline`: the regressions of the current metrics, in order |
| RunEval.AllowedDrop | apps/rag-demo/eval/run_eval.py:305-312 | `soft_drop.get(key, 0.0)`: 0.1 for helpfulness, else 0; the SoftDropBoundary row states its effect |
| RunEval.RegressionsMeaning | apps/rag-demo/eval/run_eval.py:303-317 | an entry is reported iff its key is in the baseline and baseline − current > allowed drop; the record carries both values and the allowed drop |
| RunEval.RegressionsAppend | apps/rag-demo/eval/run_eval.py:307-316 | regressions follow the order of the current metrics: concatenating metric lists concatenates their reports |
| RunEval.SoftDropBoundary | apps/rag-demo/eval/run_eval.py:305-313 | helpfulness passes iff it dropped by at most 0.1 (a drop of exactly 0.1 passes); coverage passes iff it did not drop; a key missing from the baseline never fails |
| RunEval.ExitStatus | apps/rag-demo/eval/run_eval.py:403-467 | the exit status of `main`: its content is stated by the Gate and PassingRunMeaning rows |
| RunEval.BaselineFailures | apps/rag-demo/eval/run_eval.py:415-420 | the regression list: empty unless `--fail-on-regression` is given and the baseline exists; the Gate row states its effect |
| RunEval.Gate | apps/rag-demo/eval/run_eval.py:413-467 | the exit status: 1 on a raised error or a non-empty threshold or regression list, otherwise 0 |
| RunEval.PassingRunMeaning | apps/rag-demo/eval/run_eval.py:403-467 | status 0 with at most 19999 cases means every sourced case has citations, cites only selected candidates and meets its constraints, every no-source case behaved, mean helpfulness >= 0.67 and the replay matched |
| CheckInvariants.MandatoryConstitutionSections | invariants/check_invariants.py:12-19 | copied verbatim; the ConstitutionMeaning row states what it means |
| CheckInvariants.ForbiddenNondeterministicTokens | invariants/check_invariants.py:21-27 | copied verbatim; the TokensMeaning row states what it means |
| CheckInvariants.RequiredModeMarkers | invariants/check_invariants.py:29-34 | copied verbatim; the DegradationMeaning row states what it means |
| CheckInvariants.RequiredNoticeMarkers | invariants/check_invariants.py:36-40 | copied verbatim; the DegradationMeaning row states what it means |
| CheckInvariants.CheckResult | invariants/check_invariants.py:43-49 | the check record; its principle is fixed by its check id. Its fields are stated by the `...Meaning` rows |
| CheckInvariants.IdText | invariants/check_invariants.py:64-192 | the five check ids, copied verbatim; the ChecksShape row states their order |
| CheckInvariants.PrincipleText | invariants/check_invariants.py:64-192 | the principle of each check, copied verbatim |
| CheckInvariants.RecoveryText | invariants/check_invariants.py:64-192 | the recovery advice texts, copied verbatim; the `...Meaning` rows state when each is given |
| CheckInvariants.PassText | invariants/check_invariants.py:86-192 | the passing reasons, copied verbatim; the `...Meaning` rows state when each is given |
| CheckInvariants.MissingFrom | invariants/check_invariants.py:76 | the required strings, in order, that are not substrings of the text |
| CheckInvariants.MissingNone | invariants/check_invariants.py:76-77 | nothing is missing iff every required string occurs |
| CheckInvariants.CheckConstitution | invariants/check_invariants.py:64-92 | the result carries the `constitution_present` check |
| CheckInvariants.ConstitutionMeaning | invariants/check_invariants.py:64-92 | passes iff the file exists and contains all six headings (case-sensitive). A missing file is reported with its path, and a heading failure lists exactly the missing headings. Recovery advice is given iff the check fails |
| CheckInvariants.CheckDeterministicReplay | invariants/check_invariants.py:95-111 | the result carries the `deterministic_replay_required` check |
| CheckInvariants.ReplayMeaning | invariants/check_invariants.py:95-111 | passes iff the metric is present and >= 1.0; a missing metric is read as 0.0 and fails |
| CheckInvariants.CheckCitationContract | invariants/check_invariants.py:114-135 | the result carries the `citation_contract_required` check |
| CheckInvariants.CitationMeaning | invariants/check_invariants.py:114-135 | passes iff both coverage and correctness are present and >= 1.0 |
| CheckInvariants.CheckNoSilentDegradation | invariants/check_invariants.py:138-158 | the result carries the `explicit_failure_modes_required` check |
| CheckInvariants.DegradationMeaning | invariants/check_invariants.py:138-158 | passes iff every mode marker and every notice occurs literally; a failure lists exactly the absent markers of each kind |
| CheckInvariants.Found | invariants/check_invariants.py:171-175 | the forbidden tokens, in list order, that occur in the text |
| CheckInvariants.TokensCheck | invariants/check_invariants.py:161-192 | the result carries the `nondeterministic_tokens_forbidden` check |
| CheckInvariants.CheckNoNondeterministicTokens | invariants/check_invariants.py:161-192 | `_check_no_nondeterministic_tokens`: the opt-in result, or the result of the `found` loop |
| CheckInvariants.TokensMeaning | invariants/check_invariants.py:161-192 | always passes with the opt-in, with the opt-in recovery advice. Otherwise fails iff some forbidden token occurs in the lower-cased text, and the reason lists exactly those tokens, strictly sorted |
| CheckInvariants.ChecksOf | invariants/check_invariants.py:195-205 | `run_checks` as a value: its content is stated by the RunChecks, ChecksShape, ConstitutionIndependent and ReportIndependent rows |
| CheckInvariants.RunChecks | invariants/check_invariants.py:195-205 | `run_checks`: an error naming a missing app or report file, otherwise the five results in order |
| CheckInvariants.Assemble | invariants/check_invariants.py:199-205 | the five results in the listed order |
| CheckInvariants.ChecksShape | invariants/check_invariants.py:195-205 | an error iff the app text or the report is missing; otherwise exactly five results with the five check ids in fixed order |
| CheckInvariants.ConstitutionIndependent | invariants/check_invariants.py:199-205 | another constitution changes none of the other four results |
| CheckInvariants.ReportIndependent | invariants/check_invariants.py:199-205 | another report changes only the replay and citation results |
| CheckInvariants.Violations | invariants/check_invariants.py:259 | there are no more violations than checks |
| CheckInvariants.ViolationsMeaning | invariants/check_invariants.py:259 | no violations iff every check passed; every violation is a failed check, and every failed check is a violation |
| CheckInvariants.ViolationsAppend | invariants/check_invariants.py:259 | violations keep the order of the checks |
| CheckInvariants.PayloadOf | invariants/check_invariants.py:238-264 | the payload `main` prints: its content is stated by the PayloadMeaning and ViolationsMeaning rows |
| CheckInvariants.ExitCode | invariants/check_invariants.py:238-274 | the exit code of `main`: its content is stated by the PayloadMeaning and MainMeaning rows |
| CheckInvariants.PayloadMeaning | invariants/check_invariants.py:238-264 | status "pass" iff every check passed iff exit 0. An error gives status "fail", the error text, no checks, the single execution-error violation, and exit 1 |
| CheckInvariants.MainMeaning | invariants/check_invariants.py:231-274 | exit 0 iff both files exist and all five checks pass |
| CheckInvariants.AssembledPass | invariants/check_invariants.py:259-264 | the five assembled results have no violation iff all five passed |
| SearchKb.Normalize | apps/support-chat/search_kb.py:16-17 | `_normalize`: its content is stated by the NormalizeShape and NormalizeIdempotent rows |
| SearchKb.Tokenize | apps/support-chat/search_kb.py:20-21 | `_tokenize`: its content is stated by the TokenizeWords row |
| SearchKb.NormalizeShape | apps/support-chat/search_kb.py:16-17 | `_normalize` is lower-case, with no leading, trailing or doubled space and no other whitespace; its other characters come from the lower-cased input |
| SearchKb.NormalizeIdempotent | apps/support-chat/search_kb.py:16-17 | normalising twice is normalising once |
| SearchKb.TokenizeWords | apps/support-chat/search_kb.py:20-21 | the tokens are the whitespace-separated words of the lower-cased text, each non-empty and without whitespace |
| SearchKb.Hits | apps/support-chat/search_kb.py:24-31 | the score is at most the number of tokens |
| SearchKb.HitsExtremes | apps/support-chat/search_kb.py:24-31 | score 0 iff no token occurs; the full count iff every token occurs |
| SearchKb.Score | apps/support-chat/search_kb.py:24-31 | `_score` counts the tokens, with repetition, that occur in the normalised question; at most the number of tokens |
| SearchKb.Eligible | apps/support-chat/search_kb.py:44-47 | an entry with a non-empty question and answer; the SelectedMeaning and AnswerCharacterised rows state its effect |
| SearchKb.MaxScore | apps/support-chat/search_kb.py:43-52 | a bound on every eligible entry's score, attained by one when positive |
| SearchKb.FirstWithScore | apps/support-chat/search_kb.py:43-57 | the first eligible entry with the given score, or none |
| SearchKb.Selected | apps/support-chat/search_kb.py:43-61 | the index the loop ends with: its content is stated by the SelectedMeaning, SelectedStep, KeepBest and NewBest rows, and Run reaches it |
| SearchKb.SelectedMeaning | apps/support-chat/search_kb.py:43-57 | a selection exists iff the best score is positive. The selected entry is eligible, has the best score, and every earlier eligible entry scores strictly less |
| SearchKb.SelectedStep | apps/support-chat/search_kb.py:49-57 | one more entry replaces the best only with a strictly higher score |
| SearchKb.KeepBest | apps/support-chat/search_kb.py:53-57 | an entry that does not beat the best leaves the selection unchanged, so a tie keeps the earlier entry |
| SearchKb.NewBest | apps/support-chat/search_kb.py:49-52 | a strictly higher score selects the new entry |
| SearchKb.Run | apps/support-chat/search_kb.py:33-62 | `run`: the answer of the selected entry, or "" when the best score is 0 |
| SearchKb.AnswerCharacterised | apps/support-chat/search_kb.py:59-62 | no entry is selected iff no eligible entry's normalised question contains a query token; a selected entry has a non-empty answer |
| NormalizeQueryText.QueryText | apps/rag-demo/tools/normalize_query_text.py:10 | `str(payload.get("query") or "")`: a missing query is ""; the EmptyQuery row states its effect |
| NormalizeQueryText.Run | apps/rag-demo/tools/normalize_query_text.py:9-14 | `run`: its content is stated by the RunIsJoinedWords, RunShape, EmptyQuery, RunFixed and RunIdempotent rows |
| NormalizeQueryText.RunIsJoinedWords | apps/rag-demo/tools/normalize_query_text.py:9-14 | `run` joins the words of the scrubbed, lower-cased query with single spaces |
| NormalizeQueryText.RunShape | apps/rag-demo/tools/normalize_query_text.py:11-13 | only lower-case letters, digits and single inner spaces remain |
| NormalizeQueryText.EmptyQuery | apps/rag-demo/tools/normalize_query_text.py:10 | a missing or empty query gives "" |
| NormalizeQueryText.RunFixed | apps/rag-demo/tools/normalize_query_text.py:11-12 | lower-casing or scrubbing the output changes nothing |
| NormalizeQueryText.RunIdempotent | apps/rag-demo/tools/normalize_query_text.py:9-14 | normalising the output again leaves it unchanged |
| ExtractQueryKeywords.Normalize | apps/rag-demo/tools/extract_query_keywords.py:33-36 | `_normalize`, the same chain as the normaliser tool: its content is stated by the NormalizeAgrees and NormalizeShape rows |
| ExtractQueryKeywords.NormalizeAgrees | apps/rag-demo/tools/extract_query_keywords.py:33-36 | `_normalize` agrees with the normaliser tool on every input |
| ExtractQueryKeywords.NormalizeShape | apps/rag-demo/tools/extract_query_keywords.py:33-36 | its output has only lower-case letters, digits and single inner spaces |
| ExtractQueryKeywords.Stopwords | apps/rag-demo/tools/extract_query_keywords.py:7-30 | `_STOPWORDS`, copied verbatim; its meaning is stated by the FirstOccurrences row |
| ExtractQueryKeywords.Candidate | apps/rag-demo/tools/extract_query_keywords.py:48 | the skip test: a token is kept iff it is non-empty and not a stopword; the FirstOccurrences row states its effect |
| ExtractQueryKeywords.FirstOccurrences | apps/rag-demo/tools/extract_query_keywords.py:45-53 | the keywords are exactly the non-empty, non-stopword tokens |
| ExtractQueryKeywords.FirstOccurrencesDistinct | apps/rag-demo/tools/extract_query_keywords.py:50-53 | no keyword appears twice |
| ExtractQueryKeywords.FirstOccurrencesOrder | apps/rag-demo/tools/extract_query_keywords.py:45-53 | keywords are in the order of their first occurrence |
| ExtractQueryKeywords.FirstOccurrencesPrefix | apps/rag-demo/tools/extract_query_keywords.py:45-53 | considering more tokens only appends keywords |
| ExtractQueryKeywords.MaxKeywords | apps/rag-demo/tools/extract_query_keywords.py:54 | the literal 24, copied verbatim; its meaning is stated by the Capped and Collect rows |
| ExtractQueryKeywords.Capped | apps/rag-demo/tools/extract_query_keywords.py:54-55 | at most 24 keywords, a prefix of the full list, and all of them when there are at most 24 |
| ExtractQueryKeywords.NoTokens | apps/rag-demo/tools/extract_query_keywords.py:41-43 | an empty normalised query has no keywords |
| ExtractQueryKeywords.Collect | apps/rag-demo/tools/extract_query_keywords.py:45-56 | the loop with `seen`, `ordered` and the break at 24 gives the first 24 first-occurrence keywords |
| ExtractQueryKeywords.Run | apps/rag-demo/tools/extract_query_keywords.py:39-56 | `run`: [] when the query normalises to ""; otherwise the capped keywords of its space-separated tokens |
| FetchUrlSnapshot.NormalizeAllowlist | apps/rag-demo/scripts/fetch_url_snapshot.py:17-19 | `_normalize_allowlist`: its content is stated by the AllowItems and NormalizeAllowlistMeaning rows |
| FetchUrlSnapshot.AllowItems | apps/rag-demo/scripts/fetch_url_snapshot.py:18 | an item is kept iff it is the trimmed, lower-cased form of a non-blank piece |
| FetchUrlSnapshot.NormalizeAllowlistMeaning | apps/rag-demo/scripts/fetch_url_snapshot.py:17-19 | the allowlist is strictly sorted (so duplicate-free) and holds exactly the trimmed, lower-cased, non-blank items, each non-empty, lower-case and trimmed |
| FetchUrlSnapshot.ItemShape | apps/rag-demo/scripts/fetch_url_snapshot.py:18 | one item is non-empty, lower-case and trimmed |
| FetchUrlSnapshot.Allowed | apps/rag-demo/scripts/fetch_url_snapshot.py:22-29 | the `_is_allowed` decision: IsAllowed proves the loop equal to it; LookalikeRefused, SubdomainAndCaseAccepted and SubdomainAllowed state its consequences |
| FetchUrlSnapshot.IsAllowed | apps/rag-demo/scripts/fetch_url_snapshot.py:22-29 | `_is_allowed`: refuses an empty host or allowlist; otherwise true iff the lower-cased host equals an entry or ends with "." + entry |
| FetchUrlSnapshot.LookalikeRefused | apps/rag-demo/scripts/fetch_url_snapshot.py:26-29 | "evilexample.com" is not allowed by "example.com" |
| FetchUrlSnapshot.SubdomainAndCaseAccepted | apps/rag-demo/scripts/fetch_url_snapshot.py:23-27 | "docs.example.com" and "Example.COM" are allowed by "example.com" |
| FetchUrlSnapshot.SubdomainAllowed | apps/rag-demo/scripts/fetch_url_snapshot.py:26-29 | every subdomain of an allowed host is allowed |
| FetchUrlSnapshot.EndsWithAppend | apps/rag-demo/scripts/fetch_url_snapshot.py:27 | a string ending with a suffix still ends with it after any prefix is added |
| FetchUrlSnapshot.AllowlistEnv | apps/rag-demo/scripts/fetch_url_snapshot.py:13 | the variable name, copied verbatim into the refusal message of the Admit row |
| FetchUrlSnapshot.Admit | apps/rag-demo/scripts/fetch_url_snapshot.py:54-62 | the scheme and allowlist checks of `main`: its content is stated by the EmptyAllowlistRefuses and AdmittedMeaning rows |
| FetchUrlSnapshot.EmptyAllowlistRefuses | apps/rag-demo/scripts/fetch_url_snapshot.py:58-62 | without a non-blank allowlist item no URL is fetched |
| FetchUrlSnapshot.AdmittedMeaning | apps/rag-demo/scripts/fetch_url_snapshot.py:54-62 | a fetched URL is http or https, and its host equals an allowlist entry or is a subdomain of one |
| FetchUrlSnapshot.Slug | apps/rag-demo/scripts/fetch_url_snapshot.py:32-34 | `_slug`: its content is stated by the SlugCleaned, SlugShape and SlugFallback rows |
| FetchUrlSnapshot.SlugCleaned | apps/rag-demo/scripts/fetch_url_snapshot.py:33 | before the fallback, the slug is the alphanumeric runs of the lower-cased text joined by "-" |
| FetchUrlSnapshot.SlugShape | apps/rag-demo/scripts/fetch_url_snapshot.py:32-34 | the slug is non-empty, uses only [a-z0-9-], and has no leading, trailing or doubled "-" |
| FetchUrlSnapshot.SlugFallback | apps/rag-demo/scripts/fetch_url_snapshot.py:32-34 | the "snapshot" fallback is taken iff the text has no ASCII letter or digit |
| FetchUrlSnapshot.ReplaceCrLf | apps/rag-demo/scripts/fetch_url_snapshot.py:65 | `replace("\r\n", "\n")` never lengthens the text; what it replaces is stated by the next three rows |
| FetchUrlSnapshot.ReplaceCrLfSplits | apps/rag-demo/scripts/fetch_url_snapshot.py:65 | each "\r\n" becomes "\n", and the text on either side of it is replaced independently |
| FetchUrlSnapshot.ReplaceCrLfAppend | apps/rag-demo/scripts/fetch_url_snapshot.py:65 | replacing a concatenation replaces each side separately, unless the boundary falls inside a "\r\n" pair |
| FetchUrlSnapshot.ReplaceCrLfNoCrLf | apps/rag-demo/scripts/fetch_url_snapshot.py:65 | a text without a "\r\n" pair is unchanged |
| FetchUrlSnapshot.RstripLines | apps/rag-demo/scripts/fetch_url_snapshot.py:65 | each line is right-stripped, and the line count is kept |
| FetchUrlSnapshot.NormalizeSnapshotText | apps/rag-demo/scripts/fetch_url_snapshot.py:65 | the snapshot text normalisation: its content is stated by the SnapshotTextShape, SnapshotTextFixed and SnapshotTextIdempotent rows |
| FetchUrlSnapshot.SnapshotTextShape | apps/rag-demo/scripts/fetch_url_snapshot.py:65 | the text ends with exactly one "\n", has no leading whitespace, no whitespace other than a line break directly before a line break, and no "\r\n" |
| FetchUrlSnapshot.SnapshotTextFixed | apps/rag-demo/scripts/fetch_url_snapshot.py:65 | a text with no whitespace at either end and none other than "\n" before a "\n" normalises to itself plus "\n", with or without that final "\n" already present |
| FetchUrlSnapshot.SnapshotTextIdempotent | apps/rag-demo/scripts/fetch_url_snapshot.py:65 | normalising a normalised snapshot text changes nothing |
| FetchUrlSnapshot.LastWithUrl | apps/rag-demo/scripts/fetch_url_snapshot.py:96-98 | an entry with URL `u` from the list, or none iff no keyed entry has that URL |
| FetchUrlSnapshot.LastWithUrlIsLast | apps/rag-demo/scripts/fetch_url_snapshot.py:96-98 | the entry found is the last one with its URL |
| FetchUrlSnapshot.Dedup | apps/rag-demo/scripts/fetch_url_snapshot.py:95-98 | the dictionary has exactly the URLs of the keyed entries, each mapped to its last entry |
| FetchUrlSnapshot.MergeManifest | apps/rag-demo/scripts/fetch_url_snapshot.py:95-102 | every output entry is keyed; URLs are strictly sorted (so unique) and are the new URL plus the old keyed URLs; the new URL maps to the new entry and every other URL to its last old entry; entries that are not records or lack a string URL are dropped |

## Left out

- The namel3ss runtime calls (`handle_action`, `store.list_records`, `load_project`, `load_config`, `resolve_store`, `build_manifest`, `store_upload`) and the lookups over their objects (`_find_action`, `_schema_for`). They are foreign code. Their outputs are inputs to the model:
  - one `Observation` per case, in id order, holding the answer records, the retrieval rows, the chat citations and the answer mode;
  - the answer records after the replay.
- The conversation state threaded through the calls, including the `state or` fallback. Only its effect, the observations, is modelled.
- The `limit=200/300/400` of the record-store queries. The records given are the ones the store returned.
- `_prepare_env`, `_resolve_app_dir` and `_ensure_upload_store`: they touch environment variables and the file system.
- `_load_text` and `_load_json`, argparse, JSON parsing and writing with `sort_keys`, printing, and the report and payload files each `main` writes. A file that is missing is `None`. The report's `metrics or {}` is a map from key to value, and the baseline is absent when the file does not exist.
- `_fetch_text` (network I/O), `hashlib.sha256`, the snapshot file name built from the digest, and `urlparse`. The scheme and host name are inputs.
- `apps/rag-demo/tools/ensure_provider_manifests.py` is not part of this model: it only creates files under the installed package.
- Floating point. Metrics are exact rationals (`real`), and `round(x, 4)` is exact round-half-even on them. Python rounds the binary double instead, so the two can differ at a decimal midpoint that a double does not represent, such as 1/160. The regression boundary, a drop of exactly 0.1, is stated under exact arithmetic.
- Number formatting (`:.4f`) and message text built from values.
  - Threshold failures are metric keys; `RunEval.BelowMessage` gives their text.
  - Regression failures and failed-check reasons record the values the message would print, not the message.
  - Check ids, principles, recovery advice and the pass reasons are enum constructors, and the functions `IdText`, `PrincipleText`, `RecoveryText` and `PassText` give the literal strings.
- `float()` conversion errors and `str()` conversions of non-string JSON values. Fields are typed in the model, and a missing field is `""` or `None`.
- Unicode. Characters are ASCII-only: `lower()` maps `A`-`Z`, and whitespace is ASCII whitespace as `str.isspace()` and `\s` see it.
- The guarded tie-break branch of the knowledge-base lookup (`apps/support-chat/search_kb.py:53-57`) is modelled, but it can never change the best entry because `idx` only grows. `SearchKb.Run` proves that branch dead.
- `CheckInvariants.CheckConstitution`, `CheckInvariants.CheckDeterministicReplay`, `CheckInvariants.CheckCitationContract`, `CheckInvariants.CheckNoSilentDegradation` and `CheckInvariants.TokensCheck`: each one's own contract only fixes its check id. What each check decides is proved by the `...Meaning` lemma beside it.
- RunEval.PassingRunMeaning, RunEval.MetricsFull, Rounding.RatioFull and RunEval.ThemeFractionMeaning (its third clause): the "1.0 iff all pass" direction assumes at most 19999 cases or themes. From 20000 on it fails: 19999/20000 = 0.99995 rounds half-even to 1.0 (`Rounding.RatioLimit`).
