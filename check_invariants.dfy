/** The constitutional invariant checker: five independent pass/fail checks over
    the constitution text, the evaluation report's metrics and the app source,
    folded into a status, a list of violations and an exit code.

    Reading files is not modelled: a file's text (or parsed report metrics) is
    an input, None when the file does not exist. */
module CheckInvariants {
  import opened Wrappers
  import opened Text
  import opened StringOrder

  const MandatoryConstitutionSections: seq<string> := [
    "Article I - Determinism Is a First-Class Invariant",
    "Article II - AI Boundaries Must Be Explicit",
    "Article III - Citations and Provenance Are Product Requirements",
    "Article VI - Failure Must Be Honest and Visible",
    "Non-Amendable Clauses",
    "Amendment Process"
  ]

  const ForbiddenNondeterministicTokens: seq<string> := ["random", "uuid", "timestamp", "now(", "current_time"]

  const RequiredModeMarkers: seq<string> := [
    "\"provider_fallback\"",
    "\"citations_only\"",
    "\"no_support\"",
    "mode is text must be present"
  ]

  const RequiredNoticeMarkers: seq<string> := [
    "Provider unavailable. Running in citations-only mode.",
    "I couldn't find support in your selected sources.",
    "Citations-only mode is active."
  ]

  /** The five check ids, printed as `IdText`. */
  datatype CheckId =
    | ConstitutionPresent
    | DeterministicReplayRequired
    | CitationContractRequired
    | NondeterministicTokensForbidden
    | ExplicitFailureModesRequired

  function IdText(id: CheckId): string {
    match id
    case ConstitutionPresent => "constitution_present"
    case DeterministicReplayRequired => "deterministic_replay_required"
    case CitationContractRequired => "citation_contract_required"
    case NondeterministicTokensForbidden => "nondeterministic_tokens_forbidden"
    case ExplicitFailureModesRequired => "explicit_failure_modes_required"
  }

  /** Each check cites one principle of the constitution. */
  function PrincipleText(id: CheckId): string {
    match id
    case ConstitutionPresent => "Constitution integrity"
    case DeterministicReplayRequired => "Article I: Determinism default"
    case CitationContractRequired => "Article III: Citation-first answers"
    case NondeterministicTokensForbidden => "Article I: No nondeterminism without explicit opt-in"
    case ExplicitFailureModesRequired => "Article VI: No silent degradation"
  }

  /** The recovery advice a result carries, printed as `RecoveryText`. */
  datatype Recovery =
    | CreateConstitution
    | RestoreSections
    | RestoreReplay
    | FixCitationWiring
    | DisableOptIn
    | RemoveTokens
    | AddFailureModes
    | NoRecovery

  function RecoveryText(r: Recovery): string {
    match r
    case CreateConstitution => "Create docs/constitution.md with mandatory constitutional sections."
    case RestoreSections => "Restore required sections or amend through the constitutional process."
    case RestoreReplay => "Run offline eval, inspect changed ordering/state, and restore deterministic replay behavior."
    case FixCitationWiring => "Fix retrieval/answer citation wiring and rerun eval gate."
    case DisableOptIn => "Disable opt-in for constitutional mode."
    case RemoveTokens => "Remove nondeterministic constructs or use an explicit opt-in profile outside constitutional mode."
    case AddFailureModes => "Add explicit mode fields and user-visible fallback/no-support notices."
    case NoRecovery => "None"
  }

  /** A check's reason: one of the fixed passing texts (`PassText`), or the
      values a failure message shows (its text formatting is not modelled). */
  datatype Reason =
    | SectionsPresent
    | ReplayExact
    | CitationsExact
    | OptInEnabled
    | NoTokens
    | ModesExplicit
    | MissingFile(path: string)
    | MissingSections(missing: seq<string>)
    | ReplayBelow(metric: real)
    | CitationBelow(coverage: real, correctness: real)
    | MissingMarkers(modes: seq<string>, notices: seq<string>)
    | TokensFound(tokens: seq<string>)

  function PassText(r: Reason): Option<string> {
    match r
    case SectionsPresent => Some("Constitution file present with required sections.")
    case ReplayExact => Some("deterministic_replay metric is 1.0000")
    case CitationsExact => Some("citation_coverage and citation_correctness are both 1.0000")
    case OptInEnabled => Some("Nondeterminism opt-in enabled for this run.")
    case NoTokens => Some("No forbidden nondeterministic tokens detected.")
    case ModesExplicit => Some("Failure modes and notices are explicit in app contract.")
    case _ => None
  }

  datatype CheckResult = CheckResult(checkId: CheckId, passed: bool, reason: Reason, recovery: Recovery) {
    /** The principle is fixed by the check. */
    function Principle(): string {
      PrincipleText(checkId)
    }
  }

  /** The members of `required` that are not substrings of `text`, in order. */
  function MissingFrom(required: seq<string>, text: string): (missing: seq<string>)
    ensures forall x :: x in missing <==> x in required && !Contains(text, x)
    ensures |missing| <= |required|
  {
    if required == [] then []
    else
      var rest := MissingFrom(required[1..], text);
      assert forall x | x in required :: x == required[0] || x in required[1..];
      if Contains(text, required[0]) then rest else [required[0]] + rest
  }

  lemma MissingNone(required: seq<string>, text: string)
    ensures MissingFrom(required, text) == [] <==> forall x | x in required :: Contains(text, x)
  {
    if MissingFrom(required, text) != [] {
      assert MissingFrom(required, text)[0] in MissingFrom(required, text);
    }
  }

  // ---------------------------------------------------------------------------
  // The five checks

  /** `_check_constitution` */
  function CheckConstitution(path: string, constitution: Option<string>): (r: CheckResult)
    ensures r.checkId == ConstitutionPresent
  {
    if constitution.None? then
      CheckResult(ConstitutionPresent, false, MissingFile(path), CreateConstitution)
    else
      var missing := MissingFrom(MandatoryConstitutionSections, constitution.value);
      if missing != [] then
        CheckResult(ConstitutionPresent, false, MissingSections(missing), RestoreSections)
      else
        CheckResult(ConstitutionPresent, true, SectionsPresent, NoRecovery)
  }

  /** The constitution check passes iff the file exists and contains each of
      the six headings verbatim; a missing file is reported with its path, and
      a failure for missing headings names exactly the missing ones. Only a
      failure carries recovery advice. */
  lemma ConstitutionMeaning(path: string, constitution: Option<string>)
    ensures var r := CheckConstitution(path, constitution);
      r.passed <==> constitution.Some? && forall s | s in MandatoryConstitutionSections :: Contains(constitution.value, s)
    ensures constitution.None? ==> CheckConstitution(path, constitution).reason == MissingFile(path)
    ensures var r := CheckConstitution(path, constitution); r.reason.MissingSections? ==>
      forall s :: s in r.reason.missing <==> s in MandatoryConstitutionSections && !Contains(constitution.value, s)
    ensures var r := CheckConstitution(path, constitution); r.passed <==> r.recovery == NoRecovery
  {
    if constitution.Some? {
      MissingNone(MandatoryConstitutionSections, constitution.value);
    }
  }

  /** A report metric, 0.0 when the key is missing. */
  function Metric(metrics: map<string, real>, key: string): real {
    if key in metrics then metrics[key] else 0.0
  }

  /** `_check_deterministic_replay` */
  function CheckDeterministicReplay(metrics: map<string, real>): (r: CheckResult)
    ensures r.checkId == DeterministicReplayRequired
  {
    var metric := Metric(metrics, "deterministic_replay");
    if metric < 1.0 then
      CheckResult(DeterministicReplayRequired, false, ReplayBelow(metric), RestoreReplay)
    else
      CheckResult(DeterministicReplayRequired, true, ReplayExact, NoRecovery)
  }

  /** Fails iff the metric is below 1.0, so a report without it fails; the
      failure reports the value it read. */
  lemma ReplayMeaning(metrics: map<string, real>)
    ensures CheckDeterministicReplay(metrics).passed <==> "deterministic_replay" in metrics && metrics["deterministic_replay"] >= 1.0
    ensures "deterministic_replay" !in metrics ==> CheckDeterministicReplay(metrics).reason == ReplayBelow(0.0)
    ensures var r := CheckDeterministicReplay(metrics); r.passed <==> r.recovery == NoRecovery
  {
  }

  /** `_check_citation_contract` */
  function CheckCitationContract(metrics: map<string, real>): (r: CheckResult)
    ensures r.checkId == CitationContractRequired
  {
    var coverage := Metric(metrics, "citation_coverage");
    var correctness := Metric(metrics, "citation_correctness");
    if coverage < 1.0 || correctness < 1.0 then
      CheckResult(CitationContractRequired, false, CitationBelow(coverage, correctness), FixCitationWiring)
    else
      CheckResult(CitationContractRequired, true, CitationsExact, NoRecovery)
  }

  /** Passes iff both metrics are present and at least 1.0. */
  lemma CitationMeaning(metrics: map<string, real>)
    ensures CheckCitationContract(metrics).passed <==>
      "citation_coverage" in metrics && metrics["citation_coverage"] >= 1.0 &&
      "citation_correctness" in metrics && metrics["citation_correctness"] >= 1.0
    ensures var r := CheckCitationContract(metrics); r.passed <==> r.recovery == NoRecovery
  {
  }

  /** `_check_no_silent_degradation` */
  function CheckNoSilentDegradation(appText: string): (r: CheckResult)
    ensures r.checkId == ExplicitFailureModesRequired
  {
    var missingModes := MissingFrom(RequiredModeMarkers, appText);
    var missingNotices := MissingFrom(RequiredNoticeMarkers, appText);
    if missingModes != [] || missingNotices != [] then
      CheckResult(ExplicitFailureModesRequired, false, MissingMarkers(missingModes, missingNotices), AddFailureModes)
    else
      CheckResult(ExplicitFailureModesRequired, true, ModesExplicit, NoRecovery)
  }

  /** Passes iff every mode marker and every notice occurs literally (case
      sensitive) in the app text; a failure lists exactly the absent ones. */
  lemma DegradationMeaning(appText: string)
    ensures CheckNoSilentDegradation(appText).passed <==>
      (forall m | m in RequiredModeMarkers :: Contains(appText, m)) &&
      (forall n | n in RequiredNoticeMarkers :: Contains(appText, n))
    ensures var r := CheckNoSilentDegradation(appText); r.reason.MissingMarkers? ==>
      (forall m :: m in r.reason.modes <==> m in RequiredModeMarkers && !Contains(appText, m)) &&
      (forall n :: n in r.reason.notices <==> n in RequiredNoticeMarkers && !Contains(appText, n))
  {
    MissingNone(RequiredModeMarkers, appText);
    MissingNone(RequiredNoticeMarkers, appText);
  }

  /** The tokens of `tokens`, in order, that occur in `text`. */
  function Found(tokens: seq<string>, text: string): (found: seq<string>)
    ensures forall t :: t in found <==> t in tokens && Contains(text, t)
  {
    if tokens == [] then []
    else
      var n := |tokens| - 1;
      var prev := Found(tokens[..n], text);
      assert tokens == tokens[..n] + [tokens[n]];
      if Contains(text, tokens[n]) then prev + [tokens[n]] else prev
  }

  /** The check as a function of its inputs. */
  function TokensCheck(appText: string, allowNondeterminism: bool): (r: CheckResult)
    ensures r.checkId == NondeterministicTokensForbidden
  {
    if allowNondeterminism then
      CheckResult(NondeterministicTokensForbidden, true, OptInEnabled, DisableOptIn)
    else
      var found := Found(ForbiddenNondeterministicTokens, Lower(appText));
      if found != [] then
        CheckResult(NondeterministicTokensForbidden, false, TokensFound(SortedSet(found)), RemoveTokens)
      else
        CheckResult(NondeterministicTokensForbidden, true, NoTokens, NoRecovery)
  }

  /** `_check_no_nondeterministic_tokens` */
  method CheckNoNondeterministicTokens(appText: string, allowNondeterminism: bool) returns (r: CheckResult)
    ensures r == TokensCheck(appText, allowNondeterminism)
  {
    if allowNondeterminism {
      return CheckResult(NondeterministicTokensForbidden, true, OptInEnabled, DisableOptIn);
    }
    var found: seq<string> := [];
    var lower := Lower(appText);
    var i := 0;
    while i < |ForbiddenNondeterministicTokens|
      invariant 0 <= i <= |ForbiddenNondeterministicTokens|
      invariant found == Found(ForbiddenNondeterministicTokens[..i], lower)
    {
      var token := ForbiddenNondeterministicTokens[i];
      assert ForbiddenNondeterministicTokens[..i + 1][..i] == ForbiddenNondeterministicTokens[..i];
      if Contains(lower, token) {
        found := found + [token];
      }
      i := i + 1;
    }
    assert ForbiddenNondeterministicTokens[..i] == ForbiddenNondeterministicTokens;
    if found != [] {
      return CheckResult(NondeterministicTokensForbidden, false, TokensFound(SortedSet(found)), RemoveTokens);
    }
    return CheckResult(NondeterministicTokensForbidden, true, NoTokens, NoRecovery);
  }

  /** With the opt-in the check always passes; otherwise it fails iff some
      forbidden token occurs in the lower-cased text, and its reason lists
      exactly those tokens, sorted and without repeats. */
  lemma TokensMeaning(appText: string, allowNondeterminism: bool)
    ensures var r := TokensCheck(appText, allowNondeterminism);
      r.passed <==> allowNondeterminism || forall t | t in ForbiddenNondeterministicTokens :: !Contains(Lower(appText), t)
    ensures var r := TokensCheck(appText, allowNondeterminism); r.reason.TokensFound? ==>
      StrictlySorted(r.reason.tokens) &&
      forall t :: t in r.reason.tokens <==> t in ForbiddenNondeterministicTokens && Contains(Lower(appText), t)
    ensures allowNondeterminism ==> TokensCheck(appText, allowNondeterminism).recovery == DisableOptIn
  {
    var found := Found(ForbiddenNondeterministicTokens, Lower(appText));
    if found != [] {
      assert found[0] in found;
    }
  }

  // ---------------------------------------------------------------------------
  // Running the checks

  /** `run_checks`: the app text is read first, then the report; a missing file
      raises with its path as the message. */
  method RunChecks(appPath: string, appText: Option<string>, reportPath: string, metrics: Option<map<string, real>>,
                   constitutionPath: string, constitution: Option<string>, allowNondeterminism: bool)
    returns (r: Result<seq<CheckResult>, string>)
    ensures r == ChecksOf(appPath, appText, reportPath, metrics, constitutionPath, constitution, allowNondeterminism)
  {
    if appText.None? {
      return Failure(appPath);
    }
    if metrics.None? {
      return Failure(reportPath);
    }
    var tokens := CheckNoNondeterministicTokens(appText.value, allowNondeterminism);
    r := Success(Assemble(
      CheckConstitution(constitutionPath, constitution),
      CheckDeterministicReplay(metrics.value),
      CheckCitationContract(metrics.value),
      tokens,
      CheckNoSilentDegradation(appText.value)));
  }

  /** The five results in the order `run_checks` lists them. */
  function Assemble(c0: CheckResult, c1: CheckResult, c2: CheckResult, c3: CheckResult, c4: CheckResult): (s: seq<CheckResult>)
    ensures |s| == 5 && s[0] == c0 && s[1] == c1 && s[2] == c2 && s[3] == c3 && s[4] == c4
    ensures forall c :: c in s <==> c == c0 || c == c1 || c == c2 || c == c3 || c == c4
  {
    [c0, c1, c2, c3, c4]
  }

  function ChecksOf(appPath: string, appText: Option<string>, reportPath: string, metrics: Option<map<string, real>>,
                    constitutionPath: string, constitution: Option<string>, allowNondeterminism: bool): Result<seq<CheckResult>, string> {
    if appText.None? then Failure(appPath)
    else if metrics.None? then Failure(reportPath)
    else Success(Assemble(
      CheckConstitution(constitutionPath, constitution),
      CheckDeterministicReplay(metrics.value),
      CheckCitationContract(metrics.value),
      TokensCheck(appText.value, allowNondeterminism),
      CheckNoSilentDegradation(appText.value)))
  }

  /** Exactly five results with the five check ids in a fixed order; a missing
      constitution is a failed check, not an error. */
  lemma ChecksShape(appPath: string, appText: Option<string>, reportPath: string, metrics: Option<map<string, real>>,
                    constitutionPath: string, constitution: Option<string>, allowNondeterminism: bool)
    ensures var r := ChecksOf(appPath, appText, reportPath, metrics, constitutionPath, constitution, allowNondeterminism);
      (r.Failure? <==> appText.None? || metrics.None?) &&
      (r.Success? ==>
        (|r.value| == 5 &&
         r.value[0].checkId == ConstitutionPresent && r.value[1].checkId == DeterministicReplayRequired &&
         r.value[2].checkId == CitationContractRequired && r.value[3].checkId == NondeterministicTokensForbidden &&
         r.value[4].checkId == ExplicitFailureModesRequired))
  {
  }

  /** Each check reads only its own input: another constitution changes only the
      first result. */
  lemma ConstitutionIndependent(appPath: string, appText: string, reportPath: string, metrics: map<string, real>,
                                constitutionPath: string, constitution: Option<string>, constitution2: Option<string>, allowNondeterminism: bool)
    ensures var a := ChecksOf(appPath, Some(appText), reportPath, Some(metrics), constitutionPath, constitution, allowNondeterminism).value;
      var b := ChecksOf(appPath, Some(appText), reportPath, Some(metrics), constitutionPath, constitution2, allowNondeterminism).value;
      a[1] == b[1] && a[2] == b[2] && a[3] == b[3] && a[4] == b[4]
  {
    var c1 := CheckDeterministicReplay(metrics);
    var c2 := CheckCitationContract(metrics);
    var c3 := TokensCheck(appText, allowNondeterminism);
    var c4 := CheckNoSilentDegradation(appText);
    assert ChecksOf(appPath, Some(appText), reportPath, Some(metrics), constitutionPath, constitution, allowNondeterminism).value ==
      Assemble(CheckConstitution(constitutionPath, constitution), c1, c2, c3, c4);
    assert ChecksOf(appPath, Some(appText), reportPath, Some(metrics), constitutionPath, constitution2, allowNondeterminism).value ==
      Assemble(CheckConstitution(constitutionPath, constitution2), c1, c2, c3, c4);
  }

  /** Another report changes only the second and third results. */
  lemma ReportIndependent(appPath: string, appText: string, reportPath: string, metrics: map<string, real>, metrics2: map<string, real>,
                          constitutionPath: string, constitution: Option<string>, allowNondeterminism: bool)
    ensures var a := ChecksOf(appPath, Some(appText), reportPath, Some(metrics), constitutionPath, constitution, allowNondeterminism).value;
      var b := ChecksOf(appPath, Some(appText), reportPath, Some(metrics2), constitutionPath, constitution, allowNondeterminism).value;
      a[0] == b[0] && a[3] == b[3] && a[4] == b[4]
  {
    var c0 := CheckConstitution(constitutionPath, constitution);
    var c3 := TokensCheck(appText, allowNondeterminism);
    var c4 := CheckNoSilentDegradation(appText);
    assert ChecksOf(appPath, Some(appText), reportPath, Some(metrics), constitutionPath, constitution, allowNondeterminism).value ==
      Assemble(c0, CheckDeterministicReplay(metrics), CheckCitationContract(metrics), c3, c4);
    assert ChecksOf(appPath, Some(appText), reportPath, Some(metrics2), constitutionPath, constitution, allowNondeterminism).value ==
      Assemble(c0, CheckDeterministicReplay(metrics2), CheckCitationContract(metrics2), c3, c4);
  }

  // ---------------------------------------------------------------------------
  // Status, violations and exit code

  /** A violation is a failed check, or the marker of an execution error. */
  datatype Violation = Failed(check: CheckResult) | ExecutionError

  datatype Payload = Payload(status: string, error: Option<string>, checks: seq<CheckResult>, violations: seq<Violation>)

  function Violations(checks: seq<CheckResult>): (vs: seq<Violation>)
    ensures |vs| <= |checks|
  {
    if checks == [] then []
    else (if !checks[0].passed then [Failed(checks[0])] else []) + Violations(checks[1..])
  }

  /** The payload `main` prints. */
  function PayloadOf(r: Result<seq<CheckResult>, string>): Payload {
    match r
    case Failure(err) => Payload("fail", Some(err), [], [ExecutionError])
    case Success(checks) =>
      var violations := Violations(checks);
      Payload(if violations == [] then "pass" else "fail", None, checks, violations)
  }

  function ExitCode(p: Payload): int {
    if p.violations == [] then 0 else 1
  }

  lemma {:induction false} ViolationsMeaning(checks: seq<CheckResult>)
    ensures Violations(checks) == [] <==> forall c | c in checks :: c.passed
    ensures forall v | v in Violations(checks) :: v.Failed? && v.check in checks && !v.check.passed
    ensures forall c | c in checks && !c.passed :: Failed(c) in Violations(checks)
  {
    if checks != [] {
      ViolationsMeaning(checks[1..]);
      assert forall c | c in checks :: c == checks[0] || c in checks[1..];
    }
  }

  /** The violations are the failed checks in order: splitting the checks splits
      the violations. */
  lemma {:induction false} ViolationsAppend(a: seq<CheckResult>, b: seq<CheckResult>)
    ensures Violations(a + b) == Violations(a) + Violations(b)
  {
    if a != [] {
      assert (a + b)[1..] == a[1..] + b;
      ViolationsAppend(a[1..], b);
    } else {
      assert a + b == b;
    }
  }

  /** Status is "pass" iff every check passed iff the exit code is 0; an error
      gives "fail", no checks, the one execution-error violation and exit 1. */
  lemma PayloadMeaning(r: Result<seq<CheckResult>, string>)
    ensures r.Success? ==> (PayloadOf(r).status == "pass" <==> forall c | c in r.value :: c.passed)
    ensures r.Success? ==> (ExitCode(PayloadOf(r)) == 0 <==> PayloadOf(r).status == "pass")
    ensures r.Failure? ==> PayloadOf(r) == Payload("fail", Some(r.error), [], [ExecutionError]) && ExitCode(PayloadOf(r)) == 1
  {
    if r.Success? {
      ViolationsMeaning(r.value);
    }
  }

  /** `main` exits 0 iff all five checks pass on existing app and report files. */
  lemma MainMeaning(appPath: string, appText: Option<string>, reportPath: string, metrics: Option<map<string, real>>,
                    constitutionPath: string, constitution: Option<string>, allowNondeterminism: bool)
    ensures var r := ChecksOf(appPath, appText, reportPath, metrics, constitutionPath, constitution, allowNondeterminism);
      ExitCode(PayloadOf(r)) == 0 <==>
        appText.Some? && metrics.Some? &&
        CheckConstitution(constitutionPath, constitution).passed &&
        CheckDeterministicReplay(metrics.value).passed &&
        CheckCitationContract(metrics.value).passed &&
        TokensCheck(appText.value, allowNondeterminism).passed &&
        CheckNoSilentDegradation(appText.value).passed
  {
    var r := ChecksOf(appPath, appText, reportPath, metrics, constitutionPath, constitution, allowNondeterminism);
    if r.Success? {
      var c0 := CheckConstitution(constitutionPath, constitution);
      var c1 := CheckDeterministicReplay(metrics.value);
      var c2 := CheckCitationContract(metrics.value);
      var c3 := TokensCheck(appText.value, allowNondeterminism);
      var c4 := CheckNoSilentDegradation(appText.value);
      assert r.value == Assemble(c0, c1, c2, c3, c4);
      AssembledPass(c0, c1, c2, c3, c4);
    }
  }

  lemma AssembledPass(c0: CheckResult, c1: CheckResult, c2: CheckResult, c3: CheckResult, c4: CheckResult)
    ensures Violations(Assemble(c0, c1, c2, c3, c4)) == [] <==> c0.passed && c1.passed && c2.passed && c3.passed && c4.passed
  {
    ViolationsMeaning(Assemble(c0, c1, c2, c3, c4));
  }
}
