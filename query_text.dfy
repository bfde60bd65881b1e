/** The query normaliser tool: lower-case, punctuation to spaces, whitespace runs
    to one space, then strip. */
module NormalizeQueryText {
  import opened Wrappers
  import opened Text

  /** `str(payload.get("query") or "")`: a missing query is the empty string. */
  function QueryText(query: Option<string>): string {
    if query.Some? then query.value else ""
  }

  /** `run`: `re.sub(r"\s+", " ", re.sub(r"[^a-zA-Z0-9\s]", " ", q.lower())).strip()` */
  function Run(query: Option<string>): string {
    Strip(CollapseRuns(ScrubPunctuation(Lower(QueryText(query))), IsSpace, ' '), IsSpace)
  }

  /** `run` joins the words of the scrubbed, lower-cased query with single spaces. */
  lemma {:induction false} RunIsJoinedWords(query: Option<string>)
    ensures Run(query) == Join(" ", Words(ScrubPunctuation(Lower(QueryText(query)))))
  {
    CollapseStripIsJoin(ScrubPunctuation(Lower(QueryText(query))), IsSpace, ' ');
  }

  /** Only lower-case letters, digits and single inner spaces remain. */
  lemma {:induction false} RunShape(query: Option<string>)
    ensures var r := Run(query);
      (forall c | c in r :: IsLowerAlnum(c) || c == ' ') && Separated(r, ' ')
  {
    var lowered := Lower(QueryText(query));
    var scrubbed := ScrubPunctuation(lowered);
    RunIsJoinedWords(query);
    JoinWordsShape(scrubbed);
    ScrubShape(lowered);
    LowerNoUpper(QueryText(query));
  }

  /** A missing or empty query gives the empty string. */
  lemma EmptyQuery()
    ensures Run(None) == "" && Run(Some("")) == ""
  {
  }

  /** The output has nothing left for lower-casing or scrubbing to change. */
  lemma RunFixed(query: Option<string>)
    ensures Lower(Run(query)) == Run(query) && ScrubPunctuation(Run(query)) == Run(query)
  {
    RunShape(query);
    CharsFixed(Run(query));
  }

  lemma CharsFixed(r: string)
    requires forall c | c in r :: IsLowerAlnum(c) || c == ' '
    ensures Lower(r) == r && ScrubPunctuation(r) == r
  {
    LowerFixed(r);
    ScrubFixed(r);
  }

  /** Normalising the output again changes nothing. */
  lemma {:induction false} RunIdempotent(query: Option<string>)
    ensures Run(Some(Run(query))) == Run(query)
  {
    var r := Run(query);
    RunFixed(query);
    RunIsJoinedWords(Some(r));
    RunIsJoinedWords(query);
    JoinWordsIdempotent(ScrubPunctuation(Lower(QueryText(query))));
  }
}
