/** The part of `get_gemini_answer` that decides what the summariser is
    given: the no-results prompt, or at most ten rows and a count of the
    rows left out. */
module Summary {
  import opened Tables
  import opened Text
  import RowFilter

  /** `max_rows_for_gemini`. */
  const MaxRowsForGemini: nat := 10

  /** The trailing "... (and N more results not shown ...)" line, if any. */
  datatype Indicator = AllShown | MoreNotShown(count: nat)

  /** The content of the prompt: the no-match wording, or the rows that are
      rendered into it and the indicator appended after them. */
  datatype PromptInput =
    | NoMatches(query: string)
    | Matches(query: string, shown: Table, more: Indicator)

  /** `head(n)`: the first n rows, all columns. */
  function Head(t: Table, n: nat): Table
  {
    if |t.rows| <= n then t else Table(t.columns, t.rows[..n])
  }

  /** The rows a prompt leaves out. */
  function Omitted(p: PromptInput): nat
  {
    if p.Matches? && p.more.MoreNotShown? then p.more.count else 0
  }

  /** Chooses the prompt for the search results. */
  function PromptInputFor(query: string, results: Table): (p: PromptInput)
    ensures p.query == query
    ensures p.NoMatches? <==> IsEmpty(results)
    ensures p.Matches? ==> p.shown.columns == results.columns && p.shown.rows <= results.rows
    ensures p.Matches? && |results.rows| > MaxRowsForGemini ==>
      |p.shown.rows| == MaxRowsForGemini && p.more == MoreNotShown(|results.rows| - MaxRowsForGemini)
    ensures p.Matches? && |results.rows| <= MaxRowsForGemini ==>
      p.shown == results && p.more == AllShown
  {
    if IsEmpty(results) then NoMatches(query)
    else if |results.rows| > MaxRowsForGemini then
      Matches(query, Head(results, MaxRowsForGemini), MoreNotShown(|results.rows| - MaxRowsForGemini))
    else
      Matches(query, results, AllShown)
  }

  /** No matching row is lost: each is either shown or counted, and at most
      ten are shown. */
  lemma EveryResultShownOrCounted(query: string, results: Table)
    requires !IsEmpty(results)
    ensures var p := PromptInputFor(query, results);
      && p.Matches?
      && |p.shown.rows| <= MaxRowsForGemini
      && |p.shown.rows| + Omitted(p) == |results.rows|
      && (Omitted(p) > 0 <==> |results.rows| > MaxRowsForGemini)
  {
  }

  /** Fifteen matching rows: ten are forwarded and five are announced. */
  lemma FifteenRowsForwardTenAndCountFive(query: string, results: Table)
    requires |results.rows| == 15 && |results.columns| > 0
    ensures PromptInputFor(query, results)
      == Matches(query, Table(results.columns, results.rows[..10]), MoreNotShown(5))
  {
  }

  /** An all-whitespace query that reaches the summariser (the page only
      refuses the empty string) finds nothing and gets the no-results
      prompt, whatever the table. */
  lemma BlankQueryGetsNoResultsPrompt(t: Table, query: string)
    requires forall i :: 0 <= i < |query| ==> IsSpace(query[i])
    ensures PromptInputFor(query, RowFilter.Search(t, query)) == NoMatches(query)
  {
    RowFilter.BlankQueryFindsNothing(t, query);
  }
}
