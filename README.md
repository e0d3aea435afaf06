# Pricebook search: loader, row filter and summariser row cap

A Dafny model of the data layer of the pricebook search tool (`app.py`):

- **Loader** (`loader.dfy`, `load_and_combine_data`): walks the ordered list
  of CSV sources, skips every source that is missing (`FileNotFoundError`) or
  fails to parse (any other exception) with a report, and, unless nothing
  loaded, concatenates the loaded frames with the union of their columns
  (`pd.concat(..., ignore_index=True)`, which re-indexes each frame onto
  the union by that frame's own columns) and fills every NaN with `""`
  (`fillna('')`). If nothing loaded the result is the empty table
  `pd.DataFrame()` plus a "no data loaded" report. The loop is a method;
  `pd.concat` and `fillna` are the functions `Concat` and `FillNa`.
  Reading a file is the function parameter `read: string -> LoadResult`.
- **Row filter** (`rowfilter.dfy`, `search_dataframe`): a query that strips
  to `""` yields `pd.DataFrame()`. Otherwise the query is lower-cased once but
  not trimmed. A row is kept, in table order, when the lower-cased text of at
  least one of its cells contains that query.
- **Summariser input** (`summary.dfy`, the first half of `get_gemini_answer`):
  an empty result (`DataFrame.empty`: no rows or no columns) gets the
  no-results prompt. More than 10 rows forward the first 10 and an indicator
  carrying the number of rows left out. Otherwise all rows are forwarded and
  no indicator is added.
- **Text** (`text.dfy`): Python's `str.isspace` and `str.strip`, ASCII
  lower-casing, and substring containment. `tables.dfy` holds the unified
  table type and its invariant.

Two points where one might expect other behaviour; the model follows the code:

- An all-whitespace query might be expected to mean "no search performed".
  The code instead lets it through the page, which only refuses the empty
  string. The search then returns the empty table, and the summariser
  receives the same no-results prompt as a search that matched nothing
  (`Summary.BlankQueryGetsNoResultsPrompt`).
- "Empty" is pandas' `DataFrame.empty`. A result with rows but no columns also
  takes the no-results branch.

## Model

| member | source | states |
|---|---|---|
| Text.TrimStart | app.py:82 | removes exactly the longest all-whitespace prefix: what is left is a suffix of the input that is empty or starts with a non-space |
| Text.TrimEnd | app.py:82 | removes exactly the longest all-whitespace suffix: what is left is a prefix of the input that is empty or ends with a non-space |
| Text.BlankIffAllSpace | app.py:82 | `query.strip() == ""` holds exactly when every character of the query is whitespace (so `""` and `"   "` are blank) |
| Text.StripKeepsInfix | app.py:82 | the stripped query occurs contiguously in the original and neither starts nor ends with whitespace |
| Text.LowerIsIdempotent | app.py:85-86 | lower-casing leaves no upper-case ASCII letter and lower-casing twice equals lower-casing once |
| Text.LowerKeepsBlankness | app.py:82-85 | lower-casing does not change whether a query is blank |
| Text.ContainsIffOccurs | app.py:86 | the scanning containment test holds exactly when the needle occurs at some position of the text |
| Text.ContainsNeedsFirstChar | app.py:86 | a non-empty needle is found only in a text that contains its first character |
| RowFilter.FilterRows | app.py:86 | the kept rows all come from the input and all match (soundness); every matching input row is kept (completeness); no more rows than the input |
| RowFilter.Search | app.py:80-87 | a blank query gives the empty table with no columns; otherwise the columns are kept, every returned row is a table row with a cell containing the lower-cased untrimmed query, and every such table row is returned |
| RowFilter.MatchingPositionsExact | app.py:86 | the listed positions are in range and position i is listed exactly when row i matches |
| RowFilter.FilterKeepsExactlyMatchingPositions | app.py:86 | the filter's result is the rows at exactly the matching positions, in increasing order, unaltered and unrepeated |
| RowFilter.SearchPreservesOrder | app.py:82-86 | the match set is an order-preserving subsequence of the table's rows; for a non-blank query it is the rows at exactly the matching positions, in increasing order, each once |
| RowFilter.BlankQueryFindsNothing | app.py:82-83 | an empty or all-whitespace query returns the empty table for every table, never all rows |
| RowFilter.SearchPreservesWellFormed | app.py:83-86 | searching a well-formed table (distinct columns, every row has exactly those columns) gives a well-formed table |
| RowFilter.SearchIgnoresQueryCase | app.py:85 | searching with the lower-cased query gives the same result as with the original query |
| RowFilter.SecurityMatchesBoth | app.py:80-87 | on the two-row catalogue, "security" returns both rows in order |
| RowFilter.PriceMatchesFirstOnly | app.py:80-87 | on the two-row catalogue, "100" returns only the first row |
| RowFilter.UnknownTermMatchesNothing | app.py:80-87 | on the two-row catalogue, "zzz" returns no rows |
| Loader.AppendNew | app.py:73 | extending a column list by another keeps it as a prefix, yields the union of both, and keeps names distinct |
| Loader.UnionColumns | app.py:73 | the combined column list has distinct names and holds exactly the columns of some loaded frame |
| Loader.LoadAndCombineData | app.py:49-77 | the loop returns the combination of exactly the frames that loaded, in list order, one report per failed source in list order, and a final "no data" report with the empty table when nothing loaded |
| Loader.FlattenLength | app.py:73 | concatenation yields as many rows as all loaded frames have together |
| Loader.FlattenAt | app.py:73 | row k of loaded frame j is at offset (rows of the frames before j) + k in the concatenation |
| Loader.CombinedRowCount | app.py:67-77 | the combined row count is the sum of the loaded frames' row counts; with no frames the result is the empty table |
| Loader.CombinedRowAt | app.py:73-76 | row k of loaded frame j is row (rows before j) + k of the result; it has every union column; a column frame j does not have is exactly `""`; for a frame as `read_csv` produces it, a column it has holds the source text, or `""` where that cell was NaN |
| Loader.CombineWellFormed | app.py:73-76 | the combined table has distinct columns, exactly the union of the loaded frames' columns, and every row has every one of them |
| Loader.LoadedFramesAppend | app.py:52-65 | loading two source lists one after the other yields the frames of the first followed by those of the second |
| Loader.FailedSourceIsSkipped | app.py:60-65 | a missing or unparsable source contributes no frame and exactly one report, so the result equals loading the other sources alone |
| Loader.NothingLoadedIffAllFail | app.py:67-69 | no frame is loaded exactly when every source fails, including for the empty source list |
| Loader.EverySourceAccounted | app.py:52-65 | every source yields either one frame or one report |
| Summary.PromptInputFor | app.py:94-104 | the no-results prompt exactly when the results are empty; otherwise the results' columns and a prefix of their rows; over 10 rows, exactly 10 rows plus an indicator of n - 10; at most 10 rows, all rows and no indicator |
| Summary.EveryResultShownOrCounted | app.py:99-104 | for non-empty results, at most 10 rows are shown, shown plus omitted equals the result count, and an indicator appears exactly when there are more than 10 |
| Summary.FifteenRowsForwardTenAndCountFive | app.py:100-102 | fifteen result rows forward the first ten and an indicator of five |
| Summary.BlankQueryGetsNoResultsPrompt | app.py:94-95 | an all-whitespace query reaching the summariser yields the no-results prompt for every table |
| Text.IsSpace | app.py:82 | no contract; Python's `str.isspace` character set; see Text.BlankIffAllSpace |
| Text.Strip | app.py:82 | no contract; `str.strip()` as TrimEnd after TrimStart; see Text.StripKeepsInfix |
| Text.IsBlank | app.py:82 | no contract; the test `query.strip() == ""`; see Text.BlankIffAllSpace |
| Text.Lower | app.py:85-86 | no contract; ASCII `str.lower()`; see Text.LowerIsIdempotent and Text.LowerKeepsBlankness |
| Text.Contains | app.py:86 | no contract; substring containment by scanning; see Text.ContainsIffOccurs |
| RowFilter.RowMatches | app.py:86 | no contract; some cell's lower-cased text contains the lower-cased query; see RowFilter.FilterRows and RowFilter.Search |
| Loader.LoadedFrames | app.py:52-59 | no contract; the frames of the sources that loaded, in list order; see Loader.LoadedFramesAppend, Loader.FailedSourceIsSkipped and Loader.NothingLoadedIffAllFail |
| Loader.SourceReports | app.py:60-65 | no contract; one report per failed source, in list order; see Loader.EverySourceAccounted |
| Loader.FrameWellFormed | app.py:58 | no contract; what `read_csv` guarantees of a frame: distinct columns and every row has exactly them; assumed by Loader.CombinedRowAt |
| Loader.Align | app.py:73 | no contract; one row re-indexed onto the union columns, NaN for columns its frame lacks; see Loader.CombinedRowAt |
| Loader.Reindex | app.py:73 | no contract; a frame re-indexed onto the union columns; see Loader.CombinedRowAt |
| Loader.Concat | app.py:73 | no contract; `pd.concat` with an outer join on columns; see Loader.CombinedRowCount, Loader.CombinedRowAt |
| Loader.FillNa | app.py:76 | no contract; `fillna('')`; see Loader.CombinedRowAt |
| Loader.Combine | app.py:67-77 | no contract; the empty table when nothing loaded, otherwise concatenation then fill; see Loader.CombinedRowCount, Loader.CombinedRowAt, Loader.CombineWellFormed |
| Summary.Head | app.py:101 | no contract; `head(n)`; see Summary.PromptInputFor |
| Tables.IsEmpty | app.py:94 | no contract; pandas' `DataFrame.empty`, no rows or no columns; see Summary.PromptInputFor |

## Left out

- Streamlit page flow, widgets, `st.warning`/`st.error` text, the spinner and `@st.cache_data` caching (app.py:48, 124-166). They are presentation and framework code. The loader's warnings and errors are kept only as `Loader.Report` values.
- API key retrieval and `genai.configure` (app.py:10-14), the Gemini call and its apology fallback (app.py:115-121), and the prompt wording (app.py:95, 106-113). These are network calls and fixed text. Only the choice of rows and indicator is modelled.
- CSV parsing by `pd.read_csv` (app.py:58). Each source's outcome is given by the `read` parameter.
- Markdown rendering with `to_markdown` (app.py:101, 104). Only the row selection and the omitted count are modelled.
- RowFilter.RowMatches: pandas' `str.contains` treats the query as a regular expression by default. The model uses literal substring containment, so it describes only queries free of regular-expression metacharacters.
- Text.Lower: lower-casing is ASCII only, while Python's `str.lower` also folds non-ASCII letters.
- Type conversion by `astype(str)` is not modelled (a float renders as `"100.0"`, for instance). Cells are text from the start, and a NaN from the CSV is `Loader.Cell.Missing`.
- Column order of the union follows first appearance (pandas' behaviour with `sort=False`). No property depends on it beyond the column set.
- Searching a table with no rows is not given pandas' own `apply` behaviour on empty frames. The model returns no rows, and the page never searches an empty table.
