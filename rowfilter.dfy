/** The row filter (`search_dataframe`): a case-insensitive substring search
    over every cell of every row, keeping matching rows in table order. */
module RowFilter {
  import opened Text
  import opened Tables

  /** The row's cells are lower-cased and one of them contains the query,
      which the caller has lower-cased already (and did not trim). */
  predicate RowMatches(row: Row, loweredQuery: string)
  {
    exists c | c in row :: Contains(Lower(row[c]), loweredQuery)
  }

  /** The boolean-mask selection `df[mask]`: the matching rows, in order. */
  function FilterRows(rows: seq<Row>, loweredQuery: string): (kept: seq<Row>)
    ensures |kept| <= |rows|
    ensures forall x :: x in kept ==> x in rows && RowMatches(x, loweredQuery)
    ensures forall i :: 0 <= i < |rows| && RowMatches(rows[i], loweredQuery) ==> rows[i] in kept
  {
    if rows == [] then []
    else
      var last := rows[|rows| - 1];
      FilterRows(rows[..|rows| - 1], loweredQuery) + (if RowMatches(last, loweredQuery) then [last] else [])
  }

  /** The search: a blank query gives `pd.DataFrame()`; otherwise the query is
      lower-cased once and the table's columns are kept with the matching rows. */
  function Search(t: Table, query: string): (r: Table)
    ensures IsBlank(query) ==> r == EmptyTable
    ensures !IsBlank(query) ==> r.columns == t.columns
    ensures forall x :: x in r.rows ==> x in t.rows && RowMatches(x, Lower(query))
    ensures !IsBlank(query) ==>
      forall i :: 0 <= i < |t.rows| && RowMatches(t.rows[i], Lower(query)) ==> t.rows[i] in r.rows
    ensures |r.rows| <= |t.rows|
  {
    if Strip(query) == "" then EmptyTable
    else Table(t.columns, FilterRows(t.rows, Lower(query)))
  }

  /** `idx` lists, in strictly increasing order, positions of `ys` whose
      elements are exactly `xs`. */
  ghost predicate IsSubsequenceAt<T>(xs: seq<T>, ys: seq<T>, idx: seq<int>)
  {
    && |idx| == |xs|
    && (forall k :: 0 <= k < |idx| ==> 0 <= idx[k] < |ys| && xs[k] == ys[idx[k]])
    && (forall k, l :: 0 <= k < l < |idx| ==> idx[k] < idx[l])
  }

  ghost predicate IsSubsequence<T>(xs: seq<T>, ys: seq<T>)
  {
    exists idx :: IsSubsequenceAt(xs, ys, idx)
  }

  /** Positions of the matching rows, in increasing order. */
  ghost function MatchingPositions(rows: seq<Row>, loweredQuery: string): seq<int>
  {
    if rows == [] then []
    else
      MatchingPositions(rows[..|rows| - 1], loweredQuery)
      + (if RowMatches(rows[|rows| - 1], loweredQuery) then [|rows| - 1] else [])
  }

  /** Extending both sequences by the same element keeps a subsequence
      witness valid, whether or not the new element is selected. */
  lemma ExtendSubsequence<T>(xs: seq<T>, ys: seq<T>, idx: seq<int>, y: T, take: bool)
    requires IsSubsequenceAt(xs, ys, idx)
    ensures take ==> IsSubsequenceAt(xs + [y], ys + [y], idx + [|ys|])
    ensures !take ==> IsSubsequenceAt(xs, ys + [y], idx)
  {
  }

  /** Every listed position is in range, and position i is listed exactly
      when the row there matches. */
  lemma {:induction false} MatchingPositionsExact(rows: seq<Row>, loweredQuery: string)
    ensures forall k :: 0 <= k < |MatchingPositions(rows, loweredQuery)| ==>
      0 <= MatchingPositions(rows, loweredQuery)[k] < |rows|
    ensures forall i :: 0 <= i < |rows| ==>
      (i in MatchingPositions(rows, loweredQuery) <==> RowMatches(rows[i], loweredQuery))
  {
    if rows != [] {
      var init := rows[..|rows| - 1];
      MatchingPositionsExact(init, loweredQuery);
      var idx0 := MatchingPositions(init, loweredQuery);
      var idx := MatchingPositions(rows, loweredQuery);
      var m := RowMatches(rows[|rows| - 1], loweredQuery);
      assert idx == idx0 + (if m then [|rows| - 1] else []);
      assert |rows| - 1 !in idx0;
      forall i | 0 <= i < |init|
        ensures i in idx <==> RowMatches(rows[i], loweredQuery)
      {
        assert rows[i] == init[i];
      }
    }
  }

  /** The filter keeps the row at position i exactly when it matches, keeps
      those rows in table order, and neither alters nor repeats any of them. */
  lemma {:induction false} FilterKeepsExactlyMatchingPositions(rows: seq<Row>, loweredQuery: string)
    ensures IsSubsequenceAt(FilterRows(rows, loweredQuery), rows, MatchingPositions(rows, loweredQuery))
    ensures forall i :: 0 <= i < |rows| ==>
      (i in MatchingPositions(rows, loweredQuery) <==> RowMatches(rows[i], loweredQuery))
  {
    MatchingPositionsExact(rows, loweredQuery);
    if rows != [] {
      var init, last := rows[..|rows| - 1], rows[|rows| - 1];
      FilterKeepsExactlyMatchingPositions(init, loweredQuery);
      var m := RowMatches(last, loweredQuery);
      ExtendSubsequence(FilterRows(init, loweredQuery), init, MatchingPositions(init, loweredQuery), last, m);
      assert init + [last] == rows;
    }
  }

  /** The match set is an order-preserving subsequence of the table: for a
      non-blank query, exactly the rows at the matching positions, each once. */
  lemma SearchPreservesOrder(t: Table, query: string)
    ensures IsSubsequence(Search(t, query).rows, t.rows)
    ensures !IsBlank(query) ==>
      IsSubsequenceAt(Search(t, query).rows, t.rows, MatchingPositions(t.rows, Lower(query)))
    ensures !IsBlank(query) ==> forall i :: 0 <= i < |t.rows| ==>
      (i in MatchingPositions(t.rows, Lower(query)) <==> RowMatches(t.rows[i], Lower(query)))
  {
    if IsBlank(query) {
      assert IsSubsequenceAt(Search(t, query).rows, t.rows, []);
    } else {
      FilterKeepsExactlyMatchingPositions(t.rows, Lower(query));
    }
  }

  /** An empty or all-whitespace query finds nothing, whatever the table;
      in particular it never returns all rows of a non-empty table. */
  lemma BlankQueryFindsNothing(t: Table, query: string)
    requires forall i :: 0 <= i < |query| ==> IsSpace(query[i])
    ensures Search(t, query) == EmptyTable && IsEmpty(Search(t, query))
  {
    BlankIffAllSpace(query);
  }

  /** Searching a well-formed table gives a well-formed table. */
  lemma SearchPreservesWellFormed(t: Table, query: string)
    requires WellFormed(t)
    ensures WellFormed(Search(t, query))
  {
  }

  /** The search is insensitive to the case of the query's ASCII letters. */
  lemma SearchIgnoresQueryCase(t: Table, query: string)
    ensures Search(t, Lower(query)) == Search(t, query)
  {
    LowerKeepsBlankness(query);
    LowerIsIdempotent(query);
  }

  /** Two catalogue rows used by the scenarios below. */
  function EndpointRow(): Row { map["name" := "Endpoint Security", "price" := "100"] }
  function NetworkRow(): Row { map["name" := "Network Security", "price" := "250"] }
  function Catalogue(): Table { Table(["name", "price"], [EndpointRow(), NetworkRow()]) }

  /** A row whose lower-cased cells all lack the query's first character
      does not match it. */
  lemma NoMatchWithoutFirstChar(row: Row, loweredQuery: string)
    requires |loweredQuery| > 0
    requires forall c :: c in row ==> loweredQuery[0] !in Lower(row[c])
    ensures !RowMatches(row, loweredQuery)
  {
    forall c | c in row && Contains(Lower(row[c]), loweredQuery)
      ensures false
    {
      ContainsNeedsFirstChar(Lower(row[c]), loweredQuery);
    }
  }

  lemma FoundAt(hay: string, needle: string, i: nat)
    requires i + |needle| <= |hay| && hay[i..i + |needle|] == needle
    ensures Contains(hay, needle)
  {
    assert OccursAt(hay, needle, i);
    ContainsIffOccurs(hay, needle);
  }

  lemma FilterTwo(a: Row, b: Row, loweredQuery: string)
    ensures FilterRows([a, b], loweredQuery)
      == (if RowMatches(a, loweredQuery) then [a] else []) + (if RowMatches(b, loweredQuery) then [b] else [])
  {
    assert [a, b][..1] == [a];
  }

  lemma CatalogueLowered()
    ensures Lower("Endpoint Security") == "endpoint security"
    ensures Lower("Network Security") == "network security"
    ensures Lower("100") == "100" && Lower("250") == "250"
  {
  }

  /** A query whose first character is not whitespace is searched for. */
  lemma SearchOfNonBlank(t: Table, query: string, lowered: string)
    requires |query| > 0 && !IsSpace(query[0]) && Lower(query) == lowered
    ensures Search(t, query) == Table(t.columns, FilterRows(t.rows, lowered))
  {
    BlankIffAllSpace(query);
  }

  /** "security" matches both rows, in table order. */
  lemma SecurityMatchesBoth()
    ensures Search(Catalogue(), "security") == Catalogue()
  {
    assert Lower("security") == "security";
    SearchOfNonBlank(Catalogue(), "security", "security");
    SecurityInBothNames();
    FilterTwo(EndpointRow(), NetworkRow(), "security");
  }

  lemma SecurityInBothNames()
    ensures RowMatches(EndpointRow(), "security")
    ensures RowMatches(NetworkRow(), "security")
  {
    EndpointMatchesSecurity();
    NetworkMatchesSecurity();
  }

  lemma EndpointMatchesSecurity()
    ensures RowMatches(EndpointRow(), "security")
  {
    NamesLowered();
    assert "endpoint security"[9..17] == "security";
    SecurityInName(EndpointRow(), "endpoint security", 9);
  }

  lemma NetworkMatchesSecurity()
    ensures RowMatches(NetworkRow(), "security")
  {
    NamesLowered();
    assert "network security"[8..16] == "security";
    SecurityInName(NetworkRow(), "network security", 8);
  }

  lemma NamesLowered()
    ensures "name" in EndpointRow() && Lower(EndpointRow()["name"]) == "endpoint security"
    ensures "name" in NetworkRow() && Lower(NetworkRow()["name"]) == "network security"
  {
    CatalogueLowered();
  }

  lemma SecurityInName(row: Row, lowered: string, at: nat)
    requires "name" in row && Lower(row["name"]) == lowered
    requires at + 8 <= |lowered| && lowered[at..at + 8] == "security"
    ensures RowMatches(row, "security")
  {
    FoundAt(lowered, "security", at);
  }

  lemma EndpointPriceMatches100()
    ensures RowMatches(EndpointRow(), "100")
  {
    assert Lower(EndpointRow()["price"]) == "100";
    assert "100" <= "100";
  }

  lemma NetworkRowMisses100()
    ensures !RowMatches(NetworkRow(), "100")
  {
    CatalogueLowered();
    NoMatchWithoutFirstChar(NetworkRow(), "100");
  }

  lemma EndpointRowMissesZzz()
    ensures !RowMatches(EndpointRow(), "zzz")
  {
    CatalogueLowered();
    NoMatchWithoutFirstChar(EndpointRow(), "zzz");
  }

  lemma NetworkRowMissesZzz()
    ensures !RowMatches(NetworkRow(), "zzz")
  {
    CatalogueLowered();
    NoMatchWithoutFirstChar(NetworkRow(), "zzz");
  }

  /** "100" matches only the first row. */
  lemma PriceMatchesFirstOnly()
    ensures Search(Catalogue(), "100") == Table(Catalogue().columns, [EndpointRow()])
  {
    assert Lower("100") == "100";
    SearchOfNonBlank(Catalogue(), "100", "100");
    EndpointPriceMatches100();
    NetworkRowMisses100();
    FilterTwo(EndpointRow(), NetworkRow(), "100");
  }

  /** "zzz" matches neither row. */
  lemma UnknownTermMatchesNothing()
    ensures Search(Catalogue(), "zzz") == Table(Catalogue().columns, [])
  {
    assert Lower("zzz") == "zzz";
    SearchOfNonBlank(Catalogue(), "zzz", "zzz");
    EndpointRowMissesZzz();
    NetworkRowMissesZzz();
    FilterTwo(EndpointRow(), NetworkRow(), "zzz");
  }
}
