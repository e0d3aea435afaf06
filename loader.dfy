/** The catalog loader (`load_and_combine_data`): reads each source in list
    order, skips the ones that are missing or unreadable, concatenates the
    rest with the union of their columns and fills every absent cell with "". */
module Loader {
  import opened Tables

  /** A cell as `pd.read_csv` leaves it: text, or NaN for an empty field. */
  datatype Cell = Missing | Value(text: string)

  type SourceRow = map<string, Cell>

  /** A data frame read from one source, before its cells are filled. */
  datatype Frame = Frame(columns: seq<string>, rows: seq<SourceRow>)

  /** What `pd.read_csv` guarantees of a frame: distinct column names and a
      cell in every row for exactly those columns. */
  ghost predicate FrameWellFormed(f: Frame)
  {
    && NoDuplicates(f.columns)
    && forall r :: r in f.rows ==> r.Keys == ColumnSet(f.columns)
  }

  /** What reading one source produced: a frame, `FileNotFoundError`, or any
      other exception, carried with its message. */
  datatype LoadResult = Loaded(frame: Frame) | NotFound | Failed(message: string)

  /** The warnings and errors shown while loading. */
  datatype Report = FileNotFoundWarning(path: string) | LoadError(path: string, message: string) | NoDataLoaded

  /** The frames of the sources that loaded, in list order. */
  function LoadedFrames(paths: seq<string>, read: string -> LoadResult): seq<Frame>
  {
    if paths == [] then []
    else
      var last := paths[|paths| - 1];
      LoadedFrames(paths[..|paths| - 1], read) + (if read(last).Loaded? then [read(last).frame] else [])
  }

  /** One report per source that did not load, in list order. */
  function SourceReports(paths: seq<string>, read: string -> LoadResult): seq<Report>
  {
    if paths == [] then []
    else
      var last := paths[|paths| - 1];
      SourceReports(paths[..|paths| - 1], read)
      + match read(last)
        case Loaded(_) => []
        case NotFound => [FileNotFoundWarning(last)]
        case Failed(e) => [LoadError(last, e)]
  }

  /** `cols` extended by the names of `more` it lacks, in their order: the
      union of two column indexes as `pd.concat` forms it. */
  function AppendNew(cols: seq<string>, more: seq<string>): (r: seq<string>)
    ensures cols <= r
    ensures ColumnSet(r) == ColumnSet(cols) + ColumnSet(more)
    ensures NoDuplicates(cols) ==> NoDuplicates(r)
    decreases more
  {
    if more == [] then cols
    else AppendNew(if more[0] in cols then cols else cols + [more[0]], more[1..])
  }

  /** The union of the frames' columns, in order of first appearance. */
  function UnionColumns(frames: seq<Frame>): (r: seq<string>)
    ensures NoDuplicates(r)
    ensures forall c :: c in r <==> exists j :: 0 <= j < |frames| && c in frames[j].columns
  {
    if frames == [] then []
    else
      var init, last := frames[..|frames| - 1], frames[|frames| - 1];
      var r := AppendNew(UnionColumns(init), last.columns);
      assert forall c :: c in r <==> c in UnionColumns(init) || c in last.columns by {
        assert forall c :: c in r <==> c in ColumnSet(r);
      }
      assert forall j :: 0 <= j < |init| ==> init[j] == frames[j];
      r
  }

  /** The rows of all frames, frame after frame. */
  function Flatten(frames: seq<Frame>): seq<SourceRow>
  {
    if frames == [] then [] else Flatten(frames[..|frames| - 1]) + frames[|frames| - 1].rows
  }

  /** Total number of rows over all frames. */
  function TotalRows(frames: seq<Frame>): nat
  {
    if frames == [] then 0 else |frames[0].rows| + TotalRows(frames[1..])
  }

  /** A row of a frame with the given own columns, re-indexed by the union
      columns: NaN for every column its frame does not have. */
  function Align(row: SourceRow, own: seq<string>, columns: seq<string>): SourceRow
  {
    map c | c in columns :: if c in own && c in row then row[c] else Missing
  }

  /** `reindex(columns=...)` of one frame onto the union columns. */
  function Reindex(f: Frame, columns: seq<string>): Frame
  {
    Frame(columns, seq(|f.rows|, k requires 0 <= k < |f.rows| => Align(f.rows[k], f.columns, columns)))
  }

  /** The loaded frames, each re-indexed onto the union columns. */
  function Reindexed(frames: seq<Frame>): seq<Frame>
  {
    seq(|frames|, j requires 0 <= j < |frames| => Reindex(frames[j], UnionColumns(frames)))
  }

  /** `pd.concat(frames, ignore_index=True)` with an outer join on columns:
      every frame is re-indexed onto the union of the columns and the rows
      are stacked frame after frame. */
  function Concat(frames: seq<Frame>): Frame
  {
    Frame(UnionColumns(frames), Flatten(Reindexed(frames)))
  }

  function FillCell(cell: Cell): string
  {
    match cell
    case Missing => ""
    case Value(s) => s
  }

  /** `fillna('')`: every NaN becomes the empty string. */
  function FillNa(f: Frame): Table
  {
    Table(f.columns, seq(|f.rows|, i requires 0 <= i < |f.rows| =>
      map c | c in f.rows[i] :: FillCell(f.rows[i][c])))
  }

  /** What the loader returns for the frames that loaded. */
  function Combine(frames: seq<Frame>): Table
  {
    if frames == [] then EmptyTable else FillNa(Concat(frames))
  }

  /** The loading loop: skip failed sources, collect the frames, then
      concatenate and fill, or return the empty table if nothing loaded. */
  method LoadAndCombineData(filePaths: seq<string>, read: string -> LoadResult)
    returns (combined: Table, reports: seq<Report>)
    ensures combined == Combine(LoadedFrames(filePaths, read))
    ensures reports == SourceReports(filePaths, read)
      + (if LoadedFrames(filePaths, read) == [] then [NoDataLoaded] else [])
  {
    var allData: seq<Frame> := [];
    reports := [];
    for i := 0 to |filePaths|
      invariant allData == LoadedFrames(filePaths[..i], read)
      invariant reports == SourceReports(filePaths[..i], read)
    {
      assert filePaths[..i + 1][..i] == filePaths[..i];
      match read(filePaths[i])
      case Loaded(df) =>
        allData := allData + [df];
      case NotFound =>
        reports := reports + [FileNotFoundWarning(filePaths[i])];
      case Failed(e) =>
        reports := reports + [LoadError(filePaths[i], e)];
    }
    assert filePaths[..|filePaths|] == filePaths;
    if allData == [] {
      reports := reports + [NoDataLoaded];
      return EmptyTable, reports;
    }
    combined := FillNa(Concat(allData));
  }

  // ---------------------------------------------------------------------
  // Properties of the combination

  lemma {:induction false} TotalRowsAppend(frames: seq<Frame>, f: Frame)
    ensures TotalRows(frames + [f]) == TotalRows(frames) + |f.rows|
  {
    if frames != [] {
      assert (frames + [f])[1..] == frames[1..] + [f];
      TotalRowsAppend(frames[1..], f);
    }
  }

  /** The combined rows are as many as the rows of all loaded frames. */
  lemma {:induction false} FlattenLength(frames: seq<Frame>)
    ensures |Flatten(frames)| == TotalRows(frames)
  {
    if frames != [] {
      var init := frames[..|frames| - 1];
      FlattenLength(init);
      TotalRowsAppend(init, frames[|frames| - 1]);
      assert init + [frames[|frames| - 1]] == frames;
    }
  }

  /** Row k of frame j sits at offset (rows of frames before j) + k. */
  lemma {:induction false} FlattenAt(frames: seq<Frame>, j: int, k: int)
    requires 0 <= j < |frames| && 0 <= k < |frames[j].rows|
    ensures TotalRows(frames[..j]) + k < |Flatten(frames)|
    ensures Flatten(frames)[TotalRows(frames[..j]) + k] == frames[j].rows[k]
  {
    var n := |frames|;
    var init := frames[..n - 1];
    FlattenLength(init);
    FlattenLength(frames[..j]);
    if j == n - 1 {
      assert init == frames[..j];
    } else {
      FlattenAt(init, j, k);
      assert init[..j] == frames[..j];
      assert init[j] == frames[j];
    }
  }

  /** Frames with the same row counts, position by position, have the same
      total. */
  lemma {:induction false} TotalRowsSameCounts(a: seq<Frame>, b: seq<Frame>)
    requires |a| == |b| && forall j :: 0 <= j < |a| ==> |a[j].rows| == |b[j].rows|
    ensures TotalRows(a) == TotalRows(b)
  {
    if a != [] {
      TotalRowsSameCounts(a[1..], b[1..]);
    }
  }

  /** Every row of the concatenation is a row of one of the frames. */
  lemma {:induction false} FlattenMembers(frames: seq<Frame>)
    ensures forall r :: r in Flatten(frames) ==> exists j :: 0 <= j < |frames| && r in frames[j].rows
  {
    if frames != [] {
      var init := frames[..|frames| - 1];
      FlattenMembers(init);
      assert forall j :: 0 <= j < |init| ==> init[j] == frames[j];
    }
  }

  /** Row counts add up: the combined table has exactly the rows of the
      loaded frames, and the empty table when none loaded. */
  lemma CombinedRowCount(frames: seq<Frame>)
    ensures |Combine(frames).rows| == TotalRows(frames)
    ensures frames == [] ==> Combine(frames) == EmptyTable
  {
    FlattenLength(Reindexed(frames));
    TotalRowsSameCounts(Reindexed(frames), frames);
  }

  /** The fill invariant and the order of rows: row k of loaded frame j is
      row (rows of frames before j) + k of the result; it has a cell for every
      column of the union; a column frame j does not have is "", and a column
      it has holds the source's text, or "" where that cell was NaN. */
  lemma CombinedRowAt(frames: seq<Frame>, j: int, k: int)
    requires 0 <= j < |frames| && 0 <= k < |frames[j].rows|
    requires FrameWellFormed(frames[j])
    ensures TotalRows(frames[..j]) + k < |Combine(frames).rows|
    ensures var row := Combine(frames).rows[TotalRows(frames[..j]) + k];
      var src := frames[j].rows[k];
      && row.Keys == ColumnSet(UnionColumns(frames))
      && (forall c :: c in row && c !in frames[j].columns ==> row[c] == "")
      && (forall c :: c in row && c in frames[j].columns ==> c in src && row[c] == FillCell(src[c]))
  {
    var columns, aligned := UnionColumns(frames), Reindexed(frames);
    FlattenAt(aligned, j, k);
    FlattenLength(aligned);
    TotalRowsSameCounts(aligned[..j], frames[..j]);
    var i := TotalRows(frames[..j]) + k;
    var src := frames[j].rows[k];
    var alignedRow := Align(src, frames[j].columns, columns);
    assert Concat(frames).rows[i] == aligned[j].rows[k] == alignedRow;
    var row := FillNa(Concat(frames)).rows[i];
    assert row == map c | c in alignedRow :: FillCell(alignedRow[c]);
    assert row.Keys == ColumnSet(columns);
    assert src.Keys == ColumnSet(frames[j].columns);
  }

  /** The combined table is well formed: distinct columns, the union of the
      loaded frames' columns, and every row has every one of them. */
  lemma CombineWellFormed(frames: seq<Frame>)
    ensures WellFormed(Combine(frames))
    ensures forall c :: c in Combine(frames).columns <==> exists j :: 0 <= j < |frames| && c in frames[j].columns
  {
    if frames != [] {
      var columns, aligned := UnionColumns(frames), Reindexed(frames);
      FlattenMembers(aligned);
      var t := Combine(frames);
      forall r | r in t.rows
        ensures r.Keys == ColumnSet(columns)
      {
        var i :| 0 <= i < |t.rows| && t.rows[i] == r;
        var a := Concat(frames).rows[i];
        assert a in Flatten(aligned);
        var j :| 0 <= j < |aligned| && a in aligned[j].rows;
        assert a.Keys == ColumnSet(columns);
      }
    }
  }

  // ---------------------------------------------------------------------
  // Properties of the loading loop's skip policy

  lemma {:induction false} LoadedFramesAppend(a: seq<string>, b: seq<string>, read: string -> LoadResult)
    ensures LoadedFrames(a + b, read) == LoadedFrames(a, read) + LoadedFrames(b, read)
  {
    if b != [] {
      var b0 := b[..|b| - 1];
      LoadedFramesAppend(a, b0, read);
      assert (a + b)[..|a + b| - 1] == a + b0;
      assert (a + b)[|a + b| - 1] == b[|b| - 1];
    } else {
      assert a + b == a;
    }
  }

  /** A source that is missing or fails to parse contributes nothing and
      exactly one more report; loading carries on with the sources after it,
      so the result is that of loading the other sources alone. */
  lemma FailedSourceIsSkipped(a: seq<string>, p: string, b: seq<string>, read: string -> LoadResult)
    requires !read(p).Loaded?
    ensures LoadedFrames(a + [p] + b, read) == LoadedFrames(a + b, read)
    ensures Combine(LoadedFrames(a + [p] + b, read)) == Combine(LoadedFrames(a + b, read))
    ensures |SourceReports(a + [p] + b, read)| == |SourceReports(a + b, read)| + 1
  {
    LoadedFramesAppend(a + [p], b, read);
    LoadedFramesAppend(a, [p], read);
    LoadedFramesAppend(a, b, read);
    assert [p][..0] == [];
    EverySourceAccounted(a + [p] + b, read);
    EverySourceAccounted(a + b, read);
  }

  /** Nothing is loaded exactly when no source loads, including the empty
      source list. */
  lemma {:induction false} NothingLoadedIffAllFail(paths: seq<string>, read: string -> LoadResult)
    ensures LoadedFrames(paths, read) == [] <==> forall i :: 0 <= i < |paths| ==> !read(paths[i]).Loaded?
  {
    if paths != [] {
      var init := paths[..|paths| - 1];
      NothingLoadedIffAllFail(init, read);
      assert forall i :: 0 <= i < |init| ==> init[i] == paths[i];
    }
  }

  /** Every source is accounted for: it either contributes its frame or
      exactly one report. */
  lemma {:induction false} EverySourceAccounted(paths: seq<string>, read: string -> LoadResult)
    ensures |LoadedFrames(paths, read)| + |SourceReports(paths, read)| == |paths|
  {
    if paths != [] {
      EverySourceAccounted(paths[..|paths| - 1], read);
    }
  }
}
