/**
 * The optional team-stats CSV as both ETL scripts prepare it: rename a few
 * columns, normalise every column name, clean the text columns, and drop the
 * rows that lack a team or a season.
 */
module Csv {
  import opened Wrappers
  import opened Text
  import opened Store

  /** A data frame: column names and rows of cells, as `read_csv` returns it. */
  datatype Frame = Frame(columns: seq<string>, rows: seq<seq<Cell>>)

  predicate Rectangular(f: Frame) {
    forall i :: 0 <= i < |f.rows| ==> |f.rows[i]| == |f.columns|
  }

  /** `DataFrame.empty`: no columns or no rows. */
  predicate IsEmpty(f: Frame) {
    |f.columns| == 0 || |f.rows| == 0
  }

  /** `pd.DataFrame()`, what the scripts use when the CSV file does not exist. */
  const EmptyFrame: Frame := Frame([], [])

  // ---------------------------------------------------------------------
  //  Column names
  // ---------------------------------------------------------------------

  const Renames: map<string, string> := map[
    "Team" := "team", "Season" := "season", "PTS Per Game" := "pts", "FG%" := "fg%", "TRB" := "trb"
  ]

  /** `rename(columns=...)`: exact-match renames, other names kept. */
  function Rename(c: string): (r: string)
    ensures c in Renames ==> r == Renames[c]
    ensures c !in Renames ==> r == c
  {
    if c in Renames then Renames[c] else c
  }

  /** `.str.strip().str.lower().str.replace(r"\s+", "_", regex=True)`. */
  function NormalizeColumnName(c: string): (r: string)
    ensures NoSpace(r)
    ensures IsLower(r)
  {
    ReplaceSpaceRuns(Lower(Strip(c)))
  }

  /** A normalised name is a fixed point: normalising twice is normalising once. */
  lemma NormalizeIdempotent(c: string)
    ensures NormalizeColumnName(NormalizeColumnName(c)) == NormalizeColumnName(c)
  {
    var n := NormalizeColumnName(c);
    StripNoSpaceEnds(n);
    LowerOfLower(n);
  }

  /** Surrounding whitespace never changes a normalised name. */
  lemma NormalizeIgnoresPadding(w1: string, c: string, w2: string)
    requires AllSpace(w1) && AllSpace(w2)
    ensures NormalizeColumnName(w1 + c + w2) == NormalizeColumnName(c)
  {
    StripIgnoresPadding(w1, c, w2);
  }

  /** The frame's columns after renaming and then normalising each name. */
  function ColumnNames(cols: seq<string>): (r: seq<string>)
    ensures |r| == |cols|
    ensures forall j :: 0 <= j < |cols| ==> r[j] == NormalizeColumnName(Rename(cols[j]))
    ensures forall j :: 0 <= j < |r| ==> NoSpace(r[j])
  {
    seq(|cols|, j requires 0 <= j < |cols| => NormalizeColumnName(Rename(cols[j])))
  }

  // ---------------------------------------------------------------------
  //  Cells
  // ---------------------------------------------------------------------

  /** A column whose dtype is `object`: it holds text. */
  predicate IsTextColumn(rows: seq<seq<Cell>>, j: int) {
    exists i :: 0 <= i < |rows| && 0 <= j < |rows[i]| && rows[i][j].Str?
  }

  /** `.str.rstrip("%").replace("", pd.NA)` on one string. */
  function CleanText(t: string): (r: Cell)
    ensures r.Missing? <==> RStripChar(t, '%') == []
    ensures r.Str? ==> r.s == RStripChar(t, '%')
    ensures !r.Number?
  {
    var u := RStripChar(t, '%');
    if u == [] then Missing else Str(u)
  }

  /**
   * One cell of a text column. In a column read as text every present value is
   * a string, so a numeric-looking literal is cleaned as its text.
   */
  function CleanCell(c: Cell): (r: Cell)
    ensures c.Missing? ==> r.Missing?
    ensures c.Str? ==> (r.Missing? <==> RStripChar(c.s, '%') == []) && (r.Str? ==> r.s == RStripChar(c.s, '%'))
    ensures c.Number? ==>
              (r.Missing? <==> RStripChar(c.literal, '%') == []) && (r.Str? ==> r.s == RStripChar(c.literal, '%'))
    ensures r.Str? ==> r.s != [] && r.s[|r.s| - 1] != '%'
    ensures !r.Number?
  {
    match c
    case Missing => Missing
    case Number(lit) => CleanText(lit)
    case Str(t) => CleanText(t)
  }

  /** A cleaned text cell is left as it is by a second cleaning. */
  lemma CleanCellIdempotent(c: Cell)
    ensures CleanCell(CleanCell(c)) == CleanCell(c)
  {
    var d := CleanCell(c);
    if d.Str? {
      assert RStripChar(d.s, '%') == d.s;
    }
  }

  /** The cell at row `i`, column `j` once the text columns are cleaned. */
  function CleanedAt(rows: seq<seq<Cell>>, i: int, j: int): Cell
    requires 0 <= i < |rows| && 0 <= j < |rows[i]|
  {
    if IsTextColumn(rows, j) then CleanCell(rows[i][j]) else rows[i][j]
  }

  /** The frame after the `for col in csv_df.columns` loop. */
  function Cleaned(f: Frame): (g: Frame)
    requires Rectangular(f)
    ensures g.columns == f.columns && |g.rows| == |f.rows| && Rectangular(g)
    ensures forall i, j :: 0 <= i < |f.rows| && 0 <= j < |f.columns| ==> g.rows[i][j] == CleanedAt(f.rows, i, j)
  {
    Frame(f.columns, seq(|f.rows|, i requires 0 <= i < |f.rows| =>
                           seq(|f.columns|, j requires 0 <= j < |f.columns| => CleanedAt(f.rows, i, j))))
  }

  /**
   * After cleaning, text columns hold no empty string and no value ending in
   * '%', and every other column is exactly as it was.
   */
  lemma CleanedColumns(f: Frame, j: int)
    requires Rectangular(f) && 0 <= j < |f.columns|
    ensures var g := Cleaned(f);
      IsTextColumn(f.rows, j) ==>
        forall i :: 0 <= i < |g.rows| && g.rows[i][j].Str? ==> g.rows[i][j].s != [] && g.rows[i][j].s[|g.rows[i][j].s| - 1] != '%'
    ensures var g := Cleaned(f);
      !IsTextColumn(f.rows, j) ==> forall i :: 0 <= i < |g.rows| ==> g.rows[i][j] == f.rows[i][j]
  {
  }

  /** Cleaning a cleaned frame changes nothing. */
  lemma CleanedIdempotent(f: Frame)
    requires Rectangular(f)
    ensures Cleaned(Cleaned(f)) == Cleaned(f)
  {
    var g := Cleaned(f);
    var h := Cleaned(g);
    forall i, j | 0 <= i < |f.rows| && 0 <= j < |f.columns| ensures h.rows[i][j] == g.rows[i][j] {
      if IsTextColumn(f.rows, j) {
        CleanCellIdempotent(f.rows[i][j]);
      }
    }
    assert forall i :: 0 <= i < |f.rows| ==> h.rows[i] == g.rows[i];
  }

  /**
   * The cleaning loop: one column at a time, a text column has each of its
   * cells cleaned, any other column is left alone.
   */
  method CleanTextColumns(f: Frame) returns (g: Frame)
    requires Rectangular(f)
    ensures g == Cleaned(f)
  {
    var rows := f.rows;
    var j := 0;
    while j < |f.columns|
      invariant 0 <= j <= |f.columns|
      invariant |rows| == |f.rows|
      invariant forall i :: 0 <= i < |rows| ==> |rows[i]| == |f.columns|
      invariant forall i, k :: 0 <= i < |rows| && 0 <= k < |f.columns| ==>
                  rows[i][k] == if k < j then CleanedAt(f.rows, i, k) else f.rows[i][k]
    {
      var text := IsTextColumnAt(rows, j);
      assert text == IsTextColumn(f.rows, j) by {
        if IsTextColumn(f.rows, j) {
          var i :| 0 <= i < |f.rows| && 0 <= j < |f.rows[i]| && f.rows[i][j].Str?;
          assert rows[i][j] == f.rows[i][j];
        }
        if IsTextColumn(rows, j) {
          var i :| 0 <= i < |rows| && 0 <= j < |rows[i]| && rows[i][j].Str?;
          assert rows[i][j] == f.rows[i][j];
        }
      }
      if text {
        rows := seq(|rows|, i requires 0 <= i < |rows| => rows[i][j := CleanCell(rows[i][j])]);
      }
      j := j + 1;
    }
    g := Frame(f.columns, rows);
    assert forall i :: 0 <= i < |rows| ==> rows[i] == Cleaned(f).rows[i];
  }

  /** `csv_df[col].dtype == object`, by scanning the column. */
  method IsTextColumnAt(rows: seq<seq<Cell>>, j: int) returns (text: bool)
    ensures text == IsTextColumn(rows, j)
  {
    text := false;
    var i := 0;
    while i < |rows|
      invariant 0 <= i <= |rows|
      invariant text <==> exists k :: 0 <= k < i && 0 <= j < |rows[k]| && rows[k][j].Str?
    {
      if 0 <= j < |rows[i]| && rows[i][j].Str? {
        text := true;
      }
      i := i + 1;
    }
  }

  // ---------------------------------------------------------------------
  //  dropna(subset=["team", "season"])
  // ---------------------------------------------------------------------

  /** The row has a value in every column named "team" or "season". */
  predicate Complete(cols: seq<string>, row: seq<Cell>) {
    forall j :: 0 <= j < |cols| && j < |row| && (cols[j] == "team" || cols[j] == "season") ==> !row[j].Missing?
  }

  /** The complete rows, in their original order. */
  function KeepComplete(cols: seq<string>, rows: seq<seq<Cell>>): (r: seq<seq<Cell>>)
    ensures |r| <= |rows|
    ensures forall x :: x in r <==> x in rows && Complete(cols, x)
    decreases |rows|
  {
    if |rows| == 0 then []
    else
      var n := |rows|;
      assert forall x :: x in rows <==> x in rows[..n - 1] || x == rows[n - 1];
      KeepComplete(cols, rows[..n - 1]) + (if Complete(cols, rows[n - 1]) then [rows[n - 1]] else [])
  }

  /** The subset columns that are not in the frame; `dropna` raises a KeyError for them. */
  function MissingSubset(cols: seq<string>): (r: seq<string>)
    ensures forall c :: c in r <==> (c == "team" || c == "season") && c !in cols
  {
    (if "team" in cols then [] else ["team"]) + (if "season" in cols then [] else ["season"])
  }

  /** Drops the rows missing a team or a season; fails when either column is absent. */
  function DropIncomplete(f: Frame): (r: Result<Frame, Fault>)
    ensures r.Failure? <==> "team" !in f.columns || "season" !in f.columns
    ensures r.Failure? ==> r.error == MissingColumns(MissingSubset(f.columns))
    ensures r.Success? ==> r.value.columns == f.columns &&
                           forall x :: x in r.value.rows <==> x in f.rows && Complete(f.columns, x)
  {
    var missing := MissingSubset(f.columns);
    if missing != [] then
      Failure(MissingColumns(missing))
    else
      assert "team" !in missing && "season" !in missing;
      Success(Frame(f.columns, KeepComplete(f.columns, f.rows)))
  }

  /** The frame the load step sees: the cleaned CSV, or the empty frame when there is no file. */
  function PreparedCsv(csv: Option<Frame>): Result<Frame, Fault>
    requires csv.Some? ==> Rectangular(csv.value)
  {
    match csv
    case None => Success(EmptyFrame)
    case Some(f) => DropIncomplete(Cleaned(Frame(ColumnNames(f.columns), f.rows)))
  }

  /**
   * The whole CSV step: a prepared frame has whitespace-free lower-case column
   * names, and every one of its rows has a team and a season.
   */
  method PrepareCsv(csv: Option<Frame>) returns (r: Result<Frame, Fault>)
    requires csv.Some? ==> Rectangular(csv.value)
    ensures r == PreparedCsv(csv)
    ensures csv.None? ==> r == Success(EmptyFrame)
    ensures r.Success? ==> forall j :: 0 <= j < |r.value.columns| ==> NoSpace(r.value.columns[j]) && IsLower(r.value.columns[j])
    ensures r.Success? ==> forall x :: x in r.value.rows ==> Complete(r.value.columns, x)
  {
    if csv.None? {
      return Success(EmptyFrame);
    }
    var f := csv.value;
    var named := Frame(ColumnNames(f.columns), f.rows);
    var cleaned := CleanTextColumns(named);
    r := DropIncomplete(cleaned);
  }

  /** `to_sql("team_stats", ...)` only when the frame is not empty. */
  function WriteTeamStats(store: Tables, csv: Frame): (r: Tables)
    ensures IsEmpty(csv) ==> r == store
    ensures !IsEmpty(csv) ==> r == store["team_stats" := RowsTable(csv.columns, csv.rows)]
  {
    if IsEmpty(csv) then store else store["team_stats" := RowsTable(csv.columns, csv.rows)]
  }
}
