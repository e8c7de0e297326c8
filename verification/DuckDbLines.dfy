/** What `populate_table` in `db/base.py` makes of a line of the source: its extra cells, its texts, the cells left
    off, the conversions.  `ConvertedCells` and `RowOfLine` say cell by cell what a row holds, and
    `RowsFollowLines` which rows a source gives. */
module DuckDbLines {
  import opened Common
  import opened DuckDb
  import opened Options

  /** A column of the source: whether it is loaded, and how a value becomes the column's type. */
  datatype Column = Column(included: bool, convert: Cell -> Result<Cell, LoadError>)

  datatype LoadError = TooManyColumns | BadValue(message: string)

  /** The import settings; `strip` removes white space around a text, `onOneLine` puts a blank for its line
      breaks. */
  datatype Settings = Settings(delEmptyCols: bool, emptyStrings: bool, trimStrings: bool, replaceNewlines: bool,
                               emptyRows: bool, strip: string -> string, onOneLine: string -> string)

  type Line = seq<Cell>

  predicate Blank(cell: Cell, conf: Settings) {
    cell.Null? || (!conf.emptyStrings && cell.Text? && conf.strip(cell.text) == "")
  }

  function CleanCell(cell: Cell, conf: Settings): Cell {
    if !cell.Text? then cell
    else
      var t1 := if conf.trimStrings then conf.strip(cell.text) else cell.text;
      var t2 := if conf.replaceNewlines then conf.onOneLine(t1) else t1;
      if !conf.emptyStrings && conf.strip(t2) == "" then Null else Text(t2)
  }

  /** Where the included columns are, in ascending order. */
  function Positions(columns: seq<Column>): (at: seq<nat>)
    ensures |at| <= |columns|
    ensures forall k :: 0 <= k < |at| ==> at[k] < |columns| && columns[at[k]].included
    ensures forall i :: 0 <= i < |columns| && columns[i].included ==> i in at
    ensures forall j, k :: 0 <= j < k < |at| ==> at[j] < at[k]
  {
    Where(seq(|columns|, i requires 0 <= i < |columns| => columns[i].included))
  }

  /** The values of the included columns, converted; or the first value that cannot be. */
  function Converted(cells: Line, columns: seq<Column>): (r: Result<Row, LoadError>)
    requires |cells| == |columns|
  {
    if cells == [] then Ok([])
    else
      match Converted(cells[..|cells| - 1], columns[..|cells| - 1])
      case Err(e) => Err(e)
      case Ok(row) =>
        var last := columns[|cells| - 1];
        if !last.included then Ok(row)
        else match last.convert(cells[|cells| - 1])
             case Err(e) => Err(e)
             case Ok(v) => Ok(row + [v])
  }

  /** The line's cells cleaned, and NULL for those left off. */
  function Padded(line: Line, width: nat, conf: Settings): (cells: Line)
    requires |line| <= width
    ensures |cells| == width
    ensures forall i :: 0 <= i < width ==> cells[i] == if i < |line| then CleanCell(line[i], conf) else Null
  {
    seq(width, i requires 0 <= i < width => if i < |line| then CleanCell(line[i], conf) else Null)
  }

  predicate AllNull(cells: seq<Cell>) { forall c <- cells :: c.Null? }

  /** The cells that have a column. */
  function Kept(line: Line, columns: seq<Column>): (kept: Line)
    ensures |kept| <= |columns|
  {
    if |line| > |columns| then line[..|columns|] else line
  }

  /** The row to insert, or none for an empty line. */
  function Prepared(line: Line, columns: seq<Column>, conf: Settings): Result<Option<Row>, LoadError> {
    var width := |columns|;
    if |line| > width && !(conf.delEmptyCols && forall c <- line[width..] :: Blank(c, conf)) then Err(TooManyColumns)
    else
      if Kept(line, columns) == [Null] then Ok(None)
      else
        match Converted(Padded(Kept(line, columns), width, conf), columns)
        case Err(e) => Err(e)
        case Ok(row) => Ok(if conf.emptyRows || !AllNull(row) then Some(row) else None)
  }

  /** What the lines of a source become, in order; or the first line's error. */
  function PreparedRows(source: seq<Line>, columns: seq<Column>, conf: Settings): Result<seq<Row>, LoadError> {
    if source == [] then Ok([])
    else
      match PreparedRows(source[..|source| - 1], columns, conf)
      case Err(e) => Err(e)
      case Ok(rows) =>
        match Prepared(source[|source| - 1], columns, conf)
        case Err(e) => Err(e)
        case Ok(None) => Ok(rows)
        case Ok(Some(row)) => Ok(rows + [row])
  }

  /** The rows of a source that loads begin with the rows of its first lines. */
  lemma {:induction false} FirstLines(source: seq<Line>, k: nat, columns: seq<Column>, conf: Settings)
    requires k <= |source|
    ensures PreparedRows(source, columns, conf).Ok? ==>
              PreparedRows(source[..k], columns, conf).Ok?
              && PreparedRows(source[..k], columns, conf).value <= PreparedRows(source, columns, conf).value
  {
    if k < |source| {
      FirstLines(source[..|source| - 1], k, columns, conf);
      assert source[..|source| - 1][..k] == source[..k];
    } else {
      assert source[..k] == source;
    }
  }

  lemma OneLineMore(source: seq<Line>, k: nat, columns: seq<Column>, conf: Settings)
    requires k < |source| && PreparedRows(source[..k], columns, conf).Ok?
    ensures PreparedRows(source[..k + 1], columns, conf) ==
            match Prepared(source[k], columns, conf)
            case Err(e) => Err(e)
            case Ok(None) => PreparedRows(source[..k], columns, conf)
            case Ok(Some(row)) => Ok(PreparedRows(source[..k], columns, conf).value + [row])
  {
    assert source[..k + 1][..k] == source[..k];
  }

  /** Whether a cell past the last column holds something. */
  method AnyNonEmpty(line: Line, width: nat, conf: Settings) returns (found: bool)
    requires width <= |line|
    ensures found <==> exists c <- line[width..] :: !Blank(c, conf)
  {
    var cno := width;
    while cno < |line|
      invariant width <= cno <= |line|
      invariant forall k :: width <= k < cno ==> Blank(line[k], conf)
    {
      if !(line[cno].Null? || (!conf.emptyStrings && line[cno].Text? && |conf.strip(line[cno].text)| == 0)) {
        assert line[cno] in line[width..];
        return true;
      }
      cno := cno + 1;
    }
    found := false;
  }

  method CleanLine(source: Line, conf: Settings) returns (line: Line)
    ensures |line| == |source| && forall k :: 0 <= k < |line| ==> line[k] == CleanCell(source[k], conf)
  {
    line := source;
    if conf.trimStrings || conf.replaceNewlines || !conf.emptyStrings {
      var i := 0;
      while i < |line|
        invariant 0 <= i <= |line| == |source|
        invariant forall k :: 0 <= k < |line| ==> line[k] == if k < i then CleanCell(source[k], conf) else source[k]
      {
        if line[i].Text? {
          if conf.trimStrings {
            line := line[i := Text(conf.strip(line[i].text))];
          }
          if conf.replaceNewlines {
            line := line[i := Text(conf.onOneLine(line[i].text))];
          }
          if !conf.emptyStrings && conf.strip(line[i].text) == "" {
            line := line[i := Null];
          }
        }
        i := i + 1;
      }
    }
  }

  method ConvertLine(line: Line, columns: seq<Column>) returns (r: Result<Row, LoadError>)
    requires |line| == |columns|
    ensures r == Converted(line, columns)
  {
    var row: Row := [];
    var i := 0;
    while i < |line|
      invariant 0 <= i <= |line|
      invariant Converted(line[..i], columns[..i]) == Ok(row)
    {
      assert line[..i + 1][..i] == line[..i] && columns[..i + 1][..i] == columns[..i];
      if columns[i].included {
        match columns[i].convert(line[i]) {
          case Err(e) =>
            FirstErrorStays(line, columns, i + 1);
            return Err(e);
          case Ok(v) => row := row + [v];
        }
      }
      i := i + 1;
    }
    assert line[..i] == line && columns[..i] == columns;
    r := Ok(row);
  }

  /** The steps on one line: its extra cells, its texts, the cells left off, the conversions. */
  method PrepareLine(source: Line, columns: seq<Column>, conf: Settings) returns (r: Result<Option<Row>, LoadError>)
    ensures r == Prepared(source, columns, conf)
  {
    var line := source;
    if |line| > |columns| {
      var extraErr := true;
      if conf.delEmptyCols {
        extraErr := AnyNonEmpty(line, |columns|, conf);
      }
      if extraErr {
        return Err(TooManyColumns);
      }
      line := line[..|columns|];
    }
    if |line| == 1 && line[0].Null? {
      assert line == [Null];
      return Ok(None);
    }
    ghost var kept := line;
    line := CleanLine(line, conf);
    line := line + seq(|columns| - |line|, _ => Null);
    assert line == Padded(kept, |columns|, conf);
    var row := ConvertLine(line, columns);
    if row.Err? {
      return Err(row.error);
    }
    var addLine := true;
    if !conf.emptyRows {
      addLine := !AllNull(row.value);
    }
    r := Ok(if addLine then Some(row.value) else None);
  }

  lemma {:induction false} FirstErrorStays(cells: Line, columns: seq<Column>, k: nat)
    requires k <= |cells| == |columns| && Converted(cells[..k], columns[..k]).Err?
    ensures Converted(cells, columns) == Converted(cells[..k], columns[..k])
  {
    if k < |cells| {
      var n := |cells| - 1;
      assert cells[..n][..k] == cells[..k] && columns[..n][..k] == columns[..k];
      FirstErrorStays(cells[..n], columns[..n], k);
    } else {
      assert cells[..k] == cells && columns[..k] == columns;
    }
  }

  // ---------------------------------------------------------------------------------------------
  // Cell by cell
  // ---------------------------------------------------------------------------------------------

  /** What the settings do to a cell: only texts change, trimmed first, put on one line then, and NULL at the end
      if nothing is left. */
  lemma CleanCellAsSet(cell: Cell, conf: Settings)
    ensures cell.Text? && (conf.emptyStrings || conf.strip(TextOf(cell.text, conf)) != "") ==>
              CleanCell(cell, conf) == Text(TextOf(cell.text, conf))
    ensures cell.Text? && !conf.emptyStrings && conf.strip(TextOf(cell.text, conf)) == "" ==>
              CleanCell(cell, conf) == Null
    ensures !cell.Text? ==> CleanCell(cell, conf) == cell
  {
  }

  /** A text as the settings have it. */
  function TextOf(text: string, conf: Settings): string {
    CleanText(text, conf.trimStrings, conf.strip, conf.replaceNewlines, conf.onOneLine)
  }

  lemma PositionsLast(columns: seq<Column>)
    requires columns != []
    ensures var n := |columns| - 1;
      Positions(columns) == Positions(columns[..n]) + if columns[n].included then [n] else []
  {
    var n := |columns| - 1;
    assert seq(|columns|, i requires 0 <= i < |columns| => columns[i].included)[..n]
        == seq(n, i requires 0 <= i < n => columns[..n][i].included);
  }

  /** A converted row, cell by cell: the included columns' values in the order of the columns; or, if some value
      cannot be converted, the error of the first that cannot. */
  lemma {:induction false} ConvertedCells(cells: Line, columns: seq<Column>)
    requires |cells| == |columns|
    ensures var at := Positions(columns);
      match Converted(cells, columns)
      case Ok(row) =>
        |row| == |at| && forall k :: 0 <= k < |at| ==> columns[at[k]].convert(cells[at[k]]) == Ok(row[k])
      case Err(e) =>
        exists k :: 0 <= k < |at| && columns[at[k]].convert(cells[at[k]]) == Err(e)
                    && forall j :: 0 <= j < k ==> columns[at[j]].convert(cells[at[j]]).Ok?
  {
    hide Positions;
    if cells != [] {
      var n := |cells| - 1;
      PositionsLast(columns);
      ConvertedCells(cells[..n], columns[..n]);
    }
  }

  /** The value of column `i`: the line's cell cleaned, or NULL if it was left off, and converted. */
  function ValueAt(line: Line, columns: seq<Column>, i: nat, conf: Settings): Result<Cell, LoadError>
    requires i < |columns|
  {
    columns[i].convert(if i < |line| then CleanCell(line[i], conf) else Null)
  }

  lemma NullRow(row: Row)
    ensures AllNull(row) ==> forall k :: 0 <= k < |row| ==> row[k] == Null
    ensures AllNull(row) <==> !exists cell <- row :: cell != Null
  {
    assert forall k :: 0 <= k < |row| ==> row[k] in row;
  }

  /** There are cells behind the last column, and they may not be dropped: one holds something, or the settings
      do not allow it. */
  predicate HasExtra(line: Line, columns: seq<Column>, conf: Settings) {
    |line| > |columns|
    && (conf.delEmptyCols ==>
          exists i :: |columns| <= i < |line| && line[i] != Null
                      && (line[i].Text? ==> conf.emptyStrings || conf.strip(line[i].text) != ""))
  }

  /** All there is in the line's columns is one NULL. */
  predicate OneNull(line: Line, columns: seq<Column>) {
    |line| > 0 && line[0] == Null && (|line| == 1 <= |columns| || |columns| == 1)
  }

  lemma ExtraIff(line: Line, columns: seq<Column>, conf: Settings)
    ensures HasExtra(line, columns, conf) <==>
            |line| > |columns| && !(conf.delEmptyCols && forall c <- line[|columns|..] :: Blank(c, conf))
  {
    if |line| > |columns| {
      var extra := line[|columns|..];
      assert forall i :: |columns| <= i < |line| ==> line[i] == extra[i - |columns|] && line[i] in extra;
      if !forall c <- extra :: Blank(c, conf) {
        var k :| 0 <= k < |extra| && !Blank(extra[k], conf);
        var i := |columns| + k;
        assert extra[k] == line[i];
      }
    }
  }

  lemma PreparedCases(line: Line, columns: seq<Column>, conf: Settings)
    ensures Prepared(line, columns, conf) ==
            if HasExtra(line, columns, conf) then Err(TooManyColumns)
            else if OneNull(line, columns) then Ok(None)
            else
              match Converted(Padded(Kept(line, columns), |columns|, conf), columns)
              case Err(e) => Err(e)
              case Ok(row) => Ok(if conf.emptyRows || !AllNull(row) then Some(row) else None)
  {
    hide Converted, Padded, AllNull, HasExtra, Blank;
    ExtraIff(line, columns, conf);
    assert Kept(line, columns) == [Null] <==> |Kept(line, columns)| == 1 && Kept(line, columns)[0] == Null;
  }

  lemma ValuesConverted(line: Line, columns: seq<Column>, conf: Settings)
    ensures var at := Positions(columns);
      match Converted(Padded(Kept(line, columns), |columns|, conf), columns)
      case Ok(row) =>
        |row| == |at| && forall k :: 0 <= k < |at| ==> ValueAt(line, columns, at[k], conf) == Ok(row[k])
      case Err(e) =>
        exists k :: 0 <= k < |at| && ValueAt(line, columns, at[k], conf) == Err(e)
                    && forall j :: 0 <= j < k ==> ValueAt(line, columns, at[j], conf).Ok?
  {
    hide Positions, CleanCell, Converted;
    var at := Positions(columns);
    var cells := Padded(Kept(line, columns), |columns|, conf);
    assert forall k :: 0 <= k < |at| ==> ValueAt(line, columns, at[k], conf) == columns[at[k]].convert(cells[at[k]]);
    ConvertedCells(cells, columns);
  }

  /** What a line becomes, cell by cell.  It has too many columns if something is in a cell behind the last; it
      gives no row if it is one NULL, or if empty rows are left out and every value is NULL. */
  lemma RowOfLine(line: Line, columns: seq<Column>, conf: Settings)
    ensures var at := Positions(columns);
      if HasExtra(line, columns, conf) then Prepared(line, columns, conf) == Err(TooManyColumns)
      else if OneNull(line, columns) then Prepared(line, columns, conf) == Ok(None)
      else
        match Prepared(line, columns, conf)
        case Ok(None) =>
          !conf.emptyRows && forall k :: 0 <= k < |at| ==> ValueAt(line, columns, at[k], conf) == Ok(Null)
        case Ok(Some(row)) =>
          && |row| == |at| && (conf.emptyRows || exists cell <- row :: cell != Null)
          && forall k :: 0 <= k < |at| ==> ValueAt(line, columns, at[k], conf) == Ok(row[k])
        case Err(e) =>
          exists k :: 0 <= k < |at| && ValueAt(line, columns, at[k], conf) == Err(e)
                      && forall j :: 0 <= j < k ==> ValueAt(line, columns, at[j], conf).Ok?
  {
    hide *;
    PreparedCases(line, columns, conf);
    ValuesConverted(line, columns, conf);
    var converted := Converted(Padded(Kept(line, columns), |columns|, conf), columns);
    if converted.Ok? {
      NullRow(converted.value);
    }
  }

  predicate GivesRow(line: Line, columns: seq<Column>, conf: Settings) {
    Prepared(line, columns, conf).Ok? && Prepared(line, columns, conf).value.Some?
  }

  /** Where the lines are that give a row, in ascending order. */
  function RowLines(source: seq<Line>, columns: seq<Column>, conf: Settings): (from: seq<nat>)
    ensures |from| <= |source|
    ensures forall k :: 0 <= k < |from| ==> from[k] < |source| && GivesRow(source[from[k]], columns, conf)
    ensures forall i :: 0 <= i < |source| && GivesRow(source[i], columns, conf) ==> i in from
    ensures forall j, k :: 0 <= j < k < |from| ==> from[j] < from[k]
  {
    Where(seq(|source|, i requires 0 <= i < |source| => GivesRow(source[i], columns, conf)))
  }

  lemma RowLinesLast(source: seq<Line>, columns: seq<Column>, conf: Settings)
    requires source != []
    ensures var n := |source| - 1;
      RowLines(source, columns, conf) ==
      RowLines(source[..n], columns, conf) + if GivesRow(source[n], columns, conf) then [n] else []
  {
    hide GivesRow;
    var n := |source| - 1;
    assert seq(|source|, i requires 0 <= i < |source| => GivesRow(source[i], columns, conf))[..n]
        == seq(n, i requires 0 <= i < n => GivesRow(source[..n][i], columns, conf));
  }

  /** The rows of a source are its lines' rows, in order; or, if some line cannot be prepared, there is the error
      of the first that cannot. */
  lemma {:induction false} RowsFollowLines(source: seq<Line>, columns: seq<Column>, conf: Settings)
    ensures var from := RowLines(source, columns, conf);
      match PreparedRows(source, columns, conf)
      case Ok(rows) =>
        && (forall i :: 0 <= i < |source| ==> Prepared(source[i], columns, conf).Ok?)
        && |rows| == |from|
        && forall k :: 0 <= k < |from| ==> Prepared(source[from[k]], columns, conf) == Ok(Some(rows[k]))
      case Err(e) =>
        exists k :: 0 <= k < |source| && Prepared(source[k], columns, conf) == Err(e)
                    && forall i :: 0 <= i < k ==> Prepared(source[i], columns, conf).Ok?
  {
    hide Prepared, RowLines;
    if source != [] {
      var n := |source| - 1;
      RowLinesLast(source, columns, conf);
      RowsFollowLines(source[..n], columns, conf);
    }
  }

  /** Every stored row, cell by cell from its line of the source. */
  lemma CellsOfRows(source: seq<Line>, columns: seq<Column>, conf: Settings)
    requires PreparedRows(source, columns, conf).Ok?
    ensures var rows, from, at :=
        PreparedRows(source, columns, conf).value, RowLines(source, columns, conf), Positions(columns);
      |rows| == |from| && forall k :: 0 <= k < |from| ==>
        |rows[k]| == |at| && forall j :: 0 <= j < |at| ==>
          ValueAt(source[from[k]], columns, at[j], conf) == Ok(rows[k][j])
  {
    hide *;
    RowsFollowLines(source, columns, conf);
    var from := RowLines(source, columns, conf);
    forall k | 0 <= k < |from|
      ensures var row := PreparedRows(source, columns, conf).value[k]; var at := Positions(columns);
        |row| == |at| && forall j :: 0 <= j < |at| ==> ValueAt(source[from[k]], columns, at[j], conf) == Ok(row[j])
    {
      RowOfLine(source[from[k]], columns, conf);
    }
  }
}
