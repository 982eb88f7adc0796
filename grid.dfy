/** The table-entry path of the solver window: `_collect_matrix` walks the
    n-row by (n+1)-column grid of cell texts and builds the augmented system
    (ui_app.py:244-285); `_highlight_errors` colours the cells it complains
    about (ui_app.py:287-294). */
module Grid {
  import opened Wrappers
  import opened Text
  import opened Numerals

  /** The record handed to the solver (ui_app.py:14-17). */
  datatype AugmentedMatrix = AugmentedMatrix(coefficients: seq<seq<real>>, rhs: seq<real>)

  /** The table widget as `_collect_matrix` sees it: for each row, the
      optional item of each column (`None` where the table holds no item),
      and the column count. */
  datatype Table = Table(items: seq<seq<Option<string>>>, columnCount: nat) {
    function RowCount(): nat {
      |items|
    }

    /** `item(row, col)`: the cell text, or `None` outside the table or
        where no item is set. */
    function Item(row: int, col: int): Option<string> {
      if 0 <= row < |items| && 0 <= col < columnCount && col < |items[row]|
      then items[row][col]
      else None
    }
  }

  /** An error location `(row, col)`; `col == -1` marks a whole row whose
      coefficient count is wrong. */
  type Location = (int, int)

  /** What reading one cell yields: no item, a blank or non-numeric text,
      or a number. */
  datatype Cell = Missing | Bad | Number(value: real)

  function ReadCell(t: Table, row: int, col: int): Cell {
    match t.Item(row, col)
    case None => Missing
    case Some(text) =>
      var s := Strip(text);
      if s == [] then Bad
      else
        match ParseNum(s)
        case None => Bad
        case Some(v) => Number(v)
  }

  /** The table with every cell already read: the grid the scan works on.
      `At` is `ReadCell` (see `ClassifyAt`). */
  datatype CellGrid = CellGrid(cells: seq<seq<Cell>>, width: nat) {
    function Height(): nat {
      |cells|
    }

    function At(row: int, col: int): Cell {
      if 0 <= row < |cells| && 0 <= col < width && col < |cells[row]|
      then cells[row][col]
      else Missing
    }
  }

  function Classify(t: Table): (g: CellGrid)
    ensures g.Height() == t.RowCount() && g.width == t.columnCount
  {
    CellGrid(seq(t.RowCount(), r requires 0 <= r < t.RowCount() =>
      seq(t.columnCount, c requires 0 <= c < t.columnCount => ReadCell(t, r, c))), t.columnCount)
  }

  lemma ClassifyAt(t: Table, row: int, col: int)
    ensures Classify(t).At(row, col) == ReadCell(t, row, col)
  {
  }

  /** What the columns `0 .. cols-1` of one row add to the three lists. */
  datatype RowPart = RowPart(coeffs: seq<real>, rhs: seq<real>, errors: seq<Location>)

  function ScanRow(g: CellGrid, row: int, cols: nat): RowPart
    requires cols <= g.width
  {
    if cols == 0 then RowPart([], [], [])
    else
      var p := ScanRow(g, row, cols - 1);
      var col := cols - 1;
      match g.At(row, col)
      case Missing => p
      case Bad => RowPart(p.coeffs, p.rhs, p.errors + [(row, col)])
      case Number(v) =>
        if col == g.width - 1 then RowPart(p.coeffs, p.rhs + [v], p.errors)
        else RowPart(p.coeffs + [v], p.rhs, p.errors)
  }

  /** The three lists after the rows `0 .. rows-1`. */
  datatype Scan = Scan(coeffs: seq<seq<real>>, rhs: seq<real>, errors: seq<Location>)

  function ScanRows(g: CellGrid, rows: nat): Scan
    requires rows <= g.Height()
  {
    if rows == 0 then Scan([], [], [])
    else
      var s := ScanRows(g, rows - 1);
      var row := rows - 1;
      var p := ScanRow(g, row, g.width);
      Scan(s.coeffs + [p.coeffs], s.rhs + p.rhs,
        s.errors + p.errors + (if |p.coeffs| != g.Height() then [(row, -1)] else []))
  }

  /** What `_collect_matrix` returns: the system, or `None` when an error
      was recorded or the right-hand side is not `size` long. */
  function Collect(t: Table): Option<AugmentedMatrix> {
    var s := ScanRows(Classify(t), t.RowCount());
    if |s.rhs| != t.RowCount() || s.errors != [] then None
    else Some(AugmentedMatrix(s.coeffs, s.rhs))
  }

  /** The cells `_highlight_errors` colours: the listed locations that are
      not row markers and hold an item. */
  function MarkedCells(t: Table, locations: seq<Location>): set<Location> {
    set l | l in locations && l.1 != -1 && t.Item(l.0, l.1).Some?
  }

  // ---------------------------------------------------------------------
  // The two methods

  /** `_highlight_errors`: after clearing every highlight, colour each
      listed cell, skipping the `(row, -1)` markers and cells without an
      item. Returns the set of coloured cells. */
  method HighlightErrors(t: Table, locations: seq<Location>) returns (marked: set<Location>)
    ensures marked == MarkedCells(t, locations)
  {
    marked := {};
    for i := 0 to |locations|
      invariant marked == MarkedCells(t, locations[..i])
    {
      assert locations[..i + 1] == locations[..i] + [locations[i]];
      var (row, col) := locations[i];
      if col == -1 {
        continue;
      }
      if t.Item(row, col).Some? {
        marked := marked + {(row, col)};
      }
    }
    assert locations[..|locations|] == locations;
  }

  /** `_collect_matrix`: row by row, column by column, sort each cell into
      the right-hand side (last column), the row's coefficients (other
      columns) or the error list; flag each row whose coefficient count is
      not `size`. On failure the errors are highlighted and `None` is
      returned; on success the highlights are cleared. `marked` is the set
      of highlighted cells afterwards. */
  method CollectMatrix(t: Table) returns (m: Option<AugmentedMatrix>, marked: set<Location>)
    ensures m == Collect(t)
    ensures m.None? ==> marked == MarkedCells(t, Errors(t))
    ensures m.Some? ==> marked == {}
    ensures m.Some? ==> |m.value.coefficients| == t.RowCount() && |m.value.rhs| == t.RowCount()
    ensures m.Some? ==> forall i :: 0 <= i < t.RowCount() ==> |m.value.coefficients[i]| == t.RowCount()
  {
    var coeffs: seq<seq<real>> := [];
    var rhs: seq<real> := [];
    var size := t.RowCount();
    var errors: seq<Location> := [];
    ghost var g := Classify(t);

    for row := 0 to size
      invariant ScanRows(g, row) == Scan(coeffs, rhs, errors)
    {
      var coeffRow: seq<real> := [];
      ghost var rhs0, errors0 := rhs, errors;
      for col := 0 to t.columnCount
        invariant coeffRow == ScanRow(g, row, col).coeffs
        invariant rhs == rhs0 + ScanRow(g, row, col).rhs
        invariant errors == errors0 + ScanRow(g, row, col).errors
      {
        ClassifyAt(t, row, col);
        var item := t.Item(row, col);
        if item.None? {
          continue;
        }
        var text := Strip(item.value);
        if text == [] {
          errors := errors + [(row, col)];
          continue;
        }
        var value := ParseNum(text);
        if value.None? {
          errors := errors + [(row, col)];
          continue;
        }
        if col == t.columnCount - 1 {
          rhs := rhs + [value.value];
        } else {
          coeffRow := coeffRow + [value.value];
        }
      }
      if |coeffRow| != size {
        errors := errors + [(row, -1)];
      }
      coeffs := coeffs + [coeffRow];
    }

    ScanRowsShape(g, size);
    if |rhs| != size || errors != [] {
      marked := HighlightErrors(t, errors);
      return None, marked;
    }
    RowMarkers(g, size);
    marked := {};
    return Some(AugmentedMatrix(coeffs, rhs)), marked;
  }

  // ---------------------------------------------------------------------
  // Facts about one row

  /** The cells of a row that enter the error list are exactly its blank
      or non-numeric cells, and nothing else (in particular no cell
      without an item). */
  lemma {:induction false} RowErrors(g: CellGrid, row: int, cols: nat)
    requires cols <= g.width
    ensures forall l :: l in ScanRow(g, row, cols).errors <==>
      l.0 == row && 0 <= l.1 < cols && g.At(row, l.1) == Bad
  {
    if cols > 0 {
      RowErrors(g, row, cols - 1);
      var p := ScanRow(g, row, cols - 1);
      forall l ensures l in ScanRow(g, row, cols).errors <==>
        l.0 == row && 0 <= l.1 < cols && g.At(row, l.1) == Bad
      {
        if g.At(row, cols - 1) == Bad {
          assert ScanRow(g, row, cols).errors == p.errors + [(row, cols - 1)];
        }
      }
    }
  }

  /** A row contributes at most one right-hand-side value: that of its last
      column, when it is a number. */
  lemma {:induction false} RowRhs(g: CellGrid, row: int, cols: nat)
    requires cols <= g.width
    ensures ScanRow(g, row, cols).rhs ==
      if cols == g.width && cols > 0 && g.At(row, cols - 1).Number?
      then [g.At(row, cols - 1).value] else []
  {
    if cols > 0 {
      RowRhs(g, row, cols - 1);
    }
  }

  /** The number of coefficient columns among the first `cols` columns. */
  function CoeffColumns(g: CellGrid, cols: nat): nat
    requires cols <= g.width
  {
    if cols == g.width && cols > 0 then cols - 1 else cols
  }

  /** A row never has more coefficients than coefficient columns, and it
      has that many only when every coefficient cell is a number; then the
      coefficients are those numbers in column order. */
  lemma {:induction false} RowCoeffs(g: CellGrid, row: int, cols: nat)
    requires cols <= g.width
    ensures |ScanRow(g, row, cols).coeffs| <= CoeffColumns(g, cols)
    ensures |ScanRow(g, row, cols).coeffs| == CoeffColumns(g, cols) ==>
      forall c :: 0 <= c < CoeffColumns(g, cols) ==>
        g.At(row, c).Number? && ScanRow(g, row, cols).coeffs[c] == g.At(row, c).value
  {
    if cols > 0 {
      RowCoeffs(g, row, cols - 1);
    }
  }

  /** When every coefficient cell of a row is a number, the row has a
      coefficient for each coefficient column. */
  lemma {:induction false} RowCoeffsComplete(g: CellGrid, row: int, cols: nat)
    requires cols <= g.width
    requires forall c :: 0 <= c < CoeffColumns(g, cols) ==> g.At(row, c).Number?
    ensures |ScanRow(g, row, cols).coeffs| == CoeffColumns(g, cols)
  {
    if cols > 0 {
      RowCoeffsComplete(g, row, cols - 1);
    }
  }

  // ---------------------------------------------------------------------
  // Facts about the whole grid

  /** One coefficient row per table row, in row order, and at most one
      right-hand-side value per row. */
  lemma {:induction false} ScanRowsShape(g: CellGrid, rows: nat)
    requires rows <= g.Height()
    ensures |ScanRows(g, rows).coeffs| == rows
    ensures forall r :: 0 <= r < rows ==> ScanRows(g, rows).coeffs[r] == ScanRow(g, r, g.width).coeffs
    ensures |ScanRows(g, rows).rhs| <= rows
  {
    if rows > 0 {
      var s := ScanRows(g, rows - 1);
      var p := ScanRow(g, rows - 1, g.width);
      ScanRowsShape(g, rows - 1);
      RowRhs(g, rows - 1, g.width);
      assert ScanRows(g, rows).coeffs == s.coeffs + [p.coeffs];
      assert ScanRows(g, rows).rhs == s.rhs + p.rhs;
      forall r | 0 <= r < rows ensures ScanRows(g, rows).coeffs[r] == ScanRow(g, r, g.width).coeffs {
        if r < rows - 1 {
          assert (s.coeffs + [p.coeffs])[r] == s.coeffs[r];
        }
      }
    }
  }

  /** A row marker `(r, -1)` is recorded exactly for the rows whose
      coefficient count is not the row count of the table. */
  lemma {:induction false} RowMarkers(g: CellGrid, rows: nat)
    requires rows <= g.Height()
    ensures forall r :: (r, -1) in ScanRows(g, rows).errors <==>
      0 <= r < rows && |ScanRow(g, r, g.width).coeffs| != g.Height()
  {
    if rows > 0 {
      RowMarkers(g, rows - 1);
      RowErrors(g, rows - 1, g.width);
    }
  }

  /** A cell location `(r, c)` with `c != -1` is recorded exactly when the
      cell holds an item whose stripped text is blank or not a number;
      a cell without an item is never recorded. */
  lemma {:induction false} CellErrors(g: CellGrid, rows: nat)
    requires rows <= g.Height()
    ensures forall r, c :: c != -1 ==>
      ((r, c) in ScanRows(g, rows).errors <==>
        0 <= r < rows && 0 <= c < g.width && g.At(r, c) == Bad)
  {
    if rows > 0 {
      CellErrors(g, rows - 1);
      RowErrors(g, rows - 1, g.width);
    }
  }

  /** The cell of row `row` in the last column. */
  function LastCell(g: CellGrid, row: int): Cell {
    g.At(row, g.width - 1)
  }

  /** The right-hand side holds one value per row exactly when every row's
      last cell is a number, and then entry `r` is row `r`'s last cell. */
  lemma {:induction false} RhsComplete(g: CellGrid, rows: nat)
    requires rows <= g.Height()
    ensures |ScanRows(g, rows).rhs| == rows <==>
      forall r :: 0 <= r < rows ==> LastCell(g, r).Number?
    ensures |ScanRows(g, rows).rhs| == rows ==>
      forall r :: 0 <= r < rows ==> ScanRows(g, rows).rhs[r] == LastCell(g, r).value
  {
    if forall r :: 0 <= r < rows ==> LastCell(g, r).Number? {
      RhsFull(g, rows);
    }
    if |ScanRows(g, rows).rhs| == rows {
      RhsValues(g, rows);
    }
  }

  lemma {:induction false} RhsFull(g: CellGrid, rows: nat)
    requires rows <= g.Height()
    requires forall r :: 0 <= r < rows ==> LastCell(g, r).Number?
    ensures |ScanRows(g, rows).rhs| == rows
  {
    if rows > 0 {
      var row := rows - 1;
      RhsFull(g, row);
      RowRhs(g, row, g.width);
      assert ScanRows(g, rows).rhs == ScanRows(g, row).rhs + ScanRow(g, row, g.width).rhs;
      assert LastCell(g, row).Number?;
      assert g.width == 0 ==> LastCell(g, row) == Missing;
    }
  }

  lemma {:induction false} RhsValues(g: CellGrid, rows: nat)
    requires rows <= g.Height() && |ScanRows(g, rows).rhs| == rows
    ensures forall r :: 0 <= r < rows ==>
      LastCell(g, r).Number? && ScanRows(g, rows).rhs[r] == LastCell(g, r).value
  {
    if rows > 0 {
      var row := rows - 1;
      var prev := ScanRows(g, row);
      var p := ScanRow(g, row, g.width);
      var rhs := ScanRows(g, rows).rhs;
      RhsAtMost(g, row);
      RowRhs(g, row, g.width);
      assert rhs == prev.rhs + p.rhs;
      assert |p.rhs| == 1 && |prev.rhs| == row;
      RhsValues(g, row);
      forall r | 0 <= r < rows
        ensures LastCell(g, r).Number? && rhs[r] == LastCell(g, r).value
      {
        if r < row {
          assert rhs[r] == prev.rhs[r];
        } else {
          assert rhs[r] == p.rhs[0];
        }
      }
    }
  }

  /** At most one right-hand-side value per row. */
  lemma {:induction false} RhsAtMost(g: CellGrid, rows: nat)
    requires rows <= g.Height()
    ensures |ScanRows(g, rows).rhs| <= rows
  {
    if rows > 0 {
      RhsAtMost(g, rows - 1);
      RowRhs(g, rows - 1, g.width);
    }
  }




  // ---------------------------------------------------------------------
  // What `_collect_matrix` promises about the table

  /** The error list `_collect_matrix` builds for the table. */
  function Errors(t: Table): seq<Location> {
    ScanRows(Classify(t), t.RowCount()).errors
  }

  /** A cell location enters the error list exactly when the cell holds an
      item whose stripped text is blank or not a number. A missing item is
      skipped without an error. */
  lemma ErrorCells(t: Table)
    ensures forall r, c :: c != -1 ==>
      ((r, c) in Errors(t) <==>
        0 <= r < t.RowCount() && 0 <= c < t.columnCount && ReadCell(t, r, c) == Bad)
  {
    CellErrors(Classify(t), t.RowCount());
    forall r, c ensures Classify(t).At(r, c) == ReadCell(t, r, c) {
      ClassifyAt(t, r, c);
    }
  }

  /** On the grid the window generates (n rows, n + 1 columns), a row
      marker `(r, -1)` enters the error list exactly when some coefficient
      cell of row `r` is missing, blank or not a number. */
  lemma ErrorRowMarkers(t: Table)
    requires t.columnCount == t.RowCount() + 1
    ensures forall r :: (r, -1) in Errors(t) <==>
      0 <= r < t.RowCount() && exists c :: 0 <= c < t.RowCount() && !ReadCell(t, r, c).Number?
  {
    var g := Classify(t);
    var n := t.RowCount();
    RowMarkers(g, n);
    forall r | 0 <= r < n
      ensures |ScanRow(g, r, g.width).coeffs| != n <==>
        exists c :: 0 <= c < n && !ReadCell(t, r, c).Number?
    {
      RowCoeffs(g, r, g.width);
      forall c ensures g.At(r, c) == ReadCell(t, r, c) {
        ClassifyAt(t, r, c);
      }
      if forall c :: 0 <= c < n ==> ReadCell(t, r, c).Number? {
        RowCoeffsComplete(g, r, g.width);
      }
    }
  }

  /** After a failed collection exactly the blank and non-numeric cells are
      highlighted: the row markers are skipped. */
  lemma HighlightedCells(t: Table)
    ensures forall l :: l in MarkedCells(t, Errors(t)) <==>
      0 <= l.0 < t.RowCount() && 0 <= l.1 < t.columnCount && ReadCell(t, l.0, l.1) == Bad
  {
    ErrorCells(t);
  }

  /** On a grid of n rows and n + 1 columns, the scan records no error and
      one right-hand-side value per row exactly when every cell is a number;
      then each row has its n coefficients, in column order. */
  lemma {:induction false} FilledGrid(g: CellGrid)
    requires g.width == g.Height() + 1
    ensures var s := ScanRows(g, g.Height()); var n := g.Height();
      (|s.rhs| == n && s.errors == []) <==>
        forall r, c :: 0 <= r < n && 0 <= c <= n ==> g.At(r, c).Number?
    ensures var s := ScanRows(g, g.Height()); var n := g.Height();
      (forall r, c :: 0 <= r < n && 0 <= c <= n ==> g.At(r, c).Number?) ==>
        && |s.coeffs| == n && |s.rhs| == n
        && (forall r :: 0 <= r < n ==> LastCell(g, r) == Number(s.rhs[r]))
        && (forall r :: 0 <= r < n ==> |s.coeffs[r]| == n)
        && (forall r, c :: 0 <= r < n && 0 <= c < n ==>
              |s.coeffs[r]| == n && g.At(r, c) == Number(s.coeffs[r][c]))
  {
    var n := g.Height();
    if forall r, c :: 0 <= r < n && 0 <= c <= n ==> g.At(r, c).Number? {
      FilledScanValues(g);
    } else {
      GapRecorded(g);
    }
  }

  /** On a grid of numbers, the scan records no error, takes every last
      cell as a right-hand side and every other cell as a coefficient. */
  lemma FilledScanValues(g: CellGrid)
    requires g.width == g.Height() + 1
    requires forall r, c :: 0 <= r < g.Height() && 0 <= c <= g.Height() ==> g.At(r, c).Number?
    ensures var s := ScanRows(g, g.Height()); var n := g.Height();
      && |s.coeffs| == n && |s.rhs| == n && s.errors == []
      && (forall r :: 0 <= r < n ==> LastCell(g, r) == Number(s.rhs[r]))
      && (forall r :: 0 <= r < n ==> |s.coeffs[r]| == n)
      && (forall r, c :: 0 <= r < n && 0 <= c < n ==>
            |s.coeffs[r]| == n && g.At(r, c) == Number(s.coeffs[r][c]))
  {
    var n := g.Height();
    var s := ScanRows(g, n);
    RhsComplete(g, n);
    ScanRowsShape(g, n);
    forall r | 0 <= r < n
      ensures |ScanRow(g, r, g.width).coeffs| == n
      ensures forall c :: 0 <= c < n ==> ScanRow(g, r, g.width).coeffs[c] == g.At(r, c).value
    {
      RowCoeffsComplete(g, r, g.width);
      RowCoeffs(g, r, g.width);
    }
    assert forall r :: 0 <= r < n ==> LastCell(g, r).Number?;
    FilledWithoutErrors(g, n);
  }

  /** A cell that is not a number leaves a trace: an error, or a row
      without a right-hand side. */
  lemma GapRecorded(g: CellGrid)
    requires g.width == g.Height() + 1
    requires exists r, c :: 0 <= r < g.Height() && 0 <= c <= g.Height() && !g.At(r, c).Number?
    ensures var s := ScanRows(g, g.Height()); |s.rhs| != g.Height() || s.errors != []
  {
    var n := g.Height();
    var s := ScanRows(g, n);
    var r, c :| 0 <= r < n && 0 <= c <= n && !g.At(r, c).Number?;
    if c == n {
      RhsComplete(g, n);
      assert !LastCell(g, r).Number?;
    } else {
      RowMarkers(g, n);
      RowCoeffs(g, r, g.width);
      assert (r, -1) in s.errors;
    }
  }

  /** A row whose cells are all numbers records no error. */
  lemma {:induction false} RowWithoutErrors(g: CellGrid, row: int, cols: nat)
    requires cols <= g.width
    requires forall c :: 0 <= c < cols ==> g.At(row, c).Number?
    ensures ScanRow(g, row, cols).errors == []
  {
    if cols > 0 {
      RowWithoutErrors(g, row, cols - 1);
    }
  }

  /** A filled grid of n rows and n + 1 columns records no error. */
  lemma {:induction false} FilledWithoutErrors(g: CellGrid, rows: nat)
    requires rows <= g.Height() && g.width == g.Height() + 1
    requires forall r, c :: 0 <= r < rows && 0 <= c < g.width ==> g.At(r, c).Number?
    ensures ScanRows(g, rows).errors == []
  {
    if rows > 0 {
      FilledWithoutErrors(g, rows - 1);
      RowWithoutErrors(g, rows - 1, g.width);
      RowCoeffsComplete(g, rows - 1, g.width);
    }
  }

  /** On the grid the window generates, collection succeeds exactly when
      every cell holds a number. */
  lemma CollectSucceedsIffFilled(t: Table)
    requires t.columnCount == t.RowCount() + 1
    ensures Collect(t).Some? <==>
      forall r, c :: 0 <= r < t.RowCount() && 0 <= c <= t.RowCount() ==> ReadCell(t, r, c).Number?
  {
    FilledGrid(Classify(t));
    forall r, c ensures Classify(t).At(r, c) == ReadCell(t, r, c) {
      ClassifyAt(t, r, c);
    }
  }

  /** `am` is the system the table shows: coefficient `(r, c)` is the
      number in cell `(r, c)` and right-hand-side entry `r` the number in
      the last column of row `r`. */
  predicate ShowsSystem(t: Table, am: AugmentedMatrix) {
    ShowsRhs(t, am.rhs) && ShowsCoefficients(t, am.coefficients)
  }

  /** `rhs` is the last column of the table: entry `r` is the number in
      cell `(r, n)` of the n-row table. */
  predicate ShowsRhs(t: Table, rhs: seq<real>) {
    var n := t.RowCount();
    && |rhs| == n
    && (forall r :: 0 <= r < n ==> ReadCell(t, r, n) == Number(rhs[r]))
  }

  /** `coeffs` is the n by n block of the n-row table: coefficient `(r, c)`
      is the number in cell `(r, c)`. */
  predicate ShowsCoefficients(t: Table, coeffs: seq<seq<real>>) {
    var n := t.RowCount();
    && |coeffs| == n
    && (forall r, c :: 0 <= r < n && 0 <= c < n ==>
          |coeffs[r]| == n && ReadCell(t, r, c) == Number(coeffs[r][c]))
  }

  /** On the grid the window generates, a collected system is the grid
      itself. */
  lemma CollectKeepsPositions(t: Table)
    requires t.columnCount == t.RowCount() + 1 && Collect(t).Some?
    ensures ShowsSystem(t, Collect(t).value)
  {
    var g := Classify(t);
    var n := t.RowCount();
    var s := ScanRows(g, n);
    assert Collect(t).value == AugmentedMatrix(s.coeffs, s.rhs);
    assert forall r, c {:trigger ReadCell(t, r, c)} :: g.At(r, c) == ReadCell(t, r, c) by {
      forall r, c ensures g.At(r, c) == ReadCell(t, r, c) {
        ClassifyAt(t, r, c);
      }
    }
    FilledScanShowsSystem(t, g);
  }

  /** `CollectKeepsPositions` on any grid that reads like the table. */
  lemma FilledScanShowsSystem(t: Table, g: CellGrid)
    requires g.Height() == t.RowCount() && g.width == t.columnCount == t.RowCount() + 1
    requires forall r, c {:trigger ReadCell(t, r, c)} :: g.At(r, c) == ReadCell(t, r, c)
    requires |ScanRows(g, g.Height()).rhs| == g.Height() && ScanRows(g, g.Height()).errors == []
    ensures ShowsSystem(t, AugmentedMatrix(ScanRows(g, g.Height()).coeffs, ScanRows(g, g.Height()).rhs))
  {
    RhsOfFilledScan(t, g);
    CoeffsOfFilledScan(t, g);
  }

  /** The right-hand side of a filled scan, read back from the table. */
  lemma RhsOfFilledScan(t: Table, g: CellGrid)
    requires g.Height() == t.RowCount() && g.width == t.columnCount == t.RowCount() + 1
    requires forall r, c {:trigger ReadCell(t, r, c)} :: g.At(r, c) == ReadCell(t, r, c)
    requires |ScanRows(g, g.Height()).rhs| == g.Height() && ScanRows(g, g.Height()).errors == []
    ensures ShowsRhs(t, ScanRows(g, g.Height()).rhs)
  {
    FilledGrid(g);
    assert forall r :: 0 <= r < g.Height() ==> LastCell(g, r) == g.At(r, g.Height());
  }

  /** The coefficients of a filled scan, read back from the table. */
  lemma CoeffsOfFilledScan(t: Table, g: CellGrid)
    requires g.Height() == t.RowCount() && g.width == t.columnCount == t.RowCount() + 1
    requires forall r, c {:trigger ReadCell(t, r, c)} :: g.At(r, c) == ReadCell(t, r, c)
    requires |ScanRows(g, g.Height()).rhs| == g.Height() && ScanRows(g, g.Height()).errors == []
    ensures ShowsCoefficients(t, ScanRows(g, g.Height()).coeffs)
  {
    FilledGrid(g);
    var n := g.Height();
    var s := ScanRows(g, n);
    assert forall r, c :: 0 <= r < n && 0 <= c <= n ==> g.At(r, c).Number?;
    assert |s.coeffs| == n;
    forall r, c | 0 <= r < n && 0 <= c < n
      ensures |s.coeffs[r]| == n && ReadCell(t, r, c) == Number(s.coeffs[r][c])
    {
      assert |s.coeffs[r]| == n;
      assert g.At(r, c) == Number(s.coeffs[r][c]);
    }
  }
}
