/** The storage of src/sheet.cpp: a list of rows of cell slots that grows on
    demand and never shrinks, its bounds checks, and the printable size.

    A row of `sheet_list_` is represented by its length (`widths`), and the
    occupied slots by a map from position to cell.  A cell is keyed by its
    position instead of its address; the dependents it records
    (`binding_cells_`) are positions too. */
module Storage {
  import opened Errors
  import opened Positions
  import opened CellValues

  /** A cell of the sheet: its value and the formulas that read it. */
  datatype Cell = Cell(content: Content, dependents: set<Position>)

  /** The cell `Sheet::SetCell` installs in an empty slot before setting the
      requested text: the constructor runs `Set("")` with no previous value,
      which leaves it Empty and unbound. */
  const BlankCell := Cell(Empty, {})

  /** `sheet_list_`, whatever its slots hold: row `r` has `widths[r]` slots,
      and `cells` holds the occupied ones.  Both revisions of the sheet use
      this storage; they differ in what a slot holds. */
  datatype Grid<C> = Grid(widths: seq<nat>, cells: map<Position, C>)

  /** The sheet of src/sheet.cpp. */
  type Sheet = Grid<Cell>

  /** `Size`: rows and columns of the printable area. */
  datatype Size = Size(rows: int, cols: int)

  const EmptySheet: Sheet := Grid([], map[])

  /** The slot of `p` exists in the row list. */
  predicate InStorage(widths: seq<nat>, p: Position) {
    0 <= p.row < |widths| && 0 <= p.col < widths[p.row]
  }

  /** Every occupied slot is a valid position with a slot in the row list. */
  ghost predicate Fits<C>(s: Grid<C>) {
    forall p :: p in s.cells ==> IsValid(p) && InStorage(s.widths, p)
  }

  /** Storage `after` keeps every row and slot of `before`. */
  ghost predicate Grows(before: seq<nat>, after: seq<nat>) {
    |before| <= |after| && forall i :: 0 <= i < |before| ==> before[i] <= after[i]
  }

  lemma GrowsTransitive(a: seq<nat>, b: seq<nat>, c: seq<nat>)
    requires Grows(a, b) && Grows(b, c)
    ensures Grows(a, c)
  {
  }

  /** `Sheet::GetCell`: an invalid position throws; a position beyond the
      stored rows or columns, or an empty slot, gives no cell. */
  function GetCell<C>(s: Grid<C>, p: Position): (r: Result<Option<C>>)
    ensures r.Err? <==> !IsValid(p)
    ensures r.Err? ==> r.error == InvalidPosition
    ensures r.Ok? && r.value.Some? ==> p in s.cells && r.value.value == s.cells[p]
    ensures r.Ok? && r.value.Some? ==> InStorage(s.widths, p)
  {
    if !IsValid(p) then Err(InvalidPosition)
    else if |s.widths| <= p.row then Ok(None)
    else if s.widths[p.row] <= p.col then Ok(None)
    else if p in s.cells then Ok(Some(s.cells[p]))
    else Ok(None)
  }

  /** On a sheet whose cells all have slots, `GetCell` finds exactly the
      stored cells. */
  lemma GetCellFindsStored<C>(s: Grid<C>, p: Position)
    requires Fits(s) && IsValid(p)
    ensures GetCell(s, p) == Ok(if p in s.cells then Some(s.cells[p]) else None)
  {
  }

  /** `ResizeSheetList`: extends the row list to reach `p.row`, and that row to
      reach `p.col`; nothing shrinks and no cell moves. */
  function Resize<C>(s: Grid<C>, p: Position): (r: Grid<C>)
    requires IsValid(p)
    ensures r.cells == s.cells
    ensures InStorage(r.widths, p)
    ensures Grows(s.widths, r.widths)
    ensures |r.widths| == if p.row < |s.widths| then |s.widths| else p.row + 1
    ensures forall i :: 0 <= i < |r.widths| && i != p.row ==>
              r.widths[i] == (if i < |s.widths| then s.widths[i] else 0)
    ensures p.row < |s.widths| && p.col < s.widths[p.row] ==> r.widths == s.widths
    ensures Fits(s) ==> Fits(r)
  {
    var rows := if |s.widths| <= p.row then s.widths + seq(p.row + 1 - |s.widths|, _ => 0) else s.widths;
    var widths := if rows[p.row] <= p.col then rows[p.row := p.col + 1] else rows;
    Grid(widths, s.cells)
  }

  /** `Sheet::ClearCell`: an invalid position throws; otherwise the slot is
      emptied if it holds a cell.  The row list keeps its shape, and the
      cells that recorded this one as a dependent or a reference are not
      told. */
  function ClearCell<C>(s: Grid<C>, p: Position): (r: Result<Grid<C>>)
    ensures r.Err? <==> !IsValid(p)
    ensures r.Err? ==> r.error == InvalidPosition
    ensures r.Ok? ==> r.value.widths == s.widths && r.value.cells.Keys <= s.cells.Keys
    ensures r.Ok? ==> forall q :: q in r.value.cells ==> r.value.cells[q] == s.cells[q]
    ensures r.Ok? && Fits(s) ==> r.value.cells == s.cells - {p} && Fits(r.value)
  {
    match GetCell(s, p)
    case Err(e) => Err(e)
    case Ok(found) => if found.Some? then Ok(Grid(s.widths, s.cells - {p})) else Ok(s)
  }

  // ---------------------------------------------------------------------------
  // Printable size

  /** `size` is the smallest rectangle anchored at A1 that holds every occupied
      slot: each bound is one past the last occupied row (column), and is
      reached by some cell. */
  ghost predicate IsBoundingSize<C>(cells: map<Position, C>, size: Size) {
    && size.rows >= 0 && size.cols >= 0
    && (forall p :: p in cells ==> p.row < size.rows && p.col < size.cols)
    && (size.rows == 0 || exists p :: p in cells && p.row == size.rows - 1)
    && (size.cols == 0 || exists p :: p in cells && p.col == size.cols - 1)
  }

  /** There is only one such rectangle. */
  lemma BoundingSizeUnique<C>(cells: map<Position, C>, a: Size, b: Size)
    requires IsBoundingSize(cells, a) && IsBoundingSize(cells, b)
    ensures a == b
  {
  }

  /** `CreatePrintableSize`: scans every slot row by row and keeps the last
      occupied row and the widest occupied column. */
  method PrintableSize<C>(s: Grid<C>) returns (size: Size)
    requires Fits(s)
    ensures IsBoundingSize(s.cells, size)
  {
    var row := 0;
    var col := 0;
    ghost var rowWitness := NoPosition;
    ghost var colWitness := NoPosition;
    var r := 0;
    while r < |s.widths|
      invariant 0 <= r <= |s.widths|
      invariant 0 <= row <= r && 0 <= col
      invariant forall p :: p in s.cells && p.row < r ==> p.row < row && p.col < col
      invariant row > 0 ==> rowWitness in s.cells && rowWitness.row == row - 1
      invariant col > 0 ==> colWitness in s.cells && colWitness.col == col - 1
    {
      var c := 0;
      while c < s.widths[r]
        invariant 0 <= c <= s.widths[r]
        invariant 0 <= row <= r + 1 && 0 <= col
        invariant forall p :: p in s.cells && p.row < r ==> p.row < row && p.col < col
        invariant forall p :: p in s.cells && p.row == r && p.col < c ==> p.row < row && p.col < col
        invariant row > 0 ==> rowWitness in s.cells && rowWitness.row == row - 1
        invariant col > 0 ==> colWitness in s.cells && colWitness.col == col - 1
      {
        if Position(r, c) in s.cells {
          if c + 1 > col {
            col := c + 1;
            colWitness := Position(r, c);
          }
          row := r + 1;
          rowWitness := Position(r, c);
        }
        c := c + 1;
      }
      r := r + 1;
    }
    size := Size(row, col);
  }

  /** Emptying a slot never enlarges the printable size. */
  lemma ClearingNeverGrows<C>(cells: map<Position, C>, p: Position, before: Size, after: Size)
    requires IsBoundingSize(cells, before) && IsBoundingSize(cells - {p}, after)
    ensures after.rows <= before.rows && after.cols <= before.cols
  {
  }

  /** Emptying the only occupied slot of the last printable column removes that
      column from the printable size. */
  lemma ClearingLastColumnShrinks<C>(cells: map<Position, C>, p: Position, before: Size, after: Size)
    requires IsBoundingSize(cells, before) && IsBoundingSize(cells - {p}, after)
    requires p in cells && IsValid(p) && p.col == before.cols - 1
    requires forall q :: q in cells && q != p ==> q.col < p.col
    ensures after.cols < before.cols
  {
  }

  /** The printing test: A1, A2 and B2 occupied give two rows and two
      columns; once B2 is emptied, one column remains. */
  lemma PrintableSizeExample(c: Cell)
    ensures IsBoundingSize(map[Position(0, 0) := c, Position(1, 0) := c, Position(1, 1) := c], Size(2, 2))
    ensures IsBoundingSize(map[Position(0, 0) := c, Position(1, 0) := c], Size(2, 1))
  {
    var m := map[Position(0, 0) := c, Position(1, 0) := c, Position(1, 1) := c];
    assert Position(1, 1) in m;
    var m2 := map[Position(0, 0) := c, Position(1, 0) := c];
    assert Position(1, 0) in m2;
  }
}
