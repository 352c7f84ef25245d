/** The sheet of the earlier revision (ast/sheet.cpp): the same grow-only row
    list as src/sheet.cpp, holding cells of ast/cell.cpp, with no dependency
    tracking, and the tab-separated text dump. */
module AstSheets {
  import opened Errors
  import opened Positions
  import opened CellValues
  import opened Storage
  import opened AstCells

  type AstSheet = Grid<AstCell>

  const EmptyAstSheet: AstSheet := Grid([], map[])

  /** `Sheet::SetCell`: an invalid position throws.  An existing cell gets
      `Cell::Set(text)`.  Otherwise the row list grows first and then
      `Cell(text)` is installed; when that constructor throws, the grown
      storage stays and the slot stays empty. */
  function SetCell(s: AstSheet, pos: Position, text: string, parse: Parser): (r: Outcome<AstSheet>)
    ensures !IsValid(pos) ==> r == Outcome(s, Some(InvalidPosition))
    ensures IsValid(pos) ==> (r.raised.Some? <==> Classify(text, parse).Err?)
    ensures IsValid(pos) && r.raised.Some? ==> r.raised == Some(FormulaSyntax) && r.state.cells == s.cells
    ensures r.raised.None? ==> pos in r.state.cells && r.state.cells[pos].impl == Classify(text, parse).value
    ensures forall q :: q != pos ==> (q in r.state.cells <==> q in s.cells)
    ensures forall q :: q != pos && q in s.cells ==> r.state.cells[q] == s.cells[q]
    ensures Grows(s.widths, r.state.widths)
    ensures Fits(s) ==> Fits(r.state)
  {
    if !IsValid(pos) then Outcome(s, Some(InvalidPosition))
    else if GetCell(s, pos).value.Some? then
      var done := SetText(s.cells[pos], text, parse);
      Outcome(Grid(s.widths, s.cells[pos := done.state]), done.raised)
    else
      var grown := Resize(s, pos);
      match CellFromText(text, parse)
      case Ok(c) => Outcome(Grid(grown.widths, grown.cells[pos := c]), None)
      case Err(e) => Outcome(grown, Some(e))
  }

  /** What `SetCell` stores is what `GetCell` finds. */
  lemma SetThenGet(s: AstSheet, pos: Position, text: string, parse: Parser)
    requires Fits(s) && IsValid(pos)
    requires SetCell(s, pos, text, parse).raised.None?
    ensures GetCell(SetCell(s, pos, text, parse).state, pos) == Ok(Some(AstCell(Classify(text, parse).value)))
  {
    GetCellFindsStored(SetCell(s, pos, text, parse).state, pos);
  }

  /** `SetCell` on an existing cell is `Cell::Set`, on an empty slot it is
      `Cell(text)`; either way the previous content is forgotten. */
  lemma SetCellIgnoresPrevious(s: AstSheet, t: AstSheet, pos: Position, text: string, parse: Parser)
    requires Fits(s) && Fits(t) && IsValid(pos)
    requires SetCell(s, pos, text, parse).raised.None?
    ensures SetCell(t, pos, text, parse).raised.None?
    ensures SetCell(t, pos, text, parse).state.cells[pos] == SetCell(s, pos, text, parse).state.cells[pos]
  {
  }

  /** Setting an empty slot and clearing it again gives back the cells, while
      the storage keeps its new size. */
  lemma SetThenClearRestores(s: AstSheet, pos: Position, text: string, parse: Parser)
    requires Fits(s) && IsValid(pos) && pos !in s.cells
    ensures var r := SetCell(s, pos, text, parse).state;
      ClearCell(r, pos).Ok? && ClearCell(r, pos).value.cells == s.cells && Grows(s.widths, ClearCell(r, pos).value.widths)
  {
    var r := SetCell(s, pos, text, parse).state;
    assert r.cells - {pos} == s.cells;
  }

  /** Clearing twice is clearing once. */
  lemma ClearIdempotent(s: AstSheet, pos: Position)
    requires Fits(s) && IsValid(pos)
    ensures ClearCell(ClearCell(s, pos).value, pos) == ClearCell(s, pos)
  {
    var once := ClearCell(s, pos).value;
    assert once.cells - {pos} == once.cells;
  }

  // ---------------------------------------------------------------------------
  // Printing the texts

  /** What is printed for one slot: the cell's text, or nothing for an empty
      slot. */
  function SlotText(s: AstSheet, p: Position): string {
    match GetCell(s, p)
    case Ok(Some(c)) => CellText(c)
    case _ => ""
  }

  /** Row `r` of the dump, up to column `cols`: the slot texts separated by
      tabs, without the newline. */
  function Line(s: AstSheet, r: int, cols: nat): string
    decreases cols
  {
    if cols == 0 then ""
    else Line(s, r, cols - 1) + (if cols > 1 then "\t" else "") + SlotText(s, Position(r, cols - 1))
  }

  /** The first `rows` rows of the dump, each ended by a newline. */
  function Dump(s: AstSheet, rows: nat, cols: nat): string
    decreases rows
  {
    if rows == 0 then "" else Dump(s, rows - 1, cols) + Line(s, rows - 1, cols) + "\n"
  }

  /** `Sheet::PrintTexts`: over the printable area, row by row, a tab before
      every slot but the first, the text of each occupied slot, and a
      newline after every row. */
  method PrintTexts(s: AstSheet) returns (size: Size, out: string)
    requires Fits(s)
    ensures IsBoundingSize(s.cells, size)
    ensures out == Dump(s, size.rows, size.cols)
  {
    size := PrintableSize(s);
    out := PrintRows(s, size.rows, size.cols);
  }

  /** The outer loop of `Sheet::PrintTexts`: every row, each followed by a
      newline. */
  method PrintRows(s: AstSheet, rows: nat, cols: nat) returns (out: string)
    ensures out == Dump(s, rows, cols)
  {
    out := "";
    var r: nat := 0;
    while r < rows
      invariant r <= rows
      invariant out == Dump(s, r, cols)
    {
      var line := PrintRow(s, r, cols);
      out := out + line + "\n";
      r := r + 1;
    }
  }

  /** The inner loop of `Sheet::PrintTexts`: one row, the tab written before
      every slot but the first. */
  method PrintRow(s: AstSheet, r: int, cols: nat) returns (line: string)
    ensures line == Line(s, r, cols)
  {
    line := "";
    var first := true;
    var c := 0;
    while c < cols
      invariant 0 <= c <= cols
      invariant first <==> c == 0
      invariant line == Line(s, r, c)
    {
      if !first {
        line := line + "\t";
      }
      first := false;
      var found := GetCell(s, Position(r, c));
      if found.Ok? && found.value.Some? {
        line := line + CellText(found.value.value);
      }
      c := c + 1;
    }
  }

  /** Occurrences of `ch` in `t`. */
  function Count(t: string, ch: char): nat {
    multiset(t)[ch]
  }

  /** No occupied slot's text contains `ch`. */
  ghost predicate TextsAvoid(s: AstSheet, ch: char) {
    forall p :: p in s.cells ==> Count(CellText(s.cells[p]), ch) == 0
  }

  lemma SlotTextAvoids(s: AstSheet, p: Position, ch: char)
    requires TextsAvoid(s, ch)
    ensures Count(SlotText(s, p), ch) == 0
  {
  }

  /** A row of `cols` slots holds `cols - 1` tabs when no text holds one. */
  lemma {:induction false} LineTabs(s: AstSheet, r: int, cols: nat)
    requires TextsAvoid(s, '\t')
    ensures Count(Line(s, r, cols), '\t') == if cols == 0 then 0 else cols - 1
    decreases cols
  {
    if cols > 0 {
      LineTabs(s, r, cols - 1);
      SlotTextAvoids(s, Position(r, cols - 1), '\t');
    }
  }

  /** A row holds no newline when no text holds one. */
  lemma {:induction false} LineNewlines(s: AstSheet, r: int, cols: nat)
    requires TextsAvoid(s, '\n')
    ensures Count(Line(s, r, cols), '\n') == 0
    decreases cols
  {
    if cols > 0 {
      LineNewlines(s, r, cols - 1);
      SlotTextAvoids(s, Position(r, cols - 1), '\n');
    }
  }

  /** Appending a row and its newline adds the row's count, plus one for
      the newline itself. */
  lemma CountRow(before: string, line: string, ch: char)
    ensures Count(before + line + "\n", ch) == Count(before, ch) + Count(line, ch) + (if ch == '\n' then 1 else 0)
  {
  }

  /** One more row adds one newline. */
  lemma DumpLinesStep(s: AstSheet, n: nat, cols: nat)
    requires TextsAvoid(s, '\n') && Count(Dump(s, n, cols), '\n') == n
    ensures Count(Dump(s, n + 1, cols), '\n') == n + 1
  {
    LineNewlines(s, n, cols);
    CountRow(Dump(s, n, cols), Line(s, n, cols), '\n');
  }

  /** The dump has exactly one line per printable row when no text holds a
      newline. */
  lemma {:induction false} DumpLines(s: AstSheet, rows: nat, cols: nat)
    requires TextsAvoid(s, '\n')
    ensures Count(Dump(s, rows, cols), '\n') == rows
    decreases rows
  {
    if rows > 0 {
      var n: nat := rows - 1;
      DumpLines(s, n, cols);
      DumpLinesStep(s, n, cols);
    }
  }

  /** One more row adds `k` tabs. */
  lemma DumpTabsStep(s: AstSheet, n: nat, k: nat, before: nat)
    requires TextsAvoid(s, '\t') && Count(Dump(s, n, k + 1), '\t') == before
    ensures Count(Dump(s, n + 1, k + 1), '\t') == before + k
  {
    LineTabs(s, n, k + 1);
    CountRow(Dump(s, n, k + 1), Line(s, n, k + 1), '\t');
  }

  lemma RowsTimes(rows: nat, k: nat)
    ensures (rows + 1) * k == rows * k + k
  {
  }

  /** The dump of `k + 1` columns has `k` tabs per row when no text holds a
      tab. */
  lemma {:induction false} DumpTabs(s: AstSheet, rows: nat, k: nat)
    requires TextsAvoid(s, '\t')
    ensures Count(Dump(s, rows, k + 1), '\t') == rows * k
    decreases rows
  {
    if rows > 0 {
      var n: nat := rows - 1;
      DumpTabs(s, n, k);
      var before: nat := n * k;
      DumpTabsStep(s, n, k, before);
      RowsTimes(n, k);
    }
  }

  /** The parser of the examples: it accepts every expression as written and
      reads no cell. */
  const Verbatim: Parser := (t: string) => Some(Parsed(t, []))

  /** The printing test: A2 "meow", B2 "=1+2" and A1 "=1/0" fill two rows,
      the first one slot wide and the second two. */
  lemma PrintSheetExample()
    ensures var s1 := SetCell(EmptyAstSheet, Position(1, 0), "meow", Verbatim).state;
      var s2 := SetCell(s1, Position(1, 1), "=1+2", Verbatim).state;
      SetCell(s2, Position(0, 0), "=1/0", Verbatim).state == PrintSheet
  {
    PrintSheetFirst();
    PrintSheetSecond();
    PrintSheetThird();
  }

  const MeowSheet: AstSheet := Grid([0, 1], map[Position(1, 0) := AstCell(Text("meow"))])

  const SumSheet: AstSheet :=
    Grid([0, 2], map[Position(1, 0) := AstCell(Text("meow")),
                     Position(1, 1) := AstCell(Formula("1+2", [], false))])

  lemma PrintSheetFirst()
    ensures SetCell(EmptyAstSheet, Position(1, 0), "meow", Verbatim).state == MeowSheet
  {
  }

  lemma PrintSheetSecond()
    ensures SetCell(MeowSheet, Position(1, 1), "=1+2", Verbatim).state == SumSheet
  {
    assert "=1+2"[1..] == "1+2";
  }

  lemma PrintSheetThird()
    ensures SetCell(SumSheet, Position(0, 0), "=1/0", Verbatim).state == PrintSheet
  {
    assert "=1/0"[1..] == "1/0";
  }

  /** The sheet the printing test builds. */
  const PrintSheet: AstSheet :=
    Grid([1, 2], map[Position(1, 0) := AstCell(Text("meow")),
                     Position(1, 1) := AstCell(Formula("1+2", [], false)),
                     Position(0, 0) := AstCell(Formula("1/0", [], false))])

  /** That sheet prints as "=1/0", tab, newline, "meow", tab, "=1+2",
      newline, over a two-by-two printable area. */
  lemma PrintExample()
    ensures IsBoundingSize(PrintSheet.cells, Size(2, 2))
    ensures Dump(PrintSheet, 2, 2) == "=1/0\t\nmeow\t=1+2\n"
  {
    assert Position(1, 1) in PrintSheet.cells;
    PrintExampleRows();
    var first := Line(PrintSheet, 0, 2);
    var second := Line(PrintSheet, 1, 2);
    assert Dump(PrintSheet, 1, 2) == first + "\n";
    assert Dump(PrintSheet, 2, 2) == first + "\n" + second + "\n";
  }

  /** The two rows of that sheet. */
  lemma PrintExampleRows()
    ensures Line(PrintSheet, 0, 2) == "=1/0\t"
    ensures Line(PrintSheet, 1, 2) == "meow\t=1+2"
  {
    var s := PrintSheet;
    assert SlotText(s, Position(0, 0)) == "=1/0";
    assert SlotText(s, Position(0, 1)) == "";
    assert SlotText(s, Position(1, 0)) == "meow";
    assert SlotText(s, Position(1, 1)) == "=1+2";
  }
}
