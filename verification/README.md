# SimpleExcel core in Dafny

This project models the cell engine of SimpleExcel, a small C++ spreadsheet,
and proves properties of that model. Three parts are modelled:

- **Position labels** (`src/structures.cpp`). `Position::ToString` turns a
  zero-based (row, column) pair into a label such as `C137`.
  `Position::FromString` parses a label back. It returns `Position::NONE`
  for anything malformed or out of bounds. The model proves both round trips.
- **Cells and their dependency graph** (`src/cell.h`, `src/cell.cpp`).
  - A cell holds Empty, Text or Formula content.
  - A formula records the positions it reads.
  - Each cell records the formulas that read it (`binding_cells_`).
  - `Cell::Set` classifies the text and runs a depth-first cycle search.
    That search creates blank cells for positions that hold none. It then
    clears the old content (invalidating every transitive reader's cache,
    then unbinding), stores the new content, and binds.
  - `Cell::GetReferencedCells` lists everything a formula reads, directly
    or indirectly.
- **The sheet** (`src/sheet.cpp`). A grow-only list of rows of optional
  cells, with bounds checks, `SetCell` (which creates the cell on first use
  and re-enters itself), `ClearCell` and the printable size.

The earlier revision under `ast/` is modelled too. There a cell's `Set`
replaces its content wholesale with no dependency tracking, and
`PrintTexts` writes the tab-separated dump with an explicit loop.

Modules, one per concept:

| file | module | models |
|---|---|---|
| errors.dfy | `Errors` | the three exceptions, `Option`, `Result`, and `Outcome` (the state a call leaves plus the exception it raised, if any) |
| positions.dfy | `Positions` | the label codec |
| cell_values.dfy | `CellValues` | the value variants and `CreateCell`'s classification, shared by both revisions |
| graphs.dfy | `Graphs` | paths, reachability and breadth-first closure over `map<Position, set<Position>>` |
| storage.dfy | `Storage` | the row list (`Grid`, generic in what a slot holds), `GetCell`, `ResizeSheetList`, `ClearCell`, `CreatePrintableSize` |
| cells.dfy | `Cells` | the dependency graph: cycle search, invalidation, unbind/bind, `Cell::Set`, `GetReferencedCells` |
| sheets.dfy | `Sheets` | `Sheet::SetCell` and the invariant over any sequence of calls |
| ast_cells.dfy | `AstCells` | the cell of the earlier revision |
| ast_sheets.dfy | `AstSheets` | the sheet of the earlier revision and `PrintTexts` |

How the model represents the source:

- Cells are keyed by position instead of by address. A cell's dependents are
  a `set<Position>`.
- The formula parser is a parameter `parse: string -> Option<Parsed>`.
  - On success it returns the canonical expression and the referenced
    positions.
  - `None` stands for the `FormulaException` it throws.
- Exceptions become an `Outcome`. It carries the state the call leaves
  behind, because the source does not roll back the cells its cycle search
  created.
- The main invariant is `Cells.WellFormed`:
  - every cell has a slot;
  - every position a formula reads holds a cell;
  - the recorded dependents are exactly the formulas that read a cell;
  - the reference graph is acyclic.

Behaviour of the code that a reader might not expect:

- `Cell::GetReferencedCells` (src/cell.cpp:53-61, 77-88) lists every cell a
  formula reaches, in depth-first order. It does not list only the direct
  references.
- `Sheet::ClearCell` (src/sheet.cpp:46-51) destroys the cell without
  unbinding it. So clearing is not the same as setting the empty text.
- A rejected `Set` can still leave new blank cells and grown storage. The
  cycle search created them (src/cell.cpp:97-100).
- A formula that names an invalid position fails with `InvalidPosition`,
  from `Sheet::GetCell` inside the cycle search (src/cell.cpp:93).

## Model

| member | source | states |
|---|---|---|
| Positions.Equal | src/structures.cpp:116-118 | two positions compare equal exactly when they are the same position |
| Positions.IsValid | src/structures.cpp:124-126 | a position is valid when both coordinates lie in 0..16383; `NoPositionIsInvalid` shows `NONE` never is, and `LargestLabel` names the last valid position |
| Positions.Less | src/structures.cpp:120-122 | row-major comparison; `LessIsStrictTotalOrder` proves it a strict total order whose equality is `==` |
| Positions.LessIsStrictTotalOrder | src/structures.cpp:120-122 | `<` on (row, col) tuples is irreflexive, asymmetric, transitive and total |
| Positions.NoPositionIsInvalid | src/structures.cpp:15 | `NONE` is not a valid position and differs from every valid one |
| Positions.IndexOf | src/structures.cpp:67-70 | the index of an upper-case letter is in 0..25 and maps back to the same letter |
| Positions.ColToString | src/structures.cpp:50-60 | the loop yields one or more capitals, equal to the recursive label `ColLabel`, the definition `ColRoundTrip` and `ColCanonical` prove to be a bijection with the columns |
| Positions.ToString | src/structures.cpp:32-37 | an invalid position gives ""; a valid one gives 1-3 capitals followed by a decimal number with no leading zero |
| Positions.RowLabel | src/structures.cpp:46-48 | the row label is a decimal numeral without a leading zero that reads back as the one-based row |
| Positions.FirstDigit | src/structures.cpp:20 | the split point is the first digit, or the end when there is none |
| Positions.IsValidString | src/structures.cpp:82-87 | an accepted letter prefix has at most three capitals, and a non-empty one is exactly the label of the column it decodes to |
| Positions.IsValidNumber | src/structures.cpp:89-97 | an accepted suffix is at most 17 digits; apart from "0" it has no leading zero, denotes at least 1 and is the canonical numeral of its value |
| Positions.LettersToCol | src/structures.cpp:103-108 | the last letter is the column's lowest base-26 digit, and a single letter is exactly a column below 26; `ColRoundTrip` and `ColCanonical` prove decoding inverse to `ColLabel` |
| Positions.CreatePosition | src/structures.cpp:99-111 | the column's label is the letter prefix, and digits without a leading zero are exactly the row's label |
| Positions.FromString | src/structures.cpp:19-30 | every result is a valid position or exactly `NONE` |
| Positions.DecimalRoundTrip | src/structures.cpp:46-48 | reading back the decimal row number gives the number |
| Positions.ColRoundTrip | src/structures.cpp:99-111 | decoding a column label gives the column back |
| Positions.ColCanonical | src/structures.cpp:99-111 | every string of capitals is the label of the column it decodes to |
| Positions.RoundTrip | src/structures.cpp:19-37 | `FromString(ToString(p)) == p` for every valid position |
| Positions.CanonicalLabels | src/structures.cpp:19-37 | any string that decodes to a position is exactly that position's label |
| Positions.EmptyLabelIffInvalid | src/structures.cpp:32-35 | `ToString` gives "" if and only if the position is invalid |
| Positions.HalfLabelsRejected | src/structures.cpp:20-23 | "", "A" and "1" decode to `NONE` |
| Positions.RowZeroRejected | src/structures.cpp:27-29 | "A0" passes the digit check but decodes to row -1 and so to `NONE` |
| Positions.MalformedPartsRejected | src/structures.cpp:82-97 | lower case, signs, interleaved digits, four letters and a leading zero all decode to `NONE` |
| Positions.KnownLabels | src/main.cpp:207-231 | A1, Z1, AA1, ZZ1, AAA1 and C137 label the expected positions |
| Positions.LargestLabel | src/structures.cpp:124-126 | "XFD16384" is the label of the last valid position, both ways |
| Positions.PastLastRowRejected | src/structures.cpp:124-126 | "XFD16385" decodes to `NONE` |
| Positions.PastLastColumnRejected | src/structures.cpp:124-126 | "XFE16384" decodes to `NONE` |
| CellValues.Classify | src/cell.cpp:146-156 | "" is Empty; '=' plus at least one character is the parsed formula, or a syntax error when the parser rejects it; anything else, a lone "=" included, is Text kept verbatim |
| CellValues.GetText | src/cell.h:20-65 | the text of each kind of content; `PlainTextReadsBack` and `FormulaReadsBackCanonical` prove it reads back what `Classify` stored |
| CellValues.GetValue | src/cell.h:16-33 | Empty shows as ""; Text drops exactly one leading apostrophe; a formula yields its evaluated expression |
| CellValues.ResetCache | src/cell.cpp:122-126 | only a formula's cache is dropped; text, references and kind are unchanged |
| CellValues.SameUpToCacheKeepsText | src/cell.cpp:122-126 | contents equal up to the cache flag have equal text, references and kind |
| CellValues.PlainTextReadsBack | src/cell.h:35-37 | non-formula text reads back verbatim |
| CellValues.FormulaReadsBackCanonical | src/cell.h:63-65 | a formula reads back as '=' plus the parser's canonical expression |
| CellValues.EscapedTextValue | src/cell.h:31-33 | text starting with an apostrophe is stored verbatim and shows without the apostrophe |
| CellValues.ClassifyExamples | ast/main.cpp:64-83 | the cell-test cases: "", "=", "'", "'apostroph", "simple_text" |
| Graphs.ClosureIsReachable | src/cell.cpp:112-120 | the breadth-first closure from a set is exactly the set of nodes reachable from it |
| Storage.GetCell | src/sheet.cpp:35-44 | an invalid position throws; a found cell is the one stored at a slot that exists |
| Storage.GetCellFindsStored | src/sheet.cpp:35-44 | on a sheet whose cells all have slots, `GetCell` finds exactly the stored cells |
| Storage.Resize | src/sheet.cpp:79-88 | the row list reaches the position; no row or slot shrinks; other rows keep their length; no cell moves |
| Storage.ClearCell | src/sheet.cpp:46-51 | an invalid position throws; otherwise exactly that cell is removed and the row list keeps its shape |
| Storage.PrintableSize | src/sheet.cpp:90-110 | the result is the smallest rectangle from A1 that holds every occupied slot; each bound is reached by a cell |
| Storage.ClearingNeverGrows | src/sheet.cpp:90-110 | removing a cell never enlarges the printable size |
| Storage.ClearingLastColumnShrinks | src/main.cpp:191-192 | removing the only cell of the last column shrinks the printable width |
| Storage.PrintableSizeExample | src/main.cpp:175-192 | A1, A2, B2 give size {2,2}; without B2, {2,1} |
| Cells.EmptySheetWellFormed | src/sheet.cpp:13-14 | a new sheet satisfies the invariant |
| Cells.WellFormedMirrors | src/cell.cpp:128-144 | under the invariant, the dependents graph is the reference graph reversed |
| Cells.Materialize | src/cell.cpp:97-100 | creating a missing referenced cell installs exactly one blank cell and grows the storage to hold it |
| Cells.SearchCycle | src/cell.cpp:90-110 | the search only adds blank cells and only grows the storage |
| Cells.CheckCycle | src/cell.cpp:22-25 | the check only adds blank cells, only grows the storage and keeps every cell in a slot; non-formula content passes at once, with only the cell itself visited |
| Cells.NoCycleExplored | src/cell.cpp:90-110 | when no cycle is found, every reference is present, visited and not the cell itself, and so are those of every formula visited |
| Cells.SearchChecksValidity | src/cell.cpp:93 | when no cycle is found, every reference was a valid position |
| Cells.CycleFoundIsReal | src/cell.cpp:94-96 | a reported cycle is a real path from the new references back to the cell |
| Cells.SearchMeetsOnlyValid | src/cell.cpp:93 | if all references are valid positions, the search never fails on one |
| Cells.CycleCheckExact | src/cell.cpp:90-110 | with valid references, a cycle is reported if and only if the cell is reachable from its new references |
| Cells.NoCycleFindsNoPath | src/cell.cpp:90-110 | when no cycle is reported, no path leads from the new references back to the cell |
| Cells.ExtendsKeepsWellFormed | src/cell.cpp:97-100 | adding blank cells keeps the invariant |
| Cells.InvalidatedAreReachable | src/cell.cpp:112-120 | the invalidation walk visits exactly the cells reachable along recorded dependents, the start excluded |
| Cells.Invalidated | src/cell.cpp:112-120 | the cell being changed is never in its own invalidated set; `InvalidatedAreReachable` gives the set exactly |
| Cells.InvalidatesExactlyReaders | src/cell.cpp:112-120 | under the invariant, the invalidated cells are exactly the formulas that read the cell, directly or indirectly |
| Cells.InvalidateDependents | src/cell.cpp:112-126 | invalidated cells lose their cache, others are untouched; dependents are unchanged |
| Cells.Unbind | src/cell.cpp:128-135 | the cell stops being a dependent of exactly the positions it read |
| Cells.Bind | src/cell.cpp:137-144 | the cell becomes a dependent of exactly the positions it reads |
| Cells.UnbindThenBind | src/cell.cpp:128-144 | binding after unbinding the same references restores every dependents set |
| Cells.ClearContent | src/cell.cpp:31-39 | clearing leaves the cell Empty and keeps every slot |
| Cells.Commit | src/cell.cpp:26-28 | after the commit the cell holds the new content |
| Cells.CommitReferences | src/cell.cpp:26-28 | after the commit the cell reads exactly the new references; nobody else's references change |
| Cells.CommitRedirects | src/cell.cpp:26-28 | the commit replaces the cell's outgoing edges in the reference graph and nothing else |
| Cells.CommitDependents | src/cell.cpp:26-28 | after the commit the cell is a dependent of exactly the cells it now reads; other dependents are unchanged |
| Cells.CommitKeepsWellFormed | src/cell.cpp:26-28 | committing references to present cells that cannot reach back keeps the invariant |
| Cells.CheckCyclePassed | src/cell.cpp:22-25 | a passed check means every new reference holds a cell, is valid and cannot reach back |
| Cells.Set | src/cell.cpp:20-29 | a syntax error raises exactly when classification fails; plain text never raises; a failure only adds blank cells; success stores the classified content; other cells' contents change at most in their cache flag |
| Cells.SetKeepsWellFormed | src/cell.cpp:20-29 | `Set` keeps the invariant, whether it succeeds or raises |
| Cells.SetRefusesExactlyCycles | src/cell.cpp:22-25 | with valid references, `Set` raises a circular dependency if and only if the cell is reachable from its new references |
| Cells.SetRejectsInvalidReference | src/cell.cpp:93 | a formula naming an invalid position never commits |
| Cells.SetInvalidatesReaders | src/cell.cpp:31-35 | after a successful `Set`, every formula that read the cell lost its cache and no other cell's content changed |
| Cells.SetRewiresReferences | src/cell.cpp:26-28 | after a successful `Set` the cell reads exactly what its new content reads |
| Cells.SetEmptyIsClear | src/cell.cpp:20-39 | setting the empty text is `Clear` |
| Cells.ListRefs | src/cell.cpp:77-88 | the visited set only grows; `ListingDistinct` and `ListedAreReachable` state what is listed |
| Cells.ListingDistinct | src/cell.cpp:77-88 | the depth-first listing names no position twice |
| Cells.ListedAreReachable | src/cell.cpp:77-88 | every listed position is reachable from the starting references |
| Cells.ReferencedCellsExact | src/cell.cpp:53-61 | `GetReferencedCells` lists each position the cell reaches in one or more steps exactly once, and nothing else |
| Cells.GetReferencedCells | src/cell.cpp:53-61 | a formula's depth-first listing from its own references, and nothing for other content; `ReferencedCellsExact` proves it lists exactly the reachable positions once each |
| Cells.IsReferencedIffListed | src/cell.cpp:63-68 | a cell is referenced exactly when `GetReferencedCells` lists something |
| Cells.IsReferenced | src/cell.cpp:63-68 | a cell is referenced when it holds a formula with at least one reference; `IsReferencedIffListed` ties it to `GetReferencedCells` |
| Cells.IsCacheValid | src/cell.cpp:70-75 | only a formula can report a valid cache; `SetLeavesNoStaleCache` shows none does right after a successful `Set` |
| Cells.SetLeavesNoStaleCache | src/cell.cpp:70-75 | after a successful `Set`, neither the cell nor any formula reading it holds a valid cache |
| Sheets.SetCell | src/sheet.cpp:19-30 | an invalid position raises and changes nothing; otherwise the position holds a cell afterwards and the storage only grows |
| Sheets.SetCellDelegates | src/sheet.cpp:19-30 | `SetCell` is `Cell::Set` on the existing cell, or on a new blank cell installed first |
| Sheets.SetCellKeepsOtherTexts | src/sheet.cpp:19-30 | no cell disappears and every other cell keeps its text |
| Sheets.SetCellPlainText | src/main.cpp:140-163 | plain text is stored as typed and `GetCell` then reads it back |
| Sheets.FailedFirstSetLeavesBlank | src/sheet.cpp:26-29 | a first `SetCell` that raises still leaves a blank cell and changes no existing one |
| Sheets.ClearBlankIsNoop | src/cell.cpp:31-39 | clearing a blank cell changes nothing |
| Sheets.SetEmptyMaterializes | src/cell.cpp:97-100 | the cycle search's `SetCell(pos, "")` on an empty slot is exactly installing a blank cell |
| Sheets.SetCellKeepsWellFormed | src/sheet.cpp:19-30 | `SetCell` keeps the invariant, whether it succeeds or raises |
| Sheets.Replay | src/sheet.cpp:19-30 | replaying `SetCell` calls only grows the storage and keeps every cell in a slot |
| Sheets.ReplayKeepsWellFormed | src/sheet.cpp:19-30 | the invariant holds after any sequence of `SetCell` calls |
| Sheets.NeverCyclic | src/tests_example.cpp:168-191 | from a new sheet, no sequence of `SetCell` calls yields a formula that reads itself, and every formula reads only existing cells |
| Sheets.ClearUnlinkedCellKeepsWellFormed | src/sheet.cpp:46-51 | clearing a cell that nothing reads and that reads nothing keeps the invariant |
| Sheets.ClearReadCellBreaksInvariant | src/sheet.cpp:46-51 | clearing a cell some formula reads leaves that formula pointing at an empty slot |
| Sheets.ReferencedCellsExample | src/tests_example.cpp:193-220 | A3 lists A2 then A1 and A2 lists A1; after A2 is set to "=3" through `Set`, A3 lists only A2 and A2 lists nothing |
| AstCells.NewCell | ast/cell.cpp:8-10 | a new cell has text "" and value "" |
| AstCells.CellText | ast/cell.cpp:34-36 | the cell's text is its value's text; `SetTextReadsBack` and `TextToFormulaSwitch` prove it reads back what `Set` stored |
| AstCells.CellValue | ast/cell.cpp:30-32 | the cell's value is its content's value; `NewCell`, `Clear` and `CellExamples` state it for a new cell, a cleared cell and the cell-test cases |
| AstCells.CellFromText | ast/cell.cpp:12-14 | constructing from text holds the classified value, or raises a syntax error |
| AstCells.SetText | ast/cell.cpp:19-21 | `Set` replaces the value with the classified text; a syntax error leaves the cell unchanged |
| AstCells.Clear | ast/cell.cpp:23-28 | `Clear` leaves a new, Empty cell whatever it held |
| AstCells.SetTextReadsBack | ast/cell.h:33-35 | non-formula text reads back verbatim whatever the cell held |
| AstCells.TextToFormulaSwitch | ast/main.cpp:89-95 | a text cell switches to a formula that reads back canonically |
| AstCells.CellExamples | ast/main.cpp:64-99 | the cell-test cases: "'=1+2", "=", "=1+2", and switching "1+2" to "=1/0" |
| AstSheets.SetCell | ast/sheet.cpp:19-28 | an invalid position raises and changes nothing; success stores the classified value; a syntax error leaves every cell as it was; other cells never change |
| AstSheets.SetThenGet | ast/sheet.cpp:99-108 | after a successful `SetCell`, `GetCell` finds the classified value |
| AstSheets.SetCellIgnoresPrevious | ast/sheet.cpp:19-28 | what a successful `SetCell` stores does not depend on what the sheet held |
| AstSheets.SetThenClearRestores | ast/sheet.cpp:37-42 | setting an empty slot and clearing it restores the cells while the storage stays grown |
| AstSheets.ClearIdempotent | ast/sheet.cpp:37-42 | clearing twice is clearing once |
| AstSheets.PrintTexts | ast/sheet.cpp:64-79 | the dump covers the printable rectangle: a tab before every slot but the first, each occupied slot's text, a newline per row |
| AstSheets.PrintRows | ast/sheet.cpp:66-78 | the row loop produces exactly the reference dump `Dump` (every row, each followed by a newline), whose newlines and tabs `DumpLines` and `DumpTabs` count |
| AstSheets.PrintRow | ast/sheet.cpp:67-76 | the column loop, steered by its `is_first` flag, produces exactly the reference row `Line`: slot texts joined by single tabs, whose tabs `LineTabs` counts |
| AstSheets.LineTabs | ast/sheet.cpp:68-72 | a row of n slots holds n - 1 tabs when no text holds a tab |
| AstSheets.DumpLines | ast/sheet.cpp:77 | the dump has one newline per row when no text holds one |
| AstSheets.DumpTabs | ast/sheet.cpp:64-79 | the dump of k + 1 columns holds k tabs per row when no text holds one |
| AstSheets.PrintSheetExample | src/main.cpp:175-179 | the printing test's three `SetCell` calls build the expected sheet |
| AstSheets.PrintExample | src/main.cpp:181-185 | that sheet has size {2,2} and prints "=1/0\t\nmeow\t=1+2\n" |

## Left out

- Formula parsing and evaluation are not modelled. The parser is a parameter, and a formula's value is its expression. Number formatting, `FormulaError` values and `GetRawValue` are left out too.
- `PrintValues`, the `Printer` helper and the stream output are left out; `PrintTexts` is modelled as the string it writes.
- `CreateSheet` and the constructors and destructors are modelled only as the empty sheet and the blank cell.
- Positions.FromString: a digit suffix above 2147483647 passes the 17-digit check. `std::stoi` then throws `out_of_range` in the source. The model reads the number exactly and returns `NONE`.
- Positions.LettersToCol: the source computes powers of 26 in floating point (`std::pow`). With at most three letters these are exact, so the model uses integers.
- Sheets.ReplayKeepsWellFormed: the invariant is proved over sequences of `SetCell` only. `Sheet::ClearCell` does not unbind, so it can leave dangling dependents and references. That case is stated by ClearReadCellBreaksInvariant and ClearUnlinkedCellKeepsWellFormed.
- Cells.Unbind: an absent referenced cell is a null dereference in the source. The model skips it, which cannot happen under the invariant.
- Cells.ListRefs: an absent position is a null cell in the source. All such positions share one `visited` entry, and the source dereferences it. The model lists each absent position once and does not descend. Under the invariant there are none.
- Cells.SearchCycle: the search does not descend into a cell it has just created, or into other non-formula cells. The source does call into them, but they read nothing, so they return at once.
- Cells are identified by position rather than by address. The iteration order of `binding_cells_` (an unordered set) is not modelled, because invalidation only depends on the set visited.
- The formula cache is a flag. The cached value itself is not modelled.
- A formula's references and cache flag are also carried in the earlier revision's cells, where nothing reads them.
