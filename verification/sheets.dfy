/** The public operations of src/sheet.cpp on top of the dependency graph:
    `Sheet::SetCell`, which creates the cell on first use and delegates to
    `Cell::Set`, and the invariant the sheet keeps across any sequence of
    them. */
module Sheets {
  import opened Errors
  import opened Positions
  import opened CellValues
  import opened Graphs
  import opened Storage
  import opened Cells

  /** `Sheet::SetCell`: an invalid position throws.  An occupied slot gets
      `Cell::Set(text)`.  An empty slot gets the row list grown and a blank
      cell installed, and the call re-enters itself, which now finds the
      cell. */
  function SetCell(s: Sheet, pos: Position, text: string, parse: Parser): (r: Outcome<Sheet>)
    ensures !IsValid(pos) ==> r == Outcome(s, Some(InvalidPosition))
    ensures IsValid(pos) ==> pos in r.state.cells
    ensures Grows(s.widths, r.state.widths)
    ensures Fits(s) ==> Fits(r.state)
    decreases if IsValid(pos) && GetCell(s, pos).Ok? && GetCell(s, pos).value.Some? then 0 else 1
  {
    if !IsValid(pos) then Outcome(s, Some(InvalidPosition))
    else if GetCell(s, pos).value.Some? then Set(s, pos, text, parse)
    else
      var grown := Resize(s, pos);
      SetCell(Grid(grown.widths, grown.cells[pos := BlankCell]), pos, text, parse)
  }

  /** On a sheet whose cells all have slots, `SetCell` is `Cell::Set` on the
      existing cell, or on a freshly created blank one. */
  lemma SetCellDelegates(s: Sheet, pos: Position, text: string, parse: Parser)
    requires Fits(s) && IsValid(pos)
    ensures pos in s.cells ==> SetCell(s, pos, text, parse) == Set(s, pos, text, parse)
    ensures pos !in s.cells ==> SetCell(s, pos, text, parse) == Set(Materialize(s, pos), pos, text, parse)
  {
    GetCellFindsStored(s, pos);
    if pos !in s.cells {
      var m := Materialize(s, pos);
      GetCellFindsStored(m, pos);
      assert Grid(Resize(s, pos).widths, Resize(s, pos).cells[pos := BlankCell]) == m;
    }
  }

  /** Every cell that existed keeps its text, and no cell disappears. */
  lemma SetCellKeepsOtherTexts(s: Sheet, pos: Position, text: string, parse: Parser)
    requires Fits(s)
    ensures var r := SetCell(s, pos, text, parse).state;
      s.cells.Keys <= r.cells.Keys &&
      forall q :: q in s.cells && q != pos ==> GetText(r.cells[q].content) == GetText(s.cells[q].content)
  {
    if IsValid(pos) {
      SetCellDelegates(s, pos, text, parse);
      var r := SetCell(s, pos, text, parse).state;
      forall q | q in s.cells && q != pos
        ensures GetText(r.cells[q].content) == GetText(s.cells[q].content)
      {
        SameUpToCacheKeepsText(r.cells[q].content, s.cells[q].content);
      }
    }
  }

  /** Plain text is stored as typed: `SetCell` succeeds and `GetCell` then
      finds a cell whose text is exactly the input. */
  lemma SetCellPlainText(s: Sheet, pos: Position, text: string, parse: Parser)
    requires Fits(s) && IsValid(pos) && !IsFormulaText(text)
    ensures var r := SetCell(s, pos, text, parse);
      && r.raised == None
      && GetCell(r.state, pos).Ok? && GetCell(r.state, pos).value.Some?
      && GetText(GetCell(r.state, pos).value.value.content) == text
  {
    SetCellDelegates(s, pos, text, parse);
    var r := SetCell(s, pos, text, parse);
    GetCellFindsStored(r.state, pos);
    PlainTextReadsBack(text, parse);
  }

  /** A first `SetCell` that throws still leaves a blank cell at `pos`, and
      changes no cell that existed. */
  lemma FailedFirstSetLeavesBlank(s: Sheet, pos: Position, text: string, parse: Parser)
    requires Fits(s) && IsValid(pos) && pos !in s.cells
    requires SetCell(s, pos, text, parse).raised.Some?
    ensures var r := SetCell(s, pos, text, parse).state;
      pos in r.cells && r.cells[pos] == BlankCell &&
      forall q :: q in s.cells ==> q in r.cells && r.cells[q] == s.cells[q]
  {
    SetCellDelegates(s, pos, text, parse);
  }

  /** Clearing a blank cell changes nothing: nothing records it as read, so
      nothing is invalidated, and it reads nothing, so nothing is unbound. */
  lemma ClearBlankIsNoop(s: Sheet, pos: Position)
    requires pos in s.cells && s.cells[pos] == BlankCell
    ensures ClearContent(s, pos) == s
  {
    var g := DependentsGraph(s.cells);
    assert NextLayer(g, {pos}, {pos}) == {};
    assert Invalidated(s.cells, pos) == {};
    var invalidated := InvalidateDependents(s.cells, pos);
    assert forall q :: q in s.cells ==> invalidated[q] == s.cells[q];
    assert invalidated == s.cells;
  }

  /** `SetCell(pos, "")` on an empty slot, as the cycle check issues it, is
      exactly `Materialize`. */
  lemma SetEmptyMaterializes(s: Sheet, pos: Position, parse: Parser)
    requires Fits(s) && IsValid(pos) && pos !in s.cells
    ensures SetCell(s, pos, "", parse) == Outcome(Materialize(s, pos), None)
  {
    SetCellDelegates(s, pos, "", parse);
    var m := Materialize(s, pos);
    SetEmptyIsClear(m, pos, parse);
    ClearBlankIsNoop(m, pos);
  }

  /** `SetCell` keeps the invariant, whether it succeeds or throws. */
  lemma SetCellKeepsWellFormed(s: Sheet, pos: Position, text: string, parse: Parser)
    requires WellFormed(s)
    ensures WellFormed(SetCell(s, pos, text, parse).state)
  {
    if IsValid(pos) {
      SetCellDelegates(s, pos, text, parse);
      if pos in s.cells {
        SetKeepsWellFormed(s, pos, text, parse);
      } else {
        var m := Materialize(s, pos);
        ExtendsKeepsWellFormed(s, m);
        SetKeepsWellFormed(m, pos, text, parse);
      }
    }
  }

  // ---------------------------------------------------------------------------
  // Sequences of edits

  /** One call of `SetCell`. */
  datatype Edit = Edit(pos: Position, text: string)

  /** The sheet after a sequence of `SetCell` calls, each exception caught by
      the caller, which goes on with the sheet as the throw left it. */
  function Replay(s: Sheet, edits: seq<Edit>, parse: Parser): (r: Sheet)
    ensures Grows(s.widths, r.widths)
    ensures Fits(s) ==> Fits(r)
    decreases |edits|
  {
    if edits == [] then s
    else
      var next := SetCell(s, edits[0].pos, edits[0].text, parse).state;
      var r := Replay(next, edits[1..], parse);
      GrowsTransitive(s.widths, next.widths, r.widths);
      r
  }

  /** The invariant holds after any sequence of `SetCell` calls. */
  lemma {:induction false} ReplayKeepsWellFormed(s: Sheet, edits: seq<Edit>, parse: Parser)
    requires WellFormed(s)
    ensures WellFormed(Replay(s, edits, parse))
    decreases |edits|
  {
    if edits != [] {
      SetCellKeepsWellFormed(s, edits[0].pos, edits[0].text, parse);
      ReplayKeepsWellFormed(SetCell(s, edits[0].pos, edits[0].text, parse).state, edits[1..], parse);
    }
  }

  /** Starting from a new sheet, no sequence of `SetCell` calls produces a
      formula that reads itself, directly or indirectly, and every formula
      reads only cells that exist. */
  lemma NeverCyclic(edits: seq<Edit>, parse: Parser)
    ensures var s := Replay(EmptySheet, edits, parse);
      Acyclic(RefGraph(s.cells)) && forall p, x :: Refers(s.cells, p, x) ==> x in s.cells
  {
    EmptySheetWellFormed();
    ReplayKeepsWellFormed(EmptySheet, edits, parse);
  }

  /** Emptying a slot that nothing reads and that reads nothing keeps the
      invariant.  (`Sheet::ClearCell` does not unbind, so clearing any other
      cell leaves dangling records.) */
  lemma ClearUnlinkedCellKeepsWellFormed(s: Sheet, pos: Position)
    requires WellFormed(s) && pos in s.cells
    requires s.cells[pos].dependents == {} && DirectRefs(s.cells[pos].content) == []
    ensures ClearCell(s, pos).Ok? && WellFormed(ClearCell(s, pos).value)
  {
    var t := ClearCell(s, pos).value;
    assert t.cells == s.cells - {pos};
    forall p, x | Refers(t.cells, p, x)
      ensures x in t.cells && Refers(s.cells, p, x) && x != pos
    {
      assert Refers(s.cells, p, x);
      assert !HasDependent(s.cells, pos, p);
    }
    forall p, q | HasDependent(t.cells, p, q)
      ensures Refers(t.cells, q, p)
    {
      assert HasDependent(s.cells, p, q);
      assert Refers(s.cells, q, p);
      assert q != pos;
    }
    var g := RefGraph(s.cells);
    var h := RefGraph(t.cells);
    forall a | Reaches(h, a, a)
      ensures false
    {
      var path :| IsPath(h, path) && |path| >= 2 && path[0] == a && path[|path| - 1] == a;
      forall i | 0 <= i < |path| - 1
        ensures Edge(g, path[i], path[i + 1])
      {
        assert Edge(h, path[i], path[i + 1]);
      }
      assert Reaches(g, a, a);
    }
  }

  /** Clearing a cell another formula reads breaks the invariant: the reader
      still names the position, which now holds no cell. */
  lemma ClearReadCellBreaksInvariant(s: Sheet, pos: Position, reader: Position)
    requires WellFormed(s) && HasDependent(s.cells, pos, reader)
    ensures ClearCell(s, pos).Ok? && !WellFormed(ClearCell(s, pos).value)
  {
    var t := ClearCell(s, pos).value;
    assert Refers(s.cells, reader, pos);
    RefGraphEdges(s.cells);
    AcyclicNoSelfEdge(RefGraph(s.cells), pos);
    assert Refers(t.cells, reader, pos) && pos !in t.cells;
  }

  // ---------------------------------------------------------------------------
  // The dependency test

  /** The sheet of the dependency test: A1 holds "3", A2 "=A1+2" reads A1
      and A3 "=A2+3" reads A2. */
  const ChainSheet: Sheet :=
    Grid([1, 1, 1], map[Position(0, 0) := Cell(Text("3"), {Position(1, 0)}),
                        Position(1, 0) := Cell(Formula("A1+2", [Position(0, 0)], false), {Position(2, 0)}),
                        Position(2, 0) := Cell(Formula("A2+3", [Position(1, 0)], false), {})])

  /** A parser for expressions that read no cell, such as "3". */
  const Constant: Parser := (e: string) => Some(Parsed(e, []))

  /** Setting A2 to "=3" succeeds, stores a formula without references in
      A2 and leaves A1 and A3 holding what they held, up to A3's cache. */
  /** Setting A2 to "=3" in the dependency test's sheet succeeds. */
  lemma SetA2Constant()
    ensures Set(ChainSheet, Position(1, 0), "=3", Constant).raised == None
  {
    var a2, three := Position(1, 0), Formula("3", [], false);
    assert "=3"[1..] == "3";
    assert Classify("=3", Constant) == Ok(three);
    assert CheckCycle(ChainSheet, a2, three) == Search(ChainSheet, {a2}, NoCycle);
    SetCases(ChainSheet, a2, "=3", Constant);
  }

  /** After that `Set`, A1 and A3 hold what they held, up to A3's cache,
      and A2 holds a formula without references. */
  lemma SetA2Contents(r: Outcome<Sheet>)
    requires r == Set(ChainSheet, Position(1, 0), "=3", Constant)
    ensures var a1, a2, a3 := Position(0, 0), Position(1, 0), Position(2, 0);
      && r.raised == None
      && r.state.cells[a1].content == Text("3")
      && r.state.cells[a2].content == Formula("3", [], false)
      && r.state.cells[a3].content.Formula? && r.state.cells[a3].content.refs == [a2]
  {
    var a1, a2, a3 := Position(0, 0), Position(1, 0), Position(2, 0);
    SetA2Constant();
    assert "=3"[1..] == "3";
    SameUpToCacheKeepsText(r.state.cells[a3].content, ChainSheet.cells[a3].content);
  }

  /** The dependency test: A3 lists A2 then A1, A2 lists A1 and A1 lists
      nothing; after A2 is set to "=3", A3 lists only A2 and A2 lists
      nothing. */
  lemma ReferencedCellsExample()
    ensures var a1, a2, a3 := Position(0, 0), Position(1, 0), Position(2, 0);
      var t := Set(ChainSheet, a2, "=3", Constant).state;
      && GetReferencedCells(ChainSheet, a1) == []
      && GetReferencedCells(ChainSheet, a2) == [a1]
      && GetReferencedCells(ChainSheet, a3) == [a2, a1]
      && GetReferencedCells(t, a1) == []
      && GetReferencedCells(t, a2) == []
      && GetReferencedCells(t, a3) == [a2]
  {
    ChainListings(ChainSheet);
    var r := Set(ChainSheet, Position(1, 0), "=3", Constant);
    SetA2Contents(r);
    ConstantListings(r.state);
  }

  /** The listings on the test's first sheet. */
  lemma ChainListings(s: Sheet)
    requires s == ChainSheet
    ensures var a1, a2, a3 := Position(0, 0), Position(1, 0), Position(2, 0);
      && GetReferencedCells(s, a1) == []
      && GetReferencedCells(s, a2) == [a1]
      && GetReferencedCells(s, a3) == [a2, a1]
  {
    var a1, a2, a3 := Position(0, 0), Position(1, 0), Position(2, 0);
    assert ListRefs(s.cells, [a1], {a2}) == Listing([a1], {a2, a1}) by {
      assert [a1][1..] == [];
    }
    assert ListRefs(s.cells, [a2], {}).order == [a2, a1] by {
      assert [a2][1..] == [];
      var none: set<Position> := {};
      assert none + {a2} == {a2};
      var below := ListRefs(s.cells, s.cells[a2].content.refs, none + {a2});
      assert below == Listing([a1], {a2, a1});
      assert ListRefs(s.cells, [], below.visited) == Listing([], {a2, a1});
    }
    assert ListRefs(s.cells, [a1], {}).order == [a1];
  }

  /** The listings on any sheet where A1 holds text, A2 a formula without
      references and A3 a formula reading A2 only. */
  lemma ConstantListings(t: Sheet)
    requires var a1, a2, a3 := Position(0, 0), Position(1, 0), Position(2, 0);
      && a1 in t.cells && a2 in t.cells && a3 in t.cells
      && t.cells[a1].content == Text("3")
      && t.cells[a2].content == Formula("3", [], false)
      && t.cells[a3].content.Formula? && t.cells[a3].content.refs == [a2]
    ensures var a1, a2, a3 := Position(0, 0), Position(1, 0), Position(2, 0);
      && GetReferencedCells(t, a1) == []
      && GetReferencedCells(t, a2) == []
      && GetReferencedCells(t, a3) == [a2]
  {
    var a2 := Position(1, 0);
    assert [a2][1..] == [];
    assert ListRefs(t.cells, [a2], {}).order == [a2];
  }
}
