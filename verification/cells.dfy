/** The dependency graph of src/cell.cpp.

    A formula cell records, through its value, the positions it reads; every
    cell records, in `binding_cells_`, the formulas that read it.  `Cell::Set`
    refuses a formula that would close a cycle, and on success resets the
    caches of everything that transitively reads the cell, moves the cell's
    reverse edges from the old references to the new ones, and stores the new
    value.  Cells are named by position; the sheet is threaded through every
    operation because the cycle search itself may create cells. */
module Cells {
  import opened Errors
  import opened Positions
  import opened CellValues
  import opened Graphs
  import opened Storage

  // ---------------------------------------------------------------------------
  // The two graphs a sheet carries

  /** Each cell to the positions its value reads. */
  function RefGraph(cells: map<Position, Cell>): Graph {
    map p | p in cells :: set x | x in DirectRefs(cells[p].content)
  }

  /** Each cell to the formulas recorded as reading it. */
  function DependentsGraph(cells: map<Position, Cell>): Graph {
    map p | p in cells :: cells[p].dependents
  }

  /** The formula at `p` reads `x`. */
  ghost predicate Refers(cells: map<Position, Cell>, p: Position, x: Position) {
    p in cells && x in DirectRefs(cells[p].content)
  }

  /** The cell at `p` records `q` as a dependent. */
  ghost predicate HasDependent(cells: map<Position, Cell>, p: Position, q: Position) {
    p in cells && q in cells[p].dependents
  }

  lemma RefGraphEdges(cells: map<Position, Cell>)
    ensures forall p, x :: Edge(RefGraph(cells), p, x) <==> Refers(cells, p, x)
  {
  }

  lemma DependentsGraphEdges(cells: map<Position, Cell>)
    ensures forall p, q :: Edge(DependentsGraph(cells), p, q) <==> HasDependent(cells, p, q)
  {
  }

  /** The invariant the engine maintains between calls: every cell has a
      slot, every position a formula reads holds a cell, the dependents a
      cell records are exactly the formulas that read it, and no formula
      reads itself, however indirectly. */
  ghost predicate WellFormed(s: Sheet) {
    && Fits(s)
    && (forall p, x :: Refers(s.cells, p, x) ==> x in s.cells)
    && (forall p, q :: HasDependent(s.cells, p, q) <==> Refers(s.cells, q, p))
    && Acyclic(RefGraph(s.cells))
  }

  lemma EmptySheetWellFormed()
    ensures WellFormed(EmptySheet)
  {
    EdgelessAcyclic(RefGraph(EmptySheet.cells));
  }

  /** Under the invariant, the dependents graph is the references graph turned
      around. */
  lemma WellFormedMirrors(s: Sheet)
    requires WellFormed(s)
    ensures Mirrors(DependentsGraph(s.cells), RefGraph(s.cells))
  {
    RefGraphEdges(s.cells);
    DependentsGraphEdges(s.cells);
  }

  // ---------------------------------------------------------------------------
  // Cells created on the way

  /** `after` keeps every cell of `before`, and every cell it adds is blank. */
  ghost predicate Extends(before: map<Position, Cell>, after: map<Position, Cell>) {
    && (forall q :: q in before ==> q in after && after[q] == before[q])
    && (forall q :: q in after && q !in before ==> after[q] == BlankCell)
  }

  lemma ExtendsTransitive(a: map<Position, Cell>, b: map<Position, Cell>, c: map<Position, Cell>)
    requires Extends(a, b) && Extends(b, c)
    ensures Extends(a, c)
  {
  }

  /** The positions holding formulas. */
  function FormulaKeys(cells: map<Position, Cell>): set<Position> {
    set p | p in cells && cells[p].content.Formula?
  }

  lemma ExtendsKeepsFormulas(a: map<Position, Cell>, b: map<Position, Cell>)
    requires Extends(a, b)
    ensures FormulaKeys(b) == FormulaKeys(a)
    ensures forall p, x :: Refers(b, p, x) <==> Refers(a, p, x)
  {
  }

  /** Blank cells are sinks: the references graph only gains dead ends. */
  lemma ExtendsAddsSinks(a: map<Position, Cell>, b: map<Position, Cell>)
    requires Extends(a, b)
    ensures ExtendsWithSinks(RefGraph(a), RefGraph(b))
  {
  }

  /** `SetCell(pos, "")` on an empty slot: the row list grows to reach `p`
      and a blank cell is installed there. */
  function Materialize(s: Sheet, p: Position): (r: Sheet)
    requires IsValid(p) && p !in s.cells
    ensures r.cells == s.cells[p := BlankCell]
    ensures InStorage(r.widths, p) && Grows(s.widths, r.widths)
    ensures Fits(s) ==> Fits(r)
  {
    var grown := Resize(s, p);
    Grid(grown.widths, grown.cells[p := BlankCell])
  }

  // ---------------------------------------------------------------------------
  // The cycle check of Cell::Set

  /** How a search ended: no cycle, a path back to the cell being set, or a
      referenced position `Sheet::GetCell` rejects. */
  datatype Probe = NoCycle | CycleFound | InvalidRef

  /** The sheet after the search (it may have created blank cells), the cells
      visited, and how it ended. */
  datatype Search = Search(sheet: Sheet, visited: set<Position>, probe: Probe)

  /** `HasCellCircularDependency`: walks `refs` in order; a reference to
      `self` is a cycle; an absent cell is created blank (a blank cell reads
      nothing, so the walk does not descend into it); a formula not yet
      visited is marked and its own references are walked first. */
  function SearchCycle(s: Sheet, self: Position, refs: seq<Position>, visited: set<Position>): (r: Search)
    ensures visited <= r.visited
    ensures Extends(s.cells, r.sheet.cells)
    ensures Grows(s.widths, r.sheet.widths)
    ensures Fits(s) ==> Fits(r.sheet)
    decreases |FormulaKeys(s.cells) - visited|, |refs|
  {
    if refs == [] then Search(s, visited, NoCycle)
    else
      var p := refs[0];
      if !IsValid(p) then Search(s, visited, InvalidRef)
      else if p == self then Search(s, visited, CycleFound)
      else
        var s1 := if p in s.cells then s else Materialize(s, p);
        ExtendsKeepsFormulas(s.cells, s1.cells);
        if p in visited then
          var rest := SearchCycle(s1, self, refs[1..], visited);
          ExtendsTransitive(s.cells, s1.cells, rest.sheet.cells);
          rest
        else
          var inner :=
            if s1.cells[p].content.Formula? then
              StrictSubsetCard(FormulaKeys(s.cells) - (visited + {p}), FormulaKeys(s.cells) - visited);
              SearchCycle(s1, self, s1.cells[p].content.refs, visited + {p})
            else Search(s1, visited + {p}, NoCycle);
          ExtendsTransitive(s.cells, s1.cells, inner.sheet.cells);
          if inner.probe != NoCycle then inner
          else
            ExtendsKeepsFormulas(s.cells, inner.sheet.cells);
            SubsetCard(FormulaKeys(s.cells) - inner.visited, FormulaKeys(s.cells) - visited);
            var rest := SearchCycle(inner.sheet, self, refs[1..], inner.visited);
            ExtendsTransitive(s.cells, inner.sheet.cells, rest.sheet.cells);
            rest
  }

  /** What a search that finds no cycle has done: checked, and given a cell
      to, every position in `refs` and everything those read; none of them
      is `self`, and each cell it newly visited reads only visited
      positions. */
  ghost predicate Explored(self: Position, refs: seq<Position>, visited: set<Position>, r: Search) {
    && (forall q :: q in refs ==> q in r.visited && q in r.sheet.cells && q != self)
    && (forall q, x :: q in r.visited - visited && Refers(r.sheet.cells, q, x) ==> x in r.visited && x != self)
    && (forall q :: q in r.visited - visited ==> q in r.sheet.cells)
  }

  /** The sheet the search continues on after meeting `p`: `p` is given a
      blank cell when it had none. */
  function Met(s: Sheet, p: Position): (r: Sheet)
    requires IsValid(p)
    ensures Extends(s.cells, r.cells) && p in r.cells
  {
    if p in s.cells then s else Materialize(s, p)
  }

  /** A search that finds no cycle has explored everything `refs` leads to. */
  lemma {:induction false} NoCycleExplored(s: Sheet, self: Position, refs: seq<Position>, visited: set<Position>)
    requires SearchCycle(s, self, refs, visited).probe == NoCycle
    ensures Explored(self, refs, visited, SearchCycle(s, self, refs, visited))
    decreases |FormulaKeys(s.cells) - visited|, |refs|
  {
    if refs != [] {
      var p := refs[0];
      assert IsValid(p);
      var s1 := Met(s, p);
      ExtendsKeepsFormulas(s.cells, s1.cells);
      if p in visited {
        NoCycleExplored(s1, self, refs[1..], visited);
        ExploredSkip(s, self, refs, visited);
      } else {
        if s1.cells[p].content.Formula? {
          StrictSubsetCard(FormulaKeys(s.cells) - (visited + {p}), FormulaKeys(s.cells) - visited);
          NoCycleExplored(s1, self, s1.cells[p].content.refs, visited + {p});
        }
        var inner := Inner(s, self, p, visited);
        ExtendsKeepsFormulas(s.cells, inner.sheet.cells);
        SubsetCard(FormulaKeys(s.cells) - inner.visited, FormulaKeys(s.cells) - visited);
        NoCycleExplored(inner.sheet, self, refs[1..], inner.visited);
        ExploredVisit(s, self, refs, visited);
      }
    }
  }

  /** What the search does below a position `p` it has not visited yet. */
  function Inner(s: Sheet, self: Position, p: Position, visited: set<Position>): (r: Search)
    requires IsValid(p) && p !in visited
    ensures visited + {p} <= r.visited && Extends(Met(s, p).cells, r.sheet.cells)
    decreases |FormulaKeys(s.cells) - visited|, 0
  {
    var s1 := Met(s, p);
    ExtendsKeepsFormulas(s.cells, s1.cells);
    if s1.cells[p].content.Formula? then
      StrictSubsetCard(FormulaKeys(s.cells) - (visited + {p}), FormulaKeys(s.cells) - visited);
      SearchCycle(s1, self, s1.cells[p].content.refs, visited + {p})
    else Search(s1, visited + {p}, NoCycle)
  }

  /** The step for a first reference already visited. */
  lemma ExploredSkip(s: Sheet, self: Position, refs: seq<Position>, visited: set<Position>)
    requires refs != [] && IsValid(refs[0]) && refs[0] in visited
    requires SearchCycle(s, self, refs, visited).probe == NoCycle
    requires Explored(self, refs[1..], visited, SearchCycle(Met(s, refs[0]), self, refs[1..], visited))
    ensures Explored(self, refs, visited, SearchCycle(s, self, refs, visited))
  {
    var p := refs[0];
    var s1 := Met(s, p);
    var r := SearchCycle(s, self, refs, visited);
    assert r == SearchCycle(s1, self, refs[1..], visited);
    assert p in s1.cells && p != self;
    assert forall q :: q in refs ==> q == p || q in refs[1..];
  }

  /** The step for a first reference not yet visited. */
  lemma ExploredVisit(s: Sheet, self: Position, refs: seq<Position>, visited: set<Position>)
    requires refs != [] && IsValid(refs[0]) && refs[0] !in visited
    requires SearchCycle(s, self, refs, visited).probe == NoCycle
    requires var s1 := Met(s, refs[0]);
      s1.cells[refs[0]].content.Formula? ==>
        Explored(self, s1.cells[refs[0]].content.refs, visited + {refs[0]}, Inner(s, self, refs[0], visited))
    requires var inner := Inner(s, self, refs[0], visited);
      Explored(self, refs[1..], inner.visited, SearchCycle(inner.sheet, self, refs[1..], inner.visited))
    ensures Explored(self, refs, visited, SearchCycle(s, self, refs, visited))
  {
    var p := refs[0];
    var s1 := Met(s, p);
    var inner := Inner(s, self, p, visited);
    var r := SearchCycle(s, self, refs, visited);
    assert p != self && inner.probe == NoCycle;
    assert r == SearchCycle(inner.sheet, self, refs[1..], inner.visited);
    ExploredCombine(s1, self, refs, visited, inner, r);
  }

  /** The facts of the two sub-searches give the facts of the whole. */
  lemma ExploredCombine(s1: Sheet, self: Position, refs: seq<Position>, visited: set<Position>, inner: Search, r: Search)
    requires refs != [] && refs[0] in s1.cells && refs[0] != self && refs[0] !in visited
    requires visited + {refs[0]} <= inner.visited <= r.visited
    requires Extends(s1.cells, inner.sheet.cells) && Extends(inner.sheet.cells, r.sheet.cells)
    requires s1.cells[refs[0]].content.Formula? ==>
      Explored(self, s1.cells[refs[0]].content.refs, visited + {refs[0]}, inner)
    requires !s1.cells[refs[0]].content.Formula? ==> inner.visited == visited + {refs[0]}
    requires Explored(self, refs[1..], inner.visited, r)
    ensures Explored(self, refs, visited, r)
  {
    var p := refs[0];
    ExtendsKeepsFormulas(inner.sheet.cells, r.sheet.cells);
    ExtendsKeepsFormulas(s1.cells, inner.sheet.cells);
    assert forall q :: q in refs ==> q == p || q in refs[1..];
    forall q, x | q in r.visited - visited && Refers(r.sheet.cells, q, x)
      ensures x in r.visited && x != self
    {
      if q == p {
        assert Refers(s1.cells, p, x);
      }
    }
  }

  /** A search that finds no cycle has checked every position in `refs`
      for validity. */
  lemma SearchChecksValidity(s: Sheet, self: Position, refs: seq<Position>, visited: set<Position>, x: Position)
    requires SearchCycle(s, self, refs, visited).probe == NoCycle && x in refs
    ensures IsValid(x)
    decreases |refs|
  {
    var p := refs[0];
    if x != p {
      var s1 := if p in s.cells then s else Materialize(s, p);
      ExtendsKeepsFormulas(s.cells, s1.cells);
      if p in visited {
        SearchChecksValidity(s1, self, refs[1..], visited, x);
      } else {
        var inner :=
          if s1.cells[p].content.Formula? then SearchCycle(s1, self, s1.cells[p].content.refs, visited + {p})
          else Search(s1, visited + {p}, NoCycle);
        SearchChecksValidity(inner.sheet, self, refs[1..], inner.visited, x);
      }
    }
  }

  /** A search that reports a cycle has a path, in the references graph of
      the sheet it leaves behind, from one of `refs` to `self`. */
  lemma {:induction false} CycleFoundIsReal(s: Sheet, self: Position, refs: seq<Position>, visited: set<Position>)
    requires SearchCycle(s, self, refs, visited).probe == CycleFound
    ensures ReachableFrom(RefGraph(SearchCycle(s, self, refs, visited).sheet.cells), Elems(refs), self)
    decreases |FormulaKeys(s.cells) - visited|, |refs|
  {
    var r := SearchCycle(s, self, refs, visited);
    var g := RefGraph(r.sheet.cells);
    var p := refs[0];
    var tail := Elems(refs[1..]);
    assert tail <= Elems(refs);
    if p == self {
      assert IsPath(g, [self]);
    } else {
      var s1 := if p in s.cells then s else Materialize(s, p);
      ExtendsKeepsFormulas(s.cells, s1.cells);
      if p in visited {
        CycleFoundIsReal(s1, self, refs[1..], visited);
        assert r == SearchCycle(s1, self, refs[1..], visited);
        ReachableFromMore(g, tail, Elems(refs), self);
      } else {
        var inner :=
          if s1.cells[p].content.Formula? then SearchCycle(s1, self, s1.cells[p].content.refs, visited + {p})
          else Search(s1, visited + {p}, NoCycle);
        if inner.probe == CycleFound {
          StrictSubsetCard(FormulaKeys(s.cells) - (visited + {p}), FormulaKeys(s.cells) - visited);
          CycleFoundInside(s, s1, self, p, visited);
        } else {
          ExtendsKeepsFormulas(s.cells, inner.sheet.cells);
          SubsetCard(FormulaKeys(s.cells) - inner.visited, FormulaKeys(s.cells) - visited);
          CycleFoundIsReal(inner.sheet, self, refs[1..], inner.visited);
          assert r == SearchCycle(inner.sheet, self, refs[1..], inner.visited);
          ReachableFromMore(g, tail, Elems(refs), self);
        }
      }
    }
  }

  /** The step of `CycleFoundIsReal` where the cycle is found below `p`: the
      edge from `p` to its references extends the path found there. */
  lemma {:induction false} CycleFoundInside(s: Sheet, s1: Sheet, self: Position, p: Position, visited: set<Position>)
    requires p in s1.cells && s1.cells[p].content.Formula? && p !in visited
    requires Extends(s.cells, s1.cells)
    requires |FormulaKeys(s.cells) - (visited + {p})| < |FormulaKeys(s.cells) - visited|
    requires SearchCycle(s1, self, s1.cells[p].content.refs, visited + {p}).probe == CycleFound
    ensures var r := SearchCycle(s1, self, s1.cells[p].content.refs, visited + {p});
      ReachableFrom(RefGraph(r.sheet.cells), {p}, self)
    decreases |FormulaKeys(s.cells) - visited|, 0
  {
    var pRefs := s1.cells[p].content.refs;
    var r := SearchCycle(s1, self, pRefs, visited + {p});
    var g := RefGraph(r.sheet.cells);
    ExtendsKeepsFormulas(s.cells, s1.cells);
    CycleFoundIsReal(s1, self, pRefs, visited + {p});
    assert r.sheet.cells[p] == s1.cells[p];
    forall y | y in Elems(pRefs)
      ensures Edge(g, p, y)
    {
    }
    ReachableThroughEdge(g, p, Elems(pRefs), self);
  }

  /** When every stored formula reads valid positions, so do all formulas the
      search meets, and a search over valid references never stops on an
      invalid one. */
  lemma {:induction false} SearchMeetsOnlyValid(s: Sheet, self: Position, refs: seq<Position>, visited: set<Position>)
    requires forall p, x :: Refers(s.cells, p, x) ==> IsValid(x)
    requires forall q :: q in refs ==> IsValid(q)
    ensures SearchCycle(s, self, refs, visited).probe != InvalidRef
    decreases |FormulaKeys(s.cells) - visited|, |refs|
  {
    if refs != [] && refs[0] != self {
      var p := refs[0];
      var s1 := if p in s.cells then s else Materialize(s, p);
      ExtendsKeepsFormulas(s.cells, s1.cells);
      if p in visited {
        SearchMeetsOnlyValid(s1, self, refs[1..], visited);
      } else {
        var inner :=
          if s1.cells[p].content.Formula? then SearchCycle(s1, self, s1.cells[p].content.refs, visited + {p})
          else Search(s1, visited + {p}, NoCycle);
        if s1.cells[p].content.Formula? {
          StrictSubsetCard(FormulaKeys(s.cells) - (visited + {p}), FormulaKeys(s.cells) - visited);
          assert forall x :: x in s1.cells[p].content.refs ==> Refers(s1.cells, p, x);
          SearchMeetsOnlyValid(s1, self, s1.cells[p].content.refs, visited + {p});
        }
        if inner.probe == NoCycle {
          ExtendsKeepsFormulas(s.cells, inner.sheet.cells);
          SubsetCard(FormulaKeys(s.cells) - inner.visited, FormulaKeys(s.cells) - visited);
          SearchMeetsOnlyValid(inner.sheet, self, refs[1..], inner.visited);
        }
      }
    }
  }

  /** The cycle check is exact: started as `Cell::Set` starts it, with only
      `self` visited, and given valid references on a sheet whose formulas
      read valid positions, it reports a cycle exactly when `self` is
      reachable from the new references in the references graph. */
  lemma CycleCheckExact(s: Sheet, self: Position, refs: seq<Position>)
    requires forall p, x :: Refers(s.cells, p, x) ==> IsValid(x)
    requires forall q :: q in refs ==> IsValid(q)
    ensures var r := SearchCycle(s, self, refs, {self});
      r.probe != InvalidRef &&
      (r.probe == CycleFound <==> ReachableFrom(RefGraph(s.cells), Elems(refs), self))
  {
    var r := SearchCycle(s, self, refs, {self});
    var starts := Elems(refs);
    SearchMeetsOnlyValid(s, self, refs, {self});
    ExtendsAddsSinks(s.cells, r.sheet.cells);
    SinksKeepReachability(RefGraph(s.cells), RefGraph(r.sheet.cells));
    if r.probe == CycleFound {
      CycleFoundIsReal(s, self, refs, {self});
    } else {
      NoCycleFindsNoPath(s, self, refs);
    }
  }

  /** After a search that finds no cycle, the visited cells other than
      `self` read only one another. */
  lemma VisitedClosed(s: Sheet, self: Position, refs: seq<Position>)
    requires SearchCycle(s, self, refs, {self}).probe == NoCycle
    ensures var r := SearchCycle(s, self, refs, {self});
      Closed(RefGraph(r.sheet.cells), r.visited - {self}) && Elems(refs) <= r.visited - {self}
  {
    var r := SearchCycle(s, self, refs, {self});
    var g := RefGraph(r.sheet.cells);
    NoCycleExplored(s, self, refs, {self});
    RefGraphEdges(r.sheet.cells);
    forall x | x in r.visited - {self} && x in g
      ensures g[x] <= r.visited - {self}
    {
      forall y | y in g[x]
        ensures y in r.visited - {self}
      {
        assert Edge(g, x, y);
      }
    }
  }

  /** No cycle reported means no path back to `self`. */
  lemma NoCycleFindsNoPath(s: Sheet, self: Position, refs: seq<Position>)
    requires SearchCycle(s, self, refs, {self}).probe == NoCycle
    ensures !ReachableFrom(RefGraph(s.cells), Elems(refs), self)
    ensures !ReachableFrom(RefGraph(SearchCycle(s, self, refs, {self}).sheet.cells), Elems(refs), self)
  {
    var r := SearchCycle(s, self, refs, {self});
    var g := RefGraph(r.sheet.cells);
    VisitedClosed(s, self, refs);
    if ReachableFrom(g, Elems(refs), self) {
      ClosedContainsReachable(g, Elems(refs), r.visited - {self}, self);
      assert false;
    }
    ExtendsAddsSinks(s.cells, r.sheet.cells);
    SinksKeepReachability(RefGraph(s.cells), g);
  }

  /** Adding blank cells to a sheet keeps the invariant. */
  lemma ExtendsKeepsWellFormed(s: Sheet, t: Sheet)
    requires WellFormed(s) && Extends(s.cells, t.cells) && Fits(t)
    ensures WellFormed(t)
  {
    ExtendsKeepsFormulas(s.cells, t.cells);
    ExtendsAddsSinks(s.cells, t.cells);
    SinksKeepReachability(RefGraph(s.cells), RefGraph(t.cells));
  }

  // ---------------------------------------------------------------------------
  // Invalidation, unbinding and binding

  /** The cells `InvalidateBindingCache` visits when it starts at `self` with
      only `self` marked: everything reachable along recorded dependents,
      `self` excluded. */
  function Invalidated(cells: map<Position, Cell>, self: Position): (r: set<Position>)
    ensures self !in r
  {
    Closure(DependentsGraph(cells), {self}, {self}) - {self}
  }

  lemma InvalidatedAreReachable(cells: map<Position, Cell>, self: Position)
    ensures forall q :: q in Invalidated(cells, self) <==>
              q != self && ReachableFrom(DependentsGraph(cells), {self}, q)
  {
    var g := DependentsGraph(cells);
    var closure := Closure(g, {self}, {self});
    ClosureIsReachable(g, {self});
    assert Invalidated(cells, self) == closure - {self};
    forall q
      ensures q in closure - {self} <==> q != self && ReachableFrom(g, {self}, q)
    {
    }
  }

  /** Under the invariant, the invalidated cells are exactly the formulas that
      read `self`, directly or through other formulas. */
  lemma InvalidatesExactlyReaders(s: Sheet, self: Position)
    requires WellFormed(s)
    ensures forall q :: q in Invalidated(s.cells, self) <==>
              q != self && ReachableFrom(RefGraph(s.cells), {q}, self)
  {
    InvalidatedAreReachable(s.cells, self);
    WellFormedMirrors(s);
    forall q
      ensures ReachableFrom(DependentsGraph(s.cells), {self}, q) <==> ReachableFrom(RefGraph(s.cells), {q}, self)
    {
      MirrorReach(DependentsGraph(s.cells), RefGraph(s.cells), self, q);
    }
  }

  /** `InvalidateBindingCache` followed by `InvalidateCache` on each cell it
      visits: every invalidated cell loses its cached result and nothing else
      changes. */
  function InvalidateDependents(cells: map<Position, Cell>, self: Position): (r: map<Position, Cell>)
    ensures r.Keys == cells.Keys
    ensures forall q :: q in cells ==>
              r[q].dependents == cells[q].dependents && SameUpToCache(r[q].content, cells[q].content)
    ensures forall q :: q in cells ==>
              r[q].content == if q in Invalidated(cells, self) then ResetCache(cells[q].content) else cells[q].content
  {
    var hit := Invalidated(cells, self);
    map q | q in cells :: if q in hit then Cell(ResetCache(cells[q].content), cells[q].dependents) else cells[q]
  }

  /** `UnbindReferencedDependency`: `self` stops being a dependent of each
      position in `refs` that holds a cell. */
  function Unbind(cells: map<Position, Cell>, self: Position, refs: seq<Position>): (r: map<Position, Cell>)
    ensures r.Keys == cells.Keys
    ensures forall q :: q in cells ==> r[q].content == cells[q].content
    ensures forall q :: q in cells ==>
              r[q].dependents == if q in refs then cells[q].dependents - {self} else cells[q].dependents
    decreases |refs|
  {
    if refs == [] then cells
    else
      var p := refs[0];
      var here := if p in cells then cells[p := Cell(cells[p].content, cells[p].dependents - {self})] else cells;
      Unbind(here, self, refs[1..])
  }

  /** `BindingReferencedDependency`: `self` becomes a dependent of each
      position in `refs` that holds a cell. */
  function Bind(cells: map<Position, Cell>, self: Position, refs: seq<Position>): (r: map<Position, Cell>)
    ensures r.Keys == cells.Keys
    ensures forall q :: q in cells ==> r[q].content == cells[q].content
    ensures forall q :: q in cells ==>
              r[q].dependents == if q in refs then cells[q].dependents + {self} else cells[q].dependents
    decreases |refs|
  {
    if refs == [] then cells
    else
      var p := refs[0];
      var here := if p in cells then cells[p := Cell(cells[p].content, cells[p].dependents + {self})] else cells;
      Bind(here, self, refs[1..])
  }

  /** Unbinding then binding the same references restores the dependents of
      every cell `self` did not already depend on... and of every other
      dependent. */
  lemma UnbindThenBind(cells: map<Position, Cell>, self: Position, refs: seq<Position>)
    requires forall q :: q in refs && q in cells ==> self in cells[q].dependents
    ensures Bind(Unbind(cells, self, refs), self, refs) == cells
  {
    var r := Bind(Unbind(cells, self, refs), self, refs);
    assert forall q :: q in cells ==> r[q] == cells[q];
  }

  /** `Cell::Clear` on a cell of the sheet: invalidate the readers, unbind
      from what the old value read, and leave the cell Empty. */
  function ClearContent(s: Sheet, self: Position): (r: Sheet)
    requires self in s.cells
    ensures r.widths == s.widths && r.cells.Keys == s.cells.Keys
    ensures r.cells[self].content == Empty
  {
    var invalidated := InvalidateDependents(s.cells, self);
    var unbound := Unbind(invalidated, self, DirectRefs(s.cells[self].content));
    Grid(s.widths, unbound[self := Cell(Empty, unbound[self].dependents)])
  }

  /** What `Cell::Set` does once the cycle check has passed: `Clear`, store
      the new value, then `BindingReferencedDependency`. */
  function Commit(s: Sheet, self: Position, content: Content): (r: Sheet)
    requires self in s.cells
    ensures r.widths == s.widths && r.cells.Keys == s.cells.Keys
    ensures r.cells[self].content == content
  {
    var cleared := ClearContent(s, self);
    var stored := cleared.cells[self := Cell(content, cleared.cells[self].dependents)];
    Grid(cleared.widths, Bind(stored, self, DirectRefs(content)))
  }

  /** What `Commit` leaves in one cell, traced through the maps it goes
      through. */
  lemma CommitAt(s: Sheet, self: Position, content: Content, q: Position)
    requires self in s.cells && q in s.cells
    ensures var r := Commit(s, self, content);
      var oldRefs := DirectRefs(s.cells[self].content);
      && (forall d :: d != self ==> (d in r.cells[q].dependents <==> d in s.cells[q].dependents))
      && (self in r.cells[q].dependents <==>
            q in DirectRefs(content) || (self in s.cells[q].dependents && q !in oldRefs))
      && (q != self ==>
            r.cells[q].content == if q in Invalidated(s.cells, self) then ResetCache(s.cells[q].content) else s.cells[q].content)
  {
    var invalidated := InvalidateDependents(s.cells, self);
    var unbound := Unbind(invalidated, self, DirectRefs(s.cells[self].content));
    var cleared := unbound[self := Cell(Empty, unbound[self].dependents)];
    assert ClearContent(s, self).cells == cleared;
    var stored := cleared[self := Cell(content, cleared[self].dependents)];
    var bound := Bind(stored, self, DirectRefs(content));
    assert Commit(s, self, content).cells == bound;
    assert stored[q].dependents == unbound[q].dependents;
    assert q != self ==> stored[q].content == unbound[q].content == invalidated[q].content;
    var oldRefs := DirectRefs(s.cells[self].content);
    var kept := if q in oldRefs then s.cells[q].dependents - {self} else s.cells[q].dependents;
    assert bound[q].dependents == (if q in DirectRefs(content) then kept + {self} else kept);
  }

  /** Committing resets the cache of every reader of `self` and leaves every
      other cell's value alone. */
  lemma CommitContents(s: Sheet, self: Position, content: Content)
    requires self in s.cells
    ensures var r := Commit(s, self, content);
      forall q :: q in s.cells && q != self ==>
        r.cells[q].content == if q in Invalidated(s.cells, self) then ResetCache(s.cells[q].content) else s.cells[q].content
  {
    forall q | q in s.cells && q != self {
      CommitAt(s, self, content, q);
    }
  }

  // ---------------------------------------------------------------------------
  // Cell::Set

  /** The cycle check as `Cell::Set` runs it on a new value: only a formula
      is searched, with `self` marked visited. */
  function CheckCycle(s: Sheet, self: Position, content: Content): (r: Search)
    ensures Extends(s.cells, r.sheet.cells) && Grows(s.widths, r.sheet.widths)
    ensures Fits(s) ==> Fits(r.sheet)
    ensures !content.Formula? ==> r == Search(s, {self}, NoCycle)
  {
    if content.Formula? then SearchCycle(s, self, content.refs, {self}) else Search(s, {self}, NoCycle)
  }

  /** A check that passes leaves every new reference holding a cell, and no
      path from them back to `self`. */
  lemma CheckCyclePassed(s: Sheet, self: Position, content: Content)
    requires CheckCycle(s, self, content).probe == NoCycle
    ensures var t := CheckCycle(s, self, content).sheet;
      && (forall x :: x in DirectRefs(content) ==> x in t.cells && IsValid(x))
      && !ReachableFrom(RefGraph(t.cells), Elems(DirectRefs(content)), self)
  {
    if content.Formula? {
      NoCycleExplored(s, self, content.refs, {self});
      NoCycleFindsNoPath(s, self, content.refs);
      forall x | x in content.refs
        ensures IsValid(x)
      {
        SearchChecksValidity(s, self, content.refs, {self}, x);
      }
    }
  }

  /** `Cell::Set(text)`: classify the text (a syntax error throws before
      anything changes); search for a cycle from the new references (a cycle
      throws, an invalid reference throws from `Sheet::GetCell`; either way
      the blank cells the search created stay); otherwise commit. */
  function Set(s: Sheet, self: Position, text: string, parse: Parser): (r: Outcome<Sheet>)
    requires self in s.cells
    ensures r.raised == Some(FormulaSyntax) <==> Classify(text, parse).Err?
    ensures !IsFormulaText(text) ==> r.raised == None
    ensures r.raised.Some? ==> Extends(s.cells, r.state.cells)
    ensures r.raised == None ==> self in r.state.cells && Classify(text, parse) == Ok(r.state.cells[self].content)
    ensures s.cells.Keys <= r.state.cells.Keys && Grows(s.widths, r.state.widths)
    ensures forall q :: q in s.cells && q != self ==> SameUpToCache(r.state.cells[q].content, s.cells[q].content)
    ensures Fits(s) ==> Fits(r.state)
  {
    match Classify(text, parse)
    case Err(e) => Outcome(s, Some(e))
    case Ok(content) =>
      var search := CheckCycle(s, self, content);
      if search.probe == CycleFound then Outcome(search.sheet, Some(CircularDependency))
      else if search.probe == InvalidRef then Outcome(search.sheet, Some(InvalidPosition))
      else Outcome(Commit(search.sheet, self, content), None)
  }

  // ---------------------------------------------------------------------------
  // What Set promises

  /** After a commit the references are the old ones, except that `self`
      reads exactly what the new value reads. */
  lemma CommitReferences(s: Sheet, self: Position, content: Content)
    requires self in s.cells
    ensures forall q, x :: Refers(Commit(s, self, content).cells, q, x) <==>
              if q == self then x in DirectRefs(content) else Refers(s.cells, q, x)
  {
    var r := Commit(s, self, content).cells;
    forall q, x
      ensures Refers(r, q, x) <==> if q == self then x in DirectRefs(content) else Refers(s.cells, q, x)
    {
      if q in s.cells && q != self {
        CommitAt(s, self, content, q);
      }
    }
  }

  /** The references graph after a commit is the old one with `self`'s
      successors replaced. */
  lemma CommitRedirects(s: Sheet, self: Position, content: Content)
    requires self in s.cells
    ensures RefGraph(Commit(s, self, content).cells) == RefGraph(s.cells)[self := Elems(DirectRefs(content))]
  {
    CommitReferences(s, self, content);
    Redirected(s.cells, Commit(s, self, content).cells, self, DirectRefs(content));
  }

  /** Two sheets with the same cells, whose formulas read the same except
      that `self` now reads `refs`, differ in the references graph by
      `self`'s row alone. */
  lemma Redirected(before: map<Position, Cell>, after: map<Position, Cell>, self: Position, refs: seq<Position>)
    requires self in before && after.Keys == before.Keys
    requires forall q, x :: Refers(after, q, x) <==> if q == self then x in refs else Refers(before, q, x)
    ensures RefGraph(after) == RefGraph(before)[self := Elems(refs)]
  {
    var g := RefGraph(before)[self := Elems(refs)];
    forall q | q in after
      ensures RefGraph(after)[q] == g[q]
    {
      assert forall x :: x in RefGraph(after)[q] <==> Refers(after, q, x);
    }
  }

  /** On a well-formed sheet, a commit leaves `self` recorded as a dependent
      of exactly its new references, and every other record as it was. */
  lemma CommitDependents(s: Sheet, self: Position, content: Content)
    requires WellFormed(s) && self in s.cells
    ensures forall q, d :: HasDependent(Commit(s, self, content).cells, q, d) <==>
              if d == self then q in s.cells && q in DirectRefs(content) else HasDependent(s.cells, q, d)
  {
    var r := Commit(s, self, content);
    forall q, d
      ensures HasDependent(r.cells, q, d) <==>
                if d == self then q in s.cells && q in DirectRefs(content) else HasDependent(s.cells, q, d)
    {
      if q in s.cells {
        CommitAt(s, self, content, q);
        if self in s.cells[q].dependents {
          assert Refers(s.cells, self, q);
        }
      }
    }
  }

  /** Committing a value whose references all hold cells and cannot lead
      back to `self` keeps the invariant. */
  lemma CommitKeepsWellFormed(s: Sheet, self: Position, content: Content)
    requires WellFormed(s) && self in s.cells
    requires forall x :: x in DirectRefs(content) ==> x in s.cells
    requires !ReachableFrom(RefGraph(s.cells), Elems(DirectRefs(content)), self)
    ensures WellFormed(Commit(s, self, content))
  {
    var r := Commit(s, self, content);
    CommitReferences(s, self, content);
    CommitDependents(s, self, content);
    assert Fits(r);
    assert forall p, x :: Refers(r.cells, p, x) ==> x in r.cells;
    forall p, q
      ensures HasDependent(r.cells, p, q) <==> Refers(r.cells, q, p)
    {
      assert HasDependent(s.cells, p, q) <==> Refers(s.cells, q, p);
    }
    CommitRedirects(s, self, content);
    RedirectKeepsAcyclic(RefGraph(s.cells), self, Elems(DirectRefs(content)));
  }

  /** How `Set` ends, in terms of its two checks. */
  lemma SetCases(s: Sheet, self: Position, text: string, parse: Parser)
    requires self in s.cells
    ensures Classify(text, parse).Err? ==> Set(s, self, text, parse) == Outcome(s, Some(FormulaSyntax))
    ensures Classify(text, parse).Ok? ==>
      var content := Classify(text, parse).value;
      var search := CheckCycle(s, self, content);
      Set(s, self, text, parse) ==
        if search.probe == CycleFound then Outcome(search.sheet, Some(CircularDependency))
        else if search.probe == InvalidRef then Outcome(search.sheet, Some(InvalidPosition))
        else Outcome(Commit(search.sheet, self, content), None)
  {
  }

  /** `Set` keeps the invariant, whether it succeeds or throws. */
  lemma SetKeepsWellFormed(s: Sheet, self: Position, text: string, parse: Parser)
    requires WellFormed(s) && self in s.cells
    ensures WellFormed(Set(s, self, text, parse).state)
  {
    SetCases(s, self, text, parse);
    if Classify(text, parse).Ok? {
      var content := Classify(text, parse).value;
      var search := CheckCycle(s, self, content);
      ExtendsKeepsWellFormed(s, search.sheet);
      if search.probe == NoCycle {
        CheckCyclePassed(s, self, content);
        CommitKeepsWellFormed(search.sheet, self, content);
      }
    }
  }

  /** On a well-formed sheet, a value whose references are all valid is
      refused with `CircularDependency` exactly when the cell being set is
      reachable from those references, and never with `InvalidPosition`. */
  lemma SetRefusesExactlyCycles(s: Sheet, self: Position, text: string, parse: Parser)
    requires WellFormed(s) && self in s.cells
    requires Classify(text, parse).Ok?
    requires forall x :: x in DirectRefs(Classify(text, parse).value) ==> IsValid(x)
    ensures var r := Set(s, self, text, parse);
      var refs := DirectRefs(Classify(text, parse).value);
      && r.raised != Some(InvalidPosition)
      && (r.raised == Some(CircularDependency) <==> ReachableFrom(RefGraph(s.cells), Elems(refs), self))
  {
    var content := Classify(text, parse).value;
    if content.Formula? {
      CycleCheckExact(s, self, content.refs);
    }
  }

  /** A value with a reference `Sheet::GetCell` rejects never commits: the
      search either finds a cycle first or throws `InvalidPosition`. */
  lemma SetRejectsInvalidReference(s: Sheet, self: Position, text: string, parse: Parser, x: Position)
    requires self in s.cells
    requires Classify(text, parse).Ok? && x in DirectRefs(Classify(text, parse).value) && !IsValid(x)
    ensures Set(s, self, text, parse).raised in {Some(CircularDependency), Some(InvalidPosition)}
  {
    var content := Classify(text, parse).value;
    if CheckCycle(s, self, content).probe == NoCycle {
      CheckCyclePassed(s, self, content);
      assert false;
    }
  }

  /** A successful `Set` resets the cache of exactly the formulas that read
      the cell, directly or through other formulas, and leaves the values of
      all other cells alone. */
  lemma SetInvalidatesReaders(s: Sheet, self: Position, text: string, parse: Parser)
    requires WellFormed(s) && self in s.cells
    requires Set(s, self, text, parse).raised == None
    ensures var r := Set(s, self, text, parse).state;
      forall q :: q in s.cells && q != self ==>
        r.cells[q].content ==
          if ReachableFrom(RefGraph(s.cells), {q}, self) then ResetCache(s.cells[q].content) else s.cells[q].content
  {
    var content := Classify(text, parse).value;
    var t := CheckCycle(s, self, content).sheet;
    SetCases(s, self, text, parse);
    assert Set(s, self, text, parse).state == Commit(t, self, content);
    CommitAfterSearch(s, t, self, content);
  }

  /** A commit on a sheet the cycle search extended resets exactly the
      readers of `self` in the original sheet. */
  lemma CommitAfterSearch(s: Sheet, t: Sheet, self: Position, content: Content)
    requires WellFormed(s) && self in s.cells && Extends(s.cells, t.cells) && Fits(t)
    ensures var r := Commit(t, self, content);
      forall q :: q in s.cells && q != self ==>
        r.cells[q].content ==
          if ReachableFrom(RefGraph(s.cells), {q}, self) then ResetCache(s.cells[q].content) else s.cells[q].content
  {
    var r := Commit(t, self, content);
    CommitContents(t, self, content);
    forall q | q in s.cells && q != self
      ensures r.cells[q].content ==
                if ReachableFrom(RefGraph(s.cells), {q}, self) then ResetCache(s.cells[q].content) else s.cells[q].content
    {
      assert t.cells[q] == s.cells[q];
      ReaderAfterSearch(s, t, self, q);
    }
  }

  /** The cells the cycle search adds read nothing, so they do not change who
      reads `self`. */
  lemma ReaderAfterSearch(s: Sheet, t: Sheet, self: Position, q: Position)
    requires WellFormed(s) && Extends(s.cells, t.cells) && Fits(t) && q != self
    ensures q in Invalidated(t.cells, self) <==> ReachableFrom(RefGraph(s.cells), {q}, self)
  {
    ExtendsKeepsWellFormed(s, t);
    InvalidatesExactlyReaders(t, self);
    ExtendsAddsSinks(s.cells, t.cells);
    SinksKeepReachability(RefGraph(s.cells), RefGraph(t.cells));
  }



  /** A successful `Set` makes the cell's new references exactly the positions
      the new value reads, and changes no other cell's references. */
  lemma SetRewiresReferences(s: Sheet, self: Position, text: string, parse: Parser)
    requires self in s.cells
    requires Set(s, self, text, parse).raised == None
    ensures var r := Set(s, self, text, parse).state;
      forall q, x :: Refers(r.cells, q, x) <==>
        if q == self then x in DirectRefs(Classify(text, parse).value) else Refers(s.cells, q, x)
  {
    var content := Classify(text, parse).value;
    var search := CheckCycle(s, self, content);
    SetCases(s, self, text, parse);
    ExtendsKeepsFormulas(s.cells, search.sheet.cells);
    CommitReferences(search.sheet, self, content);
  }

  /** Setting the empty text is `Cell::Clear`. */
  lemma SetEmptyIsClear(s: Sheet, self: Position, parse: Parser)
    requires self in s.cells
    ensures Set(s, self, "", parse) == Outcome(ClearContent(s, self), None)
  {
    assert Classify("", parse) == Ok(Empty);
    SetCases(s, self, "", parse);
    CommitEmpty(s, self);
  }

  /** Committing the empty value stores nothing and binds nothing. */
  lemma CommitEmpty(s: Sheet, self: Position)
    requires self in s.cells
    ensures Commit(s, self, Empty) == ClearContent(s, self)
  {
    var cleared := ClearContent(s, self);
    var stored := cleared.cells[self := Cell(Empty, cleared.cells[self].dependents)];
    assert stored == cleared.cells;
  }

  // ---------------------------------------------------------------------------
  // Reading the graph back

  /** No position is listed twice. */
  predicate Distinct(s: seq<Position>) {
    forall i, j :: 0 <= i < j < |s| ==> s[i] != s[j]
  }

  /** An order of positions and the positions marked so far. */
  datatype Listing = Listing(order: seq<Position>, visited: set<Position>)

  /** `CreateReferencedCellsInPlace`: walks `refs` in order and lists each
      position the first time it is met, followed by what its formula reads,
      depth first. */
  function ListRefs(cells: map<Position, Cell>, refs: seq<Position>, visited: set<Position>): (r: Listing)
    ensures visited <= r.visited
    decreases |FormulaKeys(cells) - visited|, |refs|
  {
    if refs == [] then Listing([], visited)
    else
      var p := refs[0];
      if p in visited then ListRefs(cells, refs[1..], visited)
      else
        var below :=
          if p in cells && cells[p].content.Formula? then
            StrictSubsetCard(FormulaKeys(cells) - (visited + {p}), FormulaKeys(cells) - visited);
            ListRefs(cells, cells[p].content.refs, visited + {p})
          else Listing([], visited + {p});
        SubsetCard(FormulaKeys(cells) - below.visited, FormulaKeys(cells) - visited);
        var after := ListRefs(cells, refs[1..], below.visited);
        Listing([p] + below.order + after.order, after.visited)
  }

  /** The listing names exactly the positions it newly marks, and marks
      everything in `refs`. */
  lemma {:induction false} ListingMarks(cells: map<Position, Cell>, refs: seq<Position>, visited: set<Position>)
    ensures var r := ListRefs(cells, refs, visited);
      Elems(refs) <= r.visited && Elems(r.order) == r.visited - visited
    decreases |FormulaKeys(cells) - visited|, |refs|
  {
    if refs != [] {
      var p := refs[0];
      assert refs == [p] + refs[1..];
      ElemsConcat([p], refs[1..]);
      if p in visited {
        ListingMarks(cells, refs[1..], visited);
      } else {
        var below :=
          if p in cells && cells[p].content.Formula? then ListRefs(cells, cells[p].content.refs, visited + {p})
          else Listing([], visited + {p});
        if p in cells && cells[p].content.Formula? {
          StrictSubsetCard(FormulaKeys(cells) - (visited + {p}), FormulaKeys(cells) - visited);
          ListingMarks(cells, cells[p].content.refs, visited + {p});
        }
        assert Elems(below.order) == below.visited - (visited + {p});
        SubsetCard(FormulaKeys(cells) - below.visited, FormulaKeys(cells) - visited);
        var after := ListRefs(cells, refs[1..], below.visited);
        ListingMarks(cells, refs[1..], below.visited);
        assert ListRefs(cells, refs, visited) == Listing([p] + below.order + after.order, after.visited);
        MarksStep(visited, p, below, after);
      }
    }
  }

  /** One step of `ListingMarks`: `p`, then what was listed below it, then
      what was listed after it. */
  lemma MarksStep(visited: set<Position>, p: Position, below: Listing, after: Listing)
    requires p !in visited && visited + {p} <= below.visited <= after.visited
    requires Elems(below.order) == below.visited - (visited + {p})
    requires Elems(after.order) == after.visited - below.visited
    ensures Elems([p] + below.order + after.order) == after.visited - visited
  {
    ElemsConcat([p], below.order);
    ElemsConcat([p] + below.order, after.order);
    assert Elems([p]) == {p};
  }

  /** No position is listed twice. */
  lemma {:induction false} ListingDistinct(cells: map<Position, Cell>, refs: seq<Position>, visited: set<Position>)
    ensures Distinct(ListRefs(cells, refs, visited).order)
    decreases |FormulaKeys(cells) - visited|, |refs|
  {
    if refs != [] {
      var p := refs[0];
      if p in visited {
        ListingDistinct(cells, refs[1..], visited);
      } else {
        var below :=
          if p in cells && cells[p].content.Formula? then ListRefs(cells, cells[p].content.refs, visited + {p})
          else Listing([], visited + {p});
        if p in cells && cells[p].content.Formula? {
          StrictSubsetCard(FormulaKeys(cells) - (visited + {p}), FormulaKeys(cells) - visited);
          ListingDistinct(cells, cells[p].content.refs, visited + {p});
        }
        SubsetCard(FormulaKeys(cells) - below.visited, FormulaKeys(cells) - visited);
        var after := ListRefs(cells, refs[1..], below.visited);
        ListingDistinct(cells, refs[1..], below.visited);
        assert ListRefs(cells, refs, visited) == Listing([p] + below.order + after.order, after.visited);
        ListingMarks(cells, refs[1..], below.visited);
        if p in cells && cells[p].content.Formula? {
          ListingMarks(cells, cells[p].content.refs, visited + {p});
        }
        DistinctConcat([p], below.order);
        DistinctConcat([p] + below.order, after.order);
      }
    }
  }

  /** Every newly marked formula has its references marked too. */
  lemma {:induction false} ListingClosed(cells: map<Position, Cell>, refs: seq<Position>, visited: set<Position>)
    ensures var r := ListRefs(cells, refs, visited);
      forall q :: q in r.visited - visited && q in cells ==> Elems(DirectRefs(cells[q].content)) <= r.visited
    decreases |FormulaKeys(cells) - visited|, |refs|
  {
    if refs != [] {
      var p := refs[0];
      if p in visited {
        ListingClosed(cells, refs[1..], visited);
      } else {
        var below :=
          if p in cells && cells[p].content.Formula? then ListRefs(cells, cells[p].content.refs, visited + {p})
          else Listing([], visited + {p});
        if p in cells && cells[p].content.Formula? {
          StrictSubsetCard(FormulaKeys(cells) - (visited + {p}), FormulaKeys(cells) - visited);
          ListingClosed(cells, cells[p].content.refs, visited + {p});
        }
        SubsetCard(FormulaKeys(cells) - below.visited, FormulaKeys(cells) - visited);
        var after := ListRefs(cells, refs[1..], below.visited);
        ListingClosed(cells, refs[1..], below.visited);
        assert ListRefs(cells, refs, visited) == Listing([p] + below.order + after.order, after.visited);
        if p in cells && cells[p].content.Formula? {
          ListingMarks(cells, cells[p].content.refs, visited + {p});
        }
      }
    }
  }

  lemma DistinctConcat(a: seq<Position>, b: seq<Position>)
    requires Distinct(a) && Distinct(b) && Elems(a) !! Elems(b)
    ensures Distinct(a + b)
  {
    var c := a + b;
    forall i, j | 0 <= i < j < |c|
      ensures c[i] != c[j]
    {
      if j < |a| {
      } else if i >= |a| {
        assert c[i] == b[i - |a|] && c[j] == b[j - |a|];
      } else {
        assert c[i] in Elems(a) && c[j] == b[j - |a|] && c[j] in Elems(b);
      }
    }
  }

  /** Everything listed is reachable from `refs`. */
  lemma {:induction false} ListedAreReachable(cells: map<Position, Cell>, refs: seq<Position>, visited: set<Position>)
    ensures forall x :: x in ListRefs(cells, refs, visited).order ==> ReachableFrom(RefGraph(cells), Elems(refs), x)
    decreases |FormulaKeys(cells) - visited|, |refs|
  {
    var g := RefGraph(cells);
    if refs != [] {
      var p := refs[0];
      assert Elems(refs[1..]) <= Elems(refs);
      if p in visited {
        ListedAreReachable(cells, refs[1..], visited);
        forall x | x in ListRefs(cells, refs[1..], visited).order
          ensures ReachableFrom(g, Elems(refs), x)
        {
          ReachableFromMore(g, Elems(refs[1..]), Elems(refs), x);
        }
      } else {
        var below :=
          if p in cells && cells[p].content.Formula? then ListRefs(cells, cells[p].content.refs, visited + {p})
          else Listing([], visited + {p});
        if p in cells && cells[p].content.Formula? {
          StrictSubsetCard(FormulaKeys(cells) - (visited + {p}), FormulaKeys(cells) - visited);
          ListedAreReachable(cells, cells[p].content.refs, visited + {p});
          forall x | x in below.order
            ensures ReachableFrom(g, Elems(refs), x)
          {
            forall y | y in Elems(cells[p].content.refs)
              ensures Edge(g, p, y)
            {
            }
            ReachableThroughEdge(g, p, Elems(cells[p].content.refs), x);
            ReachableFromMore(g, {p}, Elems(refs), x);
          }
        }
        SubsetCard(FormulaKeys(cells) - below.visited, FormulaKeys(cells) - visited);
        ListedAreReachable(cells, refs[1..], below.visited);
        forall x | x in ListRefs(cells, refs[1..], below.visited).order
          ensures ReachableFrom(g, Elems(refs), x)
        {
          ReachableFromMore(g, Elems(refs[1..]), Elems(refs), x);
        }
        assert IsPath(g, [p]);
      }
    }
  }

  /** `Cell::GetReferencedCells`: for a formula, every position it reads
      directly or indirectly, each once, in depth-first order; nothing for
      the other values. */
  function GetReferencedCells(s: Sheet, self: Position): seq<Position>
    requires self in s.cells
  {
    if s.cells[self].content.Formula? then ListRefs(s.cells, s.cells[self].content.refs, {}).order else []
  }

  /** The listing holds no duplicate and is exactly the set of positions the
      cell reaches in one or more steps of the references graph. */
  lemma ReferencedCellsExact(s: Sheet, self: Position)
    requires self in s.cells
    ensures Distinct(GetReferencedCells(s, self))
    ensures forall x :: x in GetReferencedCells(s, self) <==> Reaches(RefGraph(s.cells), self, x)
  {
    var g := RefGraph(s.cells);
    var refs := DirectRefs(s.cells[self].content);
    assert g[self] == Elems(refs);
    forall x
      ensures Reaches(g, self, x) <==> ReachableFrom(g, Elems(refs), x)
    {
      ReachesViaSuccessor(g, self, x);
    }
    var l := ListRefs(s.cells, refs, {});
    ListingMarks(s.cells, refs, {});
    ListingDistinct(s.cells, refs, {});
    ListingClosed(s.cells, refs, {});
    if s.cells[self].content.Formula? {
      ListedAreReachable(s.cells, refs, {});
      assert Closed(g, l.visited);
      forall x | ReachableFrom(g, Elems(refs), x)
        ensures x in l.order
      {
        ClosedContainsReachable(g, Elems(refs), l.visited, x);
      }
    }
  }

  /** `Cell::IsReferenced`: the value is a formula that reads at least one
      position. */
  function IsReferenced(c: Cell): bool {
    c.content.Formula? && c.content.refs != []
  }

  /** A cell is referenced exactly when `GetReferencedCells` lists something. */
  lemma IsReferencedIffListed(s: Sheet, self: Position)
    requires self in s.cells
    ensures IsReferenced(s.cells[self]) <==> GetReferencedCells(s, self) != []
  {
    var refs := DirectRefs(s.cells[self].content);
    if IsReferenced(s.cells[self]) {
      ListingMarks(s.cells, refs, {});
      assert refs[0] in Elems(ListRefs(s.cells, refs, {}).order);
    }
  }

  /** `Cell::IsCacheValie`: only a formula can hold a valid cached result. */
  function IsCacheValid(c: Cell): bool {
    c.content.Formula? && c.content.cacheValid
  }

  /** After a successful `Set`, neither the cell nor any formula that reads
      it holds a cached result. */
  lemma SetLeavesNoStaleCache(s: Sheet, self: Position, text: string, parse: Parser)
    requires WellFormed(s) && self in s.cells
    requires Set(s, self, text, parse).raised == None
    ensures var r := Set(s, self, text, parse).state;
      && !IsCacheValid(r.cells[self])
      && forall q :: q in s.cells && q != self && ReachableFrom(RefGraph(s.cells), {q}, self) ==> !IsCacheValid(r.cells[q])
  {
    SetInvalidatesReaders(s, self, text, parse);
  }
}
