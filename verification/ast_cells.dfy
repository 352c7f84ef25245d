/** The cell of the earlier revision (ast/cell.h, ast/cell.cpp): a holder of
    one Empty / Text / Formula value that `Set` replaces wholesale, with no
    dependency bookkeeping and no cache. */
module AstCells {
  import opened Errors
  import opened CellValues

  /** `Cell` with its `impl_`.  A formula's references and cache flag are
      carried along but never consulted here. */
  datatype AstCell = AstCell(impl: Content)

  /** `Cell()`: a new cell holds Empty. */
  function NewCell(): (c: AstCell)
    ensures CellText(c) == "" && CellValue(c) == Str("")
  {
    AstCell(Empty)
  }

  /** `Cell(text)`: the value `CreateCell` classifies; a syntax error throws
      from the constructor and no cell exists. */
  function CellFromText(text: string, parse: Parser): (r: Result<AstCell>)
    ensures r.Ok? <==> Classify(text, parse).Ok?
    ensures r.Ok? ==> r.value.impl == Classify(text, parse).value
    ensures r.Err? ==> r.error == FormulaSyntax
  {
    match Classify(text, parse)
    case Ok(content) => Ok(AstCell(content))
    case Err(e) => Err(e)
  }

  /** `Cell::Set`: `CreateCell` runs first, so a syntax error throws before
      `impl_` is replaced and the cell is unchanged. */
  function SetText(c: AstCell, text: string, parse: Parser): (r: Outcome<AstCell>)
    ensures r.raised.Some? <==> Classify(text, parse).Err?
    ensures r.raised.Some? ==> r.raised == Some(FormulaSyntax) && r.state == c
    ensures r.raised.None? ==> Ok(r.state) == CellFromText(text, parse)
  {
    match CellFromText(text, parse)
    case Ok(made) => Outcome(made, None)
    case Err(e) => Outcome(c, Some(e))
  }

  /** `Cell::Clear`: whatever the cell held, it now holds Empty. */
  function Clear(c: AstCell): (r: AstCell)
    ensures r == NewCell()
  {
    AstCell(Empty)
  }

  /** `Cell::GetText`: the text of the current value. */
  function CellText(c: AstCell): string {
    GetText(c.impl)
  }

  /** `Cell::GetValue`: the value of the current value. */
  function CellValue(c: AstCell): Value {
    GetValue(c.impl)
  }

  // ---------------------------------------------------------------------------
  // What Set and Clear promise

  /** A `Set` that succeeds forgets what the cell held: the result depends on
      the text alone. */
  lemma SetForgetsPrevious(a: AstCell, b: AstCell, text: string, parse: Parser)
    requires SetText(a, text, parse).raised.None?
    ensures SetText(b, text, parse) == SetText(a, text, parse)
  {
  }

  /** Setting a cell is the same as creating one from the text, on success
      and on failure alike. */
  lemma SetIsFreshCell(c: AstCell, text: string, parse: Parser)
    ensures CellFromText(text, parse).Ok? <==> SetText(c, text, parse).raised.None?
    ensures CellFromText(text, parse).Ok? ==> SetText(c, text, parse).state == CellFromText(text, parse).value
  {
  }

  /** Non-formula text reads back verbatim from a cell, whatever the cell
      held before. */
  lemma SetTextReadsBack(c: AstCell, text: string, parse: Parser)
    requires !IsFormulaText(text)
    ensures SetText(c, text, parse).raised.None?
    ensures CellText(SetText(c, text, parse).state) == text
  {
    PlainTextReadsBack(text, parse);
  }

  /** A text cell switches to a formula: the second `Set` replaces the text
      with the parsed formula, which reads back in canonical form. */
  lemma TextToFormulaSwitch(text: string, formula: string, parse: Parser)
    requires !IsFormulaText(text) && IsFormulaText(formula) && parse(formula[1..]).Some?
    ensures var first := SetText(NewCell(), text, parse).state;
      var second := SetText(first, formula, parse);
      && second.raised.None?
      && second.state.impl.Formula?
      && CellText(second.state) == [FormulaSign] + parse(formula[1..]).value.expression
      && CellText(first) == text
  {
    SetTextReadsBack(NewCell(), text, parse);
    FormulaReadsBackCanonical(formula, parse);
  }

  /** `Clear` then `Set` is just `Set`, and `Clear` twice is `Clear` once. */
  lemma ClearThenSet(c: AstCell, text: string, parse: Parser)
    ensures SetText(Clear(c), text, parse).raised.None? ==> SetText(Clear(c), text, parse) == SetText(c, text, parse)
    ensures Clear(Clear(c)) == Clear(c)
    ensures CellText(Clear(c)) == "" && CellValue(Clear(c)) == Str("")
  {
  }

  /** Examples from the cell test of this revision, the parser returning the
      formula text unchanged. */
  lemma CellExamples()
    ensures var parse: Parser := (t: string) => Some(Parsed(t, []));
      && CellText(SetText(NewCell(), "'=1+2", parse).state) == "'=1+2"
      && CellValue(SetText(NewCell(), "'=1+2", parse).state) == Str("=1+2")
      && CellText(SetText(NewCell(), "=", parse).state) == "="
      && CellValue(SetText(NewCell(), "=", parse).state) == Str("=")
      && CellText(SetText(NewCell(), "=1+2", parse).state) == "=1+2"
      && CellText(SetText(SetText(NewCell(), "1+2", parse).state, "=1/0", parse).state) == "=1/0"
  {
    var parse: Parser := (t: string) => Some(Parsed(t, []));
    assert "=1+2"[1..] == "1+2";
    assert "=1/0"[1..] == "1/0";
    assert "'=1+2"[1..] == "=1+2";
  }
}
