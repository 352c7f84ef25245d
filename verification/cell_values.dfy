/** What a single cell holds: the Empty / Text / Formula variants of
    src/cell.h (`EmptyCellValue`, `TextCellValue`, `FormulaCellValue`) and of
    the earlier ast/cell.h (`EmptyImpl`, `TextImpl`, `FormulaImpl`), and the
    classification of input text both revisions share (`CreateCell`).

    The formula parser is not modelled.  It is a parameter that either returns
    the canonical expression and the referenced positions, or fails (the
    `FormulaException` of src/formula.cpp). */
module CellValues {
  import opened Errors
  import opened Positions

  const FormulaSign: char := '='
  const EscapeSign: char := '\''

  /** What the parser hands back for a formula: the expression as the
      syntax tree prints it, and the positions it reads, in its own order. */
  datatype Parsed = Parsed(expression: string, refs: seq<Position>)

  /** The external formula parser; `None` is a syntax error. */
  type Parser = string -> Option<Parsed>

  /** A cell value.  `cacheValid` says whether a formula's evaluated result is
      currently cached; evaluation itself is not modelled. */
  datatype Content =
    | Empty
    | Text(text: string)
    | Formula(expression: string, refs: seq<Position>, cacheValid: bool)

  /** `CellInterface::Value` as far as this model can tell: a string, or the
      number or error the evaluator produces for a formula's expression. */
  datatype Value = Str(s: string) | FormulaResult(expression: string)

  /** Text that `CreateCell` hands to the parser: the formula sign followed
      by at least one more character. */
  predicate IsFormulaText(text: string) {
    |text| > 1 && text[0] == FormulaSign
  }

  /** `CreateCell` (src/cell.cpp and ast/cell.cpp): "" is Empty; the formula
      sign plus at least one character is a formula of the remainder; anything
      else, a lone "=" included, is Text kept verbatim. */
  function Classify(text: string, parse: Parser): (r: Result<Content>)
    ensures (r.Ok? && r.value.Empty?) <==> text == ""
    ensures (r.Ok? && r.value.Text?) <==> text != "" && !IsFormulaText(text)
    ensures r.Ok? && r.value.Text? ==> r.value.text == text
    ensures (r.Ok? && r.value.Formula?) <==> IsFormulaText(text) && parse(text[1..]).Some?
    ensures r.Ok? && r.value.Formula? ==>
              && !r.value.cacheValid
              && parse(text[1..]) == Some(Parsed(r.value.expression, r.value.refs))
    ensures r.Err? <==> IsFormulaText(text) && parse(text[1..]).None?
    ensures r.Err? ==> r.error == FormulaSyntax
  {
    if text != "" then
      if IsFormulaText(text) then
        match parse(text[1..])
        case Some(parsed) => Ok(Formula(parsed.expression, parsed.refs, false))
        case None => Err(FormulaSyntax)
      else Ok(Text(text))
    else Ok(Empty)
  }

  /** `GetText`: "" for Empty, the stored text verbatim (escape sign
      included) for Text, and '=' plus the canonical expression for a
      formula. */
  function GetText(c: Content): string {
    match c
    case Empty => ""
    case Text(t) => t
    case Formula(e, _, _) => [FormulaSign] + e
  }

  /** `GetValue`: Empty shows as the empty string, Text drops one leading
      escape sign, and a formula yields its evaluated result. */
  function GetValue(c: Content): (r: Value)
    ensures c.Empty? ==> r == Str("")
    ensures c.Text? ==> r.Str? && (r.s == c.text || [EscapeSign] + r.s == c.text)
    ensures c.Text? && c.text != "" && c.text[0] == EscapeSign ==> [EscapeSign] + r.s == c.text
    ensures c.Text? && (c.text == "" || c.text[0] != EscapeSign) ==> r.s == c.text
    ensures c.Formula? ==> r == FormulaResult(c.expression)
  {
    match c
    case Empty => Str("")
    case Text(t) =>
      if t != "" && t[0] == EscapeSign then Str(t[1..]) else Str(t)
    case Formula(e, _, _) => FormulaResult(e)
  }

  /** The positions a formula reads directly (`FormulaCellValue::
      GetReferencedCells`); none for the other variants. */
  function DirectRefs(c: Content): seq<Position> {
    if c.Formula? then c.refs else []
  }

  /** `FormulaCellValue::ResetCache`, reached through `Cell::InvalidateCache`:
      only a formula has a cache to drop. */
  function ResetCache(c: Content): (r: Content)
    ensures !(r.Formula? && r.cacheValid)
    ensures GetText(r) == GetText(c) && DirectRefs(r) == DirectRefs(c)
    ensures r.Formula? <==> c.Formula?
    ensures !c.Formula? ==> r == c
  {
    if c.Formula? then c.(cacheValid := false) else c
  }

  /** Two values that differ at most in whether a formula's result is
      cached. */
  predicate SameUpToCache(a: Content, b: Content) {
    ResetCache(a) == ResetCache(b)
  }

  /** Dropping a cache changes neither the text nor the references. */
  lemma SameUpToCacheKeepsText(a: Content, b: Content)
    requires SameUpToCache(a, b)
    ensures GetText(a) == GetText(b) && DirectRefs(a) == DirectRefs(b) && a.Formula? == b.Formula?
  {
    assert GetText(ResetCache(a)) == GetText(ResetCache(b));
  }

  // ---------------------------------------------------------------------------
  // Classification followed by rendering

  /** Non-formula text reads back verbatim, escape sign and lone "=" included. */
  lemma PlainTextReadsBack(text: string, parse: Parser)
    requires !IsFormulaText(text)
    ensures Classify(text, parse).Ok?
    ensures GetText(Classify(text, parse).value) == text
  {
  }

  /** A formula reads back as '=' followed by the parser's canonical
      expression, not the bytes that were typed. */
  lemma FormulaReadsBackCanonical(text: string, parse: Parser)
    requires IsFormulaText(text) && parse(text[1..]).Some?
    ensures Classify(text, parse).Ok?
    ensures GetText(Classify(text, parse).value) == [FormulaSign] + parse(text[1..]).value.expression
  {
  }

  /** The value of typed text: exactly one leading escape sign is dropped, so
      "'" shows as "" and "'=1+2" as "=1+2". */
  lemma EscapedTextValue(text: string, parse: Parser)
    requires |text| >= 1 && text[0] == EscapeSign
    ensures Classify(text, parse) == Ok(Text(text))
    ensures GetValue(Classify(text, parse).value) == Str(text[1..])
  {
    assert text == [EscapeSign] + text[1..];
  }

  /** Examples from the cell tests. */
  lemma ClassifyExamples(parse: Parser)
    ensures Classify("", parse) == Ok(Empty)
    ensures Classify("=", parse) == Ok(Text("="))
    ensures GetValue(Text("'")) == Str("")
    ensures GetValue(Text("'apostroph")) == Str("apostroph")
    ensures GetValue(Text("simple_text")) == Str("simple_text")
  {
  }
}
