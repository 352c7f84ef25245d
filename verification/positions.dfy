/** Cell addresses and their "A1"-style labels (src/structures.cpp).

    A position is a zero-based (row, col) pair.  Its label is the column
    written in bijective base 26 (A = 0, ..., Z = 25, AA = 26, ...) followed by
    the one-based row in decimal.  Row and column are modelled as mathematical
    integers; `std::stoi` and `std::pow` are replaced by exact integer
    arithmetic. */
module Positions {

  const Letters: int := 26
  const MaxLetterCount: int := 3
  const MaxNumberLength: int := 17
  /** The sheet limits; the label of the largest valid position is "XFD16384". */
  const MaxRows: int := 16384
  const MaxCols: int := 16384

  datatype Position = Position(row: int, col: int)

  /** `Position::NONE`, the result of a failed parse. */
  const NoPosition: Position := Position(-1, -1)

  /** `Position::IsValid`. */
  predicate IsValid(p: Position) {
    p.row >= 0 && p.col >= 0 && p.row < MaxRows && p.col < MaxCols
  }

  lemma NoPositionIsInvalid()
    ensures !IsValid(NoPosition)
    ensures forall p: Position :: IsValid(p) ==> p != NoPosition
  {
  }

  /** `Position::operator==`: componentwise comparison. */
  function Equal(a: Position, b: Position): (r: bool)
    ensures r <==> a == b
  {
    a.row == b.row && a.col == b.col
  }

  /** `Position::operator<`: the tuple (row, col) compared lexicographically. */
  function Less(a: Position, b: Position): bool {
    a.row < b.row || (a.row == b.row && a.col < b.col)
  }

  /** `<` is a strict total order whose equality is `==`, so positions can
      key ordered containers. */
  lemma LessIsStrictTotalOrder(a: Position, b: Position, c: Position)
    ensures !Less(a, a)
    ensures Less(a, b) ==> !Less(b, a)
    ensures Less(a, b) && Less(b, c) ==> Less(a, c)
    ensures Less(a, b) || a == b || Less(b, a)
  {
  }

  // ---------------------------------------------------------------------------
  // Characters

  predicate IsUpper(c: char) { 'A' <= c <= 'Z' }

  predicate IsDigit(c: char) { '0' <= c <= '9' }

  predicate AllUpper(s: string) {
    forall i :: 0 <= i < |s| ==> IsUpper(s[i])
  }

  predicate AllDigits(s: string) {
    forall i :: 0 <= i < |s| ==> IsDigit(s[i])
  }

  /** `GetChar`: the letter of a base-26 digit. */
  function LetterOf(i: int): (c: char)
    requires 0 <= i < Letters
    ensures IsUpper(c)
  {
    (i + 'A' as int) as char
  }

  /** `GetIndex`: the base-26 digit of an upper-case letter. */
  function IndexOf(c: char): (i: int)
    requires IsUpper(c)
    ensures 0 <= i < Letters
    ensures LetterOf(i) == c
  {
    c as int - 'A' as int
  }

  function DigitChar(d: int): (c: char)
    requires 0 <= d < 10
    ensures IsDigit(c)
  {
    (d + '0' as int) as char
  }

  function DigitOf(c: char): (d: int)
    requires IsDigit(c)
    ensures 0 <= d < 10
    ensures DigitChar(d) == c
  {
    c as int - '0' as int
  }

  function Pow(b: nat, e: nat): (r: nat)
    ensures b >= 1 ==> r >= 1
  {
    if e == 0 then 1 else b * Pow(b, e - 1)
  }

  // ---------------------------------------------------------------------------
  // Encoding

  /** The column label, as the loop of `ColToString` builds it: the last
      letter is `col % 26` and the rest is the label of `col / 26 - 1`. */
  function ColLabel(col: nat): (s: string)
    ensures |s| >= 1 && AllUpper(s)
    decreases col
  {
    if col < Letters then [LetterOf(col)]
    else ColLabel(col / Letters - 1) + [LetterOf(col % Letters)]
  }

  /** `ColToString`: prepends `col % 26` while the numerator is at least 26,
      then prepends the final numerator. */
  method ColToString(col: nat) returns (s: string)
    ensures s == ColLabel(col)
    ensures 1 <= |s| && AllUpper(s)
  {
    var numerator := col;
    s := "";
    while numerator >= Letters
      invariant 0 <= numerator
      invariant ColLabel(col) == ColLabel(numerator) + s
      decreases numerator
    {
      var remainder := numerator % Letters;
      s := [LetterOf(remainder)] + s;
      numerator := numerator / Letters - 1;
    }
    s := [LetterOf(numerator)] + s;
  }

  /** `std::to_string` of a natural number: decimal, no leading zero. */
  function DecimalString(n: nat): (s: string)
    ensures |s| >= 1 && AllDigits(s)
    ensures n >= 1 ==> s[0] != '0'
    decreases n
  {
    if n < 10 then [DigitChar(n)]
    else DecimalString(n / 10) + [DigitChar(n % 10)]
  }

  /** `RowToString`: the one-based row number, in decimal without a
      leading zero, reading back as `row + 1`. */
  function RowLabel(row: nat): (s: string)
    ensures |s| >= 1 && AllDigits(s) && s[0] != '0'
    ensures DecimalValue(s) == row + 1
  {
    DecimalRoundTrip(row + 1);
    DecimalString(row + 1)
  }

  /** The shape every label produced by `ToString` has: 1 to 3 upper-case
      letters, then a decimal number of at most 17 digits without a leading
      zero. */
  predicate IsLabel(s: string, k: int) {
    && 1 <= k <= MaxLetterCount && k < |s|
    && AllUpper(s[..k])
    && AllDigits(s[k..]) && s[k] != '0' && |s| - k <= MaxNumberLength
  }

  /** `Position::ToString`: "" for an invalid position (`NONE` included),
      otherwise column letters followed by the one-based row. */
  function ToString(p: Position): (r: string)
    ensures !IsValid(p) ==> r == ""
    ensures IsValid(p) ==> IsLabel(r, |ColLabel(p.col)|)
  {
    if !IsValid(p) then ""
    else
      LabelLengths(p);
      ColLabel(p.col) + RowLabel(p.row)
  }

  // ---------------------------------------------------------------------------
  // Decoding

  /** `std::find_if(..., IsValidIntSymbol)`: the index of the first digit, or
      `|s|` when there is none. */
  function FirstDigit(s: string): (k: nat)
    ensures k <= |s|
    ensures forall i :: 0 <= i < k ==> !IsDigit(s[i])
    ensures k < |s| ==> IsDigit(s[k])
  {
    if s == [] then 0
    else if IsDigit(s[0]) then 0
    else 1 + FirstDigit(s[1..])
  }

  /** `IsValidString`: at most three upper-case letters.  A non-empty
      accepted prefix is the label of the column it decodes to. */
  predicate IsValidString(t: string): (r: bool)
    ensures r ==> |t| <= MaxLetterCount && AllUpper(t)
    ensures r && |t| >= 1 ==> ColLabel(LettersToCol(t)) == t
  {
    var ok := |t| <= MaxLetterCount && AllUpper(t);
    if ok && |t| >= 1 then ColCanonical(t); ok else ok
  }

  /** `IsValidNumber`, called on a non-empty suffix: a suffix starting with
      '0' is accepted only when it is exactly "0"; otherwise at most 17
      digits. */
  predicate IsValidNumber(t: string): (r: bool)
    requires |t| >= 1
    ensures r ==> AllDigits(t) && |t| <= MaxNumberLength
    ensures r && t != "0" ==> DecimalValue(t) >= 1 && DecimalString(DecimalValue(t)) == t
  {
    if t[0] == '0' then |t| == 1
    else if |t| <= MaxNumberLength && AllDigits(t) then
      DecimalLeadingNonZero(t);
      DecimalCanonical(t);
      true
    else false
  }

  /** `std::stoi` on a string of digits. */
  function DecimalValue(t: string): (n: nat)
    requires AllDigits(t)
    decreases |t|
  {
    if t == [] then 0
    else DecimalValue(t[..|t| - 1]) * 10 + DigitOf(t[|t| - 1])
  }

  /** The sum the `while (power != 0)` loop of `CreatePosition` accumulates
      over the leading letters: `(index + 1) * 26^power` for each. */
  function LeadingSum(t: string): (n: nat)
    requires AllUpper(t)
  {
    if t == [] then 0
    else (IndexOf(t[0]) + 1) * Pow(Letters, |t|) + LeadingSum(t[1..])
  }

  /** The column `CreatePosition` computes from the letter prefix. */
  function LettersToCol(letters: string): (c: nat)
    requires |letters| >= 1 && AllUpper(letters)
    ensures c % Letters == IndexOf(letters[|letters| - 1])
    ensures |letters| == 1 <==> c < Letters
  {
    var init := letters[..|letters| - 1];
    if |init| >= 1 then
      assert init == init[..|init| - 1] + [init[|init| - 1]];
      LeadingSumSnoc(init[..|init| - 1], init[|init| - 1]);
      LeadingSum(init) + IndexOf(letters[|letters| - 1])
    else
      LeadingSum(init) + IndexOf(letters[|letters| - 1])
  }

  /** `CreatePosition`: row from the digits, column from the letters.  The
      column's label is the letters, and digits without a leading zero are
      the row's label. */
  function CreatePosition(letters: string, digits: string): (p: Position)
    requires |letters| >= 1 && AllUpper(letters) && AllDigits(digits)
    ensures p.col >= 0 && ColLabel(p.col) == letters
    ensures |digits| >= 1 && digits[0] != '0' ==> p.row >= 0 && RowLabel(p.row) == digits
  {
    ColCanonical(letters);
    var p := Position(DecimalValue(digits) - 1, LettersToCol(letters));
    if |digits| >= 1 && digits[0] != '0' then
      DecimalLeadingNonZero(digits);
      DecimalCanonical(digits);
      p
    else p
  }

  /** `Position::FromString`, i.e. `PositionCreator::Build(string_view)`.
      Every result is either a valid position or exactly `NONE`. */
  function FromString(s: string): (r: Position)
    ensures r == NoPosition || IsValid(r)
  {
    var k := FirstDigit(s);
    if k == 0 || k == |s| then NoPosition
    else if !IsValidString(s[..k]) || !IsValidNumber(s[k..]) then NoPosition
    else
      var pos := CreatePosition(s[..k], s[k..]);
      if IsValid(pos) then pos else NoPosition
  }

  // ---------------------------------------------------------------------------
  // Arithmetic facts about the two numerals

  lemma {:induction false} DecimalRoundTrip(n: nat)
    ensures DecimalValue(DecimalString(n)) == n
    decreases n
  {
    if n >= 10 {
      var u := DecimalString(n / 10);
      var s := u + [DigitChar(n % 10)];
      assert s[..|s| - 1] == u;
      DecimalRoundTrip(n / 10);
    }
  }

  lemma {:induction false} DecimalLeadingNonZero(t: string)
    requires |t| >= 1 && AllDigits(t) && t[0] != '0'
    ensures DecimalValue(t) >= 1
    decreases |t|
  {
    if |t| > 1 {
      var u := t[..|t| - 1];
      assert u[0] == t[0];
      DecimalLeadingNonZero(u);
    }
  }

  lemma {:induction false} DecimalCanonical(t: string)
    requires |t| >= 1 && AllDigits(t) && t[0] != '0'
    ensures DecimalString(DecimalValue(t)) == t
    decreases |t|
  {
    var u := t[..|t| - 1];
    var d := DigitOf(t[|t| - 1]);
    if |t| == 1 {
      assert t == [t[0]];
    } else {
      assert u[0] == t[0];
      DecimalLeadingNonZero(u);
      DecimalCanonical(u);
      var n := DecimalValue(t);
      assert n == DecimalValue(u) * 10 + d;
      assert n / 10 == DecimalValue(u) && n % 10 == d;
      assert t == u + [t[|t| - 1]];
    }
  }

  lemma {:induction false} DecimalLength(n: nat, k: nat)
    requires 1 <= k && n < Pow(10, k)
    ensures |DecimalString(n)| <= k
    decreases k
  {
    if n >= 10 {
      assert Pow(10, k) == 10 * Pow(10, k - 1);
      assert Pow(10, 0) == 1;
      DecimalLength(n / 10, k - 1);
    }
  }

  lemma {:induction false} LeadingSumSnoc(t: string, y: char)
    requires AllUpper(t) && IsUpper(y)
    ensures AllUpper(t + [y])
    ensures LeadingSum(t + [y]) == Letters * LeadingSum(t) + Letters * (IndexOf(y) + 1)
    decreases |t|
  {
    var s := t + [y];
    if t == [] {
      assert s[1..] == [];
      assert Pow(Letters, 1) == Letters;
    } else {
      assert s[1..] == t[1..] + [y];
      LeadingSumSnoc(t[1..], y);
      var w := IndexOf(t[0]) + 1;
      var power := Pow(Letters, |t|);
      var rest := LeadingSum(t[1..]);
      var last := IndexOf(y) + 1;
      assert s[0] == t[0];
      assert LeadingSum(s) == w * Pow(Letters, |s|) + Letters * rest + Letters * last;
      assert Pow(Letters, |s|) == Letters * power;
      assert LeadingSum(t) == w * power + rest;
      ScaleSum(w, power, rest);
    }
  }

  /** `w * (26 * p) + 26 * r == 26 * (w * p + r)`. */
  lemma ScaleSum(w: nat, power: nat, rest: nat)
    ensures w * (Letters * power) + Letters * rest == Letters * (w * power + rest)
  {
  }

  /** The leading sum of a label is 26 times one more than its column. */
  lemma LeadingSumOfLabel(u: string)
    requires |u| >= 1 && AllUpper(u)
    ensures LeadingSum(u) == Letters * (LettersToCol(u) + 1)
  {
    var init := u[..|u| - 1];
    var y := u[|u| - 1];
    assert u == init + [y];
    LeadingSumSnoc(init, y);
  }

  lemma {:induction false} ColRoundTrip(c: nat)
    ensures LettersToCol(ColLabel(c)) == c
    decreases c
  {
    if c >= Letters {
      var q := c / Letters - 1;
      var u := ColLabel(q);
      var s := u + [LetterOf(c % Letters)];
      assert ColLabel(c) == s;
      assert s[..|s| - 1] == u;
      ColRoundTrip(q);
      LeadingSumOfLabel(u);
    }
  }

  lemma {:induction false} ColCanonical(s: string)
    requires |s| >= 1 && AllUpper(s)
    ensures ColLabel(LettersToCol(s)) == s
    decreases |s|
  {
    var c := LettersToCol(s);
    var y := s[|s| - 1];
    if |s| == 1 {
      assert s == [y];
    } else {
      var u := s[..|s| - 1];
      LeadingSumOfLabel(u);
      ColCanonical(u);
      assert c == Letters * (LettersToCol(u) + 1) + IndexOf(y);
      assert c / Letters - 1 == LettersToCol(u) && c % Letters == IndexOf(y);
      assert s == u + [y];
    }
  }

  /** The number of columns whose label has at most `k` letters. */
  function LabelBound(k: nat): nat {
    if k == 0 then 0 else Letters * (LabelBound(k - 1) + 1)
  }

  lemma {:induction false} ColLabelLength(c: nat, k: nat)
    requires 1 <= k && c < LabelBound(k)
    ensures |ColLabel(c)| <= k
    decreases k
  {
    if c >= Letters {
      assert LabelBound(0) == 0;
      ColLabelLength(c / Letters - 1, k - 1);
    }
  }

  /** Every valid position has at most 3 letters and at most 5 digits. */
  lemma LabelLengths(p: Position)
    requires IsValid(p)
    ensures |ColLabel(p.col)| <= MaxLetterCount
    ensures |RowLabel(p.row)| <= 5
  {
    assert LabelBound(3) == 18278;
    ColLabelLength(p.col, 3);
    assert Pow(10, 5) == 100000;
    DecimalLength(p.row + 1, 5);
  }

  /** The first digit of `letters + digits` sits right after the letters. */
  lemma SplitAtFirstDigit(letters: string, digits: string)
    requires AllUpper(letters) && |digits| >= 1 && IsDigit(digits[0])
    ensures FirstDigit(letters + digits) == |letters|
    ensures (letters + digits)[..|letters|] == letters
    ensures (letters + digits)[|letters|..] == digits
  {
    var s := letters + digits;
    assert IsDigit(s[|letters|]);
    assert forall i :: 0 <= i < |letters| ==> s[i] == letters[i];
  }

  // ---------------------------------------------------------------------------
  // The codec is a bijection between valid positions and labels

  /** Decoding a valid position's label gives the position back. */
  lemma RoundTrip(p: Position)
    requires IsValid(p)
    ensures FromString(ToString(p)) == p
  {
    var letters := ColLabel(p.col);
    var digits := RowLabel(p.row);
    var s := ToString(p);
    assert s == letters + digits;
    SplitAtFirstDigit(letters, digits);
    LabelLengths(p);
    ColRoundTrip(p.col);
    DecimalRoundTrip(p.row + 1);
    assert CreatePosition(letters, digits) == p;
  }

  /** Conversely, a label that decodes at all is exactly the label of what it
      decodes to: no leading zeros, lower case or other spellings slip
      through. */
  lemma CanonicalLabels(s: string)
    requires FromString(s) != NoPosition
    ensures ToString(FromString(s)) == s
  {
    var k := FirstDigit(s);
    var letters, digits := s[..k], s[k..];
    var p := FromString(s);
    assert p == CreatePosition(letters, digits);
    assert digits[0] == '0' ==> digits == "0";
    assert DecimalValue("0") == 0;
    ColCanonical(letters);
    DecimalCanonical(digits);
    assert s == letters + digits;
  }

  /** `ToString` yields "" exactly for invalid positions. */
  lemma EmptyLabelIffInvalid(p: Position)
    ensures ToString(p) == "" <==> !IsValid(p)
  {
  }

  /** A label needs both a letter prefix and a digit suffix. */
  lemma HalfLabelsRejected()
    ensures FromString("") == NoPosition
    ensures FromString("A") == NoPosition
    ensures FromString("1") == NoPosition
  {
    assert FirstDigit("A") == 1;
    assert FirstDigit("1") == 0;
  }

  /** Row "0" passes the digit check but decodes to row -1. */
  lemma RowZeroRejected()
    ensures FromString("A0") == NoPosition
  {
    var s := "A0";
    assert FirstDigit(s) == 1;
    assert s[..1] == "A" && s[1..] == "0";
    assert DecimalValue("0") == 0;
  }

  /** Prefixes other than 1 to 3 capitals and suffixes with a leading zero
      or a non-digit are rejected. */
  lemma MalformedPartsRejected()
    ensures FromString("e2") == NoPosition
    ensures FromString("A-1") == NoPosition
    ensures FromString("R2D2") == NoPosition
    ensures FromString("ABCD1") == NoPosition
    ensures FromString("A01") == NoPosition
  {
    assert FirstDigit("e2") == 1 && "e2"[..1] == "e";
    assert FirstDigit("A-1") == 2 && "A-1"[..2] == "A-";
    assert FirstDigit("R2D2") == 1 && "R2D2"[1..] == "2D2";
    assert FirstDigit("ABCD1") == 4 && "ABCD1"[..4] == "ABCD";
    assert FirstDigit("A01") == 1 && "A01"[1..] == "01";
  }

  /** Labels from the tests. */
  lemma KnownLabels()
    ensures ToString(Position(0, 0)) == "A1"
    ensures ToString(Position(0, 25)) == "Z1"
    ensures ToString(Position(0, 26)) == "AA1"
    ensures ToString(Position(0, 701)) == "ZZ1"
    ensures ToString(Position(0, 702)) == "AAA1"
    ensures ToString(Position(136, 2)) == "C137"
  {
    assert ColLabel(701) == ColLabel(25) + [LetterOf(25)];
    assert ColLabel(702) == ColLabel(26) + [LetterOf(0)];
    assert ColLabel(26) == ColLabel(0) + [LetterOf(0)];
    assert DecimalString(137) == DecimalString(13) + [DigitChar(7)];
    assert DecimalString(13) == DecimalString(1) + [DigitChar(3)];
  }

  /** "XFD16384" is the label of the largest valid position. */
  lemma LargestLabel()
    ensures ToString(Position(MaxRows - 1, MaxCols - 1)) == "XFD16384"
    ensures FromString("XFD16384") == Position(MaxRows - 1, MaxCols - 1)
  {
    LastColumnLabel();
    LastRowLabel();
    RoundTrip(Position(MaxRows - 1, MaxCols - 1));
  }

  lemma LastColumnLabel()
    ensures ColLabel(MaxCols - 1) == "XFD"
  {
    assert ColLabel(16383) == ColLabel(629) + [LetterOf(3)];
    assert ColLabel(629) == ColLabel(23) + [LetterOf(5)];
  }

  lemma LastRowLabel()
    ensures RowLabel(MaxRows - 1) == "16384"
  {
    assert DecimalString(16384) == DecimalString(1638) + [DigitChar(4)];
    assert DecimalString(1638) == DecimalString(163) + [DigitChar(8)];
    assert DecimalString(163) == DecimalString(16) + [DigitChar(3)];
    assert DecimalString(16) == DecimalString(1) + [DigitChar(6)];
  }

  /** One past the largest row is rejected. */
  lemma PastLastRowRejected()
    ensures FromString("XFD16385") == NoPosition
  {
    var s := "XFD16385";
    assert FirstDigit(s) == 3;
    assert s[3..] == "16385" && s[..3] == "XFD";
    assert DecimalValue("1") == 1;
    assert DecimalValue("16") == 16 by { assert "16"[..1] == "1"; }
    assert DecimalValue("163") == 163 by { assert "163"[..2] == "16"; }
    assert DecimalValue("1638") == 1638 by { assert "1638"[..3] == "163"; }
    assert DecimalValue("16385") == 16385 by { assert "16385"[..4] == "1638"; }
  }

  /** One past the largest column is rejected. */
  lemma PastLastColumnRejected()
    ensures FromString("XFE16384") == NoPosition
  {
    var t := "XFE16384";
    assert FirstDigit(t) == 3;
    assert t[3..] == "16384" && t[..3] == "XFE";
    assert LeadingSum("F") == 6 * 26 by { assert "F"[1..] == ""; }
    assert LeadingSum("XF") == 24 * 676 + 6 * 26 by { assert "XF"[1..] == "F"; }
    assert LettersToCol("XFE") == 16384 by { assert "XFE"[..2] == "XF"; }
  }
}
