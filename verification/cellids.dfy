/**
 * Cell identifiers. The game names a cell by the two-character string
 * `${row}${col}`. To move the head it reads that string with `Number`, adds a
 * direction delta, turns the sum back into a string with `String` and pads it
 * to two characters with `padStart(2, "0")`; it then splits the string into
 * characters and reads each with `Number` to get the row and the column.
 *
 * The rest of the model names a cell by the flattened index 10 * row + col.
 * This module states the string operations and proves that they agree with
 * that index.
 */
module CellIds {
  import opened Options

  predicate IsDigit(ch: char) {
    '0' <= ch <= '9'
  }

  predicate AllDigits(s: string) {
    forall i :: 0 <= i < |s| ==> IsDigit(s[i])
  }

  /** The value of a decimal digit character. */
  function DigitValue(ch: char): (d: nat)
    requires IsDigit(ch)
    ensures d < 10
  {
    ch as int - '0' as int
  }

  /** The decimal digit character for a value below ten. */
  function DigitChar(d: nat): (ch: char)
    requires d < 10
    ensures IsDigit(ch)
    ensures DigitValue(ch) == d
  {
    ('0' as int + d) as char
  }

  /** The value of a string of decimal digits, most significant first; leading zeros are allowed. */
  function DigitsValue(s: string): nat
    requires AllDigits(s)
  {
    if |s| == 0 then 0 else 10 * DigitsValue(s[..|s| - 1]) + DigitValue(s[|s| - 1])
  }

  /** `String(n)` for a non-negative integer: its shortest decimal form. */
  function NatToString(n: nat): (s: string)
    ensures 1 <= |s|
    ensures AllDigits(s)
    ensures n < 10 <==> |s| == 1
  {
    if n < 10 then [DigitChar(n)] else NatToString(n / 10) + [DigitChar(n % 10)]
  }

  /** `String(n)` for any integer: a minus sign exactly for negative n, then the digits of its magnitude. */
  function IntToString(n: int): (s: string)
    ensures |s| >= 1
    ensures s[0] == '-' <==> n < 0
    ensures n >= 0 ==> AllDigits(s)
    ensures n < 0 ==> |s| >= 2 && AllDigits(s[1..])
  {
    if n < 0 then "-" + NatToString(-n) else NatToString(n)
  }

  /** `s.padStart(len, fill)` for a one-character fill string. */
  function PadStart(s: string, len: nat, fill: char): (r: string)
    ensures |r| == if |s| >= len then |s| else len
    ensures r[|r| - |s|..] == s
    ensures forall i :: 0 <= i < |r| - |s| ==> r[i] == fill
  {
    if |s| >= len then s else seq(len - |s|, _ => fill) + s
  }

  /**
   * `Number(s)` for the strings that occur in the game: decimal digits,
   * optionally after one minus sign. Anything else reads as NaN, here None.
   */
  function NumberOf(s: string): (r: Option<int>)
    ensures r.Some? ==> |s| >= 1 && (s[0] == '-' || IsDigit(s[0]))
  {
    if |s| >= 2 && s[0] == '-' && AllDigits(s[1..]) then Some(0 - DigitsValue(s[1..]))
    else if |s| >= 1 && AllDigits(s) then Some(DigitsValue(s) as int)
    else None
  }

  /** `s.split("").map(Number)`: each character read on its own. */
  function SplitNumbers(s: string): (r: seq<Option<int>>)
    ensures |r| == |s|
    ensures forall i :: 0 <= i < |s| ==> (r[i].Some? <==> IsDigit(s[i]))
  {
    seq(|s|, i requires 0 <= i < |s| => if IsDigit(s[i]) then Some(DigitValue(s[i]) as int) else None)
  }

  /** The id `${row}${col}` of the cell in the given row and column. */
  function Id(row: nat, col: nat): (id: string)
    requires row < 10 && col < 10
    ensures |id| == 2 && AllDigits(id)
    ensures DigitValue(id[0]) == row && DigitValue(id[1]) == col
  {
    [DigitChar(row), DigitChar(col)]
  }

  /** The id of the cell a move reaches: `String(Number(id) + delta).padStart(2, "0")`. */
  function Advance(id: string, delta: int): (r: string)
    requires NumberOf(id).Some?
    ensures |r| >= 2
    ensures NumberOf(r) == Some(NumberOf(id).value + delta)
  {
    PaddedNumberRoundTrip(NumberOf(id).value + delta);
    PadStart(IntToString(NumberOf(id).value + delta), 2, '0')
  }

  /** Reading back the shortest decimal form of n gives n. */
  lemma {:induction false} NatToStringValue(n: nat)
    ensures DigitsValue(NatToString(n)) == n
  {
    var s := NatToString(n);
    if n >= 10 {
      NatToStringValue(n / 10);
      assert s[..|s| - 1] == NatToString(n / 10);
      assert DigitValue(s[|s| - 1]) == n % 10;
    }
  }

  /** A leading zero does not change the value of a digit string. */
  lemma {:induction false} LeadingZero(s: string)
    requires AllDigits(s)
    ensures AllDigits("0" + s)
    ensures DigitsValue("0" + s) == DigitsValue(s)
  {
    var z := "0" + s;
    if |s| > 0 {
      var p := s[..|s| - 1];
      LeadingZero(p);
      assert z[..|z| - 1] == "0" + p;
      assert z[|z| - 1] == s[|s| - 1];
    }
  }

  /**
   * `Number` reads back what `String(n).padStart(2, "0")` wrote, for every
   * integer n, negative ones and those of three or more digits included.
   * So `isGameOver`'s tests `newHead < 0` and `newHead >= 100` on the padded
   * string compare the integer sum itself.
   */
  lemma PaddedNumberRoundTrip(n: int)
    ensures NumberOf(PadStart(IntToString(n), 2, '0')) == Some(n)
  {
    if n < 0 {
      NegativeRoundTrip(n);
    } else if n >= 10 {
      var t := NatToString(n);
      NatToStringValue(n);
      NumberOfDigits(t);
    } else {
      OneDigitRoundTrip(n);
    }
  }

  /** A negative number is written with a minus sign and at least one digit, so it needs no padding. */
  lemma NegativeRoundTrip(n: int)
    requires n < 0
    ensures NumberOf(PadStart(IntToString(n), 2, '0')) == Some(n)
  {
    var m: nat := -n;
    var t := NatToString(m);
    assert IntToString(n) == "-" + t;
    NatToStringValue(m);
    NumberOfNegative(t);
  }

  /** A one-digit number is padded with a leading zero, which `Number` ignores. */
  lemma OneDigitRoundTrip(n: nat)
    requires n < 10
    ensures NumberOf(PadStart(IntToString(n), 2, '0')) == Some(n)
  {
    var t := NatToString(n);
    NatToStringValue(n);
    LeadingZero(t);
    NumberOfDigits("0" + t);
    assert PadStart(t, 2, '0') == "0" + t;
  }

  /** `Number` of a minus sign followed by digits is the negated value of the digits. */
  lemma NumberOfNegative(t: string)
    requires |t| >= 1 && AllDigits(t)
    ensures NumberOf("-" + t) == Some(0 - DigitsValue(t))
    ensures PadStart("-" + t, 2, '0') == "-" + t
  {
    assert ("-" + t)[1..] == t;
  }

  /** `Number` of a non-empty digit string is its value. */
  lemma NumberOfDigits(t: string)
    requires |t| >= 1 && AllDigits(t)
    ensures NumberOf(t) == Some(DigitsValue(t) as int)
  {
    assert !IsDigit('-');
  }

  /**
   * The id round trip: `${row}${col}` splits back into row and column,
   * `Number` reads it as 10 * row + col, and padding `String` of that index
   * gives back the same id.
   */
  lemma IdRoundTrip(row: nat, col: nat)
    requires row < 10 && col < 10
    ensures SplitNumbers(Id(row, col)) == [Some(row), Some(col)]
    ensures NumberOf(Id(row, col)) == Some(10 * row + col)
    ensures PadStart(IntToString(10 * row + col), 2, '0') == Id(row, col)
  {
    var id := Id(row, col);
    TwoDigitsValue(row, col);
    NumberOfDigits(id);
    IdWritten(row, col);
    IdSplit(row, col);
  }

  /** The value of the two digits of an id. */
  lemma TwoDigitsValue(row: nat, col: nat)
    requires row < 10 && col < 10
    ensures AllDigits(Id(row, col)) && DigitsValue(Id(row, col)) == 10 * row + col
  {
    var id := Id(row, col);
    var p := id[..1];
    assert p == [DigitChar(row)];
    assert DigitsValue(p[..0]) == 0 by { assert p[..0] == []; }
    assert DigitsValue(p) == row;
    assert id[..|id| - 1] == p;
    assert DigitsValue(id) == 10 * DigitsValue(p) + DigitValue(id[1]);
  }

  /** Splitting an id gives back its row and column. */
  lemma IdSplit(row: nat, col: nat)
    requires row < 10 && col < 10
    ensures SplitNumbers(Id(row, col)) == [Some(row), Some(col)]
  {
    var r := SplitNumbers(Id(row, col));
    assert r[0] == Some(row) && r[1] == Some(col);
  }

  /** Padding `String` of 10 * row + col writes the id. */
  lemma IdWritten(row: nat, col: nat)
    requires row < 10 && col < 10
    ensures PadStart(IntToString(10 * row + col), 2, '0') == Id(row, col)
  {
    var i := 10 * row + col;
    if row == 0 {
      assert IntToString(i) == [DigitChar(col)];
    } else {
      assert i / 10 == row && i % 10 == col;
      assert NatToString(row) == [DigitChar(row)];
      assert IntToString(i) == NatToString(row) + [DigitChar(col)];
    }
  }

  /** The id of the cell with the given flattened index. */
  function CellId(i: nat): (id: string)
    requires i < 100
    ensures |id| == 2
  {
    Id(i / 10, i % 10)
  }

  /**
   * A move computed on ids is the move computed on indices: from the cell
   * with index i, `Number` of the new id is i plus the delta, and when that
   * sum j names a cell the new id is that cell's `${row}${col}` and splits
   * into its row j / 10 and column j % 10.
   */
  lemma AdvanceAgrees(i: nat, delta: int)
    requires i < 100
    ensures NumberOf(CellId(i)) == Some(i)
    ensures NumberOf(Advance(CellId(i), delta)) == Some(i + delta)
    ensures 0 <= i + delta < 100 ==>
      && Advance(CellId(i), delta) == CellId(i + delta)
      && SplitNumbers(Advance(CellId(i), delta)) == [Some((i + delta) / 10), Some((i + delta) % 10)]
  {
    var id := CellId(i);
    CellIdNumber(i);
    AdvanceNumber(id, i, delta);
    if 0 <= i + delta < 100 {
      var j: nat := i + delta;
      AdvanceWithin(id, delta, j);
      CellIdNumber(j);
    }
  }

  /** Advancing an id that reads as n gives one that reads as n + delta. */
  lemma AdvanceNumber(id: string, n: int, delta: int)
    requires NumberOf(id) == Some(n)
    ensures NumberOf(Advance(id, delta)) == Some(n + delta)
  {
  }

  /** Advancing an id to an index j on the board writes the id of j. */
  lemma AdvanceWithin(id: string, delta: int, j: nat)
    requires NumberOf(id).Some? && NumberOf(id).value + delta == j && j < 100
    ensures Advance(id, delta) == CellId(j)
  {
    assert Advance(id, delta) == PadStart(IntToString(j), 2, '0');
    CellIdNumber(j);
  }

  /** The id of index i reads back as i, and padding `String(i)` writes it. */
  lemma CellIdNumber(i: nat)
    requires i < 100
    ensures NumberOf(CellId(i)) == Some(i)
    ensures PadStart(IntToString(i), 2, '0') == CellId(i)
    ensures SplitNumbers(CellId(i)) == [Some(i / 10), Some(i % 10)]
  {
    var r, c := i / 10, i % 10;
    assert 10 * r + c == i;
    IdRoundTrip(r, c);
  }
}
