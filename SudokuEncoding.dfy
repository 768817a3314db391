/**
 * The Sudoku encoder: each given cell of a puzzle string becomes a DIMACS
 * unit clause `v 0`, where the variable id `v` packs the 1-based row, the
 * 1-based column and the symbol's number in a fixed base; a puzzle file is
 * the rule clauses (minus their header line) followed by those unit
 * clauses, under a fresh `p cnf` header.
 */
module SudokuEncoding {
  import opened Wrappers

  // ---------------------------------------------------------------------
  // Decimal text of integers, as Python's `str` and f-strings write them
  // ---------------------------------------------------------------------

  function DigitChar(d: nat): (ch: char)
    requires d < 10
    ensures '0' <= ch <= '9' && ch as int - '0' as int == d
  {
    ('0' as int + d) as char
  }

  predicate IsDigits(s: string) {
    forall i :: 0 <= i < |s| ==> '0' <= s[i] <= '9'
  }

  /** The decimal numeral of `n`, most significant digit first, no leading zero. */
  function NatToString(n: nat): string {
    if n < 10 then [DigitChar(n)] else NatToString(n / 10) + [DigitChar(n % 10)]
  }

  /** The numeral is a non-empty string of digits without a leading zero. */
  lemma {:induction false} NatToStringDigits(n: nat)
    ensures |NatToString(n)| > 0 && IsDigits(NatToString(n))
    ensures |NatToString(n)| > 1 ==> NatToString(n)[0] != '0'
  {
    if n >= 10 {
      NatToStringDigits(n / 10);
    }
  }

  /** The value of a numeral read most significant digit first. */
  function DigitsValue(s: string): nat
    requires IsDigits(s)
  {
    if |s| == 0 then 0 else 10 * DigitsValue(s[..|s| - 1]) + (s[|s| - 1] as int - '0' as int)
  }

  /** Reading back the numeral of `n` gives `n`. */
  lemma {:induction false} NatToStringRoundTrip(n: nat)
    ensures IsDigits(NatToString(n)) && DigitsValue(NatToString(n)) == n
  {
    var s := NatToString(n);
    NatToStringDigits(n);
    if n >= 10 {
      NatToStringRoundTrip(n / 10);
      assert s[..|s| - 1] == NatToString(n / 10);
    }
  }

  /** `str(i)` for any Python int: a minus sign before negative numbers. */
  function IntToString(i: int): string {
    if i < 0 then "-" + NatToString(-i) else NatToString(i)
  }

  // ---------------------------------------------------------------------
  // Board arithmetic
  // ---------------------------------------------------------------------

  /** The base of the variable numbering: 17 for a 16×16 board, 10 otherwise. */
  function GridBase(size: int): nat {
    if size == 16 then 17 else 10
  }

  const Symbols: string := "123456789ABCDEF"
  const Letters: string := "GHIJKLMNOP"

  /**
   * The symbol table: the characters of `Symbols` are numbered from 1 in
   * order, then the characters of `Letters` from 11; any other character has
   * no number (looking it up is a `KeyError`).
   */
  function CharMap(ch: char): (d: Option<nat>)
    ensures d.Some? ==> 1 <= d.value <= 20
  {
    if '1' <= ch <= '9' then Some(ch as int - '0' as int)
    else if 'A' <= ch <= 'F' then Some(ch as int - 'A' as int + 10)
    else if 'G' <= ch <= 'P' then Some(ch as int - 'G' as int + 11)
    else None
  }

  /** The variable id of symbol number `d` at 0-based row `r` and column `c`. */
  function Variable(gb: nat, r: nat, c: nat, d: nat): nat {
    gb * gb * (r + 1) + gb * (c + 1) + d
  }

  /** A DIMACS unit clause line for variable `v`. */
  function Line(v: nat): string {
    NatToString(v) + " 0\n"
  }

  lemma MulAtLeast(b: nat, k: int)
    requires k >= 1
    ensures b * k >= b
  {
    assert b * k == b + b * (k - 1);
  }

  /** Quotient and remainder of `b*q + rem` by `b` are `q` and `rem`. */
  lemma DivMod(b: nat, q: nat, rem: nat)
    requires rem < b
    ensures (b * q + rem) / b == q && (b * q + rem) % b == rem
  {
    var x := b * q + rem;
    var q', r' := x / b, x % b;
    assert b * q' + r' == x && 0 <= r' < b;
    if q' > q {
      MulAtLeast(b, q' - q);
      assert false;
    } else if q' < q {
      MulAtLeast(b, q - q');
      assert false;
    }
  }

  /** The variable id written as digits of base `gb`. */
  lemma VariableDigits(gb: nat, r: nat, c: nat, d: nat)
    ensures Variable(gb, r, c, d) == gb * (gb * (r + 1) + (c + 1)) + d
  {
    assert gb * gb * (r + 1) == gb * (gb * (r + 1));
  }

  /**
   * The variable id can be taken apart again in base `gb` as long as the
   * column number and the symbol number are digits of that base: the last
   * digit is the symbol's number, the one before the 1-based column, the
   * rest the 1-based row.
   */
  lemma VariableDecode(gb: nat, r: nat, c: nat, d: nat)
    requires c + 1 < gb && d < gb
    ensures Variable(gb, r, c, d) % gb == d
    ensures (Variable(gb, r, c, d) / gb) % gb == c + 1
    ensures (Variable(gb, r, c, d) / gb) / gb == r + 1
  {
    VariableDigits(gb, r, c, d);
    DivMod(gb, gb * (r + 1) + (c + 1), d);
    DivMod(gb, r + 1, c + 1);
  }

  /** Within those bounds, different (row, column, symbol) triples get different ids. */
  lemma VariableInjective(gb: nat, r1: nat, c1: nat, d1: nat, r2: nat, c2: nat, d2: nat)
    requires c1 + 1 < gb && d1 < gb && c2 + 1 < gb && d2 < gb
    requires Variable(gb, r1, c1, d1) == Variable(gb, r2, c2, d2)
    ensures r1 == r2 && c1 == c2 && d1 == d2
  {
    VariableDecode(gb, r1, c1, d1);
    VariableDecode(gb, r2, c2, d2);
  }

  /**
   * On a 9×9 board (base 10) the unit clause of a digit `d` at row `r` and
   * column `c` reads as the three decimal digits row, column, symbol with
   * 1-based row and column.
   */
  lemma NineByNineLine(r: nat, c: nat, d: nat)
    requires r < 9 && c < 9 && 1 <= d <= 9
    ensures Line(Variable(GridBase(9), r, c, d)) == [DigitChar(r + 1), DigitChar(c + 1), DigitChar(d)] + " 0\n"
  {
    var w := 10 * (r + 1) + (c + 1);
    VariableDigits(10, r, c, d);
    DivMod(10, w, d);
    DivMod(10, r + 1, c + 1);
    assert NatToString(w) == [DigitChar(r + 1), DigitChar(c + 1)];
  }

  // ---------------------------------------------------------------------
  // Splitting a puzzle into rows
  // ---------------------------------------------------------------------

  /** Python's `s[lo:hi]` for `0 <= lo <= hi`: both bounds clamped to the length. */
  function Slice(s: string, lo: nat, hi: nat): string
    requires lo <= hi
  {
    var a := if lo <= |s| then lo else |s|;
    var b := if hi <= |s| then hi else |s|;
    s[a..b]
  }

  /** The `size` consecutive slices of length `size` (none when `size <= 0`). */
  function Rows(puzzle: string, size: int): (rows: seq<string>)
    ensures |rows| == if size > 0 then size else 0
  {
    var n := if size > 0 then size else 0;
    seq(n, i requires 0 <= i < n => Slice(puzzle, i * n, i * n + n))
  }

  lemma SliceCells(s: string, lo: nat, hi: nat)
    requires lo <= hi
    ensures |Slice(s, lo, hi)| == (if hi <= |s| then hi - lo else if lo <= |s| then |s| - lo else 0)
    ensures forall j :: 0 <= j < |Slice(s, lo, hi)| ==> lo + j < |s| && Slice(s, lo, hi)[j] == s[lo + j]
  {
  }

  /**
   * Row `i` holds the characters at positions `i*size` up to `(i+1)*size` of
   * the puzzle, cut short where the puzzle ends.
   */
  lemma RowCells(puzzle: string, size: int, i: nat)
    requires i < |Rows(puzzle, size)|
    ensures forall j :: 0 <= j < |Rows(puzzle, size)[i]| ==>
      i * size + j < |puzzle| && Rows(puzzle, size)[i][j] == puzzle[i * size + j]
    ensures |Rows(puzzle, size)[i]| == (if (i + 1) * size <= |puzzle| then size
                                        else if i * size <= |puzzle| then |puzzle| - i * size else 0)
  {
    assert (i + 1) * size == i * size + size;
    SliceCells(puzzle, i * size, i * size + size);
  }

  /**
   * The table is the one the two enumerations build: position `k` of
   * `Symbols` gets `k + 1`, position `k` of `Letters` gets `k + 11`, and a
   * character in neither string gets nothing.
   */
  lemma CharMapEnumerates(ch: char)
    ensures forall k :: 0 <= k < |Symbols| ==> CharMap(Symbols[k]) == Some(k + 1)
    ensures forall k :: 0 <= k < |Letters| ==> CharMap(Letters[k]) == Some(k + 11)
    ensures CharMap(ch).Some? <==> ch in Symbols || ch in Letters
  {
    assert forall k :: 0 <= k < |Symbols| ==>
      Symbols[k] as int == (if k < 9 then '1' as int + k else 'A' as int + k - 9);
    assert forall k :: 0 <= k < |Letters| ==> Letters[k] as int == 'G' as int + k;
    if '1' <= ch <= '9' {
      assert Symbols[ch as int - '1' as int] == ch;
    } else if 'A' <= ch <= 'F' {
      assert Symbols[ch as int - 'A' as int + 9] == ch;
    } else if 'G' <= ch <= 'P' {
      assert Letters[ch as int - 'G' as int] == ch;
    }
  }

  /** 'G' to 'K' get the same numbers as 'B' to 'F': 11 to 15. */
  lemma LettersCollide(k: nat)
    requires k < 5
    ensures CharMap(Letters[k]) == CharMap(Symbols[k + 10]) == Some(k + 11)
  {
    CharMapEnumerates(Letters[k]);
  }

  // ---------------------------------------------------------------------
  // Given cells and their unit clauses
  // ---------------------------------------------------------------------

  /** A cell of the board holding a symbol: 0-based row and column. */
  datatype Cell = Cell(row: nat, col: nat, value: char)

  /** The non-'.' cells among the first `j` of row number `r`, left to right. */
  function RowGivens(row: string, r: nat, j: nat): seq<Cell>
    requires j <= |row|
  {
    if j == 0 then []
    else RowGivens(row, r, j - 1) + (if row[j - 1] == '.' then [] else [Cell(r, j - 1, row[j - 1])])
  }

  /** The non-'.' cells of the board, row by row. */
  function Givens(rows: seq<string>): seq<Cell>
  {
    if |rows| == 0 then []
    else
      var r := |rows| - 1;
      Givens(rows[..r]) + RowGivens(rows[r], r, |rows[r]|)
  }

  /** `a` comes before `b` in row-major order. */
  predicate Before(a: Cell, b: Cell) {
    a.row < b.row || (a.row == b.row && a.col < b.col)
  }

  predicate RowMajor(cells: seq<Cell>) {
    forall k, l :: 0 <= k < l < |cells| ==> Before(cells[k], cells[l])
  }

  predicate AllMapped(cells: seq<Cell>) {
    forall k :: 0 <= k < |cells| ==> CharMap(cells[k].value).Some?
  }

  /** The unit clause line of a given cell. */
  function CellLine(gb: nat, c: Cell): string
    requires CharMap(c.value).Some?
  {
    Line(Variable(gb, c.row, c.col, CharMap(c.value).value))
  }

  /**
   * The unit clause lines of `cells`, in order, or nothing when one of them
   * holds a symbol without a number.
   */
  function Encode(gb: nat, cells: seq<Cell>): Option<seq<string>>
  {
    if AllMapped(cells) then Some(seq(|cells|, k requires 0 <= k < |cells| => CellLine(gb, cells[k])))
    else None
  }

  /** What encoding a puzzle yields: the lines of its given cells, if all are numbered. */
  function Convert(puzzle: string, size: int): Option<seq<string>>
  {
    Encode(GridBase(size), Givens(Rows(puzzle, size)))
  }

  lemma {:induction false} RowGivensExact(row: string, r: nat, j: nat)
    requires j <= |row|
    ensures forall c :: c in RowGivens(row, r, j) <==>
      c.row == r && c.col < j && row[c.col] == c.value && c.value != '.'
  {
    if j > 0 {
      RowGivensExact(row, r, j - 1);
    }
  }

  lemma {:induction false} RowGivensOrdered(row: string, r: nat, j: nat)
    requires j <= |row|
    ensures forall k, l :: 0 <= k < l < |RowGivens(row, r, j)| ==>
      RowGivens(row, r, j)[k].col < RowGivens(row, r, j)[l].col
  {
    if j > 0 {
      RowGivensOrdered(row, r, j - 1);
      RowGivensExact(row, r, j - 1);
      var front := RowGivens(row, r, j - 1);
      assert forall c :: c in front ==> c.col < j - 1;
    }
  }

  /** Cells of earlier rows, in order, followed by the cells of row `r` left to right. */
  lemma RowMajorAppend(front: seq<Cell>, last: seq<Cell>, r: nat)
    requires RowMajor(front) && forall c :: c in front ==> c.row < r
    requires forall c :: c in last ==> c.row == r
    requires forall k, l :: 0 <= k < l < |last| ==> last[k].col < last[l].col
    ensures RowMajor(front + last)
  {
    forall k, l | 0 <= k < l < |front + last|
      ensures Before((front + last)[k], (front + last)[l])
    {
      if l < |front| {
      } else if k >= |front| {
        assert (front + last)[k] == last[k - |front|] && (front + last)[l] == last[l - |front|];
      } else {
        assert (front + last)[k] in front && (front + last)[l] in last;
      }
    }
  }

  /** The given cells are exactly the non-'.' positions of the board, each with its own symbol. */
  lemma {:induction false} GivensExact(rows: seq<string>)
    ensures forall c :: c in Givens(rows) <==>
      c.row < |rows| && c.col < |rows[c.row]| && rows[c.row][c.col] == c.value && c.value != '.'
  {
    if |rows| > 0 {
      var r := |rows| - 1;
      GivensExact(rows[..r]);
      RowGivensExact(rows[r], r, |rows[r]|);
    }
  }

  /** The given cells come in row-major order, so none appears twice. */
  lemma {:induction false} GivensRowMajor(rows: seq<string>)
    ensures RowMajor(Givens(rows))
  {
    if |rows| > 0 {
      var r := |rows| - 1;
      GivensRowMajor(rows[..r]);
      GivensExact(rows[..r]);
      RowGivensExact(rows[r], r, |rows[r]|);
      RowGivensOrdered(rows[r], r, |rows[r]|);
      RowMajorAppend(Givens(rows[..r]), RowGivens(rows[r], r, |rows[r]|), r);
    }
  }

  /**
   * Encoding one more cell: an unnumbered symbol leaves nothing, a numbered
   * one adds its line after those of the cells before it.
   */
  lemma EncodeAppend(gb: nat, cells: seq<Cell>, c: Cell)
    ensures CharMap(c.value).None? ==> Encode(gb, cells + [c]).None?
    ensures CharMap(c.value).Some? ==>
      (Encode(gb, cells + [c]) ==
         match Encode(gb, cells)
         case None => None
         case Some(lines) => Some(lines + [CellLine(gb, c)]))
  {
    var after := cells + [c];
    assert after[|cells|] == c;
    assert forall k :: 0 <= k < |cells| ==> after[k] == cells[k];
    if AllMapped(cells) && CharMap(c.value).Some? {
      var lines := Encode(gb, cells).value;
      assert Encode(gb, after).value == lines + [CellLine(gb, c)];
    } else if !AllMapped(cells) {
      var k :| 0 <= k < |cells| && CharMap(cells[k].value).None?;
      assert CharMap(after[k].value).None?;
    }
  }

  /** One step of the walk along a row: a '.' adds nothing, a numbered symbol one line. */
  lemma RowStep(gb: nat, done: seq<Cell>, row: string, i: nat, j: nat, lines: seq<string>)
    requires j < |row| && Encode(gb, done + RowGivens(row, i, j)) == Some(lines)
    requires row[j] == '.' || CharMap(row[j]).Some?
    ensures row[j] == '.' ==> Encode(gb, done + RowGivens(row, i, j + 1)) == Some(lines)
    ensures row[j] != '.' ==>
      Encode(gb, done + RowGivens(row, i, j + 1)) == Some(lines + [Line(Variable(gb, i, j, CharMap(row[j]).value))])
  {
    var before := done + RowGivens(row, i, j);
    if row[j] == '.' {
      assert RowGivens(row, i, j + 1) == RowGivens(row, i, j);
    } else {
      var cell := Cell(i, j, row[j]);
      assert RowGivens(row, i, j + 1) == RowGivens(row, i, j) + [cell];
      assert done + RowGivens(row, i, j + 1) == before + [cell];
      EncodeAppend(gb, before, cell);
    }
  }

  /** The cells of one more row follow those of the rows before it. */
  lemma GivensStep(rows: seq<string>, i: nat)
    requires i < |rows|
    ensures Givens(rows[..i + 1]) == Givens(rows[..i]) + RowGivens(rows[i], i, |rows[i]|)
  {
    assert rows[..i + 1][..i] == rows[..i];
  }

  /** A given cell without a number leaves the whole board unencodable. */
  lemma UnmappedGiven(gb: nat, rows: seq<string>, i: nat, j: nat)
    requires i < |rows| && j < |rows[i]| && rows[i][j] != '.' && CharMap(rows[i][j]).None?
    ensures Encode(gb, Givens(rows)).None?
  {
    GivensExact(rows);
    var cells := Givens(rows);
    assert Cell(i, j, rows[i][j]) in cells;
    var k :| 0 <= k < |cells| && cells[k] == Cell(i, j, rows[i][j]);
    assert !AllMapped(cells);
  }

  /**
   * Encoding fails exactly when some non-'.' cell of the board holds a
   * symbol without a number.
   */
  lemma ConvertFails(puzzle: string, size: int)
    ensures var rows := Rows(puzzle, size);
      Convert(puzzle, size).None? <==>
      exists i, j :: 0 <= i < |rows| && 0 <= j < |rows[i]| && rows[i][j] != '.' && CharMap(rows[i][j]).None?
  {
    var rows := Rows(puzzle, size);
    var cells := Givens(rows);
    GivensExact(rows);
    if Convert(puzzle, size).None? {
      var k :| 0 <= k < |cells| && CharMap(cells[k].value).None?;
      assert cells[k] in cells;
    } else {
      forall i, j | 0 <= i < |rows| && 0 <= j < |rows[i]| && rows[i][j] != '.'
        ensures CharMap(rows[i][j]).Some?
      {
        assert Cell(i, j, rows[i][j]) in cells;
      }
    }
  }

  /**
   * The encoder proper: walks the rows and, within each, the cells, appending
   * the unit clause of every non-'.' cell; an unnumbered symbol ends the walk
   * with no result.
   */
  method ConvertToDimacs(puzzle: string, size: int) returns (r: Option<seq<string>>)
    ensures r == Convert(puzzle, size)
  {
    var rows := Rows(puzzle, size);
    var lines: seq<string> := [];
    var gb := GridBase(size);
    var i := 0;
    assert Givens(rows[..0]) == [] && Encode(gb, []).value == [];
    while i < |rows|
      invariant 0 <= i <= |rows|
      invariant Encode(gb, Givens(rows[..i])) == Some(lines)
    {
      var row := rows[i];
      var done := Givens(rows[..i]);
      var j := 0;
      assert done + RowGivens(row, i, 0) == done;
      while j < |row|
        invariant 0 <= j <= |row|
        invariant Encode(gb, done + RowGivens(row, i, j)) == Some(lines)
      {
        var value := row[j];
        if value != '.' {
          var d := CharMap(value);
          if d.None? {
            UnmappedGiven(gb, rows, i, j);
            return None;
          }
          var variable := Variable(gb, i, j, d.value);
          RowStep(gb, done, row, i, j, lines);
          lines := lines + [Line(variable)];
        } else {
          RowStep(gb, done, row, i, j, lines);
        }
        j := j + 1;
      }
      GivensStep(rows, i);
      i := i + 1;
    }
    assert rows[..i] == rows;
    return Some(lines);
  }

  // ---------------------------------------------------------------------
  // Puzzle files
  // ---------------------------------------------------------------------

  /** Why no files are produced: a puzzle of the wrong length, or an unnumbered symbol. */
  datatype EncodeError =
    | InvalidLength(puzzle: nat, length: nat, expected: int)
    | UnknownSymbol

  /** Python's `lines[1:]`. */
  function Tail(lines: seq<string>): seq<string> {
    if |lines| == 0 then [] else lines[1..]
  }

  /** The DIMACS problem line for a board of side `size` and `count` clauses. */
  function Header(size: int, count: nat): string {
    "p cnf " + IntToString(size * size * size) + " " + NatToString(count) + "\n"
  }

  /** A puzzle file: header, the rule clauses after their own header, the givens. */
  function PuzzleFile(rules: seq<string>, size: int, clauses: seq<string>): seq<string> {
    var lines := Tail(rules) + clauses;
    [Header(size, |lines|)] + lines
  }

  /** The index of the first of the first `n` puzzles whose length is not `size²`. */
  function FirstBadLength(puzzles: seq<string>, size: int, n: nat): (r: Option<nat>)
    requires n <= |puzzles|
    ensures r.Some? ==> r.value < n
  {
    if n == 0 then None
    else match FirstBadLength(puzzles, size, n - 1)
      case Some(k) => Some(k)
      case None => if |puzzles[n - 1]| != size * size then Some(n - 1) else None
  }

  /**
   * The files of the first `n` puzzles given the outcome of encoding each
   * (`encoded[k]` for puzzle `k`), or the error of the first that fails.
   */
  function Files(encoded: seq<Option<seq<string>>>, rules: seq<string>, size: int, n: nat): Result<seq<seq<string>>, EncodeError>
    requires n <= |encoded|
  {
    if n == 0 then Success([])
    else match Files(encoded, rules, size, n - 1)
      case Failure(e) => Failure(e)
      case Success(files) =>
        match encoded[n - 1]
        case None => Failure(UnknownSymbol)
        case Some(clauses) => Success(files + [PuzzleFile(rules, size, clauses)])
  }

  /** The outcome of encoding each puzzle. */
  function EncodeAll(puzzles: seq<string>, size: int): (encoded: seq<Option<seq<string>>>)
    ensures |encoded| == |puzzles|
  {
    seq(|puzzles|, k requires 0 <= k < |puzzles| => Convert(puzzles[k], size))
  }

  /**
   * What a run of the generator yields: the length of every puzzle is
   * checked before any is encoded, the first wrong one reported with its
   * 1-based number; then each puzzle's file in turn.
   */
  function Generate(puzzles: seq<string>, rules: seq<string>, size: int): Result<seq<seq<string>>, EncodeError>
  {
    match FirstBadLength(puzzles, size, |puzzles|)
    case Some(k) => Failure(InvalidLength(k + 1, |puzzles[k]|, size * size))
    case None => Files(EncodeAll(puzzles, size), rules, size, |puzzles|)
  }

  /** `FirstBadLength` finds exactly the first wrong length, and nothing when all are right. */
  lemma {:induction false} FirstBadLengthExact(puzzles: seq<string>, size: int, n: nat)
    requires n <= |puzzles|
    ensures FirstBadLength(puzzles, size, n).None? <==>
      forall j :: 0 <= j < n ==> |puzzles[j]| == size * size
    ensures FirstBadLength(puzzles, size, n).Some? ==>
      var k := FirstBadLength(puzzles, size, n).value;
      |puzzles[k]| != size * size && forall j :: 0 <= j < k ==> |puzzles[j]| == size * size
  {
    if n > 0 {
      FirstBadLengthExact(puzzles, size, n - 1);
    }
  }

  /** Once a wrong length is found, looking at more puzzles reports the same one. */
  lemma {:induction false} FirstBadLengthKept(puzzles: seq<string>, size: int, m: nat, n: nat)
    requires m <= n <= |puzzles| && FirstBadLength(puzzles, size, m).Some?
    ensures FirstBadLength(puzzles, size, n) == FirstBadLength(puzzles, size, m)
    decreases n - m
  {
    if m < n {
      FirstBadLengthKept(puzzles, size, m + 1, n);
    }
  }

  /** The files of the first `n` puzzles exist exactly when each of them encodes. */
  lemma {:induction false} FilesExact(encoded: seq<Option<seq<string>>>, rules: seq<string>, size: int, n: nat)
    requires n <= |encoded|
    ensures Files(encoded, rules, size, n).Success? <==> forall k :: 0 <= k < n ==> encoded[k].Some?
    ensures Files(encoded, rules, size, n).Failure? ==> Files(encoded, rules, size, n).error == UnknownSymbol
  {
    if n > 0 {
      FilesExact(encoded, rules, size, n - 1);
    }
  }

  /** When they exist, there is one file per puzzle, built from that puzzle's clauses. */
  lemma {:induction false} FilesContents(encoded: seq<Option<seq<string>>>, rules: seq<string>, size: int, n: nat)
    requires n <= |encoded| && Files(encoded, rules, size, n).Success?
    ensures |Files(encoded, rules, size, n).value| == n
    ensures forall k :: 0 <= k < n ==>
      encoded[k].Some? && Files(encoded, rules, size, n).value[k] == PuzzleFile(rules, size, encoded[k].value)
  {
    if n > 0 {
      var files := Files(encoded, rules, size, n - 1).value;
      var all := files + [PuzzleFile(rules, size, encoded[n - 1].value)];
      assert Files(encoded, rules, size, n) == Success(all);
      FilesContents(encoded, rules, size, n - 1);
      forall k | 0 <= k < n
        ensures encoded[k].Some? && all[k] == PuzzleFile(rules, size, encoded[k].value)
      {
        if k < n - 1 {
          assert all[k] == files[k];
        }
      }
    }
  }

  /** Once a puzzle fails to encode, the later puzzles do not change the outcome. */
  lemma {:induction false} FilesFailureKept(encoded: seq<Option<seq<string>>>, rules: seq<string>, size: int, m: nat, n: nat)
    requires m <= n <= |encoded| && Files(encoded, rules, size, m).Failure?
    ensures Files(encoded, rules, size, n) == Files(encoded, rules, size, m)
    decreases n - m
  {
    if m < n {
      FilesFailureKept(encoded, rules, size, m + 1, n);
    }
  }

  /** One more puzzle: a failure to encode it is the final outcome, a success adds its file. */
  lemma FilesStep(encoded: seq<Option<seq<string>>>, rules: seq<string>, size: int, n: nat,
                  files: seq<seq<string>>, clauses: Option<seq<string>>)
    requires n < |encoded| && Files(encoded, rules, size, n) == Success(files) && encoded[n] == clauses
    ensures clauses.None? ==> Files(encoded, rules, size, |encoded|) == Failure(UnknownSymbol)
    ensures clauses.Some? ==>
      Files(encoded, rules, size, n + 1) == Success(files + [PuzzleFile(rules, size, clauses.value)])
  {
    if clauses.None? {
      FilesFailureKept(encoded, rules, size, n + 1, |encoded|);
    }
  }

  /**
   * A file opens with a header declaring `size³` variables and as many
   * clauses as there are rule lines after the rules' own header plus unit
   * clauses, and then holds exactly those lines.
   */
  lemma PuzzleFileShape(rules: seq<string>, size: int, clauses: seq<string>)
    ensures var file := PuzzleFile(rules, size, clauses);
      |file| == |rules| - (if |rules| > 0 then 1 else 0) + |clauses| + 1 &&
      file[0] == "p cnf " + IntToString(size * size * size) + " " +
                 NatToString(|rules| - (if |rules| > 0 then 1 else 0) + |clauses|) + "\n" &&
      file[1..] == Tail(rules) + clauses
  {
    var file := PuzzleFile(rules, size, clauses);
    assert file[1..] == Tail(rules) + clauses;
  }

  /**
   * A run fails on length exactly when some puzzle has a wrong length, and
   * then names the first such puzzle (1-based), whatever the symbols.
   */
  lemma GenerateLengthError(puzzles: seq<string>, rules: seq<string>, size: int)
    ensures Generate(puzzles, rules, size).Failure? && Generate(puzzles, rules, size).error.InvalidLength? <==>
      exists j :: 0 <= j < |puzzles| && |puzzles[j]| != size * size
    ensures Generate(puzzles, rules, size).Failure? && Generate(puzzles, rules, size).error.InvalidLength? ==>
      var e := Generate(puzzles, rules, size).error;
      && 1 <= e.puzzle <= |puzzles|
      && e.length == |puzzles[e.puzzle - 1]| != size * size == e.expected
      && forall j :: 0 <= j < e.puzzle - 1 ==> |puzzles[j]| == size * size
  {
    FirstBadLengthExact(puzzles, size, |puzzles|);
    match FirstBadLength(puzzles, size, |puzzles|)
    case Some(k) =>
      assert Generate(puzzles, rules, size) == Failure(InvalidLength(k + 1, |puzzles[k]|, size * size));
    case None =>
      FilesExact(EncodeAll(puzzles, size), rules, size, |puzzles|);
  }

  /**
   * With every length right, a run yields files exactly when every puzzle
   * encodes: one file per puzzle, in order, built from its unit clauses.
   */
  lemma GenerateFiles(puzzles: seq<string>, rules: seq<string>, size: int)
    ensures Generate(puzzles, rules, size).Success? <==>
      forall j :: 0 <= j < |puzzles| ==> |puzzles[j]| == size * size && Convert(puzzles[j], size).Some?
    ensures Generate(puzzles, rules, size).Success? ==>
      && |Generate(puzzles, rules, size).value| == |puzzles|
      && forall k :: 0 <= k < |puzzles| ==>
        Convert(puzzles[k], size).Some? &&
        Generate(puzzles, rules, size).value[k] == PuzzleFile(rules, size, Convert(puzzles[k], size).value)
  {
    var encoded := EncodeAll(puzzles, size);
    FirstBadLengthExact(puzzles, size, |puzzles|);
    match FirstBadLength(puzzles, size, |puzzles|)
    case Some(k) =>
      assert |puzzles[k]| != size * size;
    case None =>
      assert Generate(puzzles, rules, size) == Files(encoded, rules, size, |puzzles|);
      FilesExact(encoded, rules, size, |puzzles|);
      assert forall j :: 0 <= j < |puzzles| ==> encoded[j] == Convert(puzzles[j], size);
      if Files(encoded, rules, size, |puzzles|).Success? {
        FilesContents(encoded, rules, size, |puzzles|);
      }
  }

  /** The length check: the first puzzle whose length is not `size²`, if any. */
  method CheckLengths(puzzles: seq<string>, size: int) returns (bad: Option<nat>)
    ensures bad == FirstBadLength(puzzles, size, |puzzles|)
  {
    var totalCells := size * size;
    var index := 0;
    while index < |puzzles|
      invariant 0 <= index <= |puzzles|
      invariant FirstBadLength(puzzles, size, index).None?
    {
      if |puzzles[index]| != totalCells {
        FirstBadLengthKept(puzzles, size, index + 1, |puzzles|);
        return Some(index);
      }
      index := index + 1;
    }
    return None;
  }

  /** The writing loop: each puzzle in turn is encoded and its file assembled. */
  method WriteFiles(puzzles: seq<string>, rules: seq<string>, size: int)
    returns (r: Result<seq<seq<string>>, EncodeError>)
    ensures r == Files(EncodeAll(puzzles, size), rules, size, |puzzles|)
  {
    ghost var encoded := EncodeAll(puzzles, size);
    var files: seq<seq<string>> := [];
    var index := 0;
    while index < |puzzles|
      invariant 0 <= index <= |puzzles|
      invariant Files(encoded, rules, size, index) == Success(files)
    {
      var clauses := ConvertToDimacs(puzzles[index], size);
      FilesStep(encoded, rules, size, index, files, clauses);
      if clauses.None? {
        return Failure(UnknownSymbol);
      }
      var lines := Tail(rules) + clauses.value;
      var header := Header(size, |lines|);
      files := files + [[header] + lines];
      index := index + 1;
    }
    return Success(files);
  }

  /**
   * The generator: every length is checked first, so a wrong one produces
   * no file at all; then each puzzle is encoded and its file assembled.
   */
  method GenerateDimacs(puzzles: seq<string>, rules: seq<string>, size: int)
    returns (r: Result<seq<seq<string>>, EncodeError>)
    ensures r == Generate(puzzles, rules, size)
  {
    var bad := CheckLengths(puzzles, size);
    if bad.Some? {
      return Failure(InvalidLength(bad.value + 1, |puzzles[bad.value]|, size * size));
    }
    r := WriteFiles(puzzles, rules, size);
  }
}
