/** day06 MathProblem: a list of numbers and the operator that combines them. */
module MathProblems {
  import opened Optional

  const Plus: char := '+'
  const Times: char := '*'

  datatype MathProblem = MathProblem(numbers: seq<int>, operator: char)

  /** `mapToLong(...).sum()`: a left fold with 0. */
  function Sum(xs: seq<int>): int
  {
    if xs == [] then 0 else Sum(xs[..|xs| - 1]) + xs[|xs| - 1]
  }

  /** `reduce(1L, (a, b) -> a * b)`: a left fold with 1. */
  function Product(xs: seq<int>): int
  {
    if xs == [] then 1 else Product(xs[..|xs| - 1]) * xs[|xs| - 1]
  }

  /** `solve`: the sum for '+', the product for '*', and an
      IllegalArgumentException (None) for any other operator. */
  function Solve(p: MathProblem): (r: Option<int>)
    ensures r.Some? <==> p.operator == Plus || p.operator == Times
    ensures p.operator == Plus ==> r == Some(Sum(p.numbers))
    ensures p.operator == Times ==> r == Some(Product(p.numbers))
  {
    if p.operator == Plus then Some(Sum(p.numbers))
    else if p.operator == Times then Some(Product(p.numbers))
    else None
  }

  /** The folds split over concatenation, so the numbers may be combined
      in any grouping. */
  lemma {:induction false} SumAppend(xs: seq<int>, ys: seq<int>)
    ensures Sum(xs + ys) == Sum(xs) + Sum(ys)
  {
    if ys != [] {
      var init := ys[..|ys| - 1];
      SumAppend(xs, init);
      assert (xs + ys)[..|xs + ys| - 1] == xs + init;
    } else {
      assert xs + ys == xs;
    }
  }

  lemma {:induction false} ProductAppend(xs: seq<int>, ys: seq<int>)
    ensures Product(xs + ys) == Product(xs) * Product(ys)
  {
    if ys != [] {
      var init := ys[..|ys| - 1];
      ProductAppend(xs, init);
      assert (xs + ys)[..|xs + ys| - 1] == xs + init;
      assert Product(xs + ys) == Product(xs) * Product(init) * ys[|ys| - 1];
    } else {
      assert xs + ys == xs;
    }
  }

  /** A zero among the factors makes the product zero. */
  lemma {:induction false} ProductZero(xs: seq<int>, i: int)
    requires 0 <= i < |xs| && xs[i] == 0
    ensures Product(xs) == 0
  {
    if i < |xs| - 1 {
      ProductZero(xs[..|xs| - 1], i);
    }
  }

  /** [1, 2, 3] with '+' is 6, [2, 3, 4] with '*' is 24; no numbers give
      the identities. */
  lemma SolveExamples()
    ensures Solve(MathProblem([1, 2, 3], Plus)) == Some(6)
    ensures Solve(MathProblem([2, 3, 4], Times)) == Some(24)
    ensures Solve(MathProblem([], Plus)) == Some(0) && Solve(MathProblem([], Times)) == Some(1)
    ensures Solve(MathProblem([1], '-')) == None
  {
    assert [1, 2, 3][..2] == [1, 2] && [1, 2][..1] == [1] && [1][..0] == [];
    assert [2, 3, 4][..2] == [2, 3] && [2, 3][..1] == [2] && [2][..0] == [];
  }
}

/** day06 MathWorksheet: problems laid out side by side in columns; the last
    non-blank line holds the operators. Problems are separated by columns
    that are blank in every line. In the normal reading each row contributes
    the number written in the problem's columns; in the cephalopod reading
    each column is one number, its digits read top to bottom. */
module MathWorksheet {
  import opened Optional
  import JavaText
  import Decimal
  import FileUtils
  import opened MathProblems

  datatype MathWorksheet = MathWorksheet(problems: seq<MathProblem>)

  /** A problem's columns, the half-open interval [start, end). */
  datatype Boundary = Boundary(start: nat, end: nat)

  /** `lines.stream().mapToInt(String::length).max().orElse(0)`. */
  function MaxLen(lines: seq<string>): (m: nat)
    ensures forall i :: 0 <= i < |lines| ==> |lines[i]| <= m
    ensures lines == [] ==> m == 0
    ensures lines != [] ==> exists i :: 0 <= i < |lines| && |lines[i]| == m
  {
    if lines == [] then 0
    else
      var rest := MaxLen(lines[1..]);
      if |lines[0]| >= rest then |lines[0]| else rest
  }

  /** A line has a space at col or ends before it. */
  predicate BlankAt(line: string, col: nat)
  {
    col >= |line| || line[col] == ' '
  }

  /** `isAllSpaces`: every line is blank at col. */
  predicate AllSpaces(lines: seq<string>, col: nat)
  {
    lines == [] || (BlankAt(lines[0], col) && AllSpaces(lines[1..], col))
  }

  lemma {:induction false} AllSpacesEvery(lines: seq<string>, col: nat)
    ensures AllSpaces(lines, col) <==> forall i :: 0 <= i < |lines| ==> BlankAt(lines[i], col)
  {
    if lines != [] {
      AllSpacesEvery(lines[1..], col);
      assert forall i :: 1 <= i < |lines| ==> lines[i] == lines[1..][i - 1];
    }
  }

  /** Past the longest line every column is blank. */
  lemma BeyondMaxLen(lines: seq<string>, col: nat)
    requires col >= MaxLen(lines)
    ensures AllSpaces(lines, col)
  {
    AllSpacesEvery(lines, col);
  }

  method IsAllSpaces(lines: seq<string>, col: nat) returns (r: bool)
    ensures r == AllSpaces(lines, col)
  {
    AllSpacesEvery(lines, col);
    for i := 0 to |lines|
      invariant forall j :: 0 <= j < i ==> BlankAt(lines[j], col)
    {
      if col < |lines[i]| && lines[i][col] != ' ' {
        return false;
      }
    }
    return true;
  }

  // ---------------------------------------------------------------------
  // Column boundaries

  /** The first column from col on that is not blank, or maxLen. */
  function SkipBlank(lines: seq<string>, maxLen: nat, col: nat): (c: nat)
    requires col <= maxLen
    ensures col <= c <= maxLen
    decreases maxLen - col
  {
    if col == maxLen || !AllSpaces(lines, col) then col else SkipBlank(lines, maxLen, col + 1)
  }

  /** The first column from col on that is blank, or maxLen. */
  function SkipFilled(lines: seq<string>, maxLen: nat, col: nat): (c: nat)
    requires col <= maxLen
    ensures col <= c <= maxLen
    decreases maxLen - col
  {
    if col == maxLen || AllSpaces(lines, col) then col else SkipFilled(lines, maxLen, col + 1)
  }

  lemma {:induction false} SkipBlankSkips(lines: seq<string>, maxLen: nat, col: nat)
    requires col <= maxLen
    ensures var c := SkipBlank(lines, maxLen, col);
      (forall k :: col <= k < c ==> AllSpaces(lines, k)) && (c < maxLen ==> !AllSpaces(lines, c))
    decreases maxLen - col
  {
    if col < maxLen && AllSpaces(lines, col) {
      SkipBlankSkips(lines, maxLen, col + 1);
    }
  }

  lemma {:induction false} SkipFilledSkips(lines: seq<string>, maxLen: nat, col: nat)
    requires col <= maxLen
    ensures var c := SkipFilled(lines, maxLen, col);
      (forall k :: col <= k < c ==> !AllSpaces(lines, k)) && (c < maxLen ==> AllSpaces(lines, c))
    decreases maxLen - col
  {
    if col < maxLen && !AllSpaces(lines, col) {
      SkipFilledSkips(lines, maxLen, col + 1);
    }
  }

  /** The runs of non-blank columns from col on, left to right. */
  function Runs(lines: seq<string>, maxLen: nat, col: nat): seq<Boundary>
    requires col <= maxLen
    decreases maxLen - col
  {
    var s := SkipBlank(lines, maxLen, col);
    if s == maxLen then []
    else
      SkipBlankSkips(lines, maxLen, col);
      var e := SkipFilled(lines, maxLen, s);
      [Boundary(s, e)] + Runs(lines, maxLen, e)
  }

  /** `findColumnBoundaries`. */
  function ColumnBoundaries(lines: seq<string>): seq<Boundary>
  {
    Runs(lines, MaxLen(lines), 0)
  }

  /** Runs are non-empty, ordered with at least one blank column between
      them, and maximal: a run starts at column 0 or after a blank column
      and ends at maxLen or at a blank column. */
  predicate Separated(lines: seq<string>, maxLen: nat, lo: nat, bs: seq<Boundary>)
  {
    (forall k :: 0 <= k < |bs| ==> lo <= bs[k].start < bs[k].end <= maxLen)
    && (forall k :: 0 <= k < |bs| - 1 ==> bs[k].end < bs[k + 1].start)
    && (forall k :: 0 <= k < |bs| ==> Maximal(lines, maxLen, bs[k]))
  }

  /** A run starts at column 0 or after a blank column and ends at maxLen
      or at a blank column. */
  predicate Maximal(lines: seq<string>, maxLen: nat, b: Boundary)
  {
    (b.start == 0 || AllSpaces(lines, b.start - 1)) && (b.end == maxLen || AllSpaces(lines, b.end))
  }

  /** The columns the runs cover. */
  predicate Covers(bs: seq<Boundary>, c: nat)
  {
    exists k :: 0 <= k < |bs| && bs[k].start <= c < bs[k].end
  }

  lemma {:induction false} RunsSeparated(lines: seq<string>, maxLen: nat, col: nat)
    requires col <= maxLen
    requires col == 0 || col == maxLen || AllSpaces(lines, col)
    ensures Separated(lines, maxLen, col, Runs(lines, maxLen, col))
    decreases maxLen - col
  {
    var s := SkipBlank(lines, maxLen, col);
    SkipBlankSkips(lines, maxLen, col);
    if s < maxLen {
      var e := SkipFilled(lines, maxLen, s);
      SkipFilledSkips(lines, maxLen, s);
      RunsSeparated(lines, maxLen, e);
      var rest := Runs(lines, maxLen, e);
      assert Runs(lines, maxLen, col) == [Boundary(s, e)] + rest;
      if rest != [] {
        SkipBlankSkips(lines, maxLen, e);
        assert rest[0].start == SkipBlank(lines, maxLen, e) > e;
      }
      assert AllSpaces(lines, col) ==> s > col;
      if s > col {
        assert AllSpaces(lines, s - 1);
      }
      SeparatedCons(lines, maxLen, col, e, Boundary(s, e), rest);
    }
  }

  /** Prepending a maximal run that ends before the next one starts keeps
      the runs separated. */
  lemma SeparatedCons(lines: seq<string>, maxLen: nat, col: nat, lo: nat, b: Boundary, rest: seq<Boundary>)
    requires Separated(lines, maxLen, lo, rest)
    requires col <= b.start < b.end <= lo <= maxLen && Maximal(lines, maxLen, b)
    requires rest != [] ==> b.end < rest[0].start
    ensures Separated(lines, maxLen, col, [b] + rest)
  {
    var bs := [b] + rest;
    forall k | 1 <= k < |bs|
      ensures col <= bs[k].start < bs[k].end <= maxLen
      ensures Maximal(lines, maxLen, bs[k])
    {
      assert bs[k] == rest[k - 1];
    }
    forall k | 1 <= k < |bs| - 1
      ensures bs[k].end < bs[k + 1].start
    {
      assert bs[k] == rest[k - 1] && bs[k + 1] == rest[k];
    }
  }

  /** A column below maxLen lies in a run exactly when it is not blank. */
  lemma {:induction false} RunsCover(lines: seq<string>, maxLen: nat, col: nat)
    requires col <= maxLen
    ensures forall c: nat :: col <= c < maxLen ==> (Covers(Runs(lines, maxLen, col), c) <==> !AllSpaces(lines, c))
    ensures forall c: nat :: Covers(Runs(lines, maxLen, col), c) ==> col <= c < maxLen
    decreases maxLen - col
  {
    var s := SkipBlank(lines, maxLen, col);
    SkipBlankSkips(lines, maxLen, col);
    var bs := Runs(lines, maxLen, col);
    if s < maxLen {
      var e := SkipFilled(lines, maxLen, s);
      SkipFilledSkips(lines, maxLen, s);
      RunsCover(lines, maxLen, e);
      var rest := Runs(lines, maxLen, e);
      assert bs == [Boundary(s, e)] + rest;
      forall c: nat | Covers(bs, c)
        ensures s <= c < e || Covers(rest, c)
      {
        var k :| 0 <= k < |bs| && bs[k].start <= c < bs[k].end;
        if k > 0 {
          assert rest[k - 1] == bs[k];
        }
      }
      forall c: nat | Covers(rest, c)
        ensures Covers(bs, c)
      {
        var k :| 0 <= k < |rest| && rest[k].start <= c < rest[k].end;
        assert bs[k + 1] == rest[k];
      }
      forall c: nat | s <= c < e
        ensures Covers(bs, c)
      {
        assert bs[0].start <= c < bs[0].end;
      }
    } else {
      assert bs == [];
    }
  }

  /** What `findColumnBoundaries` promises about its output. */
  lemma BoundariesExact(lines: seq<string>)
    ensures var bs := ColumnBoundaries(lines);
      Separated(lines, MaxLen(lines), 0, bs)
      && forall c: nat :: c < MaxLen(lines) ==> (Covers(bs, c) <==> !AllSpaces(lines, c))
  {
    RunsSeparated(lines, MaxLen(lines), 0);
    RunsCover(lines, MaxLen(lines), 0);
  }

  /** The first inner loop of `findColumnBoundaries`: skip blank columns. */
  method SkipBlankColumns(lines: seq<string>, maxLen: nat, from: nat) returns (col: nat)
    requires from <= maxLen
    ensures col == SkipBlank(lines, maxLen, from)
  {
    col := from;
    while col < maxLen
      invariant from <= col <= maxLen
      invariant SkipBlank(lines, maxLen, col) == SkipBlank(lines, maxLen, from)
      decreases maxLen - col
    {
      var blank := IsAllSpaces(lines, col);
      if !blank {
        break;
      }
      col := col + 1;
    }
  }

  /** The second inner loop of `findColumnBoundaries`: take the run of
      non-blank columns. */
  method SkipFilledColumns(lines: seq<string>, maxLen: nat, from: nat) returns (col: nat)
    requires from <= maxLen
    ensures col == SkipFilled(lines, maxLen, from)
  {
    col := from;
    while col < maxLen
      invariant from <= col <= maxLen
      invariant SkipFilled(lines, maxLen, col) == SkipFilled(lines, maxLen, from)
      decreases maxLen - col
    {
      var blank := IsAllSpaces(lines, col);
      if blank {
        break;
      }
      col := col + 1;
    }
  }

  /** The boundaries are well-formed ranges. */
  lemma BoundariesOrdered(lines: seq<string>)
    ensures Ordered(ColumnBoundaries(lines))
  {
    RunsSeparated(lines, MaxLen(lines), 0);
  }

  /** The scan: skip blank columns, then take the run of non-blank ones. */
  method FindColumnBoundaries(lines: seq<string>) returns (boundaries: seq<Boundary>)
    ensures boundaries == ColumnBoundaries(lines)
  {
    var maxLen := MaxLen(lines);
    boundaries := [];
    var col := 0;
    while col < maxLen
      invariant col <= maxLen
      invariant boundaries + Runs(lines, maxLen, col) == ColumnBoundaries(lines)
      decreases maxLen - col
    {
      ghost var col0 := col;
      col := SkipBlankColumns(lines, maxLen, col);
      if col >= maxLen {
        assert Runs(lines, maxLen, col0) == [];
        break;
      }
      var start := col;
      SkipBlankSkips(lines, maxLen, col0);
      col := SkipFilledColumns(lines, maxLen, start);
      assert Runs(lines, maxLen, col0) == [Boundary(start, col)] + Runs(lines, maxLen, col);
      if col > start {
        boundaries := boundaries + [Boundary(start, col)];
      }
    }
  }

  // ---------------------------------------------------------------------
  // Operators

  predicate IsOperator(c: char)
  {
    c == Plus || c == Times
  }

  /** `findOperator` from index i on: the first '+' or '*' before end and
      before the row ends; None is the IllegalArgumentException. */
  function OperatorFrom(row: string, i: nat, end: nat): (r: Option<char>)
    ensures r.Some? ==> IsOperator(r.value)
    decreases |row| - i
  {
    if i >= end || i >= |row| then None
    else if IsOperator(row[i]) then Some(row[i])
    else OperatorFrom(row, i + 1, end)
  }

  /** None exactly when no operator occurs in the range; otherwise the
      operator at the first position that holds one. */
  lemma {:induction false} OperatorFromFirst(row: string, i: nat, end: nat)
    ensures OperatorFrom(row, i, end).None? <==> forall k :: i <= k < end && k < |row| ==> !IsOperator(row[k])
    ensures OperatorFrom(row, i, end).Some? ==>
      exists k :: i <= k < end && k < |row| && row[k] == OperatorFrom(row, i, end).value
        && forall j :: i <= j < k ==> !IsOperator(row[j])
    decreases |row| - i
  {
    if i < end && i < |row| && !IsOperator(row[i]) {
      OperatorFromFirst(row, i + 1, end);
      if OperatorFrom(row, i, end).Some? {
        var k :| i + 1 <= k < end && k < |row| && row[k] == OperatorFrom(row, i + 1, end).value
          && forall j :: i + 1 <= j < k ==> !IsOperator(row[j]);
        assert forall j :: i <= j < k ==> !IsOperator(row[j]);
      }
    }
  }

  method FindOperator(operatorRow: string, start: nat, end: nat) returns (r: Option<char>)
    ensures r == OperatorFrom(operatorRow, start, end)
  {
    var i := start;
    while i < end && i < |operatorRow|
      invariant start <= i
      invariant OperatorFrom(operatorRow, i, end) == OperatorFrom(operatorRow, start, end)
      decreases |operatorRow| - i
    {
      var ch := operatorRow[i];
      if ch == Plus || ch == Times {
        return Some(ch);
      }
      i := i + 1;
    }
    return None;
  }

  // ---------------------------------------------------------------------
  // Numbers written across a row

  /** What one row contributes to a problem: nothing (the row ends before
      the range, or the trimmed segment is empty), a number, or a
      NumberFormatException. */
  datatype Cell = Skip | Number(value: int) | Malformed

  function RowCell(row: string, s: nat, e: nat): Cell
    requires s <= e
  {
    if s >= |row| then Skip
    else
      var segment := JavaText.Trim(row[s..if e < |row| then e else |row|]);
      if segment == [] then Skip
      else match JavaText.ParseLong(segment)
        case Some(x) => Number(x)
        case None => Malformed
  }

  /** The cells of the rows for the range [s, e), top to bottom. */
  function Cells(rows: seq<string>, s: nat, e: nat): (cells: seq<Cell>)
    requires s <= e
    ensures |cells| == |rows|
    ensures forall i :: 0 <= i < |rows| ==> cells[i] == RowCell(rows[i], s, e)
  {
    seq(|rows|, i requires 0 <= i < |rows| => RowCell(rows[i], s, e))
  }

  /** The numbers of a column of cells, top to bottom; None when a cell is
      malformed. */
  function Collect(cells: seq<Cell>): (r: Option<seq<int>>)
    ensures r.Some? ==> |r.value| <= |cells|
  {
    if cells == [] then Some([])
    else match Collect(cells[..|cells| - 1])
      case None => None
      case Some(ns) =>
        match cells[|cells| - 1]
          case Skip => Some(ns)
          case Number(x) => Some(ns + [x])
          case Malformed => None
  }

  /** `extractNumbers`: at most one number per row, in row order; None when
      a segment is not a number. */
  function NumbersOf(rows: seq<string>, s: nat, e: nat): (r: Option<seq<int>>)
    requires s <= e
  {
    Collect(Cells(rows, s, e))
  }

  /** One malformed cell spoils the whole problem. */
  lemma {:induction false} CollectMalformed(cells: seq<Cell>, k: nat)
    requires k <= |cells| && Collect(cells[..k]).None?
    ensures Collect(cells).None?
    decreases |cells| - k
  {
    if k < |cells| {
      assert cells[..k + 1][..k] == cells[..k];
      CollectMalformed(cells, k + 1);
    } else {
      assert cells[..k] == cells;
    }
  }

  /** The numbers are found exactly when no cell is malformed. */
  lemma {:induction false} CollectSome(cells: seq<Cell>)
    ensures Collect(cells).Some? <==> forall i :: 0 <= i < |cells| ==> !cells[i].Malformed?
  {
    if cells != [] {
      var init := cells[..|cells| - 1];
      CollectSome(init);
      assert forall i :: 0 <= i < |init| ==> init[i] == cells[i];
    }
  }

  /** The positions of the cells that hold a number, in order. */
  function NumberCells(cells: seq<Cell>): (ix: seq<nat>)
    ensures forall j :: 0 <= j < |ix| ==> ix[j] < |cells| && cells[ix[j]].Number?
    ensures forall j, j' :: 0 <= j < j' < |ix| ==> ix[j] < ix[j']
  {
    if cells == [] then []
    else
      var init := cells[..|cells| - 1];
      var ix := NumberCells(init);
      assert forall j :: 0 <= j < |ix| ==> cells[ix[j]] == init[ix[j]];
      if cells[|cells| - 1].Number? then ix + [|cells| - 1] else ix
  }

  /** Every cell holding a number is listed. */
  lemma {:induction false} NumberCellsComplete(cells: seq<Cell>, i: nat)
    requires i < |cells| && cells[i].Number?
    ensures i in NumberCells(cells)
  {
    var init := cells[..|cells| - 1];
    if i < |init| {
      NumberCellsComplete(init, i);
    }
  }

  /** The collected numbers are exactly the values of the number cells. */
  lemma {:induction false} CollectValues(cells: seq<Cell>)
    ensures Collect(cells).Some? ==>
      |Collect(cells).value| == |NumberCells(cells)|
      && forall j :: 0 <= j < |NumberCells(cells)| ==> Collect(cells).value[j] == cells[NumberCells(cells)[j]].value
  {
    if cells != [] && Collect(cells).Some? {
      var init := cells[..|cells| - 1];
      CollectValues(init);
      var ix := NumberCells(init);
      assert forall j :: 0 <= j < |ix| ==> cells[ix[j]] == init[ix[j]];
    }
  }

  /** The numbers of a range are found exactly when no row holds a
      malformed segment, and they are the parsed segments of the rows that
      hold one, in row order. */
  lemma NumbersOfRows(rows: seq<string>, s: nat, e: nat)
    requires s <= e
    ensures NumbersOf(rows, s, e).Some? <==> forall i :: 0 <= i < |rows| ==> !RowCell(rows[i], s, e).Malformed?
    ensures var cells := Cells(rows, s, e);
      NumbersOf(rows, s, e).Some? ==>
        |NumbersOf(rows, s, e).value| == |NumberCells(cells)|
        && forall j :: 0 <= j < |NumberCells(cells)| ==>
          NumbersOf(rows, s, e).value[j] == RowCell(rows[NumberCells(cells)[j]], s, e).value
  {
    var cells := Cells(rows, s, e);
    CollectSome(cells);
    CollectValues(cells);
  }

  method ExtractNumbers(rows: seq<string>, startCol: nat, endCol: nat) returns (r: Option<seq<int>>)
    requires startCol <= endCol
    ensures r == NumbersOf(rows, startCol, endCol)
  {
    ghost var cells := Cells(rows, startCol, endCol);
    var numbers := [];
    for k := 0 to |rows|
      invariant Collect(cells[..k]) == Some(numbers)
    {
      assert cells[..k + 1][..k] == cells[..k];
      var row := rows[k];
      if startCol >= |row| {
        continue;
      }
      var actualEnd := if endCol < |row| then endCol else |row|;
      var segment := JavaText.Trim(row[startCol..actualEnd]);
      if segment != [] {
        var parsed := JavaText.ParseLong(segment);
        if parsed.None? {
          CollectMalformed(cells, k + 1);
          return None;
        }
        numbers := numbers + [parsed.value];
      }
    }
    assert cells[..|rows|] == cells;
    return Some(numbers);
  }

  // ---------------------------------------------------------------------
  // Numbers written down a column (cephalopod mode)

  /** The digits of column col, top to bottom; rows too short for the
      column and non-digit characters are skipped. */
  function ColumnDigits(rows: seq<string>, col: nat): (ds: seq<int>)
    ensures |ds| <= |rows| && Decimal.AreDigits(ds)
  {
    if rows == [] then []
    else
      var row := rows[|rows| - 1];
      ColumnDigits(rows[..|rows| - 1], col)
        + if col < |row| && JavaText.IsDigit(row[col]) then [JavaText.DigitValue(row[col])] else []
  }

  /** `extractVerticalNumber`: the column's digits as a decimal number, or
      -1 when it has none. */
  function VerticalNumber(rows: seq<string>, col: nat): int
  {
    var ds := ColumnDigits(rows, col);
    if ds == [] then -1 else Decimal.Value(ds)
  }

  /** -1 is returned exactly when the column holds no digit, so it cannot
      be confused with a number; otherwise the number has at most as many
      digits as there are rows. */
  lemma VerticalNumberSign(rows: seq<string>, col: nat)
    ensures VerticalNumber(rows, col) >= 0 <==> ColumnDigits(rows, col) != []
    ensures VerticalNumber(rows, col) < Decimal.Pow10(|rows|)
  {
    var ds := ColumnDigits(rows, col);
    Decimal.ValueBounds(ds);
    Decimal.Pow10Monotone(|ds|, |rows|);
  }

  method ExtractVerticalNumber(rows: seq<string>, col: nat) returns (number: int)
    ensures number == VerticalNumber(rows, col)
  {
    var result := 0;
    var hasDigit := false;
    for k := 0 to |rows|
      invariant hasDigit <==> ColumnDigits(rows[..k], col) != []
      invariant result == Decimal.Value(ColumnDigits(rows[..k], col))
    {
      assert rows[..k + 1][..k] == rows[..k];
      assert rows[..k + 1][k] == rows[k];
      var row := rows[k];
      ghost var ds := ColumnDigits(rows[..k], col);
      if col < |row| && JavaText.IsDigit(row[col]) {
        assert ColumnDigits(rows[..k + 1], col) == ds + [JavaText.DigitValue(row[col])];
      } else {
        assert ColumnDigits(rows[..k + 1], col) == ds + [] == ds;
      }
      if col < |row| {
        var ch := row[col];
        if JavaText.IsDigit(ch) {
          Decimal.ValueSnoc(ds, JavaText.DigitValue(ch));
          result := result * 10 + JavaText.DigitValue(ch);
          hasDigit := true;
        }
      }
    }
    assert rows[..|rows|] == rows;
    number := if hasDigit then result else -1;
  }

  /** `extractVerticalNumbers`: one number per column of [s, e) that holds
      a digit, left to right. */
  function VerticalNumbers(rows: seq<string>, s: nat, e: nat): (ns: seq<int>)
    ensures |ns| <= if e >= s then e - s else 0
    ensures forall j :: 0 <= j < |ns| ==> ns[j] >= 0
    decreases e
  {
    if e <= s then []
    else
      VerticalNumberSign(rows, e - 1);
      var n := VerticalNumber(rows, e - 1);
      VerticalNumbers(rows, s, e - 1) + if n >= 0 then [n] else []
  }

  method ExtractVerticalNumbers(rows: seq<string>, startCol: nat, endCol: nat) returns (numbers: seq<int>)
    ensures numbers == VerticalNumbers(rows, startCol, endCol)
  {
    numbers := [];
    if endCol <= startCol {
      return;
    }
    for col := startCol to endCol
      invariant numbers == VerticalNumbers(rows, startCol, col)
    {
      var number := ExtractVerticalNumber(rows, col);
      if number >= 0 {
        numbers := numbers + [number];
      }
    }
  }

  // ---------------------------------------------------------------------
  // The worksheet

  predicate Ordered(bs: seq<Boundary>)
  {
    forall k :: 0 <= k < |bs| ==> bs[k].start <= bs[k].end
  }

  /** The numbers of one problem in the chosen reading. */
  function ProblemNumbers(rows: seq<string>, b: Boundary, cephalopodMode: bool): Option<seq<int>>
    requires b.start <= b.end
  {
    if cephalopodMode then Some(VerticalNumbers(rows, b.start, b.end)) else NumbersOf(rows, b.start, b.end)
  }

  /** One pass of the loop of `parseInternal`: a range without an operator
      or with a malformed number is an exception (None); a range without
      numbers adds no problem. */
  function ProblemAt(rows: seq<string>, operatorRow: string, b: Boundary, cephalopodMode: bool): (r: Option<seq<MathProblem>>)
    requires b.start <= b.end
    ensures r.Some? ==> |r.value| <= 1
    ensures r.Some? ==> forall j :: 0 <= j < |r.value| ==> IsOperator(r.value[j].operator) && r.value[j].numbers != []
  {
    match OperatorFrom(operatorRow, b.start, b.end)
      case None => None
      case Some(op) =>
        match ProblemNumbers(rows, b, cephalopodMode)
          case None => None
          case Some(ns) => if ns == [] then Some([]) else Some([MathProblem(ns, op)])
  }

  /** The loop of `parseInternal` over the boundaries, left to right. */
  function ProblemsOf(rows: seq<string>, operatorRow: string, bs: seq<Boundary>, cephalopodMode: bool): (r: Option<seq<MathProblem>>)
    requires Ordered(bs)
    ensures r.Some? ==> |r.value| <= |bs|
    ensures r.Some? ==> forall j :: 0 <= j < |r.value| ==> IsOperator(r.value[j].operator) && r.value[j].numbers != []
  {
    if bs == [] then Some([])
    else
      match ProblemsOf(rows, operatorRow, bs[..|bs| - 1], cephalopodMode)
        case None => None
        case Some(ps) =>
          match ProblemAt(rows, operatorRow, bs[|bs| - 1], cephalopodMode)
            case None => None
            case Some(extra) => Some(ps + extra)
  }

  lemma {:induction false} ProblemsOfFailed(rows: seq<string>, operatorRow: string, bs: seq<Boundary>, cephalopodMode: bool, k: nat)
    requires Ordered(bs) && k <= |bs| && ProblemsOf(rows, operatorRow, bs[..k], cephalopodMode).None?
    ensures ProblemsOf(rows, operatorRow, bs, cephalopodMode).None?
    decreases |bs| - k
  {
    if k < |bs| {
      assert bs[..k + 1][..k] == bs[..k];
      ProblemsOfFailed(rows, operatorRow, bs, cephalopodMode, k + 1);
    } else {
      assert bs[..k] == bs;
    }
  }

  /** `parseInternal`: no lines or only blank lines give an empty worksheet;
      otherwise the last non-blank line is the operator row and the others
      are the number rows, and the boundaries are found over all of them. */
  function Parse(lines: seq<string>, cephalopodMode: bool): Option<MathWorksheet>
  {
    if lines == [] then Some(MathWorksheet([]))
    else
      var nonEmpty := FileUtils.NonBlank(lines);
      if nonEmpty == [] then Some(MathWorksheet([]))
      else
        var bs := ColumnBoundaries(nonEmpty);
        BoundariesOrdered(nonEmpty);
        match ProblemsOf(nonEmpty[..|nonEmpty| - 1], nonEmpty[|nonEmpty| - 1], bs, cephalopodMode)
          case None => None
          case Some(ps) => Some(MathWorksheet(ps))
  }

  /** The body of the loop of `parseInternal` for one boundary. */
  method ParseProblem(numberRows: seq<string>, operatorRow: string, boundary: Boundary, cephalopodMode: bool)
    returns (r: Option<seq<MathProblem>>)
    requires boundary.start <= boundary.end
    ensures r == ProblemAt(numberRows, operatorRow, boundary, cephalopodMode)
  {
    var operator := FindOperator(operatorRow, boundary.start, boundary.end);
    if operator.None? {
      return None;
    }
    var numbers: Option<seq<int>>;
    if cephalopodMode {
      var vertical := ExtractVerticalNumbers(numberRows, boundary.start, boundary.end);
      numbers := Some(vertical);
    } else {
      numbers := ExtractNumbers(numberRows, boundary.start, boundary.end);
    }
    if numbers.None? {
      return None;
    }
    if numbers.value == [] {
      return Some([]);
    }
    return Some([MathProblem(numbers.value, operator.value)]);
  }

  method ParseInternal(lines: seq<string>, cephalopodMode: bool) returns (r: Option<MathWorksheet>)
    ensures r == Parse(lines, cephalopodMode)
  {
    if |lines| == 0 {
      return Some(MathWorksheet([]));
    }
    var nonEmptyLines := FileUtils.NonBlank(lines);
    if |nonEmptyLines| == 0 {
      return Some(MathWorksheet([]));
    }
    var operatorRow := nonEmptyLines[|nonEmptyLines| - 1];
    var numberRows := nonEmptyLines[..|nonEmptyLines| - 1];
    var columnBoundaries := FindColumnBoundaries(nonEmptyLines);
    BoundariesOrdered(nonEmptyLines);
    var problems := ParseProblems(numberRows, operatorRow, columnBoundaries, cephalopodMode);
    if problems.None? {
      return None;
    }
    return Some(MathWorksheet(problems.value));
  }

  /** The loop of `parseInternal` over the boundaries. */
  method ParseProblems(numberRows: seq<string>, operatorRow: string, columnBoundaries: seq<Boundary>, cephalopodMode: bool)
    returns (r: Option<seq<MathProblem>>)
    requires Ordered(columnBoundaries)
    ensures r == ProblemsOf(numberRows, operatorRow, columnBoundaries, cephalopodMode)
  {
    var problems := [];
    for k := 0 to |columnBoundaries|
      invariant ProblemsOf(numberRows, operatorRow, columnBoundaries[..k], cephalopodMode) == Some(problems)
    {
      assert columnBoundaries[..k + 1][..k] == columnBoundaries[..k];
      var extra := ParseProblem(numberRows, operatorRow, columnBoundaries[k], cephalopodMode);
      if extra.None? {
        ProblemsOfFailed(numberRows, operatorRow, columnBoundaries, cephalopodMode, k + 1);
        return None;
      }
      problems := problems + extra.value;
    }
    assert columnBoundaries[..|columnBoundaries|] == columnBoundaries;
    return Some(problems);
  }

  /** `solveAndSum`: the sum of the answers; None when some problem has an
      operator `solve` rejects. */
  function SolveAndSum(ws: MathWorksheet): (r: Option<int>)
    ensures r.Some? <==> forall j :: 0 <= j < |ws.problems| ==> Solve(ws.problems[j]).Some?
    decreases |ws.problems|
  {
    if ws.problems == [] then Some(0)
    else
      var n := |ws.problems| - 1;
      match (SolveAndSum(MathWorksheet(ws.problems[..n])), Solve(ws.problems[n]))
        case (Some(total), Some(x)) => Some(total + x)
        case _ => None
  }

  /** Every parsed worksheet can be solved: its operators come from
      `findOperator`, which only returns '+' or '*', and no problem is empty. */
  lemma ParsedSolvable(lines: seq<string>, cephalopodMode: bool)
    requires Parse(lines, cephalopodMode).Some?
    ensures SolveAndSum(Parse(lines, cephalopodMode).value).Some?
    ensures forall p :: p in Parse(lines, cephalopodMode).value.problems ==> p.numbers != []
  {
  }
}
