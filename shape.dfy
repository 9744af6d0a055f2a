/** day12 Shape: a present drawn with '#' cells, reduced to its number of
    cells and the smaller side of the box around them. */
module Shape {
  datatype Shape = Shape(size: int, minDimension: int)

  const ShapeChar := '#'

  /** Row r, column c of the drawing is a cell of the shape. */
  predicate IsCell(lines: seq<string>, r: int, c: int)
  {
    0 <= r < |lines| && 0 <= c < |lines[r]| && lines[r][c] == ShapeChar
  }

  /** (r, c) comes before (R, C) in row-major order. */
  predicate Before(r: int, c: int, R: int, C: int)
  {
    r < R || (r == R && c < C)
  }

  /** The cells among the first c characters of a line. */
  function RowCount(line: string, c: nat): nat
    requires c <= |line|
  {
    if c == 0 then 0 else RowCount(line, c - 1) + (if line[c - 1] == ShapeChar then 1 else 0)
  }

  /** The cells in the first R lines. */
  function GridCount(lines: seq<string>, R: nat): nat
    requires R <= |lines|
  {
    if R == 0 then 0 else GridCount(lines, R - 1) + RowCount(lines[R - 1], |lines[R - 1]|)
  }

  function Min(a: int, b: int): int
  {
    if a < b then a else b
  }

  /** Rows r0..r1 and columns c0..c1 are the tightest box around the cells
      before (R, C): every such cell is inside it, and each of its four
      sides touches one. */
  ghost predicate Box(lines: seq<string>, R: int, C: int, r0: int, r1: int, c0: int, c1: int)
  {
    (forall r, c :: IsCell(lines, r, c) && Before(r, c, R, C) ==> r0 <= r <= r1 && c0 <= c <= c1) &&
    (exists c :: IsCell(lines, r0, c) && Before(r0, c, R, C)) &&
    (exists c :: IsCell(lines, r1, c) && Before(r1, c, R, C)) &&
    (exists r :: IsCell(lines, r, c0) && Before(r, c0, R, C)) &&
    (exists r :: IsCell(lines, r, c1) && Before(r, c1, R, C))
  }

  /** What `parse` makes of a drawing: the number of cells, and the smaller
      of the width and the height of the box around them (Shape(0, 0) when
      there is no cell). Turning or flipping the present swaps width and
      height, so the smaller side is the same in all eight orientations. */
  ghost predicate Parsed(lines: seq<string>, s: Shape)
  {
    s.size == GridCount(lines, |lines|) &&
    (s.size == 0 ==> s.minDimension == 0) &&
    (s.size > 0 ==> exists r0, r1, c0, c1 ::
      Box(lines, |lines|, 0, r0, r1, c0, c1) && s.minDimension == Min(c1 - c0 + 1, r1 - r0 + 1))
  }

  /** The state of `parse` at row r, column c: size counts the cells before
      (r, c), none when size is 0, and r0..r1, c0..c1 is their box when there
      are some. */
  ghost predicate Scanned(lines: seq<string>, r: int, c: int, size: int, r0: int, r1: int, c0: int, c1: int)
  {
    0 <= r <= |lines| && 0 <= c && (r < |lines| ==> c <= |lines[r]|) && (r == |lines| ==> c == 0) &&
    size == GridCount(lines, r) + (if r < |lines| then RowCount(lines[r], c) else 0) &&
    (size == 0 ==> forall r', c' :: IsCell(lines, r', c') && Before(r', c', r, c) ==> false) &&
    (size > 0 ==> Box(lines, r, c, r0, r1, c0, c1))
  }

  /** `parse`: one pass over the drawing counts the cells and widens the
      box to take each one in. */
  method Parse(lines: seq<string>) returns (shape: Shape)
    ensures Parsed(lines, shape)
  {
    var size := 0;
    var minRow, maxRow := 0x7fff_ffff, -0x8000_0000;
    var minCol, maxCol := 0x7fff_ffff, -0x8000_0000;
    for r := 0 to |lines|
      invariant Scanned(lines, r, 0, size, minRow, maxRow, minCol, maxCol)
    {
      var line := lines[r];
      for c := 0 to |line|
        invariant Scanned(lines, r, c, size, minRow, maxRow, minCol, maxCol)
      {
        if line[c] == ShapeChar {
          if size == 0 {
            FirstCell(lines, r, c, minRow, maxRow, minCol, maxCol);
            minRow, maxRow, minCol, maxCol := r, r, c, c;
          } else {
            NextCell(lines, r, c, size, minRow, maxRow, minCol, maxCol);
            minRow, maxRow := Min(minRow, r), if maxRow < r then r else maxRow;
            minCol, maxCol := Min(minCol, c), if maxCol < c then c else maxCol;
          }
          size := size + 1;
        } else {
          NoCell(lines, r, c, size, minRow, maxRow, minCol, maxCol);
        }
      }
      RowEnd(lines, r, size, minRow, maxRow, minCol, maxCol);
    }
    ScannedAll(lines, size, minRow, maxRow, minCol, maxCol);
    if size == 0 {
      return Shape(0, 0);
    }
    var width := maxCol - minCol + 1;
    var height := maxRow - minRow + 1;
    shape := Shape(size, Min(width, height));
  }

  /** The first cell starts the count and is a box of its own. */
  lemma FirstCell(lines: seq<string>, r: int, c: int, r0: int, r1: int, c0: int, c1: int)
    requires Scanned(lines, r, c, 0, r0, r1, c0, c1) && r < |lines| && c < |lines[r]| && IsCell(lines, r, c)
    ensures Scanned(lines, r, c + 1, 1, r, r, c, c)
  {
    BoxFirst(lines, r, c);
    forall r', c' | IsCell(lines, r', c') && Before(r', c', r, c + 1)
      ensures r <= r' <= r && c <= c' <= c
    {
      if Before(r', c', r, c) { assert false; }
    }
  }

  /** A further cell adds one to the count and widens the box. */
  lemma NextCell(lines: seq<string>, r: int, c: int, size: int, r0: int, r1: int, c0: int, c1: int)
    requires Scanned(lines, r, c, size, r0, r1, c0, c1) && size > 0 && r < |lines| && c < |lines[r]| && IsCell(lines, r, c)
    ensures Scanned(lines, r, c + 1, size + 1, Min(r0, r), if r1 < r then r else r1, Min(c0, c), if c1 < c then c else c1)
  {
    BoxGrows(lines, r, c, r0, r1, c0, c1);
  }

  /** A character that is not a cell changes nothing. */
  lemma NoCell(lines: seq<string>, r: int, c: int, size: int, r0: int, r1: int, c0: int, c1: int)
    requires Scanned(lines, r, c, size, r0, r1, c0, c1) && r < |lines| && c < |lines[r]| && lines[r][c] != ShapeChar
    ensures Scanned(lines, r, c + 1, size, r0, r1, c0, c1)
  {
    if size > 0 {
      BoxSkips(lines, r, c, r0, r1, c0, c1);
    } else {
      forall r', c' | IsCell(lines, r', c') && Before(r', c', r, c + 1)
        ensures false
      {
        assert Before(r', c', r, c);
      }
    }
  }

  /** The end of a row is the start of the next one. */
  lemma RowEnd(lines: seq<string>, r: int, size: int, r0: int, r1: int, c0: int, c1: int)
    requires 0 <= r < |lines| && Scanned(lines, r, |lines[r]|, size, r0, r1, c0, c1)
    ensures Scanned(lines, r + 1, 0, size, r0, r1, c0, c1)
  {
    if size > 0 {
      BoxNextRow(lines, r, r0, r1, c0, c1);
    } else {
      forall r', c' | IsCell(lines, r', c') && Before(r', c', r + 1, 0)
        ensures false
      {
        assert Before(r', c', r, |lines[r]|);
      }
    }
  }

  /** At the end of the drawing the state is what `parse` returns. */
  lemma ScannedAll(lines: seq<string>, size: int, r0: int, r1: int, c0: int, c1: int)
    requires Scanned(lines, |lines|, 0, size, r0, r1, c0, c1)
    ensures size == 0 ==> Parsed(lines, Shape(0, 0))
    ensures size > 0 ==> Parsed(lines, Shape(size, Min(c1 - c0 + 1, r1 - r0 + 1)))
  {
  }

  /** A cell at (r, c) widens the box of the cells before it to the box
      of the cells up to and including it. */
  lemma BoxGrows(lines: seq<string>, r: int, c: int, r0: int, r1: int, c0: int, c1: int)
    requires IsCell(lines, r, c) && Box(lines, r, c, r0, r1, c0, c1)
    ensures Box(lines, r, c + 1, Min(r0, r), if r1 < r then r else r1, Min(c0, c), if c1 < c then c else c1)
  {
    var r0', r1' := Min(r0, r), if r1 < r then r else r1;
    var c0', c1' := Min(c0, c), if c1 < c then c else c1;
    var x0 :| IsCell(lines, r0, x0) && Before(r0, x0, r, c);
    var x1 :| IsCell(lines, r1, x1) && Before(r1, x1, r, c);
    var y0 :| IsCell(lines, y0, c0) && Before(y0, c0, r, c);
    var y1 :| IsCell(lines, y1, c1) && Before(y1, c1, r, c);
    assert r0 <= r;
    assert IsCell(lines, r0', x0) && Before(r0', x0, r, c + 1);
    if r1' == r1 { assert IsCell(lines, r1', x1) && Before(r1', x1, r, c + 1); }
    else { assert IsCell(lines, r1', c) && Before(r1', c, r, c + 1); }
    if c0' == c0 { assert IsCell(lines, y0, c0') && Before(y0, c0', r, c + 1); }
    else { assert IsCell(lines, r, c0') && Before(r, c0', r, c + 1); }
    if c1' == c1 { assert IsCell(lines, y1, c1') && Before(y1, c1', r, c + 1); }
    else { assert IsCell(lines, r, c1') && Before(r, c1', r, c + 1); }
  }

  /** The first cell is a box of its own. */
  lemma BoxFirst(lines: seq<string>, r: int, c: int)
    requires IsCell(lines, r, c)
    requires forall r', c' :: IsCell(lines, r', c') && Before(r', c', r, c) ==> false
    ensures Box(lines, r, c + 1, r, r, c, c)
  {
    assert Before(r, c, r, c + 1);
  }

  /** A character that is not a cell leaves the box as it is. */
  lemma BoxSkips(lines: seq<string>, r: int, c: int, r0: int, r1: int, c0: int, c1: int)
    requires 0 <= r < |lines| && 0 <= c < |lines[r]| && !IsCell(lines, r, c)
    requires Box(lines, r, c, r0, r1, c0, c1)
    ensures Box(lines, r, c + 1, r0, r1, c0, c1)
  {
    var x0 :| IsCell(lines, r0, x0) && Before(r0, x0, r, c);
    var x1 :| IsCell(lines, r1, x1) && Before(r1, x1, r, c);
    var y0 :| IsCell(lines, y0, c0) && Before(y0, c0, r, c);
    var y1 :| IsCell(lines, y1, c1) && Before(y1, c1, r, c);
    assert Before(r0, x0, r, c + 1) && Before(r1, x1, r, c + 1);
    assert Before(y0, c0, r, c + 1) && Before(y1, c1, r, c + 1);
  }

  /** The end of a row is the start of the next one. */
  lemma BoxNextRow(lines: seq<string>, r: int, r0: int, r1: int, c0: int, c1: int)
    requires 0 <= r < |lines| && Box(lines, r, |lines[r]|, r0, r1, c0, c1)
    ensures Box(lines, r + 1, 0, r0, r1, c0, c1)
  {
    var x0 :| IsCell(lines, r0, x0) && Before(r0, x0, r, |lines[r]|);
    var x1 :| IsCell(lines, r1, x1) && Before(r1, x1, r, |lines[r]|);
    var y0 :| IsCell(lines, y0, c0) && Before(y0, c0, r, |lines[r]|);
    var y1 :| IsCell(lines, y1, c1) && Before(y1, c1, r, |lines[r]|);
    assert Before(r0, x0, r + 1, 0) && Before(r1, x1, r + 1, 0);
    assert Before(y0, c0, r + 1, 0) && Before(y1, c1, r + 1, 0);
    forall r', c' | IsCell(lines, r', c') && Before(r', c', r + 1, 0)
      ensures r0 <= r' <= r1 && c0 <= c' <= c1
    {
      assert Before(r', c', r, |lines[r]|);
    }
  }

  /** The box around the cells is determined by the cells. */
  lemma BoxUnique(lines: seq<string>, r0: int, r1: int, c0: int, c1: int, s0: int, s1: int, d0: int, d1: int)
    requires Box(lines, |lines|, 0, r0, r1, c0, c1) && Box(lines, |lines|, 0, s0, s1, d0, d1)
    ensures r0 == s0 && r1 == s1 && c0 == d0 && c1 == d1
  {
    var x0 :| IsCell(lines, r0, x0) && Before(r0, x0, |lines|, 0);
    var x1 :| IsCell(lines, r1, x1) && Before(r1, x1, |lines|, 0);
    var y0 :| IsCell(lines, y0, c0) && Before(y0, c0, |lines|, 0);
    var y1 :| IsCell(lines, y1, c1) && Before(y1, c1, |lines|, 0);
    var u0 :| IsCell(lines, s0, u0) && Before(s0, u0, |lines|, 0);
    var u1 :| IsCell(lines, s1, u1) && Before(s1, u1, |lines|, 0);
    var v0 :| IsCell(lines, v0, d0) && Before(v0, d0, |lines|, 0);
    var v1 :| IsCell(lines, v1, d1) && Before(v1, d1, |lines|, 0);
  }

  /** A drawing parses to one shape only. */
  lemma ParsedUnique(lines: seq<string>, s: Shape, t: Shape)
    requires Parsed(lines, s) && Parsed(lines, t)
    ensures s == t
  {
    if s.size > 0 {
      var r0, r1, c0, c1 :| Box(lines, |lines|, 0, r0, r1, c0, c1) && s.minDimension == Min(c1 - c0 + 1, r1 - r0 + 1);
      var s0, s1, d0, d1 :| Box(lines, |lines|, 0, s0, s1, d0, d1) && t.minDimension == Min(d1 - d0 + 1, s1 - s0 + 1);
      BoxUnique(lines, r0, r1, c0, c1, s0, s1, d0, d1);
    }
  }

  /** A shape with at least one cell is at least one cell wide and high. */
  lemma MinDimensionPositive(lines: seq<string>, s: Shape)
    requires Parsed(lines, s) && s.size > 0
    ensures s.minDimension >= 1
  {
    var r0, r1, c0, c1 :| Box(lines, |lines|, 0, r0, r1, c0, c1) && s.minDimension == Min(c1 - c0 + 1, r1 - r0 + 1);
    var x0 :| IsCell(lines, r0, x0) && Before(r0, x0, |lines|, 0);
    var y0 :| IsCell(lines, y0, c0) && Before(y0, c0, |lines|, 0);
  }

  /** A drawing without any '#' is Shape(0, 0). */
  lemma NoCellsIsEmpty(lines: seq<string>)
    requires forall r, c :: !IsCell(lines, r, c)
    ensures Parsed(lines, Shape(0, 0))
  {
    NoCellsCount(lines, |lines|);
  }

  lemma {:induction false} NoCellsCount(lines: seq<string>, R: nat)
    requires R <= |lines| && forall r, c :: !IsCell(lines, r, c)
    ensures GridCount(lines, R) == 0
  {
    if R > 0 {
      NoCellsCount(lines, R - 1);
      NoCellsRow(lines, R - 1, |lines[R - 1]|);
    }
  }

  lemma {:induction false} NoCellsRow(lines: seq<string>, r: nat, c: nat)
    requires r < |lines| && c <= |lines[r]| && forall c' :: !IsCell(lines, r, c')
    ensures RowCount(lines[r], c) == 0
  {
    if c > 0 {
      NoCellsRow(lines, r, c - 1);
      assert !IsCell(lines, r, c - 1);
    }
  }

  /** The first shape of the example: seven cells in a three by three box. */
  lemma ExampleShape(s: Shape)
    requires Parsed(["##.", "##.", "###"], s)
    ensures s == Shape(7, 3)
  {
    var lines := ["##.", "##.", "###"];
    assert RowCount(lines[0], 3) == 2 && RowCount(lines[1], 3) == 2 && RowCount(lines[2], 3) == 3;
    assert IsCell(lines, 0, 0) && IsCell(lines, 2, 2);
    assert Box(lines, 3, 0, 0, 2, 0, 2);
    ParsedUnique(lines, s, Shape(7, 3));
  }
}
