/** day04/PaperRollGrid: a grid of paper rolls ('@') and empty cells ('.').
    A roll is accessible when fewer than four of its eight neighbours are
    rolls; part two removes all accessible rolls round after round until
    none is left accessible. The specification works on the grid as a
    value; the class keeps the char grid in an array it overwrites. */
module PaperRollGrid {
  const PaperRoll: char := '@'
  const Empty: char := '.'
  const MaxAdjacentForAccess: int := 4

  datatype Position = Position(row: int, col: int)

  type Grid = seq<seq<char>>

  /** Every row has `cols` cells. */
  predicate Rectangular(g: Grid, cols: nat)
  {
    forall r :: 0 <= r < |g| ==> |g[r]| == cols
  }

  predicate InBounds(g: Grid, cols: nat, row: int, col: int)
  {
    0 <= row < |g| && 0 <= col < cols
  }

  /** 1 when (row, col) is inside the grid and holds a roll, else 0. */
  function Occupied(g: Grid, cols: nat, row: int, col: int): (n: nat)
    requires Rectangular(g, cols)
    ensures n <= 1
  {
    if InBounds(g, cols, row, col) && g[row][col] == PaperRoll then 1 else 0
  }

  /** The neighbour at offset (dr, dc); the cell itself does not count. */
  function Neighbour(g: Grid, cols: nat, row: int, col: int, dr: int, dc: int): (n: nat)
    requires Rectangular(g, cols)
    ensures n <= 1 && (dr == 0 && dc == 0 ==> n == 0)
  {
    if dr == 0 && dc == 0 then 0 else Occupied(g, cols, row + dr, col + dc)
  }

  /** Rolls at the first n column offsets -1, 0, 1 of row offset dr, in
      the order the inner loop of `countAdjacentPaperRolls` visits them. */
  function RowNeighbours(g: Grid, cols: nat, row: int, col: int, dr: int, n: nat): nat
    requires Rectangular(g, cols) && n <= 3
  {
    if n == 0 then 0
    else RowNeighbours(g, cols, row, col, dr, n - 1) + Neighbour(g, cols, row, col, dr, n - 2)
  }

  /** Rolls at all offsets of the first n row offsets -1, 0, 1, in the
      order the outer loop visits them. */
  function NeighboursBefore(g: Grid, cols: nat, row: int, col: int, n: nat): nat
    requires Rectangular(g, cols) && n <= 3
  {
    if n == 0 then 0
    else NeighboursBefore(g, cols, row, col, n - 1) + RowNeighbours(g, cols, row, col, n - 2, 3)
  }

  /** `countAdjacentPaperRolls`: rolls among the in-bounds cells of the
      8-neighbourhood. */
  function AdjacentRolls(g: Grid, cols: nat, row: int, col: int): nat
    requires Rectangular(g, cols)
  {
    NeighboursBefore(g, cols, row, col, 3)
  }

  /** `isPaperRoll(row, col) && isAccessible(row, col)`. */
  predicate Accessible(g: Grid, cols: nat, row: int, col: int)
    requires Rectangular(g, cols) && InBounds(g, cols, row, col)
  {
    g[row][col] == PaperRoll && AdjacentRolls(g, cols, row, col) < MaxAdjacentForAccess
  }

  /** The accessible rolls of row r at columns below c, left to right. */
  function RowAccessible(g: Grid, cols: nat, r: nat, c: nat): seq<Position>
    requires Rectangular(g, cols) && r < |g| && c <= cols
  {
    if c == 0 then []
    else RowAccessible(g, cols, r, c - 1) + (if Accessible(g, cols, r, c - 1) then [Position(r, c - 1)] else [])
  }

  /** The accessible rolls of the rows below r, in row-major order. */
  function AccessibleUpTo(g: Grid, cols: nat, r: nat): seq<Position>
    requires Rectangular(g, cols) && r <= |g|
  {
    if r == 0 then [] else AccessibleUpTo(g, cols, r - 1) + RowAccessible(g, cols, r - 1, cols)
  }

  /** `findAccessibleRolls`. */
  function AccessibleRolls(g: Grid, cols: nat): seq<Position>
    requires Rectangular(g, cols)
  {
    AccessibleUpTo(g, cols, |g|)
  }

  /** Row-major order. */
  predicate Before(p: Position, q: Position)
  {
    p.row < q.row || (p.row == q.row && p.col < q.col)
  }

  predicate Increasing(ps: seq<Position>)
  {
    forall i, j :: 0 <= i < j < |ps| ==> Before(ps[i], ps[j])
  }

  /** The grid after `removeRolls(rolls)`: the listed cells are empty. */
  function Removed(g: Grid, cols: nat, rolls: seq<Position>): (h: Grid)
    requires Rectangular(g, cols)
    ensures |h| == |g| && Rectangular(h, cols)
    ensures forall r, c :: 0 <= r < |g| && 0 <= c < cols ==>
      h[r][c] == if Position(r, c) in rolls then Empty else g[r][c]
  {
    seq(|g|, r requires 0 <= r < |g| =>
      seq(cols, c requires 0 <= c < cols => if Position(r, c) in rolls then Empty else g[r][c]))
  }

  /** The cells that hold a roll. */
  function Rolls(g: Grid, cols: nat): set<Position>
    requires Rectangular(g, cols)
  {
    set r: int, c: int | 0 <= r < |g| && 0 <= c < cols && g[r][c] == PaperRoll :: Position(r, c)
  }

  function RollCount(g: Grid, cols: nat): nat
    requires Rectangular(g, cols)
  {
    |Rolls(g, cols)|
  }

  /** `countTotalRemovableRolls`: rolls removed until no roll is accessible. */
  function TotalRemovable(g: Grid, cols: nat): nat
    requires Rectangular(g, cols)
    decreases RollCount(g, cols)
  {
    var rolls := AccessibleRolls(g, cols);
    if rolls == [] then 0
    else
      RemovalShrinks(g, cols);
      |rolls| + TotalRemovable(Removed(g, cols, rolls), cols)
  }

  /** The grid left when no roll is accessible any more. */
  function Final(g: Grid, cols: nat): (h: Grid)
    requires Rectangular(g, cols)
    ensures |h| == |g| && Rectangular(h, cols)
    decreases RollCount(g, cols)
  {
    var rolls := AccessibleRolls(g, cols);
    if rolls == [] then g
    else
      RemovalShrinks(g, cols);
      Final(Removed(g, cols, rolls), cols)
  }

  // ---------------------------------------------------------------------
  // Properties

  /** The count is the sum over the eight offsets around the cell. */
  lemma AdjacentSum(g: Grid, cols: nat, row: int, col: int)
    requires Rectangular(g, cols)
    ensures AdjacentRolls(g, cols, row, col)
      == Occupied(g, cols, row - 1, col - 1) + Occupied(g, cols, row - 1, col) + Occupied(g, cols, row - 1, col + 1)
       + Occupied(g, cols, row, col - 1) + Occupied(g, cols, row, col + 1)
       + Occupied(g, cols, row + 1, col - 1) + Occupied(g, cols, row + 1, col) + Occupied(g, cols, row + 1, col + 1)
  {
    forall dr | -1 <= dr <= 1
      ensures RowNeighbours(g, cols, row, col, dr, 3)
        == Neighbour(g, cols, row, col, dr, -1) + Neighbour(g, cols, row, col, dr, 0) + Neighbour(g, cols, row, col, dr, 1)
    {
      assert RowNeighbours(g, cols, row, col, dr, 1) == Neighbour(g, cols, row, col, dr, -1);
    }
    assert NeighboursBefore(g, cols, row, col, 1) == RowNeighbours(g, cols, row, col, -1, 3);
    assert NeighboursBefore(g, cols, row, col, 2) == NeighboursBefore(g, cols, row, col, 1) + RowNeighbours(g, cols, row, col, 0, 3);
  }

  /** The neighbour count lies in 0..8: one per offset, and the cell
      itself is skipped. */
  lemma AdjacentAtMostEight(g: Grid, cols: nat, row: int, col: int)
    requires Rectangular(g, cols)
    ensures AdjacentRolls(g, cols, row, col) <= 8
  {
    AdjacentSum(g, cols, row, col);
  }

  /** Fewer rolls, fewer neighbours: when every roll of h is a roll of g,
      no cell of h has more adjacent rolls than in g. */
  lemma AdjacentMonotone(g: Grid, h: Grid, cols: nat, row: int, col: int)
    requires Rectangular(g, cols) && Rectangular(h, cols) && |h| == |g|
    requires forall r, c :: 0 <= r < |g| && 0 <= c < cols && h[r][c] == PaperRoll ==> g[r][c] == PaperRoll
    ensures AdjacentRolls(h, cols, row, col) <= AdjacentRolls(g, cols, row, col)
  {
    AdjacentSum(g, cols, row, col);
    AdjacentSum(h, cols, row, col);
    forall r, c ensures Occupied(h, cols, r, c) <= Occupied(g, cols, r, c) {
      if InBounds(h, cols, r, c) && h[r][c] == PaperRoll {
        assert g[r][c] == PaperRoll;
      }
    }
  }

  /** A roll that is accessible stays accessible while other rolls are
      removed, so removing a round all at once or one by one within the
      round makes no difference to which rolls qualify. */
  lemma StaysAccessible(g: Grid, cols: nat, rolls: seq<Position>, row: nat, col: nat)
    requires Rectangular(g, cols) && InBounds(g, cols, row, col)
    requires Accessible(g, cols, row, col) && Position(row, col) !in rolls
    ensures Accessible(Removed(g, cols, rolls), cols, row, col)
  {
    var h := Removed(g, cols, rolls);
    AdjacentMonotone(g, h, cols, row, col);
  }

  /** The accessible rolls of one row are exactly its accessible cells
      below column c, in increasing column order. */
  lemma {:induction false} RowAccessibleExact(g: Grid, cols: nat, r: nat, c: nat)
    requires Rectangular(g, cols) && r < |g| && c <= cols
    ensures var ps := RowAccessible(g, cols, r, c);
      Increasing(ps)
      && (forall i :: 0 <= i < |ps| ==> ps[i].row == r && 0 <= ps[i].col < c)
      && (forall p :: p in ps <==> p.row == r && 0 <= p.col < c && Accessible(g, cols, r, p.col))
  {
    if c > 0 {
      RowAccessibleExact(g, cols, r, c - 1);
    }
  }

  /** `findAccessibleRolls` lists the rolls of the rows below r in
      row-major order, each once. */
  lemma {:induction false} AccessibleUpToOrdered(g: Grid, cols: nat, r: nat)
    requires Rectangular(g, cols) && r <= |g|
    ensures var ps := AccessibleUpTo(g, cols, r);
      Increasing(ps) && forall i :: 0 <= i < |ps| ==> 0 <= ps[i].row < r && 0 <= ps[i].col < cols
  {
    if r > 0 {
      AccessibleUpToOrdered(g, cols, r - 1);
      RowAccessibleExact(g, cols, r - 1, cols);
      ConcatIncreasing(AccessibleUpTo(g, cols, r - 1), RowAccessible(g, cols, r - 1, cols), r - 1);
    }
  }

  /** ... and lists exactly the accessible ones. */
  lemma {:induction false} AccessibleUpToMembers(g: Grid, cols: nat, r: nat)
    requires Rectangular(g, cols) && r <= |g|
    ensures forall p :: p in AccessibleUpTo(g, cols, r) <==>
      0 <= p.row < r && 0 <= p.col < cols && Accessible(g, cols, p.row, p.col)
  {
    if r > 0 {
      AccessibleUpToMembers(g, cols, r - 1);
      RowAccessibleExact(g, cols, r - 1, cols);
      var a, b := AccessibleUpTo(g, cols, r - 1), RowAccessible(g, cols, r - 1, cols);
      assert AccessibleUpTo(g, cols, r) == a + b;
      forall p: Position
        ensures p in a + b <==> 0 <= p.row < r && 0 <= p.col < cols && Accessible(g, cols, p.row, p.col)
      {
        assert p in a + b <==> p in a || p in b;
      }
    }
  }

  /** Rows below r followed by row r stay in row-major order. */
  lemma ConcatIncreasing(a: seq<Position>, b: seq<Position>, r: int)
    requires Increasing(a) && Increasing(b)
    requires forall i :: 0 <= i < |a| ==> a[i].row < r
    requires forall i :: 0 <= i < |b| ==> b[i].row == r
    ensures Increasing(a + b)
    ensures forall i :: 0 <= i < |a + b| ==> (a + b)[i] == if i < |a| then a[i] else b[i - |a|]
  {
  }

  lemma AccessibleRollsExact(g: Grid, cols: nat)
    requires Rectangular(g, cols)
    ensures var ps := AccessibleRolls(g, cols);
      Increasing(ps)
      && (forall p :: p in ps <==> InBounds(g, cols, p.row, p.col) && Accessible(g, cols, p.row, p.col))
  {
    AccessibleUpToOrdered(g, cols, |g|);
    AccessibleUpToMembers(g, cols, |g|);
  }

  /** Positions listed in increasing order are distinct, so the set they
      form has as many elements as the list. */
  lemma {:induction false} IncreasingCard(ps: seq<Position>)
    requires Increasing(ps)
    ensures |set p | p in ps| == |ps|
  {
    if ps != [] {
      var init := ps[..|ps| - 1];
      IncreasingCard(init);
      var last := ps[|ps| - 1];
      assert last !in init by {
        forall i | 0 <= i < |init|
          ensures init[i] != last
        {
          assert Before(ps[i], ps[|ps| - 1]);
        }
      }
      assert (set p | p in ps) == (set p | p in init) + {last};
    }
  }

  /** Removing distinct rolls lowers the roll count by their number. */
  lemma RemovedRollCount(g: Grid, cols: nat, rolls: seq<Position>)
    requires Rectangular(g, cols) && Increasing(rolls)
    requires forall p :: p in rolls ==> InBounds(g, cols, p.row, p.col) && g[p.row][p.col] == PaperRoll
    ensures RollCount(Removed(g, cols, rolls), cols) == RollCount(g, cols) - |rolls|
  {
    var h := Removed(g, cols, rolls);
    var listed := set p | p in rolls;
    assert Rolls(h, cols) == Rolls(g, cols) - listed;
    assert listed <= Rolls(g, cols);
    IncreasingCard(rolls);
  }

  /** A round that removes anything removes at least one roll. */
  lemma RemovalShrinks(g: Grid, cols: nat)
    requires Rectangular(g, cols) && AccessibleRolls(g, cols) != []
    ensures RollCount(Removed(g, cols, AccessibleRolls(g, cols)), cols) < RollCount(g, cols)
  {
    var rolls := AccessibleRolls(g, cols);
    AccessibleRollsExact(g, cols);
    RemovedRollCount(g, cols, rolls);
  }

  /** Part two removes exactly the rolls that are gone at the end, so never
      more than the grid held; and the end grid has no accessible roll. */
  lemma {:induction false} TotalRemovableCounts(g: Grid, cols: nat)
    requires Rectangular(g, cols)
    ensures TotalRemovable(g, cols) == RollCount(g, cols) - RollCount(Final(g, cols), cols)
    ensures TotalRemovable(g, cols) <= RollCount(g, cols)
    ensures AccessibleRolls(Final(g, cols), cols) == []
    decreases RollCount(g, cols)
  {
    var rolls := AccessibleRolls(g, cols);
    if rolls != [] {
      var h := Removed(g, cols, rolls);
      RemovalShrinks(g, cols);
      AccessibleRollsExact(g, cols);
      RemovedRollCount(g, cols, rolls);
      TotalRemovableCounts(h, cols);
    }
  }

  /** A lone roll has no neighbours: it is accessible and removed in the
      first round. */
  lemma LoneRoll()
    ensures AccessibleRolls(["@"], 1) == [Position(0, 0)]
    ensures TotalRemovable(["@"], 1) == 1
  {
    var g: Grid := ["@"];
    assert AdjacentRolls(g, 1, 0, 0) == 0;
    assert RowAccessible(g, 1, 0, 1) == [Position(0, 0)];
    assert AccessibleRolls(g, 1) == [Position(0, 0)];
    var h := Removed(g, 1, [Position(0, 0)]);
    assert |h[0]| == 1 && h[0][0] == Empty;
    assert h[0] == ".";
    assert h == ["."];
    assert !Accessible(h, 1, 0, 0);
    assert RowAccessible(h, 1, 0, 1) == [];
    assert AccessibleUpTo(h, 1, 1) == AccessibleUpTo(h, 1, 0) + RowAccessible(h, 1, 0, 1);
  }

  /** In a plus shape the centre has four neighbouring rolls and each arm
      three, so the four arms are accessible and the centre is not. */
  lemma PlusShape(g: Grid)
    requires g == [".@.", "@@@", ".@."]
    ensures Rectangular(g, 3)
    ensures !Accessible(g, 3, 1, 1)
    ensures Accessible(g, 3, 0, 1) && Accessible(g, 3, 1, 0)
    ensures Accessible(g, 3, 1, 2) && Accessible(g, 3, 2, 1)
  {
    assert !Accessible(g, 3, 1, 1) by { AdjacentSum(g, 3, 1, 1); }
    assert Accessible(g, 3, 0, 1) by { AdjacentSum(g, 3, 0, 1); }
    assert Accessible(g, 3, 1, 0) by { AdjacentSum(g, 3, 1, 0); }
    assert Accessible(g, 3, 1, 2) by { AdjacentSum(g, 3, 1, 2); }
    assert Accessible(g, 3, 2, 1) by { AdjacentSum(g, 3, 2, 1); }
  }

  // ---------------------------------------------------------------------
  // The class

  class PaperRollGrid {
    const grid: array2<char>
    const rows: nat
    const cols: nat

    ghost predicate Valid()
    {
      grid.Length0 == rows && grid.Length1 == cols
    }

    /** The grid's contents as a value. */
    ghost function Cells(): (g: Grid)
      requires Valid()
      reads grid
      ensures |g| == rows && Rectangular(g, cols)
      ensures forall r, c {:trigger g[r][c]} :: 0 <= r < rows && 0 <= c < cols ==> g[r][c] == grid[r, c]
    {
      seq(rows, r requires 0 <= r < rows reads grid =>
        seq(cols, c requires 0 <= c < cols reads grid => grid[r, c]))
    }

    /** The width is the first line's length; every line must reach it,
        since the counting loops read that many characters of each row
        (characters beyond it are never read). */
    constructor (lines: seq<string>)
      requires forall i :: 0 <= i < |lines| ==> |lines[0]| <= |lines[i]|
      ensures Valid() && rows == |lines| && cols == (if lines == [] then 0 else |lines[0]|)
      ensures forall r :: 0 <= r < rows ==> Cells()[r] == lines[r][..cols]
    {
      var height := |lines|;
      var width := if lines == [] then 0 else |lines[0]|;
      var result := new char[height, width];
      for row := 0 to height
        invariant forall r, c :: 0 <= r < row && 0 <= c < width ==> result[r, c] == lines[r][c]
      {
        for col := 0 to width
          invariant forall r, c :: 0 <= r < row && 0 <= c < width ==> result[r, c] == lines[r][c]
          invariant forall c :: 0 <= c < col ==> result[row, c] == lines[row][c]
        {
          result[row, col] := lines[row][col];
        }
      }
      rows, cols, grid := height, width, result;
      new;
      forall r | 0 <= r < rows
        ensures Cells()[r] == lines[r][..cols]
      {
        assert forall c :: 0 <= c < cols ==> Cells()[r][c] == lines[r][c];
      }
    }

    /** `countAdjacentPaperRolls`: two loops over the offsets -1..1. */
    method CountAdjacentPaperRolls(row: int, col: int) returns (count: int)
      requires Valid()
      ensures count == AdjacentRolls(Cells(), cols, row, col)
    {
      ghost var g := Cells();
      count := 0;
      for deltaRow := -1 to 2
        invariant count == NeighboursBefore(g, cols, row, col, deltaRow + 1)
      {
        for deltaCol := -1 to 2
          invariant count == NeighboursBefore(g, cols, row, col, deltaRow + 1) + RowNeighbours(g, cols, row, col, deltaRow, deltaCol + 1)
        {
          if deltaRow == 0 && deltaCol == 0 {
            continue;
          }
          var newRow, newCol := row + deltaRow, col + deltaCol;
          RollAt(g, newRow, newCol);
          if IsWithinBounds(newRow, newCol) && IsPaperRoll(newRow, newCol) {
            count := count + 1;
          }
        }
      }
    }

    /** A cell of the array holds a roll exactly when the grid value has
        one there. */
    lemma RollAt(g: Grid, row: int, col: int)
      requires Valid() && g == Cells()
      ensures Occupied(g, cols, row, col) == if IsWithinBounds(row, col) && IsPaperRoll(row, col) then 1 else 0
    {
      if IsWithinBounds(row, col) {
        assert g[row][col] == grid[row, col];
      }
    }

    predicate IsWithinBounds(row: int, col: int)
    {
      row >= 0 && row < rows && col >= 0 && col < cols
    }

    /** `isPaperRoll`: the cell of the array holds a roll, as the grid
        value has it. */
    predicate IsPaperRoll(row: int, col: int): (b: bool)
      requires Valid() && IsWithinBounds(row, col)
      reads grid
      ensures b <==> Cells()[row][col] == PaperRoll
    {
      grid[row, col] == PaperRoll
    }

    method IsAccessible(row: int, col: int) returns (accessible: bool)
      requires Valid()
      ensures accessible <==> AdjacentRolls(Cells(), cols, row, col) < MaxAdjacentForAccess
    {
      var adjacent := CountAdjacentPaperRolls(row, col);
      accessible := adjacent < MaxAdjacentForAccess;
    }

    /** Part one: the number of accessible rolls; the grid is only read. */
    method CountAccessibleRolls() returns (count: int)
      requires Valid()
      ensures count == |AccessibleRolls(Cells(), cols)|
    {
      ghost var g := Cells();
      count := 0;
      for row := 0 to rows
        invariant count == |AccessibleUpTo(g, cols, row)|
      {
        ghost var before := count;
        for col := 0 to cols
          invariant count == before + |RowAccessible(g, cols, row, col)|
        {
          if IsPaperRoll(row, col) {
            var accessible := IsAccessible(row, col);
            if accessible {
              count := count + 1;
            }
          }
        }
      }
    }

    /** The accessible rolls in row-major order. */
    method FindAccessibleRolls() returns (accessible: seq<Position>)
      requires Valid()
      ensures accessible == AccessibleRolls(Cells(), cols)
    {
      ghost var g := Cells();
      accessible := [];
      for row := 0 to rows
        invariant accessible == AccessibleUpTo(g, cols, row)
      {
        ghost var before := accessible;
        for col := 0 to cols
          invariant accessible == before + RowAccessible(g, cols, row, col)
        {
          if IsPaperRoll(row, col) {
            var isAccessible := IsAccessible(row, col);
            if isAccessible {
              accessible := accessible + [Position(row, col)];
            }
          }
        }
      }
    }

    /** Writes '.' into every listed cell; no other cell changes. */
    method RemoveRolls(rolls: seq<Position>)
      requires Valid() && forall p :: p in rolls ==> IsWithinBounds(p.row, p.col)
      modifies grid
      ensures Cells() == Removed(old(Cells()), cols, rolls)
    {
      ghost var g := Cells();
      for k := 0 to |rolls|
        invariant forall r, c :: 0 <= r < rows && 0 <= c < cols ==>
          grid[r, c] == if Position(r, c) in rolls[..k] then Empty else g[r][c]
      {
        var pos := rolls[k];
        grid[pos.row, pos.col] := Empty;
        assert rolls[..k + 1] == rolls[..k] + [pos];
      }
      assert rolls[..|rolls|] == rolls;
      ghost var h := Removed(g, cols, rolls);
      assert forall r :: 0 <= r < rows ==> Cells()[r] == h[r];
    }

    /** Part two: removes the accessible rolls round by round and returns
        how many were removed; the grid ends with none accessible. */
    method CountTotalRemovableRolls() returns (totalRemoved: int)
      requires Valid()
      modifies grid
      ensures totalRemoved == TotalRemovable(old(Cells()), cols)
      ensures Cells() == Final(old(Cells()), cols)
    {
      ghost var g0 := Cells();
      totalRemoved := 0;
      var accessibleRolls := FindAccessibleRolls();
      while accessibleRolls != []
        invariant accessibleRolls == AccessibleRolls(Cells(), cols)
        invariant totalRemoved + TotalRemovable(Cells(), cols) == TotalRemovable(g0, cols)
        invariant Final(Cells(), cols) == Final(g0, cols)
        decreases RollCount(Cells(), cols)
      {
        ghost var g := Cells();
        RemovalShrinks(g, cols);
        AccessibleRollsExact(g, cols);
        totalRemoved := totalRemoved + |accessibleRolls|;
        RemoveRolls(accessibleRolls);
        accessibleRolls := FindAccessibleRolls();
      }
    }
  }
}
