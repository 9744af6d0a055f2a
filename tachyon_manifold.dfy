/** day07 TachyonManifold: a beam enters just below 'S' and travels down its
    column; the first splitter '^' it meets sends two new beams down from
    the row below, one column to the left and one to the right. Part one
    counts the splitters some beam reaches, part two the timelines: every
    split doubles the ways a beam can have come. */
module TachyonManifold {
  import opened Optional
  import MathProblems

  const Start: char := 'S'
  const Splitter: char := '^'
  const Empty: char := '.'

  // ---------------------------------------------------------------------
  // Positions packed into a Java long

  const IntMin: int := -0x8000_0000
  const IntMax: int := 0x7FFF_FFFF
  const TwoTo32: int := 0x1_0000_0000

  predicate IsInt(x: int)
  {
    IntMin <= x <= IntMax
  }

  /** The Java `(int)` cast: the low 32 bits read as two's complement. */
  function ToInt(x: int): (r: int)
    ensures IsInt(r)
    ensures IsInt(x) ==> r == x
  {
    (x - IntMin) % TwoTo32 + IntMin
  }

  /** `decodeRow`: an arithmetic shift right by 32 rounds down, then the
      cast keeps 32 bits. */
  function DecodeRow(k: int): int
  {
    ToInt(k / TwoTo32)
  }

  /** `decodeCol`: the cast keeps the low 32 bits. */
  function DecodeCol(k: int): int
  {
    ToInt(k)
  }

  lemma Unpack(row: int, col: int)
    requires IsInt(row) && IsInt(col)
    ensures DecodeRow(row * TwoTo32 + col % TwoTo32) == row
    ensures DecodeCol(row * TwoTo32 + col % TwoTo32) == col
  {
    var low := col % TwoTo32;
    var k := row * TwoTo32 + low;
    assert k / TwoTo32 == row;
    assert (k - IntMin) % TwoTo32 == (low - IntMin) % TwoTo32;
    if col >= 0 {
      assert low == col;
    } else {
      assert low == col + TwoTo32;
    }
  }

  /** `encodePosition`: the row in the high 32 bits and the low 32 bits of
      the column below it. The two fields do not overlap, so the `|` is a
      sum. Both decoders give back what was packed, and the key fits a
      long. */
  function Encode(row: int, col: int): (k: int)
    requires IsInt(row) && IsInt(col)
    ensures DecodeRow(k) == row && DecodeCol(k) == col
    ensures -0x8000_0000_0000_0000 <= k < 0x8000_0000_0000_0000
  {
    Unpack(row, col);
    row * TwoTo32 + col % TwoTo32
  }

  /** Distinct positions get distinct keys, so a set of keys counts the
      positions it encodes. */
  lemma EncodeInjective(r: int, c: int, r': int, c': int)
    requires IsInt(r) && IsInt(c) && IsInt(r') && IsInt(c')
    ensures Encode(r, c) == Encode(r', c') <==> r == r' && c == c'
  {
  }

  // ---------------------------------------------------------------------
  // The grid

  datatype Pos = Pos(row: int, col: int)

  datatype TachyonManifold = TachyonManifold(grid: seq<string>, startCol: int)

  /** Non-empty, rectangular, with the start column inside it and sizes a
      Java array can have. */
  predicate Shaped(m: TachyonManifold)
  {
    0 < |m.grid| <= IntMax && |m.grid[0]| <= IntMax
    && (forall r :: 0 <= r < |m.grid| ==> |m.grid[r]| == |m.grid[0]|)
    && 0 <= m.startCol < |m.grid[0]|
  }

  /** What `parse` guarantees: the start column holds an 'S'. */
  predicate Valid(m: TachyonManifold)
  {
    Shaped(m) && exists r :: 0 <= r < |m.grid| && m.grid[r][m.startCol] == Start
  }

  function Height(m: TachyonManifold): nat
  {
    |m.grid|
  }

  function Width(m: TachyonManifold): nat
    requires |m.grid| > 0
  {
    |m.grid[0]|
  }

  predicate IsSplitter(m: TachyonManifold, r: int, c: int)
    requires Shaped(m) && 0 <= r < Height(m) && 0 <= c < Width(m)
  {
    m.grid[r][c] == Splitter
  }

  // ---------------------------------------------------------------------
  // Parsing

  /** The character `parse` stores at column col of a line: short lines are
      padded with '.'. */
  function CharAt(line: string, col: nat): char
  {
    if col < |line| then line[col] else Empty
  }

  /** A line padded with '.' or cut to the given width. */
  function PadRow(line: string, width: nat): (row: string)
    ensures |row| == width
  {
    seq(width, c requires 0 <= c < width => CharAt(line, c))
  }

  /** The column of the last 'S' in row[..n], or -1. */
  function LastStartIn(row: string, n: nat): (c: int)
    requires n <= |row|
    ensures -1 <= c < n
    ensures c >= 0 ==> row[c] == Start && forall j :: c < j < n ==> row[j] != Start
    ensures c == -1 ==> forall j :: 0 <= j < n ==> row[j] != Start
  {
    if n == 0 then -1
    else if row[n - 1] == Start then n - 1
    else LastStartIn(row, n - 1)
  }

  /** The column of the last 'S' met scanning row by row, or -1. */
  function LastStart(rows: seq<string>): (c: int)
  {
    if rows == [] then -1
    else
      var last := rows[|rows| - 1];
      var c := LastStartIn(last, |last|);
      if c >= 0 then c else LastStart(rows[..|rows| - 1])
  }

  /** LastStart is -1 exactly when no row holds an 'S'; otherwise some row
      holds 'S' in that column and no later 'S' is met in the scan. */
  lemma {:induction false} LastStartIsLast(rows: seq<string>)
    ensures var c := LastStart(rows);
      c >= -1
      && (c == -1 <==> forall r, j :: 0 <= r < |rows| && 0 <= j < |rows[r]| ==> rows[r][j] != Start)
      && (c >= 0 ==>
            exists r :: 0 <= r < |rows| && c < |rows[r]| && rows[r][c] == Start
              && (forall j :: c < j < |rows[r]| ==> rows[r][j] != Start)
              && (forall r', j :: r < r' < |rows| && 0 <= j < |rows[r']| ==> rows[r'][j] != Start))
  {
    if rows != [] {
      var init := rows[..|rows| - 1];
      var last := rows[|rows| - 1];
      LastStartIsLast(init);
      assert forall r :: 0 <= r < |init| ==> rows[r] == init[r];
      var c := LastStartIn(last, |last|);
      if c >= 0 {
        assert LastStart(rows) == c;
        var r := |rows| - 1;
        assert rows[r][c] == Start;
      }
    }
  }

  /** `parse`: the height is the number of lines and the width the first
      line's length; None is the IllegalArgumentException for no lines or
      no 'S'. */
  function Parse(lines: seq<string>): (r: Option<TachyonManifold>)
  {
    if lines == [] then None
    else
      var width := |lines[0]|;
      var grid := seq(|lines|, r requires 0 <= r < |lines| => PadRow(lines[r], width));
      var startCol := LastStart(grid);
      if startCol < 0 then None else Some(TachyonManifold(grid, startCol))
  }

  /** A parsed manifold is the lines padded or cut to the first line's
      length, its start column holds an 'S', and parsing fails exactly when
      there are no lines or no 'S' within that width. */
  lemma ParseShape(lines: seq<string>)
    ensures Parse(lines).None? <==>
      lines == [] || forall r, c :: 0 <= r < |lines| && 0 <= c < |lines[0]| ==> CharAt(lines[r], c) != Start
    ensures Parse(lines).Some? ==>
      var m := Parse(lines).value;
      |m.grid| == |lines|
      && (forall r :: 0 <= r < |lines| ==> m.grid[r] == PadRow(lines[r], |lines[0]|))
      && 0 <= m.startCol < |lines[0]|
      && exists r :: 0 <= r < |lines| && CharAt(lines[r], m.startCol) == Start
    ensures Parse(lines).Some? && |lines| <= IntMax && |lines[0]| <= IntMax ==> Valid(Parse(lines).value)
  {
    if lines != [] {
      var width := |lines[0]|;
      var grid := seq(|lines|, r requires 0 <= r < |lines| => PadRow(lines[r], width));
      LastStartIsLast(grid);
      var c := LastStart(grid);
      if c < 0 {
        forall r, j | 0 <= r < |lines| && 0 <= j < width
          ensures CharAt(lines[r], j) != Start
        {
          assert grid[r][j] == CharAt(lines[r], j);
        }
      } else {
        var r :| 0 <= r < |grid| && c < |grid[r]| && grid[r][c] == Start;
        assert CharAt(lines[r], c) == Start;
        assert grid[0] == PadRow(lines[0], width);
        var m := TachyonManifold(grid, c);
        assert m.grid[r][m.startCol] == Start;
      }
    }
  }

  /** `parse` builds the grid row by row and remembers the column of every
      'S' it writes. */
  method ParseLines(lines: seq<string>) returns (r: Option<TachyonManifold>)
    ensures r == Parse(lines)
  {
    if |lines| == 0 {
      return None;
    }
    var height := |lines|;
    var width := |lines[0]|;
    var grid: seq<string> := [];
    var startCol := -1;
    for row := 0 to height
      invariant |grid| == row
      invariant forall i :: 0 <= i < row ==> grid[i] == PadRow(lines[i], width)
      invariant startCol == LastStart(grid)
    {
      var line := lines[row];
      var chars: string := [];
      ghost var before := startCol;
      for col := 0 to width
        invariant chars == PadRow(line, width)[..col]
        invariant startCol == (if LastStartIn(chars, col) >= 0 then LastStartIn(chars, col) else before)
      {
        var ch := if col < |line| then line[col] else Empty;
        chars := chars + [ch];
        if ch == Start {
          startCol := col;
        }
        assert chars[..col] == PadRow(line, width)[..col];
      }
      assert chars == PadRow(line, width);
      assert (grid + [chars])[..row] == grid;
      grid := grid + [chars];
    }
    assert grid == seq(|lines|, i requires 0 <= i < |lines| => PadRow(lines[i], width));
    if startCol < 0 {
      return None;
    }
    return Some(TachyonManifold(grid, startCol));
  }

  // ---------------------------------------------------------------------
  // Searching down a column

  /** The first row from r on whose start column holds 'S', or -1. */
  function StartRowFrom(m: TachyonManifold, r: nat): int
    requires Shaped(m)
    decreases Height(m) - r
  {
    if r >= Height(m) then -1
    else if m.grid[r][m.startCol] == Start then r
    else StartRowFrom(m, r + 1)
  }

  lemma {:induction false} StartRowFromFound(m: TachyonManifold, r: nat)
    requires Shaped(m) && exists s :: r <= s < Height(m) && m.grid[s][m.startCol] == Start
    ensures var f := StartRowFrom(m, r);
      r <= f < Height(m) && m.grid[f][m.startCol] == Start
      && forall k :: r <= k < f ==> m.grid[k][m.startCol] != Start
    decreases Height(m) - r
  {
    if m.grid[r][m.startCol] != Start {
      StartRowFromFound(m, r + 1);
    }
  }

  /** `findStartRow`: the first row whose start column holds 'S'. */
  function StartRow(m: TachyonManifold): (r: nat)
    requires Valid(m)
    ensures r < Height(m) && m.grid[r][m.startCol] == Start
    ensures forall k :: 0 <= k < r ==> m.grid[k][m.startCol] != Start
  {
    StartRowFromFound(m, 0);
    StartRowFrom(m, 0)
  }

  method FindStartRow(m: TachyonManifold) returns (row: nat)
    requires Valid(m)
    ensures row == StartRow(m)
  {
    row := 0;
    while row < |m.grid|
      invariant row <= StartRow(m)
      decreases |m.grid| - row
    {
      if m.grid[row][m.startCol] == Start {
        return;
      }
      row := row + 1;
    }
  }

  /** `findSplitterRow`: the first row from r on with a splitter in column
      c, or -1 when the beam leaves the grid. */
  function SplitterRow(m: TachyonManifold, r: nat, c: nat): (s: int)
    requires Shaped(m) && c < Width(m)
    ensures s == -1 || (r <= s < Height(m) && IsSplitter(m, s, c))
    ensures forall k :: r <= k < (if s == -1 then Height(m) else s) ==> !IsSplitter(m, k, c)
    decreases Height(m) - r
  {
    if r >= Height(m) then -1
    else if IsSplitter(m, r, c) then r
    else SplitterRow(m, r + 1, c)
  }

  method FindSplitterRow(m: TachyonManifold, startRow: nat, col: nat) returns (s: int)
    requires Shaped(m) && col < Width(m)
    ensures s == SplitterRow(m, startRow, col)
  {
    var row := startRow;
    while row < |m.grid|
      invariant startRow <= row
      invariant SplitterRow(m, row, col) == SplitterRow(m, startRow, col)
      decreases |m.grid| - row
    {
      if m.grid[row][col] == Splitter {
        return row;
      }
      row := row + 1;
    }
    return -1;
  }

  // ---------------------------------------------------------------------
  // Which cells a beam crosses

  /** A beam crosses cell (r, c): the start beam enters below 'S'; a beam
      goes on down unless the cell above it is a splitter; a splitter
      reached by a beam starts beams one row down on either side. */
  predicate Beam(m: TachyonManifold, r: int, c: int)
    requires Valid(m) && StartRow(m) < r < Height(m) && 0 <= c < Width(m)
    decreases r
  {
    if r == StartRow(m) + 1 then c == m.startCol
    else
      (Beam(m, r - 1, c) && !IsSplitter(m, r - 1, c))
      || (c > 0 && IsSplitter(m, r - 1, c - 1) && Beam(m, r - 1, c - 1))
      || (c + 1 < Width(m) && IsSplitter(m, r - 1, c + 1) && Beam(m, r - 1, c + 1))
  }

  /** The splitters some beam reaches. */
  function Activated(m: TachyonManifold): set<Pos>
    requires Valid(m)
  {
    set r, c | StartRow(m) < r < Height(m) && 0 <= c < Width(m) && IsSplitter(m, r, c) && Beam(m, r, c)
      :: Pos(r, c)
  }

  /** A beam goes straight down until it meets a splitter. */
  lemma {:induction false} BeamDescends(m: TachyonManifold, r: int, s: int, c: int)
    requires Valid(m) && StartRow(m) < r <= s < Height(m) && 0 <= c < Width(m)
    requires Beam(m, r, c)
    requires forall k :: r <= k < s ==> !IsSplitter(m, k, c)
    ensures Beam(m, s, c)
    decreases s - r
  {
    if r < s {
      BeamDescends(m, r + 1, s, c);
    }
  }

  // ---------------------------------------------------------------------
  // countSplits: a worklist of beams and a set of activated splitters

  /** The beams that `spawnNewBeams` queues for a splitter at (row, col):
      left, then right, each only when that column exists. */
  function Spawns(m: TachyonManifold, row: int, col: int): (ps: seq<Pos>)
    requires Shaped(m) && 0 <= col < Width(m)
    ensures |ps| <= 2
  {
    (if col > 0 then [Pos(row + 1, col - 1)] else [])
      + (if col + 1 < Width(m) then [Pos(row + 1, col + 1)] else [])
  }

  method SpawnNewBeams(m: TachyonManifold, row: int, col: int, beams: seq<Pos>) returns (beams': seq<Pos>)
    requires Shaped(m) && 0 <= col < Width(m)
    ensures beams' == beams + Spawns(m, row, col)
  {
    var nextRow := row + 1;
    beams' := beams;
    if col > 0 {
      beams' := beams' + [Pos(nextRow, col - 1)];
    }
    if col + 1 < |m.grid[0]| {
      beams' := beams' + [Pos(nextRow, col + 1)];
    }
  }

  /** What `processBeam` does for a beam at (row, col): when the splitter
      below it is found and not yet activated, it is activated and its
      beams are appended to the rest of the queue; otherwise nothing
      changes. */
  predicate Processed(m: TachyonManifold, beam: Pos, a: set<Pos>, rest: seq<Pos>, a': set<Pos>, beams': seq<Pos>)
    requires Shaped(m) && 0 <= beam.row && 0 <= beam.col < Width(m)
  {
    var s := SplitterRow(m, beam.row, beam.col);
    var isNew := s >= 0 && Pos(s, beam.col) !in a;
    a' == (if isNew then a + {Pos(s, beam.col)} else a)
    && beams' == rest + (if isNew then Spawns(m, s, beam.col) else [])
  }

  /** `processBeam`: find the splitter below the beam; when there is one
      and it is activated for the first time, spawn its two beams. */
  method ProcessBeam(m: TachyonManifold, startRow: nat, col: nat, activated: set<Pos>, beams: seq<Pos>)
    returns (activated': set<Pos>, beams': seq<Pos>)
    requires Shaped(m) && col < Width(m)
    ensures Processed(m, Pos(startRow, col), activated, beams, activated', beams')
  {
    var splitterRow := FindSplitterRow(m, startRow, col);
    activated', beams' := activated, beams;
    if splitterRow < 0 {
      assert beams + [] == beams;
      return;
    }
    var splitter := Pos(splitterRow, col);
    if splitter !in activated {
      activated' := activated + {splitter};
      beams' := SpawnNewBeams(m, splitterRow, col, beams);
    } else {
      assert beams + [] == beams;
    }
  }

  /** A queued beam: a position below the start row, at most one row past
      the bottom, that a beam reaches. */
  predicate Queued(m: TachyonManifold, p: Pos)
    requires Valid(m)
  {
    StartRow(m) < p.row <= Height(m) && 0 <= p.col < Width(m)
    && (p.row < Height(m) ==> Beam(m, p.row, p.col))
  }

  /** The splitter a beam starting at (r, c) runs into, if any, has been
      activated. */
  predicate Resolved(m: TachyonManifold, a: set<Pos>, r: int, c: int)
    requires Valid(m) && 0 <= r && 0 <= c < Width(m)
  {
    var s := SplitterRow(m, r, c);
    s == -1 || Pos(s, c) in a
  }

  /** Both beams of an activated splitter are queued or resolved. */
  predicate SpawnsDone(m: TachyonManifold, a: set<Pos>, beams: seq<Pos>, s: int, c: int)
    requires Valid(m) && 0 <= s < Height(m) && 0 <= c < Width(m)
  {
    (c > 0 ==> Pos(s + 1, c - 1) in beams || Resolved(m, a, s + 1, c - 1))
    && (c + 1 < Width(m) ==> Pos(s + 1, c + 1) in beams || Resolved(m, a, s + 1, c + 1))
  }

  /** The splitter at (s, c) has been activated. */
  predicate ActiveAt(m: TachyonManifold, a: set<Pos>, s: int, c: int)
    requires Valid(m) && 0 <= s < Height(m) && 0 <= c < Width(m)
  {
    Pos(s, c) in a
  }

  predicate Closed(m: TachyonManifold, a: set<Pos>, beams: seq<Pos>)
    requires Valid(m)
  {
    forall s, c :: 0 <= s < Height(m) && 0 <= c < Width(m) && ActiveAt(m, a, s, c) ==> SpawnsDone(m, a, beams, s, c)
  }

  /** Once no beam is queued, every splitter a beam reaches is activated. */
  lemma {:induction false} Reaches(m: TachyonManifold, a: set<Pos>, r: int, c: int)
    requires Valid(m) && StartRow(m) < r < Height(m) && 0 <= c < Width(m) && Beam(m, r, c)
    requires Resolved(m, a, StartRow(m) + 1, m.startCol) && Closed(m, a, [])
    ensures Resolved(m, a, r, c)
    decreases r
  {
    if r == StartRow(m) + 1 {
      assert c == m.startCol;
    } else {
      if Beam(m, r - 1, c) && !IsSplitter(m, r - 1, c) {
        Reaches(m, a, r - 1, c);
        assert SplitterRow(m, r - 1, c) == SplitterRow(m, r, c);
        assert Resolved(m, a, r, c);
      } else if c > 0 && IsSplitter(m, r - 1, c - 1) && Beam(m, r - 1, c - 1) {
        Reaches(m, a, r - 1, c - 1);
        SpawnResolved(m, a, r - 1, c - 1, r, c);
      } else {
        assert c + 1 < Width(m) && IsSplitter(m, r - 1, c + 1) && Beam(m, r - 1, c + 1);
        Reaches(m, a, r - 1, c + 1);
        SpawnResolved(m, a, r - 1, c + 1, r, c);
      }
    }
  }

  /** Once no beam is queued, a resolved splitter's beams are resolved. */
  lemma SpawnResolved(m: TachyonManifold, a: set<Pos>, s: int, c: int, r: int, c': int)
    requires Valid(m) && 0 <= s < Height(m) && 0 <= c < Width(m) && 0 <= c' < Width(m)
    requires r == s + 1 && (c' == c - 1 || c' == c + 1)
    requires IsSplitter(m, s, c) && Resolved(m, a, s, c) && Closed(m, a, [])
    ensures Resolved(m, a, r, c')
  {
    assert SplitterRow(m, s, c) == s;
    assert SpawnsDone(m, a, [], s, c);
  }

  lemma Complete(m: TachyonManifold, a: set<Pos>)
    requires Valid(m) && Resolved(m, a, StartRow(m) + 1, m.startCol) && Closed(m, a, [])
    ensures Activated(m) <= a
  {
    forall p | p in Activated(m)
      ensures p in a
    {
      Reaches(m, a, p.row, p.col);
    }
  }

  /** The splitter a queued beam reaches is one of the activated ones, and
      the beams it spawns are queued correctly. */
  lemma TargetActivated(m: TachyonManifold, p: Pos)
    requires Valid(m) && Queued(m, p)
    ensures var s := SplitterRow(m, p.row, p.col);
      s >= 0 ==>
        Pos(s, p.col) in Activated(m) && AllQueued(m, Spawns(m, s, p.col))
  {
    var s := SplitterRow(m, p.row, p.col);
    if s >= 0 {
      var c := p.col;
      BeamDescends(m, p.row, s, c);
      assert Pos(s, c) in Activated(m);
      if c > 0 && s + 1 < Height(m) {
        assert Beam(m, s + 1, c - 1);
      }
      if c + 1 < Width(m) && s + 1 < Height(m) {
        assert Beam(m, s + 1, c + 1);
      }
    }
  }

  lemma FewerLeft(all: set<Pos>, a: set<Pos>, p: Pos)
    requires p in all && p !in a
    ensures |all - (a + {p})| < |all - a|
  {
    assert all - a == (all - (a + {p})) + {p};
  }

  /** `countSplits`: drain the queue of beams, activating each splitter at
      most once; the count is the number of distinct splitters reached. */
  method CountSplits(m: TachyonManifold) returns (count: nat)
    requires Valid(m)
    ensures count == |Activated(m)|
  {
    var activated: set<Pos> := {};
    var beams: seq<Pos> := [];
    var startRow := FindStartRow(m);
    var first := Pos(startRow + 1, m.startCol);
    beams := beams + [first];
    FirstQueued(m, first);
    while beams != []
      invariant Invariant(m, activated, beams, first)
      decreases |Activated(m) - activated|, |beams|
    {
      var beam := beams[0];
      ghost var before, queue := activated, beams;
      HeadQueued(m, activated, beams, first);
      activated, beams := ProcessBeam(m, beam.row, beam.col, activated, beams[1..]);
      StepKeeps(m, before, activated, queue, beams, first);
    }
    Finished(m, activated, first);
    count := |activated|;
  }

  /** What holds before each pass of the loop of `countSplits`: only
      reached splitters are activated, only reached positions are queued,
      the first beam and the beams of every activated splitter are queued
      or resolved. */
  predicate Invariant(m: TachyonManifold, a: set<Pos>, beams: seq<Pos>, first: Pos)
    requires Valid(m)
  {
    first == Pos(StartRow(m) + 1, m.startCol)
    && a <= Activated(m)
    && AllQueued(m, beams)
    && (first in beams || Resolved(m, a, first.row, first.col))
    && Closed(m, a, beams)
  }

  /** Before the loop only the first beam is queued and nothing is
      activated. */
  lemma FirstQueued(m: TachyonManifold, first: Pos)
    requires Valid(m) && first == Pos(StartRow(m) + 1, m.startCol)
    ensures Invariant(m, {}, [first], first)
  {
    assert Queued(m, first);
  }

  /** With the queue empty, the activated splitters are exactly those a
      beam reaches. */
  lemma Finished(m: TachyonManifold, a: set<Pos>, first: Pos)
    requires Valid(m) && Invariant(m, a, [], first)
    ensures a == Activated(m)
  {
    Complete(m, a);
  }

  lemma HeadQueued(m: TachyonManifold, a: set<Pos>, queue: seq<Pos>, first: Pos)
    requires Valid(m) && Invariant(m, a, queue, first) && queue != []
    ensures Queued(m, queue[0])
  {
  }

  /** One pass of the loop keeps the invariant, and either activates a new
      splitter or shortens the queue. */
  lemma StepKeeps(m: TachyonManifold, a: set<Pos>, a': set<Pos>, queue: seq<Pos>, beams': seq<Pos>, first: Pos)
    requires Valid(m) && Invariant(m, a, queue, first) && queue != []
    requires Queued(m, queue[0])
    requires Processed(m, queue[0], a, queue[1..], a', beams')
    ensures Invariant(m, a', beams', first)
    ensures |Activated(m) - a'| < |Activated(m) - a| || (a' == a && |beams'| < |queue|)
  {
    var beam, rest := queue[0], queue[1..];
    assert queue == [beam] + rest;
    TargetActivated(m, beam);
    var s := SplitterRow(m, beam.row, beam.col);
    var isNew := s >= 0 && Pos(s, beam.col) !in a;
    if isNew {
      FewerLeft(Activated(m), a, Pos(s, beam.col));
    }
    AllQueuedSplit(m, beam, rest);
    AllQueuedAppend(m, rest, if isNew then Spawns(m, s, beam.col) else []);
    assert Resolved(m, a', beam.row, beam.col);
    StepClosed(m, a, a', rest, beams', beam);
  }

  predicate AllQueued(m: TachyonManifold, beams: seq<Pos>)
    requires Valid(m)
  {
    forall i :: 0 <= i < |beams| ==> Queued(m, beams[i])
  }

  lemma AllQueuedSplit(m: TachyonManifold, beam: Pos, rest: seq<Pos>)
    requires Valid(m) && AllQueued(m, [beam] + rest)
    ensures AllQueued(m, rest)
  {
    forall i | 0 <= i < |rest|
      ensures Queued(m, rest[i])
    {
      assert rest[i] == ([beam] + rest)[i + 1];
    }
  }

  lemma AllQueuedAppend(m: TachyonManifold, xs: seq<Pos>, ys: seq<Pos>)
    requires Valid(m) && AllQueued(m, xs) && AllQueued(m, ys)
    ensures AllQueued(m, xs + ys)
  {
    forall i | 0 <= i < |xs + ys|
      ensures Queued(m, (xs + ys)[i])
    {
      if i >= |xs| {
        assert (xs + ys)[i] == ys[i - |xs|];
      }
    }
  }

  /** One pass of the loop keeps every activated splitter's beams queued or
      resolved. */
  lemma StepClosed(m: TachyonManifold, a: set<Pos>, a': set<Pos>, rest: seq<Pos>, beams': seq<Pos>, beam: Pos)
    requires Valid(m) && Queued(m, beam)
    requires a <= a' && Closed(m, a, [beam] + rest)
    requires Resolved(m, a', beam.row, beam.col)
    requires forall p :: p in rest ==> p in beams'
    requires var s := SplitterRow(m, beam.row, beam.col);
      a' == a || (s >= 0 && a' == a + {Pos(s, beam.col)} && beams' == rest + Spawns(m, s, beam.col))
    ensures Closed(m, a', beams')
  {
    forall s, c | 0 <= s < Height(m) && 0 <= c < Width(m) && ActiveAt(m, a', s, c)
      ensures SpawnsDone(m, a', beams', s, c)
    {
      if Pos(s, c) in a {
        assert ActiveAt(m, a, s, c);
      } else {
        var sp := Spawns(m, s, c);
        if c > 0 {
          assert beams'[|rest|] == sp[0] == Pos(s + 1, c - 1);
        }
        if c + 1 < Width(m) {
          assert beams'[|rest| + |sp| - 1] == sp[|sp| - 1] == Pos(s + 1, c + 1);
        }
      }
    }
  }

  // ---------------------------------------------------------------------
  // countTimelines: two buffers of per-column counts

  /** `propagateTimelines` after the first k columns of `current`: a column
      with no timelines adds nothing; a splitter sends its count to the
      columns on either side that exist; any other cell passes it down. */
  function Spread(m: TachyonManifold, row: int, current: seq<int>, k: nat): (next: seq<int>)
    requires Shaped(m) && 0 <= row < Height(m) && |current| == Width(m) && k <= Width(m)
    ensures |next| == Width(m)
  {
    if k == 0 then seq(Width(m), _ => 0)
    else
      var prev := Spread(m, row, current, k - 1);
      var col := k - 1;
      var count := current[col];
      if count == 0 then prev
      else if IsSplitter(m, row, col) then
        var left := if col > 0 then Bump(prev, col - 1, count) else prev;
        if col + 1 < Width(m) then Bump(left, col + 1, count) else left
      else Bump(prev, col, count)
  }

  /** Add d to entry i. */
  function Bump(s: seq<int>, i: int, d: int): (r: seq<int>)
    requires 0 <= i < |s|
    ensures |r| == |s|
  {
    s[i := s[i] + d]
  }

  /** The timelines in each column after a row. */
  function Propagate(m: TachyonManifold, row: int, current: seq<int>): (next: seq<int>)
    requires Shaped(m) && 0 <= row < Height(m) && |current| == Width(m)
    ensures |next| == Width(m)
  {
    Spread(m, row, current, Width(m))
  }

  /** What column c receives from the first k columns. */
  function Received(m: TachyonManifold, row: int, current: seq<int>, k: nat, c: int): int
    requires Shaped(m) && 0 <= row < Height(m) && |current| == Width(m) && 0 <= c < Width(m)
  {
    (if c < k && !IsSplitter(m, row, c) then current[c] else 0)
    + (if 0 < c && c - 1 < k && IsSplitter(m, row, c - 1) then current[c - 1] else 0)
    + (if c + 1 < k && c + 1 < Width(m) && IsSplitter(m, row, c + 1) then current[c + 1] else 0)
  }

  lemma {:induction false} SpreadAt(m: TachyonManifold, row: int, current: seq<int>, k: nat, c: int)
    requires Shaped(m) && 0 <= row < Height(m) && |current| == Width(m) && k <= Width(m) && 0 <= c < Width(m)
    ensures Spread(m, row, current, k)[c] == Received(m, row, current, k, c)
  {
    if k > 0 {
      SpreadAt(m, row, current, k - 1, c);
    }
  }

  /** Each column of the next row gets the count passed straight down to
      it, plus the counts of the splitters beside it; a splitter's count
      for a side off the grid is dropped. */
  lemma PropagateAt(m: TachyonManifold, row: int, current: seq<int>, c: int)
    requires Shaped(m) && 0 <= row < Height(m) && |current| == Width(m) && 0 <= c < Width(m)
    ensures Propagate(m, row, current)[c] ==
      (if IsSplitter(m, row, c) then 0 else current[c])
      + (if c > 0 && IsSplitter(m, row, c - 1) then current[c - 1] else 0)
      + (if c + 1 < Width(m) && IsSplitter(m, row, c + 1) then current[c + 1] else 0)
  {
    SpreadAt(m, row, current, Width(m), c);
  }

  lemma {:induction false} SumUpdate(s: seq<int>, i: int, d: int)
    requires 0 <= i < |s|
    ensures MathProblems.Sum(Bump(s, i, d)) == MathProblems.Sum(s) + d
  {
    if i < |s| - 1 {
      SumUpdate(s[..|s| - 1], i, d);
      assert Bump(s, i, d)[..|s| - 1] == Bump(s[..|s| - 1], i, d);
    } else {
      assert Bump(s, i, d)[..|s| - 1] == s[..|s| - 1];
    }
  }

  lemma {:induction false} SumZeros(n: nat)
    ensures MathProblems.Sum(seq(n, _ => 0)) == 0
  {
    if n > 0 {
      SumZeros(n - 1);
      assert seq(n, _ => 0)[..n - 1] == seq(n - 1, _ => 0);
    }
  }

  /** How many timelines column col sends to the next row: its own count,
      or that count to each side of a splitter that is on the grid. */
  function Sent(m: TachyonManifold, row: int, current: seq<int>, col: int): int
    requires Shaped(m) && 0 <= row < Height(m) && |current| == Width(m) && 0 <= col < Width(m)
  {
    if IsSplitter(m, row, col) then
      (if col > 0 then current[col] else 0) + (if col + 1 < Width(m) then current[col] else 0)
    else current[col]
  }

  /** How many timelines the first k columns add beyond their own: a
      splitter with both sides on the grid doubles its count, one at an
      edge keeps it. */
  function Gained(m: TachyonManifold, row: int, current: seq<int>, k: nat): int
    requires Shaped(m) && 0 <= row < Height(m) && |current| == Width(m) && k <= Width(m)
  {
    if k == 0 then 0
    else Gained(m, row, current, k - 1) + Sent(m, row, current, k - 1) - current[k - 1]
  }

  /** Column col sends its whole count down, or to each side that exists. */
  lemma SpreadStep(m: TachyonManifold, row: int, current: seq<int>, k: nat)
    requires Shaped(m) && 0 <= row < Height(m) && |current| == Width(m) && 0 < k <= Width(m)
    ensures MathProblems.Sum(Spread(m, row, current, k)) == MathProblems.Sum(Spread(m, row, current, k - 1)) + Sent(m, row, current, k - 1)
  {
    var prev := Spread(m, row, current, k - 1);
    var col := k - 1;
    var count := current[col];
    var next := Spread(m, row, current, k);
    if count == 0 {
      assert next == prev;
    } else if IsSplitter(m, row, col) {
      var left := if col > 0 then Bump(prev, col - 1, count) else prev;
      assert next == if col + 1 < Width(m) then Bump(left, col + 1, count) else left;
      if col > 0 {
        SumUpdate(prev, col - 1, count);
      }
      assert MathProblems.Sum(left) == MathProblems.Sum(prev) + (if col > 0 then count else 0);
      if col + 1 < Width(m) {
        SumUpdate(left, col + 1, count);
      }
    } else {
      assert next == Bump(prev, col, count);
      SumUpdate(prev, col, count);
    }
  }

  lemma {:induction false} SpreadSum(m: TachyonManifold, row: int, current: seq<int>, k: nat)
    requires Shaped(m) && 0 <= row < Height(m) && |current| == Width(m) && k <= Width(m)
    ensures MathProblems.Sum(Spread(m, row, current, k)) == MathProblems.Sum(current[..k]) + Gained(m, row, current, k)
  {
    if k == 0 {
      SumZeros(Width(m));
    } else {
      SpreadSum(m, row, current, k - 1);
      SpreadStep(m, row, current, k);
      assert current[..k][..k - 1] == current[..k - 1];
    }
  }

  /** A row without splitters passes every timeline straight down. */
  lemma NoSplitterKeepsTotal(m: TachyonManifold, row: int, current: seq<int>)
    requires Shaped(m) && 0 <= row < Height(m) && |current| == Width(m)
    requires forall c :: 0 <= c < Width(m) ==> !IsSplitter(m, row, c)
    ensures MathProblems.Sum(Propagate(m, row, current)) == MathProblems.Sum(current)
  {
    SpreadSum(m, row, current, Width(m));
    NoGain(m, row, current, Width(m));
    assert current[..Width(m)] == current;
  }

  lemma {:induction false} NoGain(m: TachyonManifold, row: int, current: seq<int>, k: nat)
    requires Shaped(m) && 0 <= row < Height(m) && |current| == Width(m) && k <= Width(m)
    requires forall c :: 0 <= c < Width(m) ==> !IsSplitter(m, row, c)
    ensures Gained(m, row, current, k) == 0
  {
    if k > 0 {
      NoGain(m, row, current, k - 1);
    }
  }

  /** The timelines per column before row r is processed: one in the start
      column just below 'S'. */
  function Timelines(m: TachyonManifold, r: int): (t: seq<int>)
    requires Valid(m) && StartRow(m) < r <= Height(m)
    ensures |t| == Width(m)
    decreases r
  {
    if r == StartRow(m) + 1 then seq(Width(m), c => if c == m.startCol then 1 else 0)
    else Propagate(m, r - 1, Timelines(m, r - 1))
  }

  /** Timelines only ever cross cells a beam crosses, and every count is
      non-negative. */
  lemma {:induction false} TimelinesFollowBeams(m: TachyonManifold, r: int, c: int)
    requires Valid(m) && StartRow(m) < r < Height(m) && 0 <= c < Width(m)
    ensures Timelines(m, r)[c] >= 0
    ensures Timelines(m, r)[c] > 0 ==> Beam(m, r, c)
    decreases r
  {
    if r > StartRow(m) + 1 {
      PropagateAt(m, r - 1, Timelines(m, r - 1), c);
      TimelinesFollowBeams(m, r - 1, c);
      if c > 0 {
        TimelinesFollowBeams(m, r - 1, c - 1);
      }
      if c + 1 < Width(m) {
        TimelinesFollowBeams(m, r - 1, c + 1);
      }
    }
  }

  method PropagateTimelines(m: TachyonManifold, row: int, current: array<int>, next: array<int>)
    requires Shaped(m) && 0 <= row < Height(m)
    requires current != next && current.Length == next.Length == Width(m)
    requires forall i :: 0 <= i < next.Length ==> next[i] == 0
    modifies next
    ensures next[..] == Propagate(m, row, current[..])
  {
    var w := |m.grid[0]|;
    for col := 0 to w
      invariant next[..] == Spread(m, row, current[..], col)
    {
      var count := current[col];
      if count == 0 {
        continue;
      }
      if m.grid[row][col] == Splitter {
        if col > 0 {
          next[col - 1] := next[col - 1] + count;
        }
        if col + 1 < w {
          next[col + 1] := next[col + 1] + count;
        }
      } else {
        next[col] := next[col] + count;
      }
    }
  }

  method SumArray(a: array<int>) returns (total: int)
    ensures total == MathProblems.Sum(a[..])
  {
    total := 0;
    for i := 0 to a.Length
      invariant total == MathProblems.Sum(a[..i])
    {
      assert a[..i + 1][..i] == a[..i];
      total := total + a[i];
    }
    assert a[..a.Length] == a[..];
  }

  /** `countTimelines`: the rows below the start, one buffer swap per row;
      the answer is the total over the columns at the bottom. */
  method CountTimelines(m: TachyonManifold) returns (total: int)
    requires Valid(m)
    ensures total == MathProblems.Sum(Timelines(m, Height(m)))
  {
    var startRow := FindStartRow(m);
    var w := |m.grid[0]|;
    var current := new int[w](_ => 0);
    var next := new int[w](_ => 0);
    current[m.startCol] := 1;
    var row := startRow + 1;
    while row < |m.grid|
      invariant startRow < row <= Height(m)
      invariant fresh(current) && fresh(next)
      invariant current != next && current.Length == next.Length == w
      invariant current[..] == Timelines(m, row)
      decreases Height(m) - row
    {
      forall i | 0 <= i < next.Length {
        next[i] := 0;
      }
      assert current[..] == Timelines(m, row);
      PropagateTimelines(m, row, current, next);
      assert next[..] == Propagate(m, row, Timelines(m, row));
      assert next[..] == Timelines(m, row + 1);
      current, next := next, current;
      row := row + 1;
    }
    total := SumArray(current);
  }

  // ---------------------------------------------------------------------
  // A single splitter

  /** One splitter under the start: it is the only one reached, so there
      is 1 split. */
  lemma SingleSplitterSplits(m: TachyonManifold)
    requires m == TachyonManifold([".S.", "...", ".^.", "..."], 1)
    ensures Valid(m) && Activated(m) == {Pos(2, 1)}
  {
    assert m.grid[0][1] == Start;
    assert StartRow(m) == 0;
    assert Beam(m, 1, 1) && Beam(m, 2, 1);
    assert Pos(2, 1) in Activated(m);
    forall p | p in Activated(m)
      ensures p == Pos(2, 1)
    {
      assert IsSplitter(m, p.row, p.col);
    }
  }

  /** The same splitter turns the one timeline into 2. */
  lemma SingleSplitterTimelines(m: TachyonManifold)
    requires m == TachyonManifold([".S.", "...", ".^.", "..."], 1)
    ensures Valid(m) && MathProblems.Sum(Timelines(m, Height(m))) == 2
  {
    assert m.grid[0][1] == Start;
    assert StartRow(m) == 0;
    var t1 := Timelines(m, 1);
    assert t1 == [0, 1, 0];
    var t2 := Timelines(m, 2);
    PropagateAt(m, 1, t1, 0);
    PropagateAt(m, 1, t1, 1);
    PropagateAt(m, 1, t1, 2);
    assert t2 == [0, 1, 0];
    var t3 := Timelines(m, 3);
    PropagateAt(m, 2, t2, 0);
    PropagateAt(m, 2, t2, 1);
    PropagateAt(m, 2, t2, 2);
    assert t3 == [1, 0, 1];
    var t4 := Timelines(m, 4);
    PropagateAt(m, 3, t3, 0);
    PropagateAt(m, 3, t3, 1);
    PropagateAt(m, 3, t3, 2);
    assert t4 == [1, 0, 1];
    assert [1, 0, 1][..2] == [1, 0] && [1, 0][..1] == [1] && [1][..0] == [];
    assert MathProblems.Sum([1, 0, 1]) == 2;
  }
}
