# Advent of Code 2025 solvers, modelled in Dafny

This project models the puzzle solvers of a Java repository for Advent of
Code 2025, and its two utility classes, and proves properties of them. It
covers days 1 to 12 and the `MathUtils` and `FileUtils` helpers. Each Java
class becomes a Dafny module with the same name.

- Java code that only computes values becomes datatypes, functions and
  lemmas.
- Java classes whose fields change become Dafny classes: `SafeLock`,
  `PaperRollGrid`, `UnionFind`, `Playground`, `MovieTheater` and
  `GaussianSolver`, plus the memo of `DeviceNetwork`.
- Each loop becomes a method with invariants. Its `ensures` ties the
  result to a specification function, and lemmas prove what that function
  means.

What each part models:

- **Day 1 `SafeLock`.** The dial of 100 positions and its two counts:
  the rotations that end on 0, and the clicks that pass 0. Both closed
  formulas of `countZeroCrossings` are proved equal to counting the
  clicks one at a time.
- **Day 2 `Range`.** Invalid product ids, meaning numbers whose decimal
  text is a block repeated twice (part 1) or two or more times (part 2).
  The id streams and their filtered sums are modelled.
- **Day 3.** The greedy choice of battery digits. On any bank and digit
  count it follows the Java scan. On a bank of digits long enough for the
  digit count, it is proved to be the largest order-preserving choice.
- **Day 4 `PaperRollGrid`.** Neighbour counts, accessible rolls, and the
  removal rounds with their total.
- **Day 5 `FreshRange` and `IngredientDatabase`.** Inclusive id ranges,
  their merge into disjoint ranges, and the count of fresh ingredients.
- **Day 6 `MathProblem` and `MathWorksheet`.** The worksheet read by rows
  (part 1) and by columns (part 2), and each problem's sum or product.
- **Day 7 `TachyonManifold`.** The beam splitters reached from the start,
  and the timelines counted row by row.
- **Day 8 `Playground` and `UnionFind`.** Boxes in 3D, and pairs ordered
  by a packed (distance, i, j) key. Union-find merges the closest pairs.
  Part 1 multiplies the three largest circuits; part 2 finds the last
  merge.
- **Day 9 `MovieTheater` and `RectilinearPolygon`.** The largest rectangle
  between two red tiles, and the largest one that lies inside the polygon
  they draw.
- **Day 10 `GaussianSolver`.** Gaussian elimination over the integer
  coefficients, then an enumeration of the free variables for the least
  button-press total.
- **Day 11 `DeviceNetwork`.** Paths counted with a memo, from `you` to
  `out`, and from `svr` through both checkpoints.
- **Day 12 `Shape`, `Region`, `PlacementSolver` and `ChristmasTreeFarm`.**
  Parsing of the shapes and regions, the area test of `canFit`, and the
  count of regions that fit.
- **`MathUtils` and `FileUtils`.** gcd and lcm; the resolution of input
  file names; the conversion to longs; and the split of lines into groups
  at blank lines.

`JavaText` gives the Java string operations the solvers use: `isBlank`,
`trim`, `split`, `indexOf`, `contains`, `Long.parseLong` and
`Integer.parseInt`. `Optional` holds the `Option` type. Java's exceptions
are modelled as `None`.

## Model

| member | source | states |
|---|---|---|
| SafeLock.StepsToZero | src/main/java/aoc/day01/SafeLock.java:78-83 | the result is a click count in 1..100 after which the dial shows 0, and no earlier click does; from 0 it is a full turn |
| SafeLock.CrossingsCountZeros | src/main/java/aoc/day01/SafeLock.java:66-76 | the closed formula of `countZeroCrossings` for n clicks either way equals the number of clicks among 1..n after which the dial shows 0 |
| SafeLock.LandsOnZero | src/main/java/aoc/day01/SafeLock.java:59 | click n lands on 0 exactly when n is the steps to the first zero plus a multiple of 100 |
| SafeLock.SafeLock.constructor | src/main/java/aoc/day01/SafeLock.java:10-15 | the dial starts at 50 with both counters at 0 |
| SafeLock.SafeLock.Turn | src/main/java/aoc/day01/SafeLock.java:53-64 | a turn of 0 changes nothing; otherwise the hit counter grows by `countZeroCrossings` from the old position, the position moves by floorMod 100, and an end on 0 is counted |
| SafeLock.SafeLock.TurnClockwise | src/main/java/aoc/day01/SafeLock.java:40-42 | the hit counter grows by the number of clicks that pass 0, the position advances modulo 100 |
| SafeLock.SafeLock.TurnCounterClockwise | src/main/java/aoc/day01/SafeLock.java:49-51 | the same going down: the hit counter grows by the clicks that pass 0 while turning back |
| SafeLock.StartExamples | src/test/java/aoc/day01/Day01Test.java:32-62 | from 50: 1000 clockwise passes 0 ten times and does not end there; 60 either way passes it once; 50 then -1 passes it once |
| Day02.Range.Stream | src/main/java/aoc/day02/Range.java:11-13 | start, start+1, …, end: length end-start+1 (0 when start > end), element i is start+i, and x is an element iff start ≤ x ≤ end |
| Day02.ParseRoundTrip | src/main/java/aoc/day02/Range.java:6-9 | `parse` reads back "a-b" written in decimal with any surrounding whitespace |
| Day02.DecimalLengthIsText | src/main/java/aoc/day02/Day02.java:104-111 | the decimal length of n is the length of its decimal text |
| Day02.DecimalLengthBounds | src/main/java/aoc/day02/Day02.java:104-111 | n < 10^len, and 10^(len-1) ≤ n when n ≥ 1 |
| Day02.DigitCount | src/main/java/aoc/day02/Day02.java:104-111 | the scan over the table of powers returns the decimal length of every long |
| Day02.InvalidIdIsDoubled | src/main/java/aoc/day02/Day02.java:60-70 | an id invalid under part 1 is a k-digit number h written twice (id = h·10^k + h) |
| Day02.DoubledIsInvalid | src/main/java/aoc/day02/Day02.java:60-70 | conversely every k-digit number written twice is invalid under part 1 |
| Day02.ShiftIsDiv | src/main/java/aoc/day02/Day02.java:94-99 | removing j blocks of patternLen digits is division by 10^(j·patternLen) |
| Day02.IsRepeatedPattern | src/main/java/aoc/day02/Day02.java:87-102 | true iff every patternLen-digit block within the first len digits equals the lowest block |
| Day02.IsInvalidIdPart2 | src/main/java/aoc/day02/Day02.java:76-85 | true iff some pattern length p in 1..len/2 divides the length and repeats |
| Day02.InvalidIdIsTwoBlocks | src/main/java/aoc/day02/Day02.java:60-85 | part 1's rule is part 2's rule with exactly two blocks: even length and the half-length pattern repeats, both directions |
| Day02.Part1ImpliesPart2 | src/main/java/aoc/day02/Day02.java:60-85 | every id invalid under part 1 is invalid under part 2 |
| Day02.SingleDigitValid | src/main/java/aoc/day02/Day02.java:60-85 | ids below 10 are invalid under neither rule |
| Day02.SumInvalidIdsAppend | src/main/java/aoc/day02/Day02.java:49-54 | the sum over a concatenation of range lists is the sum of the two sums |
| Day02.AllIdsMembers | src/main/java/aoc/day02/Day02.java:50-51 | the streamed ids are exactly the ids lying in some range, both directions |
| Day02.Part2AtLeastPart1 | src/main/java/aoc/day02/Day02.java:41-47 | part 2's sum is at least part 1's |
| Day02.Part1Example | src/test/java/aoc/day02/Day02Test.java:38-41 | part 1 on 95-115 is 99 |
| Day02.Part2Example | src/test/java/aoc/day02/Day02Test.java:38-41 | part 2 on 95-115 is 210 |
| Day02.SmallIdsPart2 | src/main/java/aoc/day02/Day02.java:76-102 | a two- or three-digit id is invalid under part 2 iff all its digits are equal |
| Day03.LeftmostMaxIsMax | src/main/java/aoc/day03/Day03.java:74-83 | the chosen position holds a largest digit of the window and every digit before it in the window is smaller |
| Day03.LeftmostMaxUnique | src/main/java/aoc/day03/Day03.java:74-83 | that position is the only one with those two properties |
| Day03.ScanIsLeftmostMax | src/main/java/aoc/day03/Day03.java:70-83 | on digits the scan, despite its early stop at a 9, finds the leftmost largest digit of the window and its position |
| Day03.ScanWindow | src/main/java/aoc/day03/Day03.java:70-83 | the inner loop on any characters, digits or not, and any window, empty ones included, computes `Scan`, giving (-1, -1) on an empty window |
| Day03.ChoiceIsSelection | src/main/java/aoc/day03/Day03.java:69-87 | the greedy positions are an order-preserving choice of n positions |
| Day03.ChoiceOptimal | src/main/java/aoc/day03/Day03.java:55-64 | no order-preserving choice of n digits reads as a larger number than the greedy one |
| Day03.BestIsMaximum | src/main/java/aoc/day03/Day03.java:55-64 | `Best` is at least the reading of every order-preserving choice of digitCount digits of the bank |
| Day03.GreedyFoldIsChoice | src/main/java/aoc/day03/Day03.java:69-87 | the greedy rounds folded onto acc give acc shifted by the digits chosen plus the reading of the greedy choice |
| Day03.GreedyIsFold | src/main/java/aoc/day03/Day03.java:69-87 | on a bank of digits with room for every round, the rounds of the loop are the greedy leftmost-largest choices |
| Day03.MaxJoltageIsBest | src/main/java/aoc/day03/Day03.java:65-90 | on a bank of digits at least digitCount long the result is `Best` |
| Day03.MaxJoltage | src/main/java/aoc/day03/Day03.java:65-90 | on any bank and digit count returns the rounds `Greedy` computes, and on a bank of digits at least digitCount long `Best`, which `BestIsMaximum` shows is the largest order-preserving reading |
| Day03.ShortBankExample | src/main/java/aoc/day03/Day03.java:67-87 | a bank too short for the digit count gets -1 appended for each empty window: "5" with two digits gives -5 |
| Day03.SelectAllDigits | src/main/java/aoc/day03/Day03.java:65-90 | keeping every digit reads the whole bank as a number |
| Day03.JoltageBounds | src/main/java/aoc/day03/Day03.java:85 | a choice of n digits reads between 0 and 10^n |
| Day03.TotalJoltageAppend | src/main/java/aoc/day03/Day03.java:47-53 | the total over two groups of banks is the sum of their totals |
| Day03.TotalOutputJoltage | src/main/java/aoc/day03/Day03.java:47-53 | the loop returns the sum of `maxJoltage` over all lines |
| Day03.Example | src/test/java/aoc/day03/Day03Test.java:24 | "12395" with two digits gives 95 |
| PaperRollGrid.AdjacentSum | src/main/java/aoc/day04/PaperRollGrid.java:83-100 | the neighbour count is the sum, over the eight offsets around the cell, of 1 for an in-bounds roll |
| PaperRollGrid.AdjacentAtMostEight | src/main/java/aoc/day04/PaperRollGrid.java:83-100 | a cell has at most eight adjacent rolls |
| PaperRollGrid.AdjacentMonotone | src/main/java/aoc/day04/PaperRollGrid.java:83-100 | removing rolls never raises a cell's neighbour count |
| PaperRollGrid.StaysAccessible | src/main/java/aoc/day04/PaperRollGrid.java:44-55 | an accessible roll stays accessible while other rolls are removed, so a round's rolls may be removed in any order |
| PaperRollGrid.RowAccessibleExact | src/main/java/aoc/day04/PaperRollGrid.java:60-64 | the rolls one row contributes are in increasing column order and are exactly its accessible rolls |
| PaperRollGrid.AccessibleUpToOrdered | src/main/java/aoc/day04/PaperRollGrid.java:57-67 | the rolls listed for the first r rows are in row-major order and lie in those rows |
| PaperRollGrid.AccessibleUpToMembers | src/main/java/aoc/day04/PaperRollGrid.java:57-67 | a position is listed iff it lies in the first r rows and holds an accessible roll |
| PaperRollGrid.AccessibleRollsExact | src/main/java/aoc/day04/PaperRollGrid.java:57-67 | `findAccessibleRolls` lists every accessible roll of the grid once, in row-major order, and nothing else |
| PaperRollGrid.RemovedRollCount | src/main/java/aoc/day04/PaperRollGrid.java:69-73 | removing distinct rolls lowers the number of rolls by exactly their number |
| PaperRollGrid.RemovalShrinks | src/main/java/aoc/day04/PaperRollGrid.java:48-52 | a round that finds an accessible roll removes at least one roll, so the loop of part two ends |
| PaperRollGrid.TotalRemovableCounts | src/main/java/aoc/day04/PaperRollGrid.java:44-55 | the total removed is the number of rolls minus the rolls left at the end, never more than the rolls there were, and no roll is accessible at the end |
| PaperRollGrid.LoneRoll | src/main/java/aoc/day04/PaperRollGrid.java:44-55 | a lone roll is accessible and removed in the first round |
| PaperRollGrid.PlusShape | src/main/java/aoc/day04/PaperRollGrid.java:79-81 | in a plus shape the centre, with four neighbours, is not accessible and each arm is |
| PaperRollGrid.PaperRollGrid.constructor | src/main/java/aoc/day04/PaperRollGrid.java:18-30 | rows is the number of lines, cols the first line's length (0 without lines), and row r holds the first cols characters of line r |
| PaperRollGrid.PaperRollGrid.CountAdjacentPaperRolls | src/main/java/aoc/day04/PaperRollGrid.java:83-100 | the two loops over the offsets count the in-bounds rolls around the cell, skipping the cell itself |
| PaperRollGrid.PaperRollGrid.RollAt | src/main/java/aoc/day04/PaperRollGrid.java:94-104 | `isWithinBounds(r, c) && isPaperRoll(r, c)` on the array holds exactly when (r, c) is inside the grid value and holds a roll there |
| PaperRollGrid.PaperRollGrid.IsPaperRoll | src/main/java/aoc/day04/PaperRollGrid.java:75-77 | the array cell holds '@' exactly when the grid value has a roll there |
| PaperRollGrid.PaperRollGrid.IsAccessible | src/main/java/aoc/day04/PaperRollGrid.java:79-81 | true iff fewer than four neighbours are rolls |
| PaperRollGrid.PaperRollGrid.CountAccessibleRolls | src/main/java/aoc/day04/PaperRollGrid.java:32-42 | part one: the number of accessible rolls, the same rolls `findAccessibleRolls` lists |
| PaperRollGrid.PaperRollGrid.FindAccessibleRolls | src/main/java/aoc/day04/PaperRollGrid.java:57-67 | returns the accessible rolls in row-major order |
| PaperRollGrid.PaperRollGrid.RemoveRolls | src/main/java/aoc/day04/PaperRollGrid.java:69-73 | every listed cell becomes '.', and no other cell changes |
| PaperRollGrid.PaperRollGrid.CountTotalRemovableRolls | src/main/java/aoc/day04/PaperRollGrid.java:44-55 | part two: returns the rolls removed round by round until none is accessible, and leaves the final grid in the array |
| FreshRanges.FreshRange.Ids | src/main/java/aoc/day05/FreshRange.java:12-14 | the ids a range holds are exactly those `contains` accepts, start ≤ id ≤ end |
| FreshRanges.FreshRange.MergeWith | src/main/java/aoc/day05/FreshRange.java:20-22 | the merge keeps this start and ends at the larger of the two ends |
| FreshRanges.FreshRange.Parse | src/main/java/aoc/day05/FreshRange.java:7-10 | a parsed line has at least two '-'-separated pieces; a missing piece or a non-number is an error |
| FreshRanges.IntervalCard | src/main/java/aoc/day05/FreshRange.java:24-26 | an interval lo..hi holds hi-lo+1 ids |
| FreshRanges.SizeCountsIds | src/main/java/aoc/day05/FreshRange.java:24-26 | `size` is the number of ids the range holds; a one-id range has size 1 |
| FreshRanges.MergeIsUnion | src/main/java/aoc/day05/FreshRange.java:16-22 | when the other range starts no earlier and overlaps or touches, the merge holds exactly the ids of the two |
| FreshRanges.MergeNeedsOrder | src/main/java/aoc/day05/FreshRange.java:16-18 | `overlapsOrAdjacent` only compares the other start with this end: 5-6 "overlaps" 1-2 and their merge loses id 1, so the ranges must be sorted first |
| FreshRanges.ParseRoundTrip | src/main/java/aoc/day05/FreshRange.java:7-10 | `parse` reads back "a-b" written in decimal |
| FreshRanges.ParseExample | src/test/java/aoc/day05/Day05Test.java:52-56 | "10-14" parses to 10..14 |
| IngredientDatabase.AnyContains | src/main/java/aoc/day05/IngredientDatabase.java:68-71 | `isFresh`: true iff some range contains the id |
| IngredientDatabase.CountFresh | src/main/java/aoc/day05/IngredientDatabase.java:30-34 | part one counts at most the number of available ids |
| IngredientDatabase.CountFreshIsPositions | src/main/java/aoc/day05/IngredientDatabase.java:30-34 | part one is the number of positions of the available list whose id is fresh (duplicates counted each time) |
| IngredientDatabase.EmptyDatabase | src/test/java/aoc/day05/Day05Test.java:89-93 | an empty database gives 0 for both parts |
| IngredientDatabase.InsertPermutes | src/main/java/aoc/day05/IngredientDatabase.java:38 | inserting a range into the sorted list keeps the same ranges plus the new one |
| IngredientDatabase.InsertSorted | src/main/java/aoc/day05/IngredientDatabase.java:38 | insertion keeps the list sorted by start |
| IngredientDatabase.SortedCons | src/main/java/aoc/day05/IngredientDatabase.java:38 | a range starting no later than every range of a sorted list can head it |
| IngredientDatabase.SortByStartSorts | src/main/java/aoc/day05/IngredientDatabase.java:38 | the sort by start yields a list sorted by start that is a permutation of the ranges |
| IngredientDatabase.MergeFrom | src/main/java/aoc/day05/IngredientDatabase.java:44-66 | the gatherer emits at least one range and the first emitted keeps the current range's start |
| IngredientDatabase.MergeOverlappingRanges | src/main/java/aoc/day05/IngredientDatabase.java:44-66 | the loop holding the current range and pushing it on a gap produces exactly the merged list of the specification |
| IngredientDatabase.CoveredMembers | src/main/java/aoc/day05/IngredientDatabase.java:36-42 | an id is covered by a list iff some range of the list contains it |
| IngredientDatabase.CoveredPermutation | src/main/java/aoc/day05/IngredientDatabase.java:38 | sorting does not change the covered ids |
| IngredientDatabase.MergeFromCorrect | src/main/java/aoc/day05/IngredientDatabase.java:44-66 | on sorted input the merged ranges cover exactly the input's ids and are separated by gaps of at least one id |
| IngredientDatabase.MergedCorrect | src/main/java/aoc/day05/IngredientDatabase.java:44-66 | the same for the whole sorted list |
| IngredientDatabase.MergeFromWellFormed | src/main/java/aoc/day05/IngredientDatabase.java:44-66 | merging non-reversed ranges yields non-reversed ranges |
| IngredientDatabase.CoveredAbove | src/main/java/aoc/day05/IngredientDatabase.java:44-66 | a separated list covers nothing below its first start |
| IngredientDatabase.SeparatedSizes | src/main/java/aoc/day05/IngredientDatabase.java:40-41 | for separated non-reversed ranges the sum of sizes is the number of ids covered |
| IngredientDatabase.TotalIsDistinctIds | src/main/java/aoc/day05/IngredientDatabase.java:36-42 | part two is the number of distinct ids that some range contains, when no range is reversed |
| IngredientDatabase.TotalOfPair | src/main/java/aoc/day05/IngredientDatabase.java:36-42 | for two ranges in start order part two is the merged size when they overlap or touch, the sum of sizes otherwise |
| IngredientDatabase.MergeExamples | src/test/java/aoc/day05/Day05Test.java:59-86 | 10-14 and 12-18 give 9; 1-5 and 6-10 give 10; 1-5 and 10-15 give 11 |
| IngredientDatabase.ParseRanges | src/main/java/aoc/day05/IngredientDatabase.java:19-21 | one range per line, each the parse of its line; an error iff some line does not parse |
| IngredientDatabase.ParseIds | src/main/java/aoc/day05/IngredientDatabase.java:23-25 | one id per line, each `Long.parseLong` of its line; an error iff some line does not parse |
| IngredientDatabase.Parse | src/main/java/aoc/day05/IngredientDatabase.java:18-28 | a database iff there are two sections whose lines all parse; it keeps one range and one id per line |
| MathProblems.Solve | src/main/java/aoc/day06/MathProblem.java:7-13 | '+' gives the sum of the numbers, '*' their product, any other operator an exception (None) |
| MathProblems.SumAppend | src/main/java/aoc/day06/MathProblem.java:9 | the sum of a concatenation is the sum of the sums |
| MathProblems.ProductAppend | src/main/java/aoc/day06/MathProblem.java:10 | the product of a concatenation is the product of the products |
| MathProblems.ProductZero | src/main/java/aoc/day06/MathProblem.java:10 | a product with a zero factor is zero |
| MathProblems.SolveExamples | src/test/java/aoc/day06/Day06Test.java:48-57 | 1+2+3 = 6 and 2*3*4 = 24; the empty sum is 0 and the empty product 1; '-' is rejected |
| MathWorksheet.MaxLen | src/main/java/aoc/day06/MathWorksheet.java:61 | the longest line's length: no line is longer, some line has it, 0 without lines |
| MathWorksheet.AllSpacesEvery | src/main/java/aoc/day06/MathWorksheet.java:90-97 | a column is blank iff every line either ends before it or has a space there |
| MathWorksheet.BeyondMaxLen | src/main/java/aoc/day06/MathWorksheet.java:90-97 | every column at or past the longest line is blank |
| MathWorksheet.IsAllSpaces | src/main/java/aoc/day06/MathWorksheet.java:90-97 | the loop returns whether the column is blank in every line |
| MathWorksheet.SkipBlank | src/main/java/aoc/day06/MathWorksheet.java:68-70 | the skip of separator columns stays between its start and the longest length |
| MathWorksheet.SkipFilled | src/main/java/aoc/day06/MathWorksheet.java:77-80 | the scan over a problem's columns stays between its start and the longest length |
| MathWorksheet.SkipBlankSkips | src/main/java/aoc/day06/MathWorksheet.java:68-70 | every skipped column is blank and the column it stops at, if any, is not |
| MathWorksheet.SkipFilledSkips | src/main/java/aoc/day06/MathWorksheet.java:77-80 | every column crossed is non-blank and the column it stops at, if any, is blank |
| MathWorksheet.SkipBlankColumns | src/main/java/aoc/day06/MathWorksheet.java:68-70 | the inner loop stops where the skip specification says |
| MathWorksheet.SkipFilledColumns | src/main/java/aoc/day06/MathWorksheet.java:77-80 | the inner loop stops where the scan specification says |
| MathWorksheet.RunsSeparated | src/main/java/aoc/day06/MathWorksheet.java:60-88 | the boundaries found are increasing, non-empty, and each is a maximal run of non-blank columns |
| MathWorksheet.SeparatedCons | src/main/java/aoc/day06/MathWorksheet.java:60-88 | a maximal run left of separated runs extends them |
| MathWorksheet.RunsCover | src/main/java/aoc/day06/MathWorksheet.java:60-88 | a column lies in some boundary iff it is below the longest length and not blank |
| MathWorksheet.BoundariesExact | src/main/java/aoc/day06/MathWorksheet.java:60-88 | `findColumnBoundaries` returns exactly the maximal runs of non-blank columns, left to right |
| MathWorksheet.BoundariesOrdered | src/main/java/aoc/day06/MathWorksheet.java:60-88 | every boundary has start ≤ end |
| MathWorksheet.FindColumnBoundaries | src/main/java/aoc/day06/MathWorksheet.java:60-88 | the nested loops produce the boundaries of the specification |
| MathWorksheet.OperatorFrom | src/main/java/aoc/day06/MathWorksheet.java:99-107 | a found operator is '+' or '*' |
| MathWorksheet.OperatorFromFirst | src/main/java/aoc/day06/MathWorksheet.java:99-107 | there is no operator (the exception) iff no column of the range within the row holds '+' or '*'; otherwise it is the leftmost one |
| MathWorksheet.FindOperator | src/main/java/aoc/day06/MathWorksheet.java:99-107 | the loop returns the first operator of the range or fails |
| MathWorksheet.Cells | src/main/java/aoc/day06/MathWorksheet.java:113-124 | one cell per row, each what that row's trimmed segment gives |
| MathWorksheet.Collect | src/main/java/aoc/day06/MathWorksheet.java:109-127 | no more numbers than rows |
| MathWorksheet.CollectMalformed | src/main/java/aoc/day06/MathWorksheet.java:109-127 | once a malformed segment is met the extraction fails whatever follows |
| MathWorksheet.CollectSome | src/main/java/aoc/day06/MathWorksheet.java:109-127 | the extraction succeeds iff no segment is malformed |
| MathWorksheet.NumberCells | src/main/java/aoc/day06/MathWorksheet.java:109-127 | the rows that hold a number, in increasing order |
| MathWorksheet.NumberCellsComplete | src/main/java/aoc/day06/MathWorksheet.java:109-127 | every row holding a number is among them |
| MathWorksheet.CollectValues | src/main/java/aoc/day06/MathWorksheet.java:109-127 | on success the j-th number is the value of the j-th row that holds one |
| MathWorksheet.NumbersOfRows | src/main/java/aoc/day06/MathWorksheet.java:109-127 | `extractNumbers` succeeds iff no row's segment is malformed, and then lists, top to bottom, the numbers of the rows that have one |
| MathWorksheet.ExtractNumbers | src/main/java/aoc/day06/MathWorksheet.java:109-127 | the loop computes that list or fails |
| MathWorksheet.ColumnDigits | src/main/java/aoc/day06/MathWorksheet.java:144-159 | the digits met top to bottom in a column, at most one per row |
| MathWorksheet.VerticalNumberSign | src/main/java/aoc/day06/MathWorksheet.java:144-159 | the result is -1 exactly when the column has no digit, and below 10^rows |
| MathWorksheet.ExtractVerticalNumber | src/main/java/aoc/day06/MathWorksheet.java:144-159 | the loop computes the column's digits read as a decimal number, or -1 |
| MathWorksheet.VerticalNumbers | src/main/java/aoc/day06/MathWorksheet.java:129-142 | at most one number per column of the range, none negative |
| MathWorksheet.ExtractVerticalNumbers | src/main/java/aoc/day06/MathWorksheet.java:129-142 | the loop keeps the columns' numbers and drops the -1s |
| MathWorksheet.ProblemAt | src/main/java/aoc/day06/MathWorksheet.java:43-55 | one boundary adds at most one problem, with an operator and at least one number |
| MathWorksheet.ProblemsOf | src/main/java/aoc/day06/MathWorksheet.java:43-55 | at most one problem per boundary, each with '+' or '*' and some numbers |
| MathWorksheet.ProblemsOfFailed | src/main/java/aoc/day06/MathWorksheet.java:43-55 | an exception on one boundary ends the whole parse |
| MathWorksheet.ParseProblem | src/main/java/aoc/day06/MathWorksheet.java:46-54 | the loop body computes that boundary's problem |
| MathWorksheet.ParseProblems | src/main/java/aoc/day06/MathWorksheet.java:43-55 | the loop over boundaries builds the problem list of the specification |
| MathWorksheet.ParseInternal | src/main/java/aoc/day06/MathWorksheet.java:21-58 | the method computes the worksheet the specification gives |
| MathWorksheet.SolveAndSum | src/main/java/aoc/day06/MathWorksheet.java:161-165 | succeeds iff every problem has a known operator |
| MathWorksheet.ParsedSolvable | src/main/java/aoc/day06/MathWorksheet.java:21-58 | every problem of a parsed worksheet has numbers and a known operator, so `solveAndSum` never throws on it |
| TachyonManifold.ToInt | src/main/java/aoc/day07/TachyonManifold.java:150-156 | the cast to int yields an int, and keeps a value that already is one |
| TachyonManifold.Unpack | src/main/java/aoc/day07/TachyonManifold.java:146-156 | decoding row·2^32 + (col & 0xFFFFFFFF) gives back row and col |
| TachyonManifold.Encode | src/main/java/aoc/day07/TachyonManifold.java:146-148 | the key of two ints decodes to them and fits in a long |
| TachyonManifold.EncodeInjective | src/main/java/aoc/day07/TachyonManifold.java:146-148 | two positions have the same key iff they are equal, so the key set counts positions |
| TachyonManifold.PadRow | src/main/java/aoc/day07/TachyonManifold.java:27-29 | every grid row has the first line's width |
| TachyonManifold.LastStartIn | src/main/java/aoc/day07/TachyonManifold.java:27-33 | the last 'S' among the first n columns of a row, or -1 |
| TachyonManifold.LastStartIsLast | src/main/java/aoc/day07/TachyonManifold.java:23-34 | the column kept is that of the last 'S' in reading order; -1 iff there is none |
| TachyonManifold.ParseShape | src/main/java/aoc/day07/TachyonManifold.java:15-41 | `parse` fails iff there are no lines or no 'S' within the first line's width; otherwise it pads or cuts every line to that width, keeps a start column holding 'S', and gives a valid manifold when the sizes fit in int |
| TachyonManifold.ParseLines | src/main/java/aoc/day07/TachyonManifold.java:15-41 | the nested loops build the manifold of the specification |
| TachyonManifold.StartRowFromFound | src/main/java/aoc/day07/TachyonManifold.java:137-144 | the search from a row finds the first 'S' of the start column at or below it |
| TachyonManifold.StartRow | src/main/java/aoc/day07/TachyonManifold.java:137-144 | the first row whose start column holds 'S' |
| TachyonManifold.FindStartRow | src/main/java/aoc/day07/TachyonManifold.java:137-144 | the loop returns that row (it cannot throw on a parsed manifold) |
| TachyonManifold.SplitterRow | src/main/java/aoc/day07/TachyonManifold.java:78-85 | the first splitter at or below the row in that column, or -1 when there is none |
| TachyonManifold.FindSplitterRow | src/main/java/aoc/day07/TachyonManifold.java:78-85 | the loop returns that row |
| TachyonManifold.BeamDescends | src/main/java/aoc/day07/TachyonManifold.java:78-85 | a beam goes down through the cells above the first splitter and reaches it |
| TachyonManifold.Spawns | src/main/java/aoc/day07/TachyonManifold.java:87-95 | a splitter starts at most two beams |
| TachyonManifold.SpawnNewBeams | src/main/java/aoc/day07/TachyonManifold.java:87-95 | queues the beams one row down to the left and to the right, those inside the grid |
| TachyonManifold.ProcessBeam | src/main/java/aoc/day07/TachyonManifold.java:66-76 | a beam finding no splitter changes nothing; one whose splitter is new records it and queues its two beams; one whose splitter is known only leaves the queue |
| TachyonManifold.Reaches | src/main/java/aoc/day07/TachyonManifold.java:51-64 | once the queue is empty every cell a beam crosses has been followed |
| TachyonManifold.SpawnResolved | src/main/java/aoc/day07/TachyonManifold.java:87-95 | the beams a recorded splitter spawned have been followed |
| TachyonManifold.Complete | src/main/java/aoc/day07/TachyonManifold.java:51-64 | every splitter a beam reaches ends up recorded |
| TachyonManifold.TargetActivated | src/main/java/aoc/day07/TachyonManifold.java:66-76 | a splitter found by a queued beam is one a beam reaches, and its spawned beams are real beams |
| TachyonManifold.FewerLeft | src/main/java/aoc/day07/TachyonManifold.java:73 | recording a new splitter leaves fewer unrecorded ones, so the queue loop ends |
| TachyonManifold.CountSplits | src/main/java/aoc/day07/TachyonManifold.java:51-64 | part one: the number of distinct splitters some beam reaches |
| TachyonManifold.FirstQueued | src/main/java/aoc/day07/TachyonManifold.java:55-56 | the first beam, below 'S', starts the invariant of the queue loop |
| TachyonManifold.Finished | src/main/java/aoc/day07/TachyonManifold.java:58-63 | at an empty queue the recorded splitters are exactly those a beam reaches |
| TachyonManifold.HeadQueued | src/main/java/aoc/day07/TachyonManifold.java:59 | the polled beam is a real beam |
| TachyonManifold.StepKeeps | src/main/java/aoc/day07/TachyonManifold.java:58-61 | one poll keeps the invariant and either records a splitter or shortens the queue |
| TachyonManifold.AllQueuedSplit | src/main/java/aoc/day07/TachyonManifold.java:59 | the rest of a queue of real beams holds real beams |
| TachyonManifold.AllQueuedAppend | src/main/java/aoc/day07/TachyonManifold.java:87-95 | appending real beams keeps a queue of real beams |
| TachyonManifold.StepClosed | src/main/java/aoc/day07/TachyonManifold.java:66-76 | after one beam every recorded splitter's spawned beams are followed or still queued |
| TachyonManifold.Spread | src/main/java/aoc/day07/TachyonManifold.java:116-135 | the partial next row keeps the width |
| TachyonManifold.Bump | src/main/java/aoc/day07/TachyonManifold.java:126-132 | `next[i] += d` keeps the length |
| TachyonManifold.Propagate | src/main/java/aoc/day07/TachyonManifold.java:116-135 | the next row of counts has the grid's width |
| TachyonManifold.SpreadAt | src/main/java/aoc/day07/TachyonManifold.java:116-135 | after k columns a cell holds what the columns before k sent it |
| TachyonManifold.PropagateAt | src/main/java/aoc/day07/TachyonManifold.java:116-135 | a cell of the next row receives its own count unless it is a splitter, plus the counts of splitters on either side |
| TachyonManifold.SumUpdate | src/main/java/aoc/day07/TachyonManifold.java:126-132 | adding d to one cell adds d to the total |
| TachyonManifold.SumZeros | src/main/java/aoc/day07/TachyonManifold.java:106 | a zero-filled row sums to 0 |
| TachyonManifold.SpreadStep | src/main/java/aoc/day07/TachyonManifold.java:118-134 | handling one more column adds what that column sends to the total |
| TachyonManifold.SpreadSum | src/main/java/aoc/day07/TachyonManifold.java:116-135 | the total after k columns is the counts of those columns plus what splitters at the edge lost or gained |
| TachyonManifold.NoSplitterKeepsTotal | src/main/java/aoc/day07/TachyonManifold.java:116-135 | a row without splitters passes the timelines down unchanged in total |
| TachyonManifold.NoGain | src/main/java/aoc/day07/TachyonManifold.java:116-135 | without splitters nothing is lost or gained |
| TachyonManifold.Timelines | src/main/java/aoc/day07/TachyonManifold.java:97-114 | each row of counts has the grid's width |
| TachyonManifold.TimelinesFollowBeams | src/main/java/aoc/day07/TachyonManifold.java:97-135 | no count is negative, and a cell has timelines only where a beam crosses it |
| TachyonManifold.PropagateTimelines | src/main/java/aoc/day07/TachyonManifold.java:116-135 | the loop fills the zeroed next array with the next row of counts and leaves the current one alone |
| TachyonManifold.SumArray | src/main/java/aoc/day07/TachyonManifold.java:113 | the sum of the array |
| TachyonManifold.CountTimelines | src/main/java/aoc/day07/TachyonManifold.java:97-114 | part two: the double-buffered rows end with the counts of the last row, and their sum is returned |
| TachyonManifold.SingleSplitterSplits | src/test/java/aoc/day07/Day07Test.java:39-48 | one splitter under the start is reached and is the only one |
| TachyonManifold.SingleSplitterTimelines | src/test/java/aoc/day07/Day07Test.java:71-81 | one splitter under the start makes two timelines |
| UnionFind.RootCount | src/main/java/aoc/day08/UnionFind.java:10 | the representatives among the first k elements are at most k |
| UnionFind.Relabel | src/main/java/aoc/day08/UnionFind.java:36-43 | linking one root under another sends exactly the elements of the first set to the second representative |
| UnionFind.Initial | src/main/java/aoc/day08/UnionFind.java:12-20 | n singletons: a well-formed forest of n elements with n components |
| UnionFind.IdentityCount | src/main/java/aoc/day08/UnionFind.java:12-20 | when every element is its own root, the first k elements hold k roots |
| UnionFind.Unite | src/main/java/aoc/day08/UnionFind.java:29-45 | the result of `union` is again a well-formed forest over the same elements |
| UnionFind.RelabelMerges | src/main/java/aoc/day08/UnionFind.java:36-43 | relabelling one of the two sets to the other merges exactly those two sets |
| UnionFind.UniteMerges | src/main/java/aoc/day08/UnionFind.java:29-45 | after `union(x, y)` x and y are in one set, the sets of x and y are merged, and every other pair is related as before |
| UnionFind.UniteByRank | src/main/java/aoc/day08/UnionFind.java:33-44 | union by rank: same root changes nothing; the lower-ranked root goes under the higher; on equal ranks y's root goes under x's, whose rank grows by one |
| UnionFind.RelabelCount | src/main/java/aoc/day08/UnionFind.java:34 | linking two roots removes exactly one root |
| UnionFind.UniteCount | src/main/java/aoc/day08/UnionFind.java:33-34 | `componentCount` falls by one exactly when x and y were in different sets |
| UnionFind.RootCounted | src/main/java/aoc/day08/UnionFind.java:47-49 | a root among the first k elements is counted |
| UnionFind.TwoRootsCounted | src/main/java/aoc/day08/UnionFind.java:47-49 | two roots among the first k elements make at least two |
| UnionFind.OnlyRootCounted | src/main/java/aoc/day08/UnionFind.java:47-49 | when all elements share one root, that root is the only one counted |
| UnionFind.OneComponent | src/main/java/aoc/day08/UnionFind.java:47-49 | one component iff there is an element and every two elements are in the same set |
| UnionFind.Occurrences | src/main/java/aoc/day08/UnionFind.java:53-55 | an element occurs at most as often as the sequence is long |
| UnionFind.Positives | src/main/java/aoc/day08/UnionFind.java:58-62 | the kept sizes are all positive |
| UnionFind.SetSizes | src/main/java/aoc/day08/UnionFind.java:52-55 | `sizes[r]` counts the elements whose representative is r |
| UnionFind.SetSizesAdd | src/main/java/aoc/day08/UnionFind.java:54 | one more element adds one to its representative's size |
| UnionFind.OccupiedIffRoot | src/main/java/aoc/day08/UnionFind.java:58-62 | a size is positive iff its index is a representative |
| UnionFind.OccurrenceAt | src/main/java/aoc/day08/UnionFind.java:54 | an element that is present occurs |
| UnionFind.NoOccurrence | src/main/java/aoc/day08/UnionFind.java:54 | an absent element does not occur |
| UnionFind.PositivesCount | src/main/java/aoc/day08/UnionFind.java:51-64 | one positive size per representative |
| UnionFind.PositivesSum | src/main/java/aoc/day08/UnionFind.java:58-62 | dropping the zero sizes keeps the total |
| UnionFind.SetSizesSnoc | src/main/java/aoc/day08/UnionFind.java:54 | counting one more element adds one to the total |
| UnionFind.SetSizesSum | src/main/java/aoc/day08/UnionFind.java:52-55 | the sizes add up to the number of elements |
| UnionFind.ZeroSizesSum | src/main/java/aoc/day08/UnionFind.java:52 | a fresh array of sizes sums to 0 |
| UnionFind.ComponentSizesMeaning | src/main/java/aoc/day08/UnionFind.java:51-64 | `getComponentSizes` has one positive entry per component, and the entries add up to n |
| UnionFind.RelabelRooted | src/main/java/aoc/day08/UnionFind.java:36-43 | linking two roots keeps every element pointing at a representative |
| UnionFind.CompressKeeps | src/main/java/aoc/day08/UnionFind.java:24 | path compression, pointing a node straight at its representative, keeps the forest invariant |
| UnionFind.LinkKeeps | src/main/java/aoc/day08/UnionFind.java:36-43 | linking a root under another, with the rank update of union by rank, keeps the invariant with one component fewer |
| UnionFind.UnionFind.constructor | src/main/java/aoc/day08/UnionFind.java:12-20 | every element is its own parent, ranks are 0 and there are n components |
| UnionFind.UnionFind.Find | src/main/java/aoc/day08/UnionFind.java:22-27 | returns x's representative, which is a root, points x straight at it and changes other parents only to their representatives |
| UnionFind.UnionFind.Union | src/main/java/aoc/day08/UnionFind.java:29-45 | the new forest is `Unite` of the old one, and the count falls by one iff x and y were apart |
| UnionFind.UnionFind.IsFullyConnected | src/main/java/aoc/day08/UnionFind.java:47-49 | true iff there is an element and all elements are in one set |
| UnionFind.UnionFind.GetComponentSizes | src/main/java/aoc/day08/UnionFind.java:51-64 | the sizes of the sets, by increasing representative, zeros dropped |
| Playground.ParseBox | src/main/java/aoc/day08/Playground.java:32-35 | a parsed line has at least three ','-separated pieces; fewer, or a piece that is not an int after trimming, is an exception |
| Playground.ParseEach | src/main/java/aoc/day08/Playground.java:31-36 | one parse per line, in order |
| Playground.Zip | src/main/java/aoc/day08/Playground.java:9-11 | box i is made of the i-th entries of the three coordinate arrays |
| Playground.DistSq | src/main/java/aoc/day08/Playground.java:54-57 | the squared distance is never negative |
| Playground.Square | src/main/java/aoc/day08/Playground.java:57 | a square is never negative |
| Playground.Pack | src/main/java/aoc/day08/Playground.java:59 | a key is never negative |
| Playground.PackRoundTrip | src/main/java/aoc/day08/Playground.java:59-75 | `extractBoxA` and `extractBoxB` give back i and j from a key |
| Playground.PackOrder | src/main/java/aoc/day08/Playground.java:59-64 | sorting keys orders pairs by distance, then by i, then by j |
| Playground.PackCollides | src/main/java/aoc/day08/Playground.java:59-74 | with an index of 1024 the 64-bit key of one pair equals that of another, and the first box decodes as box 0 |
| Playground.KeyOfPair | src/main/java/aoc/day08/Playground.java:50-59 | the key written for (i, j) is built from the coordinate arrays exactly as the loop computes it |
| Playground.Row | src/main/java/aoc/day08/Playground.java:53-61 | the inner loop writes one key for each j > i, in order |
| Playground.RowStep | src/main/java/aoc/day08/Playground.java:59-60 | writing one more key extends the row by its next element |
| Playground.AllPairsLength | src/main/java/aoc/day08/Playground.java:44-62 | the first k rows hold k(2n-k-1)/2 keys |
| Playground.PairCount | src/main/java/aoc/day08/Playground.java:44 | all rows hold n(n-1)/2 keys, the size of the array |
| Playground.AllPairsPrefix | src/main/java/aoc/day08/Playground.java:49-62 | the keys of fewer rows are a prefix of those of more |
| Playground.AllPairsDecode | src/main/java/aoc/day08/Playground.java:49-75 | every key decodes to a pair i < j of boxes |
| Playground.PairListed | src/main/java/aoc/day08/Playground.java:49-62 | every pair i < j has its key in the array |
| Playground.Insert | src/main/java/aoc/day08/Playground.java:64 | insertion adds one element |
| Playground.Sort | src/main/java/aoc/day08/Playground.java:64 | sorting keeps the length |
| Playground.ConsSorted | src/main/java/aoc/day08/Playground.java:64 | an element in order with every element of a sorted list can head it |
| Playground.InsertFacts | src/main/java/aoc/day08/Playground.java:64 | insertion into a sorted list keeps it sorted and adds exactly the element |
| Playground.SortFacts | src/main/java/aoc/day08/Playground.java:64 | the sort is sorted and a permutation of its input |
| Playground.SortedHead | src/main/java/aoc/day08/Playground.java:87 | the head of a sorted list is in order with every element |
| Playground.SortedTail | src/main/java/aoc/day08/Playground.java:87 | the tail of a sorted list is sorted |
| Playground.TailMultiset | src/main/java/aoc/day08/Playground.java:64 | equal heads and equal contents give equal tail contents |
| Playground.SortedUnique | src/main/java/aoc/day08/Playground.java:64 | two sorted lists with the same contents are equal, so any correct sort gives the same keys |
| Playground.SortInPlace | src/main/java/aoc/day08/Playground.java:64 | the array ends sorted ascending, equal to the sort of its old contents |
| Playground.SwapDown | src/main/java/aoc/day08/Playground.java:64 | swapping an out-of-order neighbour keeps the contents and moves the sorted prefix on |
| Playground.SortedPairsFacts | src/main/java/aoc/day08/Playground.java:41-67 | the sorted keys are a permutation of all pair keys, ascending, each decoding to a pair of boxes |
| Playground.UniteAll | src/main/java/aoc/day08/Playground.java:82-84 | uniting the first k pairs keeps a well-formed forest over the boxes |
| Playground.Limit | src/main/java/aoc/day08/Playground.java:81 | `Math.min(connections, pairs.length)`, never above the number of pairs |
| Playground.Circuits | src/main/java/aoc/day08/Playground.java:78-84 | the circuits are a well-formed forest over the boxes |
| Playground.CircuitSizes | src/main/java/aoc/day08/Playground.java:86 | one positive size per circuit, adding up to the number of boxes |
| Playground.TopThreeLargest | src/main/java/aoc/day08/Playground.java:87-93 | the factors are min(3, circuits) of the sizes, and none left out is larger than one taken |
| Playground.PrefixMultiset | src/main/java/aoc/day08/Playground.java:90-93 | a prefix holds some of the elements |
| Playground.LastMerge | src/main/java/aoc/day08/Playground.java:104-117 | the remembered pair is two boxes |
| Playground.FinalMerge | src/main/java/aoc/day08/Playground.java:97-117 | the pair part two ends on is two boxes |
| Playground.LastMergeKeeps | src/main/java/aoc/day08/Playground.java:104-117 | once a pair has joined two circuits an answer stays |
| Playground.FirstKeyJoins | src/main/java/aoc/day08/Playground.java:104-117 | from singletons the first key always joins two circuits |
| Playground.PairsExist | src/main/java/aoc/day08/Playground.java:44 | there are keys iff there are two boxes |
| Playground.FinalMergeExists | src/main/java/aoc/day08/Playground.java:97-124 | part two finds a last pair iff there are at least two boxes; with fewer it returns 0 |
| Playground.KeyJoins | src/main/java/aoc/day08/Playground.java:104-110 | after `union` of key k's two boxes, `find` gives them one root |
| Playground.KeyKeepsSame | src/main/java/aoc/day08/UnionFind.java:29-45 | boxes in one circuit stay in one circuit when one more key is united |
| Playground.UniteAllKeepsSame | src/main/java/aoc/day08/Playground.java:104-110 | boxes in one circuit after k keys are still in one circuit after any m >= k keys |
| Playground.PairJoined | src/main/java/aoc/day08/Playground.java:104-110 | once every key is united, every two boxes i < j are in one circuit, since their own key is among the keys |
| Playground.AllPairsConnect | src/main/java/aoc/day08/Playground.java:104-117 | uniting every key leaves exactly one circuit, so `isFullyConnected` turns true at some key |
| Playground.ScanStep | src/main/java/aoc/day08/Playground.java:104-117 | one turn of the loop: the key either makes one circuit and the loop breaks on its pair, or more than one circuit is left and the loop goes on, with the key's pair remembered if it joined two circuits |
| Playground.LastMergeStep | src/main/java/aoc/day08/Playground.java:104-117 | one turn of the loop on any circuits: a key whose boxes share a root is skipped; otherwise after its `union` the loop breaks on its pair if `isFullyConnected`, or goes on with it as the last pair |
| Playground.LastMergeEndsConnected | src/main/java/aoc/day08/Playground.java:104-117 | starting from more than one circuit, when all keys together leave one, the loop breaks at a key k with more than one circuit before it and one after, and returns k's pair |
| Playground.FinalMergeConnects | src/main/java/aoc/day08/Playground.java:97-124 | with two boxes or more, part two returns the pair of a key k that turns more than one circuit into one: the loop always ends on `break`, never by running out of keys |
| Playground.Playground.constructor | src/main/java/aoc/day08/Playground.java:15-19 | keeps the three arrays, with no pair data yet |
| Playground.Playground.Parse | src/main/java/aoc/day08/Playground.java:21-39 | an exception iff some non-blank line does not parse; otherwise the boxes are the parsed lines in order |
| Playground.Playground.FromParsed | src/main/java/aoc/day08/Playground.java:26-38 | the arrays hold the parsed boxes, or an exception if one failed |
| Playground.Playground.GetSortedPairData | src/main/java/aoc/day08/Playground.java:41-67 | returns the sorted keys of all pairs; computed once and the same array afterwards |
| Playground.Playground.PairData | src/main/java/aoc/day08/Playground.java:43-62 | a fresh array of the keys of all pairs i < j, row by row |
| Playground.Playground.WriteRow | src/main/java/aoc/day08/Playground.java:53-61 | the inner loop appends row i after what was written |
| Playground.Playground.ProductOfThreeLargestCircuits | src/main/java/aoc/day08/Playground.java:77-95 | part one: after joining the `connections` closest pairs, the product of the up to three largest circuit sizes |
| Playground.Playground.JoinClosest | src/main/java/aoc/day08/Playground.java:78-84 | a fresh union-find holding the first `limit` pairs united |
| Playground.Playground.UniteFirst | src/main/java/aoc/day08/Playground.java:82-84 | the loop unites the first `limit` pairs in order |
| Playground.Playground.TopThreeProduct | src/main/java/aoc/day08/Playground.java:87-94 | the product of the up to three largest sizes |
| Playground.Playground.FinalConnectionXcoordProduct | src/main/java/aoc/day08/Playground.java:97-124 | part two: the product of the x coordinates of the pair `FinalMerge` ends on, or 0; by `FinalMergeConnects` that pair is the one whose union made one circuit, and by `FinalMergeExists` the no-pair answer 0 is taken only with fewer than two boxes |
| Playground.Playground.JoinUntilConnected | src/main/java/aoc/day08/Playground.java:98-117 | the loop returns the last pair that joined two circuits, stopping once all are one, or -1 when none joined |
| MovieTheater.ParsePoint | src/main/java/aoc/day09/MovieTheater.java:27-29 | a parsed line has at least two ','-separated pieces; fewer, or a piece that is not an int after trimming, is an exception |
| MovieTheater.ParseEach | src/main/java/aoc/day09/MovieTheater.java:26-30 | one parse per line, in order |
| MovieTheater.Area | src/main/java/aoc/day09/MovieTheater.java:95-99 | the inclusive rectangle between two tiles covers at least one tile |
| MovieTheater.ValidAreaMeaning | src/main/java/aoc/day09/MovieTheater.java:69-93 | `computeValidArea` is 0 or the full area, and non-zero iff the corners differ in both coordinates, the two other corners are inside the polygon and no edge crosses the rectangle's interior |
| MovieTheater.LargestUnique | src/main/java/aoc/day09/MovieTheater.java:35-49 | the largest score over all pairs is unique, so it names one answer |
| MovieTheater.LargestBounds | src/main/java/aoc/day09/MovieTheater.java:35-49 | part one is 0 with fewer than two tiles and at least 1 otherwise |
| MovieTheater.ValidAtMostLargest | src/main/java/aoc/day09/MovieTheater.java:51-67 | part two never exceeds part one |
| MovieTheater.MovieTheater.constructor | src/main/java/aoc/day09/MovieTheater.java:12-15 | keeps both arrays, with no polygon yet |
| MovieTheater.MovieTheater.Parse | src/main/java/aoc/day09/MovieTheater.java:17-33 | an exception iff some non-blank line does not parse; otherwise tile k is the k-th parsed non-blank line |
| MovieTheater.MovieTheater.FromParsed | src/main/java/aoc/day09/MovieTheater.java:22-32 | the arrays hold the parsed tiles, or an exception if one failed |
| MovieTheater.MovieTheater.LargestRectangleArea | src/main/java/aoc/day09/MovieTheater.java:35-49 | part one: the largest area over all pairs i < j, 0 when there is none |
| MovieTheater.MovieTheater.LargestValidRectangleArea | src/main/java/aoc/day09/MovieTheater.java:51-67 | part two: builds a fresh polygon and returns the largest valid area over all pairs i < j, 0 when there is none |
| MovieTheater.MovieTheater.LargestValidIn | src/main/java/aoc/day09/MovieTheater.java:54-66 | the double loop over pairs keeps the largest valid area |
| MovieTheater.MovieTheater.ComputeValidArea | src/main/java/aoc/day09/MovieTheater.java:69-93 | the area if the rectangle is valid, 0 otherwise |
| MovieTheater.MovieTheater.ValidAreaIn | src/main/java/aoc/day09/MovieTheater.java:69-93 | the checks in order, with the polygon's cache only growing |
| MovieTheater.MovieTheater.ComputeArea | src/main/java/aoc/day09/MovieTheater.java:95-99 | (abs(dx) + 1)·(abs(dy) + 1), the number of tiles of the rectangle with those two corners |
| MovieTheater.MovieTheater.TestContainsPoint | src/main/java/aoc/day09/MovieTheater.java:101-106 | builds the polygon if needed, then answers whether the point is inside or on the boundary |
| RectilinearPolygon.RangeOf | src/main/java/aoc/day09/RectilinearPolygon.java:98-100 | `Range.of` puts the smaller end first and keeps both ends |
| RectilinearPolygon.RangeOfContains | src/main/java/aoc/day09/RectilinearPolygon.java:98-104 | the range of two ends contains exactly the values between them, in either order |
| RectilinearPolygon.EdgesComplete | src/main/java/aoc/day09/RectilinearPolygon.java:22-38 | every edge i → i+1 (wrapping) is recorded in the map for its direction |
| RectilinearPolygon.EdgesSound | src/main/java/aoc/day09/RectilinearPolygon.java:22-38 | every recorded edge is one of the polygon's edges in that direction |
| RectilinearPolygon.EdgePointInside | src/main/java/aoc/day09/RectilinearPolygon.java:45-52 | a point on an axis-parallel edge counts as contained |
| RectilinearPolygon.VertexInside | src/main/java/aoc/day09/RectilinearPolygon.java:45-52 | every red tile (vertex) is contained |
| RectilinearPolygon.NoCrossingsPastEdges | src/main/java/aoc/day09/RectilinearPolygon.java:66-76 | no vertical edge right of x means no crossing |
| RectilinearPolygon.RightOfEverythingOutside | src/main/java/aoc/day09/RectilinearPolygon.java:40-76 | a point right of every vertical edge and on no edge is outside |
| RectilinearPolygon.ExampleEdges | src/test/java/aoc/day09/Day09Test.java:10-19 | the example's eight tiles give four vertical and four horizontal edges, listed |
| RectilinearPolygon.CrossingsOfFour | src/main/java/aoc/day09/RectilinearPolygon.java:66-76 | the crossing count over four edges is the number of those the ray crosses |
| RectilinearPolygon.ExamplePoints | src/test/java/aoc/day09/Day09Test.java:34-67 | in the example (9,3) is inside, (1,1) and (12,4) are outside, and every point of 2..9 × 3..5 is inside |
| RectilinearPolygon.Polygon.constructor | src/main/java/aoc/day09/RectilinearPolygon.java:22-28 | the vertical and horizontal edge lists are those of the polygon's edges in order, with an empty cache |
| RectilinearPolygon.Polygon.AddEdge | src/main/java/aoc/day09/RectilinearPolygon.java:30-38 | an edge with equal x goes to the vertical list, any other to the horizontal one |
| RectilinearPolygon.Polygon.ContainsPoint | src/main/java/aoc/day09/RectilinearPolygon.java:40-43 | returns whether the point is on an edge or has an odd number of crossings to the right, and caches that answer |
| RectilinearPolygon.Polygon.ComputeContainsPoint | src/main/java/aoc/day09/RectilinearPolygon.java:45-47 | on an edge, or odd crossings to the right |
| RectilinearPolygon.Polygon.IsOnEdge | src/main/java/aoc/day09/RectilinearPolygon.java:49-52 | some horizontal edge at y covers x, or some vertical edge at x covers y |
| RectilinearPolygon.Polygon.PointInRangeList | src/main/java/aoc/day09/RectilinearPolygon.java:54-64 | some edge at that key contains the value |
| RectilinearPolygon.Polygon.HasOddCrossingsToRight | src/main/java/aoc/day09/RectilinearPolygon.java:66-76 | the number of vertical edges strictly right of x with min < y ≤ max is odd |
| RectilinearPolygon.RectangleVerdictMeaning | src/main/java/aoc/day09/RectilinearPolygon.java:78-94 | the check throws (None) iff minX > maxX, or the vertical edges leave the rectangle clear and minY > maxY; with ordered bounds it answers whether no vertical edge strictly between minX and maxX and no horizontal edge strictly between minY and maxY overlaps the interior |
| RectilinearPolygon.ReversedBoundsExample | src/main/java/aoc/day09/RectilinearPolygon.java:78-94 | `containsRectangle(5, 1, 0, 9)` throws; reversed y bounds throw when no vertical edge crosses, and answer false when one does, since `&&` skips the second `subMap` |
| RectilinearPolygon.Polygon.ContainsRectangle | src/main/java/aoc/day09/RectilinearPolygon.java:78-81 | asks the vertical edges, then the horizontal ones only if the vertical ones leave the rectangle clear; the answer is `RectangleVerdict` |
| RectilinearPolygon.Polygon.HasEdgeCrossingInterior | src/main/java/aoc/day09/RectilinearPolygon.java:83-94 | the IllegalArgumentException of `subMap` (None) iff keyMin > keyMax; otherwise false iff some edge with key strictly between the bounds overlaps the open span |
| GaussianAlgebra.InitialElim | src/main/java/aoc/day10/GaussianSolver.java:51-59 | the equations built from the input: one per target, coefficients as given, constant minus the target, every variable free |
| GaussianAlgebra.FirstPivot | src/main/java/aoc/day10/GaussianSolver.java:89-90 | the pivot search returns the first equation with a non-zero coefficient on the variable, or none when every coefficient is zero |
| GaussianAlgebra.PivotDefinition | src/main/java/aoc/day10/GaussianSolver.java:93-97 | an equation with a non-zero v-coefficient holds exactly when x[v] equals the expression extracted from it |
| GaussianAlgebra.SubstPreserves | src/main/java/aoc/day10/GaussianSolver.java:100-109 | substituting v's expression into an equation leaves its value unchanged at every point where x[v] equals that expression |
| GaussianAlgebra.StepStructure | src/main/java/aoc/day10/GaussianSolver.java:86-113 | one outer iteration clears column v in every equation, changes only variable v's expression, and leaves v free exactly when no pivot exists |
| GaussianAlgebra.StepEquiv | src/main/java/aoc/day10/GaussianSolver.java:86-113 | one outer iteration keeps the solution set: equations plus expressions hold before iff they hold after |
| GaussianAlgebra.EliminateStructure | src/main/java/aoc/day10/GaussianSolver.java:86-113 | after v iterations columns 0..v-1 are cleared and every dependent expression mentions only higher-numbered variables |
| GaussianAlgebra.EliminateEquiv | src/main/java/aoc/day10/GaussianSolver.java:86-113 | after v iterations a point solves the original equations iff it solves the reduced equations and every expression |
| GaussianAlgebra.ClearedSatisfies | src/main/java/aoc/day10/GaussianSolver.java:86-113 | once every column is cleared, the left-over equations hold iff all their constants are zero |
| GaussianAlgebra.EliminationCorrect | src/main/java/aoc/day10/GaussianSolver.java:86-113 | after the full elimination a point solves the system iff the residual constants are zero and the point satisfies every expression, and the expressions are triangular |
| GaussianAlgebra.FreeDecidedAtOwnStep | src/main/java/aoc/day10/GaussianSolver.java:86-113 | a variable is free at the end iff no pivot existed for it at its own iteration |
| GaussianSearch.RoundIntegral | src/main/java/aoc/day10/GaussianSolver.java:166-168 | rounding an integral value gives it back, so the integrality test accepts exactly the integers |
| GaussianSearch.EvalLoopFrame | src/main/java/aoc/day10/GaussianSolver.java:150-175 | evaluate writes only dependent variables, and only those it has reached |
| GaussianSearch.EvalLoopCongruent | src/main/java/aoc/day10/GaussianSolver.java:150-175 | the answer of evaluate depends only on the free variables' values, not on stale dependent entries |
| GaussianSearch.EvalLoopSound | src/main/java/aoc/day10/GaussianSolver.java:150-175 | an answer other than Long.MAX_VALUE comes from non-negative integral values that satisfy every expression, and is their sum |
| GaussianSearch.EvalLoopComplete | src/main/java/aoc/day10/GaussianSolver.java:150-175 | for any non-negative integral point satisfying the expressions with the same free values, evaluate answers that point's sum |
| GaussianSearch.EnumFrame | src/main/java/aoc/day10/GaussianSolver.java:131-148 | the search leaves the free variables fixed by outer levels untouched |
| GaussianSearch.EnumLoopAtMostBest | src/main/java/aoc/day10/GaussianSolver.java:136-146 | the loop over one free variable never answers more than the best value passed in |
| GaussianSearch.EnumLower | src/main/java/aoc/day10/GaussianSolver.java:131-148 | the search answers at most the evaluation of every assignment in the box below the current level |
| GaussianSearch.EnumWitness | src/main/java/aoc/day10/GaussianSolver.java:131-148 | the search answer is the incoming best or the evaluation of some assignment in the box |
| GaussianOptimality.FreeIndicesExact | src/main/java/aoc/day10/GaussianSolver.java:116-121 | the list of free variables is strictly increasing and holds exactly the free indices |
| GaussianOptimality.UpperBoundIsMin | src/main/java/aoc/day10/GaussianSolver.java:65-76 | a variable's bound is at most every target of a row mentioning it, is one of those targets, and is Integer.MAX_VALUE when no row mentions it |
| GaussianOptimality.SolvesIffSatisfies | src/main/java/aoc/day10/GaussianSolver.java:51-59 | an integer point solves Σ A[c][v]·x[v] = t[c] iff it satisfies the equations handed to the elimination |
| GaussianOptimality.SolutionWithinBound | src/main/java/aoc/day10/GaussianSolver.java:65-76 | with non-negative coefficients every non-negative solution lies within the computed bounds, so the box search loses no solution |
| GaussianOptimality.TrivialSolveMeaning | src/main/java/aoc/day10/GaussianSolver.java:42-44 | the shortcut answers 0 when the empty assignment solves the system and Long.MAX_VALUE otherwise |
| GaussianOptimality.SolveAtMostEachSolution | src/main/java/aoc/day10/GaussianSolver.java:40-63 | solve answers at most the sum of every non-negative solution inside the bounds |
| GaussianOptimality.SolveOptimal | src/main/java/aoc/day10/GaussianSolver.java:40-63 | with non-negative coefficients and bounded variables, solve answers at most the sum of every non-negative integer solution |
| GaussianOptimality.SolveAttained | src/main/java/aoc/day10/GaussianSolver.java:40-63 | solve answers Long.MAX_VALUE or the sum of a non-negative integer point satisfying every expression of the elimination |
| GaussianOptimality.CheckedSolveAttained | src/main/java/aoc/day10/GaussianSolver.java:40-63 | with the residual equations checked, the answer is Long.MAX_VALUE or the sum of an actual non-negative integer solution |
| GaussianOptimality.ResidualIgnored | src/main/java/aoc/day10/GaussianSolver.java:61-62 | x = 1, x = 2 has no solution, yet solve answers 1; the checked version answers Long.MAX_VALUE |
| GaussianSolver.GaussianSolver.constructor | src/main/java/aoc/day10/GaussianSolver.java:25-38 | every variable starts free with the identity expression and zero constant |
| GaussianSolver.GaussianSolver.PerformElimination | src/main/java/aoc/day10/GaussianSolver.java:86-113 | the arrays end in the state of the elimination function applied to their old contents |
| GaussianSolver.GaussianSolver.PivotOn | src/main/java/aoc/day10/GaussianSolver.java:92-110 | one pivot updates the arrays exactly as the pivot function does |
| GaussianSolver.GaussianSolver.SubstituteRow | src/main/java/aoc/day10/GaussianSolver.java:104-107 | row j loses its x[v] term and gains coeff times x[v]'s expression; every other row is untouched |
| GaussianSolver.GaussianSolver.ExtractPivot | src/main/java/aoc/day10/GaussianSolver.java:93-97 | the variable's expression is the pivot row divided by minus the pivot, and the variable becomes dependent |
| GaussianSolver.GaussianSolver.Substitute | src/main/java/aoc/day10/GaussianSolver.java:100-109 | every equation mentioning the variable gets its expression substituted, coefficients and constant alike |
| GaussianSolver.GaussianSolver.FindMinimum | src/main/java/aoc/day10/GaussianSolver.java:115-129 | the answer is the search over the free variables from an all-zero assignment with best Long.MAX_VALUE |
| GaussianSolver.GaussianSolver.FreeVariables | src/main/java/aoc/day10/GaussianSolver.java:116-121 | the array lists the free variables in increasing order |
| GaussianSolver.GaussianSolver.Enumerate | src/main/java/aoc/day10/GaussianSolver.java:131-148 | the answer and the final values array are those of the search function |
| GaussianSolver.GaussianSolver.Evaluate | src/main/java/aoc/day10/GaussianSolver.java:150-175 | the answer and the final values array are those of the evaluation function |
| GaussianSolver.GaussianSolver.ValueAt | src/main/java/aoc/day10/GaussianSolver.java:156-163 | x[i] is its own value when free, otherwise its constant plus its expression's dot product with the values |
| GaussianSolver.GaussianSolver.Solve | src/main/java/aoc/day10/GaussianSolver.java:40-63 | the answer is that of solve as written, whose optimality is stated by SolveOptimal |
| GaussianSolver.GaussianSolver.SolveChecked | src/main/java/aoc/day10/GaussianSolver.java:40-63 | the answer is that of solve with the residual check, Long.MAX_VALUE when the system has no solution |
| GaussianSolver.GaussianSolver.Prepare | src/main/java/aoc/day10/GaussianSolver.java:41-61 | the fresh solver and equation arrays end in the state of the elimination function applied to the loaded equations, with the bounds of `computeUpperBounds` |
| GaussianSolver.GaussianSolver.LoadEquations | src/main/java/aoc/day10/GaussianSolver.java:50-59 | fresh arrays with one row per target: row c holds the coefficients of constraint c and the constant -targets[c] |
| GaussianSolver.GaussianSolver.ComputeUpperBounds | src/main/java/aoc/day10/GaussianSolver.java:65-76 | the array holds, per variable, the least target of a row that mentions it |
| GaussianSolver.GaussianSolver.AllZero | src/main/java/aoc/day10/GaussianSolver.java:79-84 | true iff every entry is zero |
| DeviceNetwork.ParseLine | src/main/java/aoc/day11/DeviceNetwork.java:31-35 | a line fails only when splitting at ": " gives no piece; otherwise the device is the first piece |
| DeviceNetwork.Parse | src/main/java/aoc/day11/DeviceNetwork.java:27-40 | the map built line by line is the fold of the line parser over the input |
| DeviceNetwork.FoldStep | src/main/java/aoc/day11/DeviceNetwork.java:30-37 | one more line either puts its device's connections into the map or fails the whole input |
| DeviceNetwork.ParseLastWins | src/main/java/aoc/day11/DeviceNetwork.java:30-37 | the parsed map holds exactly the devices named on the lines, each with the connections of the last line naming it |
| DeviceNetwork.DirectLine | src/main/java/aoc/day11/DeviceNetwork.java:27-40 | "you: out" parses to one device with one cable to "out" |
| DeviceNetwork.PathsAnyRank | src/main/java/aoc/day11/DeviceNetwork.java:69-91 | the path count does not depend on the ranking used to show the recursion ends |
| DeviceNetwork.CountIsPaths | src/main/java/aoc/day11/DeviceNetwork.java:69-91 | any ranking that covers the start shows the recursion ends and gives the count |
| DeviceNetwork.CountCases | src/main/java/aoc/day11/DeviceNetwork.java:70-82 | the count is 1 at the target, 0 at a device without cables, and every cable's end is itself countable |
| DeviceNetwork.Memo.constructor | src/main/java/aoc/day11/DeviceNetwork.java:46 | a new memo is empty |
| DeviceNetwork.CountPaths | src/main/java/aoc/day11/DeviceNetwork.java:69-91 | the memoised search returns the path count and leaves only correct counts in the memo, never dropping an entry |
| DeviceNetwork.CountFresh | src/main/java/aoc/day11/DeviceNetwork.java:46 | a search with a new memo returns the path count |
| DeviceNetwork.CountPathsToOutput | src/main/java/aoc/day11/DeviceNetwork.java:45-47 | the answer is the number of paths from "you" to "out" |
| DeviceNetwork.CountPathsThroughCheckpoints | src/main/java/aoc/day11/DeviceNetwork.java:55-67 | the answer is paths svr→dac·dac→fft·fft→out plus paths svr→fft·fft→dac·dac→out |
| DeviceNetwork.CheckpointOrders | src/main/java/aoc/day11/DeviceNetwork.java:55-67 | in an acyclic network at most one checkpoint order has paths, so no path is counted twice |
| DeviceNetwork.Unreachable | src/main/java/aoc/day11/DeviceNetwork.java:69-91 | a target ranked no lower than the start has no path to it |
| DeviceNetwork.DiamondExample | src/main/java/aoc/day11/DeviceNetwork.java:69-91 | the diamond you → a, b → c → out has two paths |
| DeviceNetwork.DirectExample | src/main/java/aoc/day11/DeviceNetwork.java:27-47 | the input "you: out" has one path |
| DeviceNetwork.Part1Example | src/main/java/aoc/day11/DeviceNetwork.java:45-47 | the part-one example network has five paths from "you" to "out" |
| Shape.Parse | src/main/java/aoc/day12/Shape.java:21-54 | the shape holds the number of '#' cells and the smaller side of the tightest box around them, Shape(0, 0) without cells |
| Shape.FirstCell | src/main/java/aoc/day12/Shape.java:31-37 | the first cell found starts the box at itself with size 1 |
| Shape.NextCell | src/main/java/aoc/day12/Shape.java:31-37 | each further cell adds one to the size and widens the box to include it |
| Shape.NoCell | src/main/java/aoc/day12/Shape.java:30-31 | a character other than '#' changes nothing |
| Shape.RowEnd | src/main/java/aoc/day12/Shape.java:28-30 | the end of a line moves the scan to the start of the next one |
| Shape.ScannedAll | src/main/java/aoc/day12/Shape.java:41-53 | after the whole drawing the result is Shape(0, 0) without cells, else the count and min(width, height) of the box |
| Shape.BoxGrows | src/main/java/aoc/day12/Shape.java:33-36 | widening the box by a new cell keeps it the tightest box of the cells seen |
| Shape.BoxUnique | src/main/java/aoc/day12/Shape.java:23-36 | the tightest box around the cells is unique |
| Shape.ParsedUnique | src/main/java/aoc/day12/Shape.java:21-54 | a drawing describes exactly one shape |
| Shape.MinDimensionPositive | src/main/java/aoc/day12/Shape.java:45-51 | a shape with a cell has a smaller side of at least 1 |
| Shape.NoCellsIsEmpty | src/main/java/aoc/day12/Shape.java:41-43 | a drawing without '#' gives Shape(0, 0) |
| Shape.ExampleShape | src/main/java/aoc/day12/Shape.java:21-54 | the drawing "##.", "##.", "###" gives 7 cells and smaller side 3 |
| Region.Parse | src/main/java/aoc/day12/Region.java:15-29 | the region read from the line, None when a cut or a number fails |
| Region.ParseCounts | src/main/java/aoc/day12/Region.java:22-26 | the counts array holds every count text parsed, or fails on the first one that is not an int |
| Region.ParseEach | src/main/java/aoc/day12/Region.java:24-26 | count k is the int read from text k |
| Region.SplitJoin | src/main/java/aoc/day12/Region.java:22 | splitting words joined by single spaces gives the words back |
| Region.CountsRoundTrip | src/main/java/aoc/day12/Region.java:22-26 | counts written in decimal and joined by spaces are read back as the same counts |
| Region.ParseFormat | src/main/java/aoc/day12/Region.java:15-29 | a line "WxH: c1 c2 ..." written from a region parses back to that region |
| Region.RegionOfAt | src/main/java/aoc/day12/Region.java:16-20 | the line is cut at the first 'x' and the first ':' |
| Region.Region.Area | src/main/java/aoc/day12/Region.java:31-33 | with non-negative sides the area is non-negative, and zero exactly when the smaller side is |
| Region.Region.MinDimension | src/main/java/aoc/day12/Region.java:35-37 | `Math.min(width, height)`: one of the two sides and at most each |
| Region.ExampleRegion | src/main/java/aoc/day12/Region.java:15-37 | "12x5: 1 0 1 0 2 2" is a 12 by 5 region of area 60 and smaller side 5 |
| PlacementSolver.SizesOf | src/main/java/aoc/day12/PlacementSolver.java:21-24 | entry i is the size of shape i |
| PlacementSolver.MinDimensionsOf | src/main/java/aoc/day12/PlacementSolver.java:21-24 | entry i is the smaller side of shape i |
| PlacementSolver.FirstBlocked | src/main/java/aoc/day12/PlacementSolver.java:33-43 | the first positive count that is past the last shape or too wide; every positive count before it is a known shape that is not too wide |
| PlacementSolver.VerdictFits | src/main/java/aoc/day12/PlacementSolver.java:27-46 | with every requested shape known the answer is whether the region fits; it fails exactly when an unknown shape is reached before any too-wide one |
| PlacementSolver.PlacementSolver.constructor | src/main/java/aoc/day12/PlacementSolver.java:17-25 | the arrays hold each shape's size and smaller side |
| PlacementSolver.PlacementSolver.CanFit | src/main/java/aoc/day12/PlacementSolver.java:27-46 | the answer is the verdict on the region: false on a too-wide shape, None on an unknown one, else needed cells ≤ area |
| PlacementSolver.NeededIgnoresAbsent | src/main/java/aoc/day12/PlacementSolver.java:35-36 | shapes with no positive count add no cells |
| PlacementSolver.FitsIgnoresAbsent | src/main/java/aoc/day12/PlacementSolver.java:33-45 | a shape the region does not ask for has no effect on whether it fits |
| PlacementSolver.NothingFits | src/main/java/aoc/day12/PlacementSolver.java:27-46 | a region asking for nothing fits |
| PlacementSolver.FitsFewer | src/main/java/aoc/day12/PlacementSolver.java:27-46 | asking for fewer presents keeps a region fitting |
| PlacementSolver.FitsLarger | src/main/java/aoc/day12/PlacementSolver.java:27-46 | a wider or taller region still fits what fitted |
| PlacementSolver.AreaExample | src/main/java/aoc/day12/PlacementSolver.java:45 | two 7-cell presents fit in 4x4 but not in 3x4 |
| PlacementSolver.DimensionExample | src/main/java/aoc/day12/PlacementSolver.java:39-41 | a present of smaller side 3 fits in 3x10 but not in 2x20 |
| PlacementSolver.UnknownShapeExample | src/main/java/aoc/day12/PlacementSolver.java:33-41 | a request past the last shape answers false in 2x2 (too-wide shape first) and fails in 5x5 |
| ChristmasTreeFarm.BodyEndStops | src/main/java/aoc/day12/ChristmasTreeFarm.java:58-61 | a drawing is the run of non-blank lines without ':' and ends at the first other line |
| ChristmasTreeFarm.ScanStops | src/main/java/aoc/day12/ChristmasTreeFarm.java:30-52 | the shape scan stops at the first region line, or at the end of the input |
| ChristmasTreeFarm.ScanBodies | src/main/java/aoc/day12/ChristmasTreeFarm.java:30-67 | the drawings collected follow header lines, are made of drawing lines, and come in input order |
| ChristmasTreeFarm.ParseOneShape | src/main/java/aoc/day12/ChristmasTreeFarm.java:54-67 | returns where the drawing ends and adds its shape only when it has a line |
| ChristmasTreeFarm.ParseShapes | src/main/java/aoc/day12/ChristmasTreeFarm.java:30-52 | returns where the shapes end and the shape of every drawing collected, in order |
| ChristmasTreeFarm.ParseRegions | src/main/java/aoc/day12/ChristmasTreeFarm.java:69-77 | one region per region line from the start index on, None when one does not parse |
| ChristmasTreeFarm.RegionsFromCollect | src/main/java/aoc/day12/ChristmasTreeFarm.java:69-77 | the regions read are the parses of exactly the region lines, failing if any fails |
| ChristmasTreeFarm.RegionFails | src/main/java/aoc/day12/ChristmasTreeFarm.java:73-75 | a region line that does not parse fails the whole input |
| ChristmasTreeFarm.AllRegionLinesRead | src/main/java/aoc/day12/ChristmasTreeFarm.java:17-28 | no region line comes before the index where the shapes end, so every region line is read |
| ChristmasTreeFarm.FarmRegions | src/main/java/aoc/day12/ChristmasTreeFarm.java:17-28 | the farm's regions are those of all the input's region lines |
| ChristmasTreeFarm.Parse | src/main/java/aoc/day12/ChristmasTreeFarm.java:17-28 | the farm holds the shapes before the first region line and the regions from there on; None when a region fails |
| ChristmasTreeFarm.FitCountBounds | src/main/java/aoc/day12/ChristmasTreeFarm.java:91-102 | the count fails iff some region's verdict fails; otherwise it is at most the number of regions, reaching it iff every region fits |
| ChristmasTreeFarm.FitCountKnown | src/main/java/aoc/day12/ChristmasTreeFarm.java:91-102 | with every requested shape known, the count is the number of regions that fit |
| ChristmasTreeFarm.CountFittingRegions | src/main/java/aoc/day12/ChristmasTreeFarm.java:91-102 | the answer is the count of regions whose verdict is true, None when one fails |
| ChristmasTreeFarm.CountExample | src/main/java/aoc/day12/ChristmasTreeFarm.java:91-102 | of the regions 5x5, 4x4 and 2x20 below the shapes 7/3 and 5/2, one fits |
| MathUtils.Gcd | src/main/java/aoc/util/MathUtils.java:5-14 | the Euclidean loop on the absolute values returns Euclid's gcd, which divides both arguments; gcd(a, 0) = abs(a) |
| MathUtils.Lcm | src/main/java/aoc/util/MathUtils.java:16-18 | abs(a*b)/gcd(a, b); dividing by zero (a = b = 0) is an exception, and only then |
| MathUtils.LcmCommonMultiple | src/main/java/aoc/util/MathUtils.java:16-18 | the lcm is a multiple of abs(a) and of abs(b), and lcm × gcd = abs(a×b) |
| MathUtils.LcmLeast | src/main/java/aoc/util/MathUtils.java:16-18 | for non-zero a and b the lcm is positive and divides every common multiple |
| MathUtils.EuclidDivides | src/main/java/aoc/util/MathUtils.java:5-14 | Euclid's gcd divides both numbers |
| MathUtils.EuclidGreatest | src/main/java/aoc/util/MathUtils.java:5-14 | every common divisor divides the gcd |
| MathUtils.EuclidZero | src/main/java/aoc/util/MathUtils.java:5-14 | the gcd is 0 iff both numbers are 0 |
| MathUtils.Bezout | src/main/java/aoc/util/MathUtils.java:5-14 | the gcd is an integer combination of the two numbers |
| FileUtils.ResolveFileName | src/main/java/aoc/util/FileUtils.java:22-25 | the file name ends in ".txt": unchanged if it did, otherwise the name with ".txt" appended |
| FileUtils.ResolveInputPath | src/main/java/aoc/util/FileUtils.java:22-25 | the path is src/main/resources followed by a ".txt" file name |
| FileUtils.ResolveIdempotent | src/main/java/aoc/util/FileUtils.java:22-25 | resolving a resolved name changes nothing |
| FileUtils.ResolveWithOrWithoutExtension | src/main/java/aoc/util/FileUtils.java:22-25 | "name" and "name.txt" resolve to the same file |
| FileUtils.ToLongList | src/main/java/aoc/util/FileUtils.java:27-31 | one long per line, each `Long.parseLong` of its line; an exception iff some line does not parse |
| FileUtils.ToLongListRoundTrip | src/main/java/aoc/util/FileUtils.java:27-31 | numbers written in decimal are read back unchanged |
| FileUtils.SplitByBlankLines | src/main/java/aoc/util/FileUtils.java:33-54 | the loop with the current group produces the groups of the specification |
| FileUtils.FlattenAppend | src/main/java/aoc/util/FileUtils.java:33-54 | flattening distributes over concatenation of group lists |
| FileUtils.PendingWellFormed | src/main/java/aoc/util/FileUtils.java:33-54 | from a group of non-blank lines every emitted group is non-empty and holds no blank line |
| FileUtils.PendingFlatten | src/main/java/aoc/util/FileUtils.java:33-54 | the emitted groups, joined, are the current group followed by the non-blank remaining lines |
| FileUtils.PendingCount | src/main/java/aoc/util/FileUtils.java:33-54 | one group per run of non-blank lines, plus the current group if it is not empty |
| FileUtils.GroupsAreRuns | src/main/java/aoc/util/FileUtils.java:33-54 | `splitByBlankLines` returns non-empty groups without blank lines that, joined, are the non-blank lines in order, one group per run of non-blank lines |
| Optional.Collect | src/main/java/aoc/util/FileUtils.java:27-31 | a stream of parses succeeds iff every element does, and keeps each element's value in place |
| Optional.CollectSnoc | src/main/java/aoc/day12/Region.java:22-26 | collecting one more parse adds its value or fails |
| Decimal.Pow10Monotone | src/main/java/aoc/day03/Day03.java:85 | powers of ten grow with the exponent |
| Decimal.Pow10Add | src/main/java/aoc/day03/Day03.java:85 | 10^(i+j) = 10^i × 10^j |
| Decimal.ValueBounds | src/main/java/aoc/day03/Day03.java:85 | k decimal digits make a number in 0..10^k-1 |
| Decimal.ValueSnoc | src/main/java/aoc/day06/MathWorksheet.java:152 | appending a digit multiplies by ten and adds it, as `result * 10 + digit` does |
| Decimal.ValueCons | src/main/java/aoc/day03/Day03.java:85 | a leading digit adds d × 10^(rest length) |
| JavaText.DigitsOf | src/main/java/aoc/day03/Day03.java:75 | one digit value per character, `c - '0'` |
| JavaText.TrimFrom | src/main/java/aoc/day06/MathWorksheet.java:119 | `trim` drops the leading characters ≤ ' ' and stops at the first one above |
| JavaText.TrimTo | src/main/java/aoc/day06/MathWorksheet.java:119 | `trim` drops the trailing characters ≤ ' ' and stops at the last one above |
| JavaText.Trim | src/main/java/aoc/day06/MathWorksheet.java:119 | `trim` gives a string no longer than its input, empty or with both ends above ' ' |
| JavaText.TrimSlice | src/main/java/aoc/day06/MathWorksheet.java:119 | the trimmed string is a slice whose outside is all ≤ ' ' and whose ends, if any, are above ' ' |
| JavaText.TrimKeeps | src/main/java/aoc/day06/MathWorksheet.java:119 | a string with no padding trims to itself |
| JavaText.TrimPadded | src/main/java/aoc/day02/Range.java:7 | padding around a word is removed exactly |
| JavaText.IndexOf | src/main/java/aoc/day12/Region.java:16-17 | `indexOf` returns the first occurrence at or after the start, or -1 when there is none |
| JavaText.SplitAll | src/main/java/aoc/day05/FreshRange.java:8 | splitting gives at least one piece |
| JavaText.DropTrailingEmpty | src/main/java/aoc/day05/FreshRange.java:8 | `split` drops the trailing empty pieces and only those |
| JavaText.Split | src/main/java/aoc/day05/FreshRange.java:8 | `split` gives the whole string when the separator does not occur, and otherwise pieces whose last one is not empty |
| JavaText.IndexOfAfterAvoiding | src/main/java/aoc/day05/FreshRange.java:8 | the first separator of a+sep+rest is right after a when a does not contain it |
| JavaText.ContainsChar | src/main/java/aoc/day12/ChristmasTreeFarm.java:80 | `contains` of a one-character string is the same as holding that character |
| JavaText.IndexOfFirst | src/main/java/aoc/day12/Region.java:16-17 | `indexOf` of a character is its first position |
| JavaText.IndexOfAvoiding | src/main/java/aoc/day05/FreshRange.java:8 | a string without the separator has no occurrence of it |
| JavaText.SplitTwo | src/main/java/aoc/day05/FreshRange.java:8 | "a" + sep + "b" splits into exactly [a, b] when neither contains the separator |
| JavaText.ParseInt | src/main/java/aoc/day09/MovieTheater.java:28-29 | `Integer.parseInt` succeeds iff `Long.parseLong` does with a value within int range, and gives that value |
| JavaText.ParseLong | src/main/java/aoc/day05/FreshRange.java:9 | `Long.parseLong` succeeds iff the text is an optional sign and ASCII digits whose value lies within the long range, and gives that value |
| JavaText.ToDecimal | src/main/java/aoc/day02/Range.java:6-9 | the decimal text of a number is non-empty and all digits |
| JavaText.ToDecimalValue | src/main/java/aoc/day02/Range.java:6-9 | the digits of the decimal text read back as the number |
| JavaText.ParseLongToDecimal | src/main/java/aoc/util/FileUtils.java:27-31 | `Long.parseLong` reads back the decimal text of a number |
| JavaText.ParseLongRange | src/main/java/aoc/util/FileUtils.java:27-31 | `Long.parseLong` of a decimal text succeeds exactly within the long range, -2^63 included, and otherwise fails |
| JavaText.AvoidsDigits | src/main/java/aoc/day05/FreshRange.java:8 | a digit string does not contain a separator made of non-digits |

## Left out

Files and consoles:

- FileUtils.ResolveInputPath: `readLines` and `readAsString` read the file, which is I/O and is not part of this model. The solvers take the file's lines as a parameter. The path is modelled as its two parts, the directory and the file name, rather than as a `Path`.

Fixed-width integer arithmetic. Integers here are unbounded; Java's int and long wrap silently.

- Playground.Pack: `distSq << 20` is a long. It wraps once distSq reaches 2^43, and then the order of the keys stops following the distances. The model computes distSq · 2^20 exactly, so it matches Java only below 2^43.
- Playground.Playground.GetSortedPairData: requires at most MaxBoxes (1024) boxes, because the key keeps i and j in 10 bits each (Playground.java:58-59). Java runs on more boxes, but there the index fields overlap and keys collide, and `extractBoxA`/`extractBoxB` decode other boxes than the pair's (`Playground.PackCollides`). That behaviour is not modelled. `Playground.Playground.PairData`, `Playground.Playground.WriteRow`, `Playground.Playground.ProductOfThreeLargestCircuits` and `Playground.Playground.FinalConnectionXcoordProduct` carry the same bound, and so do the specification functions and lemmas over the boxes (`Playground.Pack`, `Playground.PairKey`, `Playground.Row`, `Playground.AllPairs`, `Playground.SortedPairs`, `Playground.Circuits`, `Playground.FinalMerge` and the lemmas about them). Parsing (`Playground.Playground.Parse`, `Playground.Playground.FromParsed`) has no bound.
- Playground.Playground.PairData: requires at most MaxBoxes (1024) boxes, for the same reason as `Playground.Playground.GetSortedPairData`; more boxes, where Java keys collide, are not modelled.
- Playground.Playground.WriteRow: requires at most MaxBoxes (1024) boxes, for the same reason as `Playground.Playground.GetSortedPairData`; more boxes, where Java keys collide, are not modelled.
- Playground.Playground.ProductOfThreeLargestCircuits: requires at most MaxBoxes (1024) boxes, for the same reason as `Playground.Playground.GetSortedPairData`; more boxes, where Java keys collide, are not modelled.
- Playground.Playground.FinalConnectionXcoordProduct: requires at most MaxBoxes (1024) boxes, for the same reason as `Playground.Playground.GetSortedPairData`; more boxes, where Java keys collide, are not modelled.
- MovieTheater.Area: the coordinates are subtracted as ints before widening to long (MovieTheater.java:96-97). The model subtracts exactly.
- Day03.MaxJoltage: `result * 10 + maxDigit` is a long and can wrap once the result has 19 digits. The model computes exactly.
- MathProblems.Solve: the long sum and product of the numbers wrap in Java. The model computes exactly.
- TachyonManifold.CountTimelines: the timeline counts are long sums, exact in the model.
- Region.Area: `width * height` is an int product, which wraps in Java. It is exact in the model.
- PlacementSolver.PlacementSolver.CanFit: `requiredArea` is an int, and each `count * shapeSizes[i]` added to it is an int product (PlacementSolver.java:32-36). Both wrap in Java. The model's `Needed` sum is exact.
- SafeLock.SafeLock.Turn: `position + steps` is an int sum, exact in the model.
- MathUtils.Gcd: `Math.abs(Long.MIN_VALUE)` stays negative in Java. The model takes the mathematical absolute value.
- MathUtils.Lcm: `a * b` is a long product that wraps. The model computes it exactly.
- DeviceNetwork.CountPaths: the path counts are long sums, exact in the model.
- GaussianSolver.GaussianSolver.Enumerate: `x <= bound` with a bound of Integer.MAX_VALUE would wrap `x++` in Java. The model requires every free variable to have a bounding row (`FreeBounded`).

Text:

- JavaText.IsDigit: accepts the ASCII digits '0'..'9' only. `Character.isDigit` also accepts the other Unicode decimal digits.
- JavaText.ParseLong: accepts only ASCII digits after an optional sign, within the long range. Java also takes non-ASCII Unicode digits. `JavaText.ParseInt` does the same within the int range.
- JavaText.DigitsOf: `c - '0'` on a character. There is no Unicode normalisation or encoding.

Preconditions that exclude inputs Java accepts:

- PaperRollGrid.PaperRollGrid.constructor: requires every line to be at least as long as the first. Lines shorter than the first are excluded. For those, Java throws ArrayIndexOutOfBoundsException at `grid[row][col]` in `isPaperRoll` (PaperRollGrid.java:75) when the scan reaches a column past the line's end. Longer lines are modelled: they are cut to the first line's length, as Java never reads past it.
- DeviceNetwork.CountFresh: requires the network reachable from the start to be acyclic (`Terminates`). On a cycle the Java recursion never ends and overflows the stack. `DeviceNetwork.CountPathsToOutput` and `DeviceNetwork.CountPathsThroughCheckpoints` carry the same requirement.
- GaussianSolver.GaussianSolver.Solve: requires a rectangular enough coefficient matrix, at least as many rows as targets (`WellShaped`), and `FreeBounded`. Otherwise Java throws ArrayIndexOutOfBoundsException or does not end. `GaussianSolver.GaussianSolver.SolveChecked` carries the same requirements.

Floating point and order:

- GaussianSolver.GaussianSolver.PerformElimination: doubles are read as exact reals. Every comparison with EPS (1e-8) becomes an exact comparison with zero, and `Math.round` of a value within EPS of an integer becomes a test for an exact integer. Rounding error is not modelled.
- Playground.SortInPlace: `Arrays.parallelSort` on the packed keys is modelled as a sequential in-place sort. It is proved to give the sorted permutation that the specification `Sort` defines. Only the sorted result is modelled, not parallelism.

Test answers:

- The complete puzzle answers asserted by the tests are not proved. These are Day04 13/43, Day06 4277556/3263827, Day07 21/40, Day08 40/25272, Day09 50/24, the Day11 checkpoint example 2 and Day12 4. Evaluating whole example inputs symbolically is beyond what the verifier does cheaply. The general properties are proved instead, together with small examples for each day.

## Findings

| source | as written | input that shows it | evidently intended | confidence | as-written member | corrected member |
|---|---|---|---|---|---|---|
| src/main/java/aoc/day10/GaussianSolver.java:40-63 | after the elimination, the equations that have no pivot left keep their constants, and `solve` never checks that those constants are zero | coefficients [[1], [1]] with targets [1, 2]: the system x = 1, x = 2 has no solution, yet `solve` returns 1 | Long.MAX_VALUE, the answer for a system without a solution | not executed | GaussianOptimality.ResidualIgnored | GaussianSolver.GaussianSolver.SolveChecked |
