/** day11 DeviceNetwork: devices joined by directed cables, and the number
    of distinct paths between two of them, counted with a memo. */
module DeviceNetwork {
  import opened Optional
  import JavaText

  /** The adjacency list: each device's outgoing cables, in input order. */
  type Graph = map<string, seq<string>>

  const Part1Start := "you"
  const Part2Start := "svr"
  const EndNode := "out"
  const CheckpointDac := "dac"
  const CheckpointFft := "fft"

  /** One line of `parse`: the part before ": " is the device, the part
      after it (if any) is split at ' ' into the connections. A line that
      splits into no piece at all (": " alone, say) has no `parts[0]` and
      throws (None). */
  function ParseLine(line: string): (r: Option<(string, seq<string>)>)
    ensures r.None? <==> JavaText.Split(line, ": ") == []
    ensures r.Some? ==> r.value.0 == JavaText.Split(line, ": ")[0]
  {
    var parts := JavaText.Split(line, ": ");
    if |parts| == 0 then None
    else Some((parts[0], if |parts| > 1 then JavaText.Split(parts[1], " ") else []))
  }

  /** A device and its connections, as one line gives them. */
  type Entry = (string, seq<string>)

  /** `parse` as a fold, with the line parser as a parameter: each line puts
      its device's connections into the map, so a later line for the same
      device replaces an earlier one, and a line that fails fails it all. */
  function Fold(parse: string -> Option<Entry>, lines: seq<string>): Option<Graph>
  {
    if lines == [] then Some(map[])
    else
      var g := Fold(parse, lines[..|lines| - 1]);
      var entry := parse(lines[|lines| - 1]);
      if g.Some? && entry.Some? then Some(g.value[entry.value.0 := entry.value.1]) else None
  }

  /** What `parse` makes of the input's lines. */
  function ParseGraph(lines: seq<string>): Option<Graph>
  {
    Fold(ParseLine, lines)
  }

  /** `parse`: fills the map line by line. */
  method Parse(lines: seq<string>) returns (r: Option<Graph>)
    ensures r == ParseGraph(lines)
  {
    var adjacency: Graph := map[];
    for i := 0 to |lines|
      invariant Fold(ParseLine, lines[..i]) == Some(adjacency)
    {
      var entry := ParseLine(lines[i]);
      FoldStep(ParseLine, lines, i, adjacency);
      if entry.None? {
        return None;
      }
      adjacency := adjacency[entry.value.0 := entry.value.1];
    }
    assert lines[..|lines|] == lines;
    return Some(adjacency);
  }

  /** One more line either extends the map or fails the whole input. */
  lemma FoldStep(parse: string -> Option<Entry>, lines: seq<string>, i: nat, g: Graph)
    requires i < |lines| && Fold(parse, lines[..i]) == Some(g)
    ensures parse(lines[i]).None? ==> Fold(parse, lines).None?
    ensures parse(lines[i]).Some? ==>
      Fold(parse, lines[..i + 1]) == Some(g[parse(lines[i]).value.0 := parse(lines[i]).value.1])
  {
    assert lines[..i + 1][..i] == lines[..i];
    if parse(lines[i]).None? {
      FoldNoneSticks(parse, lines, i + 1);
    }
  }

  /** Once a line fails, the whole input fails. */
  lemma {:induction false} FoldNoneSticks(parse: string -> Option<Entry>, lines: seq<string>, i: nat)
    requires 0 < i <= |lines| && parse(lines[i - 1]).None?
    ensures Fold(parse, lines).None?
    decreases |lines|
  {
    if i < |lines| {
      FoldNoneSticks(parse, lines[..|lines| - 1], i);
    }
  }

  /** A parsed input holds exactly the devices named on its lines, and each
      one's connections are the ones of the last line naming it. */
  lemma ParseLastWins(lines: seq<string>, d: string)
    requires ParseGraph(lines).Some?
    ensures forall k :: 0 <= k < |lines| ==> ParseLine(lines[k]).Some?
    ensures d in ParseGraph(lines).value <==> exists k :: 0 <= k < |lines| && ParseLine(lines[k]).value.0 == d
    ensures d in ParseGraph(lines).value ==>
      exists k :: 0 <= k < |lines| && ParseLine(lines[k]).value == (d, ParseGraph(lines).value[d]) &&
        forall k' :: k < k' < |lines| ==> ParseLine(lines[k']).value.0 != d
  {
    FoldKeys(ParseLine, lines, d);
    if d in ParseGraph(lines).value {
      FoldLast(ParseLine, lines, d);
    }
  }

  /** Every line of a folded input parses. */
  lemma {:induction false} FoldAllLines(parse: string -> Option<Entry>, lines: seq<string>)
    requires Fold(parse, lines).Some?
    ensures forall k :: 0 <= k < |lines| ==> parse(lines[k]).Some?
  {
    if lines != [] {
      var init := lines[..|lines| - 1];
      FoldAllLines(parse, init);
      forall k | 0 <= k < |lines| - 1 ensures parse(lines[k]).Some? {
        assert lines[k] == init[k];
      }
    }
  }

  /** The devices of a folded input are the ones its lines name. */
  lemma {:induction false} FoldKeys(parse: string -> Option<Entry>, lines: seq<string>, d: string)
    requires Fold(parse, lines).Some?
    ensures forall k :: 0 <= k < |lines| ==> parse(lines[k]).Some?
    ensures d in Fold(parse, lines).value <==> exists k :: 0 <= k < |lines| && parse(lines[k]).value.0 == d
  {
    FoldAllLines(parse, lines);
    if lines != [] {
      var init := lines[..|lines| - 1];
      FoldKeys(parse, init, d);
      if d in Fold(parse, init).value {
        var k :| 0 <= k < |init| && parse(init[k]).value.0 == d;
        assert lines[k] == init[k];
      }
      if exists k :: 0 <= k < |lines| && parse(lines[k]).value.0 == d {
        var k :| 0 <= k < |lines| && parse(lines[k]).value.0 == d;
        if k < |init| {
          assert lines[k] == init[k];
        }
      }
    }
  }

  /** A device's connections in a folded input come from the last line
      naming it. */
  lemma {:induction false} FoldLast(parse: string -> Option<Entry>, lines: seq<string>, d: string)
    requires Fold(parse, lines).Some? && d in Fold(parse, lines).value
    ensures forall k :: 0 <= k < |lines| ==> parse(lines[k]).Some?
    ensures exists k ::
      0 <= k < |lines| && parse(lines[k]).value == (d, Fold(parse, lines).value[d]) &&
      forall k' :: k < k' < |lines| ==> parse(lines[k']).value.0 != d
  {
    FoldAllLines(parse, lines);
    var init, n := lines[..|lines| - 1], |lines| - 1;
    FoldAllLines(parse, init);
    var g := Fold(parse, init).value;
    if parse(lines[n]).value.0 == d {
      assert parse(lines[n]).value == (d, Fold(parse, lines).value[d]);
    } else {
      FoldLast(parse, init, d);
      var k :| 0 <= k < |init| && parse(init[k]).value == (d, g[d]) &&
        forall k' :: k < k' < |init| ==> parse(init[k']).value.0 != d;
      assert lines[k] == init[k];
      forall k' | k < k' < |lines| ensures parse(lines[k']).value.0 != d {
        if k' < |init| {
          assert lines[k'] == init[k'];
        }
      }
    }
  }

  lemma SplitDirectLine()
    ensures JavaText.Split("you: out", ": ") == ["you", "out"]
  {
    assert "you: out" == "you" + ": " + "out";
    JavaText.SplitTwo("you", ": ", "out");
  }

  lemma SplitOut()
    ensures JavaText.Split("out", " ") == ["out"]
  {
    JavaText.IndexOfAvoiding("out", " ");
  }

  /** The single line "you: out" is a device with one cable to "out". */
  lemma DirectLine()
    ensures ParseGraph(["you: out"]) == Some(map["you" := ["out"]])
  {
    SplitDirectLine();
    SplitOut();
    assert ParseLine("you: out") == Some(("you", ["out"]));
    assert ["you: out"][..0] == [];
  }

  /** The memoised recursion ends only when, from the start device, no
      cycle can be reached without passing through the target. A ranking
      says so: every device it ranks, other than the target, has all its
      cables going to devices ranked strictly lower. */
  ghost predicate Ranked(g: Graph, to: string, rank: map<string, nat>)
  {
    forall d :: d in rank && d != to && d in g ==>
      forall k :: 0 <= k < |g[d]| ==> g[d][k] in rank && rank[g[d][k]] < rank[d]
  }

  /** The number of paths from `from` to `to`, stopping at the first
      arrival at `to`: 1 at the target, 0 at a device without cables,
      otherwise the sum over the cables. */
  ghost function Paths(g: Graph, to: string, rank: map<string, nat>, from: string): nat
    requires Ranked(g, to, rank) && from in rank
    decreases rank[from], 1
  {
    if from == to then 1
    else if from !in g || g[from] == [] then 0
    else Through(g, to, rank, from, |g[from]|)
  }

  /** The paths that leave `from` by one of its first k cables. */
  ghost function Through(g: Graph, to: string, rank: map<string, nat>, from: string, k: nat): nat
    requires Ranked(g, to, rank) && from in rank && from != to && from in g && k <= |g[from]|
    decreases rank[from], 0, k
  {
    if k == 0 then 0
    else Through(g, to, rank, from, k - 1) + Paths(g, to, rank, g[from][k - 1])
  }

  /** The count does not depend on the ranking that shows it is finite. */
  lemma {:induction false} PathsAnyRank(g: Graph, to: string, r1: map<string, nat>, r2: map<string, nat>, from: string)
    requires Ranked(g, to, r1) && Ranked(g, to, r2) && from in r1 && from in r2
    ensures Paths(g, to, r1, from) == Paths(g, to, r2, from)
    decreases r1[from], 1
  {
    if from != to && from in g && g[from] != [] {
      ThroughAnyRank(g, to, r1, r2, from, |g[from]|);
    }
  }

  lemma {:induction false} ThroughAnyRank(g: Graph, to: string, r1: map<string, nat>, r2: map<string, nat>, from: string, k: nat)
    requires Ranked(g, to, r1) && Ranked(g, to, r2) && from in r1 && from in r2
    requires from != to && from in g && k <= |g[from]|
    ensures Through(g, to, r1, from, k) == Through(g, to, r2, from, k)
    decreases r1[from], 0, k
  {
    if k > 0 {
      ThroughAnyRank(g, to, r1, r2, from, k - 1);
      PathsAnyRank(g, to, r1, r2, g[from][k - 1]);
    }
  }

  /** The source's recursion from `from` towards `to` ends. */
  ghost predicate Terminates(g: Graph, from: string, to: string)
  {
    exists rank :: Ranked(g, to, rank) && from in rank
  }

  /** The path count, whichever ranking is used. */
  ghost function Count(g: Graph, from: string, to: string): nat
    requires Terminates(g, from, to)
  {
    var rank :| Ranked(g, to, rank) && from in rank;
    Paths(g, to, rank, from)
  }

  lemma CountIsPaths(g: Graph, to: string, rank: map<string, nat>, from: string)
    requires Ranked(g, to, rank) && from in rank
    ensures Terminates(g, from, to) && Count(g, from, to) == Paths(g, to, rank, from)
  {
    var r :| Ranked(g, to, r) && from in r && Count(g, from, to) == Paths(g, to, r, from);
    PathsAnyRank(g, to, r, rank, from);
  }

  /** The three cases of `countPaths`, stated on the count: at the target
      it is 1 whatever cables leave it, without cables it is 0, and
      otherwise every cable's end is reachable and the first k cables
      contribute the counts from their ends. */
  lemma CountCases(g: Graph, from: string, to: string)
    requires Terminates(g, from, to)
    ensures from == to ==> Count(g, from, to) == 1
    ensures from != to && (from !in g || g[from] == []) ==> Count(g, from, to) == 0
    ensures from != to && from in g ==> forall k :: 0 <= k < |g[from]| ==> Terminates(g, g[from][k], to)
  {
    var rank :| Ranked(g, to, rank) && from in rank;
    CountIsPaths(g, to, rank, from);
    if from != to && from in g {
      forall k | 0 <= k < |g[from]| ensures Terminates(g, g[from][k], to) {
        assert Ranked(g, to, rank) && g[from][k] in rank;
      }
    }
  }

  /** The memo of one search: every entry is the count from its device. */
  class Memo {
    var entries: map<string, int>

    constructor ()
      ensures entries == map[]
    {
      entries := map[];
    }
  }

  ghost predicate MemoSound(g: Graph, to: string, rank: map<string, nat>, entries: map<string, int>)
    requires Ranked(g, to, rank)
  {
    forall d :: d in entries ==> d in rank && entries[d] == Paths(g, to, rank, d)
  }

  /** `countPaths`: the target counts 1, a memo hit returns the stored
      count, a device without cables stores and returns 0, and otherwise
      the counts over its cables are summed, stored and returned. */
  method CountPaths(g: Graph, from: string, to: string, memo: Memo, ghost rank: map<string, nat>) returns (count: int)
    requires Ranked(g, to, rank) && from in rank && MemoSound(g, to, rank, memo.entries)
    modifies memo
    ensures MemoSound(g, to, rank, memo.entries) && old(memo.entries).Keys <= memo.entries.Keys
    ensures count == Paths(g, to, rank, from)
    decreases rank[from]
  {
    if from == to {
      return 1;
    }
    if from in memo.entries {
      return memo.entries[from];
    }
    if from !in g || g[from] == [] {
      memo.entries := memo.entries[from := 0];
      return 0;
    }
    var connections := g[from];
    var pathCount := 0;
    for i := 0 to |connections|
      invariant MemoSound(g, to, rank, memo.entries) && old(memo.entries).Keys <= memo.entries.Keys
      invariant pathCount == Through(g, to, rank, from, i)
    {
      var paths := CountPaths(g, connections[i], to, memo, rank);
      pathCount := pathCount + paths;
    }
    memo.entries := memo.entries[from := pathCount];
    count := pathCount;
  }

  /** `countPaths` with a fresh memo, as every caller uses it. */
  method CountFresh(g: Graph, from: string, to: string) returns (count: int)
    requires Terminates(g, from, to)
    ensures count == Count(g, from, to)
  {
    ghost var rank :| Ranked(g, to, rank) && from in rank;
    var memo := new Memo();
    count := CountPaths(g, from, to, memo, rank);
    CountIsPaths(g, to, rank, from);
  }

  /** The parsed network; the record only wraps the adjacency list. */
  datatype DeviceNetwork = DeviceNetwork(adjacency: Graph)

  /** Paths that visit both checkpoints: through "dac" then "fft", plus
      through "fft" then "dac". */
  ghost function Checkpoints(g: Graph): int
    requires Terminates(g, Part2Start, CheckpointDac) && Terminates(g, CheckpointDac, CheckpointFft)
    requires Terminates(g, CheckpointFft, EndNode) && Terminates(g, Part2Start, CheckpointFft)
    requires Terminates(g, CheckpointFft, CheckpointDac) && Terminates(g, CheckpointDac, EndNode)
  {
    Count(g, Part2Start, CheckpointDac) * Count(g, CheckpointDac, CheckpointFft) * Count(g, CheckpointFft, EndNode) +
    Count(g, Part2Start, CheckpointFft) * Count(g, CheckpointFft, CheckpointDac) * Count(g, CheckpointDac, EndNode)
  }

  /** `countPathsToOutput`: from "you" to "out". */
  method CountPathsToOutput(net: DeviceNetwork) returns (count: int)
    requires Terminates(net.adjacency, Part1Start, EndNode)
    ensures count == Count(net.adjacency, Part1Start, EndNode)
  {
    count := CountFresh(net.adjacency, Part1Start, EndNode);
  }

  /** `countPathsThroughCheckpoints`: six searches, each with its own memo. */
  method CountPathsThroughCheckpoints(net: DeviceNetwork) returns (count: int)
    requires Terminates(net.adjacency, Part2Start, CheckpointDac) && Terminates(net.adjacency, CheckpointDac, CheckpointFft)
    requires Terminates(net.adjacency, CheckpointFft, EndNode) && Terminates(net.adjacency, Part2Start, CheckpointFft)
    requires Terminates(net.adjacency, CheckpointFft, CheckpointDac) && Terminates(net.adjacency, CheckpointDac, EndNode)
    ensures count == Checkpoints(net.adjacency)
  {
    var g := net.adjacency;
    var a := CountFresh(g, Part2Start, CheckpointDac);
    var b := CountFresh(g, CheckpointDac, CheckpointFft);
    var c := CountFresh(g, CheckpointFft, EndNode);
    var dacFirst := a * b * c;
    var d := CountFresh(g, Part2Start, CheckpointFft);
    var e := CountFresh(g, CheckpointFft, CheckpointDac);
    var f := CountFresh(g, CheckpointDac, EndNode);
    var fftFirst := d * e * f;
    count := dacFirst + fftFirst;
  }

  /** In an acyclic network a device cannot reach itself, so the two
      checkpoint orders cannot both contribute: one of the two products
      is 0. */
  lemma {:induction false} CheckpointOrders(g: Graph, rank: map<string, nat>)
    requires Ranked(g, CheckpointDac, rank) && Ranked(g, CheckpointFft, rank)
    requires CheckpointDac in rank && CheckpointFft in rank
    ensures Terminates(g, CheckpointDac, CheckpointFft) && Terminates(g, CheckpointFft, CheckpointDac)
    ensures Count(g, CheckpointDac, CheckpointFft) == 0 || Count(g, CheckpointFft, CheckpointDac) == 0
  {
    CountIsPaths(g, CheckpointFft, rank, CheckpointDac);
    CountIsPaths(g, CheckpointDac, rank, CheckpointFft);
    if rank[CheckpointDac] <= rank[CheckpointFft] {
      Unreachable(g, CheckpointFft, rank, CheckpointDac);
    } else {
      Unreachable(g, CheckpointDac, rank, CheckpointFft);
    }
  }

  /** A target ranked at least as high as the start is never reached. */
  lemma {:induction false} Unreachable(g: Graph, to: string, rank: map<string, nat>, from: string)
    requires Ranked(g, to, rank) && from in rank && to in rank && rank[from] <= rank[to] && from != to
    ensures Paths(g, to, rank, from) == 0
    decreases rank[from], 1
  {
    if from in g && g[from] != [] {
      UnreachableThrough(g, to, rank, from, |g[from]|);
    }
  }

  lemma {:induction false} UnreachableThrough(g: Graph, to: string, rank: map<string, nat>, from: string, k: nat)
    requires Ranked(g, to, rank) && from in rank && to in rank && rank[from] <= rank[to] && from != to
    requires from in g && k <= |g[from]|
    ensures Through(g, to, rank, from, k) == 0
    decreases rank[from], 0, k
  {
    if k > 0 {
      UnreachableThrough(g, to, rank, from, k - 1);
      Unreachable(g, to, rank, g[from][k - 1]);
    }
  }

  /** `countPaths` at a device with one, two or three cables, written out. */
  lemma PathsUnfold(g: Graph, to: string, rank: map<string, nat>, from: string)
    requires Ranked(g, to, rank) && from in rank && from != to && from in g && 1 <= |g[from]| <= 3
    ensures forall k :: 0 <= k < |g[from]| ==> g[from][k] in rank
    ensures |g[from]| == 1 ==> Paths(g, to, rank, from) == Paths(g, to, rank, g[from][0])
    ensures |g[from]| == 2 ==>
      Paths(g, to, rank, from) == Paths(g, to, rank, g[from][0]) + Paths(g, to, rank, g[from][1])
    ensures |g[from]| == 3 ==>
      Paths(g, to, rank, from) ==
        Paths(g, to, rank, g[from][0]) + Paths(g, to, rank, g[from][1]) + Paths(g, to, rank, g[from][2])
  {
    assert Through(g, to, rank, from, 1) == Paths(g, to, rank, g[from][0]);
    if |g[from]| >= 2 {
      assert Through(g, to, rank, from, 2) == Through(g, to, rank, from, 1) + Paths(g, to, rank, g[from][1]);
    }
  }

  /** The diamond you -> a, b -> c -> out has two paths. */
  lemma DiamondExample()
    ensures var g := map["you" := ["a", "b"], "a" := ["c"], "b" := ["c"], "c" := ["out"]];
      Terminates(g, "you", "out") && Count(g, "you", "out") == 2
  {
    var g := map["you" := ["a", "b"], "a" := ["c"], "b" := ["c"], "c" := ["out"]];
    var rank := map["you" := 3, "a" := 2, "b" := 2, "c" := 1, "out" := 0];
    assert Ranked(g, "out", rank);
    CountIsPaths(g, "out", rank, "you");
    PathsUnfold(g, "out", rank, "c");
    PathsUnfold(g, "out", rank, "a");
    PathsUnfold(g, "out", rank, "b");
    PathsUnfold(g, "out", rank, "you");
  }

  /** The direct line "you: out" has one path. */
  lemma DirectExample()
    ensures ParseGraph(["you: out"]).Some?
    ensures Terminates(ParseGraph(["you: out"]).value, "you", "out")
    ensures Count(ParseGraph(["you: out"]).value, "you", "out") == 1
  {
    DirectLine();
    var g := map["you" := ["out"]];
    var rank := map["you" := 1, "out" := 0];
    assert Ranked(g, "out", rank);
    CountIsPaths(g, "out", rank, "you");
    PathsUnfold(g, "out", rank, "you");
  }

  /** The part-one example network, and a ranking of the devices below
      "you" that shows the search from there ends. */
  const Example1: Graph := map["aaa" := ["you", "hhh"], "you" := ["bbb", "ccc"], "bbb" := ["ddd", "eee"],
    "ccc" := ["ddd", "eee", "fff"], "ddd" := ["ggg"], "eee" := ["out"], "fff" := ["out"],
    "ggg" := ["out"], "hhh" := ["ccc", "fff", "iii"], "iii" := ["out"]]
  const Example1Rank: map<string, nat> := map["you" := 4, "bbb" := 3, "ccc" := 3, "ddd" := 2, "ggg" := 1,
    "eee" := 1, "fff" := 1, "out" := 0]

  lemma Example1Ranked()
    ensures Ranked(Example1, "out", Example1Rank) && "you" in Example1Rank
  {
  }

  /** The cables of the part-one example that lead from "you" to "out". */
  lemma Example1Cables()
    ensures "you" in Example1 && Example1["you"] == ["bbb", "ccc"]
    ensures "bbb" in Example1 && Example1["bbb"] == ["ddd", "eee"]
    ensures "ccc" in Example1 && Example1["ccc"] == ["ddd", "eee", "fff"]
    ensures "ddd" in Example1 && Example1["ddd"] == ["ggg"]
    ensures "eee" in Example1 && Example1["eee"] == ["out"]
    ensures "fff" in Example1 && Example1["fff"] == ["out"]
    ensures "ggg" in Example1 && Example1["ggg"] == ["out"]
  {
  }

  /** The path count of any ranked network with the part-one example's
      cables below "you". */
  lemma Part1Paths(g: Graph, rank: map<string, nat>)
    requires Ranked(g, "out", rank) && "you" in rank
    requires "you" in g && g["you"] == ["bbb", "ccc"]
    requires "bbb" in g && g["bbb"] == ["ddd", "eee"]
    requires "ccc" in g && g["ccc"] == ["ddd", "eee", "fff"]
    requires "ddd" in g && g["ddd"] == ["ggg"]
    requires "eee" in g && g["eee"] == ["out"] && "fff" in g && g["fff"] == ["out"]
    requires "ggg" in g && g["ggg"] == ["out"]
    ensures Paths(g, "out", rank, "you") == 5
  {
    PathsUnfold(g, "out", rank, "you");
    PathsUnfold(g, "out", rank, "bbb");
    PathsUnfold(g, "out", rank, "ccc");
    PathsUnfold(g, "out", rank, "ddd");
    PathsUnfold(g, "out", rank, "eee");
    PathsUnfold(g, "out", rank, "fff");
    PathsUnfold(g, "out", rank, "ggg");
  }

  /** The part-one example has five paths from "you" to "out". */
  lemma Part1Example()
    ensures Terminates(Example1, "you", "out") && Count(Example1, "you", "out") == 5
  {
    Example1Ranked();
    Example1Cables();
    Part1Paths(Example1, Example1Rank);
    CountIsPaths(Example1, "out", Example1Rank, "you");
  }
}
