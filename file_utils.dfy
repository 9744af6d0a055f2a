/** The pure parts of util/FileUtils: input-name resolution, parsing a list
    of numbers, and grouping lines separated by blank lines. Reading files
    is I/O and is not part of this model. */
module FileUtils {
  import opened Optional
  import JavaText

  const TxtExtension: string := ".txt"
  const ResourcesPath: string := "src/main/resources"

  predicate EndsWith(s: string, suffix: string)
  {
    |suffix| <= |s| && s[|s| - |suffix|..] == suffix
  }

  /** The file name `resolveInputPath` looks up: ".txt" is appended unless present. */
  function ResolveFileName(filename: string): (full: string)
    ensures EndsWith(full, TxtExtension)
    ensures EndsWith(filename, TxtExtension) ==> full == filename
    ensures !EndsWith(filename, TxtExtension) ==> |full| == |filename| + 4 && full[..|filename|] == filename
  {
    if EndsWith(filename, TxtExtension) then filename else filename + TxtExtension
  }

  /** `resolveInputPath`: the path (resources directory, resolved file name). */
  function ResolveInputPath(filename: string): (path: seq<string>)
    ensures |path| == 2 && path[0] == ResourcesPath && EndsWith(path[1], TxtExtension)
  {
    [ResourcesPath, ResolveFileName(filename)]
  }

  /** Resolving a resolved name changes nothing. */
  lemma ResolveIdempotent(filename: string)
    ensures ResolveFileName(ResolveFileName(filename)) == ResolveFileName(filename)
  {
  }

  /** "day01" and "day01.txt" name the same input. */
  lemma ResolveWithOrWithoutExtension(name: string)
    requires !EndsWith(name, TxtExtension)
    ensures ResolveFileName(name + TxtExtension) == ResolveFileName(name)
  {
    assert (name + TxtExtension)[|name + TxtExtension| - 4..] == TxtExtension;
  }

  /** `toLongList`: every line through Long.parseLong, in order; the first
      line that does not parse is the NumberFormatException (None). */
  function ToLongList(input: seq<string>): (r: Option<seq<int>>)
    ensures r.Some? <==> forall i :: 0 <= i < |input| ==> JavaText.ParseLong(input[i]).Some?
    ensures r.Some? ==> |r.value| == |input|
    ensures r.Some? ==> forall i :: 0 <= i < |input| ==> r.value[i] == JavaText.ParseLong(input[i]).value
  {
    if |input| == 0 then Some([])
    else match (JavaText.ParseLong(input[0]), ToLongList(input[1..]))
      case (Some(x), Some(rest)) => Some([x] + rest)
      case _ => None
  }

  /** Printing numbers one per line and reading them back with toLongList
      gives the same list. */
  lemma {:induction false} ToLongListRoundTrip(ns: seq<nat>)
    requires forall i :: 0 <= i < |ns| ==> ns[i] <= JavaText.LongMax
    ensures ToLongList(seq(|ns|, i requires 0 <= i < |ns| => JavaText.ToDecimal(ns[i]))) == Some(ns)
  {
    var lines := seq(|ns|, i requires 0 <= i < |ns| => JavaText.ToDecimal(ns[i]));
    forall i | 0 <= i < |ns| ensures JavaText.ParseLong(lines[i]) == Some(ns[i] as int) {
      JavaText.ParseLongToDecimal(ns[i]);
    }
    var r := ToLongList(lines);
    assert r.value == ns;
  }

  /** The groups `splitByBlankLines` returns for the lines still to read,
      given the group being collected so far. */
  function Pending(current: seq<string>, rest: seq<string>): seq<seq<string>>
    decreases |rest|
  {
    if |rest| == 0 then (if |current| == 0 then [] else [current])
    else if JavaText.IsBlank(rest[0]) then
      (if |current| == 0 then [] else [current]) + Pending([], rest[1..])
    else Pending(current + [rest[0]], rest[1..])
  }

  function Groups(lines: seq<string>): seq<seq<string>>
  {
    Pending([], lines)
  }

  /** `splitByBlankLines`: a group is closed at each blank line that follows
      a non-blank one, and the last group is added if it is non-empty. */
  method SplitByBlankLines(lines: seq<string>) returns (groups: seq<seq<string>>)
    ensures groups == Groups(lines)
  {
    groups := [];
    var current: seq<string> := [];
    for k := 0 to |lines|
      invariant groups + Pending(current, lines[k..]) == Groups(lines)
    {
      assert lines[k..][1..] == lines[k + 1..];
      if JavaText.IsBlank(lines[k]) {
        if |current| > 0 {
          groups := groups + [current];
          current := [];
        }
      } else {
        current := current + [lines[k]];
      }
    }
    if |current| > 0 {
      groups := groups + [current];
    }
  }

  function Flatten(groups: seq<seq<string>>): seq<string>
  {
    if |groups| == 0 then [] else groups[0] + Flatten(groups[1..])
  }

  function NonBlank(lines: seq<string>): seq<string>
  {
    if |lines| == 0 then []
    else if JavaText.IsBlank(lines[0]) then NonBlank(lines[1..])
    else [lines[0]] + NonBlank(lines[1..])
  }

  /** Number of runs of non-blank lines that begin in `rest`, where
      `afterBlank` says whether the line before `rest` was blank (or absent). */
  function RunStarts(afterBlank: bool, rest: seq<string>): nat
    decreases |rest|
  {
    if |rest| == 0 then 0
    else if afterBlank && !JavaText.IsBlank(rest[0]) then 1 + RunStarts(false, rest[1..])
    else RunStarts(JavaText.IsBlank(rest[0]), rest[1..])
  }

  predicate WellFormedGroup(g: seq<string>)
  {
    |g| > 0 && forall i :: 0 <= i < |g| ==> !JavaText.IsBlank(g[i])
  }

  lemma FlattenAppend(a: seq<seq<string>>, b: seq<seq<string>>)
    ensures Flatten(a + b) == Flatten(a) + Flatten(b)
  {
    if |a| > 0 {
      assert (a + b)[1..] == a[1..] + b;
      FlattenAppend(a[1..], b);
    } else {
      assert a + b == b;
    }
  }

  /** No group is empty or holds a blank line, even after consecutive blank lines. */
  lemma {:induction false} PendingWellFormed(current: seq<string>, rest: seq<string>)
    requires forall i :: 0 <= i < |current| ==> !JavaText.IsBlank(current[i])
    ensures forall k :: 0 <= k < |Pending(current, rest)| ==> WellFormedGroup(Pending(current, rest)[k])
    decreases |rest|
  {
    if |rest| > 0 {
      if JavaText.IsBlank(rest[0]) {
        PendingWellFormed([], rest[1..]);
      } else {
        PendingWellFormed(current + [rest[0]], rest[1..]);
      }
    }
  }

  /** Concatenating the groups gives the pending group followed by the
      non-blank lines still to read. */
  lemma {:induction false} PendingFlatten(current: seq<string>, rest: seq<string>)
    ensures Flatten(Pending(current, rest)) == current + NonBlank(rest)
    decreases |rest|
  {
    if |rest| == 0 {
      if |current| > 0 {
        assert Flatten([current]) == current + Flatten([]);
      }
    } else if JavaText.IsBlank(rest[0]) {
      PendingFlatten([], rest[1..]);
      var head: seq<seq<string>> := if |current| == 0 then [] else [current];
      FlattenAppend(head, Pending([], rest[1..]));
      if |current| > 0 {
        assert Flatten([current]) == current + Flatten([]);
      }
    } else {
      PendingFlatten(current + [rest[0]], rest[1..]);
    }
  }

  /** One group per maximal run of non-blank lines. */
  lemma {:induction false} PendingCount(current: seq<string>, rest: seq<string>)
    ensures |Pending(current, rest)| == (if |current| == 0 then 0 else 1) + RunStarts(|current| == 0, rest)
    decreases |rest|
  {
    if |rest| > 0 {
      if JavaText.IsBlank(rest[0]) {
        PendingCount([], rest[1..]);
      } else {
        PendingCount(current + [rest[0]], rest[1..]);
      }
    }
  }

  /** The groups are the maximal runs of non-blank lines, in input order:
      each is non-empty and free of blank lines, together they are the
      non-blank lines in order, and there is one per run. */
  lemma GroupsAreRuns(lines: seq<string>)
    ensures forall k :: 0 <= k < |Groups(lines)| ==> WellFormedGroup(Groups(lines)[k])
    ensures Flatten(Groups(lines)) == NonBlank(lines)
    ensures |Groups(lines)| == RunStarts(true, lines)
  {
    PendingWellFormed([], lines);
    PendingFlatten([], lines);
    PendingCount([], lines);
  }
}
