/**
 * `log_split`: cuts the text printed by `git log` into one chunk per commit.
 * A chunk is a run of lines, each followed by "\n"; a new chunk opens at
 * every line that begins with `commit`, unless nothing has been collected yet.
 */
module LogSplit {
  import opened RustStr

  /** The split test of `log_split`: a bare prefix check, so `commitment` qualifies too. */
  predicate IsCommitLine(line: string) {
    StartsWith(line, "commit")
  }

  /** Number of lines, after the first one, that begin with `commit`. */
  function SplitPoints(lines: seq<string>): nat {
    if |lines| <= 1 then 0
    else SplitPoints(lines[..|lines| - 1]) + (if IsCommitLine(lines[|lines| - 1]) then 1 else 0)
  }

  /** Positions, other than the first, of the lines that begin with `commit`. */
  ghost function SplitIndices(lines: seq<string>): set<int> {
    set i | 1 <= i < |lines| && IsCommitLine(lines[i])
  }

  /** `SplitPoints` counts exactly the positions in `SplitIndices`. */
  lemma {:induction false} SplitPointsCount(lines: seq<string>)
    ensures SplitPoints(lines) == |SplitIndices(lines)|
    decreases |lines|
  {
    if |lines| <= 1 {
      assert SplitIndices(lines) == {};
    } else {
      var n := |lines| - 1;
      var front := lines[..n];
      SplitPointsCount(front);
      var added := if IsCommitLine(lines[n]) then {n} else {};
      assert SplitIndices(lines) == SplitIndices(front) + added by {
        forall i | 1 <= i < n ensures lines[i] == front[i] { }
      }
      assert n !in SplitIndices(front);
    }
  }

  /** All chunks joined in order. */
  function Concat(chunks: seq<string>): string {
    if chunks == [] then "" else Concat(chunks[..|chunks| - 1]) + chunks[|chunks| - 1]
  }

  /** All groups of lines joined in order. */
  function Flatten(groups: seq<seq<string>>): seq<string> {
    if groups == [] then [] else Flatten(groups[..|groups| - 1]) + groups[|groups| - 1]
  }

  /** `commits` holds, position by position, the text of each group of lines. */
  ghost predicate Renders(commits: seq<string>, groups: seq<seq<string>>) {
    |commits| == |groups| && forall i :: 0 <= i < |commits| ==> commits[i] == Unlines(groups[i])
  }

  /**
   * `groups` cuts `lines` the way `log_split` does: in order and with nothing
   * lost or repeated; every group after the first opens with a `commit` line;
   * no other line of any group begins with `commit`; only the last group may
   * be empty, and it is empty exactly when there are no lines at all.
   */
  ghost predicate CutAtCommits(lines: seq<string>, groups: seq<seq<string>>) {
    && |groups| >= 1
    && Flatten(groups) == lines
    && (forall i :: 0 <= i < |groups| - 1 ==> groups[i] != [])
    && (groups[|groups| - 1] == [] <==> lines == [])
    && (forall i :: 1 <= i < |groups| ==> groups[i] != [] && IsCommitLine(groups[i][0]))
    && (forall i, j :: 0 <= i < |groups| && 1 <= j < |groups[i]| ==> !IsCommitLine(groups[i][j]))
  }

  /**
   * The state of `log_split` after it has consumed the first `i` lines: the
   * finished chunks `commits` hold the text of the line groups `groups`, the
   * chunk `commit` still being filled holds the text of the lines `current`,
   * and together the groups are the consumed lines in order.
   */
  ghost predicate Tracks(done: seq<string>, commits: seq<string>, commit: string,
                         groups: seq<seq<string>>, current: seq<string>)
  {
    && |groups| == SplitPoints(done)
    && Flatten(groups) + current == done
    && Concat(commits) + commit == Unlines(done)
    && commit == Unlines(current)
    && Renders(commits, groups)
    && (current == [] <==> done == [])
  }

  /** Every finished group is non-empty, opens with a `commit` line unless it is the first, and has no other. */
  ghost predicate WellCut(groups: seq<seq<string>>, current: seq<string>) {
    && (forall j :: 0 <= j < |groups| ==> groups[j] != [])
    && (forall j :: 1 <= j < |groups| ==> IsCommitLine(groups[j][0]))
    && (|groups| > 0 ==> current != [] && IsCommitLine(current[0]))
    && (forall j, k :: 0 <= j < |groups| && 1 <= k < |groups[j]| ==> !IsCommitLine(groups[j][k]))
    && (forall k :: 1 <= k < |current| ==> !IsCommitLine(current[k]))
  }

  lemma SplitPointsSnoc(done: seq<string>, line: string)
    ensures SplitPoints(done + [line]) == SplitPoints(done) + (if done != [] && IsCommitLine(line) then 1 else 0)
  {
    assert (done + [line])[..|done|] == done;
  }

  lemma UnlinesSnoc(done: seq<string>, line: string)
    ensures Unlines(done + [line]) == Unlines(done) + line + "\n"
  {
    assert (done + [line])[..|done|] == done;
  }

  lemma FlattenSnoc(groups: seq<seq<string>>, group: seq<string>)
    ensures Flatten(groups + [group]) == Flatten(groups) + group
  {
    assert (groups + [group])[..|groups|] == groups;
  }

  lemma ConcatSnoc(chunks: seq<string>, chunk: string)
    ensures Concat(chunks + [chunk]) == Concat(chunks) + chunk
  {
    assert (chunks + [chunk])[..|chunks|] == chunks;
  }

  /**
   * A `commit` line met while the open chunk is non-empty closes that chunk and opens a new one.
   * The post-state is written `"" + line + "\n"` and `[] + [line]` because the loop first resets
   * the chunk and then appends to it.
   */
  lemma TracksOpening(lines: seq<string>, i: nat, commits: seq<string>, commit: string,
                      groups: seq<seq<string>>, current: seq<string>)
    requires i < |lines| && Tracks(lines[..i], commits, commit, groups, current)
    requires IsCommitLine(lines[i]) && commit != ""
    ensures Tracks(lines[..i + 1], commits + [commit], "" + lines[i] + "\n", groups + [current], [] + [lines[i]])
  {
    var done, line := lines[..i], lines[i];
    assert lines[..i + 1] == done + [line];
    SplitPointsSnoc(done, line);
    UnlinesSnoc(done, line);
    UnlinesSnoc([], line);
    FlattenSnoc(groups, current);
    ConcatSnoc(commits, commit);
    assert "" + line + "\n" == line + "\n" && [] + [line] == [line];
  }

  /** The shape half of the same step; `[] + [line]` again mirrors reset-then-append. */
  lemma CutOpening(groups: seq<seq<string>>, current: seq<string>, line: string)
    requires WellCut(groups, current)
    requires IsCommitLine(line) && current != []
    ensures WellCut(groups + [current], [] + [line])
  {
  }

  /** Any other line is appended to the open chunk. */
  lemma TracksAppending(lines: seq<string>, i: nat, commits: seq<string>, commit: string,
                        groups: seq<seq<string>>, current: seq<string>)
    requires i < |lines| && Tracks(lines[..i], commits, commit, groups, current)
    requires !(IsCommitLine(lines[i]) && commit != "")
    ensures Tracks(lines[..i + 1], commits, commit + lines[i] + "\n", groups, current + [lines[i]])
  {
    var done, line := lines[..i], lines[i];
    assert lines[..i + 1] == done + [line];
    SplitPointsSnoc(done, line);
    UnlinesSnoc(done, line);
    UnlinesSnoc(current, line);
  }

  lemma CutAppending(groups: seq<seq<string>>, current: seq<string>, line: string)
    requires WellCut(groups, current)
    requires current != [] ==> !IsCommitLine(line)
    ensures WellCut(groups, current + [line])
  {
  }

  /** Pushing the open chunk once every line is consumed completes the text of all the lines. */
  lemma TracksFinish(lines: seq<string>, commits: seq<string>, commit: string,
                     groups: seq<seq<string>>, current: seq<string>)
    requires Tracks(lines, commits, commit, groups, current)
    ensures Renders(commits + [commit], groups + [current])
    ensures |commits + [commit]| == 1 + SplitPoints(lines)
    ensures Concat(commits + [commit]) == Unlines(lines)
    ensures Flatten(groups + [current]) == lines
  {
    FlattenSnoc(groups, current);
    ConcatSnoc(commits, commit);
  }

  /** ... and completes the cut of all the lines. */
  lemma CutFinish(lines: seq<string>, groups: seq<seq<string>>, current: seq<string>)
    requires Flatten(groups + [current]) == lines
    requires current == [] <==> lines == []
    requires WellCut(groups, current)
    ensures CutAtCommits(lines, groups + [current])
  {
    var groups' := groups + [current];
    assert forall i :: 0 <= i < |groups| ==> groups'[i] == groups[i];
  }

  /** The state after the loop, with the open chunk pushed, meets the contract of `SplitLog`. */
  lemma Finish(lines: seq<string>, commits: seq<string>, commit: string,
               groups: seq<seq<string>>, current: seq<string>)
    requires Tracks(lines[..|lines|], commits, commit, groups, current)
    requires WellCut(groups, current)
    ensures CutAtCommits(lines, groups + [current]) && Renders(commits + [commit], groups + [current])
    ensures |commits + [commit]| == 1 + SplitPoints(lines)
    ensures Concat(commits + [commit]) == Unlines(lines)
  {
    assert lines[..|lines|] == lines;
    TracksFinish(lines, commits, commit, groups, current);
    CutFinish(lines, groups, current);
  }

  /** What the chunk texts inherit from the cut of the lines they were built from. */
  lemma ChunkTexts(lines: seq<string>, commits: seq<string>, groups: seq<seq<string>>)
    requires CutAtCommits(lines, groups) && Renders(commits, groups)
    ensures |commits| >= 1
    ensures forall i :: 0 <= i < |commits| - 1 ==> commits[i] != ""
    ensures commits[|commits| - 1] == "" <==> lines == []
    ensures lines == [] ==> commits == [""]
    ensures forall i :: 1 <= i < |commits| ==> StartsWith(commits[i], "commit")
    ensures forall i :: 0 <= i < |commits| && commits[i] != "" ==> commits[i][|commits[i]| - 1] == '\n'
  {
    forall i | 1 <= i < |commits| ensures StartsWith(commits[i], "commit") {
      UnlinesStartsWithFirst(groups[i]);
    }
    if lines == [] {
      assert |groups| == 1;
    }
  }

  /**
   * For a log that is empty or ends with '\n' and uses bare "\n" line endings, as
   * `git log` prints, chunks meeting the contract of `SplitLog` concatenate to the log itself.
   */
  lemma ChunksRebuildLog(log: string, commits: seq<string>)
    requires log == [] || log[|log| - 1] == '\n'
    requires NoCarriageReturnBeforeNewline(log)
    requires Concat(commits) == Unlines(Lines(log))
    ensures Concat(commits) == log
  {
    UnlinesOfLines(log);
  }

  /**
   * Splits `log` into commit chunks. The ghost `groups` are the lines each
   * chunk was built from.
   */
  method SplitLog(log: string) returns (commits: seq<string>, ghost groups: seq<seq<string>>)
    ensures CutAtCommits(Lines(log), groups) && Renders(commits, groups)
    ensures |commits| == 1 + SplitPoints(Lines(log))
    ensures Concat(commits) == Unlines(Lines(log))
  {
    var lines := Lines(log);
    commits := [];
    var commit := "";
    groups := [];
    ghost var current: seq<string> := [];
    for i := 0 to |lines|
      invariant Tracks(lines[..i], commits, commit, groups, current)
      invariant WellCut(groups, current)
    {
      var line := lines[i];
      ghost var isNew := false;
      if StartsWith(line, "commit") {
        if commit != "" {
          TracksOpening(lines, i, commits, commit, groups, current);
          CutOpening(groups, current, line);
          commits := commits + [commit];
          groups := groups + [current];
          commit := "";
          current := [];
          isNew := true;
        }
      }
      if !isNew {
        TracksAppending(lines, i, commits, commit, groups, current);
        CutAppending(groups, current, line);
      }
      commit := commit + line + "\n";
      current := current + [line];
    }
    Finish(lines, commits, commit, groups, current);
    commits := commits + [commit];
    groups := groups + [current];
  }
}
