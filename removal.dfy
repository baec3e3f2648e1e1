/**
 * `remove_duplicate_files`: the confirmation gates, the choice of the member
 * to keep, and the loop that deletes every other member while adding up what
 * was removed. The user's answers are given as strings; the filesystem is a
 * set of existing paths with fixed permissions.
 */
module Removal {
  import opened Wrappers
  import opened Text
  import opened Metadata
  import opened Grouping
  import opened Selection

  /** `input(...).strip().lower() == 'yes'`. */
  predicate IsYes(answer: string) {
    Lower(Strip(answer)) == "yes"
  }

  /** Surrounding whitespace is ignored, and case is ignored: only the three letters of `yes` confirm. */
  lemma ConfirmationRule(pre: string, answer: string, post: string)
    requires AllSpace(pre) && AllSpace(post)
    requires answer != [] && !IsSpace(answer[0]) && !IsSpace(answer[|answer| - 1])
    ensures IsYes(pre + answer + post) <==> (|answer| == 3 && Lower(answer) == "yes")
  {
    StripPadded(pre, answer, post);
  }

  /** The confirming answers, letter by letter: `yes` in any mix of cases, with surrounding whitespace. */
  lemma YesLetters(answer: string)
    ensures IsYes(answer) <==> var t := Strip(answer);
      |t| == 3 && (t[0] == 'y' || t[0] == 'Y') && (t[1] == 'e' || t[1] == 'E') && (t[2] == 's' || t[2] == 'S')
  {
    var t := Strip(answer);
    var l := Lower(t);
    if |t| == 3 {
      assert l == "yes" <==> l[0] == 'y' && l[1] == 'e' && l[2] == 's';
      assert l[0] == LowerChar(t[0]) && l[1] == LowerChar(t[1]) && l[2] == LowerChar(t[2]);
    }
  }

  lemma ShoutedYesConfirms()
    ensures IsYes(" YES\n")
  {
    StripPadded(" ", "YES", "\n");
    assert " " + "YES" + "\n" == " YES\n";
    assert Strip(" YES\n") == "YES";
    LowerYes();
  }

  lemma LowerYes()
    ensures Lower("YES") == "yes"
  {
    var l := Lower("YES");
    assert LowerChar('Y') == 'y' && LowerChar('E') == 'e' && LowerChar('S') == 's';
    assert l[0] == 'y' && l[1] == 'e' && l[2] == 's';
  }

  lemma SkipDoesNotConfirm()
    ensures !IsYes("skip")
  {
    ConfirmationRule([], "skip", []);
    assert [] + "skip" + [] == "skip";
  }

  /**
   * The manual keep choice: the stripped answer is a 1-based file number;
   * an empty answer, a non-integer or a number out of range keeps file #1.
   */
  function KeepIndex(answer: string, n: nat): (r: nat)
    ensures n > 0 ==> r < n
    ensures Strip(answer) == [] ==> r == 0
    ensures ParseInt(Strip(answer)).None? ==> r == 0
    ensures r != 0 ==> ParseInt(Strip(answer)) == Some(r + 1)
    ensures var v := ParseInt(Strip(answer)); v.Some? && 1 <= v.value <= n ==> r == v.value - 1
  {
    var keepInput := Strip(answer);
    if keepInput == [] then
      assert ParseInt(keepInput) == None by { StripNothing(); }
      0
    else
      match ParseInt(keepInput)
      case None => 0
      case Some(v) => if v - 1 < 0 || v - 1 >= n then 0 else v - 1
  }

  /** Typing the number shown beside a file, `[k]`, keeps exactly that file; any other number keeps file #1. */
  lemma KeepIndexOfTypedNumber(pre: string, k: int, post: string, n: nat)
    requires AllSpace(pre) && AllSpace(post)
    ensures KeepIndex(pre + IntToString(k) + post, n) == if 1 <= k <= n then k - 1 else 0
  {
    var s := IntToString(k);
    IntToStringEnds(k);
    StripPadded(pre, s, post);
    IntToStringRoundTrip(k);
    assert Strip(pre + s + post) == s && ParseInt(s) == Some(k);
  }

  /** The filesystem as the model sees it: existing paths, and two fixed permission facts. */
  datatype Disk = Disk(
    files: set<string>,
    writable: set<string>,   // paths for which `os.access(path, os.W_OK)` holds while they exist
    failing: set<string>)    // paths whose `os.remove` raises (e.g. the directory is read-only)

  /** `os.access(path, os.W_OK)` holds and `os.remove(path)` then succeeds. */
  predicate Removable(disk: Disk, path: string) {
    path in disk.files && path in disk.writable && path !in disk.failing
  }

  class FileSystem {
    var files: set<string>
    const writable: set<string>
    const failing: set<string>

    constructor (files: set<string>, writable: set<string>, failing: set<string>)
      ensures State() == Disk(files, writable, failing)
    {
      this.files := files;
      this.writable := writable;
      this.failing := failing;
    }

    function State(): Disk
      reads this
    {
      Disk(files, writable, failing)
    }

    /** `os.access(path, os.W_OK)`: false for a path that no longer exists. */
    function CanWrite(path: string): (ok: bool)
      reads this
      ensures ok ==> path in files
    {
      path in files && path in writable
    }

    /** `os.remove(path)`; `false` stands for the exception it raises. */
    method Remove(path: string) returns (ok: bool)
      modifies this
      ensures ok == (path in old(files) && path !in failing)
      ensures files == if ok then old(files) - {path} else old(files)
    {
      ok := path in files && path !in failing;
      if ok {
        files := files - {path};
      }
    }
  }

  /** What a run leaves behind: the filesystem, and the removed members in removal order. */
  datatype Outcome = Outcome(disk: Disk, removed: seq<ImageMetadata>)

  /** The removal loop over the first `n` members of group `g`, keeping member `keep`. */
  function SweepGroup(disk: Disk, g: seq<ImageMetadata>, keep: nat, n: nat): (o: Outcome)
    requires n <= |g|
    ensures o.disk.writable == disk.writable && o.disk.failing == disk.failing
    ensures o.disk.files <= disk.files
  {
    if n == 0 then Outcome(disk, [])
    else
      var o := SweepGroup(disk, g, keep, n - 1);
      var m := g[n - 1];
      if n - 1 != keep && Removable(o.disk, m.path) then
        Outcome(o.disk.(files := o.disk.files - {m.path}), o.removed + [m])
      else o
  }

  /** The member kept in one group: the best-scored one, or the one the user named. */
  function KeepFor(g: seq<ImageMetadata>, autoSelectBest: bool, keepAnswer: string): (keep: nat)
    ensures g != [] ==> keep < |g|
  {
    KeeperIsFirstBest(g);
    if autoSelectBest then Keeper(g) else KeepIndex(keepAnswer, |g|)
  }

  /** What happens to one group: skipped (`None`), or processed keeping the given member. */
  function Decide(g: seq<ImageMetadata>, autoSelectBest: bool, groupByGroup: bool, confirm: string, keepAnswer: string): (r: Option<nat>)
    ensures r.None? <==> groupByGroup && !IsYes(confirm)
    ensures r.Some? && g != [] ==> r.value < |g|
  {
    if groupByGroup && !IsYes(confirm) then None else Some(KeepFor(g, autoSelectBest, keepAnswer))
  }

  /** The decisions for all groups, in iteration order. */
  function Plan(groups: seq<seq<ImageMetadata>>, autoSelectBest: bool, groupByGroup: bool,
                confirmAnswers: seq<string>, keepAnswers: seq<string>): (plan: seq<Option<nat>>)
    requires |confirmAnswers| == |groups| && |keepAnswers| == |groups|
    ensures |plan| == |groups|
    ensures forall i :: 0 <= i < |groups| ==>
      plan[i] == Decide(groups[i], autoSelectBest, groupByGroup, confirmAnswers[i], keepAnswers[i])
  {
    seq(|groups|, i requires 0 <= i < |groups| =>
      Decide(groups[i], autoSelectBest, groupByGroup, confirmAnswers[i], keepAnswers[i]))
  }

  /** One group carried out according to its decision. */
  function Apply(disk: Disk, g: seq<ImageMetadata>, decision: Option<nat>): (o: Outcome)
    ensures o.disk.writable == disk.writable && o.disk.failing == disk.failing
    ensures o.disk.files <= disk.files
    ensures decision.None? ==> o == Outcome(disk, [])
  {
    match decision
    case None => Outcome(disk, [])
    case Some(keep) => SweepGroup(disk, g, keep, |g|)
  }

  /** The loop over the first `n` groups, carrying out `plan`. */
  function SweepGroups(disk: Disk, groups: seq<seq<ImageMetadata>>, plan: seq<Option<nat>>, n: nat): (o: Outcome)
    requires n <= |groups| && |plan| == |groups|
    ensures o.disk.writable == disk.writable && o.disk.failing == disk.failing
    ensures o.disk.files <= disk.files
  {
    if n == 0 then Outcome(disk, [])
    else
      var o := SweepGroups(disk, groups, plan, n - 1);
      var og := Apply(o.disk, groups[n - 1], plan[n - 1]);
      Outcome(og.disk, o.removed + og.removed)
  }

  /** A whole run: cancelled up front unless the single confirmation is `yes`. */
  function RemoveAll(disk: Disk, groups: seq<seq<ImageMetadata>>, autoSelectBest: bool, groupByGroup: bool,
                     globalAnswer: string, confirmAnswers: seq<string>, keepAnswers: seq<string>): (o: Outcome)
    requires |confirmAnswers| == |groups| && |keepAnswers| == |groups|
    ensures !groupByGroup && !IsYes(globalAnswer) ==> o == Outcome(disk, [])
  {
    if !groupByGroup && !IsYes(globalAnswer) then Outcome(disk, [])
    else SweepGroups(disk, groups, Plan(groups, autoSelectBest, groupByGroup, confirmAnswers, keepAnswers), |groups|)
  }

  /** `sum(len(group) - 1 for group in duplicates.values())`. */
  function DuplicateCount(groups: seq<seq<ImageMetadata>>): (r: int)
    ensures (forall i :: 0 <= i < |groups| ==> |groups[i]| >= 2) ==> r >= |groups|
  {
    if groups == [] then 0
    else
      var p := groups[..|groups| - 1];
      assert forall i :: 0 <= i < |p| ==> p[i] == groups[i];
      DuplicateCount(p) + |groups[|groups| - 1]| - 1
  }

  /** The sum of `file_size` over `s`. */
  function TotalSize(s: seq<ImageMetadata>): nat {
    if s == [] then 0 else TotalSize(s[..|s| - 1]) + s[|s| - 1].fileSize
  }

  lemma {:induction false} TotalSizeConcat(a: seq<ImageMetadata>, b: seq<ImageMetadata>)
    ensures TotalSize(a + b) == TotalSize(a) + TotalSize(b)
  {
    if b == [] {
      assert a + b == a;
    } else {
      assert (a + b)[..|a + b| - 1] == a + b[..|b| - 1];
      TotalSizeConcat(a, b[..|b| - 1]);
    }
  }

  /**
   * The executor. It returns the logged duplicate count, whether the run was
   * cancelled, and the two totals of the final summary.
   */
  method RemoveDuplicateFiles(fs: FileSystem, duplicates: Duplicates, autoSelectBest: bool, groupByGroup: bool,
                              globalAnswer: string, confirmAnswers: seq<string>, keepAnswers: seq<string>)
    returns (duplicateCount: int, canceled: bool, totalRemoved: nat, totalSpaceSaved: nat)
    requires duplicates.Valid()
    requires |confirmAnswers| == |duplicates.order| && |keepAnswers| == |duplicates.order|
    modifies fs
    ensures duplicateCount == DuplicateCount(duplicates.Groups())
    ensures canceled == (!groupByGroup && !IsYes(globalAnswer))
    ensures var o := RemoveAll(old(fs.State()), duplicates.Groups(), autoSelectBest, groupByGroup,
                               globalAnswer, confirmAnswers, keepAnswers);
      && fs.State() == o.disk
      && totalRemoved == |o.removed|
      && totalSpaceSaved == TotalSize(o.removed)
  {
    var groups := duplicates.Groups();
    duplicateCount := DuplicateCount(groups);
    totalRemoved, totalSpaceSaved := 0, 0;
    canceled := !groupByGroup && !IsYes(globalAnswer);
    if canceled {
      return;
    }
    totalRemoved, totalSpaceSaved := SweepAll(fs, groups, autoSelectBest, groupByGroup, confirmAnswers, keepAnswers);
  }

  /** The executor's outer loop over the groups, once the run is confirmed. */
  method SweepAll(fs: FileSystem, groups: seq<seq<ImageMetadata>>, autoSelectBest: bool, groupByGroup: bool,
                  confirmAnswers: seq<string>, keepAnswers: seq<string>)
    returns (totalRemoved: nat, totalSpaceSaved: nat)
    requires |confirmAnswers| == |groups| && |keepAnswers| == |groups|
    modifies fs
    ensures var o := SweepGroups(old(fs.State()), groups, Plan(groups, autoSelectBest, groupByGroup, confirmAnswers, keepAnswers), |groups|);
      && fs.State() == o.disk
      && totalRemoved == |o.removed|
      && totalSpaceSaved == TotalSize(o.removed)
  {
    totalRemoved, totalSpaceSaved := 0, 0;
    ghost var disk0 := fs.State();
    ghost var plan := Plan(groups, autoSelectBest, groupByGroup, confirmAnswers, keepAnswers);
    ghost var removed: seq<ImageMetadata> := [];
    for gi := 0 to |groups|
      invariant Outcome(fs.State(), removed) == SweepGroups(disk0, groups, plan, gi)
      invariant totalRemoved == |removed| && totalSpaceSaved == TotalSize(removed)
    {
      ghost var before := fs.State();
      var groupCount, groupSpace, groupRemoved :=
        ProcessGroup(fs, groups[gi], autoSelectBest, groupByGroup, confirmAnswers[gi], keepAnswers[gi]);
      assert Outcome(fs.State(), groupRemoved) == Apply(before, groups[gi], plan[gi]) by {
        assert plan[gi] == Decide(groups[gi], autoSelectBest, groupByGroup, confirmAnswers[gi], keepAnswers[gi]);
      }
      SweepGroupsNext(disk0, groups, plan, gi);
      TotalSizeConcat(removed, groupRemoved);
      removed := removed + groupRemoved;
      totalRemoved := totalRemoved + groupCount;
      totalSpaceSaved := totalSpaceSaved + groupSpace;
    }
  }

  /** One more group: the run over `n + 1` groups continues the run over `n` with group `n`. */
  lemma SweepGroupsNext(disk: Disk, groups: seq<seq<ImageMetadata>>, plan: seq<Option<nat>>, n: nat)
    requires n < |groups| && |plan| == |groups|
    ensures var o := SweepGroups(disk, groups, plan, n);
      var og := Apply(o.disk, groups[n], plan[n]);
      SweepGroups(disk, groups, plan, n + 1) == Outcome(og.disk, o.removed + og.removed)
  {
  }

  /** One pass of the executor's outer loop: skip the group, or choose the keeper and remove the rest. */
  method ProcessGroup(fs: FileSystem, dupMetadata: seq<ImageMetadata>, autoSelectBest: bool, groupByGroup: bool,
                      confirm: string, keepAnswer: string)
    returns (removedCount: nat, spaceSaved: nat, ghost groupRemoved: seq<ImageMetadata>)
    modifies fs
    ensures var o := Apply(old(fs.State()), dupMetadata, Decide(dupMetadata, autoSelectBest, groupByGroup, confirm, keepAnswer));
      && fs.State() == o.disk
      && groupRemoved == o.removed
      && removedCount == |o.removed|
      && spaceSaved == TotalSize(o.removed)
  {
    if groupByGroup && !IsYes(confirm) {
      return 0, 0, [];
    }
    var keepIdx: nat;
    if autoSelectBest {
      keepIdx := SuggestBestFile(dupMetadata);
    } else {
      keepIdx := KeepIndex(keepAnswer, |dupMetadata|);
    }
    removedCount, spaceSaved, groupRemoved := RemoveGroupMembers(fs, dupMetadata, keepIdx);
  }

  /** The inner loop of the executor: remove every member of one group except `keepIdx`. */
  method RemoveGroupMembers(fs: FileSystem, dupMetadata: seq<ImageMetadata>, keepIdx: nat)
    returns (removedCount: nat, spaceSaved: nat, ghost groupRemoved: seq<ImageMetadata>)
    modifies fs
    ensures var o := SweepGroup(old(fs.State()), dupMetadata, keepIdx, |dupMetadata|);
      && fs.State() == o.disk
      && groupRemoved == o.removed
      && removedCount == |o.removed|
      && spaceSaved == TotalSize(o.removed)
  {
    ghost var start := fs.State();
    removedCount, spaceSaved, groupRemoved := 0, 0, [];
    for idx := 0 to |dupMetadata|
      invariant fs.State() == SweepGroup(start, dupMetadata, keepIdx, idx).disk
      invariant groupRemoved == SweepGroup(start, dupMetadata, keepIdx, idx).removed
      invariant removedCount == |groupRemoved| && spaceSaved == TotalSize(groupRemoved)
    {
      var metadata := dupMetadata[idx];
      if idx != keepIdx {
        if fs.CanWrite(metadata.path) {
          var ok := fs.Remove(metadata.path);
          if ok {
            removedCount := removedCount + 1;
            spaceSaved := spaceSaved + metadata.fileSize;
            groupRemoved := groupRemoved + [metadata];
          }
        }
      }
    }
  }

  // ---------------------------------------------------------------------
  // What a run does and does not remove.

  /** Every path a sweep of one group removed is the path of one of the members it visited. */
  lemma {:induction false} SweepGroupTouchesOnlyMembers(disk: Disk, g: seq<ImageMetadata>, keep: nat, n: nat, p: string)
    requires n <= |g|
    requires p in disk.files && p !in SweepGroup(disk, g, keep, n).disk.files
    ensures exists j :: 0 <= j < n && j != keep && g[j].path == p
  {
    if n > 0 {
      var o := SweepGroup(disk, g, keep, n - 1);
      if p in o.disk.files {
        assert g[n - 1].path == p;
      } else {
        SweepGroupTouchesOnlyMembers(disk, g, keep, n - 1, p);
      }
    }
  }

  /** No two members of `g` have the same path (true of a scan, which visits each file once). */
  predicate DistinctPaths(g: seq<ImageMetadata>) {
    forall i, j :: 0 <= i < j < |g| ==> g[i].path != g[j].path
  }

  /**
   * With distinct paths, one group's sweep removes exactly the members other
   * than the kept one that were removable to begin with, and nothing else: the
   * kept member's file is untouched, and so is every path outside the group.
   */
  lemma {:induction false} SweepGroupExact(disk: Disk, g: seq<ImageMetadata>, keep: nat, n: nat)
    requires n <= |g| && DistinctPaths(g)
    ensures var o := SweepGroup(disk, g, keep, n);
      forall i :: 0 <= i < n ==>
        (g[i].path in o.disk.files <==> g[i].path in disk.files && (i == keep || !Removable(disk, g[i].path)))
    ensures var o := SweepGroup(disk, g, keep, n);
      forall p :: (forall j :: 0 <= j < n ==> g[j].path != p) ==> (p in o.disk.files <==> p in disk.files)
  {
    if n > 0 {
      SweepGroupExact(disk, g, keep, n - 1);
      var o := SweepGroup(disk, g, keep, n - 1);
      var m := g[n - 1];
      assert m.path in o.disk.files <==> m.path in disk.files;
    }
  }

  /** A member removed by a sweep was removable when it was reached, and is gone afterwards. */
  lemma {:induction false} SweepGroupRemovedWereRemovable(disk: Disk, g: seq<ImageMetadata>, keep: nat, n: nat)
    requires n <= |g|
    ensures var o := SweepGroup(disk, g, keep, n);
      forall m :: m in o.removed ==> Removable(disk, m.path) && m.path !in o.disk.files
  {
    if n > 0 {
      SweepGroupRemovedWereRemovable(disk, g, keep, n - 1);
    }
  }

  /** A member removed by a sweep is one of the members visited, and not the kept one. */
  lemma {:induction false} SweepGroupRemovedMembers(disk: Disk, g: seq<ImageMetadata>, keep: nat, n: nat)
    requires n <= |g|
    ensures forall m :: m in SweepGroup(disk, g, keep, n).removed ==> exists b :: 0 <= b < n && b != keep && g[b] == m
  {
    if n > 0 {
      SweepGroupRemovedMembers(disk, g, keep, n - 1);
    }
  }

  /** Conversely, a sweep over distinct paths removes every member other than the kept one that was removable. */
  lemma {:induction false} SweepGroupRemovesEveryRemovable(disk: Disk, g: seq<ImageMetadata>, keep: nat, n: nat)
    requires n <= |g| && DistinctPaths(g)
    ensures forall i :: 0 <= i < n && i != keep && Removable(disk, g[i].path) ==> g[i] in SweepGroup(disk, g, keep, n).removed
  {
    if n > 0 {
      SweepGroupRemovesEveryRemovable(disk, g, keep, n - 1);
      SweepGroupExact(disk, g, keep, n - 1);
      var o := SweepGroup(disk, g, keep, n - 1);
      var m := g[n - 1];
      assert Removable(disk, m.path) ==> Removable(o.disk, m.path);
    }
  }

  /** A sweep removes at most all members but the kept one. */
  lemma {:induction false} SweepGroupAtMostAllButOne(disk: Disk, g: seq<ImageMetadata>, keep: nat, n: nat)
    requires n <= |g|
    ensures |SweepGroup(disk, g, keep, n).removed| <= if keep < n then n - 1 else n
  {
    if n > 0 {
      SweepGroupAtMostAllButOne(disk, g, keep, n - 1);
    }
  }

  /** Over a whole run, everything removed was removable at the start and no longer exists. */
  lemma {:induction false} SweepGroupsRemovedWereRemovable(disk: Disk, groups: seq<seq<ImageMetadata>>, plan: seq<Option<nat>>, n: nat)
    requires n <= |groups| && |plan| == |groups|
    ensures var o := SweepGroups(disk, groups, plan, n);
      forall m :: m in o.removed ==> Removable(disk, m.path) && m.path !in o.disk.files
  {
    if n > 0 {
      SweepGroupsRemovedWereRemovable(disk, groups, plan, n - 1);
      var o := SweepGroups(disk, groups, plan, n - 1);
      if plan[n - 1].Some? {
        SweepGroupRemovedWereRemovable(o.disk, groups[n - 1], plan[n - 1].value, |groups[n - 1]|);
      } else {
        assert o.removed + [] == o.removed;
      }
    }
  }

  /** Over a whole run, a removed member belongs to a processed group and is not that group's kept member. */
  lemma {:induction false} SweepGroupsRemovedMembers(disk: Disk, groups: seq<seq<ImageMetadata>>, plan: seq<Option<nat>>, n: nat)
    requires n <= |groups| && |plan| == |groups|
    ensures forall m :: m in SweepGroups(disk, groups, plan, n).removed ==>
      exists i, b :: 0 <= i < n && 0 <= b < |groups[i]| && plan[i].Some? && b != plan[i].value && groups[i][b] == m
  {
    if n > 0 {
      SweepGroupsRemovedMembers(disk, groups, plan, n - 1);
      var o := SweepGroups(disk, groups, plan, n - 1);
      var g := groups[n - 1];
      if plan[n - 1].Some? {
        var removedHere := SweepGroup(o.disk, g, plan[n - 1].value, |g|).removed;
        SweepGroupRemovedMembers(o.disk, g, plan[n - 1].value, |g|);
        forall m | m in removedHere
          ensures exists i, b :: 0 <= i < n && 0 <= b < |groups[i]| && plan[i].Some? && b != plan[i].value && groups[i][b] == m
        {
          var b :| 0 <= b < |g| && b != plan[n - 1].value && g[b] == m;
          assert groups[n - 1][b] == m;
        }
      } else {
        assert o.removed + [] == o.removed;
      }
    }
  }

  /** The paths of a sequence of records. */
  function Paths(s: seq<ImageMetadata>): set<string> {
    if s == [] then {} else Paths(s[..|s| - 1]) + {s[|s| - 1].path}
  }

  /** A path is in `Paths(s)` exactly when some entry of `s` has it. */
  lemma {:induction false} PathsMembers(s: seq<ImageMetadata>)
    ensures forall p :: p in Paths(s) <==> exists i :: 0 <= i < |s| && s[i].path == p
  {
    if s != [] {
      var q := s[..|s| - 1];
      PathsMembers(q);
      assert forall i :: 0 <= i < |q| ==> q[i] == s[i];
    }
  }

  lemma {:induction false} PathsConcat(a: seq<ImageMetadata>, b: seq<ImageMetadata>)
    ensures Paths(a + b) == Paths(a) + Paths(b)
  {
    if b != [] {
      var q := b[..|b| - 1];
      PathsConcat(a, q);
      assert (a + b)[..|a + b| - 1] == a + q;
    } else {
      assert a + b == a;
    }
  }

  /** Records on distinct paths are as many as their paths. */
  lemma {:induction false} DistinctPathsCount(s: seq<ImageMetadata>)
    requires DistinctPaths(s)
    ensures |Paths(s)| == |s|
  {
    if s != [] {
      var p, x := s[..|s| - 1], s[|s| - 1];
      assert DistinctPaths(p) by {
        forall i, j | 0 <= i < j < |p| ensures p[i].path != p[j].path {
          assert p[i] == s[i] && p[j] == s[j];
        }
      }
      DistinctPathsCount(p);
      assert x.path !in Paths(p) by {
        PathsMembers(p);
        assert forall i :: 0 <= i < |p| ==> p[i] == s[i];
      }
    }
  }

  /** Two sequences on distinct paths, with no path in common, concatenate into one. */
  lemma DistinctPathsConcat(a: seq<ImageMetadata>, b: seq<ImageMetadata>)
    requires DistinctPaths(a) && DistinctPaths(b) && Paths(a) !! Paths(b)
    ensures DistinctPaths(a + b)
  {
    var s := a + b;
    forall i, j | 0 <= i < j < |s| ensures s[i].path != s[j].path {
      if j < |a| {
        assert s[i] == a[i] && s[j] == a[j];
      } else if |a| <= i {
        assert s[i] == b[i - |a|] && s[j] == b[j - |a|];
      } else {
        assert s[i] == a[i] && s[j] == b[j - |a|];
        PathsMembers(a);
        PathsMembers(b);
        assert s[i].path in Paths(a) && s[j].path in Paths(b);
      }
    }
  }

  /**
   * A sweep counts each deleted file once: the removed members have distinct
   * paths, and those paths are exactly the files that disappeared.
   */
  lemma {:induction false} SweepGroupCountsEachFileOnce(disk: Disk, g: seq<ImageMetadata>, keep: nat, n: nat)
    requires n <= |g|
    ensures var o := SweepGroup(disk, g, keep, n);
      DistinctPaths(o.removed) && Paths(o.removed) == disk.files - o.disk.files
  {
    if n > 0 {
      SweepGroupCountsEachFileOnce(disk, g, keep, n - 1);
      var o := SweepGroup(disk, g, keep, n - 1);
      var m := g[n - 1];
      if n - 1 != keep && Removable(o.disk, m.path) {
        assert (o.removed + [m])[..|o.removed|] == o.removed;
        assert Paths([m]) == {m.path} by { assert [m][..0] == []; }
        assert DistinctPaths([m]);
        DistinctPathsConcat(o.removed, [m]);
      }
    }
  }

  /** The same over a whole run: each deleted file is counted once, and every counted path is a file that disappeared. */
  lemma {:induction false} SweepGroupsCountsEachFileOnce(disk: Disk, groups: seq<seq<ImageMetadata>>, plan: seq<Option<nat>>, n: nat)
    requires n <= |groups| && |plan| == |groups|
    ensures var o := SweepGroups(disk, groups, plan, n);
      DistinctPaths(o.removed) && Paths(o.removed) == disk.files - o.disk.files
  {
    if n > 0 {
      SweepGroupsCountsEachFileOnce(disk, groups, plan, n - 1);
      var o := SweepGroups(disk, groups, plan, n - 1);
      var og := Apply(o.disk, groups[n - 1], plan[n - 1]);
      if plan[n - 1].Some? {
        SweepGroupCountsEachFileOnce(o.disk, groups[n - 1], plan[n - 1].value, |groups[n - 1]|);
      }
      PathsConcat(o.removed, og.removed);
      DistinctPathsConcat(o.removed, og.removed);
    }
  }

  /** No two members of any two groups share a path (each file is scanned once and lands in one group). */
  predicate DistinctAcross(groups: seq<seq<ImageMetadata>>) {
    forall i, j, a, b ::
      0 <= i < |groups| && 0 <= j < |groups| && 0 <= a < |groups[i]| && 0 <= b < |groups[j]| && (i != j || a != b)
      ==> groups[i][a].path != groups[j][b].path
  }

  /** On distinct paths, a path names one record. */
  lemma SamePathSameRecord(s: seq<ImageMetadata>, x: ImageMetadata, y: ImageMetadata)
    requires DistinctPaths(s) && x in s && y in s && x.path == y.path
    ensures x == y
  {
    var i :| 0 <= i < |s| && s[i] == x;
    var j :| 0 <= j < |s| && s[j] == y;
    assert !(i < j) && !(j < i);
  }

  /** A bucket of records on distinct paths is on distinct paths. */
  lemma {:induction false} BucketDistinctPaths(s: seq<ImageMetadata>, k: Identifier)
    requires DistinctPaths(s)
    ensures DistinctPaths(Bucket(s, k))
  {
    if s != [] {
      var p, x := s[..|s| - 1], s[|s| - 1];
      assert DistinctPaths(p) by {
        forall i, j | 0 <= i < j < |p| ensures p[i].path != p[j].path {
          assert p[i] == s[i] && p[j] == s[j];
        }
      }
      BucketDistinctPaths(p, k);
      if GetIdentifier(x) == k {
        var b := Bucket(p, k);
        assert Paths(b) !! Paths([x]) by {
          forall l | 0 <= l < |b| ensures b[l].path != x.path {
            assert b[l] in p;
            var i :| 0 <= i < |p| && p[i] == b[l];
            assert s[i] == b[l] && i < |s| - 1;
          }
          PathsMembers(b);
          assert Paths([x]) == {x.path} by { assert [x][..0] == []; }
        }
        assert DistinctPaths([x]);
        DistinctPathsConcat(Bucket(p, k), [x]);
      }
    }
  }

  /**
   * The groups of a duplicate dictionary built from records on distinct
   * paths share no path: each scanned file lands in exactly one bucket, once.
   */
  lemma FoundGroupsDistinctAcross(s: seq<ImageMetadata>, d: Duplicates)
    requires DistinctPaths(s) && d.Valid()
    requires forall k :: k in d.buckets ==> d.buckets[k] == Bucket(s, k)
    ensures DistinctAcross(d.Groups())
  {
    var gs: seq<seq<ImageMetadata>> := d.Groups();
    forall i, j, a, b |
      0 <= i < |gs| && 0 <= j < |gs| && 0 <= a < |gs[i]| && 0 <= b < |gs[j]| && (i != j || a != b)
      ensures gs[i][a].path != gs[j][b].path
    {
      var x, y := gs[i][a], gs[j][b];
      assert x in Bucket(s, d.order[i]) && y in Bucket(s, d.order[j]);
      if i == j {
        BucketDistinctPaths(s, d.order[i]);
        assert a < b || b < a;
      } else {
        assert d.order[i] != d.order[j] by { assert i < j || j < i; }
        if x.path == y.path {
          SamePathSameRecord(s, x, y);
        }
      }
    }
  }

  /** A run over the first `n` groups leaves alone every path that is not a member of one of them. */
  lemma {:induction false} SweepGroupsUntouched(disk: Disk, groups: seq<seq<ImageMetadata>>, plan: seq<Option<nat>>, n: nat, p: string)
    requires n <= |groups| && |plan| == |groups| && DistinctAcross(groups)
    requires forall i, a :: 0 <= i < n && 0 <= a < |groups[i]| ==> groups[i][a].path != p
    ensures p in SweepGroups(disk, groups, plan, n).disk.files <==> p in disk.files
  {
    if n > 0 {
      SweepGroupsUntouched(disk, groups, plan, n - 1, p);
      var o := SweepGroups(disk, groups, plan, n - 1);
      var g := groups[n - 1];
      if plan[n - 1].Some? {
        assert DistinctPaths(g) by {
          forall a, b | 0 <= a < b < |g| ensures g[a].path != g[b].path {
            assert groups[n - 1][a].path != groups[n - 1][b].path;
          }
        }
        SweepGroupExact(o.disk, g, plan[n - 1].value, |g|);
        assert forall j :: 0 <= j < |g| ==> g[j].path != p;
      }
    }
  }

  /**
   * With distinct paths, a member that the run does not mean to remove (its
   * group is skipped, or it is the kept one) keeps its file, whatever the
   * other groups do.
   */
  lemma {:induction false} SweepGroupsSparesMember(disk: Disk, groups: seq<seq<ImageMetadata>>, plan: seq<Option<nat>>, n: nat, i: nat, a: nat)
    requires n <= |groups| && |plan| == |groups| && DistinctAcross(groups)
    requires i < |groups| && a < |groups[i]| && (plan[i].None? || a == plan[i].value)
    ensures groups[i][a].path in SweepGroups(disk, groups, plan, n).disk.files <==> groups[i][a].path in disk.files
  {
    if n > 0 {
      SweepGroupsSparesMember(disk, groups, plan, n - 1, i, a);
      var o := SweepGroups(disk, groups, plan, n - 1);
      var g := groups[n - 1];
      var p := groups[i][a].path;
      if plan[n - 1].Some? {
        assert DistinctPaths(g) by {
          forall c, d | 0 <= c < d < |g| ensures g[c].path != g[d].path {
            assert groups[n - 1][c].path != groups[n - 1][d].path;
          }
        }
        SweepGroupExact(o.disk, g, plan[n - 1].value, |g|);
        if i == n - 1 {
          assert g[a].path == p;
        } else {
          assert forall j :: 0 <= j < |g| ==> g[j].path != p;
        }
      }
    }
  }

  /** With distinct paths, a spared member is neither counted as removed nor changed on disk. */
  lemma SweepGroupsSparesKept(disk: Disk, groups: seq<seq<ImageMetadata>>, plan: seq<Option<nat>>, i: nat, a: nat)
    requires |plan| == |groups| && DistinctAcross(groups)
    requires i < |groups| && a < |groups[i]| && (plan[i].None? || a == plan[i].value)
    ensures var o := SweepGroups(disk, groups, plan, |groups|);
      && groups[i][a] !in o.removed
      && (groups[i][a].path in o.disk.files <==> groups[i][a].path in disk.files)
  {
    SweepGroupsSparesMember(disk, groups, plan, |groups|, i, a);
    SweepGroupsRemovedMembers(disk, groups, plan, |groups|);
    forall j, b | 0 <= j < |groups| && 0 <= b < |groups[j]| && plan[j].Some? && b != plan[j].value
      ensures groups[j][b] != groups[i][a]
    {
      assert groups[j][b].path != groups[i][a].path;
    }
  }

  /**
   * Over a whole run with distinct paths, every member of a processed group
   * other than its kept one that was removable at the start is removed.
   */
  lemma {:induction false} SweepGroupsRemovesEveryRemovable(disk: Disk, groups: seq<seq<ImageMetadata>>, plan: seq<Option<nat>>, n: nat)
    requires n <= |groups| && |plan| == |groups| && DistinctAcross(groups)
    ensures forall i, a ::
      0 <= i < n && 0 <= a < |groups[i]| && plan[i].Some? && a != plan[i].value && Removable(disk, groups[i][a].path)
      ==> groups[i][a] in SweepGroups(disk, groups, plan, n).removed
  {
    if n > 0 {
      SweepGroupsRemovesEveryRemovable(disk, groups, plan, n - 1);
      var o := SweepGroups(disk, groups, plan, n - 1);
      var g := groups[n - 1];
      if plan[n - 1].Some? {
        var keep := plan[n - 1].value;
        assert DistinctPaths(g) by {
          forall a, b | 0 <= a < b < |g| ensures g[a].path != g[b].path {
            assert groups[n - 1][a].path != groups[n - 1][b].path;
          }
        }
        forall a | 0 <= a < |g| && a != keep && Removable(disk, g[a].path)
          ensures Removable(o.disk, g[a].path)
        {
          SweepGroupsUntouched(disk, groups, plan, n - 1, g[a].path);
        }
        SweepGroupRemovesEveryRemovable(o.disk, g, keep, |g|);
      }
    }
  }

  /** When every kept index is in range, a run removes at most the logged duplicate count. */
  lemma {:induction false} SweepGroupsAtMostDuplicateCount(disk: Disk, groups: seq<seq<ImageMetadata>>, plan: seq<Option<nat>>, n: nat)
    requires n <= |groups| && |plan| == |groups|
    requires forall i :: 0 <= i < |groups| ==> groups[i] != []
    requires forall i :: 0 <= i < |groups| && plan[i].Some? ==> plan[i].value < |groups[i]|
    ensures |SweepGroups(disk, groups, plan, n).removed| <= DuplicateCount(groups[..n])
  {
    if n > 0 {
      SweepGroupsAtMostDuplicateCount(disk, groups, plan, n - 1);
      var o := SweepGroups(disk, groups, plan, n - 1);
      if plan[n - 1].Some? {
        SweepGroupAtMostAllButOne(o.disk, groups[n - 1], plan[n - 1].value, |groups[n - 1]|);
      } else {
        assert o.removed + [] == o.removed;
      }
      assert groups[..n][..n - 1] == groups[..n - 1];
      assert groups[..n][n - 1] == groups[n - 1];
      DuplicateCountNonNegative(groups[..n - 1]);
    }
  }

  /** A run that skips every group removes nothing. */
  lemma {:induction false} NothingPlannedNothingRemoved(disk: Disk, groups: seq<seq<ImageMetadata>>, plan: seq<Option<nat>>, n: nat)
    requires n <= |groups| && |plan| == |groups|
    requires forall i :: 0 <= i < |groups| ==> plan[i].None?
    ensures SweepGroups(disk, groups, plan, n) == Outcome(disk, [])
  {
    if n > 0 {
      NothingPlannedNothingRemoved(disk, groups, plan, n - 1);
      var none: seq<ImageMetadata> := [];
      assert none + none == none;
    }
  }

  /** In group-by-group mode, a run in which no group is confirmed removes nothing. */
  lemma NoConfirmationNoRemoval(disk: Disk, groups: seq<seq<ImageMetadata>>, autoSelectBest: bool,
                                globalAnswer: string, confirmAnswers: seq<string>, keepAnswers: seq<string>)
    requires |confirmAnswers| == |groups| && |keepAnswers| == |groups|
    requires forall i :: 0 <= i < |groups| ==> !IsYes(confirmAnswers[i])
    ensures RemoveAll(disk, groups, autoSelectBest, true, globalAnswer, confirmAnswers, keepAnswers) == Outcome(disk, [])
  {
    var plan := Plan(groups, autoSelectBest, true, confirmAnswers, keepAnswers);
    NothingPlannedNothingRemoved(disk, groups, plan, |groups|);
  }

  /**
   * The summary's totals: the count and the total size of what was removed,
   * bounded by the duplicates found; and everything counted is a member of a
   * confirmed group other than the one kept there.
   */
  lemma RemoveAllAccounting(disk: Disk, groups: seq<seq<ImageMetadata>>, autoSelectBest: bool, groupByGroup: bool,
                            globalAnswer: string, confirmAnswers: seq<string>, keepAnswers: seq<string>)
    requires |confirmAnswers| == |groups| && |keepAnswers| == |groups|
    requires forall i :: 0 <= i < |groups| ==> groups[i] != []
    ensures var o := RemoveAll(disk, groups, autoSelectBest, groupByGroup, globalAnswer, confirmAnswers, keepAnswers);
      && (forall m :: m in o.removed ==> Removable(disk, m.path) && m.path !in o.disk.files)
      && |o.removed| <= DuplicateCount(groups)
    ensures var o := RemoveAll(disk, groups, autoSelectBest, groupByGroup, globalAnswer, confirmAnswers, keepAnswers);
      forall m :: m in o.removed ==>
        exists i, b :: 0 <= i < |groups| && 0 <= b < |groups[i]| && (!groupByGroup || IsYes(confirmAnswers[i]))
          && b != KeepFor(groups[i], autoSelectBest, keepAnswers[i]) && groups[i][b] == m
    ensures var o := RemoveAll(disk, groups, autoSelectBest, groupByGroup, globalAnswer, confirmAnswers, keepAnswers);
      && DistinctPaths(o.removed)
      && Paths(o.removed) == disk.files - o.disk.files
      && |o.removed| == |disk.files - o.disk.files|
  {
    var o := RemoveAll(disk, groups, autoSelectBest, groupByGroup, globalAnswer, confirmAnswers, keepAnswers);
    if groupByGroup || IsYes(globalAnswer) {
      var plan := Plan(groups, autoSelectBest, groupByGroup, confirmAnswers, keepAnswers);
      SweepGroupsCountsEachFileOnce(disk, groups, plan, |groups|);
      SweepGroupsRemovedWereRemovable(disk, groups, plan, |groups|);
      SweepGroupsAtMostDuplicateCount(disk, groups, plan, |groups|);
      RemovedAreNonKept(disk, groups, autoSelectBest, groupByGroup, confirmAnswers, keepAnswers);
    } else {
      assert Paths([]) == {};
    }
    DistinctPathsCount(o.removed);
    assert groups[..|groups|] == groups;
    DuplicateCountNonNegative(groups);
  }

  /** `SweepGroupsRemovedMembers` read through the plan's decisions. */
  lemma RemovedAreNonKept(disk: Disk, groups: seq<seq<ImageMetadata>>, autoSelectBest: bool, groupByGroup: bool,
                          confirmAnswers: seq<string>, keepAnswers: seq<string>)
    requires |confirmAnswers| == |groups| && |keepAnswers| == |groups|
    ensures var plan := Plan(groups, autoSelectBest, groupByGroup, confirmAnswers, keepAnswers);
      forall m :: m in SweepGroups(disk, groups, plan, |groups|).removed ==>
        exists i, b :: 0 <= i < |groups| && 0 <= b < |groups[i]| && (!groupByGroup || IsYes(confirmAnswers[i]))
          && b != KeepFor(groups[i], autoSelectBest, keepAnswers[i]) && groups[i][b] == m
  {
    var plan := Plan(groups, autoSelectBest, groupByGroup, confirmAnswers, keepAnswers);
    SweepGroupsRemovedMembers(disk, groups, plan, |groups|);
    forall m | m in SweepGroups(disk, groups, plan, |groups|).removed
      ensures exists i, b ::
        0 <= i < |groups| && 0 <= b < |groups[i]| && (!groupByGroup || IsYes(confirmAnswers[i]))
        && b != KeepFor(groups[i], autoSelectBest, keepAnswers[i]) && groups[i][b] == m
    {
      var i, b :| 0 <= i < |groups| && 0 <= b < |groups[i]| && plan[i].Some? && b != plan[i].value && groups[i][b] == m;
      assert plan[i] == Decide(groups[i], autoSelectBest, groupByGroup, confirmAnswers[i], keepAnswers[i]);
    }
  }

  /**
   * With distinct paths, a member the run does not mean to remove is not
   * counted and keeps its file: every member after a cancelled run, every
   * member of a group whose confirmation was not `yes`, and the kept member of
   * each processed group.
   */
  lemma RemoveAllSparesKept(disk: Disk, groups: seq<seq<ImageMetadata>>, autoSelectBest: bool, groupByGroup: bool,
                            globalAnswer: string, confirmAnswers: seq<string>, keepAnswers: seq<string>)
    requires |confirmAnswers| == |groups| && |keepAnswers| == |groups|
    requires DistinctAcross(groups)
    ensures var o := RemoveAll(disk, groups, autoSelectBest, groupByGroup, globalAnswer, confirmAnswers, keepAnswers);
      forall i, a ::
        0 <= i < |groups| && 0 <= a < |groups[i]|
        && ((!groupByGroup && !IsYes(globalAnswer)) || (groupByGroup && !IsYes(confirmAnswers[i]))
            || a == KeepFor(groups[i], autoSelectBest, keepAnswers[i]))
        ==> groups[i][a] !in o.removed && (groups[i][a].path in o.disk.files <==> groups[i][a].path in disk.files)
  {
    if groupByGroup || IsYes(globalAnswer) {
      var plan := Plan(groups, autoSelectBest, groupByGroup, confirmAnswers, keepAnswers);
      var o := SweepGroups(disk, groups, plan, |groups|);
      assert RemoveAll(disk, groups, autoSelectBest, groupByGroup, globalAnswer, confirmAnswers, keepAnswers) == o;
      forall i, a |
        0 <= i < |groups| && 0 <= a < |groups[i]|
        && ((groupByGroup && !IsYes(confirmAnswers[i])) || a == KeepFor(groups[i], autoSelectBest, keepAnswers[i]))
        ensures groups[i][a] !in o.removed && (groups[i][a].path in o.disk.files <==> groups[i][a].path in disk.files)
      {
        assert plan[i] == Decide(groups[i], autoSelectBest, groupByGroup, confirmAnswers[i], keepAnswers[i]);
        SweepGroupsSparesKept(disk, groups, plan, i, a);
      }
    }
  }

  /** One member of one planned group, taken out of `SweepGroupsRemovesEveryRemovable`. */
  lemma PlannedRemoval(disk: Disk, groups: seq<seq<ImageMetadata>>, plan: seq<Option<nat>>, i: nat, a: nat)
    requires |plan| == |groups| && DistinctAcross(groups)
    requires i < |groups| && a < |groups[i]| && plan[i].Some? && a != plan[i].value && Removable(disk, groups[i][a].path)
    ensures var o := SweepGroups(disk, groups, plan, |groups|);
      groups[i][a] in o.removed && groups[i][a].path !in o.disk.files
  {
    SweepGroupsRemovesEveryRemovable(disk, groups, plan, |groups|);
    SweepGroupsRemovedWereRemovable(disk, groups, plan, |groups|);
  }

  /**
   * The other half of the accounting: in a confirmed run over distinct paths,
   * each processed group loses every member other than its keeper that was
   * removable at the start, and that member's file is gone.
   */
  lemma RemoveAllRemovesEveryRemovable(disk: Disk, groups: seq<seq<ImageMetadata>>, autoSelectBest: bool, groupByGroup: bool,
                                       globalAnswer: string, confirmAnswers: seq<string>, keepAnswers: seq<string>)
    requires |confirmAnswers| == |groups| && |keepAnswers| == |groups|
    requires DistinctAcross(groups)
    ensures var o := RemoveAll(disk, groups, autoSelectBest, groupByGroup, globalAnswer, confirmAnswers, keepAnswers);
      forall i, a ::
        0 <= i < |groups| && 0 <= a < |groups[i]|
        && (groupByGroup || IsYes(globalAnswer)) && (!groupByGroup || IsYes(confirmAnswers[i]))
        && a != KeepFor(groups[i], autoSelectBest, keepAnswers[i]) && Removable(disk, groups[i][a].path)
        ==> groups[i][a] in o.removed && groups[i][a].path !in o.disk.files
  {
    if groupByGroup || IsYes(globalAnswer) {
      var plan := Plan(groups, autoSelectBest, groupByGroup, confirmAnswers, keepAnswers);
      var o := SweepGroups(disk, groups, plan, |groups|);
      assert RemoveAll(disk, groups, autoSelectBest, groupByGroup, globalAnswer, confirmAnswers, keepAnswers) == o;
      forall i, a |
        0 <= i < |groups| && 0 <= a < |groups[i]| && (!groupByGroup || IsYes(confirmAnswers[i]))
        && a != KeepFor(groups[i], autoSelectBest, keepAnswers[i]) && Removable(disk, groups[i][a].path)
        ensures groups[i][a] in o.removed && groups[i][a].path !in o.disk.files
      {
        assert plan[i] == Some(KeepFor(groups[i], autoSelectBest, keepAnswers[i]));
        PlannedRemoval(disk, groups, plan, i, a);
      }
    }
  }

  lemma {:induction false} DuplicateCountNonNegative(groups: seq<seq<ImageMetadata>>)
    requires forall i :: 0 <= i < |groups| ==> groups[i] != []
    ensures DuplicateCount(groups) >= 0
  {
    if groups != [] {
      DuplicateCountNonNegative(groups[..|groups| - 1]);
    }
  }
}
