/**
 * The commands of beargit over a repository object whose fields are the files
 * of `.beargit` and the working tree. Each command reads and rewrites those
 * fields the way beargit.c reads and rewrites the files, line by line. Each
 * state-changing command (`Init`, `Add`, `Rm`, `Commit`, `Checkout`) is proved
 * to perform its RepoSpec transition (`Commit` performs `MakeCommit`) and to
 * keep `Wf`; the read-only commands return values tied to the fields.
 */
module Beargit {
  import opened CommitIds
  import opened CommitMessage
  import opened Lists
  import opened RepoSpec

  /** The line scan over `.branches`: the position of the last line equal to
      `name`, or -1 when there is none. */
  method GetBranchNumber(branches: seq<string>, name: string) returns (index: int)
    ensures -1 <= index < |branches|
    ensures index == -1 <==> name !in branches
    ensures index >= 0 ==> branches[index] == name && name !in branches[index + 1..]
    ensures index == LastIndexOf(branches, name)
  {
    index := -1;
    var counter := 0;
    while counter < |branches|
      invariant 0 <= counter <= |branches|
      invariant index == LastIndexOf(branches[..counter], name)
    {
      assert branches[..counter + 1][..counter] == branches[..counter];
      if branches[counter] == name {
        index := counter;
      }
      counter := counter + 1;
    }
    assert branches[..counter] == branches;
  }

  /** The walk of `beargit log` over the commit store, from `head`. */
  method WalkLog(commits: map<string, StoredCommit>, head: string, limit: int) returns (r: Outcome, entries: seq<LogEntry>)
    requires ParentsClosed(commits) && IsRef(commits, head)
    ensures r == Err(NoCommits) <==> limit > 0 && head == Sentinel
    ensures r == Err(NoCommits) ==> entries == []
    ensures r == Ok || r == Err(NoCommits)
    ensures r == Ok ==> entries == LogFrom(commits, head, if limit > 0 then limit else 0)
  {
    var previous := head;
    var n := limit;
    ghost var k: nat := if limit > 0 then limit else 0;
    entries := [];
    var i := 0;
    while i < n
      invariant 0 <= i <= k
      invariant IsRef(commits, previous)
      invariant i == 0 ==> previous == head
      invariant i > 0 ==> head != Sentinel
      invariant entries + LogFrom(commits, previous, k - i) == LogFrom(commits, head, k)
    {
      if i == 0 && previous == Sentinel {
        return Err(NoCommits), [];
      } else if i > 0 && previous == Sentinel {
        return Ok, entries;
      }
      var entry := LogEntry(previous, commits[previous].msg);
      var parent := commits[previous].parent;
      LogStep(commits, previous, k - i);
      assert (entries + [entry]) + LogFrom(commits, parent, k - i - 1)
        == entries + ([entry] + LogFrom(commits, parent, k - i - 1));
      entries := entries + [entry];
      previous := parent;
      i := i + 1;
    }
    return Ok, entries;
  }

  /** What `beargit branch` prints for one branch: the checked-out one is marked. */
  function BranchLine(branch: string, current: string): string {
    (if branch == current then "* " else "") + branch
  }

  class Repo {
    var index: seq<string>
    var prev: string
    var currentBranch: string
    var branches: seq<string>
    var heads: map<string, string>
    var commits: map<string, StoredCommit>
    var work: map<string, string>

    function State(): RepoState
      reads this
    {
      RepoState(index, prev, currentBranch, branches, heads, commits, work)
    }

    ghost predicate Valid()
      reads this
    {
      Wf(State())
    }

    /** `beargit init` in a directory whose files are `work`. */
    constructor Init(work0: map<string, string>)
      ensures State() == RepoSpec.Init(work0)
      ensures Valid()
    {
      index := [];
      branches := ["master"];
      prev := Sentinel;
      currentBranch := "master";
      heads := map[];
      commits := map[];
      work := work0;
      InitWf(work0);
    }

    /** `beargit add`: copies the index line by line into a new index and
        appends the path, or stops at a line equal to it. */
    method Add(path: string) returns (r: Outcome)
      requires Valid()
      modifies this
      ensures Valid()
      ensures Step(State(), r) == RepoSpec.Add(old(State()), path)
    {
      AddCorrect(State(), path);
      var newIndex: seq<string> := [];
      var i := 0;
      while i < |index|
        invariant 0 <= i <= |index|
        invariant newIndex == index[..i]
        invariant path !in index[..i]
      {
        if index[i] == path {
          return Err(AlreadyAdded);
        }
        assert index[..i + 1] == index[..i] + [index[i]];
        newIndex := newIndex + [index[i]];
        i := i + 1;
      }
      assert index[..i] == index;
      index := newIndex + [path];
      return Ok;
    }

    /** `beargit status`: the tracked paths in index order, and their number. */
    method Status() returns (tracked: seq<string>, count: int)
      ensures tracked == index
      ensures count == |tracked|
    {
      tracked := [];
      count := 0;
      var i := 0;
      while i < |index|
        invariant 0 <= i <= |index|
        invariant tracked == index[..i]
        invariant count == i
      {
        assert index[..i + 1] == index[..i] + [index[i]];
        tracked := tracked + [index[i]];
        count := count + 1;
        i := i + 1;
      }
      assert index[..i] == index;
    }

    /** `beargit rm`: copies every line but the path into a new index, which
        replaces the old one only when a line was dropped. */
    method Rm(path: string) returns (r: Outcome)
      requires Valid()
      modifies this
      ensures Valid()
      ensures Step(State(), r) == RepoSpec.Rm(old(State()), path)
    {
      var newIndex: seq<string> := [];
      var deleted := false;
      var i := 0;
      while i < |index|
        invariant 0 <= i <= |index|
        invariant newIndex == Without(index[..i], path)
        invariant deleted <==> path in index[..i]
      {
        assert index[..i + 1][..i] == index[..i];
        if index[i] == path {
          deleted := true;
        } else {
          newIndex := newIndex + [index[i]];
        }
        i := i + 1;
      }
      assert index[..i] == index;
      RmCorrect(State(), path);
      if !deleted {
        return Err(NotTracked);
      }
      index := newIndex;
      return Ok;
    }

    /** Reads `.prev` into a fresh buffer and advances it to the id the next
        commit on the current branch takes. */
    method NextIdOfHead() returns (id: string)
      requires Valid() && currentBranch != ""
      ensures id == NewCommitId(State())
      ensures IsCommitId(id) && id != Sentinel
    {
      var n := GetBranchNumber(branches, currentBranch);
      var p := prev;
      var buf := new char[IdLength](k requires 0 <= k < IdLength => p[k]);
      assert buf[..] == p;
      NextCommitId(buf, n);
      id := buf[..];
      NextIdFields(p, n);
    }

    /** The copy loop of a commit: each tracked path whose file exists is
        copied into the new commit directory. */
    method CopyTracked() returns (files: map<string, string>)
      ensures files == Snapshot(work, index)
      ensures forall p :: p in files <==> p in index && p in work
    {
      files := map[];
      var i := 0;
      while i < |index|
        invariant 0 <= i <= |index|
        invariant files == Snapshot(work, index[..i])
      {
        assert index[..i + 1] == index[..i] + [index[i]];
        SnapshotSnoc(work, index[..i], index[i]);
        if index[i] in work {
          files := files[index[i] := work[index[i]]];
        }
        i := i + 1;
      }
      assert index[..i] == index;
    }

    /** `beargit commit -m msg`. */
    method Commit(msg: string) returns (r: Outcome)
      requires Valid()
      modifies this
      ensures Valid()
      ensures Step(State(), r) == MakeCommit(old(State()), msg)
    {
      ghost var s := State();
      MakeCommitWf(s, msg);
      var ok := IsCommitMsgOk(msg);
      if !ok {
        return Err(BadMessage);
      }
      if currentBranch == "" {
        return Err(DetachedHead);
      }
      var id := NextIdOfHead();
      var files := CopyTracked();
      ghost var c := StoredCommit(s.index, s.prev, msg, Snapshot(s.work, s.index));
      assert MakeCommit(s, msg) == Step(s.(commits := s.commits[id := c], prev := id), Ok);
      commits := commits[id := StoredCommit(index, prev, msg, files)];
      prev := id;
      assert State() == s.(commits := s.commits[id := c], prev := id);
      return Ok;
    }

    /** `beargit log`: follows the parents from `prev`, at most `limit` of them. */
    method Log(limit: int) returns (r: Outcome, entries: seq<LogEntry>)
      requires Valid()
      ensures r == Err(NoCommits) <==> limit > 0 && prev == Sentinel
      ensures r == Err(NoCommits) ==> entries == []
      ensures r == Ok || r == Err(NoCommits)
      ensures r == Ok ==> entries == LogFrom(commits, prev, if limit > 0 then limit else 0)
    {
      r, entries := WalkLog(commits, prev, limit);
    }

    /** `beargit branch`: one line per registered branch, in order. */
    method Branch() returns (lines: seq<string>)
      ensures |lines| == |branches|
      ensures forall i :: 0 <= i < |branches| ==> lines[i] == BranchLine(branches[i], currentBranch)
    {
      lines := [];
      var i := 0;
      while i < |branches|
        invariant 0 <= i <= |branches|
        invariant |lines| == i
        invariant forall j :: 0 <= j < i ==> lines[j] == BranchLine(branches[j], currentBranch)
      {
        var line := "";
        if branches[i] == currentBranch {
          line := "* ";
        }
        lines := lines + [line + branches[i]];
        i := i + 1;
      }
    }

    /** The delete loop of a checkout: each tracked path leaves the working tree. */
    method RemoveTracked()
      modifies this`work
      ensures work == Clear(old(work), index)
    {
      var i := 0;
      while i < |index|
        invariant 0 <= i <= |index|
        invariant work == Clear(old(work), index[..i])
      {
        assert index[..i + 1] == index[..i] + [index[i]];
        ClearSnoc(old(work), index[..i], index[i]);
        work := work - {index[i]};
        i := i + 1;
      }
      assert index[..i] == index;
    }

    /** The restore loop of a checkout: each path of the new index whose file
        the target commit holds is copied back into the working tree. */
    method RestoreTracked(files: map<string, string>)
      modifies this`work
      ensures work == old(work) + Snapshot(files, index)
    {
      var i := 0;
      while i < |index|
        invariant 0 <= i <= |index|
        invariant work == old(work) + Snapshot(files, index[..i])
      {
        assert index[..i + 1] == index[..i] + [index[i]];
        SnapshotSnoc(files, index[..i], index[i]);
        if index[i] in files {
          work := work[index[i] := files[index[i]]];
        }
        i := i + 1;
      }
      assert index[..i] == index;
    }

    /** Deletes the tracked files, then restores `target`'s index and files. */
    method CheckoutCommit(target: string)
      requires IsRef(commits, target)
      modifies this
      ensures State() == RepoSpec.CheckoutCommit(old(State()), target)
    {
      RemoveTracked();
      if target == Sentinel {
        index := [];
        prev := target;
        return;
      }
      var c := commits[target];
      index := c.index;
      RestoreTracked(c.files);
      prev := target;
    }

    /** `beargit checkout [-b] arg`: the head of the branch being left is
        saved first, whatever follows. */
    method Checkout(arg: string, newBranch: bool) returns (r: Outcome)
      requires Valid()
      modifies this
      ensures Valid()
      ensures Step(State(), r) == RepoSpec.Checkout(old(State()), arg, newBranch)
    {
      ghost var s := State();
      CheckoutWf(s, arg, newBranch);
      SaveHeadWf(s);
      if currentBranch != "" {
        heads := heads[currentBranch := prev];
      }
      assert State() == SaveHead(s);
      r := SwitchTo(arg, newBranch);
    }

    /** The rest of a checkout: a commit id detaches HEAD at that commit; any
        other argument names a branch, which `-b` creates at `prev`. */
    method SwitchTo(arg: string, newBranch: bool) returns (r: Outcome)
      requires Valid() && forall b :: b in branches ==> b in heads
      modifies this
      ensures Step(State(), r) == Switch(old(State()), arg, newBranch)
    {
      var isId := IsItACommitId(arg);
      if isId {
        if arg !in commits {
          return Err(NoSuchCommit);
        }
        currentBranch := "";
        CheckoutCommit(arg);
        return Ok;
      }
      var number := GetBranchNumber(branches, arg);
      var branchExists := number >= 0;
      if branchExists && newBranch {
        return Err(BranchExists);
      } else if !branchExists && !newBranch {
        return Err(NoSuchBranch);
      }
      if newBranch {
        branches := branches + [arg];
        heads := heads[arg := prev];
      }
      currentBranch := arg;
      CheckoutCommit(heads[arg]);
      return Ok;
    }
  }
}
