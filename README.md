# beargit, modelled in Dafny

beargit is a small single-user version-control tool. Its whole state is a
handful of flat files under `.beargit/`:

- `.index` lists the tracked paths;
- `.prev` holds the id of the commit HEAD stands on, or forty `'0'` before the first commit;
- `.current_branch` names the checked-out branch, or is empty when HEAD is detached;
- `.branches` lists the branch names in creation order;
- `.branch_<name>` holds the head commit of a branch that is not checked out;
- `.beargit/<id>/` holds one commit: a copy of the index, the parent id, the message and copies of the tracked files.

The commands are `init`, `add`, `rm`, `status`, `commit -m`, `log`, `branch` and `checkout [-b]`.

A commit id has 40 symbols over `'6'` = 0, `'1'` = 1 and `'c'` = 2. The first
10 symbols hold the number of the branch the commit was made on, and the last
30 hold a counter. Both are written in base 3, least-significant digit first.
A commit takes its predecessor's counter plus one. A commit message must
contain `GO BEARS!`.

The project has five files:

- `commit_ids.dfy` (module `CommitIds`): the id format and its base-3 arithmetic.
  - `NextCommitIdPart1` and `NextCommitId` update a `char` array in place, as the C code updates its buffer.
  - They are proved against the functions `Encode`, `Decode` and `NextId`.
  - Separate lemmas prove the round trips, injectivity and the sentinel's behaviour.
- `commit_message.dfy` (module `CommitMessage`): the message validator, proved to accept exactly the messages containing the watermark.
- `lists.dfy` (module `Lists`): removal from and last-position search in a list of names.
- `repo_spec.dfy` (module `RepoSpec`): the repository as a value `RepoState`, with one transition per command.
  - The invariant `Wf` says the index and branch list have no duplicates, every head and parent names a stored commit or the sentinel, and so on.
  - Lemmas state what each command does and that it keeps `Wf`.
  - The invariant `HeadsAhead` shows that a commit never overwrites a stored one.
- `repo.dfy` (module `Beargit`): class `Repo`, whose fields are the files above plus the working tree.
  - Each command is a method that rebuilds the index, the working tree and the commit store with loops shaped like the C loops.
  - Each state-changing command (`Init`, `Add`, `Rm`, `Commit`, `Checkout`) is proved to perform its `RepoSpec` transition (`Commit` performs `MakeCommit`) and to keep `Wf`.
  - The read-only commands (`Status`, `Log`, `Branch`) return values tied to the fields.

## Model

| member | source | states |
|---|---|---|
| Beargit.Repo.Init | beargit.c:40-54 | A fresh repository has an empty index, branches `["master"]`, `master` checked out, `.prev` the sentinel and no commits, and it is well formed |
| RepoSpec.InitWf | beargit.c:40-54 | The initial state satisfies the repository invariant |
| RepoSpec.InitHeadsAhead | beargit.c:40-54 | The initial state satisfies the id-freshness invariant |
| Beargit.Repo.Add | beargit.c:69-94 | The line-by-line copy of the index stops with status 3 at a line equal to the path and leaves the index unchanged; otherwise the new index is the old one plus the path. Performs `RepoSpec.Add` and keeps the invariant |
| RepoSpec.AddCorrect | beargit.c:69-94 | A duplicate add returns 3 and changes nothing; otherwise the path is appended, the index stays duplicate-free and nothing but the index changes |
| RepoSpec.AddTwice | beargit.c:69-94 | Adding the same path twice makes the second add fail and leaves the state after the first |
| Beargit.Repo.Status | beargit.c:96-113 | Lists the tracked paths in index order with a count equal to their number |
| Beargit.Repo.Rm | beargit.c:115-143 | The copy loop drops every line equal to the path; the index is replaced only if a line was dropped, else status 1. Performs `RepoSpec.Rm` and keeps the invariant |
| RepoSpec.RmCorrect | beargit.c:115-143 | Removing an untracked path returns 1 and changes nothing; otherwise exactly that entry goes, the others keep their order, and only the index changes |
| RepoSpec.RmUndoesAdd | beargit.c:69-143 | Removing a path just added restores the previous state |
| Lists.Without | beargit.c:122-130 | The filtered list is no longer than the original and holds exactly the original's elements other than the removed one |
| Lists.WithoutOne | beargit.c:122-130 | In a duplicate-free list, filtering out the element at position k leaves the list with only that position cut out |
| Lists.WithoutNoDup | beargit.c:122-130 | Filtering keeps a list duplicate-free |
| Lists.WithoutAbsent | beargit.c:122-130 | Filtering out an absent element changes nothing |
| CommitMessage.IsCommitMsgOk | beargit.c:147-173 | The partial-match scan returns true iff `GO BEARS!` occurs contiguously in the message; the empty message is rejected. The invariant says the matched prefix sits just before `i` and no earlier start matches |
| CommitIds.Decode | beargit.c:180-192 | A string of k symbols decodes to a number below 3^k |
| CommitIds.Encode | beargit.c:195-205 | The encoding has the requested length and uses only `'6'`, `'1'`, `'c'` |
| CommitIds.DecodeEncode | beargit.c:175-207 | Decoding the encoding of n in k digits gives n mod 3^k |
| CommitIds.EncodeDecode | beargit.c:175-207 | Encoding the decoded value of a well-formed digit string gives the string back |
| CommitIds.EncodeInjective | beargit.c:175-207 | Two numbers below 3^k with the same k-digit encoding are equal |
| CommitIds.DecodeAllTwos | beargit.c:180-192 | A segment whose symbols all decode as 2 (such as the sentinel's `'0'`s) decodes to 3^k - 1 |
| CommitIds.IncrementAllTwos | beargit.c:175-207 | A segment whose symbols all decode as 2 holds the largest value 3^k - 1, and incrementing it wraps round to 0, written as all `'6'` |
| CommitIds.DecodeCounter | beargit.c:177-192 | The first loop returns exactly the value of the 30 counter symbols read least-significant first, with `'6'` as 0, `'1'` as 1 and any other symbol as 2 |
| CommitIds.EncodeCounter | beargit.c:194-205 | The second loop writes the lowest 30 base-3 digits of the number into the counter positions, least-significant first, and changes nothing else in the buffer |
| CommitIds.NextCommitIdPart1 | beargit.c:175-207 | Rewrites exactly the 30 counter positions of the buffer with the encoding of the decoded counter plus one (mod 3^30); nothing else in the buffer changes |
| CommitIds.CounterWraps | beargit.c:175-207 | With the counter arithmetic read over unbounded integers, a counter whose symbols all decode as 2 is the largest one, and the next id's counter wraps to 0, written as thirty `'6'` |
| CommitIds.SentinelSuccessor | beargit.c:175-207 | With the counter arithmetic read over unbounded integers, the next counter after the all-`'0'` sentinel is 0: thirty `'6'` |
| CommitIds.SentinelIsNotAnId | beargit.c:407-423 | The sentinel is not a well-formed id |
| CommitIds.NextCommitId | beargit.c:301-317 | Writes the branch number's ten base-3 digits into positions 0-9, then increments the counter; the buffer ends up holding `NextId` of its old contents |
| CommitIds.NextIdFields | beargit.c:301-317 | A generated id is well formed, is not the sentinel, carries the branch number mod 3^10 and the predecessor's counter plus one mod 3^30 |
| CommitIds.DistinctBranchesDistinctIds | beargit.c:301-317 | Distinct branch numbers below 3^10 never produce the same id, whatever the predecessors |
| Beargit.GetBranchNumber | beargit.c:322-339 | Returns -1 iff the name is not registered, and otherwise a position holding the name with no later match |
| Lists.LastIndexOf | beargit.c:322-339 | The result is -1 iff the element is absent; otherwise it holds the element and no later position does |
| Lists.LastIndexOfUnique | beargit.c:322-339 | In a duplicate-free registry the position found is the name's only position |
| Beargit.Repo.NextIdOfHead | beargit.c:216-218 | Copies `.prev` into a fresh buffer and advances it; the result is the id `RepoSpec.NewCommitId` names for the current branch, well formed and not the sentinel |
| Beargit.Repo.CopyTracked | beargit.c:248-256 | Copies every tracked path whose file exists, and only those, into the commit's file map |
| Beargit.Repo.Commit | beargit.c:210-259 | Rejects a bad message, then a detached HEAD, before any write; otherwise stores the new commit and advances `.prev`. Performs `RepoSpec.MakeCommit` and keeps the invariant |
| RepoSpec.StoreCommitWf | beargit.c:229-259 | Storing a commit whose parent is `.prev` under a well-formed id, and moving `.prev` to it, keeps the repository invariant |
| RepoSpec.MakeCommitOutcome | beargit.c:210-228 | A commit succeeds iff the message has the watermark and a branch is checked out; the failures return 1 and change nothing |
| RepoSpec.MakeCommitStores | beargit.c:216-256 | A successful commit stores under a well-formed, non-sentinel id: the current index, the old `.prev` as parent, the message, and each existing tracked file. The id carries the branch's registry position and the incremented counter. `.prev` moves to it, other commits are untouched, and the index, branches, heads and working tree do not change |
| RepoSpec.MakeCommitWf | beargit.c:210-259 | Committing keeps the repository invariant |
| Beargit.Repo.Log | beargit.c:261-296 | Fails iff limit > 0 and `.prev` is the sentinel; otherwise returns the walk of at most `limit` entries from `.prev` |
| Beargit.WalkLog | beargit.c:261-296 | The walk fails iff the limit is positive and the start is the sentinel, returning no entries; otherwise it returns the first `limit` entries of the parent chain (none for a limit of 0 or less) |
| RepoSpec.LogShape | beargit.c:278-293 | The walk has at most k entries; the first is `.prev`; each next one is the stored parent of the one before and carries its stored message; it is shorter than k only where the chain reaches the sentinel |
| Beargit.Repo.Branch | beargit.c:343-361 | One line per registered branch in registry order, the checked-out one marked `* ` |
| Beargit.Repo.CheckoutCommit | beargit.c:365-405 | Deletes the tracked files, then restores the target's index and files and sets `.prev`; performs `RepoSpec.CheckoutCommit` |
| Beargit.Repo.RemoveTracked | beargit.c:367-373 | The delete loop leaves the working tree without every tracked path and with every other file unchanged |
| Beargit.Repo.RestoreTracked | beargit.c:392-399 | The restore loop puts back, over the working tree, the target's copy of each path in the new index that the target holds |
| RepoSpec.CheckoutCommitCorrect | beargit.c:365-405 | After restoring a commit, `.prev` names it and the index is its stored index (empty for the sentinel). Each of its stored files is back in the working tree, and each previously tracked file it does not hold is gone. Untracked files stay, no file appears that was neither in the old working tree nor in the commit, and only index, `.prev` and working tree change |
| RepoSpec.CheckoutCommitWf | beargit.c:365-405 | Restoring a stored commit or the sentinel keeps the invariant |
| CommitIds.IsItACommitId | beargit.c:407-423 | Returns true iff the argument has 40 symbols, all from `'6'`, `'1'`, `'c'` |
| Beargit.Repo.Checkout | beargit.c:425-490 | Saves `.prev` into the current branch's slot, then fails or detaches or attaches as `RepoSpec.Checkout` says, and keeps the invariant |
| Beargit.Repo.SwitchTo | beargit.c:438-490 | After the head is saved: an unstored id, `-b` on a taken name and an unknown name fail; a stored id detaches HEAD there; a branch name (appended with `.prev` as head under `-b`) is attached and its head commit restored. Performs `RepoSpec.Switch` |
| RepoSpec.CheckoutOutcome | beargit.c:425-469 | The head slot of the branch being left always receives `.prev`. The failures are exactly an unstored well-formed id, `-b` on a taken name and an unknown name without `-b`; each returns 1 and changes nothing else |
| RepoSpec.CheckoutDetached | beargit.c:440-451 | Checking out a stored id detaches HEAD at it, deletes the tracked files it does not hold and restores its index and files, leaving branches and commits alone |
| RepoSpec.CheckoutBranch | beargit.c:452-489 | Checking out a branch attaches HEAD to it at the commit its slot names. `-b` appends the name with the old `.prev` as head. The index becomes that commit's stored index, its stored files are back in the working tree, the tracked files it does not hold are gone, and commits are untouched |
| RepoSpec.NewBranchWf | beargit.c:474-482 | Appending a new name with `.prev` as its head and attaching HEAD to it keeps the invariant |
| RepoSpec.SwitchWf | beargit.c:438-490 | Every outcome of the part after saving the head keeps the invariant |
| RepoSpec.CheckoutWf | beargit.c:425-490 | Every checkout, failed or not, keeps the repository invariant |
| RepoSpec.CheckoutRoundTrip | beargit.c:425-490 | Leaving a branch for another and coming back returns HEAD to the same commit, with its index and files restored |
| RepoSpec.CheckoutKeepsCommits | beargit.c:425-490 | No checkout changes the commit store |
| RepoSpec.NextHeadCounter | beargit.c:175-207 | The id issued after a head carries that head's counter plus one (the sentinel counting as -1) while the counter fits |
| RepoSpec.NextBranchNo | beargit.c:301-317 | The id issued for a branch number below 3^10 carries exactly that number |
| RepoSpec.CommitIdIsFresh | beargit.c:210-259 | Under the freshness invariant, and while the counter does not wrap, the id the next commit takes is not yet stored |
| RepoSpec.NextIdOnCurrent | beargit.c:301-317 | The id issued after `.prev` for the checked-out branch's number is not stored, carries that number and the head counter plus one |
| RepoSpec.StoredOnCurrentBound | beargit.c:210-259 | Under the freshness invariant, a stored id numbered for the checked-out branch has a counter no larger than that of `.prev` |
| RepoSpec.MakeCommitKeepsHeadsAhead | beargit.c:210-259 | Committing keeps the freshness invariant while the counter does not wrap |
| RepoSpec.AdvanceKeepsHeadsAhead | beargit.c:229-259 | Storing a fresh id of the checked-out branch whose counter is one past the head's, and moving `.prev` to it, keeps the freshness invariant |
| RepoSpec.MakeCommitGrows | beargit.c:210-259 | A successful commit adds exactly one commit and leaves every stored commit unchanged |
| RepoSpec.SaveHeadSameHeads | beargit.c:432-436 | Saving `.prev` into the current branch's slot moves no branch's head |
| RepoSpec.SaveHeadWf | beargit.c:432-436 | Saving the head keeps the invariant and fills the slot of every registered branch |
| RepoSpec.SaveHeadKeepsHeadsAhead | beargit.c:432-436 | Saving the head keeps the freshness invariant |
| RepoSpec.CheckoutKeepsHeadsAhead | beargit.c:425-490 | Checkout leaves every registered branch at the commit it stood on, and a branch made by `-b` stands at the old `.prev`. So checkout keeps the freshness invariant while `-b` has room for another branch number |
| RepoSpec.SwitchKeepsHeadsAhead | beargit.c:438-490 | After the head is saved, detaching at a stored id, attaching to an existing branch or creating one with `-b` leaves every registered branch where it stood and puts the new branch at `.prev`, so the freshness invariant holds afterwards |
| RepoSpec.SwitchSameHeads | beargit.c:438-490 | After the head is saved, every outcome of a checkout leaves each registered branch at the commit it stood on, and a branch made by `-b` stands at `.prev` |
| RepoSpec.DetachKeepsHeadsAhead | beargit.c:440-451 | Detaching at a stored commit after the head is saved keeps the freshness invariant |
| RepoSpec.AttachKeepsHeadsAhead | beargit.c:469-489 | Attaching to a branch whose head slot is filled keeps the freshness invariant |
| RepoSpec.NewBranchKeepsHeadsAhead | beargit.c:474-489 | Creating a branch at `.prev` and attaching to it keeps the freshness invariant |
| RepoSpec.IndexOpsKeepHeadsAhead | beargit.c:69-143 | add and rm keep the freshness invariant and the commit store |
| RepoSpec.ApplyKeepsHeadsAhead | beargit.c:69-490 | Any one command within the limits keeps the freshness invariant and every stored commit; a successful commit adds exactly one |
| RepoSpec.RunKeepsCommits | beargit.c:69-490 | Over any command sequence within the limits, no stored commit is changed or removed, and the store grows by one per successful commit |
| RepoSpec.CommitsCounted | beargit.c:40-490 | From a fresh repository, the store holds exactly one commit per successful commit command, so no two commits ever share an id |

## Left out

- Printed text is not modelled. `status`, `branch` and `log` return the tracked paths, the branch lines and the (id, message) entries instead of printing them. Every error is an `Outcome` value whose exit code is 3 for a duplicate add and 1 otherwise.
- util.c is not part of this model, so the file primitives are modelled by their effect on the fields:
  - `fs_cp` of a tracked file into a commit copies it only if it exists in the working tree;
  - `fs_rm` deletes a path;
  - each `.newindex`-then-`fs_mv` sequence is one assignment of the index.
- main.c is not part of this model: argument parsing is absent, and the working tree at `init` is a parameter.
- C buffer sizes, `fgets`/`strtok` newline handling and `sprintf` paths are not modelled. Paths and names are assumed to fit their buffers, to be non-empty and to contain no newline, and tracked paths are assumed not to be `.index`, `.prev` or `.msg`: the C code stores a commit's index, parent and message in the same directory as its file copies (beargit.c:236-254), so a tracked file of one of those names overwrites that metadata, which `RepoSpec.MakeCommitStores` keeps apart. `strtok` leaves an empty line as `"\n"`, so the C code never matches an empty path or branch name: a repeated `add ""` or `checkout -b ""` succeeds there, while the model rejects the second one. In particular the 80-byte message buffer of `log` would cut longer messages; the model returns them whole.
- CommitIds.NextCommitIdPart1: does not model the 32-bit `int` arithmetic of `next_commit_id_part1`. Its first loop always runs 30 times, so `base3` passes `INT_MAX` at 3^20 on every call, including the first commit, whatever the digits; that signed overflow is undefined behaviour in C. The model computes with unbounded integers, so it always yields (counter + 1) mod 3^30. Under the usual two's-complement wrap the C code's results differ, starting with the sentinel's successor.
- CommitIds.SentinelSuccessor: holds only when the arithmetic of `next_commit_id_part1` is read with unbounded integers. With 32-bit wrap-around the successor of the sentinel is not thirty `'6'`.
- CommitIds.CounterWraps: holds only when the arithmetic of `next_commit_id_part1` is read with unbounded integers. The C code's 32-bit `num` cannot hold 3^30 - 1, so its counter leaves the `int` range long before the wrap stated here.
- Beargit.Repo.Commit: checks for a detached HEAD before computing the new id. The C code computes the id first, using branch number -1 when detached, and then discards it; the computation has no side effect, so the outcome is the same.
- Beargit.Repo.Log: the guard `fs_check_dir_exists(previous_commit)` tests a path without the `.beargit/` prefix, and the model always takes its body. The `INT_MAX` clamp on the limit changes nothing and is not modelled.
- The freshness lemmas (RepoSpec.CommitIdIsFresh and the lemmas built on it) assume the counter of the head being committed on is below 3^30 - 1, and that a `-b` checkout leaves at most 3^10 branches. These are the limits of the model's unbounded arithmetic. The C code's own limit comes from its 32-bit `int` arithmetic: the counter leaves the `int` range after about 10^9 commits on one line of history, and what it then writes is not modelled.
- Crash atomicity of the multi-file updates, and concurrency, are not modelled.
- `is_commit_msg_ok` restarts a broken partial match at the same character instead of backtracking. `IsCommitMsgOk` proves this never misses an occurrence, because all characters of `GO BEARS!` are distinct.
- `checkout -b` is not a no-op on content: it deletes the tracked files and restores the index and files of `.prev`'s commit (an empty index at the sentinel). Uncommitted additions to the index and unsaved edits of tracked files are therefore dropped. `RepoSpec.CheckoutBranch` states the resulting index and working tree.
