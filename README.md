# anist, modelled in Dafny

anist ("Arc Ninja Stack Tool") manages a stack of commits on top of
`master` that are reviewed one by one in Phabricator. This project models
four parts of it:

- the helpers of `src/anist/utils.py`, which run `git` or `arc` and parse
  what they print;
- the commit-editing workflow of `build/lib/src/commit.py`
  (`edit_nth_commit`);
- the two copies of the diff workflow, `src/anist/diff.py` and the older
  `src/diff.py` (`create_or_update_diff`, `update_diff_stack`,
  `update_diff_command`).

## How the model is built

- `python.dfy` (module `Python`) describes how a Python call ends: `Status`
  is `Return(value)`, `Exit(code)` or `Raise(error)`.
  - `run_command` ends the process with `sys.exit` when a command fails.
    Its `SystemExit` is not caught by the `except Exception` blocks, but a
    `finally` block still runs.
  - A failing command is therefore `Exit(code)` with a non-zero code,
    passed up unchanged.
- `text.dfy` (module `Text`) holds the `str` operations used on command
  output: `strip`, `split(sep)`, `split()`, `lower`, `startswith`, `in` and
  `join`. Each comes with the round trips and shape facts the parsers need.
- `parse.dfy` (module `Parse`) holds the pure half of `utils.py`: functions
  from a command's output to what the Python code computes from it.
- `git.dfy` (module `Git`) is the environment. Class `Repo` has fields for:
  - the stash pool, a sequence of (hash, label);
  - a summary of the working tree (staged, unstaged, untracked, conflicted);
  - the stack of commits on top of `master`, and the checked-out ref;
  - whether a rebase is paused, and the plan the sequence editor hands to
    git;
  - what `arc list` prints (`arcListing`), the review server's view,
    which no command of the workflow changes;
  - `trace`, the list of every command run so far. A `git status` entry
    also records whether the output read listed an unmerged path, and an
    `OSError` of the rebase plan file is recorded as an entry of its own.

  Each method runs one command. Whether it fails is chosen
  nondeterministically. So is whatever git decides on its own: the hash
  of a new stash, the tree after a stash is applied (including a
  conflict), and the new hashes of amended or replayed commits. `Repo.Valid()` records what
  git guarantees about its own output:
  - hashes are 40 lowercase hex digits and distinct;
  - subjects are single lines without surrounding blanks;
  - the checked-out ref is a non-blank word.
- `utils.dfy` (module `Utils`) holds the `utils.py` functions that run
  commands. Each runs its command through `Repo` and is proved against its
  parser in `Parse`. `Quiet(before, after)` says only commands that rewrite
  nothing were appended to the trace.
- `commit.dfy` (module `Commit`) holds `edit_nth_commit`:
  - the rebase-plan loop (lines 74-82) as a method proved against the
    function `RebasePlan`;
  - the state machine: stash, rebase, apply the staged stash, check for
    conflicts, amend and continue, restore, and the `except` path.
- `diff_sync.dfy` (module `DiffSync`) holds the `try` body that both diff
  workflows share. It finds the commit and checks it out, resolves the
  revision ID (the `arc list` mapping first, then the commit's trailer),
  builds and runs `arc diff`, and checks the original branch out again.
  `BodyRan` lists those commands in order, with the ID the body resolves
  (`ResolvedId`). `Processed` says one call's piece of the trace checked
  its commit out and ran `arc diff` exactly when it reported success, and
  `Ran` splits the trace of a stack loop into one such piece per position.
- `anist_diff.dfy` (module `AnistDiff`) models `src/anist/diff.py` as
  written:
  - line 47 passes `staged_only=True` to `stash_changes`, and lines 120
    and 123 pass `keep_index=` to `apply_stash`. Neither function takes
    that keyword, so each call raises `TypeError` before its body runs;
  - with staged changes the call raises before the `try`;
  - with unstaged changes the `finally` block raises, after the `try`
    body has run;
  - the stack loop stops at the first failure.
- `legacy_diff.dfy` (module `LegacyDiff`) models `src/diff.py`:
  - `arc diff` gets `--nolint`;
  - the `finally` block applies the staged stash, then the unstaged one;
  - the stack loop visits every position and tallies successes and
    failures.

Where `stash_changes` meets both kinds of change, the first call stashes
everything tracked and resets the tree. The second call therefore finds a
clean tree and returns `""`. The model keeps this: with both kinds present,
the staged stash reference is `""`, and applying it does nothing. In
`edit_nth_commit` the staged changes are therefore never amended into the
commit: they come back with the unstaged stash, after the rebase.

### Where the written description and the code disagree

The model follows the code in each of these places.

- The description's example edits position 2 of a clean stack of three.
  In that example the rebase plan is `[pick C1, edit C2, pick C3]` and the
  workflow runs to completion. The code differs in two ways:
  - a tree without staged or unstaged changes ends the process with code 0
    before anything is stashed or rebased (`build/lib/src/commit.py:33-35`);
  - the todo list is read for `target^..HEAD` (line 55). The plan
    therefore covers the target and the commits above it, and its first
    line is the only `edit`.
- With only unstaged changes, `edit_nth_commit` never continues the
  rebase. The unstaged stash is applied while the rebase is paused at the
  target.

## Model

| member | source | states |
|---|---|---|
| Parse.HasOutput | src/anist/utils.py:117 | `stdout.strip()` is non-empty exactly when the output has a non-whitespace character |
| Parse.FirstLineEmptyIffBlank | src/anist/utils.py:53-55 | the first piece of `strip().split("\n")` is `""` exactly when the output is blank |
| Parse.LinesOfOutput | src/anist/utils.py:53 | lines printed one per line, without surrounding blanks, split back into the same lines |
| Parse.CommitHashByPosition | src/anist/utils.py:53-65 | the result is line `position-1` of the rev-list exactly when the output is non-blank and 1 <= position <= number of lines; otherwise exit code 1 |
| Parse.AllCommitsInStack | src/anist/utils.py:76-82 | blank rev-list output exits with code 1; otherwise the lines are returned and the first is non-empty |
| Parse.CheckChanges | src/anist/utils.py:96-107 | each flag is true exactly when its `git diff --name-only` output has a non-whitespace character |
| Parse.DropCommitHeaders | src/anist/utils.py:185 | keeps only lines not starting with `commit `, each one taken from the input, and never more lines than the input |
| Parse.DropCommitHeadersAppend | src/anist/utils.py:185 | the filter keeps the order: filtering a concatenation concatenates the filtered parts |
| Parse.FirstMention | src/anist/utils.py:189-194 | the 1-based index of the first subject whose stripped, lower-cased form contains the stripped, lower-cased message; 0 when none does |
| Parse.FindCommitPosition | src/anist/utils.py:173-194 | 0 for an empty message; otherwise the smallest 1-based position among non-header lines that mentions the message, or 0 when none does; the result is in 0..count |
| Parse.FirstDToken | src/anist/utils.py:214-216 | `None` exactly when the line has no `D` followed by a digit; otherwise the longest digit run after the leftmost such `D` |
| Parse.Filing | src/anist/utils.py:214-224 | when a line is filed, its position is what the message search gives for the text after the first `:`, lies in 1..count, and its value is a `D<digits>` token |
| Parse.DiffIdMapRange | src/anist/utils.py:211-224 | every key of the mapping is a stack position in 1..count and every value a `D<digits>` token |
| Parse.DiffIdMapKeys | src/anist/utils.py:222-224 | every key is the position that some line of `arc list` was filed under |
| Parse.DiffIdMapLastWins | src/anist/utils.py:223-224 | the value under a position is the token of the last line filed under it: later lines overwrite earlier ones |
| Parse.NoColonFilesNothing | src/anist/utils.py:219-224 | a line without `:` has an empty message and leaves the mapping unchanged |
| Parse.TrailerMatchFrom | src/anist/utils.py:242 | the match of `Differential Revision:.*(D\d+)`: the first trailer occurrence with a token later on its line, and the last token on that line |
| Parse.FindDiffIdInCommit | src/anist/utils.py:242-245 | the result, when there is one, is a `D<digits>` token |
| Parse.FindDiffIdInCommitSpec | src/anist/utils.py:242-245 | `None` exactly when no `D<digits>` follows `Differential Revision:` on the same line; otherwise the token the greedy match picks |
| Parse.HasMergeConflicts | src/anist/utils.py:262-263 | true exactly when some line of the status starts with `UU`, `AA` or `DD` |
| Parse.ConflictLinesAreLineStarts | src/anist/utils.py:263 | checking each piece of `split("\n")` agrees with checking each line start of the text |
| Utils.GetCurrentBranch | src/anist/utils.py:37-42 | runs `git rev-parse --abbrev-ref HEAD` and returns the branch name, or `HEAD` when detached; nothing else changes |
| Utils.GetCommitHashByPosition | src/anist/utils.py:45-65 | for 1 <= position <= N returns the hash of commit `position` (1 = first after master); outside that range, or on an empty stack, the process exits |
| Utils.GetAllCommitsInStack | src/anist/utils.py:68-82 | returns the stack's hashes, oldest first; an empty stack ends the process |
| Utils.CheckChanges | src/anist/utils.py:90-107 | runs the cached diff, then the worktree diff, and returns (staged, unstaged) of the tree; the repository is unchanged |
| Utils.StashChanges | src/anist/utils.py:110-134 | returns `""` with nothing changed when the status is blank or nothing tracked can be stashed; otherwise the stash is stored under the label before the hard reset, the hash is returned, and the tree is never reset unless the stash was stored |
| Utils.CreateAndStore | src/anist/utils.py:120-134 | `stash create` gives `""` exactly when nothing tracked changed; otherwise the created hash is stored on top of the pool and the tree reset |
| Utils.StoreAndReset | src/anist/utils.py:128-134 | `stash store` then `reset --hard`: on success the pool gains the entry in front and the tree is reset; a failure leaves the tree as it was |
| Utils.FindStashIndex | src/anist/utils.py:151-156 | the loop returns the second whitespace-separated field of the first line that is non-empty, contains the reference and has at least two fields; none when no line does |
| Utils.StashListPick | src/anist/utils.py:146-156 | on `git stash list` output the scan picks `stash@{k}` for the first entry k whose line contains the reference |
| Utils.LookUpStash | src/anist/utils.py:146-157 | runs `git stash list` and returns the reference of the first matching entry, or none |
| Utils.ApplyNamed | src/anist/utils.py:146-165 | for a non-empty reference: true exactly when some entry's line contains it, and then only the first such entry is applied and removed; false leaves everything unchanged; an exit leaves the pool as it was, with a stash command last in the trace |
| Utils.ApplyAndDrop | src/anist/utils.py:158-161 | applies then drops exactly entry k; the other entries keep their order |
| Utils.ApplyStash | src/anist/utils.py:137-165 | `""` gives false and runs nothing; otherwise true exactly when some entry's line contains the reference, and then only the first such entry is applied and removed; false leaves everything unchanged |
| Utils.ApplyFindsNewStash | src/anist/utils.py:151-161 | a stash just stored on top is the one its hash finds, and dropping it gives back the old pool |
| Utils.ApplyIfStashed | build/lib/src/commit.py:131-134 | applies the stash only when there is one; `applied` is what was applied, it returns exactly when that is everything asked for, the pool is the old one with `applied` applied, and an exit comes from a stash command, the last one run |
| Utils.AfterAppliesAppend | build/lib/src/commit.py:99-134 | applying one list of stashes and then another leaves the pool that applying both in order leaves |
| Utils.RestoredToBase | src/diff.py:115-122 | the stashes of a stash phase, applied staged first (src/diff.py) or unstaged first (build/lib/src/commit.py:141-148), take the pool back to what it was before the phase |
| Utils.FindCommitPositionByMessage | src/anist/utils.py:168-197 | an empty message gives 0 without running anything; otherwise the message search over `rev-list --format=%s` |
| Utils.PositionOnStack | src/anist/utils.py:182-194 | on the stack's own listing the search is the first-mention search over the subjects |
| Utils.GetDiffIds | src/anist/utils.py:200-229 | on a normal end `arc list` ran first and then only the message search, and the result is the mapping built from the listing and the stack (`ArcIds`); nothing else changes |
| Utils.FileArcLines | src/anist/utils.py:211-224 | the loop over the lines yields exactly the mapping `DiffIdMap` specifies |
| Utils.FileArcLine | src/anist/utils.py:213-224 | one line's token and position, as `Filing` gives them |
| Utils.DiffIdMapStep | src/anist/utils.py:212-224 | one more line updates the mapping by its filing, if it has one |
| Utils.FindDiffIdInCommit | src/anist/utils.py:232-247 | runs `git log -1 <hash>`; any result is a `D<digits>` token, and for a commit on the stack it is the trailer token of that commit's message |
| Utils.GetCommitMessage | src/anist/utils.py:250-257 | runs `git log -1 --format=%s` and returns the commit's subject |
| Utils.HasMergeConflicts | src/anist/utils.py:260-263 | runs `git status --porcelain` and returns whether the tree has conflicts; the status entry in the trace says unmerged paths were listed exactly when the call returned true; nothing else changes |
| Commit.RebasePlan | build/lib/src/commit.py:74-82 | the plan has one entry per non-header line, in order, each prefixed `edit ` when it contains the target and `pick ` otherwise |
| Commit.RebasePlanAppend | build/lib/src/commit.py:74-82 | one more todo line adds nothing for a header and one marked line otherwise |
| Commit.BuildRebasePlan | build/lib/src/commit.py:74-82 | the append loop builds exactly `RebasePlan` |
| Commit.TodoListingLines | build/lib/src/commit.py:62-71 | the `target^..HEAD` listing, stripped and split, gives back its lines |
| Commit.TodoListingHeaders | build/lib/src/commit.py:62-78 | dropping the `commit <hash>` headers of that listing leaves one `%H %s` line per commit, in order |
| Commit.TargetInTodoLine | build/lib/src/commit.py:79 | a `%H %s` line contains the target hash exactly when it is the target's own line, if no subject contains that hash |
| Commit.PlanEditsTargetOnly | build/lib/src/commit.py:55-82 | with distinct hashes and no subject containing the target, the plan has one entry per commit from the target up, and only the first (the target) is `edit` |
| Commit.StashForEdit | build/lib/src/commit.py:37-47 | unstaged changes are stashed first; with both kinds the second stash is `""`; each stash lands on top of the pool under its label and the tree is reset |
| Commit.PlanStopsAtTarget | build/lib/src/commit.py:55-96 | the plan written for the commits from the target up makes `git rebase -i` stop at the target, whatever the later subjects contain |
| Commit.StartRebase | build/lib/src/commit.py:51-96 | an out-of-range position exits with nothing changed; on success HEAD is detached at the target with the rebase paused and the checked-out ref kept for its end, `master..HEAD` ends at the target, the plan is the one for that position, and exactly rev-list, the todo listing and `rebase -i target^` ran; otherwise only the plan changed or the rebase already stopped at the target; nothing is amended; the trace begins with rev-list and records a plan-file `OSError` exactly when one was raised |
| Commit.LaunchRebase | build/lib/src/commit.py:58-96 | on success the target is on the stack, the plan is built from the listing of the commits from the target up, the rebase is paused with HEAD detached at the target, and exactly that listing and `rebase -i target^` ran; nothing is amended; a plan-file `OSError` is recorded in the trace exactly when one is raised |
| Commit.WritePlan | build/lib/src/commit.py:58-85 | on success the target is on the stack and the plan handed to git is the one built from the listing of the commits from the target up; only the plan changes; an `OSError` from creating or writing the plan file is recorded in the trace, after the listing when it ran |
| Commit.FillPlan | build/lib/src/commit.py:61-85 | once the plan file exists: on success the plan is the one built from the listing of the commits from the target up; exactly that listing ran, followed by an `OSError` entry exactly when the write raised |
| Commit.PlanFileFlags | build/lib/src/commit.py:58-85 | a plan file that raised leaves nothing amended, the `OSError` recorded and no conflicting status |
| Commit.RunRebase | build/lib/src/commit.py:93-96 | runs `git rebase -i base`; unless it exits, the rebase is paused at the commit of the plan's first `edit` line with HEAD detached there (unchanged when the plan has none); an exit changes nothing; an `OSError` from removing the plan file is recorded after the rebase, and the plan is kept |
| Commit.FinishEdit | build/lib/src/commit.py:99-134 | the pool is the old one with exactly `applied` applied; without staged changes nothing is amended and the rebase stays paused; a conflict means staged changes, an exit with nothing amended, and exit 1 once the staged and unstaged stashes were both applied; on success the staged stash then the unstaged one were applied, and with staged changes the rebase ran to its end: the amend is in the trace, the original ref is checked out again, and the commits from the target on are rewritten with their subjects; `conflict` holds exactly when the trace records a `git status` that listed an unmerged path (`Flagged`) |
| Commit.FinishStaged | build/lib/src/commit.py:99-134 | the same outcomes as `FinishEdit` when there are staged changes; `conflict` holds exactly when the trace records a `git status` that listed an unmerged path (`Flagged`) |
| Commit.AmendStaged | build/lib/src/commit.py:99-128 | on a conflict nothing is amended, the rebase is where it was, and the process exits (with 1 once the unstaged stash was also applied); on success exactly the staged stash was applied, the amend is in the trace and the rebase ran to its end; `conflict` holds exactly when the trace records a `git status` that listed an unmerged path (`Flagged`) |
| Commit.CheckAndAmend | build/lib/src/commit.py:103-128 | after the staged stash the status is read: a tree with unmerged paths leads to an exit without amending (exit 1 once the unstaged stash is applied), and `conflict` holds exactly when the recorded status listed one; no conflict leads to add, amend and continue, which end the rebase on success and leave it where it was otherwise |
| Commit.ApplyOnConflict | build/lib/src/commit.py:104-117 | on a conflict the unstaged stash is applied if there is one, then the process exits 1; a different exit comes from a stash command; nothing is amended |
| Commit.AmendAndContinue | build/lib/src/commit.py:119-128 | on success exactly `add -u`, `commit --amend --no-edit` and `rebase --continue` ran, and the rebase ran to its end: the original ref is checked out again, the commits below the target are kept and every subject is kept; on failure the rebase is still paused at the (possibly amended) commit |
| Commit.AddAndAmend | build/lib/src/commit.py:119-124 | `add -u` then `commit --amend`: the rebase stays paused, HEAD is at the commit it was detached at, which may now have a new hash but keeps its subject |
| Commit.ContinueFinishes | build/lib/src/commit.py:119-128 | an amend that kept the rebase where it was, followed by a continue that replays the commits above, is a rebase that ran to its end |
| Commit.RestoreAfterError | build/lib/src/commit.py:138-151 | after an error the unstaged stash and then the staged one are applied and the process exits 1; the pool is the old one with exactly `applied` applied, and a shorter list means a stash command failed last |
| Commit.EditNthCommit | build/lib/src/commit.py:20-151 | a clean tree exits 0 after the two diff checks and changes nothing; once the stashes were made the pool is the stashed one with exactly `applied` applied; success needs a valid position, leaves the plan for that position, applies the staged then the unstaged stash and restores the pool, and amends and ends the rebase (staged) or leaves it paused at the target (unstaged only); a conflict means staged changes and an exit with the rebase paused; past the stash phase (`edited`, which rewrote nothing) the trace begins with rev-list, records a conflicting status exactly when `conflict` and a plan-file `OSError` exactly when `failed`, and a failure with fewer stashes applied ends with a failing stash command |
| Commit.EditWithChanges | build/lib/src/commit.py:37-151 | stash, then edit; the same outcomes as the whole workflow once changes were found, with the pool after the stash phase named; past the stash phase (`edited`, which rewrote nothing) the trace begins with rev-list, records a conflicting status exactly when `conflict` and a plan-file `OSError` exactly when `failed`, and a failure with fewer stashes applied ends with a failing stash command |
| Commit.EditStashed | build/lib/src/commit.py:49-151 | the `try` body and its `except`: an out-of-range position exits before anything is applied; after an error at most the unstaged then the staged stash are applied, and exit 1 with the pool restored follows when both were; success applies the staged stash, then the unstaged one, and restores the pool; the trace begins with rev-list, records a conflicting status exactly when `conflict` and a plan-file `OSError` exactly when `failed`, and a failure with fewer stashes applied ends with a failing stash command |
| Commit.RestoreStarted | build/lib/src/commit.py:138-151 | after starting the rebase raised `OSError`: at most the unstaged then the staged stash are applied and the process exits, with 1 and the pool as before the stash phase when both were; HEAD is where it was or paused at the target; the error stays recorded and nothing is amended |
| Commit.EditStopped | build/lib/src/commit.py:98-134 | with the rebase paused at the target: the same outcomes as `FinishEdit`, stated with the pool before the stash phase and the target's position on the stack; `conflict` holds exactly when the trace records a `git status` that listed an unmerged path (`Flagged`) |
| DiffSync.ArcDiffArgv | src/anist/diff.py:88-97 | `arc diff HEAD~1`, with `--nolint` in the legacy copy, then `--update <id>` only in update mode and `--message <m>` only for a non-empty message |
| DiffSync.BuildArcDiffCommand | src/anist/diff.py:88-97 | the list built and then extended in place equals `ArcDiffArgv` |
| DiffSync.ReadTarget | src/anist/diff.py:51-59 | the hash at the position, its subject, and the current branch, read without changing anything |
| DiffSync.ReadSubjectAndBranch | src/anist/diff.py:55-59 | reads the subject and the current branch; the result is the branch |
| DiffSync.CheckoutCommit | src/anist/diff.py:62-63 | on success the target commit is checked out and the visible stack ends at it; a failure changes nothing |
| DiffSync.LocateTarget | src/anist/diff.py:51-63 | finds the target, remembers the branch and checks the target out; an out-of-range position exits before any `arc diff` |
| DiffSync.ResolveDiffId | src/anist/diff.py:66-78 | on a normal end `arc list` ran first, then only the message search; the ID is the one the mapping built from the listing and the stack files under the position, otherwise the trailer of the commit's message (`ResolvedId`), and `git log` ran exactly when the mapping had no entry; any ID is a `D<digits>` token and nothing else changes |
| DiffSync.ReadTrailerUnlessFound | src/anist/diff.py:76-78 | the trailer is read only when the mapping gave no ID |
| DiffSync.DiffTarget | src/anist/diff.py:49-111 | on a normal end the position is valid and the commands are, in order: rev-list, log, rev-parse and checkout of the target, then `arc diff` in create mode, or else `arc list`, the message search, `git log` only when the mapping has no entry, and `arc diff` exactly when an ID was resolved; last the original branch; the reported ID is the mapping's, else the trailer's; true means `arc diff` ran with `ArcDiffArgv` for that ID; `master..HEAD` only shrinks |
| DiffSync.SendDiff | src/anist/diff.py:65-111 | create mode sends without an ID and returns true; update mode resolves the ID first, mapping before trailer, and the commands that ran are exactly those `Sent` lists |
| DiffSync.UpdateDiff | src/anist/diff.py:65-111 | update mode: the ID is the mapping's when the position is in it, else the trailer's; the result is true exactly when an ID was found, and then `arc diff` ran with it; the commands are exactly those `Sent` lists |
| DiffSync.SendAfterQuiet | src/anist/diff.py:88-111 | exactly `arc diff` (when there is an ID) and the checkout of the branch are appended; the report also covers the commands that ran before, since none of them rewrote anything |
| DiffSync.SendOrGoBack | src/anist/diff.py:80-111 | without an ID only the original branch is checked out and the result is false; with one, `arc diff` runs with `ArcDiffArgv` and then the checkout; those are the only commands appended |
| DiffSync.GoBack | src/anist/diff.py:80-85 | checks the original branch out and reports false |
| DiffSync.RunArcDiff | src/anist/diff.py:99-111 | runs `arc diff` with `ArcDiffArgv`, then checks the original branch out and reports true |
| DiffSync.ReportedAfterQuiet | src/anist/diff.py:49-111 | a report stays valid when commands without `arc diff` ran before it |
| DiffSync.RanStep | src/anist/diff.py:146-161 | a run of calls over positions 1..k, followed by a call that processed the commit at position k+1, is a run over positions 1..k+1 |
| AnistDiff.CreateOrUpdateDiff | src/anist/diff.py:21-123 | staged changes raise `TypeError` before the `try` with nothing rewritten; unstaged changes let the body run and the `finally` raise `TypeError`, leaving the stash in the pool; a clean tree returns what the body gave; whenever the body returned, it ran after the two change checks exactly the commands `BodyRan` lists for the position (ID from the `arc list` mapping, else the trailer) |
| AnistDiff.TryDiff | src/anist/diff.py:49-123 | the body's outcome is replaced by `TypeError` exactly when unstaged changes were stashed; a returning body ran the commands `BodyRan` lists |
| AnistDiff.StashForDiff | src/anist/diff.py:36-47 | the unstaged changes are stashed under `anist_unstaged_changes_diff`; staged changes raise `TypeError` |
| AnistDiff.UpdateDiffStack | src/anist/diff.py:126-165 | positions 1..N in order, stopping at the first false: the successes equal the positions before the failure, with at most one failure, and call `j` processed the commit at position `j+1` (`Ran`) |
| AnistDiff.DiffEach | src/anist/diff.py:144-161 | the loop over positions 1..n with early return at the first false; the trace splits into one processed call per outcome, in position order |
| AnistDiff.DiffNext | src/anist/diff.py:150-152 | the next call extends the run of calls by the one for the next position |
| AnistDiff.StopsAtFirstFailure | src/anist/diff.py:146-161 | the tally of the loop means every call but the last succeeded, and the loop ended early only after a failure |
| AnistDiff.DiffStep | src/anist/diff.py:152 | one call of the loop: it keeps the stack, starts with the staged-changes check, and when it returns the position was valid and its commit was checked out, with `arc diff` run exactly when it reported true (`Processed`) |
| AnistDiff.UpdateDiffCommand | src/anist/diff.py:168-183 | with `full_stack` the stack loop runs (it starts with rev-list), its calls processed positions 1, 2, ... in order, and it stopped only at a failure; otherwise exactly one call ran and processed the commit at `position` |
| LegacyDiff.Restores | src/diff.py:115-122 | the stashes the `finally` block applies: the staged one first, then the unstaged one |
| LegacyDiff.CreateOrUpdateDiff | src/diff.py:20-122 | never raises; once the `try` is reached the pool is the stashed one with exactly `applied` applied, staged stash first; when both applies return, the result is the body's and the pool is as before the call; otherwise the process exits and a stash command ran last; a returning body ran, after quiet commands, exactly the commands `BodyRan` lists, with `--nolint` |
| LegacyDiff.DiffWithChanges | src/diff.py:38-122 | stash, then the `try` body and its `finally`, with the same outcomes |
| LegacyDiff.StashForDiff | src/diff.py:38-46 | the unstaged stash first, then the staged one; with both kinds the staged reference is `""` |
| LegacyDiff.StashStaged | src/diff.py:43-46 | the staged changes are stashed when there are any, on top of what the first stash left |
| LegacyDiff.TryAndRestore | src/diff.py:48-122 | the body's outcome stands exactly when both stashes were applied back, and then the pool is what it was before stashing; a failing apply replaces it with an exit |
| LegacyDiff.RestoreStashes | src/diff.py:115-122 | applies the staged stash, then the unstaged one; returns exactly when both were applied, and then the pool is the one before the stash phase |
| LegacyDiff.CountTrue | src/diff.py:151-154 | the number of successes is at most the number of calls, and equals it exactly when every call succeeded |
| LegacyDiff.UpdateDiffStack | src/diff.py:125-158 | every position 1..N is processed, in order (`Ran`); successes count the true outcomes and successes + failures = N |
| LegacyDiff.TallyEach | src/diff.py:142-154 | the loop over all positions: successes = true outcomes, successes + failures = n, and the trace splits into one processed call per position |
| LegacyDiff.TallyNext | src/diff.py:149-151 | the next call extends the run of calls by the one for the next position |
| LegacyDiff.DiffStep | src/diff.py:151 | one call of the loop: it never raises, keeps the stack, and when it returns it processed the commit at `position` (`Processed`) |
| LegacyDiff.UpdateDiffCommand | src/diff.py:161-177 | with `full_stack` the loop processed every position 1..N in order; otherwise exactly one call ran and processed the commit at `position` |

## Left out

- Printing, and the quiet mode of `src/anist/state.py`. Neither influences
  any decision.
- `src/anist/cli.py` and `main.py`. They only dispatch arguments.
- `run_command` itself (src/anist/utils.py:14-34). It becomes one `Repo`
  method per command. Each either returns its output or ends the process
  with a non-zero code.
- What git and arc do internally: the three-way merge of `stash apply`,
  file contents, and how `arc` files revisions. The hash `stash create`
  prints and the tree after an apply are nondeterministic choices inside
  `Repo`. A conflicting `git stash apply` exits non-zero, so the process
  ends; `has_merge_conflicts` (build/lib/src/commit.py:104) is reached
  only after an apply that git reported as successful. The model lets
  that tree hold unmerged paths too, which allows more than git does; the text of `arc list` is a
  field of it. The rebase
  engine is summarized by what the workflow relies on: `rebase -i` stops
  at the commit of the plan's first `edit` line, `commit --amend` gives
  that commit a new hash and keeps its subject, and `rebase --continue`
  replays the commits above it (possibly with new hashes) and checks the
  original ref out again. Conflicts while replaying are not modelled.
- Git.Repo.Amend: amending with HEAD on a commit outside `master..HEAD`
  (a checked-out branch tip, say) changes only the tree; the workflow
  amends only while a rebase is paused at a stack commit.
- The exit code of a failing command is git's or arc's; the model only
  says it is non-zero.
- The temporary plan file and `GIT_SEQUENCE_EDITOR`
  (build/lib/src/commit.py:58-96). Only the plan's content is kept, as the
  `Repo` field the next `rebase -i` reads. Creating, writing or removing
  the file either succeeds or raises `OSError`, which the trace records.
- Python's `re` module. The two patterns are written out by hand:
  `D(\d+)` is `FirstDToken`, and `Differential Revision:.*(D\d+)` is
  `TrailerMatchFrom`.
- Parse.FirstDToken: Python's `\d` also matches non-ASCII Unicode
  digits; the model accepts `0`-`9` only.
- Parse.TrailerMatchFrom: the same restriction of `\d` to `0`-`9`.
- Unicode case mapping. `lower` maps `A`-`Z` only.
- `src/utils.py`, which `src/diff.py` and `build/lib/src/commit.py` import,
  is not part of this model. Both are modelled with the helpers of
  `src/anist/utils.py`, which they call by the same names and arguments.
- `get_commit_count_in_stack` (src/anist/utils.py:84-86). No modelled code
  calls it.
- The `except` branches of `apply_stash`, `find_commit_position_by_message`,
  `get_diff_ids`, `find_diff_id_in_commit` and `get_commit_message`, and
  the one at src/diff.py:112-114. Their `try` bodies only run commands and
  pure string code. The model assumes that `git` and `arc` are installed:
  `run_command` turns a failing command into the end of the process, but
  it catches only `CalledProcessError`, so a missing executable raises
  `FileNotFoundError` and these branches would catch it (`get_diff_ids`
  would return `{}`, and src/diff.py:112-114 would return False). That
  case is not modelled.
- The `if not commits` branches of both `update_diff_stack`. An empty stack
  already ends the process inside `get_all_commits_in_stack`.
- AnistDiff.DiffStep: states what one loop call processed (`Processed`)
  rather than every outcome of `AnistDiff.CreateOrUpdateDiff`, whose
  contract carries the rest.
- LegacyDiff.DiffStep: states what one loop call processed, as above; the
  rest is on `LegacyDiff.CreateOrUpdateDiff`.
- Git.Repo.Continue: the rebase always runs to its end. When a later todo
  line also contains the target hash (a subject that quotes it), that line
  is `edit` as well and git stops there again, so `edit_nth_commit` returns
  with the rebase still paused; the model does not capture that second
  stop. `PlanEditsTargetOnly` states when the target is the only `edit`.
- Git.Repo.Continue: when the rebase started on a detached HEAD, git
  leaves HEAD at the rewritten tip; the model checks out the hash recorded
  when the rebase started (`rebaseHead`), which is the commit from before
  the rewrite.
- Stashes left behind: when the process ends (or, in `src/anist/diff.py`,
  raises) after a stash was stored but before it is applied back, the
  stash stays in the pool. The contracts say so; nothing recovers it.
- The ghost outputs (`attempt`, `applied`, `stashed`, `conflict`,
  `failed`, `entered`, `edited`, `tried`, `looked`, `segs`, `outcomes`)
  are not values the Python code returns. Each is pinned by a contract to
  the observable state:
  - `applied` and `stashed` give the pool through `AfterApplies`, and a
    shorter `applied` comes with a failing stash command last in the trace;
  - `conflict` holds exactly when the trace records a `git status` that
    listed an unmerged path, and `failed` exactly when it records an
    `OSError` of the plan file (`Flagged`);
  - `edited` is the trace after the stash phase: nothing before it
    rewrote anything, and `git rev-list` follows it;
  - without `entered` the process exited before anything was applied;
  - `tried`, `looked` and `segs` are prefixes or pieces of the trace, and
    each outcome matches whether `arc diff` ran in its piece.
