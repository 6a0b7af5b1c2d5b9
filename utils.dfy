/**
 * The functions of src/anist/utils.py that run commands. Each one runs its
 * command on the repository and hands the output to its parser in module
 * Parse. A failing command ends the process: `run_command` calls
 * `sys.exit`, whose `SystemExit` the `except Exception` blocks do not
 * catch. That is the `Exit` outcome, which every caller passes up unchanged.
 */
module Utils {
  import opened Python
  import opened Text
  import opened Parse
  import opened Git

  /** A command that changes commits, moves HEAD, or talks to `arc diff`. */
  predicate Rewriting(c: Cmd) {
    c.GitAdd? || c.GitAmend? || c.GitContinue? || c.GitCheckout? || c.GitRebase? || c.ArcDiff?
  }

  /** `after` is `before` followed only by commands that are not `Rewriting`. */
  predicate Quiet(before: seq<Cmd>, after: seq<Cmd>) {
    |before| <= |after| && after[..|before|] == before
    && forall i :: |before| <= i < |after| ==> !Rewriting(after[i])
  }

  lemma QuietTrans(a: seq<Cmd>, b: seq<Cmd>, c: seq<Cmd>)
    requires Quiet(a, b) && Quiet(b, c)
    ensures Quiet(a, c)
  {
    assert c[..|a|] == c[..|b|][..|a|];
    forall i | |a| <= i < |c| ensures !Rewriting(c[i]) {
      if i < |b| {
        assert c[i] == c[..|b|][i];
      }
    }
  }

  /**
   * Past `before`, the trace records a status that showed a conflict
   * exactly when `conflict`, and an `OSError` of the plan file exactly
   * when `failed`.
   */
  predicate Flagged(before: seq<Cmd>, after: seq<Cmd>, conflict: bool, failed: bool) {
    && |before| <= |after| && after[..|before|] == before
    && (conflict <==> Logged(before, after, GitStatus(true)))
    && (failed <==> Logged(before, after, PlanFileError))
  }

  lemma FlaggedTrans(a: seq<Cmd>, b: seq<Cmd>, c: seq<Cmd>, c1: bool, f1: bool, c2: bool, f2: bool)
    requires Flagged(a, b, c1, f1) && Flagged(b, c, c2, f2)
    ensures Flagged(a, c, c1 || c2, f1 || f2)
  {
    PrefixTrans(a, b, c);
    LoggedSplit(a, b, c, GitStatus(true));
    LoggedSplit(a, b, c, PlanFileError);
  }

  lemma FlaggedNone(t: seq<Cmd>)
    ensures Flagged(t, t, false, false)
  {
  }

  /** Appended entries are flagged by what they are. */
  lemma FlaggedAppend(t: seq<Cmd>, extra: seq<Cmd>)
    ensures Flagged(t, t + extra, GitStatus(true) in extra, PlanFileError in extra)
  {
    assert (t + extra)[..|t|] == t;
    LoggedAppend(t, extra, GitStatus(true));
    LoggedAppend(t, extra, PlanFileError);
  }

  lemma LoggedAppend(t: seq<Cmd>, extra: seq<Cmd>, x: Cmd)
    ensures Logged(t, t + extra, x) <==> x in extra
  {
    if x in extra {
      var j :| 0 <= j < |extra| && extra[j] == x;
      assert (t + extra)[|t| + j] == x;
    }
    if Logged(t, t + extra, x) {
      var i :| |t| <= i < |t + extra| && (t + extra)[i] == x;
      assert extra[i - |t|] == x;
    }
  }

  /** get_current_branch: the name `git rev-parse --abbrev-ref HEAD` prints, stripped. */
  method GetCurrentBranch(repo: Repo) returns (r: Status<string>)
    requires repo.Valid()
    modifies repo
    ensures repo.trace == old(repo.trace) + [GitRevParse] && repo.Snapshot() == old(repo.Snapshot())
    ensures r.Return? || (r.Exit? && r.code != 0)
    ensures r.Return? ==> r.value == repo.AbbrevRef()
  {
    var out := repo.RevParse();
    if !out.Return? {
      return Exit(out.code);
    }
    var name := repo.AbbrevRef();
    assert name != [] && NoSpace(name);
    StripNewlineTerminated(name);
    return Return(Strip(out.value));
  }

  /**
   * get_commit_hash_by_position: the hash of commit `position` (1-based)
   * of `master..HEAD`; exit code 1 for an empty stack or a position
   * outside 1..N.
   */
  method GetCommitHashByPosition(repo: Repo, position: int) returns (r: Status<string>)
    requires repo.Valid()
    modifies repo
    ensures repo.trace == old(repo.trace) + [GitRevList] && repo.Snapshot() == old(repo.Snapshot())
    ensures r.Return? || (r.Exit? && r.code != 0)
    ensures r.Return? ==> 1 <= position <= |old(repo.Visible())| && r.value == old(repo.Visible())[position - 1].hash
    ensures !(1 <= position <= |old(repo.Visible())|) ==> r.Exit?
  {
    var out := repo.RevList();
    if !out.Return? {
      return Exit(out.code);
    }
    var cs := repo.Visible();
    if cs != [] {
      HashListingLines(cs);
    }
    r := CommitHashByPosition(out.value, position);
  }

  /** get_all_commits_in_stack: the hashes of `master..HEAD`, oldest first; exit code 1 when there are none. */
  method GetAllCommitsInStack(repo: Repo) returns (r: Status<seq<string>>)
    requires repo.Valid()
    modifies repo
    ensures repo.trace == old(repo.trace) + [GitRevList] && repo.Snapshot() == old(repo.Snapshot())
    ensures r.Return? || (r.Exit? && r.code != 0)
    ensures r.Return? ==> repo.Visible() != [] && r.value == Hashes(repo.Visible())
    ensures repo.Visible() == [] ==> r.Exit?
  {
    var out := repo.RevList();
    if !out.Return? {
      return Exit(out.code);
    }
    var cs := repo.Visible();
    if cs != [] {
      HashListingLines(cs);
    }
    r := AllCommitsInStack(out.value);
  }

  /** check_changes: whether anything is staged, and whether anything tracked is changed but not staged. */
  method CheckChanges(repo: Repo) returns (r: Status<(bool, bool)>)
    modifies repo
    ensures repo.Snapshot() == old(repo.Snapshot())
    ensures repo.trace == old(repo.trace) + [GitDiffNames(true)] || repo.trace == old(repo.trace) + [GitDiffNames(true), GitDiffNames(false)]
    ensures r.Return? || (r.Exit? && r.code != 0)
    ensures r.Return? ==> repo.trace == old(repo.trace) + [GitDiffNames(true), GitDiffNames(false)]
                          && r.value == (repo.tree.staged, repo.tree.unstaged)
  {
    var cached := repo.DiffNames(true);
    if !cached.Return? {
      return Exit(cached.code);
    }
    var worktree := repo.DiffNames(false);
    if !worktree.Return? {
      return Exit(worktree.code);
    }
    return Return(Parse.CheckChanges(cached.value, worktree.value));
  }

  /**
   * stash_changes: with a blank `git status --porcelain`, or nothing
   * tracked to stash, returns "" and changes nothing. Otherwise it stores
   * the new stash as `stash@{0}` under `message`, then resets the tree,
   * and returns the stash's hash.
   */
  method StashChanges(repo: Repo, message: string) returns (r: Status<string>)
    requires repo.Valid()
    modifies repo
    ensures repo.Valid() && Quiet(old(repo.trace), repo.trace)
    ensures repo.Snapshot() == old(repo.Snapshot()).(stashes := repo.stashes, tree := repo.tree)
    ensures r.Return? || (r.Exit? && r.code != 0)
    ensures r.Return? ==> (r.value == "" <==> !old(repo.tree).Tracked())
    ensures r.Return? && r.value == "" ==> repo.Snapshot() == old(repo.Snapshot())
    ensures r.Return? && r.value != "" ==>
              && IsHash(r.value)
              && repo.Snapshot() == old(repo.Snapshot()).(stashes := [StashEntry(r.value, message)] + old(repo.stashes),
                                                          tree := old(repo.tree).Reset())
              && repo.trace == old(repo.trace) + [GitStatus(old(repo.tree).conflicted), GitStashCreate(message),
                                                  GitStashStore(message, r.value), GitReset]
    // the tree is never reset unless the stash was stored first
    ensures repo.tree != old(repo.tree) ==>
              |repo.stashes| == |old(repo.stashes)| + 1 && repo.stashes[1..] == old(repo.stashes)
              && repo.stashes[0].message == message
  {
    var status := repo.StatusPorcelain();
    if !status.Return? {
      r := Exit(status.code);
    } else if !HasOutput(status.value) {
      r := Return("");
    } else {
      ghost var t1 := repo.trace;
      QuietStep(old(repo.trace), GitStatus(repo.tree.conflicted));
      r := CreateAndStore(repo, message);
      QuietTrans(old(repo.trace), t1, repo.trace);
      if r.Return? && r.value != "" {
        TraceAppend(old(repo.trace), [GitStatus(old(repo.tree).conflicted)],
                    [GitStashCreate(message), GitStashStore(message, r.value), GitReset]);
      }
    }
  }

  /** The part of stash_changes after a dirty status: `git stash create`, then store and reset. */
  method CreateAndStore(repo: Repo, message: string) returns (r: Status<string>)
    requires repo.Valid()
    modifies repo
    ensures repo.Valid() && Quiet(old(repo.trace), repo.trace)
    ensures repo.Snapshot() == old(repo.Snapshot()).(stashes := repo.stashes, tree := repo.tree)
    ensures r.Return? || (r.Exit? && r.code != 0)
    ensures r.Return? ==> (r.value == "" <==> !old(repo.tree).Tracked())
    ensures r.Return? && r.value == "" ==> repo.Snapshot() == old(repo.Snapshot())
    ensures r.Return? && r.value != "" ==>
              && IsHash(r.value)
              && repo.Snapshot() == old(repo.Snapshot()).(stashes := [StashEntry(r.value, message)] + old(repo.stashes),
                                                          tree := old(repo.tree).Reset())
              && repo.trace == old(repo.trace) + [GitStashCreate(message), GitStashStore(message, r.value), GitReset]
    ensures repo.tree != old(repo.tree) ==>
              |repo.stashes| == |old(repo.stashes)| + 1 && repo.stashes[1..] == old(repo.stashes)
              && repo.stashes[0].message == message
  {
    var created := repo.StashCreate(message);
    if !created.Return? {
      return Exit(created.code);
    }
    if created.value == "" {
      return Return("");
    }
    HashLine(created.value);
    var hash := Strip(created.value);
    assert repo.tree.Tracked();
    r := StoreAndReset(repo, message, hash);
  }

  /** The tail of stash_changes: `git stash store`, then `git reset --hard HEAD`. */
  method StoreAndReset(repo: Repo, message: string, hash: string) returns (r: Status<string>)
    requires repo.Valid() && IsHash(hash)
    modifies repo
    ensures repo.Valid()
    ensures r.Return? || (r.Exit? && r.code != 0)
    ensures r.Return? ==> r.value == hash
                          && repo.Snapshot() == old(repo.Snapshot()).(stashes := [StashEntry(hash, message)] + old(repo.stashes),
                                                                      tree := old(repo.tree).Reset())
                          && repo.trace == old(repo.trace) + [GitStashStore(message, hash), GitReset]
    ensures r.Exit? ==> repo.tree == old(repo.tree)
                        && (repo.stashes == old(repo.stashes) || repo.stashes == [StashEntry(hash, message)] + old(repo.stashes))
                        && repo.Snapshot() == old(repo.Snapshot()).(stashes := repo.stashes)
                        && (repo.trace == old(repo.trace) + [GitStashStore(message, hash)]
                            || repo.trace == old(repo.trace) + [GitStashStore(message, hash), GitReset])
  {
    var stored := repo.StashStore(message, hash);
    if !stored.Return? {
      return Exit(stored.code);
    }
    var reset := repo.ResetHard();
    if !reset.Return? {
      return Exit(reset.code);
    }
    return Return(hash);
  }

  /** `git stash create` prints the new hash on a line of its own; stripping recovers it. */
  lemma HashLine(out: string)
    requires exists h :: IsHash(h) && out == h + "\n"
    ensures IsHash(Strip(out)) && out == Strip(out) + "\n"
  {
    var h :| IsHash(h) && out == h + "\n";
    HashShape(h);
    StripNewlineTerminated(h);
  }

  /** The scan of apply_stash stops at a line that is non-empty, contains the reference and has a second field. */
  predicate Picks(line: string, ref: string) {
    line != "" && Contains(line, ref) && |Fields(line)| > 1
  }

  /** The index of the first line the scan stops at, or the number of lines. */
  function FirstPick(lines: seq<string>, ref: string): (k: nat)
    ensures k <= |lines|
    ensures k < |lines| ==> Picks(lines[k], ref)
    ensures forall j :: 0 <= j < k ==> !Picks(lines[j], ref)
  {
    if lines == [] then 0
    else if Picks(lines[0], ref) then 0
    else 1 + FirstPick(lines[1..], ref)
  }

  /** The scan stops at `k` when it picks no line before `k` and picks line `k`. */
  lemma FirstPickAt(lines: seq<string>, ref: string, k: nat)
    requires k < |lines| && Picks(lines[k], ref)
    requires forall j :: 0 <= j < k ==> !Picks(lines[j], ref)
    ensures FirstPick(lines, ref) == k
  {
  }

  /** The second field of the first line the scan stops at, or None. */
  function PickedRef(lines: seq<string>, ref: string): (r: Option<string>)
    ensures r.Some? <==> FirstPick(lines, ref) < |lines|
  {
    var k := FirstPick(lines, ref);
    if k < |lines| then Some(Fields(lines[k])[1]) else None
  }

  /**
   * The loop of apply_stash over the lines of `git stash list`: the second
   * field of the first line it stops at, or None.
   */
  method FindStashIndex(lines: seq<string>, ref: string) returns (index: Option<string>)
    ensures index == PickedRef(lines, ref)
  {
    var k := 0;
    while k < |lines|
      invariant k <= |lines|
      invariant forall j :: 0 <= j < k ==> !Picks(lines[j], ref)
    {
      var line := lines[k];
      if line != "" && Contains(line, ref) {
        var parts := Fields(line);
        if |parts| > 1 {
          FirstPickAt(lines, ref, k);
          return Some(parts[1]);
        }
      }
      k := k + 1;
    }
    return None;
  }

  /** The first pool entry whose `git stash list` line contains `ref`, or the pool size. */
  function FirstNaming(stashes: seq<StashEntry>, ref: string): (k: nat)
    ensures k <= |stashes|
    ensures k < |stashes| ==> Contains(StashLine(stashes[k], k), ref)
    ensures forall j :: 0 <= j < k ==> !Contains(StashLine(stashes[j], j), ref)
  {
    FirstNamingFrom(stashes, ref, 0)
  }

  function FirstNamingFrom(stashes: seq<StashEntry>, ref: string, i: nat): (k: nat)
    requires i <= |stashes|
    ensures i <= k <= |stashes|
    ensures k < |stashes| ==> Contains(StashLine(stashes[k], k), ref)
    ensures forall j :: i <= j < k ==> !Contains(StashLine(stashes[j], j), ref)
    decreases |stashes| - i
  {
    if i == |stashes| then i
    else if Contains(StashLine(stashes[i], i), ref) then i
    else FirstNamingFrom(stashes, ref, i + 1)
  }

  /**
   * On the stash list git prints, the scan stops at the first entry whose
   * line contains the reference, and reads that entry's `stash@{k}`.
   */
  lemma StashListPick(stashes: seq<StashEntry>, ref: string)
    requires forall i :: 0 <= i < |stashes| ==> IsHash(stashes[i].hash)
    ensures var k := FirstNaming(stashes, ref);
            PickedRef(Lines(Output(StashListing(stashes))), ref) == if k < |stashes| then Some(StashRef(k)) else None
  {
    StashListingLines(stashes);
    var lines := Lines(Output(StashListing(stashes)));
    var k := FirstNaming(stashes, ref);
    if stashes == [] {
      assert !Picks(lines[0], ref);
    } else {
      forall j | 0 <= j < |stashes| ensures Picks(lines[j], ref) <==> Contains(StashLine(stashes[j], j), ref) {
        StashLineShape(stashes[j], j);
      }
      if k < |stashes| {
        StashLineShape(stashes[k], k);
      }
    }
  }

  /**
   * apply_stash: "" gives false without running anything. Otherwise it
   * applies and then drops the first entry whose `git stash list` line
   * contains the reference and gives true, so the pool loses exactly that
   * entry and keeps the others in order; with no such entry it gives false
   * and changes nothing.
   */
  method ApplyStash(repo: Repo, ref: string) returns (r: Status<bool>)
    requires repo.Valid()
    modifies repo
    ensures repo.Valid() && Quiet(old(repo.trace), repo.trace)
    ensures repo.Snapshot() == old(repo.Snapshot()).(stashes := repo.stashes, tree := repo.tree)
    ensures r.Return? || (r.Exit? && r.code != 0)
    ensures ref == "" ==> r == Return(false) && repo.trace == old(repo.trace)
    ensures r.Return? ==> (r.value <==> ref != "" && FirstNaming(old(repo.stashes), ref) < |old(repo.stashes)|)
    ensures r == Return(false) ==> repo.Snapshot() == old(repo.Snapshot())
    ensures r == Return(true) ==>
              var k := FirstNaming(old(repo.stashes), ref);
              k < |old(repo.stashes)|
              && repo.Snapshot() == old(repo.Snapshot()).(stashes := Remove(old(repo.stashes), k), tree := repo.tree)
              && repo.trace == old(repo.trace) + [GitStashList, GitStashApply(StashRef(k)), GitStashDrop(StashRef(k))]
    ensures r.Return? ==> repo.stashes == AfterApply(old(repo.stashes), ref)
    ensures r.Exit? ==> repo.stashes == old(repo.stashes) && StashFailed(old(repo.trace), repo.trace)
    ensures Flagged(old(repo.trace), repo.trace, false, false)
  {
    if ref == "" {
      FlaggedNone(repo.trace);
      return Return(false);
    }
    r := ApplyNamed(repo, ref);
  }

  /** apply_stash for a non-empty reference: look it up, then apply and drop what it names. */
  method ApplyNamed(repo: Repo, ref: string) returns (r: Status<bool>)
    requires repo.Valid() && ref != ""
    modifies repo
    ensures repo.Valid() && Quiet(old(repo.trace), repo.trace)
    ensures repo.Snapshot() == old(repo.Snapshot()).(stashes := repo.stashes, tree := repo.tree)
    ensures r.Return? || (r.Exit? && r.code != 0)
    ensures r.Return? ==> (r.value <==> FirstNaming(old(repo.stashes), ref) < |old(repo.stashes)|)
    ensures r == Return(false) ==> repo.Snapshot() == old(repo.Snapshot())
    ensures r == Return(true) ==>
              var k := FirstNaming(old(repo.stashes), ref);
              k < |old(repo.stashes)|
              && repo.Snapshot() == old(repo.Snapshot()).(stashes := Remove(old(repo.stashes), k), tree := repo.tree)
              && repo.trace == old(repo.trace) + [GitStashList, GitStashApply(StashRef(k)), GitStashDrop(StashRef(k))]
    ensures r.Return? ==> repo.stashes == AfterApply(old(repo.stashes), ref)
    ensures r.Exit? ==> repo.stashes == old(repo.stashes) && StashFailed(old(repo.trace), repo.trace)
    ensures Flagged(old(repo.trace), repo.trace, false, false)
  {
    var found := LookUpStash(repo, ref);
    if !found.Return? {
      return Exit(found.code);
    }
    if found.value.None? {
      return Return(false);
    }
    ghost var t1 := repo.trace;
    r := ApplyAndDrop(repo, found.value.value, FirstNaming(repo.stashes, ref));
    FlaggedTrans(old(repo.trace), t1, repo.trace, false, false, false, false);
  }

  /** The pool after apply_stash(`ref`) returned: the first entry naming `ref` is gone, if there was one. */
  function AfterApply(pool: seq<StashEntry>, ref: string): seq<StashEntry> {
    var k := FirstNaming(pool, ref);
    if ref != "" && k < |pool| then Remove(pool, k) else pool
  }

  /** The pool after apply_stash returned for each of `refs`, in order. */
  function AfterApplies(pool: seq<StashEntry>, refs: seq<string>): seq<StashEntry>
    decreases |refs|
  {
    if refs == [] then pool else AfterApply(AfterApplies(pool, refs[..|refs| - 1]), refs[|refs| - 1])
  }

  /** Applying `a` and then `b` is applying `a + b`. */
  lemma {:induction false} AfterAppliesAppend(pool: seq<StashEntry>, a: seq<string>, b: seq<string>)
    ensures AfterApplies(AfterApplies(pool, a), b) == AfterApplies(pool, a + b)
    decreases |b|
  {
    if b != [] {
      var b' := b[..|b| - 1];
      AfterAppliesAppend(pool, a, b');
      assert (a + b)[..|a + b| - 1] == a + b';
    } else {
      assert a + b == a;
    }
  }

  /**
   * `if has_x: apply_stash(x)`, as build/lib/src/commit.py lines
   * 113-115, 131-134, 141-143 and 145-147 and the `finally` of src/diff.py
   * lines 115-122 write it: apply the stash `ref` when there is one. `applied`
   * is the stash whose apply_stash call returned; a failure is a stash
   * command's.
   */
  method ApplyIfStashed(repo: Repo, present: bool, ref: string) returns (r: Status<()>, ghost applied: seq<string>)
    requires repo.Valid()
    modifies repo
    ensures repo.Valid() && Quiet(old(repo.trace), repo.trace)
    ensures repo.Snapshot() == old(repo.Snapshot()).(stashes := repo.stashes, tree := repo.tree)
    ensures r.Return? || (r.Exit? && r.code != 0)
    ensures applied <= (if present then [ref] else [])
    ensures r.Return? <==> applied == (if present then [ref] else [])
    ensures repo.stashes == AfterApplies(old(repo.stashes), applied)
    ensures r.Exit? ==> StashFailed(old(repo.trace), repo.trace)
    ensures Flagged(old(repo.trace), repo.trace, false, false)
  {
    r, applied := Return(()), [];
    FlaggedNone(repo.trace);
    if present {
      var b := ApplyStash(repo, ref);
      if b.Return? {
        applied := [ref];
        assert [ref][..0] == [];
      } else {
        r := Exit(b.code);
      }
    }
  }

  /** Extending two sequences by the same head keeps one a prefix of the other. */
  lemma PrefixAfter(p: seq<string>, a: seq<string>, b: seq<string>)
    requires a <= b
    ensures p + a <= p + b
  {
    assert (p + b)[..|p + a|] == p + b[..|a|];
  }

  /** A stash command was the last command run after `before`: the one whose failure ended the process. */
  predicate StashFailed(before: seq<Cmd>, after: seq<Cmd>) {
    |before| < |after| && after[..|before|] == before
    && (Last(after).GitStashList? || Last(after).GitStashApply? || Last(after).GitStashDrop?)
  }

  lemma StashFailedFrom(a: seq<Cmd>, b: seq<Cmd>, c: seq<Cmd>)
    requires |a| <= |b| && b[..|a|] == a && StashFailed(b, c)
    ensures StashFailed(a, c)
  {
    assert c[..|a|] == c[..|b|][..|a|];
  }

  /**
   * How the pool looks after a stash phase on top of `base` that stashed
   * the unstaged changes under `unstagedLabel` and then the staged ones
   * under `stagedLabel`. The first stash takes every tracked change and
   * resets the tree, so with both kinds of change present the second
   * finds nothing and gives "".
   */
  predicate StashedOver(pool: seq<StashEntry>, base: seq<StashEntry>, staged: bool, unstaged: bool, us: string, ss: string,
                        unstagedLabel: string, stagedLabel: string) {
    && (unstaged ==> IsHash(us) && ss == "" && pool == [StashEntry(us, unstagedLabel)] + base)
    && (!unstaged ==> us == "")
    && (!unstaged && staged ==> IsHash(ss) && pool == [StashEntry(ss, stagedLabel)] + base)
    && (!unstaged && !staged ==> ss == "" && pool == base)
  }

  /** The stashes of the phase, applied staged first or unstaged first, take the pool back to `base`. */
  lemma RestoredToBase(pool: seq<StashEntry>, base: seq<StashEntry>, staged: bool, unstaged: bool, us: string, ss: string,
                       unstagedLabel: string, stagedLabel: string)
    requires StashedOver(pool, base, staged, unstaged, us, ss, unstagedLabel, stagedLabel)
    ensures AfterApplies(pool, (if staged then [ss] else []) + (if unstaged then [us] else [])) == base
    ensures AfterApplies(pool, (if unstaged then [us] else []) + (if staged then [ss] else [])) == base
  {
    if unstaged {
      ApplyFindsNewStash(base, us, unstagedLabel);
      assert AfterApply(pool, us) == base;
      assert AfterApplies(pool, [us]) == base by {
        assert [us][..0] == [];
      }
      if staged {
        assert AfterApplies(pool, [us, ss]) == base by {
          assert [us, ss][..1] == [us];
        }
        assert AfterApplies(pool, [ss, us]) == base by {
          assert [ss, us][..1] == [ss];
          assert [ss][..0] == [];
        }
      }
    } else if staged {
      ApplyFindsNewStash(base, ss, stagedLabel);
      assert AfterApply(pool, ss) == base;
      assert AfterApplies(pool, [ss]) == base by {
        assert [ss][..0] == [];
      }
    }
  }

  /** The search of apply_stash: `git stash list`, scanned for the entry that names `ref`. */
  method LookUpStash(repo: Repo, ref: string) returns (r: Status<Option<string>>)
    requires repo.Valid()
    modifies repo
    ensures repo.trace == old(repo.trace) + [GitStashList] && repo.Snapshot() == old(repo.Snapshot())
    ensures Flagged(old(repo.trace), repo.trace, false, false)
    ensures r.Return? || (r.Exit? && r.code != 0)
    ensures r.Return? ==> var k := FirstNaming(repo.stashes, ref);
                          r.value == if k < |repo.stashes| then Some(StashRef(k)) else None
  {
    var listed := repo.StashList();
    FlaggedAppend(old(repo.trace), [GitStashList]);
    if !listed.Return? {
      return Exit(listed.code);
    }
    var index := FindStashIndex(Lines(listed.value), ref);
    StashListPick(repo.stashes, ref);
    return Return(index);
  }

  /** The tail of apply_stash: `git stash apply stash@{k}`, then `git stash drop stash@{k}`. */
  method ApplyAndDrop(repo: Repo, ref: string, ghost k: nat) returns (r: Status<bool>)
    requires repo.Valid() && k < |repo.stashes| && ref == StashRef(k)
    modifies repo
    ensures repo.Valid() && Quiet(old(repo.trace), repo.trace)
    ensures r.Return? || (r.Exit? && r.code != 0)
    ensures r.Return? ==> r.value
    ensures r.Return? ==>
              && repo.Snapshot() == old(repo.Snapshot()).(stashes := Remove(old(repo.stashes), k), tree := repo.tree)
              && repo.trace == old(repo.trace) + [GitStashApply(StashRef(k)), GitStashDrop(StashRef(k))]
    ensures r.Exit? ==>
              && repo.Snapshot() == old(repo.Snapshot()).(tree := repo.tree)
              && (repo.trace == old(repo.trace) + [GitStashApply(StashRef(k))]
                  || repo.trace == old(repo.trace) + [GitStashApply(StashRef(k)), GitStashDrop(StashRef(k))])
    ensures Flagged(old(repo.trace), repo.trace, false, false)
  {
    FlaggedAppend(repo.trace, [GitStashApply(StashRef(k))]);
    FlaggedAppend(repo.trace, [GitStashApply(StashRef(k)), GitStashDrop(StashRef(k))]);
    RefIndexOfStashRef(k, |repo.stashes|);
    ghost var pool := repo.stashes;
    var applied := repo.StashApply(ref);
    if !applied.Return? {
      return Exit(applied.code);
    }
    var dropped := repo.StashDrop(ref);
    if !dropped.Return? {
      return Exit(dropped.code);
    }
    forall i | 0 <= i < |repo.stashes| ensures IsHash(repo.stashes[i].hash) {
      if i < k {
        assert repo.stashes[i] == pool[i];
      } else {
        assert repo.stashes[i] == pool[i + 1];
      }
    }
    return Return(true);
  }

  /** A stash just stored is the first entry that names its hash, so applying it takes back exactly that entry. */
  lemma ApplyFindsNewStash(stashes: seq<StashEntry>, hash: string, message: string)
    requires IsHash(hash)
    ensures var pool := [StashEntry(hash, message)] + stashes;
            FirstNaming(pool, hash) == 0 && Remove(pool, 0) == stashes
  {
    var pool := [StashEntry(hash, message)] + stashes;
    var line := StashLine(pool[0], 0);
    assert line[..|hash|] == hash;
    assert OccursAt(line, hash, 0);
    assert Remove(pool, 0) == pool[1..];
  }

  /**
   * find_commit_position_by_message: 0 for an empty message without
   * running anything; otherwise the position the message search finds in
   * what `git rev-list --reverse master..HEAD --format=%s` prints.
   */
  method FindCommitPositionByMessage(repo: Repo, message: string) returns (r: Status<nat>)
    modifies repo
    ensures repo.Snapshot() == old(repo.Snapshot())
    ensures repo.trace == old(repo.trace) + (if message == "" then [] else [GitRevListSubjects])
    ensures r.Return? || (r.Exit? && r.code != 0)
    ensures r.Return? ==> r.value == FindCommitPosition(message, Output(SubjectListing(repo.Visible())))
  {
    if message == "" {
      return Return(0);
    }
    var out := repo.RevListSubjects();
    if !out.Return? {
      return Exit(out.code);
    }
    return Return(FindCommitPosition(message, out.value));
  }

  /**
   * On a readable stack the message search runs over the commits' own
   * subjects, so the position found is the 1-based index of the first
   * commit whose subject mentions the message, or 0 when none does.
   */
  lemma PositionOnStack(cs: seq<Commit>, message: string)
    requires ReadableSubjects(cs)
    ensures FindCommitPosition(message, Output(SubjectListing(cs)))
            == if message == "" then 0 else FirstMention(SubjectsOf(cs), message)
  {
    SubjectListingLines(cs);
  }

  /** What get_diff_ids gives when the review server lists `listing` and the stack is `cs`. */
  function ArcIds(listing: string, cs: seq<Commit>): map<int, string> {
    DiffIdMap(Lines(listing), Output(SubjectListing(cs)))
  }

  /** `after` is `before` followed only by runs of the message search's `git rev-list`. */
  predicate Listings(before: seq<Cmd>, after: seq<Cmd>) {
    |before| <= |after| && after[..|before|] == before
    && forall i :: |before| <= i < |after| ==> after[i] == GitRevListSubjects
  }

  lemma ListingsTrans(a: seq<Cmd>, b: seq<Cmd>, c: seq<Cmd>)
    requires Listings(a, b) && Listings(b, c)
    ensures Listings(a, c)
  {
    assert c[..|a|] == c[..|b|][..|a|];
    forall i | |a| <= i < |c| ensures c[i] == GitRevListSubjects {
      if i < |b| {
        assert c[i] == c[..|b|][i];
      }
    }
  }

  /** `arc list` ran first after `before`, and after it only the message search. */
  predicate ArcListed(before: seq<Cmd>, after: seq<Cmd>) {
    |before| < |after| && after[..|before| + 1] == before + [ArcList] && Listings(before + [ArcList], after)
  }

  /** The commands of get_diff_ids change nothing. */
  lemma ArcListedQuiet(before: seq<Cmd>, after: seq<Cmd>)
    requires ArcListed(before, after)
    ensures Quiet(before, after)
  {
    assert after[..|before|] == after[..|before| + 1][..|before|];
    forall i | |before| <= i < |after| ensures !Rewriting(after[i]) {
      if i == |before| {
        assert after[i] == after[..|before| + 1][i];
      }
    }
  }

  /**
   * get_diff_ids: `arc list` runs first, and its lines are folded, in
   * order, into the map from stack position to review revision; each line
   * with a token runs the message search.
   */
  method GetDiffIds(repo: Repo) returns (r: Status<map<int, string>>)
    modifies repo
    ensures repo.Snapshot() == old(repo.Snapshot()) && Quiet(old(repo.trace), repo.trace)
    ensures r.Return? || (r.Exit? && r.code != 0)
    ensures r.Return? ==> ArcListed(old(repo.trace), repo.trace)
                          && r.value == ArcIds(repo.arcListing, old(repo.Visible()))
  {
    var out := repo.ArcList();
    if !out.Return? {
      return Exit(out.code);
    }
    ghost var t1 := repo.trace;
    var ids := FileArcLines(repo, Lines(out.value), Output(SubjectListing(old(repo.Visible()))));
    assert ArcListed(old(repo.trace), repo.trace);
    ArcListedQuiet(old(repo.trace), repo.trace);
    if !ids.Return? {
      return Exit(ids.code);
    }
    return ids;
  }

  /** Appending a command that is not `Rewriting` keeps a trace quiet. */
  lemma QuietStep(before: seq<Cmd>, c: Cmd)
    requires !Rewriting(c)
    ensures Quiet(before, before + [c])
  {
    assert (before + [c])[..|before|] == before;
  }

  /** Lines 211-224: the loop of get_diff_ids over the lines of `arc list`. */
  method FileArcLines(repo: Repo, lines: seq<string>, ghost revList: string) returns (r: Status<map<int, string>>)
    requires revList == Output(SubjectListing(repo.Visible()))
    modifies repo
    ensures repo.Snapshot() == old(repo.Snapshot()) && Listings(old(repo.trace), repo.trace)
    ensures r.Return? || (r.Exit? && r.code != 0)
    ensures r.Return? ==> r.value == DiffIdMap(lines, revList)
  {
    var ids: map<int, string> := map[];
    var k := 0;
    while k < |lines|
      invariant k <= |lines|
      invariant repo.Snapshot() == old(repo.Snapshot()) && Listings(old(repo.trace), repo.trace)
      invariant repo.Visible() == old(repo.Visible())
      invariant ids == DiffIdMap(lines[..k], revList)
    {
      ghost var before := repo.trace;
      var filing := FileArcLine(repo, lines[k], revList);
      ListingsTrans(old(repo.trace), before, repo.trace);
      if !filing.Return? {
        return Exit(filing.code);
      }
      DiffIdMapStep(lines, k, revList);
      ids := Record(ids, filing.value);
      k := k + 1;
    }
    assert lines[..k] == lines;
    return Return(ids);
  }

  /**
   * One line of the loop of get_diff_ids: a line with a token runs the
   * message search on the text after its first colon. `revList` is what
   * the search reads.
   */
  method FileArcLine(repo: Repo, line: string, ghost revList: string) returns (r: Status<Option<(nat, string)>>)
    requires revList == Output(SubjectListing(repo.Visible()))
    modifies repo
    ensures repo.Snapshot() == old(repo.Snapshot()) && Listings(old(repo.trace), repo.trace)
    ensures repo.Visible() == old(repo.Visible())
    ensures r.Return? || (r.Exit? && r.code != 0)
    ensures r.Return? ==> r.value == Filing(line, revList)
  {
    match FirstDToken(line)
    case None =>
      return Return(None);
    case Some(id) =>
      var found := FindCommitPositionByMessage(repo, ArcMessage(line));
      if !found.Return? {
        return Exit(found.code);
      }
      if found.value > 0 {
        return Return(Some((found.value, id)));
      }
      return Return(None);
  }

  /** `ids[pos] = diff_id` for a line that was filed; nothing for one that was not. */
  function Record(ids: map<int, string>, filing: Option<(nat, string)>): (r: map<int, string>)
    ensures filing.None? ==> r == ids
    ensures filing.Some? ==> r == ids[filing.value.0 := filing.value.1]
  {
    match filing
    case None => ids
    case Some((pos, id)) => ids[pos := id]
  }

  lemma DiffIdMapStep(lines: seq<string>, k: nat, revList: string)
    requires k < |lines|
    ensures DiffIdMap(lines[..k + 1], revList) == Record(DiffIdMap(lines[..k], revList), Filing(lines[k], revList))
  {
    assert lines[..k + 1][..k] == lines[..k];
  }

  /** find_diff_id_in_commit: the trailer scan over what `git log -1 <hash>` prints. */
  method FindDiffIdInCommit(repo: Repo, hash: string) returns (r: Status<Option<string>>)
    modifies repo
    ensures repo.trace == old(repo.trace) + [GitLog(hash)] && repo.Snapshot() == old(repo.Snapshot())
    ensures r.Return? || (r.Exit? && r.code != 0)
    ensures r.Return? && r.value.Some? ==> IsDToken(r.value.value)
    ensures r.Return? && IndexOfHash(repo.stack, hash) < |repo.stack| ==>
              r.value == Parse.FindDiffIdInCommit(repo.stack[IndexOfHash(repo.stack, hash)].log)
  {
    var out := repo.Log(hash);
    if !out.Return? {
      return Exit(out.code);
    }
    return Return(Parse.FindDiffIdInCommit(out.value));
  }

  /** get_commit_message: the subject of the commit. */
  method GetCommitMessage(repo: Repo, hash: string) returns (r: Status<string>)
    requires repo.Valid()
    modifies repo
    ensures repo.trace == old(repo.trace) + [GitLogSubject(hash)] && repo.Snapshot() == old(repo.Snapshot())
    ensures r.Return? || (r.Exit? && r.code != 0)
    ensures r.Return? && IndexOfHash(repo.stack, hash) < |repo.stack| ==>
              r.value == repo.stack[IndexOfHash(repo.stack, hash)].subject
  {
    var out := repo.LogSubject(hash);
    if !out.Return? {
      return Exit(out.code);
    }
    var k := IndexOfHash(repo.stack, hash);
    if k < |repo.stack| {
      var s := repo.stack[k].subject;
      if s != [] {
        StripNewlineTerminated(s);
      }
    }
    return Return(Strip(out.value));
  }

  /**
   * has_merge_conflicts: whether the tree holds an unmerged path. The
   * status entry in the trace records the answer.
   */
  method HasMergeConflicts(repo: Repo) returns (r: Status<bool>)
    modifies repo
    ensures repo.trace == old(repo.trace) + [GitStatus(r == Return(true))] && repo.Snapshot() == old(repo.Snapshot())
    ensures r.Return? || (r.Exit? && r.code != 0)
    ensures r.Return? ==> r.value == repo.tree.conflicted
  {
    var out := repo.StatusPorcelain();
    if !out.Return? {
      return Exit(out.code);
    }
    return Return(Parse.HasMergeConflicts(out.value));
  }
}
