/**
 * src/diff.py: the older copy of the diff workflow. It calls the helpers
 * with the arguments they take, passes `--nolint` to `arc diff`, restores
 * both stashes in its `finally` block, and lets the stack loop run over
 * every position, counting successes and failures.
 */
module LegacyDiff {
  import opened Python
  import opened Parse
  import opened Git
  import opened Utils
  import opened DiffSync

  const UnstagedLabel := "anist_unstaged_changes_diff"
  const StagedLabel := "anist_staged_changes_diff"

  /** The stashes the `finally` block of lines 115-122 hands to apply_stash, in order. */
  function Restores(staged: bool, unstaged: bool, us: string, ss: string): (refs: seq<string>)
    ensures |refs| == (if staged then 1 else 0) + (if unstaged then 1 else 0)
    ensures staged ==> refs[0] == ss
    ensures unstaged ==> refs[|refs| - 1] == us
  {
    (if staged then [ss] else []) + (if unstaged then [us] else [])
  }

  /**
   * Lines 20-122: create_or_update_diff. `entered` says the `try` of line
   * 48 was reached; `tried` is the trace at that point and `stashed` the
   * pool then, with the changes stashed in `us` and `ss` on top of the
   * pool of the call. `body` is the trace when the `try` body ended,
   * `attempt` what the body gave and `looked` as in `DiffTarget`. The
   * `finally` block then applies the staged stash and the unstaged one;
   * `applied` lists the calls that returned, and the pool is `stashed`
   * after them. A failing stash command there ends the process, which
   * replaces the body's outcome. The `except` branch of lines 112-114 is
   * not modelled: assuming `git` and `arc` are installed, every helper
   * either returns or ends the process. When
   * both restores return, the pool is as it was.
   */
  method CreateOrUpdateDiff(repo: Repo, position: int, message: string, create: bool)
    returns (r: Status<bool>, ghost entered: bool, ghost tried: seq<Cmd>, ghost body: seq<Cmd>,
             ghost attempt: Status<bool>, ghost id: Option<string>, ghost argv: seq<string>, ghost looked: seq<Cmd>,
             ghost us: string, ghost ss: string, ghost stashed: seq<StashEntry>, ghost applied: seq<string>)
    requires repo.Valid()
    modifies repo
    ensures repo.Valid()
    ensures r.Return? || (r.Exit? && r.code != 0)
    ensures |repo.trace| > |old(repo.trace)| && repo.trace[|old(repo.trace)|] == GitDiffNames(true)
    ensures repo.trace[..|old(repo.trace)|] == old(repo.trace)
    ensures repo.stack == old(repo.stack)
    ensures |repo.Visible()| <= |old(repo.Visible())| && repo.Visible() == old(repo.Visible())[..|repo.Visible()|]
    ensures !entered ==> r.Exit? && applied == []
    ensures entered ==>
              && Quiet(old(repo.trace), tried) && |old(repo.trace)| < |tried|
              && tried[|old(repo.trace)|] == GitDiffNames(true)
              && StashedOver(stashed, old(repo.stashes), old(repo.tree.staged), old(repo.tree.unstaged), us, ss,
                             UnstagedLabel, StagedLabel)
              && repo.stashes == AfterApplies(stashed, applied)
              && (attempt.Return? || (attempt.Exit? && attempt.code != 0))
              && applied <= Restores(old(repo.tree.staged), old(repo.tree.unstaged), us, ss)
    ensures entered && applied == Restores(old(repo.tree.staged), old(repo.tree.unstaged), us, ss) ==>
              r == attempt && repo.stashes == old(repo.stashes)
    ensures entered && applied != Restores(old(repo.tree.staged), old(repo.tree.unstaged), us, ss) ==>
              r.Exit? && StashFailed(body, repo.trace)
    ensures entered && attempt.Return? ==>
              && 1 <= position <= |old(repo.Visible())|
              && Reported(attempt.value, create, tried, body, old(repo.AbbrevRef()), argv)
              && BodyRan(tried, body, looked, old(repo.arcListing), old(repo.Visible()), position,
                         create, attempt.value, id, argv, old(repo.AbbrevRef()))
              && Quiet(body, repo.trace)
    ensures entered && attempt == Return(true) ==>
              && (create ==> id.None?)
              && (!create ==> id.Some? && IsDToken(id.value))
              && argv == ArcDiffArgv(Legacy, id, message)
  {
    entered, tried, body, attempt, id, argv, looked, us, ss, stashed, applied :=
      false, [], [], Exit(1), None, [], [], "", "", [], [];
    var changes := Utils.CheckChanges(repo);
    if !changes.Return? {
      r := Exit(changes.code);
    } else {
      assert Quiet(old(repo.trace), repo.trace) by {
        assert repo.trace[..|old(repo.trace)|] == old(repo.trace);
      }
      r, entered, tried, body, attempt, id, argv, looked, us, ss, stashed, applied :=
        DiffWithChanges(repo, position, message, create, changes.value.0, changes.value.1, old(repo.trace));
    }
  }

  /**
   * Lines 38-122 once check_changes, which ran first after `start`, gave
   * the flags `staged` and `unstaged`.
   */
  method DiffWithChanges(repo: Repo, position: int, message: string, create: bool, staged: bool, unstaged: bool,
                         ghost start: seq<Cmd>)
    returns (r: Status<bool>, ghost entered: bool, ghost tried: seq<Cmd>, ghost body: seq<Cmd>,
             ghost attempt: Status<bool>, ghost id: Option<string>, ghost argv: seq<string>, ghost looked: seq<Cmd>,
             ghost us: string, ghost ss: string, ghost stashed: seq<StashEntry>, ghost applied: seq<string>)
    requires repo.Valid() && staged == repo.tree.staged && unstaged == repo.tree.unstaged
    requires Quiet(start, repo.trace) && |start| < |repo.trace| && repo.trace[|start|] == GitDiffNames(true)
    modifies repo
    ensures repo.Valid()
    ensures r.Return? || (r.Exit? && r.code != 0)
    ensures |repo.trace| > |start| && repo.trace[|start|] == GitDiffNames(true)
    ensures repo.trace[..|start|] == start
    ensures repo.stack == old(repo.stack)
    ensures |repo.Visible()| <= |old(repo.Visible())| && repo.Visible() == old(repo.Visible())[..|repo.Visible()|]
    ensures !entered ==> r.Exit? && applied == []
    ensures entered ==>
              && Quiet(start, tried) && |start| < |tried|
              && tried[|start|] == GitDiffNames(true)
              && StashedOver(stashed, old(repo.stashes), staged, unstaged, us, ss, UnstagedLabel, StagedLabel)
              && repo.stashes == AfterApplies(stashed, applied)
              && (attempt.Return? || (attempt.Exit? && attempt.code != 0))
              && applied <= Restores(staged, unstaged, us, ss)
    ensures entered && applied == Restores(staged, unstaged, us, ss) ==> r == attempt && repo.stashes == old(repo.stashes)
    ensures entered && applied != Restores(staged, unstaged, us, ss) ==> r.Exit? && StashFailed(body, repo.trace)
    ensures entered && attempt.Return? ==>
              && 1 <= position <= |old(repo.Visible())|
              && Reported(attempt.value, create, tried, body, old(repo.AbbrevRef()), argv)
              && BodyRan(tried, body, looked, old(repo.arcListing), old(repo.Visible()), position,
                         create, attempt.value, id, argv, old(repo.AbbrevRef()))
              && Quiet(body, repo.trace)
    ensures entered && attempt == Return(true) ==>
              && (create ==> id.None?)
              && (!create ==> id.Some? && IsDToken(id.value))
              && argv == ArcDiffArgv(Legacy, id, message)
  {
    entered, tried, body, attempt, id, argv, looked, us, ss, stashed, applied :=
      false, [], [], Exit(1), None, [], [], "", "", [], [];
    var done := StashForDiff(repo, staged, unstaged);
    QuietTrans(start, old(repo.trace), repo.trace);
    assert repo.trace[|start|] == GitDiffNames(true) by {
      assert repo.trace[..|old(repo.trace)|] == old(repo.trace);
    }
    if !done.Return? {
      r := Exit(done.code);
    } else {
      entered := true;
      tried, stashed := repo.trace, repo.stashes;
      us, ss := done.value.0, done.value.1;
      r, attempt, id, argv, looked, body, applied :=
        TryAndRestore(repo, position, message, create, staged, unstaged, done.value.0, done.value.1, old(repo.stashes));
      PrefixTrans(start, tried, repo.trace);
      assert repo.trace[|start|] == tried[|start|] by {
        assert repo.trace[..|tried|] == tried;
      }
    }
  }

  /**
   * Lines 38-46: stash the unstaged changes, then the staged ones, each
   * under its own label. A failing command ends the process before the
   * `try`, so nothing is restored.
   */
  method StashForDiff(repo: Repo, staged: bool, unstaged: bool) returns (r: Status<(string, string)>)
    requires repo.Valid() && staged == repo.tree.staged && unstaged == repo.tree.unstaged
    modifies repo
    ensures repo.Valid() && Quiet(old(repo.trace), repo.trace)
    ensures r.Return? || (r.Exit? && r.code != 0)
    ensures repo.Snapshot() == old(repo.Snapshot()).(stashes := repo.stashes, tree := repo.tree)
    ensures r.Return? ==>
              StashedOver(repo.stashes, old(repo.stashes), staged, unstaged, r.value.0, r.value.1, UnstagedLabel, StagedLabel)
  {
    var us := "";
    r := Exit(1);
    var failed := false;
    if unstaged {
      var st := StashChanges(repo, UnstagedLabel);
      if st.Return? {
        us := st.value;
      } else {
        r, failed := Exit(st.code), true;
      }
    }
    if !failed {
      r := StashStaged(repo, staged, unstaged, us, old(repo.stashes), old(repo.trace));
    }
  }

  /**
   * Line 43-46 after the unstaged stash (if any) was stored on top of
   * `base` without rewriting anything since `before`.
   */
  method StashStaged(repo: Repo, staged: bool, unstaged: bool, us: string,
                     ghost base: seq<StashEntry>, ghost before: seq<Cmd>)
    returns (r: Status<(string, string)>)
    requires repo.Valid() && Quiet(before, repo.trace)
    requires unstaged ==> IsHash(us) && repo.stashes == [StashEntry(us, UnstagedLabel)] + base && !repo.tree.Tracked()
    requires !unstaged ==> us == "" && repo.stashes == base && staged == repo.tree.staged
    modifies repo
    ensures repo.Valid() && Quiet(before, repo.trace)
    ensures r.Return? || (r.Exit? && r.code != 0)
    ensures repo.Snapshot() == old(repo.Snapshot()).(stashes := repo.stashes, tree := repo.tree)
    ensures r.Return? ==>
              r.value.0 == us && StashedOver(repo.stashes, base, staged, unstaged, us, r.value.1, UnstagedLabel, StagedLabel)
  {
    ghost var mid := repo.trace;
    if staged {
      var st := StashChanges(repo, StagedLabel);
      QuietTrans(before, mid, repo.trace);
      r := if st.Return? then Return((us, st.value)) else Exit(st.code);
    } else {
      r := Return((us, ""));
    }
  }

  /**
   * Lines 48-122 once the stash phase left the pool `StashedOver(base)`:
   * the `try` body, then the `finally` block.
   */
  method TryAndRestore(repo: Repo, position: int, message: string, create: bool,
                       staged: bool, unstaged: bool, us: string, ss: string, ghost base: seq<StashEntry>)
    returns (r: Status<bool>, attempt: Status<bool>, ghost id: Option<string>, ghost argv: seq<string>,
             ghost looked: seq<Cmd>, ghost body: seq<Cmd>, ghost applied: seq<string>)
    requires repo.Valid() && StashedOver(repo.stashes, base, staged, unstaged, us, ss, UnstagedLabel, StagedLabel)
    modifies repo
    ensures repo.Valid()
    ensures r.Return? || (r.Exit? && r.code != 0)
    ensures |old(repo.trace)| <= |repo.trace| && repo.trace[..|old(repo.trace)|] == old(repo.trace)
    ensures repo.stack == old(repo.stack)
    ensures |repo.Visible()| <= |old(repo.Visible())| && repo.Visible() == old(repo.Visible())[..|repo.Visible()|]
    ensures repo.stashes == AfterApplies(old(repo.stashes), applied)
    ensures attempt.Return? || (attempt.Exit? && attempt.code != 0)
    ensures applied <= Restores(staged, unstaged, us, ss)
    ensures applied == Restores(staged, unstaged, us, ss) ==> r == attempt && repo.stashes == base
    ensures applied != Restores(staged, unstaged, us, ss) ==> r.Exit? && StashFailed(body, repo.trace)
    ensures attempt.Return? ==>
              && 1 <= position <= |old(repo.Visible())|
              && Reported(attempt.value, create, old(repo.trace), body, old(repo.AbbrevRef()), argv)
              && BodyRan(old(repo.trace), body, looked, old(repo.arcListing), old(repo.Visible()), position,
                         create, attempt.value, id, argv, old(repo.AbbrevRef()))
              && Quiet(body, repo.trace)
    ensures attempt == Return(true) ==>
              && (create ==> id.None?)
              && (!create ==> id.Some? && IsDToken(id.value))
              && argv == ArcDiffArgv(Legacy, id, message)
  {
    attempt, id, argv, looked := DiffTarget(repo, Legacy, position, message, create);
    body := repo.trace;
    var restored;
    restored, applied := RestoreStashes(repo, staged, unstaged, us, ss);
    PrefixTrans(old(repo.trace), body, repo.trace);
    if restored.Return? {
      RestoredToBase(old(repo.stashes), base, staged, unstaged, us, ss, UnstagedLabel, StagedLabel);
    }
    r := if restored.Return? then attempt else Exit(restored.code);
  }

  /**
   * Lines 115-122: the `finally` block applies the staged stash, then the
   * unstaged one; `applied` lists the calls that returned. A failure is a
   * stash command's and ends the process.
   */
  method RestoreStashes(repo: Repo, staged: bool, unstaged: bool, us: string, ss: string)
    returns (r: Status<()>, ghost applied: seq<string>)
    requires repo.Valid()
    modifies repo
    ensures repo.Valid() && Quiet(old(repo.trace), repo.trace)
    ensures repo.Snapshot() == old(repo.Snapshot()).(stashes := repo.stashes, tree := repo.tree)
    ensures r.Return? || (r.Exit? && r.code != 0)
    ensures repo.stashes == AfterApplies(old(repo.stashes), applied)
    ensures applied <= Restores(staged, unstaged, us, ss)
    ensures r.Return? <==> applied == Restores(staged, unstaged, us, ss)
    ensures r.Exit? ==> StashFailed(old(repo.trace), repo.trace)
  {
    var first;
    first, applied := ApplyIfStashed(repo, staged, ss);
    if !first.Return? {
      return Exit(first.code), applied;
    }
    ghost var mid := repo.trace;
    ghost var done := applied;
    var second;
    ghost var more;
    second, more := ApplyIfStashed(repo, unstaged, us);
    QuietTrans(old(repo.trace), mid, repo.trace);
    applied := applied + more;
    AfterAppliesAppend(old(repo.stashes), done, more);
    PrefixAfter(done, more, if unstaged then [us] else []);
    if !second.Return? {
      StashFailedFrom(old(repo.trace), mid, repo.trace);
      return Exit(second.code), applied;
    }
    return Return(()), applied;
  }

  /** The number of `true` entries: the successes the stack loop counts. */
  function CountTrue(outcomes: seq<bool>): (n: nat)
    ensures n <= |outcomes|
    ensures n == |outcomes| <==> forall j :: 0 <= j < |outcomes| ==> outcomes[j]
  {
    if outcomes == [] then 0
    else CountTrue(outcomes[..|outcomes| - 1]) + (if outcomes[|outcomes| - 1] then 1 else 0)
  }

  /**
   * Lines 125-158: every position 1..N is processed whatever the earlier
   * ones gave, and the tally `(successes, failures)` adds up to N.
   * `outcomes` holds what each call reported and `segs` the commands each
   * call ran, after the stack listing.
   */
  method UpdateDiffStack(repo: Repo, message: string, create: bool)
    returns (r: Status<(nat, nat)>, ghost outcomes: seq<bool>, ghost segs: seq<seq<Cmd>>)
    requires repo.Valid()
    modifies repo
    ensures repo.Valid()
    ensures r.Return? || (r.Exit? && r.code != 0)
    ensures |repo.trace| > |old(repo.trace)| && repo.trace[|old(repo.trace)|] == GitRevList
    ensures old(repo.Visible()) == [] ==> r.Exit?
    ensures r.Return? ==>
              var (successes, failures) := r.value;
              && |outcomes| == |old(repo.Visible())|
              && successes == CountTrue(outcomes)
              && successes + failures == |old(repo.Visible())|
              && Ran(old(repo.trace) + [GitRevList], repo.trace, segs, outcomes, old(repo.Visible()))
  {
    outcomes, segs := [], [];
    var commits := GetAllCommitsInStack(repo);
    if !commits.Return? {
      return Exit(commits.code), outcomes, segs;
    }
    // lines 136-138 are never reached: an empty stack already ended the process
    ghost var t0 := repo.trace;
    r, outcomes, segs := TallyEach(repo, |commits.value|, message, create);
    assert repo.trace[..|t0|][|old(repo.trace)|] == GitRevList;
  }

  /**
   * Lines 142-154: positions 1..n of `master..HEAD` in turn, counting
   * successes and failures. Call `j` ran the commands `segs[j]` and
   * processed the commit at position `j + 1`.
   */
  method TallyEach(repo: Repo, n: nat, message: string, create: bool)
    returns (r: Status<(nat, nat)>, ghost outcomes: seq<bool>, ghost segs: seq<seq<Cmd>>)
    requires repo.Valid() && n == |repo.Visible()|
    modifies repo
    ensures repo.Valid()
    ensures r.Return? || (r.Exit? && r.code != 0)
    ensures |repo.trace| >= |old(repo.trace)| && repo.trace[..|old(repo.trace)|] == old(repo.trace)
    ensures r.Return? ==> |outcomes| == n && r.value.0 == CountTrue(outcomes) && r.value.0 + r.value.1 == n
    ensures r.Return? ==> Ran(old(repo.trace), repo.trace, segs, outcomes, old(repo.Visible()))
  {
    outcomes, segs := [], [];
    ghost var cs := repo.Visible();
    var successes, failures := 0, 0;
    var i := 0;
    while i < n
      invariant repo.Valid() && repo.stack == old(repo.stack)
      invariant 0 <= i <= n && |outcomes| == i
      invariant successes == CountTrue(outcomes) && successes + failures == i
      invariant Ran(old(repo.trace), repo.trace, segs, outcomes, cs)
    {
      var done;
      done, segs := TallyNext(repo, i + 1, message, create, old(repo.trace), cs, segs, outcomes);
      if done.Exit? {
        r := Exit(done.code);
        return;
      }
      assert (outcomes + [done.value])[..i] == outcomes;
      outcomes := outcomes + [done.value];
      if done.value {
        successes := successes + 1;
      } else {
        failures := failures + 1;
      }
      i := i + 1;
    }
    r := Return((successes, failures));
  }

  /**
   * Lines 149-151: the next call of the loop, for `position`, the one
   * after the `|segs|` calls that ran since `start`, added to the run.
   */
  method TallyNext(repo: Repo, position: int, message: string, create: bool, ghost start: seq<Cmd>, ghost cs: seq<Commit>,
                   ghost segs: seq<seq<Cmd>>, ghost outcomes: seq<bool>)
    returns (r: Status<bool>, ghost segs': seq<seq<Cmd>>)
    requires repo.Valid() && position == |segs| + 1 <= |cs| <= |repo.stack| && cs == repo.stack[..|cs|]
    requires Ran(start, repo.trace, segs, outcomes, cs)
    modifies repo
    ensures repo.Valid() && repo.stack == old(repo.stack)
    ensures r.Return? || (r.Exit? && r.code != 0)
    ensures |start| <= |repo.trace| && repo.trace[..|start|] == start
    ensures r.Return? ==> Ran(start, repo.trace, segs', outcomes + [r.value], cs)
  {
    ghost var before, vis := repo.trace, repo.Visible();
    ghost var i := |segs|;
    r := DiffStep(repo, position, message, create);
    segs' := segs + [repo.trace[|before|..]];
    assert repo.trace[..|start|] == repo.trace[..|before|][..|start|];
    if r.Return? {
      assert vis[i] == repo.stack[i] == cs[i];
      RanStep(start, before, repo.trace, segs, outcomes, cs, r.value);
    }
  }

  /**
   * Line 151: one call of the loop. It keeps the stack and leaves HEAD
   * where it was or at the commit, and when it returns it processed the
   * commit at `position` of `master..HEAD`.
   */
  method DiffStep(repo: Repo, position: int, message: string, create: bool) returns (r: Status<bool>)
    requires repo.Valid()
    modifies repo
    ensures repo.Valid() && repo.stack == old(repo.stack)
    ensures r.Return? || (r.Exit? && r.code != 0)
    ensures |repo.trace| > |old(repo.trace)| && repo.trace[..|old(repo.trace)|] == old(repo.trace)
    ensures repo.trace[|old(repo.trace)|] == GitDiffNames(true)
    ensures |repo.Visible()| <= |old(repo.Visible())| && repo.Visible() == old(repo.Visible())[..|repo.Visible()|]
    ensures r.Return? ==>
              && 1 <= position <= |old(repo.Visible())|
              && Processed(repo.trace[|old(repo.trace)|..], old(repo.Visible())[position - 1].hash, r.value)
  {
    ghost var entered, tried, body, attempt, id, argv, looked, us, ss, stashed, applied;
    r, entered, tried, body, attempt, id, argv, looked, us, ss, stashed, applied :=
      CreateOrUpdateDiff(repo, position, message, create);
    if r.Return? {
      QuietNoArcDiff(old(repo.trace), tried);
      QuietNoArcDiff(body, repo.trace);
      BodyChecksOut(tried, body, looked, old(repo.arcListing), old(repo.Visible()), position,
                    create, r.value, id, argv, old(repo.AbbrevRef()));
      ProcessedCall(old(repo.trace), tried, body, repo.trace, old(repo.Visible())[position - 1].hash,
                    create, r.value, argv, old(repo.AbbrevRef()));
    }
  }

  /**
   * Lines 161-177: the whole stack when `fullStack`, otherwise the one
   * position; the first command run tells them apart. On a normal return
   * `segs` holds the commands of each call and `outcomes` what each
   * reported.
   */
  method UpdateDiffCommand(repo: Repo, position: int, message: string, create: bool, fullStack: bool)
    returns (r: Status<()>, ghost outcomes: seq<bool>, ghost segs: seq<seq<Cmd>>)
    requires repo.Valid()
    modifies repo
    ensures repo.Valid()
    ensures r.Return? || (r.Exit? && r.code != 0)
    ensures |repo.trace| > |old(repo.trace)|
    ensures fullStack ==> repo.trace[|old(repo.trace)|] == GitRevList
    ensures !fullStack ==> repo.trace[|old(repo.trace)|] == GitDiffNames(true)
    ensures r.Return? && fullStack ==>
              |outcomes| == |old(repo.Visible())| && Ran(old(repo.trace) + [GitRevList], repo.trace, segs, outcomes, old(repo.Visible()))
    ensures r.Return? && !fullStack ==>
              && 1 <= position <= |old(repo.Visible())|
              && |segs| == |outcomes| == 1 && repo.trace == old(repo.trace) + segs[0]
              && Processed(segs[0], old(repo.Visible())[position - 1].hash, outcomes[0])
  {
    outcomes, segs := [], [];
    if fullStack {
      var done;
      done, outcomes, segs := UpdateDiffStack(repo, message, create);
      r := if done.Return? then Return(()) else Exit(done.code);
    } else {
      var done := DiffStep(repo, position, message, create);
      r := if done.Return? then Return(()) else Exit(done.code);
      if done.Return? {
        outcomes, segs := [done.value], [repo.trace[|old(repo.trace)|..]];
        assert repo.trace == old(repo.trace) + segs[0];
      }
    }
  }
}
