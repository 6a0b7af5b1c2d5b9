/**
 * src/anist/diff.py: `anist diff`. The copy of the workflow that sits next
 * to the shown utils.py calls `stash_changes` with a `staged_only` keyword
 * (line 47) and `apply_stash` with a `keep_index` keyword (lines 120 and
 * 123). Neither function takes such an argument, so each of those calls
 * raises `TypeError` before it runs anything. The stack loop stops at the
 * first failure.
 */
module AnistDiff {
  import opened Python
  import opened Parse
  import opened Git
  import opened Utils
  import opened DiffSync

  const UnstagedLabel := "anist_unstaged_changes_diff"

  /**
   * Lines 21-123: create_or_update_diff. `tried` is the trace when the
   * `try` body starts and `attempt` what the body gave (a normal return
   * or the end of the process); `id` and `argv` are as in `DiffTarget`.
   * With staged changes `TypeError` is raised at line 47, before the
   * `try`. With unstaged changes the body runs, and then the `finally`
   * raises `TypeError` at line 123; the stash stays in the pool. `looked`
   * is as in `DiffTarget`.
   */
  method CreateOrUpdateDiff(repo: Repo, position: int, message: string, create: bool)
    returns (r: Status<bool>, ghost tried: seq<Cmd>, ghost attempt: Status<bool>,
             ghost id: Option<string>, ghost argv: seq<string>, ghost looked: seq<Cmd>)
    requires repo.Valid()
    modifies repo
    ensures repo.Valid()
    ensures |repo.Visible()| <= |old(repo.Visible())| && repo.Visible() == old(repo.Visible())[..|repo.Visible()|]
    ensures r.Return? || (r.Exit? && r.code != 0) || r == Raise(TypeError)
    ensures |repo.trace| > |old(repo.trace)| && repo.trace[|old(repo.trace)|] == GitDiffNames(true)
    ensures repo.trace[..|old(repo.trace)|] == old(repo.trace)
    ensures repo.stack == old(repo.stack)
    ensures old(repo.tree.staged) ==>
              && (r.Exit? || r == Raise(TypeError))
              && Quiet(old(repo.trace), repo.trace) && repo.head == old(repo.head)
    ensures old(repo.tree.staged) && r == Raise(TypeError) && !old(repo.tree.unstaged) ==>
              repo.stashes == old(repo.stashes) && repo.tree == old(repo.tree)
    ensures old(repo.tree.unstaged) ==> r.Exit? || r == Raise(TypeError)
    ensures old(repo.tree.unstaged) && r == Raise(TypeError) ==>
              && |repo.stashes| == |old(repo.stashes)| + 1
              && repo.stashes[0].message == UnstagedLabel && repo.stashes[1..] == old(repo.stashes)
              && repo.tree == old(repo.tree).Reset()
    ensures !old(repo.tree.staged) && !old(repo.tree.unstaged) ==>
              && r == attempt
              && repo.stashes == old(repo.stashes) && repo.tree == old(repo.tree)
    ensures !old(repo.tree.staged) && !old(repo.tree.unstaged) && attempt.Return? ==>
              tried == old(repo.trace) + [GitDiffNames(true), GitDiffNames(false)]
    ensures !old(repo.tree.staged) && attempt.Return? ==>
              && 1 <= position <= |old(repo.Visible())|
              && Reported(attempt.value, create, tried, repo.trace, old(repo.AbbrevRef()), argv)
              && BodyRan(tried, repo.trace, looked, old(repo.arcListing), old(repo.Visible()), position,
                         create, attempt.value, id, argv, old(repo.AbbrevRef()))
    ensures !old(repo.tree.staged) && attempt == Return(true) ==>
              && (create ==> id.None?)
              && (!create ==> id.Some? && IsDToken(id.value))
              && argv == ArcDiffArgv(Anist, id, message)
  {
    tried, attempt, id, argv, looked := [], Exit(1), None, [], [];
    var prepared := StashForDiff(repo);
    if !prepared.Return? {
      var early: Status<bool> := if prepared.Exit? then Exit(prepared.code) else Raise(TypeError);
      attempt := early;
      return early, tried, attempt, id, argv, looked;
    }
    tried := repo.trace;
    r, attempt, id, argv, looked := TryDiff(repo, position, message, create, prepared.value.1);
    assert repo.trace[..|old(repo.trace)|] == repo.trace[..|tried|][..|old(repo.trace)|];
  }

  /**
   * Lines 49-123: the `try` body and its `finally`. The body's outcome is
   * `attempt`; with unstaged changes stashed, the `finally` replaces it by
   * the `TypeError` of line 123 (line 120 is never reached, since staged
   * changes already ended the call at line 47).
   */
  method TryDiff(repo: Repo, position: int, message: string, create: bool, unstaged: bool)
    returns (r: Status<bool>, ghost attempt: Status<bool>, ghost id: Option<string>, ghost argv: seq<string>,
             ghost looked: seq<Cmd>)
    requires repo.Valid()
    modifies repo
    ensures repo.Valid()
    ensures repo.stack == old(repo.stack) && repo.stashes == old(repo.stashes) && repo.tree == old(repo.tree)
    ensures repo.arcListing == old(repo.arcListing)
    ensures |repo.Visible()| <= |old(repo.Visible())| && repo.Visible() == old(repo.Visible())[..|repo.Visible()|]
    ensures |old(repo.trace)| <= |repo.trace| && repo.trace[..|old(repo.trace)|] == old(repo.trace)
    ensures attempt.Return? || (attempt.Exit? && attempt.code != 0)
    ensures r == (if unstaged then Raise(TypeError) else attempt)
    ensures attempt.Return? ==>
              && 1 <= position <= |old(repo.Visible())|
              && Reported(attempt.value, create, old(repo.trace), repo.trace, old(repo.AbbrevRef()), argv)
              && BodyRan(old(repo.trace), repo.trace, looked, old(repo.arcListing), old(repo.Visible()), position,
                         create, attempt.value, id, argv, old(repo.AbbrevRef()))
    ensures attempt == Return(true) ==>
              && (create ==> id.None?)
              && (!create ==> id.Some? && IsDToken(id.value))
              && argv == ArcDiffArgv(Anist, id, message)
  {
    var result;
    result, id, argv, looked := DiffTarget(repo, Anist, position, message, create);
    attempt := result;
    if unstaged {
      // line 123: `apply_stash` has no `keep_index` parameter
      return Raise(TypeError), attempt, id, argv, looked;
    }
    return result, attempt, id, argv, looked;
  }

  /**
   * Lines 36-47: check for changes and stash the unstaged ones. With staged
   * changes the call at line 47 raises `TypeError`; the result is then the
   * pair of flags of a tree with no staged changes.
   */
  method StashForDiff(repo: Repo) returns (r: Status<(bool, bool)>)
    requires repo.Valid()
    modifies repo
    ensures repo.Valid() && Quiet(old(repo.trace), repo.trace)
    ensures |repo.trace| > |old(repo.trace)| && repo.trace[|old(repo.trace)|] == GitDiffNames(true)
    ensures repo.Snapshot() == old(repo.Snapshot()).(stashes := repo.stashes, tree := repo.tree)
    ensures r.Return? || (r.Exit? && r.code != 0) || r == Raise(TypeError)
    ensures r.Return? ==> r.value == (false, old(repo.tree.unstaged)) && !old(repo.tree.staged)
    ensures r == Raise(TypeError) ==> old(repo.tree.staged)
    ensures old(repo.tree.staged) ==> !r.Return?
    ensures (r.Return? || r == Raise(TypeError)) && old(repo.tree.unstaged) ==>
              && |repo.stashes| == |old(repo.stashes)| + 1
              && repo.stashes[0].message == UnstagedLabel && repo.stashes[1..] == old(repo.stashes)
              && repo.tree == old(repo.tree).Reset()
    ensures !old(repo.tree.unstaged) ==> repo.stashes == old(repo.stashes) && repo.tree == old(repo.tree)
    ensures r.Return? && !old(repo.tree.unstaged) ==> repo.trace == old(repo.trace) + [GitDiffNames(true), GitDiffNames(false)]
  {
    var changes := Utils.CheckChanges(repo);
    if !changes.Return? {
      return Exit(changes.code);
    }
    var staged := changes.value.0;
    var unstaged := changes.value.1;
    ghost var t0 := repo.trace;
    if unstaged {
      var st := StashChanges(repo, UnstagedLabel);
      QuietTrans(old(repo.trace), t0, repo.trace);
      assert repo.trace[..|t0|] == t0;
      if !st.Return? {
        return Exit(st.code);
      }
    }
    if staged {
      // line 47: `stash_changes` has no `staged_only` parameter
      return Raise(TypeError);
    }
    return Return((staged, unstaged));
  }

  /**
   * Lines 126-165: the commits are processed at positions 1, 2, ... and
   * the loop stops at the first that reports failure. The result is the
   * pair (successes, failures); `outcomes` holds what each call reported
   * and `segs` the commands each call ran, after the stack listing.
   */
  method UpdateDiffStack(repo: Repo, message: string, create: bool)
    returns (r: Status<(nat, nat)>, ghost outcomes: seq<bool>, ghost segs: seq<seq<Cmd>>)
    requires repo.Valid()
    modifies repo
    ensures repo.Valid()
    ensures r.Return? || (r.Exit? && r.code != 0) || r == Raise(TypeError)
    ensures |repo.trace| > |old(repo.trace)| && repo.trace[|old(repo.trace)|] == GitRevList
    ensures old(repo.Visible()) == [] ==> r.Exit?
    ensures r.Return? ==>
              var (successes, failures) := r.value;
              && failures <= 1
              && |outcomes| == successes + failures <= |old(repo.Visible())|
              && (failures == 0 ==> successes == |old(repo.Visible())|)
              && (forall j :: 0 <= j < successes ==> outcomes[j])
              && (failures == 1 ==> !outcomes[successes])
              && Ran(old(repo.trace) + [GitRevList], repo.trace, segs, outcomes, old(repo.Visible()))
  {
    outcomes, segs := [], [];
    var commits := GetAllCommitsInStack(repo);
    if !commits.Return? {
      return Exit(commits.code), outcomes, segs;
    }
    // lines 138-140 are never reached: an empty stack already ended the process
    ghost var t0 := repo.trace;
    r, outcomes, segs := DiffEach(repo, |commits.value|, message, create);
    assert repo.trace[..|t0|][|old(repo.trace)|] == GitRevList;
  }

  /**
   * Lines 144-161: positions 1..n of `master..HEAD` in turn, stopping at
   * the first that reports failure or ends the process. Call `j` ran the
   * commands `segs[j]` and processed the commit at position `j + 1`.
   */
  method DiffEach(repo: Repo, n: nat, message: string, create: bool)
    returns (r: Status<(nat, nat)>, ghost outcomes: seq<bool>, ghost segs: seq<seq<Cmd>>)
    requires repo.Valid() && n == |repo.Visible()|
    modifies repo
    ensures repo.Valid()
    ensures r.Return? || (r.Exit? && r.code != 0) || r == Raise(TypeError)
    ensures |repo.trace| >= |old(repo.trace)| && repo.trace[..|old(repo.trace)|] == old(repo.trace)
    ensures r.Return? ==> r.value.1 <= 1 && |outcomes| == r.value.0 + r.value.1 <= n
    ensures r.Return? && r.value.1 == 0 ==> r.value.0 == n
    ensures r.Return? ==> forall j :: 0 <= j < r.value.0 ==> outcomes[j]
    ensures r.Return? && r.value.1 == 1 ==> !outcomes[r.value.0]
    ensures r.Return? ==> Ran(old(repo.trace), repo.trace, segs, outcomes, old(repo.Visible()))
  {
    outcomes, segs := [], [];
    ghost var cs := repo.Visible();
    var successes := 0;
    var i := 0;
    while i < n
      invariant repo.Valid() && repo.stack == old(repo.stack)
      invariant 0 <= i <= n && successes == i && |outcomes| == i
      invariant forall j :: 0 <= j < i ==> outcomes[j]
      invariant Ran(old(repo.trace), repo.trace, segs, outcomes, cs)
    {
      var done;
      done, segs := DiffNext(repo, i + 1, message, create, old(repo.trace), cs, segs, outcomes);
      if !done.Return? {
        r := if done.Exit? then Exit(done.code) else Raise(done.error);
        return;
      }
      outcomes := outcomes + [done.value];
      if !done.value {
        r := Return((successes, 1));
        return;
      }
      successes := successes + 1;
      i := i + 1;
    }
    r := Return((successes, 0));
  }

  /**
   * Lines 150-152: the next call of the loop, for `position`, the one
   * after the `|segs|` calls that ran since `start`, added to the run.
   */
  method DiffNext(repo: Repo, position: int, message: string, create: bool, ghost start: seq<Cmd>, ghost cs: seq<Commit>,
                  ghost segs: seq<seq<Cmd>>, ghost outcomes: seq<bool>)
    returns (r: Status<bool>, ghost segs': seq<seq<Cmd>>)
    requires repo.Valid() && position == |segs| + 1 <= |cs| <= |repo.stack| && cs == repo.stack[..|cs|]
    requires Ran(start, repo.trace, segs, outcomes, cs)
    modifies repo
    ensures repo.Valid() && repo.stack == old(repo.stack)
    ensures r.Return? || (r.Exit? && r.code != 0) || r == Raise(TypeError)
    ensures |start| <= |repo.trace| && repo.trace[..|start|] == start
    ensures r.Return? ==> Ran(start, repo.trace, segs', outcomes + [r.value], cs)
  {
    ghost var before, vis := repo.trace, repo.Visible();
    ghost var i := |segs|;
    r := DiffStep(repo, position, message, create);
    segs' := segs + [repo.trace[|before|..]];
    assert repo.trace[..|start|] == repo.trace[..|before|][..|start|];
    if r.Return? {
      assert vis[i] == repo.stack[i] == cs[i];
      RanStep(start, before, repo.trace, segs, outcomes, cs, r.value);
    }
  }

  /**
   * Line 152: one call of the loop. It keeps the stack and leaves HEAD
   * where it was or at the commit, and when it returns it processed the
   * commit at `position` of `master..HEAD`.
   */
  method DiffStep(repo: Repo, position: int, message: string, create: bool) returns (r: Status<bool>)
    requires repo.Valid()
    modifies repo
    ensures repo.Valid() && repo.stack == old(repo.stack)
    ensures r.Return? || (r.Exit? && r.code != 0) || r == Raise(TypeError)
    ensures |repo.trace| > |old(repo.trace)| && repo.trace[..|old(repo.trace)|] == old(repo.trace)
    ensures repo.trace[|old(repo.trace)|] == GitDiffNames(true)
    ensures |repo.Visible()| <= |old(repo.Visible())| && repo.Visible() == old(repo.Visible())[..|repo.Visible()|]
    ensures r.Return? ==>
              && 1 <= position <= |old(repo.Visible())|
              && Processed(repo.trace[|old(repo.trace)|..], old(repo.Visible())[position - 1].hash, r.value)
  {
    ghost var tried, attempt, id, argv, looked;
    r, tried, attempt, id, argv, looked := CreateOrUpdateDiff(repo, position, message, create);
    if r.Return? {
      BodyChecksOut(tried, repo.trace, looked, old(repo.arcListing), old(repo.Visible()), position,
                    create, r.value, id, argv, old(repo.AbbrevRef()));
      CheckedCall(old(repo.trace), tried, repo.trace, old(repo.Visible())[position - 1].hash,
                  create, r.value, argv, old(repo.AbbrevRef()));
    }
  }

  /**
   * The outcomes of a loop over `n` positions that stops at the first
   * failure: every call but the last succeeded, and the loop ended before
   * position `n` only after a failure.
   */
  predicate StoppedAtFailure(outcomes: seq<bool>, n: nat) {
    && |outcomes| <= n
    && (forall j :: 0 <= j < |outcomes| - 1 ==> outcomes[j])
    && (|outcomes| < n ==> outcomes != [] && !outcomes[|outcomes| - 1])
  }

  /** The tally (successes, failures) of lines 144-165 gives that shape. */
  lemma StopsAtFirstFailure(outcomes: seq<bool>, successes: nat, failures: nat, n: nat)
    requires failures <= 1 && |outcomes| == successes + failures <= n
    requires failures == 0 ==> successes == n
    requires forall j :: 0 <= j < successes ==> outcomes[j]
    requires failures == 1 ==> !outcomes[successes]
    ensures StoppedAtFailure(outcomes, n)
  {
  }

  /**
   * Lines 168-183: the whole stack when `fullStack`, otherwise the one
   * position. The first command run tells them apart: the stack listing
   * for the loop, the staged-changes check for a single position. On a
   * normal return `segs` holds the commands of each call and `outcomes`
   * what each reported.
   */
  method UpdateDiffCommand(repo: Repo, position: int, message: string, create: bool, fullStack: bool)
    returns (r: Status<()>, ghost outcomes: seq<bool>, ghost segs: seq<seq<Cmd>>)
    requires repo.Valid()
    modifies repo
    ensures repo.Valid()
    ensures r.Return? || (r.Exit? && r.code != 0) || r == Raise(TypeError)
    ensures |repo.trace| > |old(repo.trace)|
    ensures fullStack ==> repo.trace[|old(repo.trace)|] == GitRevList
    ensures !fullStack ==> repo.trace[|old(repo.trace)|] == GitDiffNames(true)
    ensures r.Return? && fullStack ==>
              && Ran(old(repo.trace) + [GitRevList], repo.trace, segs, outcomes, old(repo.Visible()))
              && StoppedAtFailure(outcomes, |old(repo.Visible())|)
    ensures r.Return? && !fullStack ==>
              && 1 <= position <= |old(repo.Visible())|
              && |segs| == |outcomes| == 1 && repo.trace == old(repo.trace) + segs[0]
              && Processed(segs[0], old(repo.Visible())[position - 1].hash, outcomes[0])
  {
    outcomes, segs := [], [];
    if fullStack {
      var done;
      done, outcomes, segs := UpdateDiffStack(repo, message, create);
      r := match done
        case Return(_) => Return(())
        case Exit(code) => Exit(code)
        case Raise(e) => Raise(e);
      if done.Return? {
        StopsAtFirstFailure(outcomes, done.value.0, done.value.1, |old(repo.Visible())|);
      }
    } else {
      var done := DiffStep(repo, position, message, create);
      r := match done
        case Return(_) => Return(())
        case Exit(code) => Exit(code)
        case Raise(e) => Raise(e);
      if done.Return? {
        outcomes, segs := [done.value], [repo.trace[|old(repo.trace)|..]];
        assert repo.trace == old(repo.trace) + segs[0];
      }
    }
  }
}
