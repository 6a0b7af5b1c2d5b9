/**
 * build/lib/src/commit.py: editing the n-th commit of the stack. The
 * working-tree changes are stashed. An interactive rebase is started with a
 * plan that stops at the target commit. The staged changes are amended
 * into that commit, the rebase is continued, and the unstaged changes come
 * back.
 */
module Commit {
  import opened Python
  import opened Text
  import opened Parse
  import opened Git
  import opened Utils

  const UnstagedLabel := "anist_unstaged_changes"
  const StagedLabel := "anist_staged_changes"

  // ----- the rebase plan -----

  /** One kept line of the todo list: `edit` when it names the target, `pick` otherwise. */
  function Mark(line: string, target: string): string {
    (if Contains(line, target) then "edit " else "pick ") + line
  }

  /** The plan for a todo list: its non-header lines, in order, each marked. */
  function RebasePlan(todo: seq<string>, target: string): (plan: seq<string>)
    ensures var kept := DropCommitHeaders(todo);
            |plan| == |kept| && forall i :: 0 <= i < |kept| ==> plan[i] == Mark(kept[i], target)
  {
    var kept := DropCommitHeaders(todo);
    seq(|kept|, i requires 0 <= i < |kept| => Mark(kept[i], target))
  }

  /** The plan of a longer todo list extends the plan of its prefix. */
  lemma RebasePlanAppend(todo: seq<string>, line: string, target: string)
    ensures RebasePlan(todo + [line], target)
            == RebasePlan(todo, target) + (if StartsWith(line, "commit ") then [] else [Mark(line, target)])
  {
    DropCommitHeadersAppend(todo, [line]);
    assert DropCommitHeaders([line]) == if StartsWith(line, "commit ") then [] else [line];
  }

  /** The loop of lines 74-82: skip the header lines, mark the others. */
  method BuildRebasePlan(todo: seq<string>, target: string) returns (plan: seq<string>)
    ensures plan == RebasePlan(todo, target)
  {
    plan := [];
    var k := 0;
    while k < |todo|
      invariant k <= |todo|
      invariant plan == RebasePlan(todo[..k], target)
    {
      var line := todo[k];
      RebasePlanAppend(todo[..k], line, target);
      assert todo[..k + 1] == todo[..k] + [line];
      if !StartsWith(line, "commit ") {
        if Contains(line, target) {
          plan := plan + ["edit " + line];
        } else {
          plan := plan + ["pick " + line];
        }
      }
      k := k + 1;
    }
    assert todo[..k] == todo;
  }

  /** The `%H %s` lines of the commits, without the header lines. */
  function TodoLines(cs: seq<Commit>): (ls: seq<string>)
    ensures |ls| == |cs| && forall i :: 0 <= i < |cs| ==> ls[i] == TodoLine(cs[i])
  {
    seq(|cs|, i requires 0 <= i < |cs| => TodoLine(cs[i]))
  }

  lemma TodoLineShape(c: Commit)
    requires IsHash(c.hash) && '\n' !in c.subject
    ensures var l := TodoLine(c); l != [] && l[0] == c.hash[0] && '\n' !in l && !StartsWith(l, "commit ")
  {
    var l := TodoLine(c);
    HashShape(c.hash);
    forall j | 0 <= j < |l| ensures l[j] != '\n' {
      if j < 40 {
        assert l[j] == c.hash[j];
      } else if j > 40 {
        assert l[j] == c.subject[j - 41];
      }
    }
    assert l[1] == c.hash[1] && IsHexDigit(c.hash[1]) && !IsHexDigit("commit "[1]);
  }

  /** Dropping the header lines of the `%H %s` listing leaves one line per commit, in order. */
  lemma {:induction false} TodoListingHeaders(cs: seq<Commit>)
    requires forall i :: 0 <= i < |cs| ==> IsHash(cs[i].hash) && '\n' !in cs[i].subject
    ensures DropCommitHeaders(TodoListing(cs)) == TodoLines(cs)
  {
    if cs != [] {
      HeaderShape(cs[0].hash);
      TodoLineShape(cs[0]);
      DropHeaderPair("commit " + cs[0].hash, TodoLine(cs[0]), TodoListing(cs[1..]));
      TodoListingHeaders(cs[1..]);
      TodoLinesCons(cs);
    }
  }

  lemma TodoLinesCons(cs: seq<Commit>)
    requires cs != []
    ensures TodoLines(cs) == [TodoLine(cs[0])] + TodoLines(cs[1..])
  {
  }

  lemma {:induction false} TodoListingShape(cs: seq<Commit>)
    requires forall i :: 0 <= i < |cs| ==> IsHash(cs[i].hash) && '\n' !in cs[i].subject
    ensures forall k :: 0 <= k < |TodoListing(cs)| ==> '\n' !in TodoListing(cs)[k]
    ensures cs != [] ==> TodoListing(cs)[0] == "commit " + cs[0].hash
                         && Last(TodoListing(cs)) == TodoLine(cs[|cs| - 1])
  {
    if cs != [] {
      HeaderShape(cs[0].hash);
      TodoLineShape(cs[0]);
      TodoListingShape(cs[1..]);
      var ls := TodoListing(cs);
      forall k | 2 <= k < |ls| ensures ls[k] == TodoListing(cs[1..])[k - 2] { }
    }
  }

  /**
   * The commits a `target^..HEAD` listing shows, in the shape git gives
   * them: single-line subjects, the last one non-empty without surrounding
   * whitespace.
   */
  predicate ListingReadable(cs: seq<Commit>) {
    && cs != []
    && (forall i :: 0 <= i < |cs| ==> IsHash(cs[i].hash) && '\n' !in cs[i].subject)
    && cs[|cs| - 1].subject != [] && Strip(cs[|cs| - 1].subject) == cs[|cs| - 1].subject
  }

  /** A readable listing whose hashes are distinct from the target's and whose subjects do not hold it. */
  predicate TodoReadable(cs: seq<Commit>) {
    && ListingReadable(cs)
    && (forall i :: 1 <= i < |cs| ==> cs[i].hash != cs[0].hash)
    && (forall i :: 0 <= i < |cs| ==> !Contains(cs[i].subject, cs[0].hash))
  }

  /** What `git rev-list --reverse target^..HEAD --format="%H %s"` prints reads back line for line. */
  lemma TodoListingLines(cs: seq<Commit>)
    requires ListingReadable(cs)
    ensures Lines(Output(TodoListing(cs))) == TodoListing(cs)
  {
    var ls := TodoListing(cs);
    TodoListingShape(cs);
    HeaderShape(cs[0].hash);
    var s := cs[|cs| - 1].subject;
    assert !IsSpace(s[|s| - 1]);
    assert Last(ls)[|Last(ls)| - 1] == s[|s| - 1];
    LinesOfOutput(ls);
  }

  /** A hash cannot match across the space that follows a forty-character hash. */
  lemma NoMatchAcrossSpace(line: string, target: string)
    requires IsHash(target) && |line| > 40 && line[40] == ' '
    ensures forall p :: 0 < p <= 40 ==> !OccursAt(line, target, p)
  {
    forall p | 0 < p <= 40 ensures !OccursAt(line, target, p) {
      if p + 40 <= |line| {
        assert IsHexDigit(target[40 - p]);
        assert line[p..p + 40][40 - p] == ' ';
      }
    }
  }

  /** A forty-character hash can only match a `%H %s` line at its start or inside the subject. */
  lemma HashMatchInTodoLine(c: Commit, target: string, p: int)
    requires IsHash(c.hash) && IsHash(target) && OccursAt(TodoLine(c), target, p)
    ensures (p == 0 && target == c.hash) || OccursAt(c.subject, target, p - 41)
  {
    var line := TodoLine(c);
    assert |c.hash| == 40 && |line| == 41 + |c.subject| && line[40] == ' ';
    NoMatchAcrossSpace(line, target);
    if p == 0 {
      assert target == line[..40] == c.hash;
    } else {
      assert forall j :: 0 <= j < 40 ==> target[j] == line[p + j] == c.subject[p - 41 + j];
      assert c.subject[p - 41..p - 41 + 40] == target;
    }
  }

  /** A `%H %s` line holds a hash exactly when it is the commit's own, unless the subject holds it. */
  lemma TargetInTodoLine(c: Commit, target: string)
    requires IsHash(c.hash) && IsHash(target) && !Contains(c.subject, target)
    ensures Contains(TodoLine(c), target) <==> c.hash == target
  {
    if c.hash == target {
      assert OccursAt(TodoLine(c), target, 0);
    } else if Contains(TodoLine(c), target) {
      var p :| OccursAt(TodoLine(c), target, p);
      HashMatchInTodoLine(c, target, p);
      assert false;
    }
  }

  /**
   * For the commits from the target on, the plan has one line per commit,
   * in stack order, and only the first, the target itself, is `edit`.
   */
  lemma PlanEditsTargetOnly(cs: seq<Commit>)
    requires TodoReadable(cs)
    ensures var plan := RebasePlan(Lines(Output(TodoListing(cs))), cs[0].hash);
            && |plan| == |cs|
            && plan[0] == "edit " + TodoLine(cs[0])
            && forall i :: 1 <= i < |cs| ==> plan[i] == "pick " + TodoLine(cs[i])
  {
    TodoListingLines(cs);
    TodoListingHeaders(cs);
    var kept := TodoLines(cs);
    forall i | 0 <= i < |cs| ensures Contains(kept[i], cs[0].hash) <==> i == 0 {
      TargetInTodoLine(cs[i], cs[0].hash);
    }
  }

  /** The plan for the listing of `cs` marks each commit's `%H %s` line. */
  lemma PlanOfListing(cs: seq<Commit>)
    requires ListingReadable(cs)
    ensures var plan := RebasePlan(Lines(Output(TodoListing(cs))), cs[0].hash);
            |plan| == |cs| && forall i :: 0 <= i < |cs| ==> plan[i] == Mark(TodoLine(cs[i]), cs[0].hash)
  {
    TodoListingLines(cs);
    TodoListingHeaders(cs);
  }

  lemma MarkShape(c: Commit, target: string)
    requires IsHash(c.hash) && '\n' !in c.subject
    ensures '\n' !in Mark(TodoLine(c), target)
  {
    TodoLineShape(c);
    var mark := if Contains(TodoLine(c), target) then "edit " else "pick ";
    assert Mark(TodoLine(c), target) == mark + TodoLine(c);
    assert '\n' !in mark;
  }

  /** A plan whose first line is a commit's `edit` line stops at that commit. */
  lemma EditLineStops(c: Commit, plan: seq<string>)
    requires IsHash(c.hash) && plan != [] && plan[0] == Mark(TodoLine(c), c.hash)
    ensures EditStop(plan) == Some(c.hash)
  {
    assert OccursAt(TodoLine(c), c.hash, 0);
    assert plan[0] == "edit " + TodoLine(c);
    assert plan[0][5..45] == c.hash;
  }

  /**
   * The plan stops the rebase at the target: its first line is the
   * target's own `edit` line, whatever the later subjects hold.
   */
  lemma PlanStopsAtTarget(cs: seq<Commit>)
    requires ListingReadable(cs)
    ensures EditStop(Split(Join(RebasePlan(Lines(Output(TodoListing(cs))), cs[0].hash), '\n'), '\n')) == Some(cs[0].hash)
  {
    var plan := RebasePlan(Lines(Output(TodoListing(cs))), cs[0].hash);
    PlanOfListing(cs);
    forall i | 0 <= i < |plan| ensures '\n' !in plan[i] {
      MarkShape(cs[i], cs[0].hash);
    }
    SplitJoin(plan, '\n');
    EditLineStops(cs[0], plan);
  }

  // ----- the edit workflow -----

  /** The plan text the sequence editor hands to `git rebase -i` when the commit at `position` is edited. */
  function PlanText(cs: seq<Commit>, position: int): string
    requires 1 <= position <= |cs|
  {
    Join(RebasePlan(Lines(Output(TodoListing(cs[position - 1..]))), cs[position - 1].hash), '\n')
  }

  lemma TwoCommands(t: seq<Cmd>, a: Cmd, b: Cmd)
    ensures t + [a] + [b] == t + [a, b]
  {
  }

  lemma ThreeCommands(t: seq<Cmd>, a: Cmd, b: Cmd, c: Cmd)
    ensures t + [a] + [b, c] == t + [a, b, c]
  {
  }

  /** A command of the amend step: `git add -u`, `git commit --amend`, `git rebase --continue`. */
  predicate Amending(c: Cmd) {
    c.GitAdd? || c.GitAmend? || c.GitContinue?
  }

  /** `after` is `before` followed only by commands that are not `Amending`. */
  predicate NoAmend(before: seq<Cmd>, after: seq<Cmd>) {
    |before| <= |after| && after[..|before|] == before
    && forall i :: |before| <= i < |after| ==> !Amending(after[i])
  }

  lemma NoAmendTrans(a: seq<Cmd>, b: seq<Cmd>, c: seq<Cmd>)
    requires NoAmend(a, b) && NoAmend(b, c)
    ensures NoAmend(a, c)
  {
    assert c[..|a|] == c[..|b|][..|a|];
    forall i | |a| <= i < |c| ensures !Amending(c[i]) {
      if i < |b| {
        assert c[i] == c[..|b|][i];
      }
    }
  }

  /** The amend step ran: `git add -u`, `git commit --amend`, `git rebase --continue`, one after the other. */
  predicate AmendedIn(before: seq<Cmd>, after: seq<Cmd>) {
    exists i :: |before| <= i <= |after| - 3 && after[i] == GitAdd && after[i + 1] == GitAmend && after[i + 2] == GitContinue
  }

  lemma AmendedInExtends(before: seq<Cmd>, mid: seq<Cmd>, after: seq<Cmd>)
    requires AmendedIn(before, mid) && |mid| <= |after| && after[..|mid|] == mid
    ensures AmendedIn(before, after)
  {
    var i :| |before| <= i <= |mid| - 3 && mid[i] == GitAdd && mid[i + 1] == GitAmend && mid[i + 2] == GitContinue;
    assert after[i] == mid[i] && after[i + 1] == mid[i + 1] && after[i + 2] == mid[i + 2];
  }

  lemma AmendedInFrom(before: seq<Cmd>, mid: seq<Cmd>, after: seq<Cmd>)
    requires |before| <= |mid| && AmendedIn(mid, after)
    ensures AmendedIn(before, after)
  {
    var i :| |mid| <= i <= |after| - 3 && after[i] == GitAdd && after[i + 1] == GitAmend && after[i + 2] == GitContinue;
    assert |before| <= i <= |after| - 3 && after[i] == GitAdd && after[i + 1] == GitAmend && after[i + 2] == GitContinue;
  }

  /** Commands that rewrite nothing amend nothing. */
  lemma NoAmendQuiet(before: seq<Cmd>, after: seq<Cmd>)
    requires Quiet(before, after)
    ensures NoAmend(before, after)
  {
  }

  lemma NoAmendAppend(before: seq<Cmd>, extra: seq<Cmd>)
    requires forall c :: c in extra ==> !Amending(c)
    ensures NoAmend(before, before + extra)
  {
    assert (before + extra)[..|before|] == before;
    forall i | |before| <= i < |before + extra| ensures !Amending((before + extra)[i]) {
      assert (before + extra)[i] == extra[i - |before|];
    }
  }

  /**
   * Lines 37-47: the unstaged changes are stashed first, then the staged
   * ones, and the pool is `StashedOver` what it was.
   */
  method StashForEdit(repo: Repo, staged: bool, unstaged: bool) returns (r: Status<(string, string)>)
    requires repo.Valid() && staged == repo.tree.staged && unstaged == repo.tree.unstaged
    modifies repo
    ensures repo.Valid() && Quiet(old(repo.trace), repo.trace)
    ensures r.Return? || (r.Exit? && r.code != 0)
    ensures repo.Snapshot() == old(repo.Snapshot()).(stashes := repo.stashes, tree := repo.tree)
    ensures r.Return? ==>
              && StashedOver(repo.stashes, old(repo.stashes), staged, unstaged, r.value.0, r.value.1, UnstagedLabel, StagedLabel)
              && repo.tree == if staged || unstaged then old(repo.tree).Reset() else old(repo.tree)
  {
    var us := "";
    if unstaged {
      var st := StashChanges(repo, UnstagedLabel);
      if !st.Return? {
        return Exit(st.code);
      }
      us := st.value;
    }
    ghost var mid := repo.trace;
    var ss := "";
    if staged {
      var st := StashChanges(repo, StagedLabel);
      QuietTrans(old(repo.trace), mid, repo.trace);
      if !st.Return? {
        return Exit(st.code);
      }
      ss := st.value;
    }
    return Return((us, ss));
  }

  /**
   * The rebase is paused at the commit at `position`, which may be amended
   * already: HEAD is detached there, and `branch` is checked out again
   * when the rebase ends.
   */
  predicate PausedAt(s: State, position: int, branch: string) {
    1 <= position <= |s.stack| && s.rebasing && s.head == s.stack[position - 1].hash && s.rebaseHead == branch
  }

  /**
   * The paused rebase ran to its end: what was checked out when it started
   * is checked out again, and the commits from the one HEAD was detached
   * at on are rewritten.
   */
  predicate Finished(before: State, after: State) {
    && before.rebasing && !after.rebasing && after.head == before.rebaseHead
    && Rewritten(before.stack, after.stack, IndexOfHash(before.stack, before.head))
  }

  /**
   * The rebase is where it was, and HEAD still points at the commit it was
   * detached at, which may now be amended.
   */
  predicate Stayed(before: State, after: State) {
    var k := IndexOfHash(before.stack, before.head);
    && after.rebasing == before.rebasing
    && Rewritten(before.stack, after.stack, k)
    && (k < |after.stack| ==> after.head == after.stack[k].hash)
    && (k == |after.stack| ==> after.head == before.head)
  }

  lemma StayedStill(s: State)
    ensures Stayed(s, s)
  {
  }

  /**
   * Lines 51-96: find the target, write the plan for `target^..HEAD` to the
   * editor file, and start the interactive rebase, which stops at the
   * target. A failing command ends the process. A failure of the plan file
   * raises `OSError`, and it can come after the rebase has stopped.
   */
  method StartRebase(repo: Repo, position: int) returns (r: Status<string>)
    requires repo.Valid()
    modifies repo
    ensures repo.Valid() && NoAmend(old(repo.trace), repo.trace)
    ensures r.Return? || (r.Exit? && r.code != 0) || r == Raise(OSError)
    ensures repo.Snapshot() == old(repo.Snapshot()).(editorPlan := repo.editorPlan)
            || (1 <= position <= |old(repo.Visible())|
                && StoppedAt(old(repo.Snapshot()), repo.Snapshot(), old(repo.Visible())[position - 1].hash))
    ensures !(1 <= position <= |old(repo.Visible())|) ==> r.Exit? && repo.Snapshot() == old(repo.Snapshot())
    ensures r.Return? ==>
              && 1 <= position <= |old(repo.Visible())|
              && r.value == old(repo.Visible())[position - 1].hash
              && StoppedAt(old(repo.Snapshot()), repo.Snapshot(), r.value)
              && repo.Visible() == old(repo.Visible())[..position]
              && repo.editorPlan == PlanText(old(repo.Visible()), position)
              && repo.trace == old(repo.trace) + [GitRevList, GitRevListFrom(r.value), GitRebase(r.value + "^")]
    ensures |old(repo.trace)| < |repo.trace| && repo.trace[|old(repo.trace)|] == GitRevList
    ensures Flagged(old(repo.trace), repo.trace, false, r.Raise?)
  {
    ghost var t0 := repo.trace;
    ghost var cs := repo.Visible();
    var target := GetCommitHashByPosition(repo, position);
    NoAmendAppend(t0, [GitRevList]);
    FlaggedAppend(t0, [GitRevList]);
    if !target.Return? {
      r := Exit(target.code);
    } else {
      var hash := target.value;
      IndexOfOwnHash(cs, position - 1);
      assert repo.Visible() == cs;
      ghost var t1 := repo.trace;
      ghost var plan := PlanText(cs, position);
      var launched := LaunchRebase(repo, hash);
      NoAmendTrans(t0, t1, repo.trace);
      FlaggedTrans(t0, t1, repo.trace, false, false, false, launched.Raise?);
      assert repo.trace[|t0|] == repo.trace[..|t1|][|t0|];
      if launched.Return? {
        assert repo.editorPlan == plan;
        ThreeCommands(t0, GitRevList, GitRevListFrom(hash), GitRebase(hash + "^"));
        VisibleAtStop(repo.stack, cs, position);
      }
      r := match launched
        case Return(_) => Return(hash)
        case Exit(code) => Exit(code)
        case Raise(_) => Raise(OSError);
    }
  }

  /** Stopping at the commit at `position` of what HEAD showed shows the stack up to that commit. */
  lemma VisibleAtStop(stack: seq<Commit>, cs: seq<Commit>, position: int)
    requires 1 <= position <= |cs| <= |stack| && cs == stack[..|cs|]
    requires forall a, b :: 0 <= a < b < |stack| ==> stack[a].hash != stack[b].hash
    ensures VisibleOf(stack, cs[position - 1].hash) == cs[..position]
  {
    assert cs[position - 1] == stack[position - 1];
    VisibleAtCommit(stack, position);
    assert cs[..position] == stack[..position];
  }

  /** The commits of the stack from index `k` on are a readable listing. */
  lemma SuffixReadable(stashes: seq<StashEntry>, stack: seq<Commit>, head: string, cs: seq<Commit>, k: nat)
    requires ValidState(stashes, stack, head) && |cs| <= |stack| && cs == stack[..|cs|] && k < |cs|
    ensures ListingReadable(cs[k..])
  {
    var suffix := cs[k..];
    forall i | 0 <= i < |suffix| ensures IsHash(suffix[i].hash) && '\n' !in suffix[i].subject {
      assert suffix[i] == stack[k + i];
    }
    assert suffix[|suffix| - 1] == stack[|cs| - 1];
  }

  /**
   * Lines 58-96 for a target already found: the plan file, the rebase,
   * which stops at the target, and the removal of the plan file.
   */
  method LaunchRebase(repo: Repo, target: string) returns (r: Status<()>)
    requires repo.Valid()
    modifies repo
    ensures repo.Valid() && NoAmend(old(repo.trace), repo.trace)
    ensures r.Return? || (r.Exit? && r.code != 0) || r == Raise(OSError)
    ensures repo.Snapshot() == old(repo.Snapshot()).(editorPlan := repo.editorPlan)
            || StoppedAt(old(repo.Snapshot()), repo.Snapshot(), target)
    ensures r.Return? ==>
              var cs := old(repo.Visible());
              var k := IndexOfHash(cs, target);
              && k < |cs|
              && StoppedAt(old(repo.Snapshot()), repo.Snapshot(), target)
              && repo.editorPlan == Join(RebasePlan(Lines(Output(TodoListing(cs[k..]))), target), '\n')
              && repo.trace == old(repo.trace) + [GitRevListFrom(target), GitRebase(target + "^")]
    ensures Flagged(old(repo.trace), repo.trace, false, r.Raise?)
  {
    ghost var t0 := repo.trace;
    ghost var cs := repo.Visible();
    var written := WritePlan(repo, target);
    if !written.Return? {
      r := if written.Exit? then Exit(written.code) else Raise(OSError);
      if written.Exit? {
        NoAmendAppend(t0, [GitRevListFrom(target)]);
        FlaggedAppend(t0, [GitRevListFrom(target)]);
      } else {
        PlanFileFlags(t0, repo.trace, target);
      }
    } else {
      SuffixReadable(repo.stashes, repo.stack, repo.head, cs, IndexOfHash(cs, target));
      PlanStopsAtTarget(cs[IndexOfHash(cs, target)..]);
      assert EditStop(Split(repo.editorPlan, '\n')) == Some(target);
      ghost var s1 := repo.Snapshot();
      ghost var s1t := repo.trace;
      r := RunRebase(repo, target + "^");
      if !r.Exit? {
        StoppedAfterPlan(old(repo.Snapshot()), s1, repo.Snapshot(), target);
      }
      TwoCommands(t0, GitRevListFrom(target), GitRebase(target + "^"));
      RebaseFlags(t0, s1t, repo.trace, target, r.Raise?);
    }
  }

  /** What the plan and the rebase leave in the trace: no amend, and an `OSError` exactly when one was raised. */
  lemma RebaseFlags(t0: seq<Cmd>, t1: seq<Cmd>, t: seq<Cmd>, target: string, raised: bool)
    requires t1 == t0 + [GitRevListFrom(target)]
    requires t == t1 + [GitRebase(target + "^")] + (if raised then [PlanFileError] else [])
    ensures NoAmend(t0, t) && Flagged(t0, t, false, raised)
  {
    var extra := [GitRevListFrom(target), GitRebase(target + "^")] + (if raised then [PlanFileError] else []);
    assert t == t0 + extra;
    NoAmendAppend(t0, extra);
    FlaggedAppend(t0, extra);
  }

  /** Writing the plan and then stopping is stopping: `StoppedAt` leaves the plan free. */
  lemma StoppedAfterPlan(s0: State, s1: State, s2: State, h: string)
    requires s1 == s0.(editorPlan := s1.editorPlan) && StoppedAt(s1, s2, h)
    ensures StoppedAt(s0, s2, h)
  {
  }

  /** Lines 93-96: `git rebase -i`, then the removal of the plan file. */
  method RunRebase(repo: Repo, base: string) returns (r: Status<()>)
    requires repo.Valid()
    modifies repo
    ensures repo.Valid()
    ensures repo.trace == old(repo.trace) + [GitRebase(base)] + (if r.Raise? then [PlanFileError] else [])
    ensures repo.editorPlan == old(repo.editorPlan)
    ensures r.Return? || (r.Exit? && r.code != 0) || r == Raise(OSError)
    ensures r.Exit? ==> repo.Snapshot() == old(repo.Snapshot())
    ensures !r.Exit? ==> match EditStop(Split(old(repo.editorPlan), '\n'))
                         case None => repo.Snapshot() == old(repo.Snapshot())
                         case Some(h) => StoppedAt(old(repo.Snapshot()), repo.Snapshot(), h)
  {
    var rebased := repo.Rebase(base);
    if !rebased.Return? {
      return Exit(rebased.code);
    }
    var removed := repo.TempRemove();
    r := if removed then Return(()) else Raise(OSError);
  }

  /**
   * Lines 58-85: the todo list of `target^..HEAD`, turned into the plan and
   * written to the editor file.
   */
  method WritePlan(repo: Repo, target: string) returns (r: Status<()>)
    requires repo.Valid()
    modifies repo
    ensures repo.Valid()
    ensures r.Return? || (r.Exit? && r.code != 0) || r == Raise(OSError)
    ensures repo.Snapshot() == old(repo.Snapshot()).(editorPlan := repo.editorPlan)
    ensures r != Raise(OSError) ==> repo.trace == old(repo.trace) + [GitRevListFrom(target)]
    ensures r == Raise(OSError) ==> repo.trace == old(repo.trace) + [PlanFileError]
                                    || repo.trace == old(repo.trace) + [GitRevListFrom(target)] + [PlanFileError]
    ensures r.Return? ==>
              var cs := old(repo.Visible());
              var k := IndexOfHash(cs, target);
              && k < |cs|
              && repo.editorPlan == Join(RebasePlan(Lines(Output(TodoListing(cs[k..]))), target), '\n')
  {
    var created := repo.TempCreate();
    if !created {
      r := Raise(OSError);
    } else {
      r := FillPlan(repo, target);
    }
  }

  /** Lines 61-85 once the plan file exists: the todo list, and the plan written to the file. */
  method FillPlan(repo: Repo, target: string) returns (r: Status<()>)
    requires repo.Valid()
    modifies repo
    ensures repo.Valid()
    ensures r.Return? || (r.Exit? && r.code != 0) || r == Raise(OSError)
    ensures repo.Snapshot() == old(repo.Snapshot()).(editorPlan := repo.editorPlan)
    ensures repo.trace == if r.Raise? then old(repo.trace) + [GitRevListFrom(target)] + [PlanFileError]
                          else old(repo.trace) + [GitRevListFrom(target)]
    ensures r.Return? ==>
              var cs := old(repo.Visible());
              var k := IndexOfHash(cs, target);
              && k < |cs|
              && repo.editorPlan == Join(RebasePlan(Lines(Output(TodoListing(cs[k..]))), target), '\n')
  {
    var todo := repo.RevListFrom(target);
    if !todo.Return? {
      return Exit(todo.code);
    }
    var plan := BuildRebasePlan(Lines(todo.value), target);
    var written := repo.TempWrite(Join(plan, '\n'));
    r := if written then Return(()) else Raise(OSError);
  }

  /** What a failure of the plan file leaves in the trace: an `OSError`, and no amend. */
  lemma PlanFileFlags(t0: seq<Cmd>, t: seq<Cmd>, target: string)
    requires t == t0 + [PlanFileError] || t == t0 + [GitRevListFrom(target)] + [PlanFileError]
    ensures NoAmend(t0, t) && Flagged(t0, t, false, true)
  {
    if t == t0 + [PlanFileError] {
      NoAmendAppend(t0, [PlanFileError]);
      FlaggedAppend(t0, [PlanFileError]);
    } else {
      assert t == t0 + [GitRevListFrom(target), PlanFileError];
      NoAmendAppend(t0, [GitRevListFrom(target), PlanFileError]);
      FlaggedAppend(t0, [GitRevListFrom(target), PlanFileError]);
      assert PlanFileError in [GitRevListFrom(target), PlanFileError];
    }
  }

  /** The stashes applied in lines 99-134 when nothing fails: the staged one, then the unstaged one. */
  function Restores(staged: bool, unstaged: bool, us: string, ss: string): seq<string> {
    (if staged then [ss] else []) + (if unstaged then [us] else [])
  }

  /**
   * Lines 99-134, with the rebase stopped at the target. With staged
   * changes, their stash is applied and the status is checked. On a
   * conflict the unstaged stash is applied too and the process exits 1.
   * Otherwise the changes are added, amended into the commit, and the
   * rebase is continued. Last, the unstaged stash is applied. `applied`
   * lists the stashes whose apply_stash call returned, in order: the pool
   * is the old one with exactly those applied.
   */
  method FinishEdit(repo: Repo, staged: bool, unstaged: bool, us: string, ss: string)
    returns (r: Status<()>, ghost conflict: bool, ghost applied: seq<string>)
    requires repo.Valid()
    modifies repo
    ensures repo.Valid()
    ensures r.Return? || (r.Exit? && r.code != 0)
    ensures repo.Snapshot() == old(repo.Snapshot()).(stashes := repo.stashes, tree := repo.tree, stack := repo.stack,
                                                    head := repo.head, rebasing := repo.rebasing)
    ensures repo.stashes == AfterApplies(old(repo.stashes), applied)
    ensures Stayed(old(repo.Snapshot()), repo.Snapshot())
            || (staged && !conflict && Finished(old(repo.Snapshot()), repo.Snapshot()) && AmendedIn(old(repo.trace), repo.trace))
    ensures conflict ==> staged && r.Exit? && NoAmend(old(repo.trace), repo.trace)
                         && repo.stack == old(repo.stack) && repo.head == old(repo.head) && repo.rebasing == old(repo.rebasing)
    ensures conflict ==> applied <= [ss] + (if unstaged then [us] else [])
                         && (applied == [ss] + (if unstaged then [us] else []) ==> r == Exit(1))
    ensures !staged ==> NoAmend(old(repo.trace), repo.trace)
                        && repo.stack == old(repo.stack) && repo.head == old(repo.head) && repo.rebasing == old(repo.rebasing)
    ensures !conflict ==> applied <= Restores(staged, unstaged, us, ss)
    ensures r.Return? ==> applied == Restores(staged, unstaged, us, ss)
    ensures r.Return? && staged ==> Finished(old(repo.Snapshot()), repo.Snapshot()) && AmendedIn(old(repo.trace), repo.trace)
    ensures Flagged(old(repo.trace), repo.trace, conflict, false)
  {
    if staged {
      r, conflict, applied := FinishStaged(repo, unstaged, us, ss);
    } else {
      conflict := false;
      StayedStill(repo.Snapshot());
      r, applied := ApplyIfStashed(repo, unstaged, us);
      NoAmendQuiet(old(repo.trace), repo.trace);
    }
  }

  /** Lines 99-134 when there are staged changes: `AmendStaged`, then the unstaged stash. */
  method FinishStaged(repo: Repo, unstaged: bool, us: string, ss: string)
    returns (r: Status<()>, ghost conflict: bool, ghost applied: seq<string>)
    requires repo.Valid()
    modifies repo
    ensures repo.Valid()
    ensures r.Return? || (r.Exit? && r.code != 0)
    ensures repo.Snapshot() == old(repo.Snapshot()).(stashes := repo.stashes, tree := repo.tree, stack := repo.stack,
                                                    head := repo.head, rebasing := repo.rebasing)
    ensures repo.stashes == AfterApplies(old(repo.stashes), applied)
    ensures Stayed(old(repo.Snapshot()), repo.Snapshot())
            || (!conflict && Finished(old(repo.Snapshot()), repo.Snapshot()) && AmendedIn(old(repo.trace), repo.trace))
    ensures conflict ==> r.Exit? && NoAmend(old(repo.trace), repo.trace)
                         && repo.stack == old(repo.stack) && repo.head == old(repo.head) && repo.rebasing == old(repo.rebasing)
    ensures conflict ==> applied <= [ss] + (if unstaged then [us] else [])
                         && (applied == [ss] + (if unstaged then [us] else []) ==> r == Exit(1))
    ensures !conflict ==> applied <= Restores(true, unstaged, us, ss)
    ensures r.Return? ==> applied == Restores(true, unstaged, us, ss)
                          && Finished(old(repo.Snapshot()), repo.Snapshot()) && AmendedIn(old(repo.trace), repo.trace)
    ensures Flagged(old(repo.trace), repo.trace, conflict, false)
  {
    r, conflict, applied := AmendStaged(repo, unstaged, us, ss);
    if r.Return? {
      ghost var before := repo.trace;
      ghost var done := applied;
      ghost var more;
      r, more := ApplyIfStashed(repo, unstaged, us);
      FlaggedTrans(old(repo.trace), before, repo.trace, conflict, false, false, false);
      applied := applied + more;
      PrefixAfter(done, more, if unstaged then [us] else []);
      AfterAppliesAppend(old(repo.stashes), done, more);
      AmendedInExtends(old(repo.trace), before, repo.trace);
    }
  }

  /**
   * Lines 99-128: apply the staged stash and check the status. On a
   * conflict, apply the unstaged stash too and exit 1; otherwise add,
   * amend and continue the rebase.
   */
  method AmendStaged(repo: Repo, unstaged: bool, us: string, ss: string)
    returns (r: Status<()>, ghost conflict: bool, ghost applied: seq<string>)
    requires repo.Valid()
    modifies repo
    ensures repo.Valid()
    ensures r.Return? || (r.Exit? && r.code != 0)
    ensures repo.Snapshot() == old(repo.Snapshot()).(stashes := repo.stashes, tree := repo.tree, stack := repo.stack,
                                                    head := repo.head, rebasing := repo.rebasing)
    ensures repo.stashes == AfterApplies(old(repo.stashes), applied)
    ensures |old(repo.trace)| <= |repo.trace| && repo.trace[..|old(repo.trace)|] == old(repo.trace)
    ensures r.Return? ==> Finished(old(repo.Snapshot()), repo.Snapshot())
    ensures !r.Return? ==> Stayed(old(repo.Snapshot()), repo.Snapshot())
    ensures conflict ==> r.Exit? && NoAmend(old(repo.trace), repo.trace)
                         && repo.stack == old(repo.stack) && repo.head == old(repo.head) && repo.rebasing == old(repo.rebasing)
    ensures conflict ==> applied <= [ss] + (if unstaged then [us] else [])
                         && (applied == [ss] + (if unstaged then [us] else []) ==> r == Exit(1))
    ensures !conflict ==> applied <= [ss]
    ensures r.Return? ==> applied == [ss] && AmendedIn(old(repo.trace), repo.trace)
    ensures Flagged(old(repo.trace), repo.trace, conflict, false)
  {
    r, conflict, applied := Return(()), false, [];
    var a := ApplyStash(repo, ss);
    if !a.Return? {
      r := Exit(a.code);
      StayedStill(repo.Snapshot());
    } else {
      ghost var more;
      ghost var pool := repo.stashes;
      assert pool == AfterApplies(old(repo.stashes), [ss]) by {
        assert [ss][..0] == [];
      }
      r, conflict, more := CheckAndAmend(repo, unstaged, us, old(repo.trace));
      applied := [ss] + more;
      PrefixAfter([ss], more, if unstaged then [us] else []);
      AfterAppliesAppend(old(repo.stashes), [ss], more);
    }
  }

  /**
   * Lines 102-128, after the staged stash was applied on top of `before`
   * without rewriting anything: on a conflict apply the unstaged stash too
   * and exit 1, otherwise amend and continue. `more` lists the stashes
   * applied here.
   */
  method CheckAndAmend(repo: Repo, unstaged: bool, us: string, ghost before: seq<Cmd>)
    returns (r: Status<()>, ghost conflict: bool, ghost more: seq<string>)
    requires repo.Valid() && Quiet(before, repo.trace) && Flagged(before, repo.trace, false, false)
    modifies repo
    ensures repo.Valid()
    ensures r.Return? || (r.Exit? && r.code != 0)
    ensures repo.Snapshot() == old(repo.Snapshot()).(stashes := repo.stashes, tree := repo.tree, stack := repo.stack,
                                                    head := repo.head, rebasing := repo.rebasing)
    ensures repo.stashes == AfterApplies(old(repo.stashes), more)
    ensures Flagged(before, repo.trace, conflict, false)
    ensures conflict ==> old(repo.tree.conflicted)
    ensures old(repo.tree.conflicted) ==> r.Exit? && NoAmend(before, repo.trace)
    ensures r.Return? ==> Finished(old(repo.Snapshot()), repo.Snapshot()) && AmendedIn(before, repo.trace)
    ensures !r.Return? ==> Stayed(old(repo.Snapshot()), repo.Snapshot())
    ensures conflict ==> r.Exit? && NoAmend(before, repo.trace)
                         && repo.stack == old(repo.stack) && repo.head == old(repo.head) && repo.rebasing == old(repo.rebasing)
                         && more <= (if unstaged then [us] else [])
                         && (more == (if unstaged then [us] else []) ==> r == Exit(1))
    ensures !conflict ==> more == []
  {
    conflict, more := false, [];
    ghost var t1 := repo.trace;
    var c := Utils.HasMergeConflicts(repo);
    QuietTrans(before, t1, repo.trace);
    FlaggedAppend(t1, [GitStatus(c == Return(true))]);
    FlaggedTrans(before, t1, repo.trace, false, false, c == Return(true), false);
    ghost var t0 := repo.trace;
    if !c.Return? {
      r := Exit(c.code);
      StayedStill(repo.Snapshot());
      NoAmendQuiet(before, repo.trace);
    } else if c.value {
      conflict := true;
      r, more := ApplyOnConflict(repo, unstaged, us, before);
      StayedStill(old(repo.Snapshot()));
      FlaggedTrans(before, t0, repo.trace, true, false, false, false);
    } else {
      r := AmendAndContinue(repo);
      FlaggedTrans(before, t0, repo.trace, false, false, false, false);
      if r.Return? {
        AmendedAt(before, t0, repo.trace);
      }
    }
  }

  /** Lines 105-117: the status shows a conflict; apply the unstaged stash and exit 1. */
  method ApplyOnConflict(repo: Repo, unstaged: bool, us: string, ghost before: seq<Cmd>)
    returns (r: Status<()>, ghost more: seq<string>)
    requires repo.Valid() && Quiet(before, repo.trace)
    modifies repo
    ensures repo.Valid()
    ensures r.Exit? && r.code != 0 && NoAmend(before, repo.trace)
    ensures repo.Snapshot() == old(repo.Snapshot()).(stashes := repo.stashes, tree := repo.tree)
    ensures repo.stashes == AfterApplies(old(repo.stashes), more)
    ensures more <= (if unstaged then [us] else [])
    ensures more == (if unstaged then [us] else []) ==> r == Exit(1)
    ensures more != (if unstaged then [us] else []) ==> StashFailed(old(repo.trace), repo.trace)
    ensures Flagged(old(repo.trace), repo.trace, false, false)
  {
    ghost var t2 := repo.trace;
    var done;
    done, more := ApplyIfStashed(repo, unstaged, us);
    QuietTrans(before, t2, repo.trace);
    NoAmendQuiet(before, repo.trace);
    r := if done.Return? then Exit(1) else Exit(done.code);
  }

  /** Appending add, amend and continue to an extension of `before` amends after `before`. */
  lemma AmendedAt(before: seq<Cmd>, mid: seq<Cmd>, after: seq<Cmd>)
    requires |before| <= |mid| && after == mid + [GitAdd, GitAmend, GitContinue]
    ensures AmendedIn(before, after)
  {
    var i := |mid|;
    assert after[i] == GitAdd && after[i + 1] == GitAmend && after[i + 2] == GitContinue;
  }

  /**
   * Lines 120-128: `git add -u`, `git commit --amend --no-edit`, `git
   * rebase --continue`. The commit HEAD is detached at is amended, and
   * the rebase runs to its end; on a failure the rebase stays where it
   * was.
   */
  method AmendAndContinue(repo: Repo) returns (r: Status<()>)
    requires repo.Valid()
    modifies repo
    ensures repo.Valid()
    ensures r.Return? || (r.Exit? && r.code != 0)
    ensures repo.Snapshot() == old(repo.Snapshot()).(tree := repo.tree, stack := repo.stack, head := repo.head,
                                                    rebasing := repo.rebasing)
    ensures |old(repo.trace)| <= |repo.trace| && repo.trace[..|old(repo.trace)|] == old(repo.trace)
    ensures r.Return? ==> repo.trace == old(repo.trace) + [GitAdd, GitAmend, GitContinue]
                          && Finished(old(repo.Snapshot()), repo.Snapshot())
    ensures !r.Return? ==> Stayed(old(repo.Snapshot()), repo.Snapshot())
    ensures Flagged(old(repo.trace), repo.trace, false, false)
  {
    ghost var s0 := repo.Snapshot();
    var amended := AddAndAmend(repo);
    if !amended.Return? {
      return Exit(amended.code);
    }
    ghost var s1 := repo.Snapshot();
    ghost var t1 := repo.trace;
    assert forall a, b :: 0 <= a < b < |s1.stack| ==> s1.stack[a].hash != s1.stack[b].hash;
    var continued := repo.Continue();
    FlaggedAppend(t1, [GitContinue]);
    FlaggedTrans(old(repo.trace), t1, repo.trace, false, false, false, false);
    if !continued.Return? {
      return Exit(continued.code);
    }
    ghost var s2 := repo.Snapshot();
    assert s0.rebasing && !s2.rebasing && s2.head == s1.rebaseHead;
    ContinueFinishes(s0, s1, s2);
    TraceAppend(old(repo.trace), [GitAdd, GitAmend], [GitContinue]);
    assert [GitAdd, GitAmend] + [GitContinue] == [GitAdd, GitAmend, GitContinue];
    return Return(());
  }

  /** Lines 120-124: `git add -u`, then `git commit --amend --no-edit`. */
  method AddAndAmend(repo: Repo) returns (r: Status<()>)
    requires repo.Valid()
    modifies repo
    ensures repo.Valid()
    ensures r.Return? || (r.Exit? && r.code != 0)
    ensures repo.Snapshot() == old(repo.Snapshot()).(tree := repo.tree, stack := repo.stack, head := repo.head)
    ensures |old(repo.trace)| <= |repo.trace| && repo.trace[..|old(repo.trace)|] == old(repo.trace)
    ensures r.Return? ==> repo.trace == old(repo.trace) + [GitAdd, GitAmend]
    ensures Stayed(old(repo.Snapshot()), repo.Snapshot())
    ensures Flagged(old(repo.trace), repo.trace, false, false)
  {
    ghost var s0 := repo.Snapshot();
    FlaggedAppend(repo.trace, [GitAdd]);
    FlaggedAppend(repo.trace, [GitAdd, GitAmend]);
    var added := repo.AddUpdate();
    if !added.Return? {
      StayedStill(s0);
      return Exit(added.code);
    }
    var amended := repo.Amend();
    if !amended.Return? {
      StayedStill(s0);
      return Exit(amended.code);
    }
    AmendStays(s0, repo.Snapshot());
    return Return(());
  }

  /** After `git commit --amend` the rebase is where it was. */
  lemma AmendStays(s0: State, s1: State)
    requires s1.rebasing == s0.rebasing
    requires var k := IndexOfHash(s0.stack, s0.head);
             && Rewritten(s0.stack, s1.stack, k)
             && (k < |s1.stack| ==> s1.head == s1.stack[k].hash)
             && (k == |s1.stack| ==> s1.head == s0.head)
    ensures Stayed(s0, s1)
  {
  }

  /** `git rebase --continue` after the amend ends the rebase with the commits from HEAD's on rewritten. */
  lemma ContinueFinishes(s0: State, s1: State, s2: State)
    requires Stayed(s0, s1) && s1.rebaseHead == s0.rebaseHead && s0.rebasing && !s2.rebasing
    requires forall a, b :: 0 <= a < b < |s1.stack| ==> s1.stack[a].hash != s1.stack[b].hash
    requires s2.head == s1.rebaseHead
    requires var k := IndexOfHash(s1.stack, s1.head);
             Rewritten(s1.stack, s2.stack, if k < |s1.stack| then k + 1 else k)
    ensures Finished(s0, s2)
  {
    var k := IndexOfHash(s0.stack, s0.head);
    if k < |s1.stack| {
      IndexOfOwnHash(s1.stack, k);
      RewrittenTrans(s0.stack, s1.stack, s2.stack, k, k + 1);
    } else {
      assert s1.stack == s1.stack[..k] == s0.stack[..k] == s0.stack;
      RewrittenTrans(s0.stack, s1.stack, s2.stack, k, k);
    }
  }

  /** What the `except` branch restores: the unstaged stash, then the staged one. */
  function ErrorRestores(staged: bool, unstaged: bool, us: string, ss: string): seq<string> {
    (if unstaged then [us] else []) + (if staged then [ss] else [])
  }

  /**
   * Lines 138-151: after an `OSError` the unstaged stash and then the staged
   * one are applied, and the process exits 1. `applied` lists the stashes
   * whose apply_stash call returned: the pool is the old one with exactly
   * those applied, and a shorter list means a stash command failed.
   */
  method RestoreAfterError(repo: Repo, staged: bool, unstaged: bool, us: string, ss: string)
    returns (r: Status<()>, ghost applied: seq<string>)
    requires repo.Valid()
    modifies repo
    ensures repo.Valid() && Quiet(old(repo.trace), repo.trace)
    ensures repo.Snapshot() == old(repo.Snapshot()).(stashes := repo.stashes, tree := repo.tree)
    ensures repo.stashes == AfterApplies(old(repo.stashes), applied)
    ensures r.Exit? && r.code != 0
    ensures applied <= ErrorRestores(staged, unstaged, us, ss)
    ensures applied == ErrorRestores(staged, unstaged, us, ss) ==> r == Exit(1)
    ensures applied != ErrorRestores(staged, unstaged, us, ss) ==> StashFailed(old(repo.trace), repo.trace)
    ensures Flagged(old(repo.trace), repo.trace, false, false)
  {
    var first;
    first, applied := ApplyIfStashed(repo, unstaged, us);
    if !first.Return? {
      return Exit(first.code), applied;
    }
    ghost var mid := repo.trace;
    ghost var done := applied;
    var second;
    ghost var more;
    second, more := ApplyIfStashed(repo, staged, ss);
    QuietTrans(old(repo.trace), mid, repo.trace);
    FlaggedTrans(old(repo.trace), mid, repo.trace, false, false, false, false);
    applied := applied + more;
    AfterAppliesAppend(old(repo.stashes), done, more);
    PrefixAfter(done, more, if staged then [ss] else []);
    if !second.Return? {
      StashFailedFrom(old(repo.trace), mid, repo.trace);
      return Exit(second.code), applied;
    }
    return Exit(1), applied;
  }

  /**
   * Lines 49-151 once the changes are stashed in `us` and `ss` over the
   * pool `base`: find the target and start the rebase, then amend; an
   * `OSError` on the way sends control to the `except` branch. When every
   * stash is applied, the pool is `base` again.
   */
  method EditStashed(repo: Repo, position: int, staged: bool, unstaged: bool, us: string, ss: string,
                     ghost base: seq<StashEntry>)
    returns (r: Status<()>, ghost conflict: bool, ghost failed: bool, ghost applied: seq<string>)
    requires repo.Valid() && StashedOver(repo.stashes, base, staged, unstaged, us, ss, UnstagedLabel, StagedLabel)
    modifies repo
    ensures repo.Valid()
    ensures r.Return? || (r.Exit? && r.code != 0)
    ensures repo.stashes == AfterApplies(old(repo.stashes), applied)
    ensures NoAmend(old(repo.trace), repo.trace) || (staged && !conflict && !failed)
    ensures repo.stack == old(repo.stack)
            || (staged && !conflict && !failed && 1 <= position <= |old(repo.Visible())|
                && Rewritten(old(repo.stack), repo.stack, position - 1))
    ensures repo.head == old(repo.head) || PausedAt(repo.Snapshot(), position, old(repo.head))
    ensures conflict ==> staged && !failed && r.Exit? && repo.stack == old(repo.stack)
                         && PausedAt(repo.Snapshot(), position, old(repo.head))
    ensures conflict ==> applied <= [ss] + (if unstaged then [us] else [])
                         && (applied == [ss] + (if unstaged then [us] else []) ==> r == Exit(1) && repo.stashes == base)
    ensures failed ==> !conflict && r.Exit? && applied <= ErrorRestores(staged, unstaged, us, ss)
                       && (applied == ErrorRestores(staged, unstaged, us, ss) ==> r == Exit(1) && repo.stashes == base)
                       && (applied != ErrorRestores(staged, unstaged, us, ss) ==> StashFailed(old(repo.trace), repo.trace))
    ensures !failed ==> applied <= Restores(staged, unstaged, us, ss)
    ensures !(1 <= position <= |old(repo.Visible())|) ==>
              r.Exit? && !failed && applied == [] && repo.Snapshot() == old(repo.Snapshot())
    ensures r.Return? ==>
              && 1 <= position <= |old(repo.Visible())|
              && repo.editorPlan == PlanText(old(repo.Visible()), position)
              && applied == Restores(staged, unstaged, us, ss) && repo.stashes == base
    ensures r.Return? && staged ==> !repo.rebasing && repo.head == old(repo.head) && AmendedIn(old(repo.trace), repo.trace)
    ensures r.Return? && !staged ==> PausedAt(repo.Snapshot(), position, old(repo.head)) && repo.stack == old(repo.stack)
                                     && repo.Visible() == old(repo.Visible())[..position]
    ensures |old(repo.trace)| < |repo.trace| && repo.trace[|old(repo.trace)|] == GitRevList
    ensures Flagged(old(repo.trace), repo.trace, conflict, failed)
  {
    conflict, failed, applied := false, false, [];
    var started := StartRebase(repo, position);
    if started.Exit? {
      return Exit(started.code), conflict, failed, applied;
    }
    ghost var t1 := repo.trace;
    if started.Raise? {
      failed := true;
      r, applied := RestoreStarted(repo, position, staged, unstaged, us, ss, base, old(repo.Snapshot()), old(repo.trace));
      return;
    }
    r, conflict, applied := EditStopped(repo, position, staged, unstaged, us, ss, base, started.value);
    RunFlagged(old(repo.trace), t1, repo.trace, false, false, conflict, false);
    if NoAmend(t1, repo.trace) {
      NoAmendTrans(old(repo.trace), t1, repo.trace);
    }
    if r.Return? && staged {
      AmendedInFrom(old(repo.trace), t1, repo.trace);
    }
  }

  /**
   * Lines 138-151 when starting the rebase from `s0` with the trace `t0`
   * raised `OSError`: the `except` branch restores the stashes and exits 1.
   * The rebase, if it stopped, stays paused.
   */
  method RestoreStarted(repo: Repo, position: int, staged: bool, unstaged: bool, us: string, ss: string,
                        ghost base: seq<StashEntry>, ghost s0: State, ghost t0: seq<Cmd>)
    returns (r: Status<()>, ghost applied: seq<string>)
    requires repo.Valid() && StashedOver(s0.stashes, base, staged, unstaged, us, ss, UnstagedLabel, StagedLabel)
    requires var cs := VisibleOf(s0.stack, s0.head);
             repo.Snapshot() == s0.(editorPlan := repo.editorPlan)
             || (1 <= position <= |cs| && StoppedAt(s0, repo.Snapshot(), cs[position - 1].hash))
    requires NoAmend(t0, repo.trace) && Flagged(t0, repo.trace, false, true)
    requires |t0| < |repo.trace| && repo.trace[|t0|] == GitRevList
    modifies repo
    ensures repo.Valid() && r.Exit? && r.code != 0
    ensures repo.stashes == AfterApplies(s0.stashes, applied) && repo.stack == s0.stack
    ensures repo.head == s0.head || PausedAt(repo.Snapshot(), position, s0.head)
    ensures NoAmend(t0, repo.trace) && Flagged(t0, repo.trace, false, true)
    ensures |t0| < |repo.trace| && repo.trace[|t0|] == GitRevList
    ensures applied <= ErrorRestores(staged, unstaged, us, ss)
    ensures applied == ErrorRestores(staged, unstaged, us, ss) ==> r == Exit(1) && repo.stashes == base
    ensures applied != ErrorRestores(staged, unstaged, us, ss) ==> StashFailed(t0, repo.trace)
  {
    ghost var t1 := repo.trace;
    ghost var s1 := repo.Snapshot();
    r, applied := RestoreAfterError(repo, staged, unstaged, us, ss);
    HeadAfterStart(s0, s1, repo.Snapshot(), position);
    NoAmendQuiet(t1, repo.trace);
    NoAmendTrans(t0, t1, repo.trace);
    RestoredToBase(s0.stashes, base, staged, unstaged, us, ss, UnstagedLabel, StagedLabel);
    RunFlagged(t0, t1, repo.trace, false, true, false, false);
    if applied != ErrorRestores(staged, unstaged, us, ss) {
      StashFailedFrom(t0, t1, repo.trace);
    }
  }

  /**
   * Where a start of the rebase that raised leaves HEAD, once the stashes
   * are restored: where it was, or at the target with the rebase paused.
   */
  lemma HeadAfterStart(s0: State, s1: State, s2: State, position: int)
    requires var cs := VisibleOf(s0.stack, s0.head);
             s1 == s0.(editorPlan := s1.editorPlan)
             || (1 <= position <= |cs| && StoppedAt(s0, s1, cs[position - 1].hash))
    requires s2 == s1.(stashes := s2.stashes, tree := s2.tree)
    ensures s2.head == s0.head || PausedAt(s2, position, s0.head)
  {
  }

  /** A run that began with `git rev-list` still begins with it, and its flags add up. */
  lemma RunFlagged(t0: seq<Cmd>, t1: seq<Cmd>, t: seq<Cmd>, c1: bool, f1: bool, c2: bool, f2: bool)
    requires Flagged(t0, t1, c1, f1) && Flagged(t1, t, c2, f2) && |t0| < |t1| && t1[|t0|] == GitRevList
    ensures Flagged(t0, t, c1 || c2, f1 || f2) && |t0| < |t| && t[|t0|] == GitRevList
  {
    FlaggedTrans(t0, t1, t, c1, f1, c2, f2);
    assert t[|t0|] == t[..|t1|][|t0|];
  }

  /**
   * Lines 99-134 once the rebase stopped at `target`, the commit at
   * `position`: amend and continue, or leave the rebase paused.
   */
  method EditStopped(repo: Repo, position: int, staged: bool, unstaged: bool, us: string, ss: string,
                     ghost base: seq<StashEntry>, target: string)
    returns (r: Status<()>, ghost conflict: bool, ghost applied: seq<string>)
    requires repo.Valid() && StashedOver(repo.stashes, base, staged, unstaged, us, ss, UnstagedLabel, StagedLabel)
    requires 1 <= position <= |repo.stack| && repo.rebasing && target == repo.stack[position - 1].hash && repo.head == target
    modifies repo
    ensures repo.Valid()
    ensures r.Return? || (r.Exit? && r.code != 0)
    ensures repo.editorPlan == old(repo.editorPlan)
    ensures repo.stashes == AfterApplies(old(repo.stashes), applied)
    ensures NoAmend(old(repo.trace), repo.trace) || (staged && !conflict)
    ensures repo.stack == old(repo.stack) || (staged && !conflict && Rewritten(old(repo.stack), repo.stack, position - 1))
    ensures PausedAt(repo.Snapshot(), position, old(repo.rebaseHead))
            || (staged && !conflict && !repo.rebasing && repo.head == old(repo.rebaseHead) && AmendedIn(old(repo.trace), repo.trace))
    ensures conflict ==> staged && r.Exit? && repo.stack == old(repo.stack) && PausedAt(repo.Snapshot(), position, old(repo.rebaseHead))
    ensures conflict ==> applied <= [ss] + (if unstaged then [us] else [])
                         && (applied == [ss] + (if unstaged then [us] else []) ==> r == Exit(1) && repo.stashes == base)
    ensures !conflict ==> applied <= Restores(staged, unstaged, us, ss)
    ensures r.Return? ==> applied == Restores(staged, unstaged, us, ss) && repo.stashes == base
    ensures r.Return? && staged ==> !repo.rebasing && repo.head == old(repo.rebaseHead) && AmendedIn(old(repo.trace), repo.trace)
    ensures r.Return? && !staged ==> repo.stack == old(repo.stack) && repo.head == old(repo.head) && repo.rebasing
    ensures Flagged(old(repo.trace), repo.trace, conflict, false)
  {
    IndexOfOwnHash(repo.stack, position - 1);
    RestoredToBase(repo.stashes, base, staged, unstaged, us, ss, UnstagedLabel, StagedLabel);
    r, conflict, applied := FinishEdit(repo, staged, unstaged, us, ss);
  }

  /**
   * Lines 20-151: `anist commit <position>`. A clean tree ends the process
   * with code 0. Otherwise the unstaged and the staged changes are stashed
   * (lines 37-47) in `us` and `ss`, and the rest runs inside the `try` of
   * lines 49-151. The function never lets an exception escape: its
   * outcomes are a normal return or the end of the process. `conflict`
   * says the staged stash met a merge conflict, `failed` that the `except`
   * branch ran, and `applied` lists the stashes whose apply_stash call
   * returned, in order. The rebase either ran to its end with the commit
   * at `position` amended, or is paused at that commit.
   */
  method EditNthCommit(repo: Repo, position: int)
    returns (r: Status<()>, ghost conflict: bool, ghost failed: bool, ghost applied: seq<string>,
             ghost us: string, ghost ss: string, ghost entered: bool, ghost stashed: seq<StashEntry>,
             ghost edited: seq<Cmd>)
    requires repo.Valid()
    modifies repo
    ensures repo.Valid()
    ensures r.Return? || r.Exit?
    ensures r.Exit? && r.code == 0 ==>
              && !old(repo.tree.staged) && !old(repo.tree.unstaged)
              && repo.Snapshot() == old(repo.Snapshot())
              && repo.trace == old(repo.trace) + [GitDiffNames(true), GitDiffNames(false)]
    ensures !old(repo.tree.staged) && !old(repo.tree.unstaged) ==>
              r.Exit? && repo.Snapshot() == old(repo.Snapshot()) && NoAmend(old(repo.trace), repo.trace)
    ensures NoAmend(old(repo.trace), repo.trace) || (old(repo.tree.staged) && !conflict && !failed)
    ensures repo.stack == old(repo.stack)
            || (old(repo.tree.staged) && !conflict && !failed && 1 <= position <= |old(repo.Visible())|
                && Rewritten(old(repo.stack), repo.stack, position - 1))
    ensures repo.head == old(repo.head) || PausedAt(repo.Snapshot(), position, old(repo.head))
    ensures conflict ==> old(repo.tree.staged) && !failed && r.Exit? && repo.stack == old(repo.stack)
                         && PausedAt(repo.Snapshot(), position, old(repo.head))
    ensures conflict && applied == [ss] + (if old(repo.tree.unstaged) then [us] else []) ==>
              r == Exit(1) && repo.stashes == old(repo.stashes)
    ensures failed ==> !conflict && r.Exit?
    ensures failed && applied == ErrorRestores(old(repo.tree.staged), old(repo.tree.unstaged), us, ss) ==>
              r == Exit(1) && repo.stashes == old(repo.stashes)
    ensures !(1 <= position <= |old(repo.Visible())|) ==> r.Exit? && !failed && applied == []
    ensures r.Return? ==>
              && 1 <= position <= |old(repo.Visible())|
              && repo.editorPlan == PlanText(old(repo.Visible()), position)
              && applied == Restores(old(repo.tree.staged), old(repo.tree.unstaged), us, ss)
              && repo.stashes == old(repo.stashes)
    ensures r.Return? && old(repo.tree.staged) ==>
              !repo.rebasing && repo.head == old(repo.head) && AmendedIn(old(repo.trace), repo.trace)
    ensures r.Return? && !old(repo.tree.staged) ==>
              PausedAt(repo.Snapshot(), position, old(repo.head)) && repo.stack == old(repo.stack)
              && repo.Visible() == old(repo.Visible())[..position]
    ensures old(repo.tree.staged) && old(repo.tree.unstaged) ==> ss == ""
    ensures !entered ==> r.Exit? && applied == [] && !conflict && !failed
    ensures entered ==>
              && StashedOver(stashed, old(repo.stashes), old(repo.tree.staged), old(repo.tree.unstaged), us, ss,
                             UnstagedLabel, StagedLabel)
              && repo.stashes == AfterApplies(stashed, applied)
    ensures entered ==>
              && Quiet(old(repo.trace), edited) && |edited| < |repo.trace| && repo.trace[|edited|] == GitRevList
              && Flagged(edited, repo.trace, conflict, failed)
              && (failed && applied != ErrorRestores(old(repo.tree.staged), old(repo.tree.unstaged), us, ss) ==>
                    StashFailed(edited, repo.trace))
  {
    var changes := Utils.CheckChanges(repo);
    if !changes.Return? {
      return Exit(changes.code), false, false, [], "", "", false, [], [];
    }
    var staged := changes.value.0;
    var unstaged := changes.value.1;
    NoAmendAppend(old(repo.trace), [GitDiffNames(true), GitDiffNames(false)]);
    if !(staged || unstaged) {
      return Exit(0), false, false, [], "", "", false, [], [];
    }
    CheckQuiet(old(repo.trace));
    r, conflict, failed, applied, us, ss, entered, stashed, edited :=
      EditWithChanges(repo, position, staged, unstaged, old(repo.trace));
  }

  /** The two `git diff --name-only` of check_changes rewrite nothing. */
  lemma CheckQuiet(t: seq<Cmd>)
    ensures Quiet(t, t + [GitDiffNames(true), GitDiffNames(false)])
  {
    assert (t + [GitDiffNames(true), GitDiffNames(false)])[..|t|] == t;
  }

  /**
   * Lines 37-151 once check_changes found changes: stash them, then edit.
   * `before` is the trace before the check, which amended nothing.
   */
  method EditWithChanges(repo: Repo, position: int, staged: bool, unstaged: bool, ghost before: seq<Cmd>)
    returns (r: Status<()>, ghost conflict: bool, ghost failed: bool, ghost applied: seq<string>,
             ghost us: string, ghost ss: string, ghost entered: bool, ghost stashed: seq<StashEntry>,
             ghost edited: seq<Cmd>)
    requires repo.Valid() && staged == repo.tree.staged && unstaged == repo.tree.unstaged && (staged || unstaged)
    requires Quiet(before, repo.trace)
    modifies repo
    ensures repo.Valid()
    ensures r.Return? || (r.Exit? && r.code != 0)
    ensures NoAmend(before, repo.trace) || (staged && !conflict && !failed)
    ensures repo.stack == old(repo.stack)
            || (staged && !conflict && !failed && 1 <= position <= |old(repo.Visible())|
                && Rewritten(old(repo.stack), repo.stack, position - 1))
    ensures repo.head == old(repo.head) || PausedAt(repo.Snapshot(), position, old(repo.head))
    ensures conflict ==> staged && !failed && r.Exit? && repo.stack == old(repo.stack)
                         && PausedAt(repo.Snapshot(), position, old(repo.head))
    ensures conflict && applied == [ss] + (if unstaged then [us] else []) ==>
              r == Exit(1) && repo.stashes == old(repo.stashes)
    ensures failed ==> !conflict && r.Exit?
    ensures failed && applied == ErrorRestores(staged, unstaged, us, ss) ==> r == Exit(1) && repo.stashes == old(repo.stashes)
    ensures !(1 <= position <= |old(repo.Visible())|) ==> r.Exit? && !failed && applied == []
    ensures r.Return? ==>
              && 1 <= position <= |old(repo.Visible())|
              && repo.editorPlan == PlanText(old(repo.Visible()), position)
              && applied == Restores(staged, unstaged, us, ss) && repo.stashes == old(repo.stashes)
    ensures r.Return? && staged ==> !repo.rebasing && repo.head == old(repo.head) && AmendedIn(before, repo.trace)
    ensures r.Return? && !staged ==> PausedAt(repo.Snapshot(), position, old(repo.head)) && repo.stack == old(repo.stack)
                                     && repo.Visible() == old(repo.Visible())[..position]
    ensures staged && unstaged ==> ss == ""
    ensures !entered ==> r.Exit? && applied == [] && !conflict && !failed
    ensures entered ==>
              && StashedOver(stashed, old(repo.stashes), staged, unstaged, us, ss, UnstagedLabel, StagedLabel)
              && repo.stashes == AfterApplies(stashed, applied)
    ensures entered ==>
              && Quiet(before, edited) && |edited| < |repo.trace| && repo.trace[|edited|] == GitRevList
              && Flagged(edited, repo.trace, conflict, failed)
              && (failed && applied != ErrorRestores(staged, unstaged, us, ss) ==> StashFailed(edited, repo.trace))
  {
    ghost var t0 := repo.trace;
    var saved := StashForEdit(repo, staged, unstaged);
    QuietTrans(before, t0, repo.trace);
    NoAmendQuiet(before, repo.trace);
    entered := saved.Return?;
    edited := repo.trace;
    if !saved.Return? {
      r, conflict, failed, applied, us, ss := Exit(saved.code), false, false, [], "", "";
      stashed := [];
    } else {
      ghost var t1 := repo.trace;
      stashed := repo.stashes;
      assert repo.Visible() == old(repo.Visible());
      us, ss := saved.value.0, saved.value.1;
      r, conflict, failed, applied := EditStashed(repo, position, staged, unstaged, saved.value.0, saved.value.1,
                                                  old(repo.stashes));
      if NoAmend(t1, repo.trace) {
        NoAmendTrans(before, t1, repo.trace);
      }
      if r.Return? && staged {
        AmendedInFrom(before, t1, repo.trace);
      }
    }
  }
}
