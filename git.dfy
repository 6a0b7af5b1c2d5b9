/**
 * An abstract repository together with the `arc` client, as the tool sees
 * them: a stash pool, a summary of the working tree, the stack of commits
 * on top of `master`, what is checked out, whether a rebase is paused, the
 * rebase plan the sequence editor will hand to git, and the list of every
 * command run so far.
 *
 * Each method runs one command. A command either exits with code 0 and
 * prints its output, or exits with another code; which one happens, and
 * whatever git or arc decides on its own (the hash of a new stash, the tree
 * after a stash is applied, what `arc list` prints), is chosen
 * nondeterministically. A command that fails changes nothing but the trace.
 */
module Git {
  import opened Python
  import opened Text
  import opened Parse

  predicate IsHexDigit(c: char) {
    '0' <= c <= '9' || 'a' <= c <= 'f'
  }

  /** A full commit hash as git prints it: forty lower-case hexadecimal digits. */
  predicate IsHash(h: string) {
    |h| == 40 && forall i :: 0 <= i < |h| ==> IsHexDigit(h[i])
  }

  /** One entry of the stash pool: the stash commit and the message it was stored with. */
  datatype StashEntry = StashEntry(hash: string, message: string)

  /** A commit of the stack: its hash, its subject (`%s`) and what `git log -1` prints for it. */
  datatype Commit = Commit(hash: string, subject: string, log: string)

  /** What `git diff` and `git status --porcelain` can see in the working tree. */
  datatype Tree = Tree(staged: bool, unstaged: bool, untracked: bool, conflicted: bool)
  {
    /** `git status --porcelain` prints something. */
    predicate Dirty() {
      staged || unstaged || untracked || conflicted
    }

    /** `git stash create` has tracked changes to record. */
    predicate Tracked() {
      staged || unstaged
    }

    /** The tree after `git reset --hard HEAD`: untracked files stay. */
    function Reset(): Tree {
      this.(staged := false, unstaged := false, conflicted := false)
    }
  }

  /** Everything a command can change, apart from the command trace, and what `arc list` prints. */
  datatype State = State(stashes: seq<StashEntry>, tree: Tree, stack: seq<Commit>, head: string,
                         rebasing: bool, rebaseHead: string, editorPlan: string, arcListing: string)

  /** How `git stash list --format=%gd` names entry `i`. */
  function StashRef(i: nat): string {
    "stash@{" + Decimal(i) + "}"
  }

  /** Line `i` of `git stash list --format="%H %gd"`. */
  function StashLine(e: StashEntry, i: nat): string {
    e.hash + " " + StashRef(i)
  }

  function StashListing(stashes: seq<StashEntry>): (ls: seq<string>)
    ensures |ls| == |stashes|
  {
    seq(|stashes|, i requires 0 <= i < |stashes| => StashLine(stashes[i], i))
  }

  /** The entry a `stash@{n}` reference names in a pool of `n` entries, if any. */
  function RefIndex(ref: string, n: nat): (r: Option<nat>)
    ensures r.Some? ==> r.value < n && StashRef(r.value) == ref
    ensures r.None? ==> forall i :: 0 <= i < n ==> StashRef(i) != ref
  {
    if n == 0 then None
    else if StashRef(n - 1) == ref then Some(n - 1)
    else RefIndex(ref, n - 1)
  }

  function Remove<T>(xs: seq<T>, i: nat): (r: seq<T>)
    requires i < |xs|
    ensures |r| == |xs| - 1
  {
    xs[..i] + xs[i + 1..]
  }

  /** The index of the first commit with hash `h`, or `|cs|`. */
  function IndexOfHash(cs: seq<Commit>, h: string): (k: nat)
    ensures k <= |cs|
    ensures k < |cs| ==> cs[k].hash == h
    ensures forall j :: 0 <= j < k ==> cs[j].hash != h
  {
    if cs == [] || cs[0].hash == h then 0 else 1 + IndexOfHash(cs[1..], h)
  }

  /** The commits of `master..HEAD` when `head` is checked out: up to that commit, or all of them for a branch. */
  function VisibleOf(stack: seq<Commit>, head: string): (cs: seq<Commit>)
    ensures |cs| <= |stack| && cs == stack[..|cs|]
  {
    var k := IndexOfHash(stack, head);
    if k < |stack| then stack[..k + 1] else stack
  }

  /** With distinct hashes, HEAD detached at the commit at `position` shows the stack up to it. */
  lemma VisibleAtCommit(stack: seq<Commit>, position: nat)
    requires 1 <= position <= |stack| && forall a, b :: 0 <= a < b < |stack| ==> stack[a].hash != stack[b].hash
    ensures VisibleOf(stack, stack[position - 1].hash) == stack[..position]
  {
    IndexOfOwnHash(stack, position - 1);
  }

  /** With distinct hashes a commit's hash finds the commit itself. */
  lemma IndexOfOwnHash(cs: seq<Commit>, i: nat)
    requires i < |cs| && forall a, b :: 0 <= a < b < |cs| ==> cs[a].hash != cs[b].hash
    ensures IndexOfHash(cs, cs[i].hash) == i
  {
  }

  function Hashes(cs: seq<Commit>): (hs: seq<string>)
    ensures |hs| == |cs|
  {
    seq(|cs|, i requires 0 <= i < |cs| => cs[i].hash)
  }

  /** The lines of `git rev-list --reverse <range> --format=%s`: a header and the subject per commit. */
  function SubjectListing(cs: seq<Commit>): (ls: seq<string>)
    ensures |ls| == 2 * |cs|
  {
    if cs == [] then [] else ["commit " + cs[0].hash, cs[0].subject] + SubjectListing(cs[1..])
  }

  /** The `%H %s` line of a commit. */
  function TodoLine(c: Commit): string {
    c.hash + " " + c.subject
  }

  /** The lines of `git rev-list --reverse <range> --format="%H %s"`. */
  function TodoListing(cs: seq<Commit>): (ls: seq<string>)
    ensures |ls| == 2 * |cs|
  {
    if cs == [] then [] else ["commit " + cs[0].hash, TodoLine(cs[0])] + TodoListing(cs[1..])
  }

  /**
   * The commands the tool runs; `Argv` is the argument list it passes.
   * `GitStatus` records whether the output the tool read listed an
   * unmerged path, and `PlanFileError` is not a command but the `OSError`
   * an operation on the plan file raised, recorded where it happened.
   */
  datatype Cmd =
    | GitStatus(conflicted: bool)
    | GitDiffNames(cached: bool)
    | GitStashCreate(message: string)
    | GitStashStore(message: string, hash: string)
    | GitReset
    | GitStashList
    | GitStashApply(ref: string)
    | GitStashDrop(ref: string)
    | GitRevList
    | GitRevListSubjects
    | GitRevListFrom(target: string)
    | GitRevParse
    | GitCheckout(target: string)
    | GitLog(hash: string)
    | GitLogSubject(hash: string)
    | GitRebase(base: string)
    | GitAdd
    | GitAmend
    | GitContinue
    | ArcList
    | ArcDiff(argv: seq<string>)
    | PlanFileError
  {
    function Argv(): seq<string> {
      match this
      case GitStatus(_) => ["git", "status", "--porcelain"]
      case GitDiffNames(cached) =>
        if cached then ["git", "diff", "--name-only", "--cached"] else ["git", "diff", "--name-only"]
      case GitStashCreate(message) => ["git", "stash", "create", message]
      case GitStashStore(message, hash) => ["git", "stash", "store", "-m", message, hash]
      case GitReset => ["git", "reset", "--hard", "HEAD"]
      case GitStashList => ["git", "stash", "list", "--format=%H %gd"]
      case GitStashApply(ref) => ["git", "stash", "apply", ref]
      case GitStashDrop(ref) => ["git", "stash", "drop", ref]
      case GitRevList => ["git", "rev-list", "--reverse", "master..HEAD"]
      case GitRevListSubjects => ["git", "rev-list", "--reverse", "master..HEAD", "--format=%s"]
      case GitRevListFrom(target) => ["git", "rev-list", "--reverse", target + "^..HEAD", "--format=%H %s"]
      case GitRevParse => ["git", "rev-parse", "--abbrev-ref", "HEAD"]
      case GitCheckout(target) => ["git", "checkout", target]
      case GitLog(hash) => ["git", "log", "-1", hash]
      case GitLogSubject(hash) => ["git", "log", "-1", "--format=%s", hash]
      case GitRebase(base) => ["git", "rebase", "-i", base]
      case GitAdd => ["git", "add", "-u"]
      case GitAmend => ["git", "commit", "--amend", "--no-edit"]
      case GitContinue => ["git", "rebase", "--continue"]
      case ArcList => ["arc", "list"]
      case ArcDiff(argv) => argv
      case PlanFileError => []
    }
  }

  /** A `git status --porcelain` text for this tree. */
  function PorcelainText(t: Tree): (out: string)
    ensures HasOutput(out) == t.Dirty()
    ensures HasMergeConflicts(out) == t.conflicted
  {
    if t.conflicted then
      assert ConflictAt("UU", 0);
      assert !IsSpace("UU"[0]);
      "UU"
    else if t.Dirty() then
      assert IndexOf("?", '\n') == 1;
      assert !IsSpace("?"[0]);
      "?"
    else ""
  }

  /** Some forty-digit hash. */
  function AnyHash(): (h: string)
    ensures IsHash(h)
  {
    seq(40, _ => '0')
  }

  /**
   * What git guarantees about its own output: hashes are forty hex digits,
   * the stack has no repeated commit, subjects are single lines without
   * surrounding whitespace, and the checked-out name is a single word.
   */
  predicate ValidState(stashes: seq<StashEntry>, stack: seq<Commit>, head: string) {
    && (forall i :: 0 <= i < |stashes| ==> IsHash(stashes[i].hash))
    && (forall i :: 0 <= i < |stack| ==> IsHash(stack[i].hash))
    && (forall i, j :: 0 <= i < j < |stack| ==> stack[i].hash != stack[j].hash)
    && (forall i :: 0 <= i < |stack| ==> '\n' !in stack[i].subject && Strip(stack[i].subject) == stack[i].subject)
    && (forall i :: 0 <= i < |stack| ==> stack[i].subject != [])
    && head != [] && NoSpace(head)
  }

  /**
   * Where `git rebase -i` stops for a plan: the commit named by the first
   * `edit` line (the forty characters after `edit `), if there is one.
   */
  function EditStop(plan: seq<string>): Option<string> {
    if plan == [] then None
    else if StartsWith(plan[0], "edit ") && |plan[0]| >= 45 then Some(plan[0][5..45])
    else EditStop(plan[1..])
  }

  /**
   * `git rebase -i` stopped at `hash`: HEAD is detached there, and the name
   * that was checked out is kept for the end of the rebase. Nothing else
   * changes but the plan.
   */
  predicate StoppedAt(before: State, after: State, hash: string) {
    !before.rebasing
    && after == before.(rebasing := true, head := hash, rebaseHead := before.head, editorPlan := after.editorPlan)
  }

  /**
   * The stack after commits were rewritten from index `from` on: as many
   * commits, the ones before `from` kept, every subject kept; the hashes
   * (and logs) from `from` on are git's to choose.
   */
  predicate Rewritten(before: seq<Commit>, after: seq<Commit>, from: nat) {
    && |after| == |before| && from <= |before|
    && after[..from] == before[..from]
    && forall i :: 0 <= i < |before| ==> after[i].subject == before[i].subject
  }

  lemma RewrittenTrans(a: seq<Commit>, b: seq<Commit>, c: seq<Commit>, i: nat, j: nat)
    requires Rewritten(a, b, i) && Rewritten(b, c, j) && i <= j
    ensures Rewritten(a, c, i)
  {
    assert c[..i] == c[..j][..i];
    assert b[..i] == b[..j][..i];
  }

  class Repo {
    var stashes: seq<StashEntry>    // stash@{0} first
    var tree: Tree
    var stack: seq<Commit>          // the commits on top of master, oldest first; while a rebase is
                                    // paused, the ones rewritten so far and then those still to replay
    var head: string                // what was last checked out: a branch name or a hash
    var rebasing: bool              // an interactive rebase is paused
    var rebaseHead: string          // what was checked out when the paused rebase started
    var editorPlan: string          // the plan GIT_SEQUENCE_EDITOR hands to `git rebase -i`
    var arcListing: string          // what `arc list` prints: the review server's revisions
    var trace: seq<Cmd>             // every command run, oldest first

    function Snapshot(): State
      reads this`stashes, this`tree, this`stack, this`head, this`rebasing, this`rebaseHead, this`editorPlan,
            this`arcListing
    {
      State(stashes, tree, stack, head, rebasing, rebaseHead, editorPlan, arcListing)
    }

    /** The state git guarantees: `ValidState` of the fields, and a name to return to after a rebase. */
    predicate Valid()
      reads this`stashes, this`stack, this`head, this`rebaseHead
    {
      ValidState(stashes, stack, head) && rebaseHead != [] && NoSpace(rebaseHead)
    }

    /** The commits `master..HEAD` names: the stack up to the checked-out commit. */
    function Visible(): (cs: seq<Commit>)
      reads this`stack, this`head
      ensures |cs| <= |stack| && cs == stack[..|cs|]
    {
      VisibleOf(stack, head)
    }

    /** What `git rev-parse --abbrev-ref HEAD` prints: `HEAD` when a commit is checked out. */
    function AbbrevRef(): string
      reads this`head
    {
      if IsHash(head) then "HEAD" else head
    }

    /** Runs `cmd`; any exit code is possible. */
    method Exec(cmd: Cmd) returns (code: int)
      modifies this
      ensures trace == old(trace) + [cmd] && Snapshot() == old(Snapshot())
    {
      trace := trace + [cmd];
      code := *;
    }

    /** `git diff --name-only [--cached]`: lists the staged, or the unstaged, paths. */
    method DiffNames(cached: bool) returns (r: Status<string>)
      modifies this
      ensures trace == old(trace) + [Cmd.GitDiffNames(cached)] && Snapshot() == old(Snapshot())
      ensures r.Return? || (r.Exit? && r.code != 0)
      ensures r.Return? ==> HasOutput(r.value) == (if cached then tree.staged else tree.unstaged)
    {
      var code := Exec(Cmd.GitDiffNames(cached));
      if code != 0 {
        return Exit(code);
      }
      var changed := if cached then tree.staged else tree.unstaged;
      assert HasOutput(PorcelainText(Tree(changed, false, false, false))) == changed;
      var out: string :| HasOutput(out) == changed;
      return Return(out);
    }

    /** `git status --porcelain`; a failing run shows the tool no conflict. */
    method StatusPorcelain() returns (r: Status<string>)
      modifies this
      ensures trace == old(trace) + [Cmd.GitStatus(r.Return? && tree.conflicted)] && Snapshot() == old(Snapshot())
      ensures r.Return? || (r.Exit? && r.code != 0)
      ensures r.Return? ==> HasOutput(r.value) == tree.Dirty() && HasMergeConflicts(r.value) == tree.conflicted
    {
      var code: int := *;
      trace := trace + [Cmd.GitStatus(code == 0 && tree.conflicted)];
      if code != 0 {
        return Exit(code);
      }
      assert HasOutput(PorcelainText(tree)) == tree.Dirty() && HasMergeConflicts(PorcelainText(tree)) == tree.conflicted;
      var out: string :| HasOutput(out) == tree.Dirty() && HasMergeConflicts(out) == tree.conflicted;
      return Return(out);
    }

    /** `git stash create <message>`: prints a new stash commit when there are tracked changes. */
    method StashCreate(message: string) returns (r: Status<string>)
      modifies this
      ensures trace == old(trace) + [Cmd.GitStashCreate(message)] && Snapshot() == old(Snapshot())
      ensures r.Return? || (r.Exit? && r.code != 0)
      ensures r.Return? && tree.Tracked() ==> exists h :: IsHash(h) && r.value == h + "\n"
      ensures r.Return? && !tree.Tracked() ==> r.value == ""
    {
      var code := Exec(Cmd.GitStashCreate(message));
      if code != 0 {
        return Exit(code);
      }
      if tree.Tracked() {
        assert IsHash(AnyHash());
        var h: string :| IsHash(h);
        return Return(h + "\n");
      }
      return Return("");
    }

    /** `git stash store -m <message> <hash>`: the entry becomes `stash@{0}`. */
    method StashStore(message: string, hash: string) returns (r: Status<()>)
      modifies this
      ensures trace == old(trace) + [Cmd.GitStashStore(message, hash)]
      ensures r.Return? || (r.Exit? && r.code != 0)
      ensures r.Return? ==> Snapshot() == old(Snapshot()).(stashes := [StashEntry(hash, message)] + old(stashes))
      ensures r.Exit? ==> Snapshot() == old(Snapshot())
    {
      var code := Exec(Cmd.GitStashStore(message, hash));
      if code != 0 {
        return Exit(code);
      }
      stashes := [StashEntry(hash, message)] + stashes;
      return Return(());
    }

    /** `git reset --hard HEAD`. */
    method ResetHard() returns (r: Status<()>)
      modifies this
      ensures trace == old(trace) + [Cmd.GitReset]
      ensures r.Return? || (r.Exit? && r.code != 0)
      ensures r.Return? ==> Snapshot() == old(Snapshot()).(tree := old(tree).Reset())
      ensures r.Exit? ==> Snapshot() == old(Snapshot())
    {
      var code := Exec(Cmd.GitReset);
      if code != 0 {
        return Exit(code);
      }
      tree := tree.Reset();
      return Return(());
    }

    /** `git stash list --format="%H %gd"`. */
    method StashList() returns (r: Status<string>)
      modifies this
      ensures trace == old(trace) + [Cmd.GitStashList] && Snapshot() == old(Snapshot())
      ensures r.Return? || (r.Exit? && r.code != 0)
      ensures r.Return? ==> r.value == Output(StashListing(stashes))
    {
      var code := Exec(Cmd.GitStashList);
      if code != 0 {
        return Exit(code);
      }
      return Return(Output(StashListing(stashes)));
    }

    /**
     * `git stash apply <ref>`: only an existing entry can be applied. The
     * tree it leaves is git's business, on a failure too: a conflicting
     * apply exits non-zero with the unmerged paths left in the tree.
     */
    method StashApply(ref: string) returns (r: Status<()>)
      modifies this
      ensures trace == old(trace) + [Cmd.GitStashApply(ref)]
      ensures r.Return? || (r.Exit? && r.code != 0)
      ensures r.Return? ==> RefIndex(ref, |stashes|).Some?
      ensures Snapshot() == old(Snapshot()).(tree := tree)
    {
      var code := Exec(Cmd.GitStashApply(ref));
      if code != 0 {
        tree := *;
        return Exit(code);
      }
      if RefIndex(ref, |stashes|).None? {
        return Exit(1);
      }
      tree := *;
      return Return(());
    }

    /** `git stash drop <ref>`: removes exactly the entry `ref` names. */
    method StashDrop(ref: string) returns (r: Status<()>)
      modifies this
      ensures trace == old(trace) + [Cmd.GitStashDrop(ref)]
      ensures r.Return? || (r.Exit? && r.code != 0)
      ensures r.Return? ==> RefIndex(ref, |old(stashes)|).Some?
                            && Snapshot() == old(Snapshot()).(stashes := Remove(old(stashes), RefIndex(ref, |old(stashes)|).value))
      ensures r.Exit? ==> Snapshot() == old(Snapshot())
    {
      var code := Exec(Cmd.GitStashDrop(ref));
      if code != 0 {
        return Exit(code);
      }
      match RefIndex(ref, |stashes|)
      case None =>
        return Exit(1);
      case Some(i) =>
        stashes := Remove(stashes, i);
        return Return(());
    }

    /** `git rev-list --reverse master..HEAD`. */
    method RevList() returns (r: Status<string>)
      modifies this
      ensures trace == old(trace) + [Cmd.GitRevList] && Snapshot() == old(Snapshot())
      ensures r.Return? || (r.Exit? && r.code != 0)
      ensures r.Return? ==> r.value == Output(Hashes(Visible()))
    {
      var code := Exec(Cmd.GitRevList);
      if code != 0 {
        return Exit(code);
      }
      return Return(Output(Hashes(Visible())));
    }

    /** `git rev-list --reverse master..HEAD --format=%s`. */
    method RevListSubjects() returns (r: Status<string>)
      modifies this
      ensures trace == old(trace) + [Cmd.GitRevListSubjects] && Snapshot() == old(Snapshot())
      ensures r.Return? || (r.Exit? && r.code != 0)
      ensures r.Return? ==> r.value == Output(SubjectListing(Visible()))
    {
      var code := Exec(Cmd.GitRevListSubjects);
      if code != 0 {
        return Exit(code);
      }
      return Return(Output(SubjectListing(Visible())));
    }

    /** `git rev-list --reverse <target>^..HEAD --format="%H %s"`: the commits from `target` on. */
    method RevListFrom(target: string) returns (r: Status<string>)
      modifies this
      ensures trace == old(trace) + [Cmd.GitRevListFrom(target)] && Snapshot() == old(Snapshot())
      ensures r.Return? || (r.Exit? && r.code != 0)
      ensures r.Return? ==> var k := IndexOfHash(old(Visible()), target);
                            k < |old(Visible())| && r.value == Output(TodoListing(old(Visible())[k..]))
    {
      var cs := Visible();
      var code := Exec(Cmd.GitRevListFrom(target));
      if code != 0 {
        return Exit(code);
      }
      var k := IndexOfHash(cs, target);
      if k == |cs| {
        return Exit(128);
      }
      return Return(Output(TodoListing(cs[k..])));
    }

    /** `git rev-parse --abbrev-ref HEAD`. */
    method RevParse() returns (r: Status<string>)
      modifies this
      ensures trace == old(trace) + [Cmd.GitRevParse] && Snapshot() == old(Snapshot())
      ensures r.Return? || (r.Exit? && r.code != 0)
      ensures r.Return? ==> r.value == AbbrevRef() + "\n"
    {
      var code := Exec(Cmd.GitRevParse);
      if code != 0 {
        return Exit(code);
      }
      return Return(AbbrevRef() + "\n");
    }

    /** `git checkout <target>`; `HEAD` names what is already checked out. */
    method Checkout(target: string) returns (r: Status<()>)
      modifies this
      ensures trace == old(trace) + [Cmd.GitCheckout(target)]
      ensures r.Return? || (r.Exit? && r.code != 0)
      ensures r.Return? ==> Snapshot() == old(Snapshot()).(head := if target == "HEAD" then old(head) else target)
      ensures r.Exit? ==> Snapshot() == old(Snapshot())
      ensures old(Valid()) && (IsHash(target) || target == "HEAD" || (target != [] && NoSpace(target))) ==> Valid()
      ensures r.Return? && target != "HEAD" && IndexOfHash(stack, target) < |stack| ==> Visible() == stack[..IndexOfHash(stack, target) + 1]
    {
      var code := Exec(Cmd.GitCheckout(target));
      if code != 0 {
        return Exit(code);
      }
      if target != "HEAD" {
        head := target;
      }
      return Return(());
    }

    /** `git log -1 <hash>`: the full message of a stack commit; of any other commit, some text. */
    method Log(hash: string) returns (r: Status<string>)
      modifies this
      ensures trace == old(trace) + [Cmd.GitLog(hash)] && Snapshot() == old(Snapshot())
      ensures r.Return? || (r.Exit? && r.code != 0)
      ensures r.Return? && IndexOfHash(stack, hash) < |stack| ==> r.value == stack[IndexOfHash(stack, hash)].log
    {
      var code := Exec(Cmd.GitLog(hash));
      if code != 0 {
        return Exit(code);
      }
      var k := IndexOfHash(stack, hash);
      if k < |stack| {
        return Return(stack[k].log);
      }
      var out: string := *;
      return Return(out);
    }

    /** `git log -1 --format=%s <hash>`: the subject of a stack commit; of any other commit, some text. */
    method LogSubject(hash: string) returns (r: Status<string>)
      modifies this
      ensures trace == old(trace) + [Cmd.GitLogSubject(hash)] && Snapshot() == old(Snapshot())
      ensures r.Return? || (r.Exit? && r.code != 0)
      ensures r.Return? && IndexOfHash(stack, hash) < |stack| ==> r.value == stack[IndexOfHash(stack, hash)].subject + "\n"
    {
      var code := Exec(Cmd.GitLogSubject(hash));
      if code != 0 {
        return Exit(code);
      }
      var k := IndexOfHash(stack, hash);
      if k < |stack| {
        return Return(stack[k].subject + "\n");
      }
      var out: string := *;
      return Return(out);
    }

    /**
     * `git rebase -i <base>` with the plan in `editorPlan`: it refuses while
     * another rebase is paused and when the `edit` line names no commit of
     * the stack; it stops at the commit of the first `edit` line. A plan of
     * `pick` lines only replays every commit as it is.
     */
    method Rebase(base: string) returns (r: Status<()>)
      requires Valid()
      modifies this
      ensures Valid()
      ensures trace == old(trace) + [Cmd.GitRebase(base)] && editorPlan == old(editorPlan)
      ensures r.Return? || (r.Exit? && r.code != 0)
      ensures r.Exit? ==> Snapshot() == old(Snapshot())
      ensures r.Return? ==> match EditStop(Split(old(editorPlan), '\n'))
                            case None => Snapshot() == old(Snapshot()) && !rebasing
                            case Some(h) => IndexOfHash(stack, h) < |stack| && StoppedAt(old(Snapshot()), Snapshot(), h)
    {
      var code := Exec(Cmd.GitRebase(base));
      if code != 0 {
        return Exit(code);
      }
      if rebasing {
        return Exit(1);
      }
      match EditStop(Split(editorPlan, '\n'))
      case None =>
        return Return(());
      case Some(h) =>
        if IndexOfHash(stack, h) == |stack| {
          return Exit(1);
        }
        HashShape(stack[IndexOfHash(stack, h)].hash);
        rebaseHead := head;
        head := h;
        rebasing := true;
        return Return(());
    }

    /** `git add -u`: every unstaged change of a tracked file becomes staged. */
    method AddUpdate() returns (r: Status<()>)
      modifies this
      ensures trace == old(trace) + [Cmd.GitAdd]
      ensures r.Return? || (r.Exit? && r.code != 0)
      ensures r.Return? ==> Snapshot() == old(Snapshot()).(tree := old(tree).(staged := old(tree).Tracked(), unstaged := false))
      ensures r.Exit? ==> Snapshot() == old(Snapshot())
    {
      var code := Exec(Cmd.GitAdd);
      if code != 0 {
        return Exit(code);
      }
      tree := tree.(staged := tree.Tracked(), unstaged := false);
      return Return(());
    }

    /**
     * `git commit --amend --no-edit`: the staged changes go into the commit
     * HEAD is detached at, which gets a new hash and keeps its subject.
     * Amending the tip of a checked-out branch is not part of this model.
     */
    method Amend() returns (r: Status<()>)
      requires Valid()
      modifies this
      ensures Valid()
      ensures trace == old(trace) + [Cmd.GitAmend]
      ensures r.Return? || (r.Exit? && r.code != 0)
      ensures r.Exit? ==> Snapshot() == old(Snapshot())
      ensures r.Return? ==> Snapshot() == old(Snapshot()).(tree := old(tree).(staged := false), stack := stack, head := head)
      ensures var k := IndexOfHash(old(stack), old(head));
              && Rewritten(old(stack), stack, k)
              && (k < |stack| ==> stack[k + 1..] == old(stack)[k + 1..] && head == stack[k].hash)
              && (k == |stack| ==> head == old(head))
    {
      var code := Exec(Cmd.GitAmend);
      if code != 0 {
        return Exit(code);
      }
      tree := tree.(staged := false);
      var k := IndexOfHash(stack, head);
      if k < |stack| {
        HashShape(stack[k].hash);
        assert ValidState(stashes, stack[k := stack[k]], stack[k].hash);
        var c: Commit :| c.subject == stack[k].subject && ValidState(stashes, stack[k := c], c.hash);
        stack := stack[k := c];
        head := c.hash;
      }
      return Return(());
    }

    /**
     * `git rebase --continue`: the commits after the one HEAD is detached at
     * replay with their subjects and (possibly) new hashes, the rebase ends
     * and what was checked out when it started is checked out again. It
     * refuses when no rebase is paused.
     */
    method Continue() returns (r: Status<()>)
      requires Valid()
      modifies this
      ensures Valid()
      ensures trace == old(trace) + [Cmd.GitContinue]
      ensures r.Return? || (r.Exit? && r.code != 0)
      ensures r.Exit? ==> Snapshot() == old(Snapshot())
      ensures r.Return? ==> old(rebasing)
                            && Snapshot() == old(Snapshot()).(rebasing := false, head := old(rebaseHead), stack := stack)
      ensures var k := IndexOfHash(old(stack), old(head));
              Rewritten(old(stack), stack, if k < |old(stack)| then k + 1 else k)
    {
      var code := Exec(Cmd.GitContinue);
      if code != 0 {
        return Exit(code);
      }
      if !rebasing {
        return Exit(1);
      }
      var k := IndexOfHash(stack, head);
      var from := if k < |stack| then k + 1 else k;
      assert Rewritten(stack, stack, from) && ValidState(stashes, stack, rebaseHead);
      var s: seq<Commit> :| Rewritten(stack, s, from) && ValidState(stashes, s, rebaseHead);
      stack := s;
      head := rebaseHead;
      rebasing := false;
      return Return(());
    }

    /** `arc list`: the review server's revisions, as the field `arcListing` holds them. */
    method ArcList() returns (r: Status<string>)
      modifies this
      ensures trace == old(trace) + [Cmd.ArcList] && Snapshot() == old(Snapshot())
      ensures r.Return? || (r.Exit? && r.code != 0)
      ensures r.Return? ==> r.value == arcListing
    {
      var code := Exec(Cmd.ArcList);
      if code != 0 {
        return Exit(code);
      }
      return Return(arcListing);
    }

    /** `arc diff ...`: its effect on the review server is not part of this model. */
    method ArcDiff(argv: seq<string>) returns (r: Status<()>)
      modifies this
      ensures trace == old(trace) + [Cmd.ArcDiff(argv)] && Snapshot() == old(Snapshot())
      ensures r.Return? || (r.Exit? && r.code != 0)
    {
      var code := Exec(Cmd.ArcDiff(argv));
      if code != 0 {
        return Exit(code);
      }
      return Return(());
    }

    /** Creating the temporary plan file: may raise `OSError`. */
    method TempCreate() returns (ok: bool)
      modifies this`trace
      ensures trace == if ok then old(trace) else old(trace) + [PlanFileError]
    {
      ok := *;
      if !ok {
        trace := trace + [PlanFileError];
      }
    }

    /**
     * Writing the plan text to the temporary file and pointing
     * GIT_SEQUENCE_EDITOR at it: may raise `OSError`.
     */
    method TempWrite(text: string) returns (ok: bool)
      modifies this
      ensures trace == if ok then old(trace) else old(trace) + [PlanFileError]
      ensures ok ==> Snapshot() == old(Snapshot()).(editorPlan := text)
      ensures !ok ==> Snapshot() == old(Snapshot())
      ensures Visible() == old(Visible()) && Valid() == old(Valid())
    {
      ok := *;
      if ok {
        editorPlan := text;
      } else {
        trace := trace + [PlanFileError];
      }
    }

    /** Removing the temporary plan file: may raise `OSError`. */
    method TempRemove() returns (ok: bool)
      modifies this`trace
      ensures trace == if ok then old(trace) else old(trace) + [PlanFileError]
    {
      ok := *;
      if !ok {
        trace := trace + [PlanFileError];
      }
    }
  }

  /** `c` is recorded in `after` past its prefix `before`. */
  predicate Logged(before: seq<Cmd>, after: seq<Cmd>, c: Cmd) {
    exists i :: |before| <= i < |after| && after[i] == c
  }

  /** An entry is recorded past `a` exactly when it is recorded between `a` and `b` or past `b`. */
  lemma LoggedSplit(a: seq<Cmd>, b: seq<Cmd>, c: seq<Cmd>, x: Cmd)
    requires |a| <= |b| <= |c| && c[..|b|] == b
    ensures Logged(a, c, x) <==> Logged(a, b, x) || Logged(b, c, x)
  {
    if Logged(a, c, x) {
      var i :| |a| <= i < |c| && c[i] == x;
      if i < |b| {
        assert b[i] == c[..|b|][i];
      }
    }
    if Logged(a, b, x) {
      var i :| |a| <= i < |b| && b[i] == x;
      assert c[i] == c[..|b|][i];
    }
  }

  /** Extending an extension of `a` still extends `a`. */
  lemma PrefixTrans(a: seq<Cmd>, b: seq<Cmd>, c: seq<Cmd>)
    requires |a| <= |b| && b[..|a|] == a
    requires |b| <= |c| && c[..|b|] == b
    ensures |a| <= |c| && c[..|a|] == a
  {
    assert c[..|a|] == c[..|b|][..|a|];
  }

  /** Concatenation of traces regroups. */
  lemma TraceAppend(t: seq<Cmd>, u: seq<Cmd>, v: seq<Cmd>)
    ensures t + u + v == t + (u + v)
  {
  }

  // ----- what the listing commands print reads back as the state -----

  lemma HashShape(h: string)
    requires IsHash(h)
    ensures h != [] && NoSpace(h) && '\n' !in h
  {
    forall i | 0 <= i < |h| ensures !IsSpace(h[i]) {
      assert IsHexDigit(h[i]);
    }
  }

  lemma StashRefShape(i: nat)
    ensures StashRef(i) != [] && NoSpace(StashRef(i))
  {
    var d := Decimal(i);
    var r := StashRef(i);
    forall j | 0 <= j < |r| ensures !IsSpace(r[j]) {
      if 7 <= j < 7 + |d| {
        assert r[j] == d[j - 7];
      }
    }
  }

  /** A stash-list line has no whitespace but the one space, and splits into the hash and the reference. */
  lemma StashLineShape(e: StashEntry, i: nat)
    requires IsHash(e.hash)
    ensures var l := StashLine(e, i);
            l != [] && !IsSpace(l[0]) && !IsSpace(l[|l| - 1]) && '\n' !in l
            && Fields(l) == [e.hash, StashRef(i)]
  {
    var h, r := e.hash, StashRef(i);
    var l := StashLine(e, i);
    HashShape(h);
    StashRefShape(i);
    forall j | 0 <= j < |l| ensures l[j] != '\n' {
      if j < |h| {
        assert l[j] == h[j];
      } else if j > |h| {
        assert l[j] == r[j - |h| - 1];
      }
    }
    assert l[|l| - 1] == r[|r| - 1];
    FieldsOfPair(h, r);
  }

  /** `git stash list --format="%H %gd"` reads back as one line per entry, or one empty line. */
  lemma StashListingLines(stashes: seq<StashEntry>)
    requires forall i :: 0 <= i < |stashes| ==> IsHash(stashes[i].hash)
    ensures Lines(Output(StashListing(stashes))) == if stashes == [] then [""] else StashListing(stashes)
  {
    if stashes != [] {
      var ls := StashListing(stashes);
      forall k | 0 <= k < |ls| ensures '\n' !in ls[k] {
        StashLineShape(stashes[k], k);
      }
      StashLineShape(stashes[0], 0);
      StashLineShape(stashes[|stashes| - 1], |stashes| - 1);
      LinesOfOutput(ls);
    }
  }

  /** Different numbers name different stash entries. */
  lemma {:induction false} DecimalInjective(a: nat, b: nat)
    requires Decimal(a) == Decimal(b)
    ensures a == b
  {
    if a >= 10 && b >= 10 {
      var da, db := Decimal(a), Decimal(b);
      assert da[..|da| - 1] == Decimal(a / 10);
      assert db[..|db| - 1] == Decimal(b / 10);
      DecimalInjective(a / 10, b / 10);
      assert DigitChar(a % 10) == DigitChar(b % 10);
    }
  }

  /** The reference of entry `k` names entry `k` and no other. */
  lemma RefIndexOfStashRef(k: nat, n: nat)
    requires k < n
    ensures RefIndex(StashRef(k), n) == Some(k)
  {
    var r := RefIndex(StashRef(k), n);
    if r.Some? {
      var j := r.value;
      assert StashRef(j)[7..|StashRef(j)| - 1] == Decimal(j);
      assert StashRef(k)[7..|StashRef(k)| - 1] == Decimal(k);
      DecimalInjective(j, k);
    }
  }

  /** `git rev-list --reverse master..HEAD` reads back as the hashes of the commits. */
  lemma HashListingLines(cs: seq<Commit>)
    requires cs != [] && forall i :: 0 <= i < |cs| ==> IsHash(cs[i].hash)
    ensures Lines(Output(Hashes(cs))) == Hashes(cs)
  {
    var hs := Hashes(cs);
    forall k | 0 <= k < |hs| ensures '\n' !in hs[k] {
      HashShape(cs[k].hash);
    }
    HashShape(cs[0].hash);
    HashShape(cs[|cs| - 1].hash);
    LinesOfOutput(hs);
  }

  function SubjectsOf(cs: seq<Commit>): (ss: seq<string>)
    ensures |ss| == |cs|
  {
    seq(|cs|, i requires 0 <= i < |cs| => cs[i].subject)
  }

  /**
   * Subjects the `--format=%s` listing reads back: single lines without
   * surrounding whitespace, none starting with `commit `, the last one
   * non-empty.
   */
  predicate ReadableSubjects(cs: seq<Commit>) {
    && cs != []
    && (forall i :: 0 <= i < |cs| ==> IsHash(cs[i].hash))
    && (forall i :: 0 <= i < |cs| ==> '\n' !in cs[i].subject && Strip(cs[i].subject) == cs[i].subject)
    && (forall i :: 0 <= i < |cs| ==> !StartsWith(cs[i].subject, "commit "))
    && cs[|cs| - 1].subject != []
  }

  lemma HeaderShape(h: string)
    requires IsHash(h)
    ensures var l := "commit " + h; l != [] && !IsSpace(l[0]) && '\n' !in l && StartsWith(l, "commit ")
  {
    var l := "commit " + h;
    HashShape(h);
    forall j | 0 <= j < |l| ensures l[j] != '\n' {
      if j >= 7 {
        assert l[j] == h[j - 7];
      }
    }
    assert l[..7] == "commit ";
  }

  /** Dropping the header lines of the `--format=%s` listing leaves the subjects in stack order. */
  lemma {:induction false} SubjectListingHeaders(cs: seq<Commit>)
    requires forall i :: 0 <= i < |cs| ==> IsHash(cs[i].hash) && !StartsWith(cs[i].subject, "commit ")
    ensures DropCommitHeaders(SubjectListing(cs)) == SubjectsOf(cs)
  {
    if cs != [] {
      var rest := SubjectListing(cs[1..]);
      var ls := ["commit " + cs[0].hash, cs[0].subject] + rest;
      HeaderShape(cs[0].hash);
      assert ls[1..] == [cs[0].subject] + rest;
      assert ([cs[0].subject] + rest)[1..] == rest;
      SubjectListingHeaders(cs[1..]);
      assert SubjectsOf(cs) == [cs[0].subject] + SubjectsOf(cs[1..]);
    }
  }

  /** `git rev-list --reverse master..HEAD --format=%s` reads back as the subjects of the commits. */
  lemma SubjectListingLines(cs: seq<Commit>)
    requires ReadableSubjects(cs)
    ensures Subjects(Output(SubjectListing(cs))) == SubjectsOf(cs)
  {
    var ls := SubjectListing(cs);
    SubjectListingShape(cs);
    HeaderShape(cs[0].hash);
    LastSubjectIsLast(cs);
    var s := cs[|cs| - 1].subject;
    assert !IsSpace(s[|s| - 1]);
    LinesOfOutput(ls);
    SubjectListingHeaders(cs);
  }

  lemma {:induction false} SubjectListingShape(cs: seq<Commit>)
    requires forall i :: 0 <= i < |cs| ==> IsHash(cs[i].hash) && '\n' !in cs[i].subject
    ensures forall k :: 0 <= k < |SubjectListing(cs)| ==> '\n' !in SubjectListing(cs)[k]
    ensures cs != [] ==> SubjectListing(cs)[0] == "commit " + cs[0].hash
  {
    if cs != [] {
      HeaderShape(cs[0].hash);
      SubjectListingShape(cs[1..]);
      var ls := SubjectListing(cs);
      forall k | 2 <= k < |ls| ensures ls[k] == SubjectListing(cs[1..])[k - 2] { }
    }
  }

  lemma {:induction false} LastSubjectIsLast(cs: seq<Commit>)
    requires cs != []
    ensures Last(SubjectListing(cs)) == cs[|cs| - 1].subject
  {
    if |cs| > 1 {
      LastSubjectIsLast(cs[1..]);
    }
  }
}
