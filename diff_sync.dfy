/**
 * The `try` body that the two copies of `create_or_update_diff` share
 * (src/anist/diff.py lines 49-111 and src/diff.py lines 48-110): find the
 * commit at a position, check it out, resolve its revision ID (the
 * `arc list` mapping first, then the commit's trailer), run `arc diff`
 * and check the original branch out again. The copies differ only in
 * the `--nolint` flag of the legacy one.
 */
module DiffSync {
  import opened Python
  import opened Text
  import opened Parse
  import opened Git
  import opened Utils

  /** Which copy of the workflow: src/anist/diff.py or the legacy src/diff.py. */
  datatype Variant = Anist | Legacy

  /** How many words precede `--update`: `arc diff HEAD~1`, and `--nolint` in the legacy copy. */
  function Base(variant: Variant): nat {
    if variant.Legacy? then 4 else 3
  }

  /**
   * The argument list of `arc diff`; `update` names the revision to update
   * and is `None` in create mode.
   */
  function ArcDiffArgv(variant: Variant, update: Option<string>, message: string): (argv: seq<string>)
    ensures |argv| == Base(variant) + (if update.Some? then 2 else 0) + (if message != "" then 2 else 0)
    ensures argv[..3] == ["arc", "diff", "HEAD~1"]
    ensures variant.Legacy? ==> argv[3] == "--nolint"
    ensures update.Some? ==> argv[Base(variant)] == "--update" && argv[Base(variant) + 1] == update.value
    ensures message != "" ==> argv[|argv| - 2] == "--message" && argv[|argv| - 1] == message
  {
    var head := if variant.Legacy? then ["arc", "diff", "HEAD~1", "--nolint"] else ["arc", "diff", "HEAD~1"];
    var target := if update.Some? then ["--update", update.value] else [];
    var note := if message != "" then ["--message", message] else [];
    head + target + note
  }

  /**
   * src/anist/diff.py lines 88-97 (src/diff.py lines 87-96): the list is
   * built for create or update mode and then extended with the message.
   */
  method BuildArcDiffCommand(variant: Variant, create: bool, id: string, message: string) returns (cmd: seq<string>)
    ensures cmd == ArcDiffArgv(variant, if create then None else Some(id), message)
  {
    if create {
      cmd := if variant.Legacy? then ["arc", "diff", "HEAD~1", "--nolint"] else ["arc", "diff", "HEAD~1"];
    } else {
      cmd := if variant.Legacy? then ["arc", "diff", "HEAD~1", "--nolint", "--update", id]
             else ["arc", "diff", "HEAD~1", "--update", id];
    }
    if message != "" {
      cmd := cmd + ["--message", message];
    }
  }

  /** `after` is `before` followed by commands none of which is `arc diff`. */
  predicate NoArcDiff(before: seq<Cmd>, after: seq<Cmd>) {
    |before| <= |after| && after[..|before|] == before
    && forall i :: |before| <= i < |after| ==> !after[i].ArcDiff?
  }

  lemma NoArcDiffOne(before: seq<Cmd>, c: Cmd)
    requires !c.ArcDiff?
    ensures NoArcDiff(before, before + [c])
  {
    assert (before + [c])[..|before|] == before;
  }

  lemma NoArcDiffTrans(a: seq<Cmd>, b: seq<Cmd>, c: seq<Cmd>)
    requires NoArcDiff(a, b) && NoArcDiff(b, c)
    ensures NoArcDiff(a, c)
  {
    assert c[..|a|] == c[..|b|][..|a|];
    forall i | |a| <= i < |c| ensures !c[i].ArcDiff? {
      if i < |b| {
        assert c[i] == c[..|b|][i];
      }
    }
  }

  lemma NoArcDiffStep(before: seq<Cmd>, mid: seq<Cmd>, c: Cmd)
    requires NoArcDiff(before, mid) && !c.ArcDiff?
    ensures NoArcDiff(before, mid + [c])
  {
    assert (mid + [c])[..|before|] == mid[..|before|];
    forall i | |before| <= i < |mid| + 1 ensures !(mid + [c])[i].ArcDiff? {
      if i < |mid| {
        assert (mid + [c])[i] == mid[i];
      }
    }
  }

  /**
   * What the `try` body has run when it returns `ok`: it ends by checking
   * out `branch`; on success `arc diff` with `argv` ran just before that,
   * and on failure (update mode only) no `arc diff` ran at all.
   */
  predicate Reported(ok: bool, create: bool, before: seq<Cmd>, after: seq<Cmd>, branch: string, argv: seq<string>) {
    && |before| + 1 <= |after| && after[..|before|] == before
    && after[|after| - 1] == GitCheckout(branch)
    && (ok ==> |before| + 2 <= |after| && after[|after| - 2] == ArcDiff(argv))
    && (!ok ==> !create && NoArcDiff(before, after))
  }

  /**
   * The commands `seg` of one create_or_update_diff call for the commit
   * `hash` that returned `ok`: the staged-changes check comes first, the
   * commit is checked out, and `arc diff` ran exactly when the call
   * reported success.
   */
  predicate Processed(seg: seq<Cmd>, hash: string, ok: bool) {
    && seg != [] && seg[0] == GitDiffNames(true)
    && GitCheckout(hash) in seg
    && (ok <==> exists i :: 0 <= i < |seg| && seg[i].ArcDiff?)
  }

  /** The traces of consecutive calls, one after the other. */
  function Concat(segs: seq<seq<Cmd>>): seq<Cmd>
    decreases |segs|
  {
    if segs == [] then [] else Concat(segs[..|segs| - 1]) + segs[|segs| - 1]
  }

  lemma ConcatAppend(segs: seq<seq<Cmd>>, seg: seq<Cmd>)
    ensures Concat(segs + [seg]) == Concat(segs) + seg
  {
    assert (segs + [seg])[..|segs|] == segs;
  }

  /**
   * From `before` to `after` the calls for positions 1, 2, ... of `cs`
   * ran one after the other: call `j` ran the commands `segs[j]`,
   * processed the commit `cs[j]` and reported `outcomes[j]`.
   */
  predicate Ran(before: seq<Cmd>, after: seq<Cmd>, segs: seq<seq<Cmd>>, outcomes: seq<bool>, cs: seq<Commit>) {
    && |segs| == |outcomes| <= |cs|
    && after == before + Concat(segs)
    && forall j :: 0 <= j < |segs| ==> Processed(segs[j], cs[j].hash, outcomes[j])
  }

  /** One more call, for the next position, extends the run. */
  lemma RanStep(start: seq<Cmd>, before: seq<Cmd>, after: seq<Cmd>, segs: seq<seq<Cmd>>, outcomes: seq<bool>,
                cs: seq<Commit>, ok: bool)
    requires Ran(start, before, segs, outcomes, cs)
    requires |before| <= |after| && after[..|before|] == before
    requires |segs| < |cs| && Processed(after[|before|..], cs[|segs|].hash, ok)
    ensures Ran(start, after, segs + [after[|before|..]], outcomes + [ok], cs)
  {
    var seg := after[|before|..];
    ConcatAppend(segs, seg);
    assert after == before + seg;
    var segs', outcomes' := segs + [seg], outcomes + [ok];
    forall j | 0 <= j < |segs'| ensures Processed(segs'[j], cs[j].hash, outcomes'[j]) {
      if j < |segs| {
        assert segs'[j] == segs[j] && outcomes'[j] == outcomes[j];
      }
    }
  }

  /** The body checks the target out as its fourth command. */
  lemma BodyChecksOut(tried: seq<Cmd>, body: seq<Cmd>, looked: seq<Cmd>, listing: string, cs: seq<Commit>, position: int,
                      create: bool, ok: bool, id: Option<string>, argv: seq<string>, branch: string)
    requires BodyRan(tried, body, looked, listing, cs, position, create, ok, id, argv, branch)
    ensures 1 <= position <= |cs| && |tried| + 4 <= |body| && body[|tried| + 3] == GitCheckout(cs[position - 1].hash)
  {
    var hash := cs[position - 1].hash;
    var located := tried + [GitRevList, GitLogSubject(hash), GitRevParse, GitCheckout(hash)];
    assert located[|tried| + 3] == GitCheckout(hash);
    if !create {
      assert looked[|tried| + 3] == (located + [ArcList])[|tried| + 3] by {
        assert looked[..|located| + 1] == located + [ArcList];
      }
    }
  }

  /**
   * The commands after `before` make a processed call when the first is
   * the staged-changes check, the one at `k` checks out `hash`, and an
   * `arc diff` ran (at `m`) exactly when the call reported `ok`.
   */
  lemma ProcessedFrom(before: seq<Cmd>, after: seq<Cmd>, hash: string, ok: bool, k: int, m: int)
    requires |before| < |after| && after[..|before|] == before && after[|before|] == GitDiffNames(true)
    requires |before| <= k < |after| && after[k] == GitCheckout(hash)
    requires ok ==> |before| <= m < |after| && after[m].ArcDiff?
    requires !ok ==> NoArcDiff(before, after)
    ensures Processed(after[|before|..], hash, ok)
  {
    var seg := after[|before|..];
    assert seg[k - |before|] == after[k];
    if ok {
      assert seg[m - |before|] == after[m];
    } else {
      forall i | 0 <= i < |seg| ensures !seg[i].ArcDiff? {
        assert seg[i] == after[|before| + i];
      }
    }
  }

  /**
   * A call whose first command was the staged-changes check, that ran no
   * `arc diff` before its `try` body started at `tried`, whose body
   * checked out `hash` as its fourth command and reported `ok` at
   * `body`, and that ran no `arc diff` after it, processed `hash`.
   */
  lemma ProcessedCall(before: seq<Cmd>, tried: seq<Cmd>, body: seq<Cmd>, after: seq<Cmd>, hash: string,
                      create: bool, ok: bool, argv: seq<string>, branch: string)
    requires NoArcDiff(before, tried) && |before| < |tried| && tried[|before|] == GitDiffNames(true)
    requires |tried| + 4 <= |body| && body[|tried| + 3] == GitCheckout(hash)
    requires Reported(ok, create, tried, body, branch, argv)
    requires NoArcDiff(body, after)
    ensures Processed(after[|before|..], hash, ok)
  {
    if !ok {
      NoArcDiffTrans(before, tried, body);
      NoArcDiffTrans(before, body, after);
    }
    assert after[|tried| + 3] == body[|tried| + 3] && after[|body| - 2] == body[|body| - 2] by {
      assert after[..|body|] == body;
    }
    assert after[..|tried|] == tried by {
      assert after[..|tried|] == after[..|body|][..|tried|];
    }
    assert after[..|before|] == before by {
      assert after[..|before|] == after[..|tried|][..|before|];
    }
    ProcessedFrom(before, after, hash, ok, |tried| + 3, |body| - 2);
  }

  /**
   * A call that began with the two change checks at `before`, checked
   * out `hash` as the fourth command of its body and reported `ok`
   * processed `hash`.
   */
  lemma CheckedCall(before: seq<Cmd>, tried: seq<Cmd>, after: seq<Cmd>, hash: string,
                    create: bool, ok: bool, argv: seq<string>, branch: string)
    requires tried == before + [GitDiffNames(true), GitDiffNames(false)]
    requires |tried| + 4 <= |after| && after[|tried| + 3] == GitCheckout(hash)
    requires Reported(ok, create, tried, after, branch, argv)
    ensures Processed(after[|before|..], hash, ok)
  {
    NoArcDiffOne(before, GitDiffNames(true));
    NoArcDiffStep(before, before + [GitDiffNames(true)], GitDiffNames(false));
    ProcessedCall(before, tried, after, after, hash, create, ok, argv, branch);
  }

  /**
   * Lines 51-59: the hash at `position`, its subject and the current
   * branch, read without changing anything.
   */
  method ReadTarget(repo: Repo, position: int) returns (r: Status<(string, string)>)
    requires repo.Valid()
    modifies repo
    ensures repo.Snapshot() == old(repo.Snapshot())
    ensures r.Return? || (r.Exit? && r.code != 0)
    ensures !(1 <= position <= |old(repo.Visible())|) ==> r.Exit?
    ensures NoArcDiff(old(repo.trace), repo.trace)
    ensures r.Return? ==>
              var hash := r.value.0;
              && 1 <= position <= |old(repo.Visible())|
              && hash == old(repo.Visible())[position - 1].hash
              && r.value.1 == repo.AbbrevRef()
              && repo.trace == old(repo.trace) + [GitRevList, GitLogSubject(hash), GitRevParse]
  {
    ghost var t0 := repo.trace;
    var target := GetCommitHashByPosition(repo, position);
    NoArcDiffOne(t0, GitRevList);
    if !target.Return? {
      r := Exit(target.code);
    } else {
      var hash := target.value;
      ghost var t1 := repo.trace;
      var branch := ReadSubjectAndBranch(repo, hash);
      NoArcDiffTrans(t0, t1, repo.trace);
      if branch.Return? {
        TraceAppend(t0, [GitRevList], [GitLogSubject(hash), GitRevParse]);
        r := Return((hash, branch.value));
      } else {
        r := Exit(branch.code);
      }
    }
  }

  /** Lines 55-59: the subject of `hash` (only printed) and the current branch. */
  method ReadSubjectAndBranch(repo: Repo, hash: string) returns (r: Status<string>)
    requires repo.Valid()
    modifies repo
    ensures repo.Snapshot() == old(repo.Snapshot())
    ensures r.Return? || (r.Exit? && r.code != 0)
    ensures NoArcDiff(old(repo.trace), repo.trace)
    ensures r.Return? ==>
              && r.value == repo.AbbrevRef()
              && repo.trace == old(repo.trace) + [GitLogSubject(hash), GitRevParse]
  {
    ghost var t0 := repo.trace;
    assert t0[..|t0|] == t0;
    var subject := GetCommitMessage(repo, hash);
    NoArcDiffStep(t0, t0, GitLogSubject(hash));
    if !subject.Return? {
      return Exit(subject.code);
    }
    ghost var t1 := repo.trace;
    var branch := GetCurrentBranch(repo);
    NoArcDiffStep(t0, t1, GitRevParse);
    if !branch.Return? {
      return Exit(branch.code);
    }
    return branch;
  }

  /** Line 63: the checkout of commit `k` of `master..HEAD`, which then ends there. */
  method CheckoutCommit(repo: Repo, hash: string, ghost k: nat) returns (r: Status<()>)
    requires repo.Valid() && k < |repo.Visible()| && hash == repo.Visible()[k].hash
    modifies repo
    ensures repo.Valid()
    ensures repo.trace == old(repo.trace) + [GitCheckout(hash)]
    ensures r.Return? || (r.Exit? && r.code != 0)
    ensures r.Exit? ==> repo.Snapshot() == old(repo.Snapshot())
    ensures r.Return? ==> repo.Snapshot() == old(repo.Snapshot()).(head := hash)
                          && repo.Visible() == old(repo.Visible())[..k + 1]
  {
    assert IsHash(repo.stack[k].hash);
    HashShape(hash);
    IndexOfOwnHash(repo.stack, k);
    assert repo.Visible()[..k + 1] == repo.stack[..k + 1];
    r := repo.Checkout(hash);
  }

  /**
   * Lines 51-63: `ReadTarget`, then the checkout of the commit. On success
   * `master..HEAD` ends at the target.
   */
  method LocateTarget(repo: Repo, position: int) returns (r: Status<(string, string)>)
    requires repo.Valid()
    modifies repo
    ensures repo.Valid()
    ensures r.Return? || (r.Exit? && r.code != 0)
    ensures repo.Snapshot() == old(repo.Snapshot()).(head := repo.head)
    ensures NoArcDiff(old(repo.trace), repo.trace)
    ensures r.Exit? ==> repo.head == old(repo.head)
    ensures !(1 <= position <= |old(repo.Visible())|) ==> r.Exit?
    ensures r.Return? ==>
              var hash := r.value.0;
              && 1 <= position <= |old(repo.Visible())|
              && hash == old(repo.Visible())[position - 1].hash
              && r.value.1 == old(repo.AbbrevRef())
              && repo.head == hash
              && repo.Visible() == old(repo.Visible())[..position]
              && repo.trace == old(repo.trace) + [GitRevList, GitLogSubject(hash), GitRevParse, GitCheckout(hash)]
  {
    ghost var cs := repo.Visible();
    var read := ReadTarget(repo, position);
    if !read.Return? {
      return read;
    }
    var hash := read.value.0;
    ghost var t1 := repo.trace;
    var moved := CheckoutCommit(repo, hash, position - 1);
    NoArcDiffStep(old(repo.trace), t1, GitCheckout(hash));
    if !moved.Return? {
      return Exit(moved.code);
    }
    return read;
  }

  /**
   * The revision update mode sends for the commit at `position`, whose
   * message is `log`: the one the `arc list` mapping `ids` files under the
   * position, otherwise the one of the commit's trailer.
   */
  function ResolvedId(ids: map<int, string>, position: int, log: string): Option<string> {
    if position in ids then Some(ids[position]) else Parse.FindDiffIdInCommit(log)
  }

  /**
   * What the body ran from `from`, with the target `hash` (whose message
   * is `log`) checked out, up to `after`, when it reported `ok`: in create
   * mode `arc diff` and the checkout of `branch`; in update mode `arc list`
   * and the message search (up to `looked`), the trailer read only when
   * the mapping `ids` has no entry for `position`, `arc diff` exactly when
   * an ID was found, and the checkout of `branch`.
   */
  predicate Sent(from: seq<Cmd>, after: seq<Cmd>, looked: seq<Cmd>, ids: map<int, string>, position: int,
                 hash: string, log: string, create: bool, ok: bool, id: Option<string>, argv: seq<string>, branch: string) {
    if create then
      ok && id.None? && after == from + [ArcDiff(argv), GitCheckout(branch)]
    else
      && ArcListed(from, looked)
      && id == ResolvedId(ids, position, log)
      && (ok <==> id.Some?)
      && after == looked + (if position in ids then [] else [GitLog(hash)])
                 + (if ok then [ArcDiff(argv)] else []) + [GitCheckout(branch)]
  }

  /**
   * The whole `try` body from `before` to `after` for the commit at
   * `position` of `cs` (`master..HEAD` when it started), with `arc list`
   * printing `listing` and `branch` checked out at the start: the target
   * is read and checked out, then `Sent` holds of the rest, with the
   * mapping built from the stack up to the target.
   */
  predicate BodyRan(before: seq<Cmd>, after: seq<Cmd>, looked: seq<Cmd>, listing: string, cs: seq<Commit>, position: int,
                    create: bool, ok: bool, id: Option<string>, argv: seq<string>, branch: string) {
    && 1 <= position <= |cs|
    && var hash := cs[position - 1].hash;
       Sent(before + [GitRevList, GitLogSubject(hash), GitRevParse, GitCheckout(hash)], after, looked,
            ArcIds(listing, cs[..position]), position, hash, cs[position - 1].log, create, ok, id, argv, branch)
  }

  /**
   * Lines 66-78: the ID the `arc list` mapping files under `position`;
   * only when it gives none is the commit's `Differential Revision:`
   * trailer read. `hash` is the commit at `position`, and `looked` the
   * trace once the mapping is built.
   */
  method ResolveDiffId(repo: Repo, position: int, hash: string) returns (r: Status<Option<string>>, ghost looked: seq<Cmd>)
    requires repo.Valid() && 1 <= position <= |repo.Visible()| && hash == repo.Visible()[position - 1].hash
    modifies repo
    ensures repo.Snapshot() == old(repo.Snapshot()) && Quiet(old(repo.trace), repo.trace)
    ensures r.Return? || (r.Exit? && r.code != 0)
    ensures r.Return? ==>
              var ids := ArcIds(repo.arcListing, old(repo.Visible()));
              && ArcListed(old(repo.trace), looked)
              && r.value == ResolvedId(ids, position, old(repo.Visible())[position - 1].log)
              && (r.value.Some? ==> IsDToken(r.value.value))
              && repo.trace == looked + (if position in ids then [] else [GitLog(hash)])
  {
    var found := GetDiffIds(repo);
    if !found.Return? {
      return Exit(found.code), repo.trace;
    }
    var mapping := found.value;
    looked := repo.trace;
    DiffIdMapRange(Lines(repo.arcListing), Output(SubjectListing(old(repo.Visible()))));
    IndexOfOwnHash(repo.stack, position - 1);
    assert repo.Visible()[position - 1] == repo.stack[position - 1];
    r := ReadTrailerUnlessFound(repo, hash, if position in mapping then Some(mapping[position]) else None);
    if repo.trace != looked {
      QuietStep(looked, GitLog(hash));
      QuietTrans(old(repo.trace), looked, repo.trace);
    }
  }

  /**
   * Lines 76-78: with no ID from the mapping (or an empty one) the
   * commit's trailer is read; otherwise the ID stands and nothing runs.
   */
  method ReadTrailerUnlessFound(repo: Repo, hash: string, found: Option<string>) returns (r: Status<Option<string>>)
    modifies repo
    ensures repo.Snapshot() == old(repo.Snapshot())
    ensures r.Return? || (r.Exit? && r.code != 0)
    ensures found.Some? && found.value != "" ==> r == Return(found) && repo.trace == old(repo.trace)
    ensures !(found.Some? && found.value != "") ==>
              && repo.trace == old(repo.trace) + [GitLog(hash)]
              && (r.Return? && r.value.Some? ==> IsDToken(r.value.value))
              && (r.Return? && IndexOfHash(old(repo.stack), hash) < |old(repo.stack)| ==>
                    r.value == Parse.FindDiffIdInCommit(old(repo.stack)[IndexOfHash(old(repo.stack), hash)].log))
  {
    if found.Some? && found.value != "" {
      return Return(found);
    }
    r := Utils.FindDiffIdInCommit(repo, hash);
  }

  /**
   * src/anist/diff.py lines 49-111, src/diff.py lines 48-110. Without an ID
   * in update mode the original branch is checked out and the result is
   * `false`; otherwise `arc diff` runs, the original branch is checked out
   * and the result is `true`. `id` is the revision that was updated
   * (`None` in create mode) and `looked` the trace once the `arc list`
   * mapping was built; `BodyRan` gives every command in order. HEAD ends
   * where it was or at the target, so `master..HEAD` only shrinks.
   */
  method DiffTarget(repo: Repo, variant: Variant, position: int, message: string, create: bool)
    returns (r: Status<bool>, ghost id: Option<string>, ghost argv: seq<string>, ghost looked: seq<Cmd>)
    requires repo.Valid()
    modifies repo
    ensures repo.Valid()
    ensures r.Return? || (r.Exit? && r.code != 0)
    ensures repo.Snapshot() == old(repo.Snapshot()).(head := repo.head)
    ensures |repo.Visible()| <= |old(repo.Visible())| && repo.Visible() == old(repo.Visible())[..|repo.Visible()|]
    ensures |old(repo.trace)| <= |repo.trace| && repo.trace[..|old(repo.trace)|] == old(repo.trace)
    ensures !(1 <= position <= |old(repo.Visible())|) ==> r.Exit? && NoArcDiff(old(repo.trace), repo.trace)
    ensures r.Return? ==>
              var hash := old(repo.Visible())[position - 1].hash;
              && 1 <= position <= |old(repo.Visible())|
              && |old(repo.trace)| + 4 <= |repo.trace|
              && repo.trace[|old(repo.trace)|..|old(repo.trace)| + 4] == [GitRevList, GitLogSubject(hash), GitRevParse, GitCheckout(hash)]
              && repo.head == (if old(repo.AbbrevRef()) == "HEAD" then hash else old(repo.head))
              && Reported(r.value, create, old(repo.trace), repo.trace, old(repo.AbbrevRef()), argv)
              && BodyRan(old(repo.trace), repo.trace, looked, old(repo.arcListing), old(repo.Visible()), position,
                         create, r.value, id, argv, old(repo.AbbrevRef()))
    ensures r.Return? && r.value ==>
              && (create ==> id.None?)
              && (!create ==> id.Some? && IsDToken(id.value))
              && argv == ArcDiffArgv(variant, id, message)
  {
    id, argv, looked := None, [], [];
    ghost var cs := repo.Visible();
    var located := LocateTarget(repo, position);
    if !located.Return? {
      return Exit(located.code), id, argv, looked;
    }
    var hash := located.value.0;
    var branch := located.value.1;
    ghost var t1 := repo.trace;
    assert repo.Visible()[position - 1] == cs[position - 1];
    r, id, argv, looked := SendDiff(repo, variant, position, hash, branch, message, create);
    if r.Return? {
      ReportedAfterQuiet(r.value, create, old(repo.trace), t1, repo.trace, branch, argv);
    }
    assert repo.trace[..|t1|] == t1;
    assert repo.trace[..|old(repo.trace)|] == repo.trace[..|t1|][..|old(repo.trace)|];
    assert repo.trace[|old(repo.trace)|..|old(repo.trace)| + 4] == repo.trace[..|t1|][|old(repo.trace)|..];
    if repo.head != old(repo.head) {
      assert repo.head == hash;
    }
  }

  /**
   * Lines 65-111 once the target `hash`, at `position`, is checked out:
   * resolve the ID (update mode), run `arc diff`, and check `branch` out
   * again.
   */
  method SendDiff(repo: Repo, variant: Variant, position: int, hash: string, branch: string, message: string, create: bool)
    returns (r: Status<bool>, ghost id: Option<string>, ghost argv: seq<string>, ghost looked: seq<Cmd>)
    requires repo.Valid() && 1 <= position <= |repo.Visible()| && hash == repo.Visible()[position - 1].hash
    modifies repo
    ensures r.Return? || (r.Exit? && r.code != 0)
    ensures repo.Snapshot() == old(repo.Snapshot()).(head := repo.head)
    ensures |old(repo.trace)| <= |repo.trace| && repo.trace[..|old(repo.trace)|] == old(repo.trace)
    ensures r.Return? ==>
              && repo.head == (if branch == "HEAD" then old(repo.head) else branch)
              && Reported(r.value, create, old(repo.trace), repo.trace, branch, argv)
              && Sent(old(repo.trace), repo.trace, looked, ArcIds(repo.arcListing, old(repo.Visible())), position,
                      hash, old(repo.Visible())[position - 1].log, create, r.value, id, argv, branch)
    ensures r.Exit? ==> repo.head == old(repo.head)
    ensures r.Return? && r.value ==>
              && (create ==> id.None?)
              && (!create ==> id.Some? && IsDToken(id.value))
              && argv == ArcDiffArgv(variant, id, message)
  {
    id, argv, looked := None, [], [];
    if create {
      r, argv := RunArcDiff(repo, variant, None, message, branch);
      return;
    }
    r, id, argv, looked := UpdateDiff(repo, variant, position, hash, branch, message);
  }

  /** Lines 65-111 in update mode: resolve the ID, then send the update or give up. */
  method UpdateDiff(repo: Repo, variant: Variant, position: int, hash: string, branch: string, message: string)
    returns (r: Status<bool>, ghost id: Option<string>, ghost argv: seq<string>, ghost looked: seq<Cmd>)
    requires repo.Valid() && 1 <= position <= |repo.Visible()| && hash == repo.Visible()[position - 1].hash
    modifies repo
    ensures r.Return? || (r.Exit? && r.code != 0)
    ensures repo.Snapshot() == old(repo.Snapshot()).(head := repo.head)
    ensures |old(repo.trace)| <= |repo.trace| && repo.trace[..|old(repo.trace)|] == old(repo.trace)
    ensures r.Return? ==>
              && repo.head == (if branch == "HEAD" then old(repo.head) else branch)
              && Reported(r.value, false, old(repo.trace), repo.trace, branch, argv)
              && Sent(old(repo.trace), repo.trace, looked, ArcIds(repo.arcListing, old(repo.Visible())), position,
                      hash, old(repo.Visible())[position - 1].log, false, r.value, id, argv, branch)
    ensures r.Exit? ==> repo.head == old(repo.head)
    ensures r.Return? && r.value ==> id.Some? && IsDToken(id.value) && argv == ArcDiffArgv(variant, id, message)
  {
    argv := [];
    var resolved;
    resolved, looked := ResolveDiffId(repo, position, hash);
    if !resolved.Return? {
      return Exit(resolved.code), None, argv, looked;
    }
    id := resolved.value;
    r, argv := SendAfterQuiet(repo, variant, resolved.value, message, branch, old(repo.trace));
  }

  /**
   * Lines 88-111 after commands that rewrite nothing (and run no `arc diff`)
   * were appended to `before`: the report covers those commands too.
   */
  method SendAfterQuiet(repo: Repo, variant: Variant, update: Option<string>, message: string, branch: string,
                        ghost before: seq<Cmd>)
    returns (r: Status<bool>, ghost argv: seq<string>)
    requires Quiet(before, repo.trace)
    modifies repo
    ensures r.Return? || (r.Exit? && r.code != 0)
    ensures r.Return? ==> (r.value <==> update.Some?)
    ensures update.Some? ==> argv == ArcDiffArgv(variant, update, message)
    ensures |before| <= |repo.trace| && repo.trace[..|before|] == before
    ensures repo.Snapshot() == old(repo.Snapshot()).(head := repo.head)
    ensures r.Exit? ==> repo.head == old(repo.head)
    ensures r.Return? ==>
              && repo.head == (if branch == "HEAD" then old(repo.head) else branch)
              && Reported(r.value, false, before, repo.trace, branch, argv)
              && repo.trace == old(repo.trace) + (if r.value then [ArcDiff(argv)] else []) + [GitCheckout(branch)]
  {
    ghost var t1 := repo.trace;
    QuietNoArcDiff(before, t1);
    r, argv := SendOrGoBack(repo, variant, update, message, branch);
    PrefixTrans(before, t1, repo.trace);
    if r.Return? {
      ReportedAfterQuiet(r.value, false, before, t1, repo.trace, branch, argv);
    }
  }

  /** A report stays one when commands without `arc diff` ran before it. */
  lemma ReportedAfterQuiet(ok: bool, create: bool, before: seq<Cmd>, mid: seq<Cmd>, after: seq<Cmd>, branch: string, argv: seq<string>)
    requires NoArcDiff(before, mid) && Reported(ok, create, mid, after, branch, argv)
    ensures Reported(ok, create, before, after, branch, argv)
  {
    assert after[..|before|] == after[..|mid|][..|before|];
    if !ok {
      forall i | |before| <= i < |after| ensures !after[i].ArcDiff? {
        if i < |mid| {
          assert after[i] == after[..|mid|][i];
        }
      }
    }
  }

  /** `after` extends `before` by commands that are not `Rewriting`, so by no `arc diff`. */
  lemma QuietNoArcDiff(before: seq<Cmd>, after: seq<Cmd>)
    requires Quiet(before, after)
    ensures NoArcDiff(before, after)
  {
    forall i | |before| <= i < |after| ensures !after[i].ArcDiff? {
      assert !Rewriting(after[i]);
    }
  }

  /**
   * Lines 80-111 once the ID is resolved: without one the original branch
   * is checked out and the result is `false`; with one `arc diff` runs.
   */
  method SendOrGoBack(repo: Repo, variant: Variant, update: Option<string>, message: string, branch: string)
    returns (r: Status<bool>, ghost argv: seq<string>)
    modifies repo
    ensures r.Return? || (r.Exit? && r.code != 0)
    ensures r.Return? ==> (r.value <==> update.Some?)
    ensures update.Some? ==> argv == ArcDiffArgv(variant, update, message)
    ensures |old(repo.trace)| <= |repo.trace| && repo.trace[..|old(repo.trace)|] == old(repo.trace)
    ensures repo.Snapshot() == old(repo.Snapshot()).(head := repo.head)
    ensures r.Exit? ==> repo.head == old(repo.head)
    ensures r.Return? ==>
              && repo.head == (if branch == "HEAD" then old(repo.head) else branch)
              && Reported(r.value, false, old(repo.trace), repo.trace, branch, argv)
              && repo.trace == old(repo.trace) + (if r.value then [ArcDiff(argv)] else []) + [GitCheckout(branch)]
  {
    if update.None? {
      argv := [];
      ghost var t0 := repo.trace;
      assert NoArcDiff(t0, t0);
      r := GoBack(repo, branch);
      NoArcDiffStep(t0, t0, GitCheckout(branch));
    } else {
      r, argv := RunArcDiff(repo, variant, update, message, branch);
    }
  }

  /** Lines 80-85: no ID was found; the original branch is checked out and the result is `false`. */
  method GoBack(repo: Repo, branch: string) returns (r: Status<bool>)
    modifies repo
    ensures repo.trace == old(repo.trace) + [GitCheckout(branch)]
    ensures r == Return(false) || (r.Exit? && r.code != 0)
    ensures r.Exit? ==> repo.Snapshot() == old(repo.Snapshot())
    ensures r.Return? ==> repo.Snapshot() == old(repo.Snapshot()).(head := if branch == "HEAD" then old(repo.head) else branch)
  {
    var back := repo.Checkout(branch);
    if !back.Return? {
      return Exit(back.code);
    }
    return Return(false);
  }

  /**
   * Lines 87-111: build the argument list, run `arc diff`, check the
   * original branch out again and report `true`.
   */
  method RunArcDiff(repo: Repo, variant: Variant, update: Option<string>, message: string, branch: string)
    returns (r: Status<bool>, ghost argv: seq<string>)
    modifies repo
    ensures r == Return(true) || (r.Exit? && r.code != 0)
    ensures argv == ArcDiffArgv(variant, update, message)
    ensures |old(repo.trace)| <= |repo.trace| && repo.trace[..|old(repo.trace)|] == old(repo.trace)
    ensures r.Exit? ==> repo.Snapshot() == old(repo.Snapshot())
    ensures r.Return? ==>
              && repo.trace == old(repo.trace) + [ArcDiff(argv), GitCheckout(branch)]
              && repo.Snapshot() == old(repo.Snapshot()).(head := if branch == "HEAD" then old(repo.head) else branch)
  {
    var cmd := BuildArcDiffCommand(variant, update.None?, if update.Some? then update.value else "", message);
    argv := cmd;
    var sent := repo.ArcDiff(cmd);
    if !sent.Return? {
      return Exit(sent.code), argv;
    }
    var back := repo.Checkout(branch);
    if !back.Return? {
      return Exit(back.code), argv;
    }
    return Return(true), argv;
  }
}
