/**
 * The parsing half of src/anist/utils.py: each function here takes what a
 * git or arc command printed and computes what the Python function computes
 * from it. Running the command is the business of module Git.
 */
module Parse {
  import opened Python
  import opened Text

  /** `stdout.strip().split("\n")`: the lines of a command's output. */
  function Lines(out: string): (ls: seq<string>)
    ensures |ls| >= 1
  {
    Split(Strip(out), '\n')
  }

  /** What a command prints for these lines: each one ends with a newline. */
  function Output(lines: seq<string>): string {
    if lines == [] then "" else Join(lines, '\n') + "\n"
  }

  /** Lines without newlines whose output starts and ends with a non-blank character. */
  predicate CleanLines(lines: seq<string>) {
    && lines != []
    && (forall k :: 0 <= k < |lines| ==> '\n' !in lines[k])
    && lines[0] != [] && !IsSpace(lines[0][0])
    && Last(lines) != [] && !IsSpace(Last(lines)[|Last(lines)| - 1])
  }

  function Last<T>(xs: seq<T>): T
    requires xs != []
  {
    xs[|xs| - 1]
  }

  /** Reading back what a command printed gives the lines it printed. */
  lemma LinesOfOutput(lines: seq<string>)
    requires CleanLines(lines)
    ensures Lines(Output(lines)) == lines
  {
    JoinEnds(lines, '\n');
    StripNewlineTerminated(Join(lines, '\n'));
    SplitJoin(lines, '\n');
  }

  /** Nothing printed reads back as one empty line. */
  lemma LinesOfNoOutput()
    ensures Lines(Output([])) == [""]
  {
  }

  /** A join begins with the first piece's first character and ends with the last piece's last. */
  lemma JoinEnds(parts: seq<string>, sep: char)
    requires parts != [] && parts[0] != [] && Last(parts) != []
    ensures Join(parts, sep) != []
    ensures Join(parts, sep)[0] == parts[0][0]
    ensures Join(parts, sep)[|Join(parts, sep)| - 1] == Last(parts)[|Last(parts)| - 1]
  {
    JoinLast(parts, sep);
  }

  lemma {:induction false} JoinLast(parts: seq<string>, sep: char)
    requires parts != [] && Last(parts) != []
    ensures Join(parts, sep) != []
    ensures Join(parts, sep)[|Join(parts, sep)| - 1] == Last(parts)[|Last(parts)| - 1]
  {
    if |parts| > 1 {
      assert Last(parts[1..]) == Last(parts);
      JoinLast(parts[1..], sep);
    }
  }

  /** `bool(stdout.strip())`: whether a command printed anything but whitespace. */
  function HasOutput(out: string): (r: bool)
    ensures r <==> exists i :: 0 <= i < |out| && !IsSpace(out[i])
  {
    StripEmptyIffAllSpace(out);
    Strip(out) != []
  }

  /** The first line is empty exactly when the output is blank. */
  lemma FirstLineEmptyIffBlank(out: string)
    ensures Lines(out)[0] == "" <==> Strip(out) == ""
  {
    var s := Strip(out);
    if s != [] {
      assert s[0] != '\n';
      assert IndexOf(s, '\n') > 0;
    }
  }

  // ----- stack queries -----

  /**
   * get_commit_hash_by_position, given the output of
   * `git rev-list --reverse master..HEAD`: exit code 1 for an empty stack or
   * a position outside 1..N, else the hash on line `position`.
   */
  function CommitHashByPosition(revList: string, position: int): (r: Status<string>)
    ensures r.Return? || r == Exit(1)
    ensures r.Return? <==> HasOutput(revList) && 1 <= position <= |Lines(revList)|
    ensures r.Return? ==> r.value == Lines(revList)[position - 1]
  {
    FirstLineEmptyIffBlank(revList);
    var hashes := Lines(revList);
    // `not commit_hashes` never holds: `split` returns at least one piece
    if hashes[0] == "" then Exit(1)
    else if position < 1 || position > |hashes| then Exit(1)
    else Return(hashes[position - 1])
  }

  /** get_all_commits_in_stack: exit code 1 for an empty stack, else its lines. */
  function AllCommitsInStack(revList: string): (r: Status<seq<string>>)
    ensures r.Return? || r == Exit(1)
    ensures r.Return? <==> HasOutput(revList)
    ensures r.Return? ==> r.value == Lines(revList) && r.value[0] != ""
  {
    FirstLineEmptyIffBlank(revList);
    var hashes := Lines(revList);
    if hashes[0] == "" then Exit(1) else Return(hashes)
  }

  /**
   * check_changes, given the outputs of `git diff --name-only --cached` and
   * `git diff --name-only`: each flag says that command printed a non-blank
   * character.
   */
  function CheckChanges(cached: string, worktree: string): (r: (bool, bool))
    ensures r.0 <==> exists i :: 0 <= i < |cached| && !IsSpace(cached[i])
    ensures r.1 <==> exists i :: 0 <= i < |worktree| && !IsSpace(worktree[i])
  {
    (HasOutput(cached), HasOutput(worktree))
  }

  // ----- finding a commit by its message -----

  /** `[line for line in lines if not line.startswith("commit ")]`. */
  function DropCommitHeaders(lines: seq<string>): (kept: seq<string>)
    ensures |kept| <= |lines|
    ensures forall k :: 0 <= k < |kept| ==> !StartsWith(kept[k], "commit ") && kept[k] in lines
  {
    if lines == [] then []
    else (if StartsWith(lines[0], "commit ") then [] else [lines[0]]) + DropCommitHeaders(lines[1..])
  }

  /** A header followed by a kept line loses the header only. */
  lemma DropHeaderPair(h: string, l: string, rest: seq<string>)
    requires StartsWith(h, "commit ") && !StartsWith(l, "commit ")
    ensures DropCommitHeaders([h, l] + rest) == [l] + DropCommitHeaders(rest)
  {
    assert ([h, l] + rest)[1..] == [l] + rest;
    assert ([l] + rest)[1..] == rest;
  }

  /** Filtering keeps the order: it distributes over concatenation. */
  lemma {:induction false} DropCommitHeadersAppend(a: seq<string>, b: seq<string>)
    ensures DropCommitHeaders(a + b) == DropCommitHeaders(a) + DropCommitHeaders(b)
  {
    if a != [] {
      var h := if StartsWith(a[0], "commit ") then [] else [a[0]];
      assert (a + b)[0] == a[0];
      assert (a + b)[1..] == a[1..] + b;
      assert DropCommitHeaders(a + b) == h + DropCommitHeaders(a[1..] + b);
      assert DropCommitHeaders(a) == h + DropCommitHeaders(a[1..]);
      DropCommitHeadersAppend(a[1..], b);
      assert h + (DropCommitHeaders(a[1..]) + DropCommitHeaders(b)) == (h + DropCommitHeaders(a[1..])) + DropCommitHeaders(b);
    } else {
      assert a + b == b;
    }
  }

  /** `s.strip().lower()`. */
  function Normalize(s: string): string {
    Lower(Strip(s))
  }

  /** `message.strip().lower() in subject.strip().lower()`. */
  predicate Mentions(subject: string, message: string) {
    Contains(Normalize(subject), Normalize(message))
  }

  /** The 1-based index of the first subject that mentions `message`, or 0. */
  function FirstMention(subjects: seq<string>, message: string): (pos: nat)
    ensures pos <= |subjects|
    ensures pos > 0 ==> Mentions(subjects[pos - 1], message)
    ensures forall j :: 0 <= j < |subjects| && (pos == 0 || j < pos - 1) ==> !Mentions(subjects[j], message)
    decreases |subjects|
  {
    if subjects == [] then 0
    else if Mentions(subjects[0], message) then 1
    else
      var p := FirstMention(subjects[1..], message);
      if p == 0 then 0 else p + 1
  }

  /** The commit subjects in the output of `git rev-list --reverse master..HEAD --format=%s`. */
  function Subjects(revList: string): seq<string> {
    DropCommitHeaders(Lines(revList))
  }

  /**
   * find_commit_position_by_message: 0 for an empty message; otherwise the
   * smallest 1-based index among the subject lines whose normalised text
   * contains the normalised message, or 0 when none does.
   */
  function FindCommitPosition(message: string, revList: string): (pos: nat)
    ensures message == "" ==> pos == 0
    ensures pos <= |Subjects(revList)|
    ensures pos > 0 ==> Mentions(Subjects(revList)[pos - 1], message)
                        && forall j :: 0 <= j < pos - 1 ==> !Mentions(Subjects(revList)[j], message)
    ensures pos == 0 && message != "" ==>
              forall j :: 0 <= j < |Subjects(revList)| ==> !Mentions(Subjects(revList)[j], message)
  {
    if message == "" then 0 else FirstMention(Subjects(revList), message)
  }

  // ----- review-revision tokens -----

  /** A `D` followed by at least one digit starts at `p`: where `D\d+` can match. */
  predicate DAt(s: string, p: int) {
    0 <= p && p + 1 < |s| && s[p] == 'D' && IsDigit(s[p + 1])
  }

  /** A review-revision token: `D` and one or more digits. */
  predicate IsDToken(t: string) {
    |t| >= 2 && t[0] == 'D' && forall i :: 1 <= i < |t| ==> IsDigit(t[i])
  }

  /** The number of consecutive digits from index `from`. */
  function DigitRun(s: string, from: nat): (n: nat)
    requires from <= |s|
    ensures from + n <= |s|
    ensures forall i :: from <= i < from + n ==> IsDigit(s[i])
    ensures from + n == |s| || !IsDigit(s[from + n])
    decreases |s| - from
  {
    if from < |s| && IsDigit(s[from]) then 1 + DigitRun(s, from + 1) else 0
  }

  /** What `D\d+` matches at `p`: the `D` and every digit after it (`\d+` is greedy). */
  function TokenAt(s: string, p: int): (t: string)
    requires DAt(s, p)
    ensures IsDToken(t)
    ensures p + |t| <= |s| && t == s[p..p + |t|]
    ensures p + |t| == |s| || !IsDigit(s[p + |t|])
  {
    s[p..p + 1 + DigitRun(s, p + 1)]
  }

  /** The smallest `p >= i` where `D\d+` can match. */
  function FirstDFrom(s: string, i: nat): (p: Option<nat>)
    requires i <= |s|
    ensures p.Some? ==> i <= p.value && DAt(s, p.value) && forall q :: i <= q < p.value ==> !DAt(s, q)
    ensures p.None? ==> forall q :: i <= q ==> !DAt(s, q)
    decreases |s| - i
  {
    if i == |s| then None
    else if DAt(s, i) then Some(i)
    else FirstDFrom(s, i + 1)
  }

  /** `re.search(r"D(\d+)", line).group(0)`, or None when nothing matches. */
  function FirstDToken(s: string): (r: Option<string>)
    ensures r.None? <==> forall p :: !DAt(s, p)
    ensures r.Some? ==> IsDToken(r.value)
    ensures r.Some? ==> exists p :: DAt(s, p) && r.value == TokenAt(s, p)
                                    && forall q :: 0 <= q < p ==> !DAt(s, q)
  {
    match FirstDFrom(s, 0)
    case None => None
    case Some(p) => Some(TokenAt(s, p))
  }

  // ----- the `arc list` mapping -----

  /** `line.split(":", 1)[1].strip() if ":" in line else ""`. */
  function ArcMessage(line: string): string {
    if ':' in line then Strip(line[IndexOf(line, ':') + 1..]) else ""
  }

  /**
   * Where one line of `arc list` is filed: the stack position its message
   * names and its token, or None when it has no token or names no commit.
   */
  function Filing(line: string, revList: string): (f: Option<(nat, string)>)
    ensures f.Some? ==> 1 <= f.value.0 <= |Subjects(revList)| && IsDToken(f.value.1)
    ensures f.Some? ==> FindCommitPosition(ArcMessage(line), revList) == f.value.0
  {
    match FirstDToken(line)
    case None => None
    case Some(id) =>
      var pos := FindCommitPosition(ArcMessage(line), revList);
      if pos > 0 then Some((pos, id)) else None
  }

  /** A line of `arc list` files its token under stack position `pos`. */
  predicate FiledUnder(line: string, revList: string, pos: int) {
    Filing(line, revList).Some? && Filing(line, revList).value.0 == pos
  }

  /**
   * The dictionary get_diff_ids builds from the lines of `arc list`, line by
   * line, when every position lookup sees the rev-list output `revList`.
   */
  function DiffIdMap(arcLines: seq<string>, revList: string): map<int, string>
    decreases |arcLines|
  {
    if arcLines == [] then map[]
    else
      var m := DiffIdMap(arcLines[..|arcLines| - 1], revList);
      match Filing(arcLines[|arcLines| - 1], revList)
      case None => m
      case Some((pos, id)) => m[pos := id]
  }

  /** Every key of the mapping is a stack position and every value a `D<digits>` token. */
  lemma {:induction false} DiffIdMapRange(arcLines: seq<string>, revList: string)
    ensures forall pos :: pos in DiffIdMap(arcLines, revList) ==>
              1 <= pos <= |Subjects(revList)| && IsDToken(DiffIdMap(arcLines, revList)[pos])
    decreases |arcLines|
  {
    if arcLines != [] {
      DiffIdMapRange(arcLines[..|arcLines| - 1], revList);
    }
  }

  /** Every key of the mapping is the position some line of `arc list` was filed under. */
  lemma {:induction false} DiffIdMapKeys(arcLines: seq<string>, revList: string, pos: int) returns (i: int)
    requires pos in DiffIdMap(arcLines, revList)
    ensures 0 <= i < |arcLines| && FiledUnder(arcLines[i], revList, pos)
    decreases |arcLines|
  {
    var n := |arcLines| - 1;
    var init := arcLines[..n];
    if FiledUnder(arcLines[n], revList, pos) {
      i := n;
    } else {
      assert pos in DiffIdMap(init, revList);
      i := DiffIdMapKeys(init, revList, pos);
      assert arcLines[i] == init[i];
    }
  }

  /** A later line filed under the same position overwrites an earlier one. */
  lemma {:induction false} DiffIdMapLastWins(arcLines: seq<string>, revList: string, i: int, pos: int)
    requires 0 <= i < |arcLines| && FiledUnder(arcLines[i], revList, pos)
    requires forall j :: i < j < |arcLines| ==> !FiledUnder(arcLines[j], revList, pos)
    ensures pos in DiffIdMap(arcLines, revList)
    ensures DiffIdMap(arcLines, revList)[pos] == Filing(arcLines[i], revList).value.1
    decreases |arcLines|
  {
    var init := arcLines[..|arcLines| - 1];
    if i < |arcLines| - 1 {
      forall j | i < j < |init| ensures !FiledUnder(init[j], revList, pos) {
        assert init[j] == arcLines[j];
      }
      assert init[i] == arcLines[i];
      DiffIdMapLastWins(init, revList, i, pos);
    }
  }

  /** A line of `arc list` without a colon has an empty message and files nothing. */
  lemma NoColonFilesNothing(arcLines: seq<string>, line: string, revList: string)
    requires ':' !in line
    ensures DiffIdMap(arcLines + [line], revList) == DiffIdMap(arcLines, revList)
  {
    assert (arcLines + [line])[..|arcLines|] == arcLines;
  }

  // ----- the trailer in a commit message -----

  const Trailer := "Differential Revision:"

  predicate TrailerAt(s: string, k: int) {
    0 <= k && k + |Trailer| <= |s| && s[k..k + |Trailer|] == Trailer
  }

  /** The index of the newline that ends the line holding index `from`, or `|s|`. */
  function LineEnd(s: string, from: nat): (e: nat)
    requires from <= |s|
    ensures from <= e <= |s|
    ensures e == |s| || s[e] == '\n'
    ensures forall j :: from <= j < e ==> s[j] != '\n'
  {
    var i := IndexOf(s[from..], '\n');
    assert forall j :: from <= j < from + i ==> s[j] == s[from..][j - from];
    from + i
  }

  /**
   * `p` is a place where `(D\d+)` can match after the trailer at `k`: later
   * on the same line, since `.` does not match a newline.
   */
  predicate TrailerToken(s: string, k: int, p: int) {
    TrailerAt(s, k) && k + |Trailer| <= p < LineEnd(s, k + |Trailer|) && DAt(s, p)
  }

  /** The largest `p` in `lo..hi-1` where `D\d+` can match. */
  function LastDIn(s: string, lo: nat, hi: nat): (p: Option<nat>)
    requires hi <= |s|
    ensures p.Some? ==> lo <= p.value < hi && DAt(s, p.value) && forall q :: p.value < q < hi ==> !DAt(s, q)
    ensures p.None? ==> forall q :: lo <= q < hi ==> !DAt(s, q)
    decreases hi
  {
    if hi <= lo then None
    else if DAt(s, hi - 1) then Some(hi - 1)
    else LastDIn(s, lo, hi - 1)
  }

  /**
   * The match `re.search` finds when it tries start positions from `k` on:
   * the first trailer whose line holds a token, and, because `.*` is
   * greedy, the last token on that line.
   */
  function TrailerMatchFrom(s: string, k: nat): (m: Option<(nat, nat)>)
    requires k <= |s|
    ensures m.Some? ==> k <= m.value.0 && TrailerToken(s, m.value.0, m.value.1)
    ensures m.Some? ==> forall q :: m.value.1 < q ==> !TrailerToken(s, m.value.0, q)
    ensures m.Some? ==> forall k', q :: k <= k' < m.value.0 ==> !TrailerToken(s, k', q)
    ensures m.None? ==> forall k', q :: k <= k' ==> !TrailerToken(s, k', q)
    decreases |s| - k
  {
    if k == |s| then None
    else if TrailerAt(s, k) then
      var lo := k + |Trailer|;
      match LastDIn(s, lo, LineEnd(s, lo))
      case Some(p) => Some((k, p))
      case None => TrailerMatchFrom(s, k + 1)
    else TrailerMatchFrom(s, k + 1)
  }

  /**
   * find_diff_id_in_commit on the output of `git log -1 <hash>`: a
   * `D<digits>` token that follows `Differential Revision:` on the same
   * line (the last such token on the first such line), or None when no
   * line has one.
   */
  function FindDiffIdInCommit(log: string): (r: Option<string>)
    ensures r.Some? ==> IsDToken(r.value)
  {
    match TrailerMatchFrom(log, 0)
    case None => None
    case Some((k, p)) => Some(TokenAt(log, p))
  }

  /**
   * The ID is found exactly when some trailer has a token on its line, and
   * it is the last token on the line of the first such trailer.
   */
  lemma FindDiffIdInCommitSpec(log: string)
    ensures FindDiffIdInCommit(log).None? <==> forall k, p :: !TrailerToken(log, k, p)
    ensures FindDiffIdInCommit(log).Some? ==>
              exists k, p :: TrailerToken(log, k, p) && FindDiffIdInCommit(log).value == TokenAt(log, p)
                             && (forall q :: p < q ==> !TrailerToken(log, k, q))
                             && (forall k', q :: 0 <= k' < k ==> !TrailerToken(log, k', q))
  {
    match TrailerMatchFrom(log, 0)
    case None =>
    case Some((k, p)) =>
      assert TrailerToken(log, k, p);
  }

  // ----- merge conflicts -----

  /** A `git status --porcelain` line of an unmerged path added or deleted by both sides, or modified by both. */
  predicate ConflictLine(line: string) {
    StartsWith(line, "UU") || StartsWith(line, "AA") || StartsWith(line, "DD")
  }

  function AnyConflictLine(lines: seq<string>): bool {
    lines != [] && (ConflictLine(lines[0]) || AnyConflictLine(lines[1..]))
  }

  /** Index `i` begins a line of `s`. */
  predicate LineStart(s: string, i: int) {
    0 <= i <= |s| && (i == 0 || s[i - 1] == '\n')
  }

  /** A line of `s` that begins with a conflict code begins at `p`. */
  predicate ConflictAt(s: string, p: int) {
    LineStart(s, p) && ConflictLine(s[p..])
  }

  /**
   * has_merge_conflicts on the output of `git status --porcelain`: true
   * exactly when some line of the text begins with `UU`, `AA` or `DD`.
   */
  function HasMergeConflicts(status: string): (r: bool)
    ensures r <==> exists p :: ConflictAt(status, p)
  {
    ConflictLinesAreLineStarts(status);
    AnyConflictLine(Split(status, '\n'))
  }

  lemma {:induction false} ConflictLinesAreLineStarts(s: string)
    ensures AnyConflictLine(Split(s, '\n')) <==> exists p :: ConflictAt(s, p)
    decreases |s|
  {
    var i := IndexOf(s, '\n');
    ConflictPrefix(s, i);
    if i < |s| {
      var rest := s[i + 1..];
      ConflictLinesAreLineStarts(rest);
      var parts := [s[..i]] + Split(rest, '\n');
      assert Split(s, '\n') == parts;
      assert parts[0] == s[..i] && parts[1..] == Split(rest, '\n');
      ConflictAfterFirstLine(s, i, rest);
    } else {
      OnlyFirstLine(s);
    }
  }

  /** Past the first newline, the lines of `s` are the lines of the rest. */
  lemma ConflictAfterFirstLine(s: string, i: nat, rest: string)
    requires i == IndexOf(s, '\n') && i < |s| && rest == s[i + 1..]
    ensures (exists p :: ConflictAt(s, p)) <==> ConflictAt(s, 0) || exists q :: ConflictAt(rest, q)
  {
    forall q | ConflictAt(rest, q) ensures ConflictAt(s, i + 1 + q) {
      ConflictShift(s, i, rest, q);
    }
    forall p | ConflictAt(s, p) && p > 0 ensures ConflictAt(rest, p - i - 1) {
      assert s[p - 1] == '\n';
      ConflictShift(s, i, rest, p - i - 1);
    }
  }

  lemma ConflictShift(s: string, i: nat, rest: string, q: int)
    requires i < |s| && s[i] == '\n' && rest == s[i + 1..] && 0 <= q <= |rest|
    ensures ConflictAt(rest, q) <==> ConflictAt(s, i + 1 + q)
  {
    assert s[i + 1 + q..] == rest[q..];
    if q > 0 {
      assert rest[q - 1] == s[i + q];
    }
  }

  /** A text without a newline has one line, which begins at 0. */
  lemma OnlyFirstLine(s: string)
    requires '\n' !in s
    ensures (exists p :: ConflictAt(s, p)) <==> ConflictAt(s, 0)
  {
    forall p | LineStart(s, p) ensures p == 0 {
      if p > 0 {
        assert s[p - 1] in s;
      }
    }
  }

  /** A status code has no newline, so the first line starts with it exactly when the text does. */
  lemma ConflictPrefix(s: string, i: nat)
    requires i == IndexOf(s, '\n')
    ensures ConflictLine(s[..i]) <==> ConflictAt(s, 0)
  {
    assert s[0..] == s;
    if |s| >= 2 && (s[..2] == "UU" || s[..2] == "AA" || s[..2] == "DD") {
      assert s[0] != '\n' && s[1] != '\n';
      assert i >= 2;
      assert s[..i][..2] == s[..2];
    }
    if i >= 2 {
      assert s[..i][..2] == s[..2];
    }
  }
}
