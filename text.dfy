/**
 * The Python `str` operations the tool applies to command output, over
 * `string` (a sequence of `char`): `strip`, `split`, `split()`, `lower`,
 * `startswith`, the `in` substring test and `"sep".join`.
 */
module Text {

  /** `str.isspace()` for one character: the whitespace `strip()` and `split()` remove. */
  predicate IsSpace(c: char) {
    || ('\t' <= c <= '\r')
    || ('\U{1c}' <= c <= ' ')
    || c == '\U{85}' || c == '\U{a0}' || c == '\U{1680}'
    || ('\U{2000}' <= c <= '\U{200a}')
    || c == '\U{2028}' || c == '\U{2029}' || c == '\U{202f}' || c == '\U{205f}' || c == '\U{3000}'
  }

  predicate IsDigit(c: char) {
    '0' <= c <= '9'
  }

  predicate NoSpace(s: string) {
    forall i :: 0 <= i < |s| ==> !IsSpace(s[i])
  }

  /** `s.startswith(prefix)`. */
  predicate StartsWith(s: string, prefix: string) {
    |prefix| <= |s| && s[..|prefix|] == prefix
  }

  /** `needle` occurs in `hay` starting at index `i`. */
  predicate OccursAt(hay: string, needle: string, i: int) {
    0 <= i <= |hay| - |needle| && hay[i..i + |needle|] == needle
  }

  /** `needle in hay`. */
  function Contains(hay: string, needle: string): (r: bool)
    ensures r <==> exists i :: OccursAt(hay, needle, i)
    decreases |hay|
  {
    if StartsWith(hay, needle) then
      assert OccursAt(hay, needle, 0);
      true
    else if hay == [] then
      false
    else
      var r := Contains(hay[1..], needle);
      assert forall i :: 1 <= i <= |hay| - |needle| ==> OccursAt(hay, needle, i) == OccursAt(hay[1..], needle, i - 1);
      if r then
        var i :| OccursAt(hay[1..], needle, i);
        assert OccursAt(hay, needle, i + 1);
        true
      else
        false
  }

  /** `s.lstrip()`. */
  function TrimLeft(s: string): (r: string)
    ensures |r| <= |s| && r == s[|s| - |r|..]
    ensures forall i :: 0 <= i < |s| - |r| ==> IsSpace(s[i])
    ensures r == [] || !IsSpace(r[0])
  {
    if s != [] && IsSpace(s[0]) then TrimLeft(s[1..]) else s
  }

  /** `s.strip()`: drop whitespace from both ends. */
  function Strip(s: string): (r: string)
    ensures |r| <= |s|
    ensures r == [] || (!IsSpace(r[0]) && !IsSpace(r[|r| - 1]))
  {
    if s == [] then []
    else if IsSpace(s[0]) then Strip(s[1..])
    else if IsSpace(s[|s| - 1]) then Strip(s[..|s| - 1])
    else s
  }

  /** A string whose `strip()` is empty is falsy after stripping: it holds whitespace only. */
  lemma {:induction false} StripEmptyIffAllSpace(s: string)
    ensures Strip(s) == [] <==> forall i :: 0 <= i < |s| ==> IsSpace(s[i])
    decreases |s|
  {
    if s != [] {
      if IsSpace(s[0]) {
        StripEmptyIffAllSpace(s[1..]);
        assert forall i :: 1 <= i < |s| ==> s[i] == s[1..][i - 1];
      } else if IsSpace(s[|s| - 1]) {
        var t := s[..|s| - 1];
        StripEmptyIffAllSpace(t);
        assert t[0] == s[0];
      }
    }
  }

  /** `r` is `s[lo..hi]` and everything of `s` outside `lo..hi` is whitespace. */
  predicate TrimmedSlice(s: string, r: string, lo: int, hi: int) {
    && 0 <= lo <= hi <= |s| && r == s[lo..hi]
    && (forall i :: 0 <= i < lo ==> IsSpace(s[i]))
    && (forall i :: hi <= i < |s| ==> IsSpace(s[i]))
  }

  /** The stripped string is the input without its leading and trailing whitespace. */
  lemma {:induction false} StripIsTrimmedSlice(s: string)
    ensures exists lo, hi :: TrimmedSlice(s, Strip(s), lo, hi)
    decreases |s|
  {
    if s == [] {
      assert TrimmedSlice(s, Strip(s), 0, 0);
    } else if IsSpace(s[0]) {
      StripIsTrimmedSlice(s[1..]);
      var lo, hi :| TrimmedSlice(s[1..], Strip(s[1..]), lo, hi);
      TrimmedSliceFront(s, Strip(s), lo, hi);
    } else if IsSpace(s[|s| - 1]) {
      StripIsTrimmedSlice(s[..|s| - 1]);
      var lo, hi :| TrimmedSlice(s[..|s| - 1], Strip(s[..|s| - 1]), lo, hi);
      TrimmedSliceBack(s, Strip(s), lo, hi);
    } else {
      assert TrimmedSlice(s, Strip(s), 0, |s|);
    }
  }

  lemma TrimmedSliceFront(s: string, r: string, lo: int, hi: int)
    requires s != [] && IsSpace(s[0]) && TrimmedSlice(s[1..], r, lo, hi)
    ensures TrimmedSlice(s, r, lo + 1, hi + 1)
  {
    var t := s[1..];
    assert t[lo..hi] == s[lo + 1..hi + 1];
    assert forall i :: 1 <= i < |s| ==> s[i] == t[i - 1];
  }

  lemma TrimmedSliceBack(s: string, r: string, lo: int, hi: int)
    requires s != [] && IsSpace(s[|s| - 1]) && TrimmedSlice(s[..|s| - 1], r, lo, hi)
    ensures TrimmedSlice(s, r, lo, hi)
  {
    var t := s[..|s| - 1];
    assert t[lo..hi] == s[lo..hi];
    assert forall i :: 0 <= i < |t| ==> s[i] == t[i];
  }

  /** A string with non-blank ends is its own `strip()`. */
  lemma StripOfTrimmed(s: string)
    requires s != [] ==> !IsSpace(s[0]) && !IsSpace(s[|s| - 1])
    ensures Strip(s) == s
  {
  }

  /** A newline-terminated text with non-blank ends strips to the text without its newline. */
  lemma StripNewlineTerminated(s: string)
    requires s != [] && !IsSpace(s[0]) && !IsSpace(s[|s| - 1])
    ensures Strip(s + "\n") == s
  {
    var t := s + "\n";
    assert t[0] == s[0];
    assert t[..|t| - 1] == s;
  }

  /** The index of the first `c` in `s`, or `|s|` when there is none. */
  function IndexOf(s: string, c: char): (i: nat)
    ensures i <= |s|
    ensures i < |s| ==> s[i] == c
    ensures forall j :: 0 <= j < i ==> s[j] != c
    ensures i == |s| <==> c !in s
  {
    if s == [] || s[0] == c then 0 else 1 + IndexOf(s[1..], c)
  }

  /** `s.split(sep)` for a one-character separator. */
  function Split(s: string, sep: char): (parts: seq<string>)
    ensures |parts| >= 1
    decreases |s|
  {
    var i := IndexOf(s, sep);
    if i == |s| then [s] else [s[..i]] + Split(s[i + 1..], sep)
  }

  /** No piece of a split holds the separator. */
  lemma {:induction false} SplitPiecesLackSeparator(s: string, sep: char)
    ensures forall k :: 0 <= k < |Split(s, sep)| ==> sep !in Split(s, sep)[k]
    decreases |s|
  {
    var i := IndexOf(s, sep);
    if i < |s| {
      var rest := s[i + 1..];
      SplitPiecesLackSeparator(rest, sep);
      var parts := Split(s, sep);
      assert parts == [s[..i]] + Split(rest, sep);
      forall k | 0 <= k < |parts| ensures sep !in parts[k] {
        if k > 0 {
          assert parts[k] == Split(rest, sep)[k - 1];
        }
      }
    }
  }

  /** `sep.join(parts)`. */
  function Join(parts: seq<string>, sep: char): string {
    if parts == [] then ""
    else if |parts| == 1 then parts[0]
    else parts[0] + [sep] + Join(parts[1..], sep)
  }

  /** Joining the pieces of a split gives back the string. */
  lemma {:induction false} JoinSplit(s: string, sep: char)
    ensures Join(Split(s, sep), sep) == s
    decreases |s|
  {
    var i := IndexOf(s, sep);
    if i < |s| {
      var rest := s[i + 1..];
      JoinSplit(rest, sep);
      assert Split(s, sep) == [s[..i]] + Split(rest, sep);
      JoinCons(s[..i], Split(rest, sep), sep);
      SplitAround(s, i);
    } else {
      assert Split(s, sep) == [s];
    }
  }

  lemma SplitAround(s: string, i: nat)
    requires i < |s|
    ensures s == s[..i] + [s[i]] + s[i + 1..]
  {
  }

  lemma JoinCons(p: string, tail: seq<string>, sep: char)
    requires |tail| >= 1
    ensures Join([p] + tail, sep) == p + [sep] + Join(tail, sep)
  {
    assert ([p] + tail)[1..] == tail;
  }

  /** Splitting a join of separator-free pieces gives back the pieces. */
  lemma {:induction false} SplitJoin(parts: seq<string>, sep: char)
    requires |parts| >= 1
    requires forall k :: 0 <= k < |parts| ==> sep !in parts[k]
    ensures Split(Join(parts, sep), sep) == parts
  {
    if |parts| > 1 {
      var p := parts[0];
      var tail := parts[1..];
      SplitJoin(tail, sep);
      JoinCons(p, tail, sep);
      assert [p] + tail == parts;
      SplitAfterPrefix(p, sep, Join(tail, sep));
    }
  }

  lemma SplitAfterPrefix(p: string, sep: char, rest: string)
    requires sep !in p
    ensures Split(p + [sep] + rest, sep) == [p] + Split(rest, sep)
  {
    var s := p + [sep] + rest;
    IndexOfAfterPrefix(p, sep, rest);
    assert s[..|p|] == p;
    assert s[|p| + 1..] == rest;
  }

  lemma IndexOfAfterPrefix(p: string, sep: char, rest: string)
    requires sep !in p
    ensures IndexOf(p + [sep] + rest, sep) == |p|
  {
    var s := p + [sep] + rest;
    assert forall j :: 0 <= j < |p| ==> s[j] == p[j];
    assert s[|p|] == sep;
  }

  /** The longest prefix of `s` without whitespace. */
  function Word(s: string): (w: string)
    ensures |w| <= |s| && w == s[..|w|]
    ensures NoSpace(w)
    ensures |w| == |s| || IsSpace(s[|w|])
  {
    if s == [] || IsSpace(s[0]) then [] else
      var w := Word(s[1..]);
      assert s[1..][..|w|] == s[1..|w| + 1];
      [s[0]] + w
  }

  /** Every piece is a non-empty run of non-whitespace characters. */
  predicate AllWords(ws: seq<string>) {
    forall k :: 0 <= k < |ws| ==> ws[k] != [] && NoSpace(ws[k])
  }

  lemma AllWordsCons(w: string, ws: seq<string>)
    requires w != [] && NoSpace(w) && AllWords(ws)
    ensures AllWords([w] + ws)
  {
    forall k | 0 <= k < |[w] + ws| ensures ([w] + ws)[k] != [] && NoSpace(([w] + ws)[k]) {
      if k > 0 {
        assert ([w] + ws)[k] == ws[k - 1];
      }
    }
  }

  /** `s.split()`: the maximal runs of non-whitespace characters. */
  function Fields(s: string): (ws: seq<string>)
    ensures AllWords(ws)
    decreases |s|
  {
    var t := TrimLeft(s);
    if t == [] then [] else
      var w := Word(t);
      var rest := t[|w|..];
      var ws := Fields(rest);
      AllWordsCons(w, ws);
      [w] + ws
  }

  lemma DropFirstOfConcat(a: string, b: string)
    requires a != []
    ensures (a + b)[1..] == a[1..] + b
  {
  }

  lemma WordOfPrefix(a: string, rest: string)
    requires NoSpace(a)
    requires rest == [] || IsSpace(rest[0])
    ensures Word(a + rest) == a
    decreases |a|
  {
    if a != [] {
      DropFirstOfConcat(a, rest);
      WordOfPrefix(a[1..], rest);
    }
  }

  /** `(a + " " + b).split()` is `[a, b]` when neither holds whitespace. */
  lemma FieldsOfPair(a: string, b: string)
    requires a != [] && b != [] && NoSpace(a) && NoSpace(b)
    ensures Fields(a + " " + b) == [a, b]
  {
    var u := " " + b;
    assert a + " " + b == a + u;
    FieldsAfterWord(a, u);
    FieldsAfterSpace(b);
  }
  lemma FieldsAfterWord(a: string, rest: string)
    requires a != [] && NoSpace(a) && rest != [] && IsSpace(rest[0])
    ensures Fields(a + rest) == [a] + Fields(rest)
  {
    var s := a + rest;
    assert s[0] == a[0];
    assert TrimLeft(s) == s;
    WordOfPrefix(a, rest);
    assert s[|a|..] == rest;
  }
  lemma FieldsAfterSpace(b: string)
    requires b != [] && NoSpace(b)
    ensures Fields(" " + b) == [b]
  {
    var u := " " + b;
    assert IsSpace(u[0]);
    assert u[1..] == b;
    assert TrimLeft(u) == TrimLeft(b);
    FieldsOfWord(b);
    FieldsSkipsSpace(u);
  }
  lemma FieldsSkipsSpace(u: string)
    requires u != [] && IsSpace(u[0])
    ensures Fields(u) == Fields(u[1..])
  {
    assert TrimLeft(u) == TrimLeft(u[1..]);
  }
  lemma FieldsOfWord(b: string)
    requires b != [] && NoSpace(b)
    ensures Fields(b) == [b]
  {
    assert TrimLeft(b) == b;
    WordOfPrefix(b, []);
    assert b + [] == b;
    assert b[|b|..] == [];
  }

  function LowerChar(c: char): char {
    if 'A' <= c <= 'Z' then (c as int + 32) as char else c
  }

  /** `s.lower()` for the ASCII letters. */
  function Lower(s: string): (r: string)
    ensures |r| == |s|
  {
    seq(|s|, i requires 0 <= i < |s| => LowerChar(s[i]))
  }

  function DigitChar(d: nat): char
    requires d < 10
  {
    ('0' as int + d) as char
  }

  /** `str(n)` for a natural number. */
  function Decimal(n: nat): (r: string)
    ensures r != [] && forall i :: 0 <= i < |r| ==> IsDigit(r[i])
  {
    if n < 10 then [DigitChar(n)] else Decimal(n / 10) + [DigitChar(n % 10)]
  }
}
