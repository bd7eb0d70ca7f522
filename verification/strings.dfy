/**
 * The Python `str` operations the site generator relies on, over `seq<char>`:
 * whitespace stripping, prefix and suffix tests, substring search, `split`,
 * `join`, `replace` and ASCII `lower`.
 */
module Str {
  import opened Wrappers

  /** The characters for which Python's `str.isspace()` holds; `\s` in a `re`
      pattern and the argument-less `strip()` use the same set. */
  predicate IsSpace(c: char) {
    || c == ' ' || c == '\t' || c == '\n' || c == '\r' || c == '\U{0B}' || c == '\U{0C}'
    || ('\U{1C}' <= c <= '\U{1F}') || c == '\U{85}' || c == '\U{A0}' || c == '\U{1680}'
    || ('\U{2000}' <= c <= '\U{200A}') || c == '\U{2028}' || c == '\U{2029}'
    || c == '\U{202F}' || c == '\U{205F}' || c == '\U{3000}'
  }

  /** `s.lstrip()`: drops the leading whitespace and nothing else. */
  function LStrip(s: string): (r: string)
    ensures |r| <= |s| && r == s[|s| - |r|..]
    ensures forall i :: 0 <= i < |s| - |r| ==> IsSpace(s[i])
    ensures |r| == 0 || !IsSpace(r[0])
  {
    if |s| > 0 && IsSpace(s[0]) then LStrip(s[1..]) else s
  }

  /** `s.rstrip()`: drops the trailing whitespace and nothing else. */
  function RStrip(s: string): (r: string)
    ensures |r| <= |s| && r == s[..|r|]
    ensures forall i :: |r| <= i < |s| ==> IsSpace(s[i])
    ensures |r| == 0 || !IsSpace(r[|r| - 1])
  {
    if |s| > 0 && IsSpace(s[|s| - 1]) then RStrip(s[..|s| - 1]) else s
  }

  /** No whitespace at either end. */
  predicate Unpadded(s: string) {
    |s| == 0 || (!IsSpace(s[0]) && !IsSpace(s[|s| - 1]))
  }

  /** `s.strip()` */
  function Strip(s: string): (r: string)
    ensures Unpadded(r)
    ensures |r| <= |s|
  {
    var l := LStrip(s);
    var r := RStrip(l);
    assert |r| > 0 ==> r[0] == l[0];
    r
  }

  /** Stripping text that has no surrounding whitespace changes nothing. */
  lemma StripUnpadded(s: string)
    requires Unpadded(s)
    ensures Strip(s) == s
  {
  }

  /** Leading whitespace never survives `strip()`. */
  lemma {:induction false} StripAfterSpace(w: string, s: string)
    requires forall i :: 0 <= i < |w| ==> IsSpace(w[i])
    ensures Strip(w + s) == Strip(s)
    decreases |w|
  {
    if |w| > 0 {
      assert (w + s)[1..] == w[1..] + s;
      StripAfterSpace(w[1..], s);
    } else {
      assert w + s == s;
    }
  }

  /** Stripping twice is stripping once. */
  lemma StripIdempotent(s: string)
    ensures Strip(Strip(s)) == Strip(s)
  {
    StripUnpadded(Strip(s));
  }

  predicate StartsWith(s: string, prefix: string) {
    |prefix| <= |s| && s[..|prefix|] == prefix
  }

  predicate EndsWith(s: string, suffix: string) {
    |suffix| <= |s| && s[|s| - |suffix|..] == suffix
  }

  /** `pat` occurs in `s` starting at index `i`. */
  predicate OccursAt(s: string, pat: string, i: int) {
    0 <= i && i + |pat| <= |s| && s[i..i + |pat|] == pat
  }

  /** `s.find(pat, from)`: the leftmost occurrence at or after `from`. */
  function FindFrom(s: string, pat: string, from: nat): (r: Option<nat>)
    ensures r.Some? ==> from <= r.value && OccursAt(s, pat, r.value)
    ensures r.Some? ==> forall j :: from <= j < r.value ==> !OccursAt(s, pat, j)
    ensures r.None? ==> forall j :: from <= j ==> !OccursAt(s, pat, j)
    decreases |s| - from
  {
    if from + |pat| > |s| then None
    else if s[from..from + |pat|] == pat then Some(from)
    else FindFrom(s, pat, from + 1)
  }

  function Find(s: string, pat: string): Option<nat> {
    FindFrom(s, pat, 0)
  }

  /** `s.find(c, from)` for a single character. */
  function FindChar(s: string, c: char, from: nat): (r: Option<nat>)
    ensures r.Some? ==> from <= r.value < |s| && s[r.value] == c
    ensures r.Some? ==> forall j :: from <= j < r.value ==> s[j] != c
    ensures r.None? ==> forall j :: from <= j < |s| ==> s[j] != c
    decreases |s| - from
  {
    if from >= |s| then None
    else if s[from] == c then Some(from)
    else FindChar(s, c, from + 1)
  }

  /** First index at or after `i` whose character is not `c`, or |s|. */
  function RunEnd(s: string, i: nat, c: char): (e: nat)
    requires i <= |s|
    ensures i <= e <= |s| && (e < |s| ==> s[e] != c)
    ensures forall j :: i <= j < e ==> s[j] == c
    decreases |s| - i
  {
    if i < |s| && s[i] == c then RunEnd(s, i + 1, c) else i
  }

  /** First index at or after `i` that is not whitespace, or |s|. */
  function SpaceRunEnd(s: string, i: nat): (e: nat)
    requires i <= |s|
    ensures i <= e <= |s| && (e < |s| ==> !IsSpace(s[e]))
    ensures forall j :: i <= j < e ==> IsSpace(s[j])
    decreases |s| - i
  {
    if i < |s| && IsSpace(s[i]) then SpaceRunEnd(s, i + 1) else i
  }

  /** First line break at or after `i`, or |s|. */
  function LineEnd(s: string, i: nat): (e: nat)
    requires i <= |s|
    ensures i <= e <= |s| && (e < |s| ==> s[e] == '\n')
    ensures forall j :: i <= j < e ==> s[j] != '\n'
    decreases |s| - i
  {
    if i < |s| && s[i] != '\n' then LineEnd(s, i + 1) else i
  }

  /** Python's `pat in s`. */
  predicate Contains(s: string, pat: string) {
    Find(s, pat).Some?
  }

  /** `Contains` holds exactly when some index holds an occurrence. */
  lemma ContainsMeans(s: string, pat: string)
    ensures Contains(s, pat) <==> exists i :: OccursAt(s, pat, i)
  {
  }

  /** `s.split(sep)` for a non-empty separator: the pieces between the
      leftmost non-overlapping occurrences of `sep`. */
  function Split(s: string, sep: string): (parts: seq<string>)
    requires |sep| > 0
    ensures |parts| >= 1
    decreases |s|
  {
    match Find(s, sep)
    case None => [s]
    case Some(i) => [s[..i]] + Split(s[i + |sep|..], sep)
  }

  /** `sep.join(parts)` */
  function Join(parts: seq<string>, sep: string): string
    decreases |parts|
  {
    if |parts| == 0 then []
    else if |parts| == 1 then parts[0]
    else parts[0] + sep + Join(parts[1..], sep)
  }

  /** `s.replace(pat, repl)`; with an empty `pat`, Python inserts `repl`
      around every character. */
  function Replace(s: string, pat: string, repl: string): string
    decreases |s|
  {
    if |pat| == 0 then Interleave(s, repl)
    else match Find(s, pat)
      case None => s
      case Some(i) => s[..i] + repl + Replace(s[i + |pat|..], pat, repl)
  }

  function Interleave(s: string, sep: string): string
    decreases |s|
  {
    if |s| == 0 then sep else sep + [s[0]] + Interleave(s[1..], sep)
  }

  /** Joining the pieces of a split with the same separator gives back the text. */
  lemma {:induction false} JoinSplit(s: string, sep: string)
    requires |sep| > 0
    ensures Join(Split(s, sep), sep) == s
    decreases |s|
  {
    var f := Find(s, sep);
    if f.Some? {
      var i := f.value;
      var rest := s[i + |sep|..];
      var parts := Split(s, sep);
      JoinSplit(rest, sep);
      assert parts == [s[..i]] + Split(rest, sep);
      assert parts[1..] == Split(rest, sep);
      assert Join(parts, sep) == s[..i] + sep + rest;
      assert s[i..i + |sep|] == sep;
      assert s == s[..i] + s[i..i + |sep|] + rest;
    }
  }

  /** `s.replace(pat, repl) == repl.join(s.split(pat))`: replacing is splitting at
      every occurrence and gluing the pieces back with the replacement. */
  lemma {:induction false} ReplaceIsJoinSplit(s: string, pat: string, repl: string)
    requires |pat| > 0
    ensures Replace(s, pat, repl) == Join(Split(s, pat), repl)
    decreases |s|
  {
    match Find(s, pat)
    case None =>
    case Some(i) =>
      var rest := s[i + |pat|..];
      var parts := Split(s, pat);
      ReplaceIsJoinSplit(rest, pat, repl);
      assert parts == [s[..i]] + Split(rest, pat);
      assert parts[1..] == Split(rest, pat);
  }

  /** Text without any occurrence of `pat` is left alone by `replace`. */
  lemma ReplaceAbsent(s: string, pat: string, repl: string)
    requires |pat| > 0 && !Contains(s, pat)
    ensures Replace(s, pat, repl) == s
  {
  }

  /** The first `i` characters before the leftmost occurrence of a one-character
      pattern do not contain that character. */
  lemma NoCharBeforeFind(s: string, c: char, from: nat)
    requires FindFrom(s, [c], from).Some?
    ensures forall j :: from <= j < FindFrom(s, [c], from).value ==> s[j] != c
  {
    var i := FindFrom(s, [c], from).value;
    forall j | from <= j < i
      ensures s[j] != c
    {
      assert !OccursAt(s, [c], j);
      assert s[j..j + 1] == [s[j]];
    }
  }

  lemma NoCharWhenAbsent(s: string, c: char, from: nat)
    requires FindFrom(s, [c], from).None?
    ensures forall j :: from <= j < |s| ==> s[j] != c
  {
    forall j | from <= j < |s|
      ensures s[j] != c
    {
      assert !OccursAt(s, [c], j);
      assert s[j..j + 1] == [s[j]];
    }
  }

  /** Replacing a single character repl text that does not contain it removes
      that character entirely. */
  lemma {:induction false} ReplaceCharRemoves(s: string, c: char, repl: string)
    requires c !in repl
    ensures c !in Replace(s, [c], repl)
    decreases |s|
  {
    match Find(s, [c])
    case None =>
      NoCharWhenAbsent(s, c, 0);
    case Some(i) =>
      ReplaceCharRemoves(s[i + 1..], c, repl);
      ReplaceCharStep(s, c, repl, i);
  }

  /** One step of replacing a character: the text before its first
      occurrence is free of it. */
  lemma ReplaceCharStep(s: string, c: char, repl: string, i: nat)
    requires Find(s, [c]) == Some(i)
    ensures Replace(s, [c], repl) == s[..i] + repl + Replace(s[i + 1..], [c], repl)
    ensures c !in s[..i]
  {
    NoCharBeforeFind(s, c, 0);
    forall j | 0 <= j < i
      ensures s[..i][j] != c
    {
      assert s[..i][j] == s[j];
    }
  }

  /** Splitting at a one-character separator yields one more piece than there
      are occurrences of that character. */
  lemma {:induction false} SplitCharCount(s: string, c: char)
    ensures |Split(s, [c])| == multiset(s)[c] + 1
    decreases |s|
  {
    match Find(s, [c])
    case None =>
      NoCharWhenAbsent(s, c, 0);
      assert c !in multiset(s);
    case Some(i) =>
      NoCharBeforeFind(s, c, 0);
      var rest := s[i + 1..];
      SplitCharCount(rest, c);
      assert s == s[..i] + [c] + rest;
      assert c !in multiset(s[..i]);
      assert multiset(s) == multiset(s[..i]) + multiset{c} + multiset(rest);
  }

  /** ASCII `lower()`. */
  function Lower(s: string): (r: string)
    ensures |r| == |s|
    ensures forall i :: 0 <= i < |s| ==> r[i] == LowerChar(s[i])
  {
    seq(|s|, i requires 0 <= i < |s| => LowerChar(s[i]))
  }

  function LowerChar(c: char): char {
    if 'A' <= c <= 'Z' then (c as int + 32) as char else c
  }

  /** Splitting off the first element and putting it back. */
  lemma ConsAppend<T>(t: seq<T>, y: seq<T>)
    requires |t| > 0
    ensures [t[0]] + (t[1..] + y) == t + y
  {
    assert t == [t[0]] + t[1..];
  }

  /** `s[:n]` */
  function Take<T>(s: seq<T>, n: nat): (r: seq<T>)
  {
    if |s| <= n then s else s[..n]
  }

  /** Joining the first `n` pieces of a split gives a text whose own split is
      exactly those `n` pieces: cutting at a block boundary keeps the blocks. */
  lemma {:induction false} SplitJoinTake(s: string, sep: string, n: nat)
    requires |sep| > 0 && n >= 1
    ensures Split(Join(Take(Split(s, sep), n), sep), sep) == Take(Split(s, sep), n)
    decreases |s|
  {
    if n == 1 || Find(s, sep).None? {
      SplitJoinTakeBase(s, sep, n);
    } else {
      var i := Find(s, sep).value;
      SplitJoinTake(s[i + |sep|..], sep, n - 1);
      SplitJoinTakeStep(s, sep, i, n);
    }
  }

  /** The cases that need no induction: no separator, or one piece kept. */
  lemma SplitJoinTakeBase(s: string, sep: string, n: nat)
    requires |sep| > 0 && n >= 1 && (n == 1 || Find(s, sep).None?)
    ensures Split(Join(Take(Split(s, sep), n), sep), sep) == Take(Split(s, sep), n)
  {
    match Find(s, sep)
    case None =>
      SplitJoinTakeWhole(s, sep, n);
    case Some(i) =>
      SplitJoinTakeFirst(s, sep, i);
  }

  /** Without a separator the text is its own single piece. */
  lemma SplitJoinTakeWhole(s: string, sep: string, n: nat)
    requires |sep| > 0 && n >= 1 && Find(s, sep).None?
    ensures Split(Join(Take(Split(s, sep), n), sep), sep) == Take(Split(s, sep), n)
  {
    assert Split(s, sep) == [s];
    assert Take([s], n) == [s];
    assert Join([s], sep) == s;
  }

  /** The first piece alone splits to itself. */
  lemma SplitJoinTakeFirst(s: string, sep: string, i: nat)
    requires |sep| > 0 && Find(s, sep) == Some(i)
    ensures Split(Join(Take(Split(s, sep), 1), sep), sep) == Take(Split(s, sep), 1)
  {
    SplitAt(s, sep, i);
    TakeCons(s[..i], Split(s[i + |sep|..], sep), 1);
    assert Take(Split(s, sep), 1) == [s[..i]];
    assert Join([s[..i]], sep) == s[..i];
    NoOccurrenceBefore(s, sep, i);
    assert Split(s[..i], sep) == [s[..i]];
  }

  /** The inductive step of `SplitJoinTake`: the first piece is split off
      again at the same place. */
  lemma SplitJoinTakeStep(s: string, sep: string, i: nat, n: nat)
    requires |sep| > 0 && n >= 2 && Find(s, sep) == Some(i)
    requires Split(Join(Take(Split(s[i + |sep|..], sep), n - 1), sep), sep) == Take(Split(s[i + |sep|..], sep), n - 1)
    ensures Split(Join(Take(Split(s, sep), n), sep), sep) == Take(Split(s, sep), n)
  {
    var rest := s[i + |sep|..];
    var tail := Take(Split(rest, sep), n - 1);
    var t := Join(tail, sep);
    SplitAt(s, sep, i);
    TakeCons(s[..i], Split(rest, sep), n);
    JoinCons(s[..i], tail, sep);
    var u := s[..i] + sep + t;
    FirstOccurrenceOfPrefix(s, sep, i, t);
    SplitAt(u, sep, i);
    assert u[..i] == s[..i];
    assert u[i + |sep|..] == t;
  }

  lemma SplitAt(s: string, sep: string, i: nat)
    requires |sep| > 0 && Find(s, sep) == Some(i)
    ensures Split(s, sep) == [s[..i]] + Split(s[i + |sep|..], sep)
  {
  }

  lemma TakeCons<T>(a: T, rest: seq<T>, n: nat)
    requires n >= 1
    ensures Take([a] + rest, n) == [a] + Take(rest, n - 1)
  {
  }

  lemma JoinCons(a: string, tail: seq<string>, sep: string)
    requires |tail| >= 1
    ensures Join([a] + tail, sep) == a + sep + Join(tail, sep)
  {
    assert ([a] + tail)[1..] == tail;
  }

  /** Two texts that agree on their first `m` characters have the same
      occurrences of `pat` there. */
  lemma SameOccurrence(s: string, u: string, pat: string, m: nat, j: nat)
    requires m <= |s| && m <= |u| && s[..m] == u[..m] && j + |pat| <= m
    ensures OccursAt(s, pat, j) <==> OccursAt(u, pat, j)
  {
    assert s[j..j + |pat|] == s[..m][j..j + |pat|];
    assert u[j..j + |pat|] == u[..m][j..j + |pat|];
  }

  /** No occurrence of `sep` lies inside `s[..i]` when `i` is the first one in `s`. */
  lemma NoOccurrenceBefore(s: string, sep: string, i: nat)
    requires |sep| > 0 && Find(s, sep) == Some(i)
    ensures Find(s[..i], sep).None?
  {
    forall j: nat | j + |sep| <= i
      ensures !OccursAt(s[..i], sep, j)
    {
      assert s[..i][..i] == s[..i];
      SameOccurrence(s, s[..i], sep, i, j);
    }
  }

  /** Replacing what follows the first separator does not move it. */
  lemma FirstOccurrenceOfPrefix(s: string, sep: string, i: nat, t: string)
    requires |sep| > 0 && Find(s, sep) == Some(i)
    ensures Find(s[..i] + sep + t, sep) == Some(i)
  {
    var u := s[..i] + sep + t;
    var m := i + |sep|;
    assert u[..m] == s[..m];
    forall j: nat | j < i
      ensures !OccursAt(u, sep, j)
    {
      SameOccurrence(s, u, sep, m, j);
    }
    SameOccurrence(s, u, sep, m, i);
    FindIsFirst(u, sep, i);
  }

  /** An occurrence with none before it is the one `find` reports. */
  lemma FindFromIsFirst(s: string, pat: string, from: nat, i: nat)
    requires from <= i && OccursAt(s, pat, i) && forall j :: from <= j < i ==> !OccursAt(s, pat, j)
    ensures FindFrom(s, pat, from) == Some(i)
  {
  }

  lemma FindIsFirst(s: string, pat: string, i: nat)
    requires OccursAt(s, pat, i) && forall j :: 0 <= j < i ==> !OccursAt(s, pat, j)
    ensures Find(s, pat) == Some(i)
  {
  }

}
