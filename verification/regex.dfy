/** The regular expressions the browser client uses to find inline markers,
    `/\[\[ISSUE:\s*(.+?)\]\]/g` and its relatives: a sequence of literals, greedy
    `\s*` and lazy captured `(.+?)`, matched with JavaScript's backtracking
    order (greedy tries the longest run first, lazy the shortest), and the
    global scan that `String.prototype.replace` performs with such a pattern. */
module Regex {
  import opened Text

  datatype Atom =
    | Lit(text: string)   // a literal string
    | Spaces              // `\s*`, greedy
    | LazyCapture         // `(.+?)`, lazy; `.` excludes line terminators

  type Pattern = seq<Atom>

  /** One match of a global scan: where it starts and ends, and its capture groups. */
  datatype Match = Match(start: nat, end: nat, groups: seq<string>)

  predicate NoLineTerminator(u: string) {
    forall k :: 0 <= k < |u| ==> !IsLineTerminator(u[k])
  }

  /** The number of capture groups of a pattern. */
  function CaptureCount(p: Pattern): nat {
    if p == [] then 0 else (if p[0].LazyCapture? then 1 else 0) + CaptureCount(p[1..])
  }

  lemma CaptureCountCons(a: Atom, rest: Pattern)
    ensures CaptureCount([a] + rest) == (if a.LazyCapture? then 1 else 0) + CaptureCount(rest)
  {
    assert ([a] + rest)[1..] == rest;
  }

  /** The pattern starts with a non-empty literal, so no match is empty. */
  predicate Anchored(p: Pattern) {
    |p| > 0 && p[0].Lit? && |p[0].text| > 0
  }

  /** Try to match `p` at exactly position `i`: the end of the match and its groups. */
  function MatchAt(p: Pattern, s: string, i: nat): (r: Option<(nat, seq<string>)>)
    requires i <= |s|
    decreases |p|, 0, 0
    ensures r.Some? ==> i <= r.value.0 <= |s|
    ensures r.Some? && Anchored(p) ==> i + |p[0].text| <= r.value.0
    ensures r.Some? ==> |r.value.1| == CaptureCount(p)
  {
    if |p| == 0 then Some((i, []))
    else match p[0]
      case Lit(t) => if OccursAt(s, t, i) then MatchAt(p[1..], s, i + |t|) else None
      case Spaces => TrySpaces(p[1..], s, i, SpaceRunEnd(s, i))
      case LazyCapture => TryLazy(p[1..], s, i, i + 1)
  }

  /** `\s*` followed by `rest`: take `k - i` spaces, then give them back one by one. */
  function TrySpaces(rest: Pattern, s: string, i: nat, k: nat): (r: Option<(nat, seq<string>)>)
    requires i <= k <= |s|
    decreases |rest|, 1, k
    ensures r.Some? ==> i <= r.value.0 <= |s|
    ensures r.Some? ==> |r.value.1| == CaptureCount(rest)
  {
    match MatchAt(rest, s, k)
    case Some(m) => Some(m)
    case None => if k == i then None else TrySpaces(rest, s, i, k - 1)
  }

  /** `(.+?)` followed by `rest`: capture `s[i..e]`, widening it one character at a time. */
  function TryLazy(rest: Pattern, s: string, i: nat, e: nat): (r: Option<(nat, seq<string>)>)
    requires i < e
    decreases |rest|, 1, |s| + 1 - e
    ensures r.Some? ==> e <= r.value.0 <= |s|
    ensures r.Some? ==> |r.value.1| == 1 + CaptureCount(rest)
  {
    if e > |s| || IsLineTerminator(s[e - 1]) then None
    else match MatchAt(rest, s, e)
      case Some(m) => Some((m.0, [s[i..e]] + m.1))
      case None => TryLazy(rest, s, i, e + 1)
  }

  /** The leftmost match that starts at or after `from`, as `RegExp.prototype.exec` finds it. */
  function FindMatch(p: Pattern, s: string, from: nat): (r: Option<Match>)
    requires from <= |s|
    decreases |s| - from
    ensures r.Some? ==> from <= r.value.start <= r.value.end <= |s|
    ensures r.Some? && Anchored(p) ==> r.value.start < r.value.end
    ensures r.Some? ==> |r.value.groups| == CaptureCount(p)
    ensures r.Some? ==> MatchAt(p, s, r.value.start) == Some((r.value.end, r.value.groups))
    ensures r.Some? ==> forall j :: from <= j < r.value.start ==> MatchAt(p, s, j).None?
    ensures r.None? ==> forall j :: from <= j <= |s| ==> MatchAt(p, s, j).None?
  {
    match MatchAt(p, s, from)
    case Some(m) => Some(Match(from, m.0, m.1))
    case None => if from == |s| then None else FindMatch(p, s, from + 1)
  }

  /** All matches of a global scan from `from`: each search resumes where the last match ended. */
  function ScanFrom(p: Pattern, s: string, from: nat): (ms: seq<Match>)
    requires Anchored(p) && from <= |s|
    decreases |s| - from
    ensures Ordered(s, from, ms)
    ensures forall k :: 0 <= k < |ms| ==> from <= ms[k].start < ms[k].end <= |s|
    ensures forall k :: 0 <= k < |ms| ==> |ms[k].groups| == CaptureCount(p)
  {
    match FindMatch(p, s, from)
    case None => []
    case Some(m) => [m] + ScanFrom(p, s, m.end)
  }

  function Scan(p: Pattern, s: string): seq<Match>
    requires Anchored(p)
  {
    ScanFrom(p, s, 0)
  }

  /** Matches in order, inside `s` from `from` on, not overlapping. */
  predicate Ordered(s: string, from: nat, ms: seq<Match>)
    decreases |ms|
  {
    ms == [] || (from <= ms[0].start <= ms[0].end <= |s| && Ordered(s, ms[0].end, ms[1..]))
  }

  /** The text `s.replace` builds: the text between matches is kept and the
      `k`-th match is replaced by `labels[k]`. */
  function Rebuild(s: string, from: nat, ms: seq<Match>, labels: seq<string>): string
    requires from <= |s| && Ordered(s, from, ms) && |labels| == |ms|
    decreases |ms|
  {
    if ms == [] then s[from..]
    else s[from..ms[0].start] + labels[0] + Rebuild(s, ms[0].end, ms[1..], labels[1..])
  }

  /** The loop of `replace` after `k` matches: `out` holds the text up to
      `pos`, where the `k`-th match's search resumes. */
  ghost predicate Replaced(s: string, ms: seq<Match>, labels: seq<string>, k: nat, pos: nat, out: string) {
    && k <= |ms| == |labels| && pos <= |s| && Ordered(s, 0, ms) && Ordered(s, pos, ms[k..])
    && out + Rebuild(s, pos, ms[k..], labels[k..]) == Rebuild(s, 0, ms, labels)
  }

  lemma ReplacedStart(s: string, ms: seq<Match>, labels: seq<string>)
    requires Ordered(s, 0, ms) && |labels| == |ms|
    ensures Replaced(s, ms, labels, 0, 0, "")
  {
    assert ms[0..] == ms && labels[0..] == labels;
  }

  /** Replacing the `k`-th match appends the text before it and its label. */
  lemma ReplacedStep(s: string, ms: seq<Match>, labels: seq<string>, k: nat, pos: nat, out: string)
    requires Replaced(s, ms, labels, k, pos, out) && k < |ms|
    ensures pos <= ms[k].start <= ms[k].end <= |s|
    ensures Replaced(s, ms, labels, k + 1, ms[k].end, out + s[pos..ms[k].start] + labels[k])
  {
    assert ms[k..][1..] == ms[k + 1..];
    assert labels[k..][1..] == labels[k + 1..];
    var rest := Rebuild(s, ms[k].end, ms[k + 1..], labels[k + 1..]);
    assert out + (s[pos..ms[k].start] + labels[k] + rest) == (out + s[pos..ms[k].start] + labels[k]) + rest;
  }

  /** After the last match the rest of the text is copied. */
  lemma ReplacedEnd(s: string, ms: seq<Match>, labels: seq<string>, pos: nat, out: string)
    requires Replaced(s, ms, labels, |ms|, pos, out)
    ensures out + s[pos..] == Rebuild(s, 0, ms, labels)
  {
    assert ms[|ms|..] == [];
  }

  /** The language of a pattern, stated without search order: `u` matches `p` with groups `g`. */
  ghost predicate Matches(p: Pattern, u: string, g: seq<string>)
    decreases |p|
  {
    if |p| == 0 then u == [] && g == []
    else match p[0]
      case Lit(t) => t <= u && Matches(p[1..], u[|t|..], g)
      case Spaces =>
        exists k :: 0 <= k <= |u| && AllSpace(u[..k]) && Matches(p[1..], u[k..], g)
      case LazyCapture =>
        |g| > 0 &&
        exists k :: 1 <= k <= |u| && NoLineTerminator(u[..k]) && g[0] == u[..k] && Matches(p[1..], u[k..], g[1..])
  }

  /** Every match the search reports is a string of the pattern's language. */
  lemma {:induction false} MatchAtSound(p: Pattern, s: string, i: nat)
    requires i <= |s|
    requires MatchAt(p, s, i).Some?
    ensures Matches(p, s[i..MatchAt(p, s, i).value.0], MatchAt(p, s, i).value.1)
    decreases |p|, 0, 0
  {
    var e := MatchAt(p, s, i).value.0;
    if |p| > 0 {
      match p[0]
      case Lit(t) =>
        MatchAtSound(p[1..], s, i + |t|);
        assert s[i..e][..|t|] == s[i..i + |t|];
        assert s[i..e][|t|..] == s[i + |t|..e];
      case Spaces =>
        TrySpacesSound(p, s, i, SpaceRunEnd(s, i));
      case LazyCapture =>
        TryLazySound(p, s, i, i + 1);
    }
  }

  lemma {:induction false} TrySpacesSound(p: Pattern, s: string, i: nat, k: nat)
    requires |p| > 0 && p[0] == Spaces
    requires i <= k <= |s| && AllSpace(s[i..k])
    requires TrySpaces(p[1..], s, i, k).Some?
    ensures Matches(p, s[i..TrySpaces(p[1..], s, i, k).value.0], TrySpaces(p[1..], s, i, k).value.1)
    decreases |p| - 1, 1, k
  {
    var r := TrySpaces(p[1..], s, i, k).value;
    match MatchAt(p[1..], s, k)
    case Some(m) =>
      MatchAtSound(p[1..], s, k);
      var u := s[i..r.0];
      assert u[..k - i] == s[i..k];
      assert u[k - i..] == s[k..r.0];
      assert AllSpace(u[..k - i]) && Matches(p[1..], u[k - i..], r.1);
    case None =>
      assert s[i..k - 1] == s[i..k][..k - 1 - i];
      TrySpacesSound(p, s, i, k - 1);
  }

  lemma NoLineTerminatorExtend(s: string, i: nat, e: nat)
    requires i < e <= |s| && NoLineTerminator(s[i..e - 1]) && !IsLineTerminator(s[e - 1])
    ensures NoLineTerminator(s[i..e])
  {
    var u, v := s[i..e - 1], s[i..e];
    forall k | 0 <= k < |v| ensures !IsLineTerminator(v[k]) {
      if k < |u| {
        assert v[k] == u[k];
      }
    }
  }

  lemma {:induction false} TryLazySound(p: Pattern, s: string, i: nat, e: nat)
    requires |p| > 0 && p[0] == LazyCapture
    requires i < e <= |s| + 1 && NoLineTerminator(s[i..e - 1])
    requires TryLazy(p[1..], s, i, e).Some?
    ensures Matches(p, s[i..TryLazy(p[1..], s, i, e).value.0], TryLazy(p[1..], s, i, e).value.1)
    decreases |p| - 1, 1, |s| + 1 - e
  {
    var r := TryLazy(p[1..], s, i, e).value;
    NoLineTerminatorExtend(s, i, e);
    match MatchAt(p[1..], s, e)
    case Some(m) =>
      MatchAtSound(p[1..], s, e);
      var u := s[i..r.0];
      assert u[..e - i] == s[i..e];
      assert u[e - i..] == s[e..r.0];
      assert r.1 == [s[i..e]] + m.1;
      assert r.1[1..] == m.1;
      assert NoLineTerminator(u[..e - i]) && r.1[0] == u[..e - i] && Matches(p[1..], u[e - i..], r.1[1..]);
    case None =>
      TryLazySound(p, s, i, e + 1);
  }

  /** Every string of the pattern's language at position `i` is seen by the
      search: `MatchAt` finds a match there (perhaps another one, as the
      backtracking order prefers). */
  lemma {:induction false} MatchAtComplete(p: Pattern, s: string, i: nat, j: nat, g: seq<string>)
    requires i <= j <= |s| && Matches(p, s[i..j], g)
    ensures MatchAt(p, s, i).Some?
    decreases |p|
  {
    if |p| > 0 {
      match p[0]
      case Lit(t) =>
        LitSplit(p, s, i, j, g);
        MatchAtComplete(p[1..], s, i + |t|, j, g);
        LitThen(p, s, i);
      case Spaces =>
        var k := SpacesSplit(p, s, i, j, g);
        MatchAtComplete(p[1..], s, k, j, g);
        SpacesThen(p, s, i, k);
      case LazyCapture =>
        var k := LazySplit(p, s, i, j, g);
        MatchAtComplete(p[1..], s, k, j, g[1..]);
        LazyThen(p, s, i, k);
    }
  }

  /** A string of the language that starts with a literal: the literal, then a string of the rest. */
  lemma LitSplit(p: Pattern, s: string, i: nat, j: nat, g: seq<string>)
    requires |p| > 0 && p[0].Lit? && i <= j <= |s| && Matches(p, s[i..j], g)
    ensures i + |p[0].text| <= j && OccursAt(s, p[0].text, i) && Matches(p[1..], s[i + |p[0].text|..j], g)
  {
    var u, t := s[i..j], p[0].text;
    assert u[..|t|] == s[i..i + |t|];
    assert u[|t|..] == s[i + |t|..j];
  }

  /** A string of the language that starts with `\s*`: a run of spaces ending at `k`, then a string of the rest. */
  lemma SpacesSplit(p: Pattern, s: string, i: nat, j: nat, g: seq<string>) returns (k: nat)
    requires |p| > 0 && p[0] == Spaces && i <= j <= |s| && Matches(p, s[i..j], g)
    ensures i <= k <= j && AllSpace(s[i..k]) && Matches(p[1..], s[k..j], g)
  {
    var u := s[i..j];
    var n :| 0 <= n <= |u| && AllSpace(u[..n]) && Matches(p[1..], u[n..], g);
    assert u[n..] == s[i + n..j] && u[..n] == s[i..i + n];
    k := i + n;
  }

  /** A string of the language that starts with `(.+?)`: a capture without a
      line terminator ending at `k`, then a string of the rest. */
  lemma LazySplit(p: Pattern, s: string, i: nat, j: nat, g: seq<string>) returns (k: nat)
    requires |p| > 0 && p[0] == LazyCapture && i <= j <= |s| && Matches(p, s[i..j], g)
    ensures i < k <= j && NoLineTerminator(s[i..k]) && |g| > 0 && Matches(p[1..], s[k..j], g[1..])
  {
    var u := s[i..j];
    var n := LazyWitness(p, u, g);
    assert u[n..] == s[i + n..j];
    assert u[..n] == s[i..i + n];
    k := i + n;
  }

  /** The capture length a match of `(.+?)` chose. */
  lemma LazyWitness(p: Pattern, u: string, g: seq<string>) returns (n: nat)
    requires |p| > 0 && p[0] == LazyCapture && Matches(p, u, g)
    ensures 1 <= n <= |u| && NoLineTerminator(u[..n]) && |g| > 0 && Matches(p[1..], u[n..], g[1..])
  {
    n :| 1 <= n <= |u| && NoLineTerminator(u[..n]) && g[0] == u[..n] && Matches(p[1..], u[n..], g[1..]);
  }

  /** A literal at `i` followed by a match of the rest. */
  lemma LitThen(p: Pattern, s: string, i: nat)
    requires |p| > 0 && p[0].Lit? && OccursAt(s, p[0].text, i)
    requires MatchAt(p[1..], s, i + |p[0].text|).Some?
    ensures MatchAt(p, s, i).Some?
  {
  }

  /** `(.+?)` at `i`: when the rest matches after a capture ending at `k`
      without a line terminator, the widening capture finds a match. */
  lemma LazyThen(p: Pattern, s: string, i: nat, k: nat)
    requires |p| > 0 && p[0] == LazyCapture
    requires i < k <= |s| && NoLineTerminator(s[i..k]) && MatchAt(p[1..], s, k).Some?
    ensures MatchAt(p, s, i).Some?
  {
    TryLazyComplete(p[1..], s, i, i + 1, k);
  }

  /** `\s*` at `i`: when the rest matches after a run of spaces ending at
      `k`, the greedy run reaches `k` and the search finds a match. */
  lemma SpacesThen(p: Pattern, s: string, i: nat, k: nat)
    requires |p| > 0 && p[0] == Spaces
    requires i <= k <= |s| && AllSpace(s[i..k]) && MatchAt(p[1..], s, k).Some?
    ensures MatchAt(p, s, i).Some?
  {
    var e := SpaceRunEnd(s, i);
    SpaceRunCovers(s, i, k);
    TrySpacesComplete(p[1..], s, i, e, k);
  }

  /** Giving back spaces one by one reaches every shorter run where the rest matches. */
  lemma {:induction false} TrySpacesComplete(rest: Pattern, s: string, i: nat, k: nat, k0: nat)
    requires i <= k0 <= k <= |s| && MatchAt(rest, s, k0).Some?
    ensures TrySpaces(rest, s, i, k).Some?
    decreases k
  {
    if MatchAt(rest, s, k).None? {
      TrySpacesComplete(rest, s, i, k - 1, k0);
    }
  }

  /** Widening the capture one character at a time reaches every longer
      capture without a line terminator where the rest matches. */
  lemma {:induction false} TryLazyComplete(rest: Pattern, s: string, i: nat, e: nat, e0: nat)
    requires i < e <= e0 <= |s| && NoLineTerminator(s[i..e0]) && MatchAt(rest, s, e0).Some?
    ensures TryLazy(rest, s, i, e).Some?
    decreases e0 - e
  {
    assert s[e - 1] == s[i..e0][e - 1 - i];
    if MatchAt(rest, s, e).None? {
      TryLazyComplete(rest, s, i, e + 1, e0);
    }
  }

  /** The scan misses nothing: when the pattern's language has a string at
      position `i` at or after `from`, the search reports a match that starts
      no later than `i`. */
  lemma FindMatchComplete(p: Pattern, s: string, from: nat, i: nat, j: nat, g: seq<string>)
    requires from <= i <= j <= |s| && Matches(p, s[i..j], g)
    ensures FindMatch(p, s, from).Some? && FindMatch(p, s, from).value.start <= i
  {
    MatchAtComplete(p, s, i, j, g);
  }
}
