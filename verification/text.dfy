/** String primitives with JavaScript's meaning: white space as `\s` and
    `String.prototype.trim` see it, ASCII case folding, `indexOf`, `includes`,
    `split` with a string separator and `join`. */
module Text {

  /** The code points JavaScript's `\s` class and `trim` treat as white space
      (WhiteSpace and LineTerminator of ECMA-262). */
  predicate IsSpace(c: char) {
    || c == ' ' || c == '\t' || c == '\n' || c == '\r' || c == '\U{000B}' || c == '\U{000C}'
    || c == '\U{00A0}' || c == '\U{1680}' || ('\U{2000}' <= c <= '\U{200A}')
    || c == '\U{2028}' || c == '\U{2029}' || c == '\U{202F}' || c == '\U{205F}'
    || c == '\U{3000}' || c == '\U{FEFF}'
  }

  /** The characters a regular-expression `.` does not match. */
  predicate IsLineTerminator(c: char) {
    c == '\n' || c == '\r' || c == '\U{2028}' || c == '\U{2029}'
  }

  /** `\d`: ASCII digits only. */
  predicate IsDigit(c: char) {
    '0' <= c <= '9'
  }

  predicate AllDigits(s: string) {
    forall i :: 0 <= i < |s| ==> IsDigit(s[i])
  }

  predicate AllSpace(s: string) {
    forall i :: 0 <= i < |s| ==> IsSpace(s[i])
  }

  function LowerChar(c: char): (d: char)
    ensures 'A' <= c <= 'Z' ==> d as int == c as int + 32
    ensures !('A' <= c <= 'Z') ==> d == c
  {
    if 'A' <= c <= 'Z' then (c as int + 32) as char else c
  }

  /** ASCII lower-casing, character by character. */
  function Lower(s: string): (r: string)
    ensures |r| == |s|
    ensures forall i :: 0 <= i < |s| ==> r[i] == LowerChar(s[i])
  {
    seq(|s|, i requires 0 <= i < |s| => LowerChar(s[i]))
  }

  lemma LowerAppend(a: string, b: string)
    ensures Lower(a + b) == Lower(a) + Lower(b)
  {
  }

  lemma LowerSlice(s: string, i: nat, j: nat)
    requires i <= j <= |s|
    ensures Lower(s[i..j]) == Lower(s)[i..j]
  {
  }

  /** End of the run of white space that starts at `i`. */
  function SpaceRunEnd(s: string, i: nat): (e: nat)
    requires i <= |s|
    decreases |s| - i
    ensures i <= e <= |s|
    ensures AllSpace(s[i..e])
    ensures e == |s| || !IsSpace(s[e])
  {
    if i < |s| && IsSpace(s[i]) then
      var e := SpaceRunEnd(s, i + 1);
      assert s[i..e] == [s[i]] + s[i + 1..e];
      e
    else i
  }

  /** End of the run of ASCII digits that starts at `i`. */
  function DigitRunEnd(s: string, i: nat): (e: nat)
    requires i <= |s|
    decreases |s| - i
    ensures i <= e <= |s|
    ensures AllDigits(s[i..e])
    ensures e == |s| || !IsDigit(s[e])
  {
    if i < |s| && IsDigit(s[i]) then
      var e := DigitRunEnd(s, i + 1);
      assert s[i..e] == [s[i]] + s[i + 1..e];
      e
    else i
  }

  /** `s` with its leading white space removed. */
  function TrimStart(s: string): (r: string)
    ensures |r| <= |s| && r == s[|s| - |r|..]
    ensures AllSpace(s[..|s| - |r|])
    ensures r == [] || !IsSpace(r[0])
  {
    if |s| > 0 && IsSpace(s[0]) then
      var r := TrimStart(s[1..]);
      assert s[..|s| - |r|] == [s[0]] + s[1..][..|s| - 1 - |r|];
      assert s[|s| - |r|..] == s[1..][|s| - 1 - |r|..];
      r
    else s
  }

  /** `s` with its trailing white space removed. */
  function TrimEnd(s: string): (r: string)
    ensures |r| <= |s| && r == s[..|r|]
    ensures AllSpace(s[|r|..])
    ensures r == [] || !IsSpace(r[|r| - 1])
  {
    if |s| > 0 && IsSpace(s[|s| - 1]) then
      var p := s[..|s| - 1];
      var r := TrimEnd(p);
      assert p[..|r|] == s[..|r|];
      assert s[|r|..] == p[|r|..] + [s[|s| - 1]];
      r
    else s
  }

  /** `r` sits in `s` at `a` with nothing but white space before and after it. */
  predicate Inner(s: string, a: nat, r: string) {
    a + |r| <= |s| && r == s[a..a + |r|] && AllSpace(s[..a]) && AllSpace(s[a + |r|..])
  }

  /** `String.prototype.trim`: the text between the leading and the trailing white space. */
  function Trim(s: string): (r: string)
    ensures |r| <= |s|
    ensures r == [] || (!IsSpace(r[0]) && !IsSpace(r[|r| - 1]))
  {
    var t := TrimStart(s);
    var r := TrimEnd(t);
    assert r != [] ==> r[0] == t[0];
    r
  }

  /** What `Trim` keeps is one slice of its input, with only white space cut on either side. */
  lemma TrimInner(s: string)
    ensures exists a :: Inner(s, a, Trim(s))
  {
    var t := TrimStart(s);
    var r := TrimEnd(t);
    var a := |s| - |t|;
    assert s[a..a + |r|] == t[..|r|];
    assert s[a + |r|..] == t[|r|..];
    assert r == Trim(s);
    assert Inner(s, a, r);
  }

  lemma TrimOfTight(s: string)
    requires s == [] || (!IsSpace(s[0]) && !IsSpace(s[|s| - 1]))
    ensures Trim(s) == s
  {
  }

  lemma TakeAll<T>(s: seq<T>)
    ensures s[..|s|] == s
  {
  }

  lemma TakeSnoc<T>(s: seq<T>, k: nat)
    requires k < |s|
    ensures s[..k + 1] == s[..k] + [s[k]]
  {
  }

  lemma AppendAssoc<T>(a: seq<T>, b: seq<T>, c: seq<T>)
    ensures a + b + c == a + (b + c)
  {
  }

  /** A run of white space from `i` to `k` lies inside the longest one from `i`. */
  lemma {:induction false} SpaceRunCovers(s: string, i: nat, k: nat)
    requires i <= k <= |s| && AllSpace(s[i..k])
    ensures k <= SpaceRunEnd(s, i)
    decreases k - i
  {
    if i < k {
      assert IsSpace(s[i..k][0]);
      assert s[i + 1..k] == s[i..k][1..];
      SpaceRunCovers(s, i + 1, k);
    }
  }

  /** `t` occurs in `s` starting at index `i`. */
  predicate OccursAt(s: string, t: string, i: nat) {
    i + |t| <= |s| && s[i..i + |t|] == t
  }

  lemma SliceOfSlice(s: string, i: nat, j: nat, a: nat, b: nat)
    requires i <= j <= |s| && a <= b <= j - i
    ensures s[i..j][a..b] == s[i + a..i + b]
  {
    assert forall m | 0 <= m < b - a :: s[i..j][a..b][m] == s[i + a + m];
  }

  /** `s.indexOf(t, i)`: the leftmost occurrence of `t` at or after `i`. */
  function FindFrom(s: string, t: string, i: nat): (r: Option<nat>)
    decreases |s| - i
    ensures r.Some? ==> i <= r.value && OccursAt(s, t, r.value)
    ensures r.Some? ==> forall j :: i <= j < r.value ==> !OccursAt(s, t, j)
    ensures r.None? ==> forall j :: i <= j ==> !OccursAt(s, t, j)
  {
    if i + |t| > |s| then None
    else if s[i..i + |t|] == t then Some(i)
    else FindFrom(s, t, i + 1)
  }

  function Find(s: string, t: string): Option<nat> {
    FindFrom(s, t, 0)
  }

  /** `s.includes(t)`. */
  predicate Contains(s: string, t: string) {
    Find(s, t).Some?
  }

  lemma ContainsIff(s: string, t: string)
    ensures Contains(s, t) <==> exists j :: OccursAt(s, t, j)
  {
    if !Contains(s, t) {
      forall j ensures !OccursAt(s, t, j) { }
    }
  }

  lemma ContainsAt(s: string, t: string, j: nat)
    requires OccursAt(s, t, j)
    ensures Contains(s, t)
  {
  }

  lemma NotContainsPart(s: string, t: string, i: nat, j: nat)
    requires i <= j <= |s| && !Contains(s, t)
    ensures !Contains(s[i..j], t)
  {
    if Contains(s[i..j], t) {
      var k := Find(s[i..j], t).value;
      SliceOfSlice(s, i, j, k, k + |t|);
      assert OccursAt(s, t, i + k);
    }
  }

  lemma ContainsExtend(s: string, t: string, u: string)
    requires Contains(s, t)
    ensures Contains(s + u, t) && Contains(u + s, t)
  {
    var k := Find(s, t).value;
    assert (s + u)[k..k + |t|] == s[k..k + |t|];
    assert OccursAt(s + u, t, k);
    assert (u + s)[|u| + k..|u| + k + |t|] == s[k..k + |t|];
    assert OccursAt(u + s, t, |u| + k);
  }

  /** A string without the character `c` contains no string that has `c`. */
  lemma NoCharNoOccurrence(s: string, t: string, c: char, i: nat)
    requires c !in s && c in t
    ensures !OccursAt(s, t, i)
  {
    if i + |t| <= |s| {
      var k :| 0 <= k < |t| && t[k] == c;
      assert s[i..i + |t|][k] == s[i + k] != c;
    }
  }

  /** `s.split(sep)` for a non-empty string separator. */
  function Split(s: string, sep: string): (parts: seq<string>)
    requires |sep| > 0
    decreases |s|
    ensures |parts| >= 1
  {
    match Find(s, sep)
    case None => [s]
    case Some(i) => [s[..i]] + Split(s[i + |sep|..], sep)
  }

  function Last<T>(xs: seq<T>): T
    requires |xs| > 0
  {
    xs[|xs| - 1]
  }

  function AllButLast<T>(xs: seq<T>): seq<T>
    requires |xs| > 0
  {
    xs[..|xs| - 1]
  }

  /** `xs.join(sep)`. */
  function Join(xs: seq<string>, sep: string): string {
    if |xs| == 0 then ""
    else if |xs| == 1 then xs[0]
    else xs[0] + sep + Join(xs[1..], sep)
  }

  /** Splitting loses nothing: joining the parts with the separator gives the input back. */
  lemma {:induction false} JoinSplit(s: string, sep: string)
    requires |sep| > 0
    ensures Join(Split(s, sep), sep) == s
    decreases |s|
  {
    match Find(s, sep)
    case None =>
    case Some(i) =>
      var rest := s[i + |sep|..];
      var tail := Split(rest, sep);
      JoinSplit(rest, sep);
      var parts := [s[..i]] + tail;
      assert Split(s, sep) == parts;
      assert parts[1..] == tail;
      assert Join(parts, sep) == s[..i] + sep + Join(tail, sep);
      assert s[i..i + |sep|] == sep;
      assert s == s[..i] + s[i..i + |sep|] + rest;
  }

  /** No part of a split holds the separator. */
  lemma {:induction false} SplitPartsFree(s: string, sep: string)
    requires |sep| > 0
    ensures forall k :: 0 <= k < |Split(s, sep)| ==> !Contains(Split(s, sep)[k], sep)
    decreases |s|
  {
    match Find(s, sep)
    case None =>
    case Some(i) =>
      var rest := s[i + |sep|..];
      SplitPartsFree(rest, sep);
      NothingBeforeFind(s, sep, i);
  }

  /** The text before the first occurrence of a non-empty `t` does not contain `t`. */
  lemma NothingBeforeFind(s: string, t: string, i: nat)
    requires |t| > 0 && Find(s, t) == Some(i)
    ensures !Contains(s[..i], t)
  {
    var p := s[..i];
    forall j: nat | j + |t| <= |p| ensures !OccursAt(p, t, j) {
      SliceOfSlice(s, 0, i, j, j + |t|);
      assert !OccursAt(s, t, j);
    }
  }

  /** The first occurrence of `t` in `s` stays the first one when more text is appended. */
  lemma FindAppend(s: string, t: string, c: string)
    requires Find(s, t).Some?
    ensures Find(s + c, t) == Find(s, t)
  {
    var i := Find(s, t).value;
    assert (s + c)[i..i + |t|] == s[i..i + |t|];
    forall j | 0 <= j < i ensures !OccursAt(s + c, t, j) {
      assert !OccursAt(s, t, j);
      assert (s + c)[j..j + |t|] == s[j..j + |t|];
    }
    FindFromFirst(s + c, t, 0, i);
  }

  lemma FindFromFirst(s: string, t: string, i: nat, k: nat)
    requires i <= k && OccursAt(s, t, k)
    requires forall j :: i <= j < k ==> !OccursAt(s, t, j)
    ensures FindFrom(s, t, i) == Some(k)
  {

  }

  /** Appending text only re-splits the last part: the complete parts before it stay as they are. */
  lemma {:induction false} SplitAppend(s: string, c: string, sep: string)
    requires |sep| > 0
    ensures Split(s + c, sep) == AllButLast(Split(s, sep)) + Split(Last(Split(s, sep)) + c, sep)
    decreases |s|
  {
    match Find(s, sep)
    case None =>
      assert Split(s, sep) == [s];
      assert AllButLast([s]) + Split(s + c, sep) == Split(s + c, sep);
    case Some(i) =>
      var rest := s[i + |sep|..];
      SplitAt(s, sep, i);
      FindAppend(s, sep, c);
      assert (s + c)[..i] == s[..i] && (s + c)[i + |sep|..] == rest + c;
      SplitAt(s + c, sep, i);
      SplitAppend(rest, c, sep);
      var parts := Split(rest, sep);
      ConsLast(s[..i], parts);
      AppendAssoc([s[..i]], AllButLast(parts), Split(Last(parts) + c, sep));
  }

  /** Splitting at the first occurrence of the separator. */
  lemma SplitAt(s: string, sep: string, i: nat)
    requires |sep| > 0 && Find(s, sep) == Some(i)
    ensures i + |sep| <= |s| && Split(s, sep) == [s[..i]] + Split(s[i + |sep|..], sep)
  {
  }

  lemma ConsLast<T>(x: T, xs: seq<T>)
    requires |xs| > 0
    ensures AllButLast([x] + xs) == [x] + AllButLast(xs) && Last([x] + xs) == Last(xs)
  {
  }

  /** Splitting a join gives the parts back when no part holds the separator's first character. */
  lemma {:induction false} SplitJoin(xs: seq<string>, sep: string)
    requires |sep| > 0 && |xs| > 0
    requires forall k :: 0 <= k < |xs| ==> sep[0] !in xs[k]
    ensures Split(Join(xs, sep), sep) == xs
    decreases |xs|
  {
    var s := Join(xs, sep);
    if |xs| == 1 {
      forall j ensures !OccursAt(s, sep, j) { NoCharNoOccurrence(s, sep, sep[0], j); }
      assert Find(s, sep).None?;
    } else {
      var x := xs[0];
      var rest := Join(xs[1..], sep);
      assert s == x + sep + rest;
      assert s[|x|..|x| + |sep|] == sep;
      forall j | 0 <= j < |x| ensures !OccursAt(s, sep, j) {
        assert s[j] == x[j] != sep[0];
        assert j + |sep| <= |s| ==> s[j..j + |sep|][0] == s[j];
      }
      FindFromFirst(s, sep, 0, |x|);
      assert s[..|x|] == x;
      assert s[|x| + |sep|..] == rest;
      SplitJoin(xs[1..], sep);
      assert xs == [x] + xs[1..];
    }
  }

  /** A header and lines without line breaks, joined into a file, are split
      back apart: `split('\n').slice(1)` gives the lines. */
  lemma LinesReadBack(head: string, rows: seq<string>, nl: string)
    requires nl == "\n" && '\n' !in head && forall i :: 0 <= i < |rows| ==> '\n' !in rows[i]
    ensures Split(Join([head] + rows, nl), nl)[1..] == rows
  {
    var lines := [head] + rows;
    forall k | 0 <= k < |lines| ensures nl[0] !in lines[k] {
      if k > 0 {
        assert lines[k] == rows[k - 1];
      }
    }
    SplitJoin(lines, nl);
  }

  /** JavaScript's `s || d` on strings: the empty string is falsy. */
  function Default(s: string, d: string): (r: string)
    ensures d != "" ==> r != ""
    ensures s != "" ==> r == s
  {
    if s == "" then d else s
  }

  datatype Option<T> = None | Some(value: T) {
    function GetOr(default: T): T {
      if Some? then value else default
    }
  }
}
