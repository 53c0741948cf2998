/** `renderCopyEdit` in the browser client: the model's reply is cut at the
    first `---ISSUES---` (in any letter case); every `[[ISSUE: text]]` marker in
    the article part is numbered by its normalised text (trimmed, lower-cased),
    a new text taking the next number and a repeated one the number it got
    first; the issues part is parsed by a strict, then a looser expression, and
    as a last resort by taking its numbered lines. */
module CopyEdit {
  import opened Text
  import opened Regex
  import opened JsNumbers
  import Html

  const IssuesSeparator := "---issues---"

  /** `/\[\[ISSUE:\s*(.+?)\]\]/g` */
  const IssuePattern: Pattern := [Lit("[[ISSUE:"), Spaces, LazyCapture, Lit("]]")]

  lemma IssuePatternShape()
    ensures Anchored(IssuePattern) && CaptureCount(IssuePattern) == 1
  {
    assert IssuePattern[1..][1..] == [LazyCapture, Lit("]]")];
  }

  // ---- the reply's two parts ----

  /** `text.split(/---ISSUES---/i)`: the text before the first separator, and
      the segment after it up to the next separator (or `''` when there is none). */
  function ReplyParts(text: string): (parts: (string, string))
  {
    var low := Lower(text);
    match Find(low, IssuesSeparator)
    case None => (text, "")
    case Some(i) =>
      var rest := text[i + |IssuesSeparator|..];
      match Find(Lower(rest), IssuesSeparator)
      case None => (text[..i], rest)
      case Some(j) => (text[..i], rest[..j])
  }

  /** The parts agree with splitting the lower-cased reply on the lower-case
      separator: case is ignored, and only the first two pieces are used. */
  lemma ReplyPartsAreSplitPieces(text: string)
    ensures Lower(ReplyParts(text).0) == Split(Lower(text), IssuesSeparator)[0]
    ensures Lower(ReplyParts(text).1) ==
              (if |Split(Lower(text), IssuesSeparator)| > 1 then Split(Lower(text), IssuesSeparator)[1] else "")
  {
    var low := Lower(text);
    var n := |IssuesSeparator|;
    match Find(low, IssuesSeparator)
    case None =>
    case Some(i) =>
      var rest := text[i + n..];
      LowerSlice(text, 0, i);
      LowerSlice(text, i + n, |text|);
      assert Lower(rest) == low[i + n..];
      assert Split(low, IssuesSeparator) == [low[..i]] + Split(low[i + n..], IssuesSeparator);
      match Find(Lower(rest), IssuesSeparator)
      case None =>
      case Some(j) =>
        LowerSlice(rest, 0, j);
  }

  /** The article part rendered by the client: the first piece, trimmed. */
  function ArticlePart(text: string): string {
    Trim(ReplyParts(text).0)
  }

  function IssuesPart(text: string): string {
    ReplyParts(text).1
  }

  // ---- numbering the markers ----

  /** The key a marker is numbered by: `problemText.trim().toLowerCase()`. */
  function Normalize(capture: string): string {
    Lower(Trim(capture))
  }

  function Keys(captures: seq<string>): (keys: seq<string>)
    ensures |keys| == |captures|
    ensures forall i :: 0 <= i < |captures| ==> keys[i] == Normalize(captures[i])
  {
    seq(|captures|, i requires 0 <= i < |captures| => Normalize(captures[i]))
  }

  /** The trimmed text of each marker. */
  function Texts(captures: seq<string>): (texts: seq<string>)
    ensures |texts| == |captures|
    ensures forall i :: 0 <= i < |captures| ==> texts[i] == Trim(captures[i])
  {
    seq(|captures|, i requires 0 <= i < |captures| => Trim(captures[i]))
  }

  /** The distinct keys, in order of first appearance. */
  function Distinct(keys: seq<string>): (d: seq<string>)
    decreases |keys|
    ensures forall x :: x in d <==> x in keys
    ensures forall m, n :: 0 <= m < n < |d| ==> d[m] != d[n]
    ensures |d| <= |keys|
  {
    if keys == [] then []
    else
      var d := Distinct(AllButLast(keys));
      assert forall x :: x in keys <==> x in AllButLast(keys) || x == Last(keys) by {
        assert keys == AllButLast(keys) + [Last(keys)];
      }
      if Last(keys) in d then d else d + [Last(keys)]
  }

  /** The position of `x` in a sequence without repetitions. */
  function IndexOf(d: seq<string>, x: string): (m: nat)
    requires x in d
    ensures m < |d| && d[m] == x
  {
    if d[0] == x then 0 else 1 + IndexOf(d[1..], x)
  }

  lemma IndexOfUnique(d: seq<string>, m: nat)
    requires m < |d| && forall i, j :: 0 <= i < j < |d| ==> d[i] != d[j]
    ensures IndexOf(d, d[m]) == m
  {
  }

  /** The number the marker at position `i` receives. */
  function Number(keys: seq<string>, i: nat): nat
    requires i < |keys|
  {
    IndexOf(Distinct(keys), keys[i]) + 1
  }

  /** The position of the first marker with key `x`. */
  function FirstIndex(keys: seq<string>, x: string): (i: nat)
    requires x in keys
    ensures i < |keys| && keys[i] == x && x !in keys[..i]
  {
    if keys[0] == x then 0
    else
      var i := 1 + FirstIndex(keys[1..], x);
      assert keys[..i] == [keys[0]] + keys[1..][..i - 1];
      i
  }

  /** Numbers run from 1 to the number of distinct keys, and two markers share a
      number exactly when their keys are equal. */
  lemma NumbersAreConsistent(keys: seq<string>, i: nat, j: nat)
    requires i < |keys| && j < |keys|
    ensures 1 <= Number(keys, i) <= |Distinct(keys)|
    ensures Number(keys, i) == Number(keys, j) <==> keys[i] == keys[j]
  {
    var d := Distinct(keys);
    if Number(keys, i) == Number(keys, j) {
      assert d[IndexOf(d, keys[i])] == keys[i];
    }
  }

  /** Appending a key extends the distinct keys by it exactly when it is new. */
  lemma DistinctSnoc(keys: seq<string>, x: string)
    ensures Distinct(keys + [x]) == if x in keys then Distinct(keys) else Distinct(keys) + [x]
  {
    assert AllButLast(keys + [x]) == keys;
  }

  /** The distinct keys of a prefix are a prefix of the distinct keys. */
  lemma {:induction false} DistinctOfPrefix(keys: seq<string>, k: nat)
    requires k <= |keys|
    ensures Distinct(keys[..k]) <= Distinct(keys)
    decreases |keys| - k
  {
    if k < |keys| {
      DistinctOfPrefix(keys, k + 1);
      assert keys[..k + 1] == keys[..k] + [keys[k]];
      DistinctSnoc(keys[..k], keys[k]);
    } else {
      assert keys[..k] == keys;
    }
  }

  lemma IndexOfInPrefix(d: seq<string>, e: seq<string>, x: string)
    requires d <= e && x in d
    ensures x in e && IndexOf(e, x) == IndexOf(d, x)
  {
    if d[0] != x {
      IndexOfInPrefix(d[1..], e[1..], x);
    }
  }

  /** Numbers are handed out 1, 2, 3, ... in order of first appearance: a key
      seen for the first time at `i` gets one more than the number of distinct
      keys before it, and a repeated key gets the number of its first marker. */
  lemma {:induction false} NumberAtFirstAppearance(keys: seq<string>, i: nat)
    requires i < |keys|
    ensures keys[i] !in keys[..i] ==> Number(keys, i) == |Distinct(keys[..i])| + 1
    ensures keys[i] in keys[..i] ==>
              Number(keys, i) == Number(keys, FirstIndex(keys[..i], keys[i]))
  {
    var x := keys[i];
    var d := Distinct(keys);
    DistinctOfPrefix(keys, i + 1);
    assert keys[..i + 1] == keys[..i] + [x];
    DistinctSnoc(keys[..i], x);
    if x !in keys[..i] {
      var di := Distinct(keys[..i]);
      assert (di + [x])[|di|] == x;
      IndexOfUnique(d, |di|);
    }
  }

  /** The first markers of the distinct keys come in the order of their numbers. */
  lemma FirstAppearancesInOrder(keys: seq<string>, m: nat, n: nat)
    requires m < n < |Distinct(keys)|
    ensures FirstIndex(keys, Distinct(keys)[m]) < FirstIndex(keys, Distinct(keys)[n])
  {
    var d := Distinct(keys);
    var i, j := FirstIndex(keys, d[m]), FirstIndex(keys, d[n]);
    if j <= i {
      // d[n] is among the keys before d[m]'s first marker, so it was numbered earlier
      DistinctOfPrefix(keys, i);
      var di := Distinct(keys[..i]);
      if j < i {
        assert keys[..i][j] == d[n];
        IndexOfInPrefix(di, d, d[n]);
        IndexOfUnique(d, n);
        NumberAtFirstAppearance(keys, i);
        IndexOfUnique(d, m);
      }
    }
  }

  datatype UniqueIssue = UniqueIssue(num: nat, text: string)

  function IssueSpan(capture: string, num: nat): string {
    "<span class=\"edit-issue\" title=\"See issue #" + NatToString(num) + "\">"
      + Html.EscapeHtml(capture) + "</span><sup>[" + NatToString(num) + "]</sup>"
  }

  function Captures(ms: seq<Match>): (caps: seq<string>)
    requires forall k :: 0 <= k < |ms| ==> |ms[k].groups| == 1
    ensures |caps| == |ms|
  {
    seq(|ms|, k requires 0 <= k < |ms| => ms[k].groups[0])
  }

  /** The markers `issueRegex` finds in the article, in order. */
  function IssueMatches(article: string): (ms: seq<Match>)
    ensures Ordered(article, 0, ms)
    ensures forall k :: 0 <= k < |ms| ==> |ms[k].groups| == 1
  {
    IssuePatternShape();
    Scan(IssuePattern, article)
  }

  /** The captured text of each marker. */
  function MarkerTexts(article: string): seq<string> {
    Captures(IssueMatches(article))
  }

  /** The article with each marker replaced by its numbered span. */
  function MarkedArticle(article: string): string {
    var ms := IssueMatches(article);
    Rebuild(article, 0, ms, Labels(Captures(ms)))
  }

  function Labels(caps: seq<string>): (labels: seq<string>)
    ensures |labels| == |caps|
  {
    seq(|caps|, k requires 0 <= k < |caps| => IssueSpan(caps[k], Number(Keys(caps), k)))
  }

  /** The state of the marker pass after the markers with captures `c`:
      `nums` holds each marker's number, `unique` one entry per distinct key in
      order of first appearance (its number and the trimmed text of its first
      marker), `seen` maps every key to its number and `next` is the number the
      next new key will get. */
  ghost predicate Numbered(c: seq<string>, nums: seq<nat>, unique: seq<UniqueIssue>, seen: map<string, nat>, next: nat)
  {
    State(Keys(c), Texts(c), nums, unique, seen, next)
  }

  ghost predicate State(keys: seq<string>, texts: seq<string>, nums: seq<nat>, unique: seq<UniqueIssue>, seen: map<string, nat>, next: nat)
  {
    && NumsOk(keys, nums) && UniqueOk(keys, texts, unique) && SeenOk(keys, seen)
    && |seen| == |unique| && next == |unique| + 1
  }

  /** One marker whose key was seen before. */
  lemma MarkerStepSeen(keys: seq<string>, texts: seq<string>, key: string, x: string,
                       nums: seq<nat>, unique: seq<UniqueIssue>, seen: map<string, nat>, next: nat)
    requires key in seen
    requires State(keys, texts, nums, unique, seen, next)
    ensures seen[key] == Number(keys + [key], |keys|)
    ensures State(keys + [key], texts + [x], nums + [seen[key]], unique, seen, next)
  {
    NumberOfNewMarker(keys, key, seen);
    NumsStep(keys, key, nums);
    UniqueStepSeen(keys, key, texts, x, unique);
    SeenStepSeen(keys, key, seen);
  }

  /** One marker with a new key. */
  lemma MarkerStepNew(keys: seq<string>, texts: seq<string>, key: string, x: string,
                      nums: seq<nat>, unique: seq<UniqueIssue>, seen: map<string, nat>, next: nat)
    requires key !in seen
    requires State(keys, texts, nums, unique, seen, next)
    ensures next == Number(keys + [key], |keys|)
    ensures State(keys + [key], texts + [x], nums + [next],
                  unique + [UniqueIssue(next, x)], seen[key := next], next + 1)
  {
    var keys' := keys + [key];
    assert next == |Distinct(keys)| + 1;
    NumberOfNewMarker(keys, key, seen);
    assert NumsOk(keys', nums + [next]) by {
      NumsStep(keys, key, nums);
    }
    assert UniqueOk(keys', texts + [x], unique + [UniqueIssue(next, x)]) by {
      UniqueStepNew(keys, key, texts, x, unique);
    }
    assert SeenOk(keys', seen[key := next]) by {
      SeenStepNew(keys, key, seen);
    }
    assert |seen[key := next]| == |seen| + 1;
  }

  ghost predicate NumsOk(keys: seq<string>, nums: seq<nat>) {
    |nums| == |keys| && forall i :: 0 <= i < |keys| ==> nums[i] == Number(keys, i)
  }

  ghost predicate UniqueOk(keys: seq<string>, texts: seq<string>, unique: seq<UniqueIssue>) {
    var d := Distinct(keys);
    |texts| == |keys| && |unique| == |d| &&
    forall m :: 0 <= m < |d| ==> unique[m] == UniqueIssue(m + 1, texts[FirstIndex(keys, d[m])])
  }

  ghost predicate SeenOk(keys: seq<string>, seen: map<string, nat>) {
    (forall y :: y in seen <==> y in keys) && Positions(Distinct(keys), seen)
  }

  /** Each distinct key maps to its 1-based position. */
  ghost predicate Positions(d: seq<string>, seen: map<string, nat>) {
    forall m :: 0 <= m < |d| ==> d[m] in seen && seen[d[m]] == m + 1
  }

  lemma PositionsSnoc(d: seq<string>, key: string, seen: map<string, nat>)
    requires Positions(d, seen) && key !in seen
    ensures Positions(d + [key], seen[key := |d| + 1])
  {
    var d' := d + [key];
    forall m | 0 <= m < |d'| ensures d'[m] in seen[key := |d| + 1] && seen[key := |d| + 1][d'[m]] == m + 1 {
      if m < |d| {
        assert d'[m] == d[m];
      }
    }
  }

  /** The label of the marker at `k` is its span with the number it receives. */
  lemma LabelAt(caps: seq<string>, k: nat, num: nat)
    requires k < |caps| && num == Number(Keys(caps)[..k + 1], k)
    ensures Labels(caps)[k] == IssueSpan(caps[k], num)
  {
    NumberOfPrefix(Keys(caps), k + 1, k);
  }

  /** Earlier numbers stay as they were, whatever number the new marker gets. */
  lemma NumsStep(keys: seq<string>, key: string, nums: seq<nat>)
    requires NumsOk(keys, nums)
    ensures NumsOk(keys + [key], nums + [Number(keys + [key], |keys|)])
  {
    var keys' := keys + [key];
    assert keys'[..|keys|] == keys;
    forall i | 0 <= i < |keys| ensures Number(keys', i) == Number(keys, i) {
      NumberOfPrefix(keys', |keys|, i);
    }
  }

  /** The number of the new marker: the one in `seen` for a known key, else `next`. */
  lemma NumberOfNewMarker(keys: seq<string>, key: string, seen: map<string, nat>)
    requires SeenOk(keys, seen)
    ensures key in seen ==> Number(keys + [key], |keys|) == seen[key]
    ensures key !in seen ==> Number(keys + [key], |keys|) == |Distinct(keys)| + 1
  {
    DistinctSnoc(keys, key);
    var d, ks := Distinct(keys), keys + [key];
    assert ks[|keys|] == key;
    if key in seen {
      var m := IndexOf(d, key);
      IndexOfUnique(d, m);
      assert Distinct(ks) == d && seen[d[m]] == m + 1;
    } else {
      IndexOfUnique(d + [key], |d|);
      assert Distinct(ks) == d + [key] && (d + [key])[|d|] == key;
    }
  }

  lemma UniqueStepSeen(keys: seq<string>, key: string, c: seq<string>, x: string, unique: seq<UniqueIssue>)
    requires UniqueOk(keys, c, unique) && key in keys
    ensures UniqueOk(keys + [key], c + [x], unique)
  {
    var keys' := keys + [key];
    DistinctSnoc(keys, key);
    var d := Distinct(keys);
    assert keys'[..|keys|] == keys;
    forall m | 0 <= m < |d|
      ensures unique[m] == UniqueIssue(m + 1, (c + [x])[FirstIndex(keys', d[m])])
    {
      var i := FirstIndex(keys, d[m]);
      FirstIndexOfPrefix(keys', |keys|, d[m]);
      assert (c + [x])[i] == c[i];
    }
  }

  lemma UniqueStepNew(keys: seq<string>, key: string, c: seq<string>, x: string, unique: seq<UniqueIssue>)
    requires UniqueOk(keys, c, unique) && key !in keys
    ensures UniqueOk(keys + [key], c + [x], unique + [UniqueIssue(|unique| + 1, x)])
  {
    var keys', c' := keys + [key], c + [x];
    var unique' := unique + [UniqueIssue(|unique| + 1, x)];
    DistinctSnoc(keys, key);
    var d := Distinct(keys);
    var d' := d + [key];
    assert keys'[..|keys|] == keys;
    forall m | 0 <= m < |d'|
      ensures unique'[m] == UniqueIssue(m + 1, c'[FirstIndex(keys', d'[m])])
    {
      if m < |d| {
        assert d'[m] == d[m] && d[m] in keys;
        FirstIndexOfPrefix(keys', |keys|, d[m]);
        assert c'[FirstIndex(keys, d[m])] == c[FirstIndex(keys, d[m])];
      } else {
        FirstIndexOfNew(keys', key);
      }
    }
  }

  lemma SeenStepNew(keys: seq<string>, key: string, seen: map<string, nat>)
    requires SeenOk(keys, seen) && key !in seen
    ensures SeenOk(keys + [key], seen[key := |Distinct(keys)| + 1])
  {
    DistinctSnoc(keys, key);
    var keys' := keys + [key];
    PositionsSnoc(Distinct(keys), key, seen);
    forall y ensures y in seen[key := |Distinct(keys)| + 1] <==> y in keys' {
      assert y in keys' <==> y in keys || y == key;
    }
  }

  lemma SeenStepSeen(keys: seq<string>, key: string, seen: map<string, nat>)
    requires SeenOk(keys, seen) && key in seen
    ensures SeenOk(keys + [key], seen)
  {
    DistinctSnoc(keys, key);
  }

  lemma FirstIndexOfNew(keys: seq<string>, x: string)
    requires |keys| > 0 && Last(keys) == x && x !in AllButLast(keys)
    ensures FirstIndex(keys, x) == |keys| - 1
  {
    assert forall j :: 0 <= j < |keys| - 1 ==> keys[j] == AllButLast(keys)[j];
  }

  lemma {:induction false} FirstIndexOfPrefix(keys: seq<string>, k: nat, x: string)
    requires k <= |keys| && x in keys[..k]
    ensures x in keys && FirstIndex(keys, x) == FirstIndex(keys[..k], x)
  {
    if keys[0] != x {
      assert keys[..k][1..] == keys[1..][..k - 1];
      FirstIndexOfPrefix(keys[1..], k - 1, x);
    }
  }

  /** A marker's number does not change when later markers are processed. */
  lemma NumberOfPrefix(keys: seq<string>, k: nat, i: nat)
    requires i < k <= |keys|
    ensures Number(keys[..k], i) == Number(keys, i)
  {
    DistinctOfPrefix(keys, k);
    IndexOfInPrefix(Distinct(keys[..k]), Distinct(keys), keys[i]);
  }

  /** One call of the replace callback: the marker's number, and the state it leaves. */
  method NumberMarker(ghost done: seq<string>, ghost doneTexts: seq<string>, problemText: string,
                      nums: seq<nat>, unique: seq<UniqueIssue>, seen: map<string, nat>, next: nat)
    returns (num: nat, nums': seq<nat>, unique': seq<UniqueIssue>, seen': map<string, nat>, next': nat)
    requires State(done, doneTexts, nums, unique, seen, next)
    ensures num == Number(done + [Normalize(problemText)], |done|)
    ensures State(done + [Normalize(problemText)], doneTexts + [Trim(problemText)], nums', unique', seen', next')
  {
    var key := Lower(Trim(problemText));
    if key in seen {
      num := seen[key];
      MarkerStepSeen(done, doneTexts, key, Trim(problemText), nums, unique, seen, next);
      unique', seen', next' := unique, seen, next;
    } else {
      num := next;
      MarkerStepNew(done, doneTexts, key, Trim(problemText), nums, unique, seen, next);
      next' := next + 1;
      seen' := seen[key := num];
      unique' := unique + [UniqueIssue(num, Trim(problemText))];
    }
    nums' := nums + [num];
  }

  method NumberIssues(article: string)
    returns (html: string, nums: seq<nat>, unique: seq<UniqueIssue>, seen: map<string, nat>, next: nat)
    ensures html == MarkedArticle(article)
    ensures Numbered(MarkerTexts(article), nums, unique, seen, next)
  {
    var ms := IssueMatches(article);
    html, nums, unique, seen, next := ReplaceMarkers(article, ms);
  }

  method ReplaceMarkers(article: string, ms: seq<Match>)
    returns (html: string, nums: seq<nat>, unique: seq<UniqueIssue>, seen: map<string, nat>, next: nat)
    requires Ordered(article, 0, ms) && forall k :: 0 <= k < |ms| ==> |ms[k].groups| == 1
    ensures html == Rebuild(article, 0, ms, Labels(Captures(ms)))
    ensures Numbered(Captures(ms), nums, unique, seen, next)
  {
    ghost var caps := Captures(ms);
    ghost var keys := Keys(caps);
    ghost var texts := Texts(caps);
    ghost var labels := Labels(caps);
    html, nums, unique, seen, next := "", [], [], map[], 1;
    var pos: nat := 0;
    var k := 0;
    ReplacedStart(article, ms, labels);
    while k < |ms|
      invariant k <= |ms|
      invariant Replaced(article, ms, labels, k, pos, html)
      invariant State(keys[..k], texts[..k], nums, unique, seen, next)
    {
      var m := ms[k];
      var problemText := m.groups[0];
      var num;
      num, nums, unique, seen, next := NumberMarker(keys[..k], texts[..k], problemText, nums, unique, seen, next);
      TakeSnoc(keys, k);
      TakeSnoc(texts, k);
      LabelAt(caps, k, num);
      ReplacedStep(article, ms, labels, k, pos, html);
      html := html + article[pos..m.start] + IssueSpan(problemText, num);
      pos := m.end;
      k := k + 1;
    }
    ReplacedEnd(article, ms, labels, pos, html);
    html := html + article[pos..];
    TakeAll(texts);
    TakeAll(keys);
  }

  /** What the pass guarantees: one unique issue per distinct key, numbered
      1, 2, 3, ... in order of first appearance; the map holds as many keys and
      the counter is one past the last number; every marker's number lies in
      range, and two markers share a number exactly when their keys agree. */
  lemma NumberedFacts(c: seq<string>, nums: seq<nat>, unique: seq<UniqueIssue>, seen: map<string, nat>, next: nat)
    requires Numbered(c, nums, unique, seen, next)
    ensures |unique| == |seen| == next - 1 == |Distinct(Keys(c))|
    ensures forall m :: 0 <= m < |unique| ==> unique[m].num == m + 1
    ensures |nums| == |c|
    ensures forall i :: 0 <= i < |c| ==> 1 <= nums[i] <= |seen|
    ensures forall i, j :: 0 <= i < |c| && 0 <= j < |c| ==> (nums[i] == nums[j] <==> Normalize(c[i]) == Normalize(c[j]))
  {
    var keys := Keys(c);
    forall i, j | 0 <= i < |c| && 0 <= j < |c|
      ensures 1 <= nums[i] <= |seen|
      ensures nums[i] == nums[j] <==> Normalize(c[i]) == Normalize(c[j])
    {
      NumbersAreConsistent(keys, i, j);
    }
  }

  /** A marker whose key is new gets the next number; a repeated key gets the
      number of its first marker. */
  lemma NumberedFirstAppearance(c: seq<string>, nums: seq<nat>, unique: seq<UniqueIssue>, seen: map<string, nat>, next: nat, i: nat)
    requires Numbered(c, nums, unique, seen, next) && i < |c|
    ensures Keys(c)[i] !in Keys(c)[..i] ==> nums[i] == |Distinct(Keys(c)[..i])| + 1
    ensures Keys(c)[i] in Keys(c)[..i] ==> nums[i] == nums[FirstIndex(Keys(c)[..i], Keys(c)[i])]
  {
    NumberAtFirstAppearance(Keys(c), i);
  }

  // ---- the issues list ----

  /** One entry of the issues list: its index as written, the original text,
      the fix and the reason. */
  datatype Issue = Issue(index: string, original: string, fix: string, reason: string)

  /** `/^\d+\./.test(s)`: the text starts with digits and a full stop. */
  predicate IsNumbered(s: string) {
    var e := DigitRunEnd(s, 0);
    0 < e < |s| && s[e] == '.'
  }

  /** `line.replace(/^\d+\.\s*\/, '')`: the leading index, its full stop and the
      white space after it are removed; other lines are left as they are. */
  function StripIndex(line: string): (r: string)
    ensures |r| <= |line| && r == line[|line| - |r|..]
    ensures !IsNumbered(line) ==> r == line
    ensures IsNumbered(line) ==> |r| < |line| && (r == [] || !IsSpace(r[0]))
  {
    if IsNumbered(line) then line[SpaceRunEnd(line, DigitRunEnd(line, 0) + 1)..] else line
  }

  /** A line written as index, full stop, white space and reason gives the reason back. */
  lemma StripIndexOf(digits: string, pad: string, reason: string)
    requires |digits| > 0 && AllDigits(digits) && AllSpace(pad)
    requires reason == [] || !IsSpace(reason[0])
    ensures StripIndex(digits + "." + pad + reason) == reason
  {
    var line := digits + "." + pad + reason;
    DigitRunOfPrefix(digits, "." + pad + reason);
    AppendAssoc(digits, ".", pad + reason);
    AppendAssoc(digits + ".", pad, reason);
    assert line == digits + ("." + pad + reason);
    assert line[|digits|] == '.';
    SpaceRunOfPrefix(digits + ".", pad, reason);
    assert line[|digits| + 1 + |pad|..] == reason;
  }

  lemma {:induction false} DigitRunOfPrefix(d: string, rest: string)
    requires AllDigits(d) && (rest == [] || !IsDigit(rest[0]))
    ensures DigitRunEnd(d + rest, 0) == |d|
  {
    DigitRunOfDigits(d, rest);
  }

  lemma {:induction false} SpaceRunOfPrefix(a: string, pad: string, rest: string)
    requires AllSpace(pad) && (rest == [] || !IsSpace(rest[0]))
    ensures SpaceRunEnd(a + pad + rest, |a|) == |a| + |pad|
    decreases |pad|
  {
    var s := a + pad + rest;
    if pad == [] {
      assert s == a + rest;
      if rest != [] {
        assert s[|a|] == rest[0];
      }
    } else {
      assert s[|a|] == pad[0];
      assert s == (a + [pad[0]]) + pad[1..] + rest;
      SpaceRunOfPrefix(a + [pad[0]], pad[1..], rest);
    }
  }

  /** `lines.filter(l => /^\d+\./.test(l.trim()))`. */
  function NumberedLines(lines: seq<string>): (r: seq<string>)
    ensures |r| <= |lines|
    ensures forall x :: x in r <==> x in lines && IsNumbered(Trim(x))
  {
    if lines == [] then []
    else
      var r := NumberedLines(AllButLast(lines));
      assert forall x :: x in lines <==> x in AllButLast(lines) || x == Last(lines) by {
        assert lines == AllButLast(lines) + [Last(lines)];
      }
      if IsNumbered(Trim(Last(lines))) then r + [Last(lines)] else r
  }

  /** The lines the last-resort parse keeps: the numbered lines of the trimmed issues text. */
  function FallbackLines(issuesText: string): seq<string> {
    NumberedLines(Split(Trim(issuesText), "\n"))
  }

  /** The entries of the last-resort parse: the kept lines re-indexed from 1,
      each reason being its line without the index. */
  function FallbackEntries(lines: seq<string>): seq<Issue> {
    seq(|lines|, i requires 0 <= i < |lines| => Issue(NatToString(i + 1), "", "", StripIndex(lines[i])))
  }

  /** `lines.forEach((line, i) => issues.push(...))`. */
  method Fallback(issuesText: string) returns (issues: seq<Issue>)
    ensures issues == FallbackEntries(FallbackLines(issuesText))
  {
    var lines := NumberedLines(Split(Trim(issuesText), "\n"));
    ghost var spec := FallbackEntries(lines);
    issues := [];
    var i := 0;
    while i < |lines|
      invariant 0 <= i <= |lines| && issues == spec[..i]
    {
      issues := issues + [Issue(NatToString(i + 1), "", "", StripIndex(lines[i]))];
      TakeSnoc(spec, i);
      i := i + 1;
    }
    TakeAll(spec);
  }

  /** The fallback indexes read back as 1, 2, 3, ...: the displayed `[n]` is the
      entry's position. */
  lemma FallbackIndexes(lines: seq<string>, i: nat)
    requires i < |lines|
    ensures |FallbackEntries(lines)| == |lines|
    ensures ParseInt(FallbackEntries(lines)[i].index) == Some(i + 1)
    ensures FallbackEntries(lines)[i].original == FallbackEntries(lines)[i].fix == ""
    ensures FallbackEntries(lines)[i].reason == StripIndex(lines[i])
  {
    ParseIntOfNatToString(i + 1, "", "");
    assert "" + NatToString(i + 1) + "" == NatToString(i + 1);
  }

  /** Choosing the issues list: the strict parse, replaced by the looser one when
      it found fewer entries than unique markers, and the numbered lines when
      neither found any and the issues text is not blank. `strict` and `loose`
      are the entries the two expressions find in the issues text. */
  method SelectIssues(issuesText: string, strict: seq<Issue>, loose: seq<Issue>, uniqueCount: nat)
    returns (issues: seq<Issue>)
    ensures |strict| >= uniqueCount && strict != [] ==> issues == strict
    ensures |strict| < uniqueCount && loose != [] ==> issues == loose
    ensures (if |strict| < uniqueCount then loose else strict) == [] ==>
              issues == (if Trim(issuesText) == [] then [] else FallbackEntries(FallbackLines(issuesText)))
  {
    issues := strict;
    if |issues| < uniqueCount {
      issues := [];
      issues := issues + loose;
    }
    if |issues| == 0 && Trim(issuesText) != [] {
      issues := Fallback(issuesText);
    }
  }

  /** `renderCopyEdit(text)`: the article part with its markers replaced and its
      line breaks turned into `<br>`, the marker pass's final state, and the
      issues list, shown exactly when it is not empty. `strictParse` and
      `looseParse` stand for the two issue expressions; the looser one is
      consulted only when the strict one found fewer entries than unique markers. */
  method RenderCopyEdit(text: string, strictParse: string -> seq<Issue>, looseParse: string -> seq<Issue>)
    returns (output: string, nums: seq<nat>, unique: seq<UniqueIssue>, seen: map<string, nat>, next: nat,
             issues: seq<Issue>, showIssues: bool)
    ensures output == Html.BreakLines(MarkedArticle(ArticlePart(text)))
    ensures Numbered(MarkerTexts(ArticlePart(text)), nums, unique, seen, next)
    ensures var strict := strictParse(IssuesPart(text));
            && (|strict| >= |seen| && strict != [] ==> issues == strict)
            && (|strict| < |seen| && looseParse(IssuesPart(text)) != [] ==> issues == looseParse(IssuesPart(text)))
            && ((if |strict| < |seen| then looseParse(IssuesPart(text)) else strict) == [] ==>
                  issues == (if Trim(IssuesPart(text)) == [] then []
                             else FallbackEntries(FallbackLines(IssuesPart(text)))))
    ensures showIssues <==> |issues| > 0
  {
    var parts := ReplyParts(text);
    var articleText := Trim(parts.0);
    var issuesText := parts.1;
    var html;
    html, nums, unique, seen, next := NumberIssues(articleText);
    output := Html.BreakLines(html);
    var strict := strictParse(issuesText);
    var loose := if |strict| < |seen| then looseParse(issuesText) else [];
    issues := SelectIssues(issuesText, strict, loose, |seen|);
    showIssues := |issues| > 0;
  }
}
