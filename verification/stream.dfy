/** The browser client's reader for the server's event stream: decoded text
    arrives in chunks, is appended to a buffer, complete frames are the pieces
    before the last blank line, and each frame that starts with `data: ` has its
    payload dispatched. */
module Stream {
  import opened Text

  const FrameSeparator := "\n\n"
  const DataPrefix := "data: "

  /** The text of the first `n` reads, in order. */
  function Concat(chunks: seq<string>): string {
    if chunks == [] then "" else Concat(AllButLast(chunks)) + Last(chunks)
  }

  /** The payloads dispatched for a run of complete frames: frames without the
      `data: ` prefix are skipped, the others lose those six characters. */
  function Payloads(frames: seq<string>): (ps: seq<string>)
    ensures |ps| <= |frames|
  {
    if frames == [] then []
    else (if DataPrefix <= frames[0] then [frames[0][|DataPrefix|..]] else []) + Payloads(frames[1..])
  }

  lemma {:induction false} PayloadsAppend(a: seq<string>, b: seq<string>)
    ensures Payloads(a + b) == Payloads(a) + Payloads(b)
    decreases |a|
  {
    if a != [] {
      var head := if DataPrefix <= a[0] then [a[0][|DataPrefix|..]] else [];
      assert (a + b)[0] == a[0];
      assert (a + b)[1..] == a[1..] + b;
      PayloadsAppend(a[1..], b);
      assert Payloads(a + b) == head + Payloads(a[1..] + b);
      assert Payloads(a) == head + Payloads(a[1..]);
    } else {
      assert a + b == b;
    }
  }

  /** What the read loop has dispatched and kept, as a function of the text
      received so far, independent of how that text was cut into reads. */
  function Dispatched(received: string): seq<string> {
    Payloads(AllButLast(Split(received, FrameSeparator)))
  }

  function Pending(received: string): string {
    Last(Split(received, FrameSeparator))
  }

  /** The `while (true)` read loop: each read is appended to `buffer`, the buffer is
      split on blank lines, the last piece stays in `buffer` and every complete
      frame is dispatched in order. */
  method ReadStream(chunks: seq<string>) returns (dispatched: seq<string>, buffer: string)
    ensures dispatched == Dispatched(Concat(chunks))
    ensures buffer == Pending(Concat(chunks))
  {
    dispatched, buffer := [], "";
    var n := 0;
    while n < |chunks|
      invariant 0 <= n <= |chunks|
      invariant dispatched == Dispatched(Concat(chunks[..n]))
      invariant buffer == Pending(Concat(chunks[..n]))
    {
      ghost var received := Concat(chunks[..n]);
      buffer := buffer + chunks[n];
      var lines := Split(buffer, FrameSeparator);
      buffer := Last(lines);
      var payloads := DispatchFrames(AllButLast(lines));
      dispatched := dispatched + payloads;
      ReadStep(received, chunks[n]);
      assert chunks[..n + 1][..n] == chunks[..n];
      n := n + 1;
    }
    assert chunks[..n] == chunks;
  }

  /** The inner `for` loop over the complete frames of one read: each frame
      that starts with `data: ` hands on the rest of its text. */
  method DispatchFrames(frames: seq<string>) returns (payloads: seq<string>)
    ensures payloads == Payloads(frames)
  {
    payloads := [];
    var j := 0;
    while j < |frames|
      invariant 0 <= j <= |frames|
      invariant payloads == Payloads(frames[..j])
    {
      var line := frames[j];
      if DataPrefix <= line {
        payloads := payloads + [line[|DataPrefix|..]];
      }
      PayloadsAppend(frames[..j], [line]);
      assert frames[..j + 1] == frames[..j] + [line];
      j := j + 1;
    }
    assert frames[..j] == frames;
  }

  /** One read: what is dispatched and kept after appending `c` follows from the
      pending piece alone. */
  lemma ReadStep(received: string, c: string)
    ensures Dispatched(received + c)
         == Dispatched(received) + Payloads(AllButLast(Split(Pending(received) + c, FrameSeparator)))
    ensures Pending(received + c) == Last(Split(Pending(received) + c, FrameSeparator))
  {
    var old_parts := Split(received, FrameSeparator);
    var tail := Split(Last(old_parts) + c, FrameSeparator);
    SplitAppend(received, c, FrameSeparator);
    assert Split(received + c, FrameSeparator) == AllButLast(old_parts) + tail;
    assert AllButLast(AllButLast(old_parts) + tail) == AllButLast(old_parts) + AllButLast(tail);
    PayloadsAppend(AllButLast(old_parts), AllButLast(tail));
  }

  /** The buffer is exactly the text after the last blank line: a suffix of what
      was received, free of blank lines, preceded by a separator unless it is
      everything received. */
  lemma PendingIsTail(received: string)
    ensures |Pending(received)| <= |received|
    ensures received[|received| - |Pending(received)|..] == Pending(received)
    ensures !Contains(Pending(received), FrameSeparator)
    ensures |Pending(received)| < |received| ==>
              |Pending(received)| + |FrameSeparator| <= |received| &&
              OccursAt(received, FrameSeparator, |received| - |Pending(received)| - |FrameSeparator|)
    ensures |Pending(received)| == |received| ==> !Contains(received, FrameSeparator)
  {
    LastPartSuffix(received, FrameSeparator);
    var parts := Split(received, FrameSeparator);
    assert TailOf(received, FrameSeparator, parts[|parts| - 1]);
    SplitPartsFree(received, FrameSeparator);
    assert !Contains(parts[|parts| - 1], FrameSeparator);
  }

  /** `b` ends `s`, and is preceded by `sep` when it is shorter than `s`. */
  predicate TailOf(s: string, sep: string, b: string) {
    && |b| <= |s| && s[|s| - |b|..] == b
    && (|b| < |s| ==> |b| + |sep| <= |s| && OccursAt(s, sep, |s| - |b| - |sep|))
  }

  /** The last part of a split is a suffix of the text, preceded by the
      separator when it is shorter than the text. */
  lemma {:induction false} LastPartSuffix(s: string, sep: string)
    requires |sep| > 0
    ensures TailOf(s, sep, Last(Split(s, sep)))
    ensures Contains(s, sep) ==> |Last(Split(s, sep))| < |s|
    decreases |s|
  {
    var parts := Split(s, sep);
    var b := Last(parts);
    match Find(s, sep)
    case None =>
      assert parts == [s];
      assert s[0..] == s;
    case Some(i) =>
      var rest := s[i + |sep|..];
      assert parts == [s[..i]] + Split(rest, sep);
      assert b == Last(Split(rest, sep));
      LastPartSuffix(rest, sep);
      SuffixAfter(s, sep, i, rest, b);
  }

  /** A suffix of the text after an occurrence of `sep` at `i` is a suffix of the
      whole text, and it follows an occurrence of `sep`. */
  lemma SuffixAfter(s: string, sep: string, i: nat, rest: string, b: string)
    requires |sep| > 0 && OccursAt(s, sep, i) && rest == s[i + |sep|..] && TailOf(rest, sep, b)
    ensures TailOf(s, sep, b) && |b| < |s|
  {
    var j := i + |sep|;
    SuffixOfSuffix(s, j, b);
    if |b| < |rest| {
      OccursInSuffix(s, j, sep, |rest| - |b| - |sep|);
    }
  }

  lemma SuffixOfSuffix(s: string, j: nat, b: string)
    requires j <= |s| && |b| <= |s| - j && s[j..][|s| - j - |b|..] == b
    ensures s[|s| - |b|..] == b
  {
    assert s[j..] == s[j..|s|];
    SliceOfSlice(s, j, |s|, |s| - j - |b|, |s| - j);
    assert s[j..][|s| - j - |b|..] == s[j..][|s| - j - |b|..|s| - j];
  }

  lemma OccursInSuffix(s: string, j: nat, sep: string, k: nat)
    requires j <= |s| && OccursAt(s[j..], sep, k)
    ensures OccursAt(s, sep, j + k)
  {
    assert s[j..] == s[j..|s|];
    SliceOfSlice(s, j, |s|, k, k + |sep|);
  }
}
