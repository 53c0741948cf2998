/** `renderFactCheck` in the browser client: four global replacements run one
    after the other on the reply, each turning one kind of claim marker into a
    span and recording one claim per marker it replaces. */
module FactCheck {
  import opened Text
  import opened Regex
  import Html

  datatype Kind = Verified | Questionable | Incorrect | CheckCurrent

  /** A recorded claim: its kind, the claim text and, except for verified
      claims, the concern, correction or thing to check. */
  datatype Claim = Claim(kind: Kind, claim: string, detail: Option<string>)

  function Tag(kind: Kind): string {
    match kind
    case Verified => "VERIFIED"
    case Questionable => "QUESTIONABLE"
    case Incorrect => "INCORRECT"
    case CheckCurrent => "CHECK_CURRENT"
  }

  /** The position of a kind's pass: the passes run in this order. */
  function Rank(kind: Kind): nat {
    match kind
    case Verified => 0
    case Questionable => 1
    case Incorrect => 2
    case CheckCurrent => 3
  }

  /** `/\[\[VERIFIED:\s*(.+?)\]\]/g`, and `/\[\[KIND:\s*(.+?)\s*\|\s*(.+?)\]\]/g`
      for the three kinds that carry a detail. */
  function PatternOf(kind: Kind): (p: Pattern)
    ensures Anchored(p)
    ensures CaptureCount(p) == if kind == Verified then 1 else 2
  {
    var open := Lit("[[" + Tag(kind) + ":");
    var close := [LazyCapture, Lit("]]")];
    CaptureCountCons(Lit("]]"), []);
    CaptureCountCons(LazyCapture, [Lit("]]")]);
    if kind == Verified then
      CaptureCountCons(Spaces, close);
      CaptureCountCons(open, [Spaces] + close);
      [open] + ([Spaces] + close)
    else
      var detail := [Spaces] + ([Lit("|")] + ([Spaces] + close));
      CaptureCountCons(Spaces, close);
      CaptureCountCons(Lit("|"), [Spaces] + close);
      CaptureCountCons(Spaces, [Lit("|")] + ([Spaces] + close));
      CaptureCountCons(LazyCapture, detail);
      CaptureCountCons(Spaces, [LazyCapture] + detail);
      CaptureCountCons(open, [Spaces] + ([LazyCapture] + detail));
      [open] + ([Spaces] + ([LazyCapture] + detail))
  }

  /** The markers of one kind in `s`, in order. */
  function KindMatches(kind: Kind, s: string): (ms: seq<Match>)
    ensures Ordered(s, 0, ms)
    ensures forall k :: 0 <= k < |ms| ==> |ms[k].groups| == CaptureCount(PatternOf(kind))
  {
    Scan(PatternOf(kind), s)
  }

  function ClassName(kind: Kind): string {
    match kind
    case Verified => "claim-verified"
    case Questionable => "claim-questionable"
    case Incorrect => "claim-incorrect"
    case CheckCurrent => "claim-check-current"
  }

  /** The span a marker becomes: the escaped claim, and for the kinds with a
      detail the escaped detail as its `title`. */
  function Span(kind: Kind, groups: seq<string>): string
    requires |groups| == CaptureCount(PatternOf(kind))
  {
    if kind == Verified then
      "<span class=\"" + ClassName(kind) + "\">" + Html.EscapeHtml(groups[0]) + "</span>"
    else
      TitleOpen(kind) + Html.EscapeHtml(groups[1]) + "\">" + Html.EscapeHtml(groups[0]) + "</span>"
  }

  /** The markup of a span with a detail, up to where its `title` value starts. */
  function TitleOpen(kind: Kind): string {
    "<span class=\"" + ClassName(kind) + "\" title=\""
  }

  /** The tooltip a browser shows for a span: its `title` value read up to the
      closing quote, with character references decoded. */
  function Tooltip(kind: Kind, span: string): string
    requires |TitleOpen(kind)| <= |span|
  {
    Html.Unescape(Html.QuotedValue(span, |TitleOpen(kind)|))
  }

  lemma SeqShuffle(a: string, b: string, c: string, d: string, e: string)
    ensures a + (b + (c + d)) + e == a + b + c + (d + e)
  {
  }

  /** As written, a detail holding a double quote is cut at that quote:
      `escapeHtml` leaves the quote alone, so it closes the `title` attribute
      and the tooltip shows only the text before it. */
  lemma TooltipCutAtQuote(kind: Kind, claim: string, x: string, y: string)
    requires kind != Verified && '"' !in x
    ensures |TitleOpen(kind)| <= |Span(kind, [claim, x + "\"" + y])|
    ensures Tooltip(kind, Span(kind, [claim, x + "\"" + y])) == x
  {
    var t, ex, ey := TitleOpen(kind), Html.EscapeHtml(x), Html.EscapeHtml(y);
    var tail := "\">" + Html.EscapeHtml(claim) + "</span>";
    SpanWithDetail(kind, claim, x + "\"" + y);
    EscapeAroundQuote(x, y);
    SeqShuffle(t, ex, "\"", ey, tail);
    assert Span(kind, [claim, x + "\"" + y]) == t + ex + "\"" + (ey + tail);
    Html.QuotedValueOf(t, ex, ey + tail);
    Html.UnescapeEscapeHtml(x);
  }

  /** A span with a detail: the title's start, the escaped detail, and the rest. */
  lemma SpanWithDetail(kind: Kind, claim: string, detail: string)
    requires kind != Verified
    ensures Span(kind, [claim, detail]) == TitleOpen(kind) + Html.EscapeHtml(detail) + ("\">" + Html.EscapeHtml(claim) + "</span>")
  {
    var g := [claim, detail];
    assert g[0] == claim && g[1] == detail;
    var t, ed, ec := TitleOpen(kind), Html.EscapeHtml(detail), Html.EscapeHtml(claim);
    assert t + ed + "\">" + ec + "</span>" == t + ed + ("\">" + ec + "</span>");
  }

  /** Escaping leaves a double quote where it is. */
  lemma EscapeAroundQuote(x: string, y: string)
    ensures Html.EscapeHtml(x + "\"" + y) == Html.EscapeHtml(x) + ("\"" + Html.EscapeHtml(y))
  {
    var q := "\"" + y;
    assert q[0] == '"' && q[1..] == y;
    assert x + "\"" + y == x + q;
    assert Html.EscapeHtml(q) == "\"" + Html.EscapeHtml(y);
    Html.EscapeHtmlAppend(x, q);
  }

  /** The span with its detail escaped for an attribute value, so that the
      tooltip shows every detail whole. */
  function CorrectedSpan(kind: Kind, groups: seq<string>): (span: string)
    requires |groups| == CaptureCount(PatternOf(kind))
    ensures kind == Verified ==> span == Span(kind, groups)
    ensures kind != Verified ==> |TitleOpen(kind)| <= |span| && Tooltip(kind, span) == groups[1]
  {
    if kind == Verified then Span(kind, groups)
    else
      var rest := ">" + Html.EscapeHtml(groups[0]) + "</span>";
      var span := TitleOpen(kind) + Html.EscapeAttr(groups[1]) + "\"" + rest;
      Html.QuotedValueOf(TitleOpen(kind), Html.EscapeAttr(groups[1]), rest);
      Html.UnescapeEscapeAttr(groups[1]);
      span
  }

  /** The claim the callback records for a marker. */
  function ClaimOf(kind: Kind, groups: seq<string>): (c: Claim)
    requires |groups| == CaptureCount(PatternOf(kind))
    ensures c.kind == kind && c.claim == groups[0]
    ensures c.detail.None? <==> kind == Verified
  {
    Claim(kind, groups[0], if kind == Verified then None else Some(groups[1]))
  }

  function Spans(kind: Kind, s: string): (labels: seq<string>)
    ensures |labels| == |KindMatches(kind, s)|
  {
    var ms := KindMatches(kind, s);
    seq(|ms|, k requires 0 <= k < |ms| => Span(kind, ms[k].groups))
  }

  /** The text after one pass. */
  function Pass(kind: Kind, s: string): string {
    Rebuild(s, 0, KindMatches(kind, s), Spans(kind, s))
  }

  /** The claims one pass records, one per marker, in order. */
  function PassClaims(kind: Kind, s: string): (cs: seq<Claim>)
    ensures |cs| == |KindMatches(kind, s)|
    ensures forall k :: 0 <= k < |cs| ==> cs[k].kind == kind
  {
    var ms := KindMatches(kind, s);
    seq(|ms|, k requires 0 <= k < |ms| => ClaimOf(kind, ms[k].groups))
  }

  /** One pass: `html = html.replace(regex, callback)` with the callback pushing
      onto `claims`. */
  method ReplaceClaims(kind: Kind, s: string) returns (html: string, claims: seq<Claim>)
    ensures html == Pass(kind, s)
    ensures claims == PassClaims(kind, s)
  {
    var ms := KindMatches(kind, s);
    ghost var labels := Spans(kind, s);
    ghost var spec := PassClaims(kind, s);
    html, claims := "", [];
    var pos: nat := 0;
    var k := 0;
    ReplacedStart(s, ms, labels);
    while k < |ms|
      invariant k <= |ms|
      invariant Replaced(s, ms, labels, k, pos, html)
      invariant claims == spec[..k]
    {
      html, claims, pos := ReplaceOne(kind, s, ms, k, pos, html, claims);
      k := k + 1;
    }
    ReplacedEnd(s, ms, labels, pos, html);
    html := html + s[pos..];
    TakeAll(spec);
  }

  /** One call of the callback: the text before the `k`-th marker and its
      span are appended, the search resumes after the marker, and its claim
      is recorded. */
  method ReplaceOne(kind: Kind, s: string, ms: seq<Match>, k: nat, pos: nat, html: string, claims: seq<Claim>)
    returns (html': string, claims': seq<Claim>, pos': nat)
    requires ms == KindMatches(kind, s) && k < |ms|
    requires Replaced(s, ms, Spans(kind, s), k, pos, html) && claims == PassClaims(kind, s)[..k]
    ensures Replaced(s, ms, Spans(kind, s), k + 1, pos', html') && claims' == PassClaims(kind, s)[..k + 1]
  {
    ghost var labels := Spans(kind, s);
    ghost var spec := PassClaims(kind, s);
    var m := ms[k];
    assert labels[k] == Span(kind, m.groups) && spec[k] == ClaimOf(kind, m.groups);
    claims' := claims + [ClaimOf(kind, m.groups)];
    TakeSnoc(spec, k);
    ReplacedStep(s, ms, labels, k, pos, html);
    html' := html + s[pos..m.start] + Span(kind, m.groups);
    pos' := m.end;
  }

  /** Claims in pass order: every claim of an earlier pass comes before every
      claim of a later one. */
  predicate Grouped(claims: seq<Claim>) {
    forall i, j :: 0 <= i < j < |claims| ==> Rank(claims[i].kind) <= Rank(claims[j].kind)
  }

  /** Four passes' claims, concatenated in pass order, are grouped. */
  lemma PassesGrouped(c1: seq<Claim>, c2: seq<Claim>, c3: seq<Claim>, c4: seq<Claim>)
    requires forall i :: 0 <= i < |c1| ==> c1[i].kind == Verified
    requires forall i :: 0 <= i < |c2| ==> c2[i].kind == Questionable
    requires forall i :: 0 <= i < |c3| ==> c3[i].kind == Incorrect
    requires forall i :: 0 <= i < |c4| ==> c4[i].kind == CheckCurrent
    ensures Grouped(c1 + c2 + c3 + c4)
  {
    var all := c1 + c2 + c3 + c4;
    forall i | 0 <= i < |all|
      ensures Rank(all[i].kind) == if i < |c1| then 0 else if i < |c1| + |c2| then 1
                                   else if i < |c1| + |c2| + |c3| then 2 else 3
    {
      if i < |c1| {
        assert all[i] == c1[i];
      } else if i < |c1| + |c2| {
        assert all[i] == c2[i - |c1|];
      } else if i < |c1| + |c2| + |c3| {
        assert all[i] == c3[i - |c1| - |c2|];
      } else {
        assert all[i] == c4[i - |c1| - |c2| - |c3|];
      }
    }
  }

  /** The reply after the four passes, in pass order. */
  function AllPasses(text: string): string {
    Pass(CheckCurrent, Pass(Incorrect, Pass(Questionable, Pass(Verified, text))))
  }

  /** The claims the four passes record, in the order they are recorded. */
  function AllClaims(text: string): (claims: seq<Claim>)
    ensures Grouped(claims)
  {
    var h1 := Pass(Verified, text);
    var h2 := Pass(Questionable, h1);
    var h3 := Pass(Incorrect, h2);
    var c1, c2, c3, c4 := PassClaims(Verified, text), PassClaims(Questionable, h1),
                          PassClaims(Incorrect, h2), PassClaims(CheckCurrent, h3);
    PassesGrouped(c1, c2, c3, c4);
    c1 + c2 + c3 + c4
  }

  /** `renderFactCheck(text)`: the text after the four passes with line breaks
      turned into `<br>`, and the claims in the order they were recorded; the
      claims list is shown exactly when there is a claim. */
  method RenderFactCheck(text: string) returns (output: string, claims: seq<Claim>, showClaims: bool)
    ensures output == Html.BreakLines(AllPasses(text))
    ensures claims == AllClaims(text)
    ensures showClaims <==> |claims| > 0
  {
    var h1, c1 := ReplaceClaims(Verified, text);
    var h2, c2 := ReplaceClaims(Questionable, h1);
    var h3, c3 := ReplaceClaims(Incorrect, h2);
    var h4, c4 := ReplaceClaims(CheckCurrent, h3);
    claims := c1 + c2 + c3 + c4;
    output := Html.BreakLines(h4);
    showClaims := |claims| > 0;
  }
}
