/** `POST /api/fetch-doc`: the decision between a Substack post and a Google
    Doc, the extraction of the document ID, and the assembly of a Substack
    post's text from what the page offers. The HTTP fetches and the HTML
    parsing are not modelled: their results are inputs. */
module DocFetch {
  import opened Text

  /* ---------- Google Doc IDs ---------- */

  /** `[a-zA-Z0-9-_]` */
  predicate IdChar(c: char) {
    'a' <= c <= 'z' || 'A' <= c <= 'Z' || '0' <= c <= '9' || c == '-' || c == '_'
  }

  predicate AllIdChars(s: string) {
    forall k :: 0 <= k < |s| ==> IdChar(s[k])
  }

  /** The end of the run of ID characters that starts at `i`. */
  function IdRunEnd(s: string, i: nat): (e: nat)
    requires i <= |s|
    decreases |s| - i
    ensures i <= e <= |s| && AllIdChars(s[i..e]) && (e == |s| || !IdChar(s[e]))
    ensures forall m :: i <= m < e ==> IdChar(s[m])
  {
    if i == |s| || !IdChar(s[i]) then i
    else
      var e := IdRunEnd(s, i + 1);
      assert s[i..e] == [s[i]] + s[i + 1..e];
      e
  }

  /** The pattern `<lit>([a-zA-Z0-9-_]+)` matches at `i`. */
  predicate IdMatchAt(url: string, lit: string, i: nat) {
    i + |lit| < |url| && OccursAt(url, lit, i) && IdChar(url[i + |lit|])
  }

  /** The leftmost match at or after `i`, as `url.match(pattern)` finds it. */
  function MatchFrom(url: string, lit: string, i: nat): (r: Option<nat>)
    decreases |url| - i
    ensures r.Some? ==> i <= r.value && IdMatchAt(url, lit, r.value)
    ensures r.Some? ==> forall j :: i <= j < r.value ==> !IdMatchAt(url, lit, j)
    ensures r.None? ==> forall j :: i <= j ==> !IdMatchAt(url, lit, j)
  {
    if i + |lit| >= |url| then None
    else if IdMatchAt(url, lit, i) then Some(i)
    else MatchFrom(url, lit, i + 1)
  }

  /** The capture group of the leftmost match: the whole run of ID characters
      after the literal. */
  function PatternId(url: string, lit: string): (id: Option<string>)
    ensures id.Some? ==> |id.value| > 0 && AllIdChars(id.value)
    ensures id.None? <==> forall j :: !IdMatchAt(url, lit, j)
  {
    match MatchFrom(url, lit, 0)
    case None => None
    case Some(i) => Some(url[i + |lit|..IdRunEnd(url, i + |lit|)])
  }

  const DocumentPath := "/document/d/"

  /** The patterns in the order they are tried. */
  const DocPatterns: seq<string> := [DocumentPath, "/open?id=", "id="]

  /** The position of the first pattern that matches, or `|patterns|`. */
  function FirstMatching(url: string, patterns: seq<string>): (k: nat)
    ensures k <= |patterns|
    ensures forall m :: 0 <= m < k ==> PatternId(url, patterns[m]).None?
    ensures k < |patterns| ==> PatternId(url, patterns[k]).Some?
  {
    if patterns == [] || PatternId(url, patterns[0]).Some? then 0
    else
      var rest := patterns[1..];
      var k := FirstMatching(url, rest);
      assert forall m :: 1 <= m <= k && m < |patterns| ==> patterns[m] == rest[m - 1];
      1 + k
  }

  /** The first pattern that matches gives the ID; `None` when none does. */
  function FirstPatternId(url: string, patterns: seq<string>): (id: Option<string>)
    ensures id.None? <==> forall k :: 0 <= k < |patterns| ==> PatternId(url, patterns[k]).None?
  {
    var k := FirstMatching(url, patterns);
    if k < |patterns| then PatternId(url, patterns[k]) else None
  }

  /** The loop over the patterns, leaving at the first match. */
  method ExtractDocId(url: string) returns (docId: Option<string>)
    ensures docId == FirstPatternId(url, DocPatterns)
  {
    docId := None;
    var k := 0;
    while k < |DocPatterns|
      invariant 0 <= k <= |DocPatterns|
      invariant docId.None?
      invariant forall m :: 0 <= m < k ==> PatternId(url, DocPatterns[m]).None?
    {
      var m := PatternId(url, DocPatterns[k]);
      if m.Some? {
        docId := m;
        break;
      }
      k := k + 1;
    }
  }

  /** A literal followed by an ID, with no earlier match, gives exactly that ID. */
  lemma PatternIdOf(pre: string, lit: string, id: string, rest: string)
    requires |id| > 0 && AllIdChars(id) && (rest == [] || !IdChar(rest[0]))
    requires forall j: nat :: j < |pre| ==> !IdMatchAt(pre + lit + id + rest, lit, j)
    ensures PatternId(pre + lit + id + rest, lit) == Some(id)
  {
    var url := pre + lit + id + rest;
    var k := |pre| + |lit|;
    assert url[|pre|..k] == lit;
    assert url[k] == id[0];
    assert IdMatchAt(url, lit, |pre|);
    assert MatchFrom(url, lit, 0) == Some(|pre|);
    assert url[k..] == id + rest;
    IdRunOf(url, k, id, rest);
  }

  lemma IdRunOf(url: string, k: nat, id: string, rest: string)
    requires k <= |url| && url[k..] == id + rest
    requires AllIdChars(id) && (rest == [] || !IdChar(rest[0]))
    ensures IdRunEnd(url, k) == k + |id| && url[k..k + |id|] == id
  {
    var e := IdRunEnd(url, k);
    forall m | k <= m < k + |id| ensures IdChar(url[m]) {
      assert url[m] == (id + rest)[m - k];
    }
    if k + |id| < |url| {
      assert url[k + |id|] == rest[0];
    }
    assert url[k..k + |id|] == (id + rest)[..|id|];
  }

  /** A URL whose first `/document/d/` is followed by an ID gives exactly that
      ID, whatever the later patterns would find. */
  lemma DocumentPathId(pre: string, id: string, rest: string)
    requires |id| > 0 && AllIdChars(id) && (rest == [] || !IdChar(rest[0]))
    requires forall j: nat :: j < |pre| ==> !IdMatchAt(pre + DocumentPath + id + rest, DocumentPath, j)
    ensures FirstPatternId(pre + DocumentPath + id + rest, DocPatterns) == Some(id)
  {
    PatternIdOf(pre, DocumentPath, id, rest);
    FirstPatternWins(pre + DocumentPath + id + rest, DocPatterns);
  }

  lemma FirstPatternWins(url: string, patterns: seq<string>)
    requires |patterns| > 0 && PatternId(url, patterns[0]).Some?
    ensures FirstPatternId(url, patterns) == PatternId(url, patterns[0])
  {
  }

  /** The address the document is exported from. */
  function ExportUrl(id: string): string {
    "https://docs.google.com/document/d/" + id + "/export?format=txt"
  }

  /* ---------- Substack or Google Doc ---------- */

  /** `[^/]+\.[^/]+\/p\/` starting at `h`: a host without slashes holding a dot
      that is neither its first nor its last character, then `/p/`. */
  predicate HostThenPostAt(url: string, h: nat) {
    h <= |url| &&
    var j := SlashFrom(url, h);
    OccursAt(url, "/p/", j) && exists d :: h < d < j - 1 && url[d] == '.'
  }

  /** The first `/` at or after `i`, or the end of the text. */
  function SlashFrom(s: string, i: nat): (j: nat)
    requires i <= |s|
    decreases |s| - i
    ensures i <= j <= |s| && (j < |s| ==> s[j] == '/') && forall k :: i <= k < j ==> s[k] != '/'
  {
    if i == |s| || s[i] == '/' then i else SlashFrom(s, i + 1)
  }

  /** `https?:\/\/` followed by a post path, matching at `i`. */
  predicate PostUrlAt(url: string, i: nat) {
    (OccursAt(url, "http://", i) && HostThenPostAt(url, i + 7))
    || (OccursAt(url, "https://", i) && HostThenPostAt(url, i + 8))
  }

  /** `url.includes('substack.com') || url.match(/https?:\/\/[^\/]+\.[^\/]+\/p\//)` */
  predicate IsSubstackUrl(url: string) {
    Contains(url, "substack.com") || exists i :: 0 <= i <= |url| && PostUrlAt(url, i)
  }

  /** A post on a custom domain is recognised by its `/p/` path. */
  lemma CustomDomainPost(host: string, d: nat, rest: string)
    requires '/' !in host && 0 < d < |host| - 1 && host[d] == '.'
    ensures IsSubstackUrl("https://" + host + "/p/" + rest)
  {
    var url := "https://" + host + "/p/" + rest;
    assert url[..8] == "https://";
    assert forall k :: 8 <= k < 8 + |host| ==> url[k] == host[k - 8];
    assert url[8 + |host|] == '/';
    assert SlashFrom(url, 8) == 8 + |host|;
    assert url[8 + |host|..8 + |host| + 3] == "/p/";
    assert url[8 + d] == '.';
    assert PostUrlAt(url, 0);
  }

  /** Why the endpoint refuses a URL before fetching anything. */
  datatype UrlError = MissingUrl | UnknownUrl

  /** The `error` text of the 400 reply. */
  function ErrorText(e: UrlError): string {
    match e
    case MissingUrl => "URL is required"
    case UnknownUrl => "Could not parse URL. Supported: Google Docs (shared publicly) or Substack articles."
  }

  /** What the endpoint does before fetching anything. */
  datatype FetchPlan =
    | Refuse(status: nat, error: UrlError)
    | FetchSubstack(url: string)
    | FetchExport(exportUrl: string)

  /** A missing or blank URL is refused; a Substack URL is fetched as is; any
      other URL must yield a document ID, whose export address is fetched. */
  function PlanFetch(url: Option<string>): (plan: FetchPlan)
    ensures plan == Refuse(400, MissingUrl) <==> url.None? || Trim(url.value) == ""
    ensures plan.FetchSubstack? ==> url == Some(plan.url) && IsSubstackUrl(plan.url)
    ensures plan.FetchExport? ==>
              url.Some? && !IsSubstackUrl(url.value) && FirstPatternId(url.value, DocPatterns).Some?
              && plan.exportUrl == ExportUrl(FirstPatternId(url.value, DocPatterns).value)
    ensures plan == Refuse(400, UnknownUrl) <==>
              url.Some? && Trim(url.value) != "" && !IsSubstackUrl(url.value) && FirstPatternId(url.value, DocPatterns).None?
  {
    if url.None? || Trim(url.value) == "" then Refuse(400, MissingUrl)
    else if IsSubstackUrl(url.value) then FetchSubstack(url.value)
    else
      var id := FirstPatternId(url.value, DocPatterns);
      if id.None? then Refuse(400, UnknownUrl) else FetchExport(ExportUrl(id.value))
  }

  /* ---------- Substack content ---------- */

  const MinContent := 100

  /** The post found in the page's `window._preloads` data: its title and the
      text of its paragraphs, headings, quotes and list items. */
  datatype Preload = Preload(title: string, content: string)

  /** What the fetched page offers: the preloaded post, if any; for each of the
      five fallback selectors in order, the text under it, or `None` when
      nothing matches it; and the texts of `h1.post-title` and of the first `h1`. */
  datatype SubstackPage = SubstackPage(
    preload: Option<Preload>, selectorContent: seq<Option<string>>,
    postTitle: string, firstHeading: string)

  /** A selector offers more than 100 characters: the loop as written stops there. */
  predicate Over(found: seq<Option<string>>, k: nat) {
    k < |found| && found[k].Some? && |found[k].value| > MinContent
  }

  /** The first selector with more than 100 characters, or `|found|`. */
  function FirstOver(found: seq<Option<string>>): (k: nat)
    ensures k <= |found| && (k < |found| ==> Over(found, k))
    ensures forall m: nat :: m < k ==> !Over(found, m)
  {
    if found == [] || Over(found, 0) then 0
    else
      var k := FirstOver(found[1..]);
      assert forall m: nat :: 0 < m <= |found| ==> (Over(found, m) <==> Over(found[1..], m - 1));
      1 + k
  }

  /** The text of the last selector that is present, or `content` when none is. */
  function LastPresent(found: seq<Option<string>>, content: string): (r: string)
    decreases |found|
    ensures r == content || exists k :: 0 <= k < |found| && found[k] == Some(r)
  {
    if found == [] then content
    else if found[|found| - 1].Some? then found[|found| - 1].value
    else
      var r := LastPresent(found[..|found| - 1], content);
      assert forall k :: 0 <= k < |found| - 1 ==> found[..|found| - 1][k] == found[k];
      r
  }

  /** Looking at one more selector in front: a present one becomes the
      fallback text for those after it. */
  lemma {:induction false} LastPresentCons(x: Option<string>, rest: seq<Option<string>>, content: string)
    decreases |rest|
    ensures LastPresent([x] + rest, content) == LastPresent(rest, if x.Some? then x.value else content)
  {
    var s := [x] + rest;
    if rest == [] {
      assert s[..|s| - 1] == [];
    } else {
      assert s[|s| - 1] == rest[|rest| - 1];
      assert s[..|s| - 1] == [x] + rest[..|rest| - 1];
      if rest[|rest| - 1].None? {
        LastPresentCons(x, rest[..|rest| - 1], content);
      }
    }
  }

  /** The selector loop as written: every selector that is present replaces
      `content`, and the loop stops only on more than 100 characters. So the
      text is the first one over 100 characters, or else whatever the last
      present selector offered. */
  function FallbackAsWritten(found: seq<Option<string>>, content: string): (r: string)
    ensures FirstOver(found) < |found| ==> r == found[FirstOver(found)].value
    ensures FirstOver(found) == |found| ==> r == LastPresent(found, content)
  {
    if found == [] then content
    else
      assert found == [found[0]] + found[1..];
      LastPresentCons(found[0], found[1..], content);
      assert forall m: nat :: 0 < m <= |found| ==> (Over(found, m) <==> Over(found[1..], m - 1));
      match found[0]
      case None => FallbackAsWritten(found[1..], content)
      case Some(c) => if |c| > MinContent then c else FallbackAsWritten(found[1..], c)
  }

  /** The loop over the selectors as the endpoint runs it: a present
      selector's text replaces `content`, and only more than 100 characters
      end the loop. */
  method ExtractSelectors(found: seq<Option<string>>, initial: string) returns (content: string)
    ensures content == FallbackAsWritten(found, initial)
  {
    content := initial;
    var k := 0;
    while k < |found|
      invariant 0 <= k <= |found|
      invariant FallbackAsWritten(found, initial) == FallbackAsWritten(found[k..], content)
    {
      assert found[k..][1..] == found[k + 1..];
      if found[k].Some? {
        content := found[k].value;
        if |content| > MinContent {
          break;
        }
      }
      k := k + 1;
    }
  }

  /** Text of exactly 100 characters passes the final check, but the loop as
      written goes on and replaces it with what a later selector offers. */
  lemma FallbackDiscardsAcceptable()
    ensures var c := seq(MinContent, _ => 'x');
            && |c| >= MinContent
            && FallbackAsWritten([Some(c), Some("")], "") == ""
            && Fallback([Some(c), Some("")], "") == c
  {
    var c := seq(MinContent, _ => 'x');
    var found := [Some(c), Some("")];
    assert found[1..] == [Some("")];
    assert FallbackAsWritten(found, "") == FallbackAsWritten([Some("")], c);
    assert [Some("")][1..] == [];
  }

  /** Content of at least 100 characters is long enough for the final check. */
  predicate Long(found: seq<Option<string>>, k: nat) {
    k < |found| && found[k].Some? && |found[k].value| >= MinContent
  }

  /** The first selector with long enough text, or `|found|`. */
  function FirstLong(found: seq<Option<string>>): (k: nat)
    ensures k <= |found| && (k < |found| ==> Long(found, k))
    ensures forall m: nat :: m < k ==> !Long(found, m)
  {
    if found == [] || Long(found, 0) then 0
    else
      var k := FirstLong(found[1..]);
      assert forall m: nat :: 0 < m <= |found| ==> (Long(found, m) <==> Long(found[1..], m - 1));
      1 + k
  }

  /** The selector loop with the threshold of the final check: it stops at the
      first selector whose text is long enough, and otherwise the text is too
      short to be accepted. */
  function Fallback(found: seq<Option<string>>, content: string): (r: string)
    ensures FirstLong(found) < |found| ==> r == found[FirstLong(found)].value
    ensures FirstLong(found) == |found| && |content| < MinContent ==> |r| < MinContent
  {
    if found == [] then content
    else match found[0]
      case None => Fallback(found[1..], content)
      case Some(c) => if |c| >= MinContent then c else Fallback(found[1..], c)
  }

  /** The loop over the selectors, leaving at the first long enough text. */
  method SelectContent(found: seq<Option<string>>, initial: string) returns (content: string)
    ensures content == Fallback(found, initial)
  {
    content := initial;
    var k := 0;
    while k < |found|
      invariant 0 <= k <= |found|
      invariant Fallback(found, initial) == Fallback(found[k..], content)
    {
      assert found[k..][1..] == found[k + 1..];
      if found[k].Some? {
        content := found[k].value;
        if |content| >= MinContent {
          break;
        }
      }
      k := k + 1;
    }
  }

  datatype Extracted = Failed(error: string) | Article(text: string)

  const ExtractError := "Could not extract article content. Make sure this is a public or shared Substack post."

  /** `title ? `${title}\n\n${content}` : content`, after the length check. */
  function FinalContent(title: string, content: string): (r: Extracted)
    ensures r.Article? <==> |content| >= MinContent
    ensures r.Failed? ==> r.error == ExtractError
    ensures r.Article? && title == "" ==> r.text == content
    ensures r.Article? && title != "" ==>
              title + "\n\n" <= r.text && r.text[|title| + 2..] == content
  {
    if |content| < MinContent then Failed(ExtractError)
    else if title != "" then
      var t := title + "\n\n" + content;
      assert t[|title| + 2..] == content;
      Article(t)
    else Article(content)
  }

  /** The title used when the preload gives none: `h1.post-title`, else the
      first `h1`. */
  function PageTitle(page: SubstackPage, title: string): string {
    if title != "" then title
    else if page.postTitle != "" then page.postTitle
    else page.firstHeading
  }

  function PreloadTitle(page: SubstackPage): string {
    if page.preload.Some? then page.preload.value.title else ""
  }

  function PreloadContent(page: SubstackPage): string {
    if page.preload.Some? then page.preload.value.content else ""
  }

  /** The whole extraction as written: the preloaded post first; when its
      text is shorter than 100 characters, the selector loop as written and,
      if there is still no title, the headings. */
  function SubstackArticle(page: SubstackPage): (r: Extracted)
    ensures |PreloadContent(page)| >= MinContent ==>
              r == FinalContent(PreloadTitle(page), PreloadContent(page))
    ensures |PreloadContent(page)| < MinContent ==>
              r == FinalContent(PageTitle(page, PreloadTitle(page)),
                                FallbackAsWritten(page.selectorContent, PreloadContent(page)))
  {
    var title, content := PreloadTitle(page), PreloadContent(page);
    if |content| >= MinContent then FinalContent(title, content)
    else FinalContent(PageTitle(page, title), FallbackAsWritten(page.selectorContent, content))
  }

  /** Without usable preloaded text, the post is accepted as written exactly
      when some present selector offers more than 100 characters, or else the
      last present selector offers at least 100; the text then ends with that
      selector's text. */
  lemma SelectorsDecide(page: SubstackPage)
    requires |PreloadContent(page)| < MinContent
    ensures var found, k := page.selectorContent, FirstOver(page.selectorContent);
            var used := if k < |found| then found[k].value else LastPresent(found, PreloadContent(page));
            && (SubstackArticle(page).Article? <==> k < |found| || |LastPresent(found, PreloadContent(page))| >= MinContent)
            && (SubstackArticle(page).Article? ==> EndsWith(SubstackArticle(page).text, used))
  {
    var r := FallbackAsWritten(page.selectorContent, PreloadContent(page));
    if SubstackArticle(page).Article? {
      var t := SubstackArticle(page).text;
      assert t[|t| - |r|..] == r;
    }
  }

  /** The whole extraction with the selector loop stopping where the final
      check would accept. */
  function CorrectedSubstackArticle(page: SubstackPage): (r: Extracted)
    ensures |PreloadContent(page)| >= MinContent ==> r == SubstackArticle(page)
    ensures |PreloadContent(page)| < MinContent ==>
              r == FinalContent(PageTitle(page, PreloadTitle(page)),
                                Fallback(page.selectorContent, PreloadContent(page)))
  {
    var title, content := PreloadTitle(page), PreloadContent(page);
    if |content| >= MinContent then FinalContent(title, content)
    else FinalContent(PageTitle(page, title), Fallback(page.selectorContent, content))
  }

  /** With the corrected loop, a post without usable preloaded text is
      accepted exactly when some selector offers 100 characters, and the text
      ends with the first such. */
  lemma CorrectedSelectorsDecide(page: SubstackPage)
    requires |PreloadContent(page)| < MinContent
    ensures var k := FirstLong(page.selectorContent);
            && (CorrectedSubstackArticle(page).Article? <==> k < |page.selectorContent|)
            && (CorrectedSubstackArticle(page).Article? ==>
                  EndsWith(CorrectedSubstackArticle(page).text, page.selectorContent[k].value))
  {
    var r := Fallback(page.selectorContent, PreloadContent(page));
    if CorrectedSubstackArticle(page).Article? {
      var t := CorrectedSubstackArticle(page).text;
      assert t[|t| - |r|..] == r;
    }
  }

  /** A post whose only text is a selector of exactly 100 characters followed
      by an empty one: the endpoint as written refuses it, the corrected loop
      accepts it. */
  lemma SubstackDiscardsAcceptable(page: SubstackPage)
    requires page.preload.None? && page.postTitle == "" && page.firstHeading == ""
    requires page.selectorContent == [Some(seq(MinContent, _ => 'x')), Some("")]
    ensures SubstackArticle(page) == Failed(ExtractError)
    ensures CorrectedSubstackArticle(page) == Article(seq(MinContent, _ => 'x'))
  {
    FallbackDiscardsAcceptable();
  }

  predicate EndsWith(s: string, suffix: string) {
    |suffix| <= |s| && s[|s| - |suffix|..] == suffix
  }
}
