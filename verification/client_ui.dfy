/** The browser client's copy buttons, its results view and its submit check.
    A copy button carries the text to copy as a single-quoted JavaScript string
    literal inside a double-quoted `onclick` attribute, so the text passes
    through two decoders before `copyText` receives it: the HTML parser's
    attribute decoding and the JavaScript string-literal reader. */
module ClientUi {
  import opened Text
  import Html
  import CopyEdit
  import FactCheck
  import ServerAuth

  /* ---------- `escapeForOnclick` as written ---------- */

  /** `s.replace(/c/g, r)` for a single character `c`. */
  function ReplaceChar(s: string, c: char, r: string): (o: string)
    ensures c !in r ==> c !in o
  {
    if s == [] then "" else (if s[0] == c then r else [s[0]]) + ReplaceChar(s[1..], c, r)
  }

  lemma {:induction false} ReplaceCharAppend(a: string, b: string, c: char, r: string)
    ensures ReplaceChar(a + b, c, r) == ReplaceChar(a, c, r) + ReplaceChar(b, c, r)
    decreases |a|
  {
    if a == [] {
      assert a + b == b;
    } else {
      assert (a + b)[0] == a[0] && (a + b)[1..] == a[1..] + b;
      ReplaceCharAppend(a[1..], b, c, r);
      AppendAssoc(if a[0] == c then r else [a[0]], ReplaceChar(a[1..], c, r), ReplaceChar(b, c, r));
    }
  }

  /** `escapeForOnclick(text)`: every `'` becomes `\'`, then every line feed
      becomes `\n`. Backslashes, carriage returns and double quotes are left
      as they are. */
  function EscapeForOnclick(t: string): string {
    ReplaceChar(ReplaceChar(t, '\'', "\\'"), '\n', "\\n")
  }

  /** What the two replacements make of one character. */
  function OnclickChar(c: char): string {
    if c == '\'' then "\\'" else if c == '\n' then "\\n" else [c]
  }

  /** The two replacements touch different characters, so they act character by character. */
  lemma EscapeForOnclickCons(c: char, t: string)
    ensures EscapeForOnclick([c] + t) == OnclickChar(c) + EscapeForOnclick(t)
  {
    var q := if c == '\'' then "\\'" else [c];
    assert ([c] + t)[0] == c && ([c] + t)[1..] == t;
    assert ReplaceChar([c] + t, '\'', "\\'") == q + ReplaceChar(t, '\'', "\\'");
    ReplaceCharAppend(q, ReplaceChar(t, '\'', "\\'"), '\n', "\\n");
    if c == '\'' {
      assert q[0] == '\\' && q[1..] == "'" && q[1..][1..] == "";
    } else {
      assert q[1..] == "";
    }
  }

  /* ---------- JavaScript string literals ---------- */

  /** The character an escape sequence `\c` stands for; `None` for the escapes
      this model does not read (legacy octal, `\x`, `\u`, line continuations). */
  function EscapedChar(c: char): Option<char> {
    if c == 'n' then Some('\n')
    else if c == 'r' then Some('\r')
    else if c == 't' then Some('\t')
    else if c == 'b' then Some('\U{0008}')
    else if c == 'f' then Some('\U{000C}')
    else if c == 'v' then Some('\U{000B}')
    else if IsDigit(c) || c == 'x' || c == 'u' || c == '\n' || c == '\r' then None
    else Some(c)
  }

  function Prepend(c: char, r: Option<(string, nat)>): Option<(string, nat)> {
    match r
    case None => None
    case Some(p) => Some(([c] + p.0, p.1))
  }

  /** Reading a single-quoted string literal whose body starts at `i`: its value
      and the position of the closing quote; `None` for a syntax error (no
      closing quote, or a raw line break inside the literal). */
  function ReadLiteral(s: string, i: nat): (r: Option<(string, nat)>)
    decreases |s| - i
    ensures r.Some? ==> i <= r.value.1 < |s| && s[r.value.1] == '\''
  {
    if i >= |s| then None
    else if s[i] == '\'' then Some(("", i))
    else if s[i] == '\n' || s[i] == '\r' then None
    else if s[i] == '\\' then
      if i + 1 == |s| then None
      else match EscapedChar(s[i + 1])
        case None => None
        case Some(c) => Prepend(c, ReadLiteral(s, i + 2))
    else Prepend(s[i], ReadLiteral(s, i + 1))
  }

  const CallOpen := "copyText('"
  const CallClose := "')"

  /** The text `copyText` receives when the handler's source is `code`; `None`
      when the handler is not a call with one string literal. */
  function CopyArgument(code: string): Option<string> {
    if CallOpen <= code then
      match ReadLiteral(code, |CallOpen|)
      case None => None
      case Some(p) => if code[p.1..] == CallClose then Some(p.0) else None
    else None
  }

  const ButtonOpen := "<button class=\"copy-btn secondary-btn\" onclick=\""
  const ButtonTail := ">Copy</button>"

  /** The markup of a copy button whose call carries `arg` between the quotes. */
  function CopyButton(arg: string): string {
    ButtonOpen + CallOpen + arg + CallClose + "\"" + ButtonTail
  }

  /** What clicking a copy button copies: the attribute value is read up to its
      closing quote, its character references are decoded, and the call's
      literal is read. */
  function CopiedText(html: string): Option<string>
    requires |ButtonOpen| <= |html|
  {
    CopyArgument(Html.Unescape(Html.QuotedValue(html, |ButtonOpen|)))
  }

  lemma CallFacts()
    ensures '"' !in CallOpen && '&' !in CallOpen && '"' !in CallClose && '&' !in CallClose
    ensures |CallOpen| == 10 && CallClose == "'" + ")"
  {
  }

  lemma NotInConcat(a: string, b: string, c: string, ch: char)
    requires ch !in a && ch !in b && ch !in c
    ensures ch !in a + b + c
  {
  }

  /** A button whose argument holds no double quote hands the whole call to the
      JavaScript reader, after character references are decoded. */
  lemma ButtonReads(a: string)
    requires '"' !in a
    ensures CopiedText(CopyButton(a)) == CopyArgument(Html.Unescape(CallOpen + a + CallClose))
  {
    CallFacts();
    NotInConcat(CallOpen, a, CallClose, '"');
    QuotedCall(ButtonOpen, CallOpen, a, CallClose, ButtonTail);
  }

  /** The attribute value of `pre + x + y + z + '"' + tail` is `x + y + z` when
      that holds no double quote. */
  lemma QuotedCall(pre: string, x: string, y: string, z: string, tail: string)
    requires '"' !in x + y + z
    ensures Html.QuotedValue(pre + x + y + z + "\"" + tail, |pre|) == x + y + z
  {
    AppendAssoc(pre, x, y);
    AppendAssoc(pre, x + y, z);
    Html.QuotedValueOf(pre, x + y + z, tail);
  }

  /* ---------- the corrected escaping ---------- */

  function JsEscapeChar(c: char): (r: string)
    ensures 1 <= |r| <= 2
    ensures |r| == 1 ==> r == [c] && c != '\\' && c != '\'' && c != '\n' && c != '\r'
    ensures |r| == 2 ==> r[0] == '\\' && EscapedChar(r[1]) == Some(c)
  {
    if c == '\\' then "\\\\"
    else if c == '\'' then "\\'"
    else if c == '\n' then "\\n"
    else if c == '\r' then "\\r"
    else [c]
  }

  /** The body of a single-quoted literal whose value is `t`. */
  function JsEscape(t: string): (r: string)
    ensures |t| <= |r|
  {
    if t == [] then "" else JsEscapeChar(t[0]) + JsEscape(t[1..])
  }

  /** The argument a copy button should carry: a JavaScript literal body,
      escaped again for the double-quoted attribute. */
  function OnclickArg(t: string): (r: string)
    ensures '"' !in r
  {
    Html.EscapeAttr(JsEscape(t))
  }

  /** A literal body written by `JsEscape` is read back whole, up to the quote after it. */
  lemma {:induction false} ReadEscaped(pre: string, t: string, rest: string)
    ensures ReadLiteral(pre + (JsEscape(t) + ("'" + rest)), |pre|) == Some((t, |pre| + |JsEscape(t)|))
    decreases |t|
  {
    var s := pre + (JsEscape(t) + ("'" + rest));
    if t == [] {
      assert s[|pre|] == '\'';
    } else {
      var e := JsEscapeChar(t[0]);
      var z := JsEscape(t[1..]) + ("'" + rest);
      AppendAssoc(e, JsEscape(t[1..]), "'" + rest);
      AppendAssoc(pre, e, z);
      assert s == (pre + e) + z;
      ReadEscaped(pre + e, t[1..], rest);
      assert s[|pre|] == e[0];
      if |e| == 2 {
        assert s[|pre| + 1] == e[1];
      }
      assert [t[0]] + t[1..] == t;
    }
  }

  /** Escaping keeps out of the body every character it does not itself write. */
  lemma {:induction false} JsEscapeAvoids(t: string, c: char)
    requires c !in t && c != '\\' && c != '\'' && c != 'n' && c != 'r'
    ensures c !in JsEscape(t)
    decreases |t|
  {
    if t != [] {
      assert t[0] != c;
      JsEscapeAvoids(t[1..], c);
    }
  }

  /** A call built from an escaped body passes the text to `copyText`. */
  lemma CallReadsBack(t: string)
    ensures CopyArgument(CallOpen + JsEscape(t) + CallClose) == Some(t)
  {
    CallFacts();
    var j := JsEscape(t);
    var code := CallOpen + j + CallClose;
    assert code == CallOpen + (j + ("'" + ")"));
    ReadEscaped(CallOpen, t, ")");
    assert CallOpen <= code;
    assert code[|CallOpen| + |j|..] == CallClose;
  }

  /** The copy button built with `OnclickArg` copies exactly the text it was built from. */
  lemma CopyRoundTrip(t: string)
    ensures CopiedText(CopyButton(OnclickArg(t))) == Some(t)
  {
    CallFacts();
    var j := JsEscape(t);
    var a := OnclickArg(t);
    ButtonReads(a);
    AppendAssoc(CallOpen, a, CallClose);
    Html.UnescapeAfterPlain(CallOpen, a + CallClose);
    Html.UnescapeEscapeAttrThen(j, CallClose);
    Html.UnescapeNoReference(CallClose);
    AppendAssoc(CallOpen, j, CallClose);
    CallReadsBack(t);
  }

  /** The written escaping agrees with the corrected literal escaping on text
      without backslashes and carriage returns. */
  lemma {:induction false} EscapeForOnclickOfPlain(t: string)
    requires '\\' !in t && '\r' !in t
    ensures EscapeForOnclick(t) == JsEscape(t)
    decreases |t|
  {
    if t != [] {
      assert t == [t[0]] + t[1..];
      EscapeForOnclickCons(t[0], t[1..]);
      EscapeForOnclickOfPlain(t[1..]);
    } else {
      assert EscapeForOnclick(t) == "";
    }
  }

  /** As written, a button still copies text free of backslashes, carriage
      returns, double quotes and ampersands. */
  lemma OnclickPlainRoundTrip(t: string)
    requires '\\' !in t && '\r' !in t && '"' !in t && '&' !in t
    ensures CopiedText(CopyButton(EscapeForOnclick(t))) == Some(t)
  {
    CallFacts();
    EscapeForOnclickOfPlain(t);
    var j := JsEscape(t);
    JsEscapeAvoids(t, '"');
    JsEscapeAvoids(t, '&');
    ButtonReads(j);
    NotInConcat(CallOpen, j, CallClose, '&');
    Html.UnescapeNoReference(CallOpen + j + CallClose);
    CallReadsBack(t);
  }

  /** A literal whose body is a lone backslash never closes: the backslash
      escapes the quote meant to close it. */
  lemma LoneBackslashUnclosed(pre: string)
    ensures ReadLiteral(pre + ("\\" + "')"), |pre|) == None
  {
    var s := pre + ("\\" + "')");
    assert s[|pre|] == '\\' && s[|pre| + 1] == '\'' && s[|pre| + 2] == ')' && |s| == |pre| + 3;
  }

  /** As written, a post holding a single backslash gives a button whose handler
      does not parse. */
  lemma OnclickBackslashBreaks()
    ensures CopiedText(CopyButton(EscapeForOnclick("\\"))) == None
  {
    BackslashKept();
    ButtonReads("\\");
    LoneBackslashCall();
  }

  /** The escape leaves a lone backslash as it is. */
  lemma BackslashKept()
    ensures EscapeForOnclick("\\") == "\\"
  {
    var t := "\\";
    EscapeForOnclickCons('\\', "");
    assert [t[0]] + "" == t;
  }

  /** A call whose literal holds only a backslash does not parse. */
  lemma LoneBackslashCall()
    ensures CopyArgument(Html.Unescape(CallOpen + "\\" + CallClose)) == None
  {
    CallFacts();
    var t := "\\";
    var code := CallOpen + t + CallClose;
    NotInConcat(CallOpen, t, CallClose, '&');
    Html.UnescapeNoReference(code);
    assert code == CallOpen + (t + "')");
    LoneBackslashUnclosed(CallOpen);
    assert CallOpen <= code && ReadLiteral(code, |CallOpen|) == None;
  }

  /** As written, a post holding a double quote ends the attribute early: the
      handler is cut off inside its string literal. */
  lemma OnclickQuoteBreaks()
    ensures CopiedText(CopyButton(EscapeForOnclick("\""))) == None
  {
    CallFacts();
    var t := "\"";
    EscapeForOnclickCons('"', "");
    assert [t[0]] + "" == t;
    assert EscapeForOnclick(t) == t;
    assert CopyButton(t) == ButtonOpen + CallOpen + "\"" + (CallClose + "\"" + ButtonTail);
    Html.QuotedValueOf(ButtonOpen, CallOpen, CallClose + "\"" + ButtonTail);
    Html.UnescapeNoReference(CallOpen);
    assert ReadLiteral(CallOpen, |CallOpen|) == None;
  }

  /* ---------- the results view ---------- */

  /** The markup of a post's card before its copy button. */
  function CardHead(post: string): string {
    "\n    <div class=\"social-post\">\n      <p>" + Html.EscapeHtml(post) + "</p>\n      "
  }

  const CardTail := "\n    </div>\n  "

  /** Markup after a button's closing quote does not change what it copies. */
  lemma CopiedTextThen(arg: string, tail: string)
    ensures |ButtonOpen| <= |CopyButton(arg)|
    ensures CopiedText(CopyButton(arg) + tail) == CopiedText(CopyButton(arg))
  {
    var b := CopyButton(arg);
    var q := |ButtonOpen| + |CallOpen| + |arg| + |CallClose|;
    assert b[q] == '"';
    assert b[|ButtonOpen|..][q - |ButtonOpen|] == '"';
    Html.QuotedValueAppend(b, tail, |ButtonOpen|);
  }

  /** One social post's card as `renderSocialPosts` writes it: the escaped post,
      then a copy button built with `escapeForOnclick`, which copies what a lone
      button with that argument copies. */
  function PostCard(post: string): (card: string)
    ensures |card| > 0 && card[0] == '\n'
    ensures CardHead(post) <= card && |CardHead(post)| + |ButtonOpen| <= |card|
    ensures CopiedText(card[|CardHead(post)|..]) == CopiedText(CopyButton(EscapeForOnclick(post)))
  {
    var h, b := CardHead(post), CopyButton(EscapeForOnclick(post));
    var card := h + b + CardTail;
    assert card[0] == h[0] == '\n';
    assert card[|h|..] == b + CardTail;
    CopiedTextThen(EscapeForOnclick(post), CardTail);
    card
  }

  /** As written, a card's button copies a post free of backslashes, carriage
      returns, double quotes and ampersands. */
  lemma PostCardCopiesPlain(post: string)
    requires '\\' !in post && '\r' !in post && '"' !in post && '&' !in post
    ensures CopiedText(PostCard(post)[|CardHead(post)|..]) == Some(post)
  {
    OnclickPlainRoundTrip(post);
  }

  /** As written, the card of a post that is a lone backslash copies nothing. */
  lemma PostCardBackslashBreaks()
    ensures CopiedText(PostCard("\\")[|CardHead("\\")|..]) == None
  {
    OnclickBackslashBreaks();
  }

  /** A card whose button is built with `OnclickArg` copies every post exactly. */
  function CorrectedPostCard(post: string): (card: string)
    ensures CardHead(post) <= card && |CardHead(post)| + |ButtonOpen| <= |card|
    ensures CopiedText(card[|CardHead(post)|..]) == Some(post)
  {
    var h, b := CardHead(post), CopyButton(OnclickArg(post));
    var card := h + b + CardTail;
    assert card[|h|..] == b + CardTail;
    CopiedTextThen(OnclickArg(post), CardTail);
    CopyRoundTrip(post);
    card
  }

  const NoPosts := "<p style=\"color: #666;\">No posts generated yet.</p>"

  /** The posts' cards joined with nothing between them; empty exactly when
      there is no post. */
  function Cards(posts: seq<string>): (html: string)
    ensures html == [] <==> posts == []
    ensures posts != [] ==> html[0] == '\n'
  {
    if posts == [] then "" else PostCard(posts[0]) + Cards(posts[1..])
  }

  /** Joining the cards of two lists is joining their joined cards. */
  lemma {:induction false} CardsAppend(a: seq<string>, b: seq<string>)
    ensures Cards(a + b) == Cards(a) + Cards(b)
  {
    if a == [] {
      assert a + b == b;
    } else {
      var ab := a + b;
      assert ab[0] == a[0] && ab[1..] == a[1..] + b;
      CardsAppend(a[1..], b);
      var c, x, y := PostCard(a[0]), Cards(a[1..]), Cards(b);
      assert Cards(ab) == c + (x + y);
      assert Cards(a) == c + x;
      AppendAssoc(c, x, y);
    }
  }

  /** `renderSocialPosts`: the joined cards, or the placeholder when they are
      empty, which is exactly when there is no post. */
  function SocialHtml(posts: seq<string>): (html: string)
    ensures html == NoPosts <==> posts == []
    ensures posts != [] ==> html == Cards(posts)
  {
    var joined := Cards(posts);
    if joined == "" then NoPosts else joined
  }

  datatype Section = Headlines | Social | CopyEditSection | FactCheckSection

  const AllSections: set<Section> := {Headlines, Social, CopyEditSection, FactCheckSection}

  /** `{ substack: [], twitter: [], instagram: [] }`. */
  const EmptySocial: map<string, seq<string>> := map["substack" := [], "twitter" := [], "instagram" := []]

  /** `socialData[p] || []`. */
  function PostsOf(social: map<string, seq<string>>, p: string): seq<string> {
    if p in social then social[p] else []
  }

  /** Storing one platform's posts changes what that platform shows and no other. */
  lemma PostsOfUpdate(social: map<string, seq<string>>, p: string, posts: seq<string>, q: string)
    ensures PostsOf(social[p := posts], q) == if q == p then posts else PostsOf(social, q)
  {
  }

  /** What the posts panel holds: nothing (as `clearResults` leaves it), or the
      rendering (`SocialHtml`) of a list of posts. */
  datatype Panel = Cleared | Showing(posts: seq<string>)

  /** A result the server streams back, as `handleResult` receives it. */
  datatype Payload =
    | HeadlinesResult(suggestions: seq<Headline>)
    | SocialResult(platform: string, posts: seq<string>)
    | CopyEditResult(text: string)
    | FactCheckResult(text: string)
    | UnknownResult(task: string)

  datatype Headline = Headline(headline: string, dek: string)

  /** The results area of the page: which sections are hidden, the per-platform
      posts, the platform whose tab is selected, and what each section shows.
      The copy-edit and fact-check sections show `CopyEdit.RenderCopyEdit` and
      `FactCheck.RenderFactCheck` of the reply they hold. */
  class ResultsView {
    var hidden: set<Section>
    var socialData: map<string, seq<string>>
    var currentPlatform: string
    var socialPanel: Panel
    var headlines: seq<Headline>
    var copyEditReply: Option<string>
    var factCheckReply: Option<string>

    /** The posts panel is never stale: it is cleared or shows the selected
        platform's current posts. */
    ghost predicate Valid()
      reads this
    {
      socialPanel.Showing? ==> socialPanel.posts == PostsOf(socialData, currentPlatform)
    }

    /** The page as it loads: the substack tab selected, no posts, every result
        section hidden. */
    constructor ()
      ensures Valid()
      ensures hidden == AllSections && socialData == EmptySocial && currentPlatform == "substack"
      ensures socialPanel == Cleared && headlines == [] && copyEditReply == None && factCheckReply == None
    {
      hidden := AllSections;
      socialData := EmptySocial;
      currentPlatform := "substack";
      socialPanel := Cleared;
      headlines := [];
      copyEditReply, factCheckReply := None, None;
    }

    /** `clearResults()`: every section hidden and emptied, every platform's
        posts reset; the selected tab stays. */
    method ClearResults()
      modifies this
      ensures Valid()
      ensures hidden == AllSections && socialData == EmptySocial
      ensures socialPanel == Cleared && headlines == [] && copyEditReply == None && factCheckReply == None
      ensures currentPlatform == old(currentPlatform)
    {
      hidden := AllSections;
      headlines := [];
      socialData := EmptySocial;
      socialPanel := Cleared;
      copyEditReply, factCheckReply := None, None;
    }

    /** A tab click: the platform is selected and its posts rendered. */
    method SelectPlatform(p: string)
      modifies this
      ensures currentPlatform == p && socialPanel == Showing(PostsOf(socialData, p))
      ensures Valid()
      ensures hidden == old(hidden) && socialData == old(socialData) && headlines == old(headlines)
      ensures copyEditReply == old(copyEditReply) && factCheckReply == old(factCheckReply)
    {
      currentPlatform := p;
      socialPanel := Showing(PostsOf(socialData, p));
    }

    /** Regenerated posts replace the whole table, and the selected platform's are rendered. */
    method ReplaceSocial(social: map<string, seq<string>>)
      modifies this
      ensures socialData == social && socialPanel == Showing(PostsOf(social, currentPlatform))
      ensures Valid()
      ensures hidden == old(hidden) && currentPlatform == old(currentPlatform) && headlines == old(headlines)
      ensures copyEditReply == old(copyEditReply) && factCheckReply == old(factCheckReply)
    {
      socialData := social;
      socialPanel := Showing(PostsOf(socialData, currentPlatform));
    }

    /** `handleResult(task, data)`: the task's section is shown and its result
        kept. Social posts are stored under their platform and rendered only
        when that platform's tab is selected; an unknown task changes nothing. */
    method HandleResult(r: Payload)
      requires Valid()
      modifies this
      ensures Valid()
      ensures currentPlatform == old(currentPlatform)
      ensures hidden == old(hidden) - match r
        case HeadlinesResult(_) => {Headlines}
        case SocialResult(_, _) => {Social}
        case CopyEditResult(_) => {CopyEditSection}
        case FactCheckResult(_) => {FactCheckSection}
        case UnknownResult(_) => {}
      ensures headlines == if r.HeadlinesResult? then r.suggestions else old(headlines)
      ensures socialData == if r.SocialResult? then old(socialData)[r.platform := r.posts] else old(socialData)
      ensures socialPanel == if r.SocialResult? && r.platform == currentPlatform then Showing(r.posts)
                             else old(socialPanel)
      ensures copyEditReply == if r.CopyEditResult? then Some(r.text) else old(copyEditReply)
      ensures factCheckReply == if r.FactCheckResult? then Some(r.text) else old(factCheckReply)
    {
      match r
      case HeadlinesResult(suggestions) =>
        hidden := hidden - {Headlines};
        headlines := suggestions;
      case SocialResult(platform, posts) =>
        hidden := hidden - {Social};
        PostsOfUpdate(socialData, platform, posts, currentPlatform);
        socialData := socialData[platform := posts];
        if platform == currentPlatform {
          socialPanel := Showing(PostsOf(socialData, currentPlatform));
        }
      case CopyEditResult(text) =>
        hidden := hidden - {CopyEditSection};
        copyEditReply := Some(text);
      case FactCheckResult(text) =>
        hidden := hidden - {FactCheckSection};
        factCheckReply := Some(text);
      case UnknownResult(_) =>
    }
  }

  /* ---------- submitting ---------- */

  /** The four task checkboxes. */
  datatype Tasks = Tasks(headlines: bool, social: bool, copyEdit: bool, factCheck: bool)

  predicate AnyTask(t: Tasks) {
    t.headlines || t.social || t.copyEdit || t.factCheck
  }

  /** The body the client posts: the trimmed article text and the tasks. */
  datatype Submission = Submission(text: string, tasks: Tasks)

  datatype Outcome<T> = Accept(value: T) | Refuse(message: string)

  const NoTextMessage := "Please enter article text"
  const NoTaskMessage := "Please select at least one task"

  /** The checks the Process button makes before anything is sent: a blank
      article is refused first, then a selection without any task. */
  function ValidateSubmit(articleText: string, tasks: Tasks): (o: Outcome<Submission>)
    ensures o.Accept? <==> Trim(articleText) != [] && AnyTask(tasks)
    ensures o.Accept? ==> o.value == Submission(Trim(articleText), tasks)
    ensures Trim(articleText) == [] ==> o == Refuse(NoTextMessage)
    ensures Trim(articleText) != [] && !AnyTask(tasks) ==> o == Refuse(NoTaskMessage)
  {
    var text := Trim(articleText);
    if text == [] then Refuse(NoTextMessage)
    else if !AnyTask(tasks) then Refuse(NoTaskMessage)
    else Accept(Submission(text, tasks))
  }

  /** What is sent is already trimmed and holds a task. */
  lemma SubmissionIsTrimmed(articleText: string, tasks: Tasks)
    requires ValidateSubmit(articleText, tasks).Accept?
    ensures var s := ValidateSubmit(articleText, tasks).value;
            Trim(s.text) == s.text && s.text != [] && AnyTask(s.tasks)
  {
    TrimOfTight(Trim(articleText));
  }

  /** The `tasks` object of the posted body. */
  function TasksObject(t: Tasks): (m: map<string, bool>)
    ensures ServerAuth.SomeTask(m) <==> AnyTask(t)
  {
    var m := map["headlines" := t.headlines, "social" := t.social, "copyEdit" := t.copyEdit, "factCheck" := t.factCheck];
    assert t.headlines ==> m["headlines"];
    assert t.social ==> m["social"];
    assert t.copyEdit ==> m["copyEdit"];
    assert t.factCheck ==> m["factCheck"];
    m
  }

  /** Whatever the form lets through, the server's own check accepts: the
      client never posts a request that would be answered with 400. */
  lemma SubmissionAccepted(articleText: string, tasks: Tasks)
    requires ValidateSubmit(articleText, tasks).Accept?
    ensures var s := ValidateSubmit(articleText, tasks).value;
            ServerAuth.ValidateProcess(Some(s.text), Some(TasksObject(s.tasks))).None?
  {
    SubmissionIsTrimmed(articleText, tasks);
    var s := ValidateSubmit(articleText, tasks).value;
    var m := TasksObject(s.tasks);
    assert ServerAuth.SomeTask(m);
    assert ServerAuth.ValidateProcess(Some(s.text), Some(m)).None?;
  }
}
