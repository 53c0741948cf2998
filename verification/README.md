# Editorial assistant: a Dafny model of its text rules

The editorial assistant is a small Node.js web application for an online
magazine. An editor pastes an article, fetched from a Google Doc or a Substack
post, and the server asks a language model for headlines, social posts, a
copy-edit and a fact-check. It streams the answers back to the browser as
server-sent events. A handful of maintenance scripts keep an SQLite table of
the magazine's articles and their statistics:

- `scrape-articles.js` scrapes the Substack dashboards.
- `import-csv.js` imports older CSV exports.
- `fix-article-data.js` and `fix-dates.js` repair dates and merge duplicates.

This project models the deterministic logic of those programs and proves what
it promises:

- **Browser client** (`public/app.js`):
  - The read loop that cuts the event stream into `data: ` frames
    (`stream.dfy`).
  - The numbering of `[[ISSUE: …]]` markers and the choice of the issues list
    (`copy_edit.dfy`).
  - The four fact-check marker passes (`fact_check.dfy`).
  - The copy buttons, the per-platform results table, and the submit check
    (`client_ui.dfy`).
  - These rest on HTML escaping (`html.dfy`) and a small backtracking model of
    the marker regular expressions (`regex.dfy`).
- **Server** (`server.js`):
  - The authentication middleware, login and logout, and the request check
    (`server_auth.dfy`).
  - The URL decision and content assembly of the document fetcher
    (`doc_fetch.dfy`).
  - The prompt builders (`prompts.dfy`).
  - The event framing, the JSON span of a model reply, and the requests started
    per task (`server_events.dfy`), over a model of `JSON.stringify`
    (`json.dfy`).
- **Scripts**:
  - Both `parseDate` functions (`dates.dfy`).
  - `parseCSVLine` and the scraper's CSV escaping (`csv.dfy`).
  - The title-to-date map, the date-fix loop and the duplicate merge
    (`article_fix.dfy`).
  - The non-ISO date repair (`fix_dates.dfy`).
  - The scraper's list, access and meta rules and its CSV rows
    (`scrape_rules.dfy`).
  - The scraper's cutoff loop, deduplication and import (`scraper.dfy`).
  - The legacy CSV reader and loader (`import_csv.dfy`).
  - These share the `articles` table with its unique key
    (`article_table.dfy`), the views/open-rate conversions (`metrics.dfy`) and
    `parseInt`/`String(n)` (`js_numbers.dfy`).
- **Shared primitives** (`text.dfy`): JavaScript's white space, `trim`,
  `split`, `indexOf`, `includes` and `||` on strings.

Code that changes state step by step is modelled as methods with loop
invariants, proved against specification functions:

- the stream loop, the marker numbering pass, the fact-check passes, the CSV
  tokenizer, the date-map passes;
- the merge and date-fix loops, the cutoff loop, the dedup filter;
- the import loops, the Doc-ID pattern loop and the selector loop.

The results view (`ClientUi.ResultsView`), the cookie session
(`ServerAuth.Session`) and the database table (`ArticleTable.Table`) are
classes whose methods update their fields.

## Model

| member | source | states |
|---|---|---|
| `Stream.ReadStream` | public/app.js:189-203 | After any sequence of reads, the payloads dispatched are those of the complete frames of all text received so far, and the buffer is the text after the last blank line; so they depend only on the concatenated text, not on how it was cut into reads |
| `Stream.DispatchFrames` | public/app.js:197-202 | Each complete frame that starts with `data: ` is dispatched in order with the prefix removed; other frames are dropped |
| `Stream.ReadStep` | public/app.js:193-195 | One more read dispatches exactly the frames completed by it, and leaves as buffer the last piece of the old buffer plus the new text |
| `Stream.PendingIsTail` | public/app.js:194-195 | The buffer is a suffix of the received text, holds no blank line, and is preceded by a blank line whenever it is shorter than the whole text |
| `Stream.PayloadsAppend` | public/app.js:197-202 | Dispatching is done frame by frame: the payloads of two runs of frames are the payloads of each, concatenated |
| `Stream.Payloads` | public/app.js:197-202 | At most one payload is dispatched per frame |
| `Stream.LastPartSuffix` | public/app.js:194-195 | The last piece of a split is a suffix of the text, preceded by the separator when the text contains one |
| `Text.JoinSplit` | public/app.js:194 | Splitting loses nothing: joining the pieces with the separator gives the text back |
| `Text.SplitPartsFree` | public/app.js:194 | No piece of a split contains the separator |
| `Text.SplitAppend` | public/app.js:193-194 | Appending text to a buffer only re-splits its last piece; the complete pieces before it are unchanged |
| `Text.SplitJoin` | server.js:348-361 | Pieces joined by a separator whose first character none of them holds are split back into the same pieces |
| `Text.LinesReadBack` | fix-article-data.js:80 | A header and single-line rows joined with line feeds give back the rows after `split('\n').slice(1)` |
| `Text.FindFrom` | public/app.js:310 | `indexOf` finds the leftmost occurrence at or after the start position, and `None` means no occurrence |
| `Text.Default` | scrape-articles.js:485-496 | `s \|\| d`: a non-empty value is kept, and a non-empty default makes the result non-empty |
| `Text.Split` | public/app.js:194 | `split` with a non-empty separator gives at least one piece |
| `Text.TrimStart` | fix-article-data.js:107 | The result is a suffix of the text, everything removed is white space, and it does not start with white space |
| `Text.TrimEnd` | fix-article-data.js:107 | The result is a prefix of the text, everything removed is white space, and it does not end with white space |
| `Text.Trim` | fix-article-data.js:107 | The trimmed text is no longer than the text and neither starts nor ends with white space |
| `Text.TrimInner` | fix-article-data.js:107 | What `trim` keeps is one slice of the text, with nothing but white space cut before and after it |
| `Text.Lower` | fix-article-data.js:107 | Lower-casing keeps the length and maps each character on its own |
| `CopyEdit.ReplyPartsAreSplitPieces` | public/app.js:310-312 | Up to letter case, the article part is the first piece of the reply split on `---ISSUES---` ignoring case, and the issues part is the second piece, or `''` when there is no separator |
| `CopyEdit.IssuePatternShape` | public/app.js:316 | The issue pattern starts with a non-empty literal, so no match is empty, and it has exactly one capture group |
| `CopyEdit.NumbersAreConsistent` | public/app.js:321-333 | Every marker number lies between 1 and the number of distinct normalised texts, and two markers share a number exactly when their normalised texts are equal |
| `CopyEdit.NumberAtFirstAppearance` | public/app.js:325-333 | A marker whose normalised text is new gets one more than the number of distinct texts before it; a repeated text reuses the number of its first appearance |
| `CopyEdit.FirstAppearancesInOrder` | public/app.js:329-332 | Numbers are handed out in order of first appearance: the first marker of number m comes before the first marker of number n when m < n |
| `CopyEdit.DistinctSnoc` | public/app.js:325-332 | A new marker adds its text to the distinct texts exactly when it was not seen before |
| `CopyEdit.NumberMarker` | public/app.js:321-336 | One callback call returns the number the marker receives and keeps the invariant linking `seenIssues`, `uniqueIssues` and `nextIssueNum` to the markers so far |
| `CopyEdit.ReplaceMarkers` | public/app.js:321-336 | The replace loop over the markers builds the text with every marker replaced by its numbered span and leaves the numbering state of all markers |
| `CopyEdit.NumberIssues` | public/app.js:316-336 | The marker pass over the article part yields the marked article and the numbering state |
| `CopyEdit.NumberedFacts` | public/app.js:317-335 | After the pass, `uniqueIssues.length == seenIssues.size == nextIssueNum - 1` equals the number of distinct texts, unique issue m has number m+1, and every rendered number is between 1 and `seenIssues.size` and shared exactly by equal texts |
| `CopyEdit.NumberedFirstAppearance` | public/app.js:325-333 | In the pass's own numbers, a new text gets the next number and a repeated text gets the number of its first appearance |
| `CopyEdit.StripIndex` | public/app.js:378 | Removing `^\d+\.\s*` leaves a suffix of the line; a line that is not numbered is unchanged, and a numbered one loses its index and the white space after it |
| `CopyEdit.StripIndexOf` | public/app.js:378 | A line written as digits, a full stop, white space and a reason gives back exactly the reason |
| `CopyEdit.NumberedLines` | public/app.js:372 | The filter keeps exactly the lines whose trimmed text starts with digits and a full stop |
| `CopyEdit.Fallback` | public/app.js:371-381 | The last-resort parse gives one entry per numbered line, in order, with empty original and fix |
| `CopyEdit.FallbackIndexes` | public/app.js:373-379 | The fallback entries are re-indexed 1..n (each index reads back as i+1), and each reason is its line without its leading index |
| `CopyEdit.SelectIssues` | public/app.js:344-381 | The strict entries are kept unless they are fewer than the unique markers; then the loose entries replace them rather than being appended; with no entries, the numbered lines are used when the issues text is not blank |
| `CopyEdit.RenderCopyEdit` | public/app.js:308-395 | The output is the marked article part with line breaks as `<br>`; the numbering facts hold for its markers; the issues list follows the strict/loose/fallback choice; the list is shown exactly when it is non-empty |
| `FactCheck.PatternOf` | public/app.js:402-405 | Each claim pattern starts with its literal tag; the verified pattern captures one group and the other three capture two |
| `FactCheck.ClaimOf` | public/app.js:410-430 | A recorded claim has the marker's kind and first capture; it has a detail exactly when the kind is not verified |
| `FactCheck.TooltipCutAtQuote` | public/app.js:416-430 | As written, a claim detail holding a `"` shows in the tooltip only up to that quote, because `escapeHtml` leaves the quote in the `title` attribute |
| `FactCheck.CorrectedSpan` | public/app.js:410-430 | Corrected span, its detail escaped for an attribute: the tooltip shows every detail whole, and a verified claim's span is unchanged |
| `FactCheck.PassClaims` | public/app.js:410-430 | A pass records one claim per marker of its kind, in order, each of that kind |
| `FactCheck.ReplaceClaims` | public/app.js:410-431 | One replace pass yields the text with each marker of its kind replaced by its span, and the claims it recorded |
| `FactCheck.ReplaceOne` | public/app.js:410-431 | One call of the callback keeps the text before the next marker, appends its span, resumes after the marker and records its claim, so the pass stays on course for the text `Pass` describes |
| `FactCheck.PassesGrouped` | public/app.js:407-431 | Claims of four passes concatenated in pass order are grouped: verified, questionable, incorrect, then check-current |
| `FactCheck.AllClaims` | public/app.js:398-431 | The claims the four passes record are grouped by kind in pass order |
| `FactCheck.RenderFactCheck` | public/app.js:398-445 | The output is the text after the four passes with `<br>` line breaks; the claims are those of the passes, in order; the list is shown exactly when a claim was found |
| `Regex.MatchAt` | public/app.js:316 | A match attempt at a position ends inside the text, past the leading literal, with one string per capture group |
| `Regex.FindMatch` | public/app.js:316 | The search reports the leftmost position at or after the start where the backtracking attempt succeeds, with that attempt's end and groups; when it reports nothing, no position from the start on succeeds; a match is non-empty and has the pattern's number of groups |
| `Regex.ScanFrom` | public/app.js:321 | A global scan gives ordered, non-overlapping matches inside the text, each search resuming where the last match ended |
| `Regex.MatchAtSound` | public/app.js:316 | Every match the backtracking search reports is a string of the pattern's language, with the reported groups |
| `Regex.MatchAtComplete` | public/app.js:316 | Every string of the pattern's language at a position is seen: the backtracking attempt there succeeds (with the string the backtracking order prefers) |
| `Regex.SpacesThen` | public/app.js:316 | Greedy `\s*`: when the rest of the pattern matches after some run of spaces, the attempt that first takes the longest run and gives spaces back succeeds |
| `Regex.TrySpacesComplete` | public/app.js:316 | Giving spaces back one at a time reaches every shorter run after which the rest of the pattern matches |
| `Regex.LazyThen` | public/app.js:316 | Lazy `(.+?)`: when the rest of the pattern matches after some capture without a line terminator, the attempt that widens the capture one character at a time succeeds |
| `Regex.TryLazyComplete` | public/app.js:316 | Widening the capture one character at a time reaches every longer capture without a line terminator after which the rest matches |
| `Regex.FindMatchComplete` | public/app.js:316 | The search misses nothing: when the language has a string at some position at or after the start, a match is reported that starts there or earlier |
| `Regex.TrySpacesSound` | public/app.js:316 | The `\s*` step of the search only reports strings of the pattern's language |
| `Regex.TryLazySound` | public/app.js:316 | The lazy `(.+?)` step of the search only reports strings of the pattern's language |
| `Regex.ReplacedStep` | public/app.js:321-336 | Replacing the next match appends the text before it and its label, and keeps the replace invariant |
| `Regex.ReplacedEnd` | public/app.js:321-336 | After the last match, copying the rest of the text completes the replaced text |
| `Html.EscapeHtml` | public/app.js:134-138 | The escaped text holds no `<` or `>`, is at least as long as the original, and holds a `"` only if the original does |
| `Html.EscapeHtmlQuotes` | public/app.js:134-138 | Double quotes are left alone: the escaped text holds a `"` exactly when the original does |
| `Html.UnescapeEscapeHtml` | public/app.js:134-138 | The browser shows exactly the text that was escaped: decoding the escaped text gives it back |
| `Html.EscapeAttr` | public/app.js:140-142 | Corrected escaping for a double-quoted attribute, used by the corrected copy button and tooltip: no `"`, `<` or `>` remains |
| `Html.UnescapeEscapeAttr` | public/app.js:140-142 | Corrected escaping: an attribute value escaped this way decodes to the original text |
| `Html.QuotedValueOf` | public/app.js:119 | A double-quoted attribute value without a quote is read back whole |
| `Html.QuotedValueAppend` | public/app.js:119 | Markup after an attribute value's closing quote does not change the value |
| `Html.EscapeHtmlAppend` | public/app.js:134-138 | Escaping works character by character: the escape of a concatenation is the concatenation of the escapes |
| `Html.BreakLines` | public/app.js:338 | After replacing line feeds with `<br>`, no line feed is left |
| `Html.BreakLinesAppend` | public/app.js:338 | The replacement works piece by piece: the result for a concatenation is the concatenation of the results |
| `Html.BreakLinesOfLine` | public/app.js:433 | Text without a line feed is unchanged |
| `ClientUi.ReplaceChar` | public/app.js:141 | After a global one-character replacement by text without that character, the character no longer occurs |
| `ClientUi.ReplaceCharAppend` | public/app.js:141 | A global one-character replacement works piece by piece over a concatenation |
| `ClientUi.EscapeForOnclickCons` | public/app.js:140-142 | The two replacements of `escapeForOnclick` touch different characters, so together they act character by character |
| `ClientUi.ReadLiteral` | public/app.js:119 | Reading a single-quoted JavaScript literal stops at its closing quote |
| `ClientUi.ReadEscaped` | public/app.js:119 | A literal body written by the corrected escaping is read back as the original text, up to the quote after it |
| `ClientUi.CallReadsBack` | public/app.js:119 | A `copyText('…')` call built from the corrected escaping passes exactly the text to `copyText` |
| `ClientUi.CopyRoundTrip` | public/app.js:114-122 | A copy button built with the corrected escaping copies exactly the post it was built for |
| `ClientUi.EscapeForOnclickOfPlain` | public/app.js:140-142 | On text without backslashes or carriage returns, `escapeForOnclick` as written agrees with the corrected escaping |
| `ClientUi.OnclickPlainRoundTrip` | public/app.js:119 | As written, a button still copies text free of backslashes, carriage returns, double quotes and ampersands |
| `ClientUi.OnclickBackslashBreaks` | public/app.js:140-142 | As written, a post holding a single backslash gives a handler whose literal never closes, so nothing is copied |
| `ClientUi.OnclickQuoteBreaks` | public/app.js:119 | As written, a post holding a double quote ends the `onclick` attribute early, so nothing is copied |
| `ClientUi.CopiedTextThen` | public/app.js:119 | Markup after a copy button's closing quote does not change what the button copies |
| `ClientUi.PostCard` | public/app.js:116-120 | As written, a card starts with a line feed and its copy button, built with `escapeForOnclick`, copies what a lone button with that argument copies |
| `ClientUi.PostCardCopiesPlain` | public/app.js:116-120 | As written, a card copies a post free of backslashes, carriage returns, double quotes and ampersands |
| `ClientUi.PostCardBackslashBreaks` | public/app.js:119 | As written, the card of a post that is a lone backslash copies nothing |
| `ClientUi.CorrectedPostCard` | public/app.js:116-120 | Corrected card, its button built with the corrected escaping: it copies exactly its post |
| `ClientUi.Cards` | public/app.js:116-121 | The joined cards are empty exactly when there is no post, and otherwise start with a line feed |
| `ClientUi.CardsAppend` | public/app.js:116-121 | `join('')` works card by card: the cards of two lists are the cards of each, concatenated |
| `ClientUi.SocialHtml` | public/app.js:114-122 | The placeholder is shown exactly when there is no post; otherwise the joined cards are |
| `ClientUi.JsEscape` | public/app.js:140-142 | Corrected escaping: a literal body is never shorter than its text (`ClientUi.ReadEscaped` reads it back) |
| `ClientUi.OnclickArg` | public/app.js:140-142 | Corrected escaping for the `onclick` attribute: the argument holds no double quote, so the attribute does not end early |
| `ClientUi.PostsOfUpdate` | public/app.js:227 | Storing one platform's posts changes what that platform shows and no other |
| `ClientUi.ResultsView.constructor` | public/app.js:45-46 | The page loads with the substack tab selected, an empty table for the three platforms, and every section hidden |
| `ClientUi.ResultsView.ClearResults` | public/app.js:461-475 | Every section is hidden and emptied and every platform's posts reset; the selected tab is kept; the posts panel is never stale |
| `ClientUi.ResultsView.SelectPlatform` | public/app.js:105-112 | A tab click selects the platform and shows that platform's posts, changing nothing else |
| `ClientUi.ResultsView.ReplaceSocial` | public/app.js:297-298 | Regenerated posts replace the whole table and the selected platform's posts are shown |
| `ClientUi.ResultsView.HandleResult` | public/app.js:221-238 | Only the result's own section is unhidden and only its data changes; a social result updates only its platform's entry and re-renders only when that platform is selected; the posts panel is never stale |
| `ClientUi.ValidateSubmit` | public/app.js:145-163 | The form is sent exactly when the trimmed text is non-empty and some task is checked, and it sends the trimmed text; otherwise the text message comes first, then the task message |
| `ClientUi.SubmissionIsTrimmed` | public/app.js:146-163 | What is sent is already trimmed, non-empty and holds a task |
| `ClientUi.TasksObject` | public/app.js:153-158 | The posted `tasks` object has a truthy value exactly when some checkbox is checked |
| `ClientUi.SubmissionAccepted` | server.js:335-341 | Whatever the form lets through, the server's own request check accepts |
| `ServerAuth.AuthDecision` | server.js:48-60 | An authenticated request proceeds; an unauthenticated one is redirected exactly when its path is `/` or ends in `.html`, which is checked before the `/api/` rule; otherwise `/api/` paths get 401 and the rest proceed |
| `ServerAuth.UnauthenticatedStopped` | server.js:48-60 | Without a session, no API call, page or home page is reached |
| `ServerAuth.PageRuleFirst` | server.js:52-55 | An `/api/` path ending in `.html` is redirected, not refused |
| `ServerAuth.Route` | server.js:24-60 | Routes registered before the middleware come first and match as the router does by default, ignoring letter case and one trailing slash; the middleware sees the path as it stands; a request stopped by the middleware did not pass it, and any request that reaches the application was let through by it |
| `ServerAuth.LoginReachable` | server.js:24-45 | The login page, login and logout are reachable with or without a session |
| `ServerAuth.RouteVariants` | server.js:24-45 | The login routes are also reached with another letter case or a trailing slash (`/LOGIN`, `/api/login/`, `/API/Logout/`) |
| `ServerAuth.ApiNeedsSession` | server.js:24-60 | Without a session, an `/api/` request is stopped exactly when it is not a `POST` to the login or logout route |
| `ServerAuth.CorrectPassword` | server.js:31 | The password is never empty, and it is the configured one whenever that is set and non-empty |
| `ServerAuth.DefaultPassword` | server.js:31-33 | Without a configured password exactly `editorial` is accepted, and the empty password never is |
| `ServerAuth.Session.constructor` | server.js:15-19 | A new session is not authenticated |
| `ServerAuth.Session.Login` | server.js:29-39 | The correct password marks the session authenticated and answers `{success: true}`; any other leaves the session as it was and answers 401 |
| `ServerAuth.Session.Logout` | server.js:42-45 | Logging out drops the session's authentication and answers `{success: true}` |
| `ServerAuth.ValidateProcess` | server.js:335-341 | A request passes exactly when its text is present and not blank and some task is truthy; a missing or blank text is reported before the task check |
| `DocFetch.IdRunEnd` | server.js:172-174 | The ID run is the maximal run of `[A-Za-z0-9_-]` from a position |
| `DocFetch.MatchFrom` | server.js:178 | The pattern search finds the leftmost match at or after a position, or reports that there is none |
| `DocFetch.PatternId` | server.js:172-180 | A pattern gives a non-empty ID of ID characters, and `None` exactly when it matches nowhere |
| `DocFetch.FirstMatching` | server.js:177-183 | The loop stops at the first pattern that matches; every earlier one failed |
| `DocFetch.FirstPatternId` | server.js:170-185 | No ID is found exactly when none of the patterns matches |
| `DocFetch.ExtractDocId` | server.js:170-183 | The loop over the patterns returns the ID of the first pattern that matches |
| `DocFetch.PatternIdOf` | server.js:172-174 | A literal followed by an ID, with no earlier match, gives exactly that ID |
| `DocFetch.DocumentPathId` | server.js:172 | A `/document/d/<id>` URL gives exactly that ID |
| `DocFetch.FirstPatternWins` | server.js:177-183 | When the first pattern matches, its ID is taken whatever the later patterns would give |
| `DocFetch.CustomDomainPost` | server.js:96 | A `/p/` post on any host with a dot takes the Substack branch |
| `DocFetch.PlanFetch` | server.js:87-189 | A missing or blank URL is refused before anything else; a Substack URL is fetched as is; otherwise the export URL of the first matching pattern's ID is fetched, and with no ID the request is refused with 400 |
| `DocFetch.FirstLong` | server.js:161 | Corrected loop: the first selector whose text the final check accepts, and none before it is accepted |
| `DocFetch.Fallback` | server.js:142-161 | Corrected loop: it takes the first selector with at least 100 characters; when none has them, what it leaves is still too short |
| `DocFetch.SelectContent` | server.js:145-154 | Corrected loop (stopping on `>= 100` instead of `> 100`): it leaves exactly the text `Fallback` describes |
| `DocFetch.FallbackDiscardsAcceptable` | server.js:152 | As written, a selector with exactly 100 characters is passed over and a later empty one wins, although the final check would accept those 100 characters; the corrected loop keeps them |
| `DocFetch.FinalContent` | server.js:161-165 | Content shorter than 100 characters is an error with the fixed message; otherwise the result is the content, preceded by the title and a blank line when the title is non-empty |
| `DocFetch.FirstOver` | server.js:152 | As written, the loop stops at the first selector with more than 100 characters; none before it has them |
| `DocFetch.LastPresent` | server.js:147-151 | When the loop never stops early, `content` is the text of the last selector found, or the preloaded text when none is found |
| `DocFetch.FallbackAsWritten` | server.js:145-154 | As written, the loop leaves the first selector text with more than 100 characters, or else the last selector text found (or the preloaded text) |
| `DocFetch.ExtractSelectors` | server.js:145-154 | The loop as written leaves exactly the text `FallbackAsWritten` describes |
| `DocFetch.CorrectedSubstackArticle` | server.js:104-165 | Corrected extraction: the same as written except that the selector loop stops where the final check accepts |
| `DocFetch.CorrectedSelectorsDecide` | server.js:142-165 | Corrected: without usable preloaded text the post is accepted exactly when some selector has at least 100 characters, and the result ends with the first such text |
| `DocFetch.SubstackDiscardsAcceptable` | server.js:152 | A post whose only text is a selector of exactly 100 characters followed by an empty one is refused as written and accepted by the corrected extraction |
| `DocFetch.SubstackArticle` | server.js:104-165 | As written: preloaded text of at least 100 characters is used with its title without trying the selectors; otherwise the final check is applied to the text the selector loop as written leaves, under the preload title, else `h1.post-title`, else the first `h1` |
| `DocFetch.SelectorsDecide` | server.js:142-165 | As written, without usable preloaded text the post is accepted exactly when some selector has more than 100 characters or, failing that, the last selector found (or the preloaded text) has at least 100; the result ends with that text |
| `Prompts.GuideSection` | server.js:207-209 | The style-guide section is present exactly when the guide, trimmed, is non-empty |
| `Prompts.Prompt` | server.js:211-228 | Every prompt ends with the article text verbatim |
| `Prompts.BlankGuideOmitted` | server.js:207-212 | A blank or missing guide leaves no trace in the prompt |
| `Prompts.GuideVerbatim` | server.js:207-212 | A non-blank guide appears verbatim under its title, right after the introduction |
| `Prompts.PromptDeterminesText` | server.js:211-228 | The same template and guide never give the same prompt for two different articles |
| `Prompts.SocialInstructions` | server.js:244-246 | The social prompt names the platform and carries its guidelines at their places in the wording |
| `ServerEvents.EventJson` | server.js:348-361 | Every event serialises as an object whose first member is `type` |
| `ServerEvents.EventText` | server.js:348-361 | The serialised event holds no line feed, so it cannot contain the frame separator |
| `ServerEvents.FramesReadBack` | server.js:348-361 | Frames written as `data: <json>` plus a blank line are read back by the client loop as every event's text, in order, with nothing left in its buffer |
| `ServerEvents.FramesJoin` | server.js:348-361 | The written stream is the join of the `data:` lines with a blank line after each |
| `ServerEvents.DataLinesSplit` | public/app.js:194 | Splitting the written stream on blank lines gives back the `data:` lines and an empty tail |
| `ServerEvents.DataLinesPayloads` | public/app.js:197-200 | Each `data:` line is dispatched as its event's JSON text |
| `ServerEvents.ConcatTerminated` | server.js:348-361 | Chunks that each end with the separator concatenate to the join of their bodies, with an empty tail |
| `ServerEvents.PayloadsOfData` | public/app.js:198-199 | Lines that all start with `data: ` are all dispatched, without the prefix |
| `ServerEvents.IndexFrom` | server.js:378 | The first `{` at or after a position, or none |
| `ServerEvents.LastIndexBefore` | server.js:378 | The last `}` before a position, or none |
| `ServerEvents.JsonSpan` | server.js:378 | A span exists exactly when a `{` comes before a `}`; it starts with `{` and ends with `}` |
| `ServerEvents.JsonSpanOfEmbedded` | server.js:378-379 | A reply holding one braced text with no brace before or after it yields exactly that text |
| `ServerEvents.StringifiedObjectBraced` | server.js:379 | A serialised object starts with `{` and ends with `}` |
| `ServerEvents.Request` | server.js:372-432 | Each request serves its task with the article text; copy-edit and fact-check get 16384 tokens, the others 2048 |
| `ServerEvents.PromptOf` | server.js:375-432 | Every request's prompt ends with the article text |
| `ServerEvents.SocialKinds` | server.js:390-391 | The social task has one request kind per platform |
| `ServerEvents.StartTasks` | server.js:366-437 | Each selected task sends one progress event and starts one request per planned kind, in handler order |
| `ServerEvents.StartSocial` | server.js:389-409 | The social loop sends a progress event and starts a request for substack, twitter and instagram in turn |
| `ServerEvents.Start` | server.js:370-375 | One progress event is sent with its task and message, and one request is started |
| `ServerEvents.CountTaskAppend` | server.js:366-437 | Requests per task add up over consecutive parts of the plan |
| `ServerEvents.SocialRequests` | server.js:389-409 | The social task issues exactly three requests (substack, twitter, instagram) and every other selected task one |
| `ServerEvents.PartCounts` | server.js:366-437 | A task gets no request unless its flag is truthy; a selected task gets one request, and the social task three |
| `ServerEvents.SocialCount` | server.js:390-408 | The social loop's requests all serve the social task, three of them |
| `ServerEvents.PlannedCount` | server.js:366-437 | The requests for a task over the whole plan are the sum over its four parts |
| `ServerEvents.Field` | server.js:380 | A member read from a parsed object is one of its members with that name, and `None` means there is none |
| `ServerEvents.CompletionEvent` | server.js:376-436 | A finished request sends one result or error event for its own task; a failed call sends its message; copy-edit and fact-check send `{text}` |
| `ServerEvents.SuggestionsRoundTrip` | server.js:378-380 | A reply holding a well-formed answer with no brace around it yields that answer's `suggestions` |
| `ServerEvents.UnbracedReplyFails` | server.js:378-383 | A headline or social reply without a braced span sends an error event for its task instead of a result |
| `ServerEvents.ProgressEvents` | server.js:366-437 | One progress event per request, for its task |
| `ServerEvents.Completions` | server.js:376-436 | One completion event per request, in the order the calls finish, each for its request's task |
| `ServerEvents.ProcessStream` | server.js:332-446 | A refused request gets 400 with its reason and no event; otherwise the stream is the progress events, the completions in finishing order and `done`, each framed as `data: <json>` and a blank line |
| `Json.EscapeString` | server.js:349 | A serialised string holds no control character |
| `Json.Quote` | server.js:349 | A serialised string is quoted and holds no control character |
| `Json.Stringify` | server.js:349 | A serialised value holds no control character |
| `Json.StringifyOneLine` | server.js:349 | A serialised value never holds a line feed |
| `Json.ReadEscapedChar` | public/app.js:199 | `JSON.parse` reads one escaped character back in front of what follows it |
| `Json.ReadQuoted` | public/app.js:199 | An escaped body followed by the closing quote is read back whole |
| `Json.QuoteRoundTrip` | public/app.js:199 | `JSON.parse(JSON.stringify(s)) == s` for every string `s` |
| `Json.ShortEscapeInverse` | public/app.js:199 | The letter of a short escape reads back as the character it stands for |
| `Json.ControlEscapeInverse` | public/app.js:199 | The four hex digits written for a control character read back as it |
| `Json.ReadString` | public/app.js:199 | A successful read of a string body leaves unread text that starts with the closing quote and is no longer than the input |
| `Dates.MonthCode` | fix-article-data.js:22-23 | Each month's code is two digits |
| `Dates.Pad2` | fix-article-data.js:25 | `padStart(2, '0')` gives two characters, keeps a two-digit day and prefixes a one-digit day with `0` |
| `Dates.MonthPrefix` | fix-article-data.js:20 | The first month name the text starts with, ignoring case, in table order |
| `Dates.DayYear` | fix-article-data.js:20 | The day is one or two digits and the year is the four digits that end the text |
| `Dates.FullDate` | fix-article-data.js:20-27 | A full month-name date gives an ISO date whose year is the four digits that end the input |
| `Dates.ShortDate` | fix-article-data.js:30-37 | A short `Mon D` date gives an ISO date whenever the given year has four digits |
| `Dates.FixDatesParse` | fix-dates.js:4-22 | Every result of the fix-dates parser is ISO-shaped, and a missing or empty input gives `null` |
| `Dates.FixDatesParseSound` | fix-dates.js:4-22 | The fix-dates parser finds a date exactly when the input is present and not empty and its trimmed text is ISO or a full month-name date (`FullForm`); everything else gives `null` |
| `Dates.FullDateSound` | fix-dates.js:12-19 | The full-date pattern accepts exactly the texts made of a month name in any letter case, white space, a one- or two-digit day, an optional comma, optional white space and four digits (`FullForm`); `Dates.FullDateOf` gives the date read from each |
| `Dates.FullDateParts` | fix-dates.js:12 | A text the full-date pattern accepts splits into the pieces `FullForm` names |
| `Dates.YearTailSound` | fix-dates.js:12 | Where `,?\s*(\d{4})$` matches, the text is a comma or nothing, white space, and the four-digit year |
| `Dates.DayYearSound` | fix-dates.js:12 | Where `(\d{1,2}),?\s*(\d{4})$` matches, the text is the day, a comma or nothing, white space, and the year |
| `Dates.ArticleDataParse` | fix-article-data.js:11-46 | A missing or empty input gives `null` |
| `Dates.IsoUnchanged` | fix-article-data.js:17 | Both parsers return an ISO date unchanged |
| `Dates.FixDatesIdempotent` | fix-dates.js:9-18 | Parsing is idempotent: `parseDate(parseDate(s)) == parseDate(s)` whenever the inner result is non-null |
| `Dates.ParsersAgree` | fix-dates.js:4-22 | Where fix-dates.js finds a date, fix-article-data.js finds the same one |
| `Dates.MonthTables` | fix-article-data.js:20-33 | Both month tables have twelve lower-case names with distinct three-letter starts |
| `Dates.OnlyMonth` | fix-article-data.js:20 | At most one month name fits at the start of a text |
| `Dates.FullDateOf` | fix-article-data.js:20-27 | `Month D, YYYY` in any letter case, with or without the comma, gives `YYYY-MM-DD` with the table's month and the zero-padded day |
| `Dates.FixDatesOfFull` | fix-dates.js:12-18 | The fix-dates parser reads the full form the same way |
| `Dates.ShortDateOf` | fix-article-data.js:30-37 | `Mon D` gives the short-date year, the table's month and the zero-padded day |
| `Dates.ShortRejected` | fix-dates.js:21 | The fix-dates parser rejects the short `Mon D` form |
| `Dates.RejectedWithSpace` | fix-dates.js:6-21 | A trimmed text with white space among its last four characters (and at index 4 when it is ten characters long) gives `null`: it is neither ISO nor a full date, which ends in four digits |
| `Csv.Fields` | fix-article-data.js:49-72 | A line always has at least one field |
| `Csv.FieldCount` | fix-article-data.js:54-71 | A line has exactly one field more than it has commas outside quotes |
| `Csv.Step` | fix-article-data.js:55-68 | One step of the reader: `""` inside quotes adds one quote, another quote toggles the state and is not copied, a comma outside quotes ends the field, anything else is copied |
| `Csv.ParseLine` | fix-article-data.js:49-72 | The character loop returns the fields of the line, as many as its commas outside quotes plus one |
| `Csv.Doubled` | scrape-articles.js:479 | Doubling quotes never shortens the text |
| `Csv.Escape` | scrape-articles.js:479 | An escaped value is wrapped in quotes, and a missing or empty value becomes `""` |
| `Csv.EscapeRead` | scrape-articles.js:479 | `parseCSVLine` reads an escaped value back as the value, commas and quotes included |
| `Csv.PlainRead` | fix-article-data.js:63-67 | A value without quotes and commas is read as it stands |
| `Csv.RowRoundTrip` | fix-article-data.js:49-72 | A row of escaped or plain cells joined by commas is read back as its values |
| `Csv.CellRead` | fix-article-data.js:54-70 | Each cell of such a row is read as its value, whatever follows it |
| `ArticleFix.Entries` | fix-article-data.js:81-90 | One entry per line of the file |
| `ArticleFix.YmFoldLookup` | fix-article-data.js:79-92 | After the YM pass, a title maps to the date of its last YM line, or keeps its earlier date |
| `ArticleFix.PersuasionFoldLookup` | fix-article-data.js:95-115 | After the Persuasion pass, a title maps to its last Persuasion date with an explicit year; else to its earlier date; else to its first Persuasion date |
| `ArticleFix.DateMapLookup` | fix-article-data.js:75-118 | The map's date for a title follows the override rule: a Persuasion date containing `202` wins, else the YM date, else the first Persuasion date |
| `ArticleFix.EntryCount` | fix-article-data.js:111 | At most one counted entry per line |
| `ArticleFix.ReadLine` | fix-article-data.js:99-104 | Blank lines, missing titles and dates the parser rejects give no entry; otherwise the entry is keyed by the lower-cased trimmed title |
| `ArticleFix.YmPass` | fix-article-data.js:79-92 | The YM loop builds the map of its lines, later lines overwriting earlier ones |
| `ArticleFix.PersuasionPass` | fix-article-data.js:95-115 | The Persuasion loop applies the override rule line by line, and `count` is the number of lines that gave an entry |
| `ArticleFix.BuildDateMap` | fix-article-data.js:75-118 | The map is built from the YM file and then the Persuasion file, with a missing file contributing nothing |
| `ArticleFix.Target` | fix-article-data.js:148-150 | A row is given a new date only when the map has a non-empty date for its title that differs from the stored one |
| `ArticleFix.NotFoundCount` | fix-article-data.js:157-158 | `notFound` counts at most the rows visited |
| `ArticleFix.FixFromMap` | fix-article-data.js:146-160 | The table ends as `Retargeting` describes: row by row, in the order read, a row takes the map's date for its title unless the map has none, it is empty or equal to the stored one, or the update would break the unique key of the table so far (the error is caught and the row skipped); so every row keeps its date or takes its target; `datesFixed` counts the rows changed; `notFound` counts rows with no date in the map |
| `ArticleFix.RetargetingPartly` | fix-article-data.js:146-160 | The loop writes nothing but a row's target date, and only into rows it has visited |
| `ArticleFix.RetargetVisit` | fix-article-data.js:149-157 | One visit that updates the row exactly when the update succeeds leaves the table one row further on, and `datesFixed` grows by one exactly then |
| `ArticleFix.FixDatesFromCsvs` | fix-article-data.js:123-160 | The date map is the one built from the two CSV files, and the fix loop, which looks each title up by `title.toLowerCase().trim()`, leaves the table `Retargeting` describes with that key |
| `ArticleFix.TotalViewsSorted` | fix-article-data.js:193-207 | With versions sorted by views, descending, the merged views are the keeper's |
| `ArticleFix.TotalViewsMax` | fix-article-data.js:202-207 | When the keeper has views, in any order the merged views are the largest of any version |
| `ArticleFix.MaxRateIsMax` | fix-article-data.js:194-208 | The merged open rate is the largest rate of any version, a missing rate counting as 0 |
| `ArticleFix.TotalSubsAppend` | fix-article-data.js:195-209 | Merged subscribers add up over the versions, a missing count counting as 0 |
| `ArticleFix.MergeStats` | fix-article-data.js:190-215 | The merge loop keeps the first version, computes views, open rate, subscribers and source by the merge rules, and lists every other id for deletion |
| `ArticleFix.StatsUpdated` | fix-article-data.js:218-222 | Updating the keeper keeps the number of rows |
| `ArticleFix.WithoutIds` | fix-article-data.js:225-228 | After the deletes, exactly the rows whose id was not listed remain |
| `ArticleFix.DeleteAll` | fix-article-data.js:225-228 | The delete loop removes the listed ids and `merged` counts one per statement |
| `ArticleFix.ApplyMerge` | fix-article-data.js:218-228 | As written, a group merges exactly when updating the keeper first breaks no unique key; then the keeper is updated and the others deleted; otherwise the table is left as it was |
| `ArticleFix.KeeperAlone` | fix-article-data.js:225-228 | Deleting the other versions leaves the keeper as the group's only row |
| `ArticleFix.NoClashAfterDeletes` | fix-article-data.js:218-228 | With the other versions deleted first, updating the keeper breaks no unique key |
| `ArticleFix.ApplyMergeDeletingFirst` | fix-article-data.js:190-228 | Deleting the other versions first always merges a group: the others are gone and the keeper carries the merged statistics |
| `ArticleFix.MergeClashExample` | fix-article-data.js:214-222 | A Persuasion copy with more views and a YM copy of the same article and date form a group whose update as written breaks the unique key |
| `ArticleTable.IndexOfId` | fix-article-data.js:152 | A row is found by its id, or no row has that id |
| `ArticleTable.ReplaceKeepsConsistent` | fix-article-data.js:152 | An update that keeps the id and breaks no key leaves ids and keys unique |
| `ArticleTable.WithoutKeyConsistent` | scrape-articles.js:597 | Dropping the row with a key keeps the table consistent |
| `ArticleTable.WithoutKey` | scrape-articles.js:597 | Exactly the rows with another key remain, and the list never grows |
| `ArticleTable.WithoutIdConsistent` | fix-article-data.js:226 | Deleting a row keeps the table consistent |
| `ArticleTable.WithoutId` | fix-article-data.js:226 | Exactly the rows with another id remain, and the list never grows |
| `ArticleTable.Table.constructor` | fix-article-data.js:128-130 | The table opens with its rows and next id |
| `ArticleTable.Table.UpdateDate` | fix-article-data.js:152 | An update of the date succeeds unless another row already has the new key, and then changes only that row's date; an unknown id changes nothing |
| `ArticleTable.Table.UpdateStats` | fix-article-data.js:218-222 | An update of the statistics succeeds unless another row already has the new key, and then changes only that row |
| `ArticleTable.Table.Delete` | fix-article-data.js:226 | Deleting removes exactly the row with that id |
| `ArticleTable.Table.Upsert` | scrape-articles.js:597-617 | `INSERT OR REPLACE` removes the row with the same key and appends the new row under the next id |
| `FixDates.ParseDate` | fix-dates.js:36 | The parser's results are ISO-shaped and the empty date gives `null` |
| `FixDates.Repair` | fix-dates.js:30-39 | A row is updated exactly when its date fails `'____-__-__'` and the parser gives a date, which it then takes |
| `FixDates.ParseDateMovesOff` | fix-dates.js:30-37 | The parser never returns, for a date the query selects, a date the query would select again |
| `FixDates.RepairRow` | fix-dates.js:38 | Repairing a row changes only its date, and only when there is a repair |
| `FixDates.Progress` | fix-dates.js:35-43 | The loop keeps every row in place |
| `FixDates.RepairCount` | fix-dates.js:39 | `fixed` counts at most the rows visited |
| `FixDates.Run` | fix-dates.js:30-50 | As written, the database is saved exactly when no update breaks the unique key; then every repairable row has its repair and `fixed` counts them |
| `FixDates.RunVisit` | fix-dates.js:35-43 | One visit either aborts the whole run on a broken key or keeps the loop's invariant and count |
| `FixDates.SkippingOutcome` | fix-dates.js:35-43 | With clashes skipped, every row keeps its date or takes its repair; without clashes, the result is the one the script as written produces |
| `FixDates.RunSkippingClashes` | fix-dates.js:33-50 | The corrected script always finishes: each visited row is repaired unless that breaks the key, and `fixed` counts the rows changed |
| `FixDates.SkipVisit` | fix-dates.js:36-42 | One visit of the corrected loop repairs the row unless that breaks the key, and counts it when it changes |
| `FixDates.Skipping` | fix-dates.js:35-43 | The table the corrected loop leaves has as many rows as the one it started from (`FixDates.SkippingPartly` states what it writes) |
| `FixDates.SkippingPartly` | fix-dates.js:35-43 | The corrected loop writes nothing but a repaired date, and only into rows it has visited |
| `FixDates.VisitRow` | fix-dates.js:36-42 | A row is updated exactly when it has a repair and the repair breaks no key; a clash is reported |
| `FixDates.ChangedCount` | fix-dates.js:39 | The number of changed rows is at most the number visited |
| `FixDates.TwinClash` | fix-dates.js:38 | Two rows of one article whose first date parses into the second's give a clash on the first visit |
| `FixDates.ParsedExample` | fix-dates.js:12-18 | The literal `January 5, 2025` parses to `2025-01-05` (the input of `FixDates.ClashAborts`); the general full form is stated by `Dates.FixDatesOfFull` |
| `FixDates.ClashAborts` | fix-dates.js:30-50 | Two rows of one article, one with a month-name date and one in ISO form, make the script as written abort without saving |
| `ScrapeRules.ListOf` | scrape-articles.js:196-216 | A label read back names its list |
| `ScrapeRules.LabelRoundTrip` | scrape-articles.js:196-216 | Reading back a list's label gives that list, so the five labels are distinct |
| `ScrapeRules.SectionList` | scrape-articles.js:203-216 | The section is checked in priority order and never gives `ym`; `bookstack` is chosen exactly when the section mentions it |
| `ScrapeRules.ClassifyList` | scrape-articles.js:184-217 | `ym` exactly for Yascha Mounk articles dated on or after 1 July 2023; other Mounk articles are `persuasion`; everyone else goes by the section |
| `ScrapeRules.AuthorBeforeSection` | scrape-articles.js:194-200 | For a Mounk article the section plays no part |
| `ScrapeRules.SectionPriority` | scrape-articles.js:205-210 | A section naming both Frankly Fukuyama and American Purpose never goes to American Purpose: the earlier check wins |
| `ScrapeRules.AccessType` | scrape-articles.js:331-333 | `paid` exactly when the line contains `Paid`; `preview` exactly when it contains `Preview` but not `Paid`; else `free` |
| `ScrapeRules.BadgeDecides` | scrape-articles.js:331-333 | A title followed by its badge is classified by the badge |
| `ScrapeRules.FirstBullet` | scrape-articles.js:336 | The first bullet at or after a position, with none before it |
| `ScrapeRules.MetaParts` | scrape-articles.js:336 | Splitting on bullets always gives at least one part |
| `ScrapeRules.MetaOfLine` | scrape-articles.js:336-355 | A meta line `date • author • section` gives its three fields |
| `ScrapeRules.MetaOfDateOnly` | scrape-articles.js:338-355 | A meta line without bullets is all date, with no author and no section |
| `ScrapeRules.Metrics` | scrape-articles.js:487-496 | The ten count cells are never empty |
| `ScrapeRules.Cells` | scrape-articles.js:480-497 | A row has one cell per header column |
| `ScrapeRules.CsvRowRoundTrip` | scrape-articles.js:477-499 | When the count cells hold no quote or comma, `parseCSVLine` reads a written row back as the article's sixteen values in header order, with the defaults filled in, whatever the text columns hold |
| `ScrapeRules.HeaderRoundTrip` | scrape-articles.js:477 | The header reads back as the sixteen column names |
| `ScrapeRules.CsvRowOneLine` | scrape-articles.js:478-499 | A row of single-line values is a single line |
| `Scraper.Cut` | scrape-articles.js:419-431 | The position of the first article older than the cutoff, with none older before it |
| `Scraper.Processed` | scrape-articles.js:433-439 | Every article is processed in place |
| `Scraper.ProcessPage` | scrape-articles.js:418-440 | The loop keeps the processed articles before the first one older than the cutoff, and sets `reachedCutoff` exactly when there is one |
| `Scraper.PagesRead` | scrape-articles.js:443-445 | Pages are read up to and including the first that reaches the cutoff |
| `Scraper.ScrapePages` | scrape-articles.js:418-456 | The page loop collects each page's kept articles and stops after the page that reaches the cutoff |
| `Scraper.CutAppend` | scrape-articles.js:424-430 | The cutoff of consecutive pages falls in the first page that has an old article |
| `Scraper.KeptIsPrefix` | scrape-articles.js:418-445 | Across pages, the scrape keeps a prefix of all articles: the processed articles before the first old one |
| `Scraper.Dedup` | scrape-articles.js:464-470 | The filter with its `seen` set keeps exactly the articles whose key did not appear earlier |
| `Scraper.UniqueIsSubsequence` | scrape-articles.js:465-470 | The kept articles are a subsequence of the input, picked at increasing positions |
| `Scraper.FirstOccurrenceKept` | scrape-articles.js:465-470 | Every first occurrence of a key is kept |
| `Scraper.UniqueDistinct` | scrape-articles.js:465-470 | The kept articles have pairwise distinct keys |
| `Scraper.UniqueKeys` | scrape-articles.js:465-470 | No key is lost |
| `Scraper.Rows` | scrape-articles.js:478-498 | One data line per article |
| `Scraper.HeaderOneLine` | scrape-articles.js:477 | The header holds no line break |
| `Scraper.SavedFileReadBack` | scrape-articles.js:476-501 | fix-article-data.js reads a file the scraper wrote back as one line per article, each holding the article's values |
| `Scraper.SkipCount` | scrape-articles.js:564-567 | At most every article is skipped |
| `Scraper.Imported` | scrape-articles.js:557-623 | The next id advances by one for each article that is not skipped |
| `Scraper.ImportArticles` | scrape-articles.js:557-623 | The loop upserts every article that is not skipped, in order; `skippedYmDupes` counts Persuasion copies of `ym` articles, and imported and skipped add up to all articles |
| `Scraper.ImportOne` | scrape-articles.js:558-618 | A Persuasion copy of a `ym` article is skipped; any other article is upserted |
| `Scraper.ImportedPresent` | scrape-articles.js:597-617 | Every article that is not skipped has a row with its key afterwards |
| `Scraper.ImportedRowsAdmitted` | scrape-articles.js:564-617 | Every row the import adds comes from an article that is not skipped |
| `ImportCsv.QuoteIndex` | import-csv.js:19 | The first quote of the text, with none before it |
| `ImportCsv.RunLength` | import-csv.js:19 | The run of non-comma characters stops at a comma or the end |
| `ImportCsv.Tokens` | import-csv.js:19 | Every token the regular expression matches is non-empty |
| `ImportCsv.Strip` | import-csv.js:20 | Stripping outer quotes never lengthens a field and leaves a quote-free field unchanged |
| `ImportCsv.Fields` | import-csv.js:19-20 | One field per token the regular expression matches |
| `ImportCsv.RecordOf` | import-csv.js:22-29 | A record carries the source, takes the present fields, and defaults the counts to `'0'` |
| `ImportCsv.NonBlank` | import-csv.js:18 | Whitespace-only lines are dropped |
| `ImportCsv.ParseCsv` | import-csv.js:9-31 | A missing file gives no records, and every record carries the source argument |
| `ImportCsv.FileReadBack` | import-csv.js:16-18 | The header line is skipped and each remaining line gives one record |
| `ImportCsv.PlainFields` | import-csv.js:19-20 | Plain comma-separated values are read back, except that empty ones vanish |
| `ImportCsv.EmptyFieldShifts` | import-csv.js:19-28 | An empty date between title and views shifts the views into the date column |
| `ImportCsv.QuotedFields` | import-csv.js:19-20 | Quoted values without quotes are read back as they are |
| `ImportCsv.EscapeOneQuote` | scrape-articles.js:479 | The scraper escapes a value with one quote as two adjacent quoted texts |
| `ImportCsv.DoubledQuoteSplits` | import-csv.js:19-20 | The legacy reader splits such a value into two fields, where `parseCSVLine` reads it whole |
| `ImportCsv.CountsOfGrouped` | import-csv.js:72-80 | Views of digits grouped by commas are stored as the number they spell |
| `ImportCsv.Loaded` | import-csv.js:70-96 | Each record takes the next id |
| `ImportCsv.ImportOne` | import-csv.js:71-92 | One record is converted and upserted |
| `ImportCsv.ImportAll` | import-csv.js:70-96 | The loop upserts the YM records and then the Persuasion records in order, counting every one |
| `ImportCsv.ImportFiles` | import-csv.js:64-96 | The two files are read with their sources and loaded in that order |
| `ImportCsv.LoadedPresent` | import-csv.js:87-91 | Every record leaves a row with its key |
| `ImportCsv.LastRecordWins` | import-csv.js:87-91 | `INSERT OR REPLACE` lets the last record with a key win: every new row stands for a record that no later record shares a key with |
| `Metrics.RemoveCommas` | import-csv.js:78 | Removing commas keeps every other character and leaves no comma |
| `Metrics.RemoveCommasLower` | scrape-articles.js:572-576 | Lower-casing and removing commas commute |
| `Metrics.ViewCount` | import-csv.js:72-80 | Empty views are 0; views without `k` are the integer `parseInt` reads after the commas are removed, with `NaN` becoming 0 |
| `Metrics.ViewCountOfGrouped` | scrape-articles.js:570-578 | Digits grouped by commas are read as the number they spell |
| `Metrics.OpenRate` | import-csv.js:82-85 | An empty open rate is 0; any other goes through the float conversion |
| `JsNumbers.NatToString` | public/app.js:375 | `String(n)` gives decimal digits without a leading zero |
| `JsNumbers.NatToStringValue` | public/app.js:375 | The digits of `String(n)` spell `n` |
| `JsNumbers.Magnitude` | import-csv.js:78 | Outside the hexadecimal form, `parseInt` reads the leading run of digits |
| `JsNumbers.ParseInt` | import-csv.js:78 | A leading minus sign never gives a positive number |
| `JsNumbers.ParseIntOfNatToString` | public/app.js:375 | `parseInt` reads `String(n)` back as `n`, after white space and before anything that cannot continue a number |

## Left out

- Express, cookie sessions and static files are left out. The model keeps only the routing decision and the session flag. So are the session secret and its lifetime (server.js:15-19), and the regenerate endpoints (server.js:449-470).
- The model-API calls, `fetch`, file reads and writes, and SQL statements other than the modelled `UPDATE`, `DELETE` and `INSERT OR REPLACE` are left out. The model takes their results as parameters:
  - the model's replies and the order in which the calls finish (`outcomes`, `order`);
  - the files' text, or `None` for a missing file;
  - the grouped and sorted duplicate versions.
- `Promise.all` concurrency is left out. The completion order is a parameter, and event interleaving beyond "progress first, `done` last" is not modelled.
- cheerio's DOM extraction is left out. The preload's title and content, and the text each selector finds, are parameters (`DocFetch.SubstackPage`). The `window._preloads` regex and its `JSON.parse` are not modelled.
- `JSON.parse` of a model reply is a parameter. `JSON.stringify` is modelled for the values the server sends, and `JSON.parse` only for strings (`Json.QuoteRoundTrip`).
- The strict and loose issue regexes of `renderCopyEdit` (public/app.js:344, 358) are parameters (`strictParse`, `looseParse`). Only the selection rule between them and the fallback is modelled.
- Host `Date` parsing is a parameter:
  - the fallback of fix-article-data.js `parseDate` (`hostDate`);
  - the scraper's own `parseDate` (`Dating.parse`);
  - the time values the cutoff and `classifyList` compare (`Clock`).
- Floating point is a parameter (`Metrics.Floats`): `k`-suffixed views use `parseFloat * 1000` and `Math.round`, and the open rate is divided by 100.
- Playwright automation is left out: login, pagination, `clickNextPage`, the podcast scan, the line-skipping heuristics and the metrics lookahead (scrape-articles.js:52-140, 251-415, 637-762). The scraped article records are inputs.
- `TextDecoder` is left out: the stream is modelled as already-decoded text.
- JavaScript counts string length in UTF-16 code units; the model counts Unicode scalar values. Lower-casing is ASCII only. This matches the ASCII patterns with `/i` and SQLite's `LOWER`, but not `toLowerCase` on non-ASCII letters.
- `renderHeadlines`, the issue and claim list markup, icons and console logging are not modelled.
- Dates.ArticleDataParse: its contract states only the empty case. Its other results are stated by `Dates.IsoUnchanged`, `Dates.ParsersAgree` and `Dates.ShortDateOf`, since the host `Date` fallback can return anything.
- DocFetch.SubstackArticle: the texts of `h1.post-title` and of the first `h1` (server.js:156-158) are parameters of the page (`postTitle`, `firstHeading`). Only the choice between them is modelled.
- ScrapeRules.ClassifyList: compares time values supplied by the host clock, not parsed dates.
- ImportCsv.ImportAll: the `catch` around each insert is not modelled. With `INSERT OR REPLACE` and the columns written here, the statement cannot break the unique key.
- Scraper.ImportArticles: does not model the extra columns that `importToDatabase` writes (author, list, type, likes, comments, original source). The row keeps the key and the statistics.
- The legacy CSV reader does not undo the scraper's doubled quotes, and it reads a different column layout. So no round trip is claimed between scrape-articles.js's files and import-csv.js (`ImportCsv.DoubledQuoteSplits` shows the difference).
- The date-map build's console counts, the metadata table and the verification read of fix-dates.js are not modelled.

## Findings

| source | as written | input that shows it | evidently intended | confidence | as-written member | corrected member |
|---|---|---|---|---|---|---|
| public/app.js:140-142 | `escapeForOnclick` escapes `'` and line feeds but not backslashes or double quotes inside a double-quoted `onclick` attribute | a social post `\` (the literal never closes) or `"` (the attribute ends early) | the copy button copies the post exactly | high (not executed) | `ClientUi.PostCardBackslashBreaks` | `ClientUi.CorrectedPostCard` |
| server.js:152 | the selector loop stops only on `content.length > 100`, while the final check (server.js:161) accepts 100 | a first selector with exactly 100 characters followed by a selector with no text: the 100 characters are overwritten and the fetch fails | stop at the first selector the final check accepts (`>= 100`) | medium (not executed) | `DocFetch.SubstackDiscardsAcceptable` | `DocFetch.CorrectedSubstackArticle` |
| public/app.js:418 | the `title` attribute of a questionable, incorrect or check-current claim is escaped with `escapeHtml`, which leaves `"` alone (the same at lines 424 and 430) | the marker `[[QUESTIONABLE: claim \| says "no" here]]`: the attribute ends after `says `, so the tooltip shows only that | escape the detail for an attribute value, turning `"` into `&quot;` | high (not executed) | `FactCheck.TooltipCutAtQuote` | `FactCheck.CorrectedSpan` |
| fix-article-data.js:218-226 | the keeper is updated to source `ym` before its duplicates are deleted, and the `UPDATE` is not guarded | a Persuasion row with 10 views and a YM row with 5 views of the same title and date: the keeper's new key equals the YM row's, so the `UPDATE` breaks the unique key and the script aborts | delete the other versions first, then update the keeper | high (not executed) | `ArticleFix.MergeClashExample` | `ArticleFix.ApplyMergeDeletingFirst` |
| fix-dates.js:38 | the `UPDATE` of a repaired date is not guarded, so a unique-key clash aborts the script before the database is saved | two rows of one article and source, one dated `January 5, 2025` and one `2025-01-05` | skip the clashing row, as fix-article-data.js:151-156 does | medium (not executed) | `FixDates.ClashAborts` | `FixDates.RunSkippingClashes` |
