/** The post-processing steps of scrape-articles.js: each page of scraped
    articles is dated and classified until the first article older than the
    cutoff, the pages are deduplicated by title prefix, written to CSV, and
    imported into the articles table. */
module Scraper {
  import opened Text
  import opened ScrapeRules
  import opened ArticleTable
  import Csv
  import JsNumbers
  import opened Metrics
  import ArticleFix

  /** What the page loop needs from the host: the scraper's `parseDate`
      (which reads today's date and the host's date parser), `new Date(d)`
      as a time value, and the cutoff time when `--days` was given. */
  datatype Dating = Dating(parse: string -> string, time: Clock, cutoff: Option<int>)

  /** `parseDate(dateStr)`: an empty date stays empty. */
  function ParsedDate(d: string, env: Dating): string {
    if d == "" then "" else env.parse(d)
  }

  /** The processed article: parsed date, list name, and the type defaults. */
  function Process(a: Article, env: Dating): Article {
    var date := ParsedDate(a.date, env);
    a.(date := date, listName := Label(ClassifyList(a.author, a.section, date, env.time)),
       articleType := Default(a.articleType, "article"), accessType := Default(a.accessType, "free"))
  }

  /** `CUTOFF_DATE && parsedDate && new Date(parsedDate) < CUTOFF_DATE`. */
  predicate TooOld(a: Article, env: Dating) {
    var date := ParsedDate(a.date, env);
    env.cutoff.Some? && date != "" && env.time(date).Some? && env.time(date).value < env.cutoff.value
  }

  /** The position of the first article older than the cutoff, or the length of the page. */
  function Cut(page: seq<Article>, env: Dating): (n: nat)
    ensures n <= |page|
    ensures forall i :: 0 <= i < n ==> !TooOld(page[i], env)
    ensures n < |page| ==> TooOld(page[n], env)
  {
    if page == [] then 0
    else if TooOld(page[0], env) then 0
    else 1 + Cut(page[1..], env)
  }

  function Processed(page: seq<Article>, env: Dating): (r: seq<Article>)
    ensures |r| == |page|
  {
    seq(|page|, i requires 0 <= i < |page| => Process(page[i], env))
  }

  /** The articles a page contributes. */
  function PageKept(page: seq<Article>, env: Dating): seq<Article> {
    Processed(page, env)[..Cut(page, env)]
  }

  /** The post-processing loop of one page: articles are processed in order
      and the first one older than the cutoff ends the page, and the scrape. */
  method ProcessPage(page: seq<Article>, env: Dating) returns (kept: seq<Article>, reachedCutoff: bool)
    ensures kept == PageKept(page, env)
    ensures reachedCutoff <==> Cut(page, env) < |page|
  {
    kept := [];
    reachedCutoff := false;
    var i := 0;
    while i < |page|
      invariant i <= |page|
      invariant forall k :: 0 <= k < i ==> !TooOld(page[k], env)
      invariant kept == Processed(page, env)[..i]
    {
      if TooOld(page[i], env) {
        CutAt(page, env, i);
        reachedCutoff := true;
        return;
      }
      ProcessedStep(page, env, i);
      kept := kept + [Process(page[i], env)];
      i := i + 1;
    }
    CutAt(page, env, i);
  }

  /** The cut is the first old article, or the page's end when none is old. */
  lemma CutAt(page: seq<Article>, env: Dating, i: nat)
    requires i <= |page|
    requires forall k :: 0 <= k < i ==> !TooOld(page[k], env)
    requires i < |page| ==> TooOld(page[i], env)
    ensures Cut(page, env) == i
  {
  }

  lemma ProcessedStep(page: seq<Article>, env: Dating, i: nat)
    requires i < |page|
    ensures Processed(page, env)[..i + 1] == Processed(page, env)[..i] + [Process(page[i], env)]
  {
    var p := Processed(page, env);
    assert p[..i + 1] == p[..i] + [p[i]];
  }

  /** Everything the scrape keeps from the pages it can reach. */
  function Kept(pages: seq<seq<Article>>, env: Dating): seq<Article>
    decreases |pages|
  {
    if pages == [] then []
    else PageKept(pages[0], env) + (if Cut(pages[0], env) < |pages[0]| then [] else Kept(pages[1..], env))
  }

  /** How many pages are read: up to and including the first that reaches the cutoff. */
  function PagesRead(pages: seq<seq<Article>>, env: Dating): (n: nat)
    decreases |pages|
    ensures n <= |pages|
    ensures forall k :: 0 <= k < n - 1 ==> Cut(pages[k], env) == |pages[k]|
    ensures n < |pages| ==> n > 0 && Cut(pages[n - 1], env) < |pages[n - 1]|
  {
    if pages == [] then 0
    else if Cut(pages[0], env) < |pages[0]| then 1
    else 1 + PagesRead(pages[1..], env)
  }

  /** The page loop of `scrapeArticleData`; `pages` are the pages the
      pagination reaches, in order. */
  method ScrapePages(pages: seq<seq<Article>>, env: Dating) returns (all: seq<Article>, read: nat)
    ensures all == Kept(pages, env)
    ensures read == PagesRead(pages, env)
  {
    all := [];
    read := 0;
    while read < |pages|
      invariant read <= |pages|
      invariant all + Kept(pages[read..], env) == Kept(pages, env)
      invariant read + PagesRead(pages[read..], env) == PagesRead(pages, env)
    {
      var rest := pages[read..];
      assert rest[0] == pages[read] && rest[1..] == pages[read + 1..];
      var kept, reachedCutoff := ProcessPage(pages[read], env);
      all := all + kept;
      read := read + 1;
      if reachedCutoff {
        return;
      }
    }
  }

  /** All pages' articles, in order. */
  function Flatten(pages: seq<seq<Article>>): seq<Article>
    decreases |pages|
  {
    if pages == [] then [] else pages[0] + Flatten(pages[1..])
  }

  lemma {:induction false} CutAppend(a: seq<Article>, b: seq<Article>, env: Dating)
    ensures Cut(a + b, env) == if Cut(a, env) < |a| then Cut(a, env) else |a| + Cut(b, env)
    decreases |a|
  {
    if a != [] {
      assert (a + b)[0] == a[0];
      assert (a + b)[1..] == a[1..] + b;
      CutAppend(a[1..], b, env);
    } else {
      assert a + b == b;
    }
  }

  lemma ProcessedAppend(a: seq<Article>, b: seq<Article>, env: Dating)
    ensures Processed(a + b, env) == Processed(a, env) + Processed(b, env)
  {
  }

  lemma TakeOfAppend<T>(x: seq<T>, y: seq<T>, n: nat)
    requires n <= |x| + |y|
    ensures (x + y)[..n] == if n <= |x| then x[..n] else x + y[..n - |x|]
  {
  }

  /** Across pages, the scrape keeps the processed articles up to the first
      one older than the cutoff: a prefix of everything it could have read. */
  lemma {:induction false} KeptIsPrefix(pages: seq<seq<Article>>, env: Dating)
    ensures Kept(pages, env) == Processed(Flatten(pages), env)[..Cut(Flatten(pages), env)]
    decreases |pages|
  {
    if pages != [] {
      var p, rest := pages[0], Flatten(pages[1..]);
      CutAppend(p, rest, env);
      ProcessedAppend(p, rest, env);
      TakeOfAppend(Processed(p, env), Processed(rest, env), Cut(p + rest, env));
      if Cut(p, env) == |p| {
        KeptIsPrefix(pages[1..], env);
        assert Processed(p, env)[..|p|] == Processed(p, env);
      }
    }
  }

  /** The dedup key: `title.toLowerCase().substring(0, 50)`. */
  function DedupKey(a: Article): string {
    Lower(a.title)[..if |a.title| < 50 then |a.title| else 50]
  }

  /** How articles are told apart. */
  type KeyOf = Article -> string

  /** The keys of the articles. */
  function Keys(xs: seq<Article>, key: KeyOf): (ks: set<string>)
    decreases |xs|
    ensures forall j :: 0 <= j < |xs| ==> key(xs[j]) in ks
    ensures forall k :: k in ks ==> exists j :: 0 <= j < |xs| && key(xs[j]) == k
  {
    if xs == [] then {}
    else
      var ks := Keys(xs[..|xs| - 1], key) + {key(xs[|xs| - 1])};
      assert forall j :: 0 <= j < |xs| - 1 ==> xs[..|xs| - 1][j] == xs[j];
      ks
  }

  /** The articles whose key did not appear earlier, in order. */
  function Unique(xs: seq<Article>, key: KeyOf): seq<Article>
    decreases |xs|
  {
    if xs == [] then []
    else
      var init := xs[..|xs| - 1];
      Unique(init, key) + if key(xs[|xs| - 1]) in Keys(init, key) then [] else [xs[|xs| - 1]]
  }

  /** The filter of `scrapeArticleData` with its `seen` set. */
  method Dedup(articles: seq<Article>) returns (unique: seq<Article>)
    ensures unique == Unique(articles, DedupKey)
  {
    var seen: set<string> := {};
    unique := [];
    var i := 0;
    while i < |articles|
      invariant i <= |articles|
      invariant seen == Keys(articles[..i], DedupKey)
      invariant unique == Unique(articles[..i], DedupKey)
    {
      var key := DedupKey(articles[i]);
      assert articles[..i + 1][..i] == articles[..i];
      if key !in seen {
        seen := seen + {key};
        unique := unique + [articles[i]];
      }
      i := i + 1;
    }
    assert articles[..i] == articles;
  }

  /** The positions `Unique` keeps. */
  function FirstIndices(xs: seq<Article>, key: KeyOf): seq<nat>
    decreases |xs|
  {
    if xs == [] then []
    else
      var init := xs[..|xs| - 1];
      FirstIndices(init, key) + if key(xs[|xs| - 1]) in Keys(init, key) then [] else [|xs| - 1]
  }

  /** `u` is `xs` picked at the increasing positions `idx`, each of which is
      the first position with its key. */
  ghost predicate PicksFirsts(xs: seq<Article>, key: KeyOf, idx: seq<nat>, u: seq<Article>) {
    && |idx| == |u|
    && (forall k :: 0 <= k < |idx| ==> idx[k] < |xs| && u[k] == xs[idx[k]])
    && (forall k, l :: 0 <= k < l < |idx| ==> idx[k] < idx[l])
    && (forall k, j :: 0 <= k < |idx| && 0 <= j < idx[k] ==> key(xs[j]) != key(xs[idx[k]]))
  }

  /** `Unique` is a subsequence of its input, picked at increasing positions
      each of which is the first with its key. */
  lemma {:induction false} UniqueIsSubsequence(xs: seq<Article>, key: KeyOf)
    ensures PicksFirsts(xs, key, FirstIndices(xs, key), Unique(xs, key))
    decreases |xs|
  {
    if xs != [] {
      var init := xs[..|xs| - 1];
      UniqueIsSubsequence(init, key);
      PicksFirstsStep(xs, key, FirstIndices(init, key), Unique(init, key));
    }
  }

  lemma PicksFirstsStep(xs: seq<Article>, key: KeyOf, idx: seq<nat>, u: seq<Article>)
    requires |xs| > 0 && PicksFirsts(xs[..|xs| - 1], key, idx, u)
    ensures var n := |xs| - 1;
            var isNew := key(xs[n]) !in Keys(xs[..n], key);
            PicksFirsts(xs, key, idx + (if isNew then [n] else []), u + (if isNew then [xs[n]] else []))
  {
    var n := |xs| - 1;
    var init := xs[..n];
    assert forall j :: 0 <= j < n ==> init[j] == xs[j];
    if key(xs[n]) !in Keys(init, key) {
      forall j | 0 <= j < n ensures key(xs[j]) != key(xs[n]) {
        assert key(init[j]) in Keys(init, key);
      }
      assert forall k :: 0 <= k < |idx| ==> (idx + [n])[k] == idx[k] && (u + [xs[n]])[k] == u[k];
    }
  }

  /** Every first occurrence of a key is kept. */
  lemma {:induction false} FirstOccurrenceKept(xs: seq<Article>, key: KeyOf, i: nat)
    requires i < |xs| && forall j :: 0 <= j < i ==> key(xs[j]) != key(xs[i])
    ensures i in FirstIndices(xs, key)
    decreases |xs|
  {
    var init := xs[..|xs| - 1];
    if i < |xs| - 1 {
      assert forall j :: 0 <= j <= i ==> init[j] == xs[j];
      FirstOccurrenceKept(init, key, i);
    }
  }

  /** The kept articles have pairwise distinct keys. */
  lemma {:induction false} UniqueDistinct(xs: seq<Article>, key: KeyOf)
    ensures forall k, l :: 0 <= k < l < |Unique(xs, key)| ==> key(Unique(xs, key)[k]) != key(Unique(xs, key)[l])
    decreases |xs|
  {
    if xs != [] {
      var init := xs[..|xs| - 1];
      UniqueDistinct(init, key);
      UniqueKeys(init, key);
    }
  }

  /** No key is lost: the kept articles have every key of the input. */
  lemma {:induction false} UniqueKeys(xs: seq<Article>, key: KeyOf)
    ensures Keys(Unique(xs, key), key) == Keys(xs, key)
    decreases |xs|
  {
    if xs != [] {
      var init := xs[..|xs| - 1];
      UniqueKeys(init, key);
      var u := Unique(init, key);
      var tail := if key(xs[|xs| - 1]) in Keys(init, key) then [] else [xs[|xs| - 1]];
      assert Unique(xs, key) == u + tail;
      KeysAppend(u, tail, key);
      TakeSnoc(xs, |xs| - 1);
      KeysAppend(init, [xs[|xs| - 1]], key);
    }
  }

  lemma KeysAppend(a: seq<Article>, b: seq<Article>, key: KeyOf)
    ensures Keys(a + b, key) == Keys(a, key) + Keys(b, key)
  {
    forall k ensures k in Keys(a + b, key) <==> k in Keys(a, key) + Keys(b, key) {
      if k in Keys(a + b, key) {
        var j :| 0 <= j < |a + b| && key((a + b)[j]) == k;
        if j >= |a| {
          assert b[j - |a|] == (a + b)[j];
        }
      } else {
        forall j | 0 <= j < |b| ensures key(b[j]) != k {
          assert (a + b)[|a| + j] == b[j];
        }
        forall j | 0 <= j < |a| ensures key(a[j]) != k {
          assert (a + b)[j] == a[j];
        }
      }
    }
  }

  /** The data lines `saveToCSV` writes, one per article. */
  function Rows(articles: seq<Article>): (rows: seq<string>)
    ensures |rows| == |articles|
  {
    seq(|articles|, i requires 0 <= i < |articles| => CsvRow(articles[i]))
  }

  /** The file `saveToCSV` writes: the header, then the rows, joined by newlines. */
  function CsvFile(articles: seq<Article>): string {
    Join([Header()] + Rows(articles), "\n")
  }

  /** Values a CSV line can carry: single lines, and counts without quotes or commas. */
  predicate Writable(a: Article) {
    PlainMetrics(a) && forall k :: 0 <= k < |Values(a)| ==> '\n' !in Values(a)[k]
  }

  /** The header holds no line break. */
  lemma HeaderOneLine()
    ensures '\n' !in Header()
  {
    HeaderNamesPlain();
    JoinKeeps(HeaderNames, ",", '\n');
  }

  /** What fix-article-data.js reads back from a file the scraper wrote: one
      data line per article, split by `parseCSVLine` into the article's values,
      so that the title and the date are its first two fields. */
  lemma SavedFileReadBack(articles: seq<Article>)
    requires forall i :: 0 <= i < |articles| ==> Writable(articles[i])
    ensures ArticleFix.DataLines(Some(CsvFile(articles))) == Rows(articles)
    ensures forall i :: 0 <= i < |articles| ==> Csv.Fields(Rows(articles)[i], false) == Values(articles[i])
  {
    HeaderOneLine();
    forall i | 0 <= i < |articles| ensures '\n' !in Rows(articles)[i] {
      CsvRowOneLine(articles[i]);
    }
    LinesReadBack(Header(), Rows(articles), "\n");
    forall i | 0 <= i < |articles| ensures Csv.Fields(Rows(articles)[i], false) == Values(articles[i]) {
      CsvRowRoundTrip(articles[i]);
    }
  }

  /** Persuasion's copies of articles that belong to the YM list are left to
      the YM import. */
  predicate Skipped(a: Article, source: string) {
    source == "persuasion" && Default(a.listName, source) == "ym"
  }

  /** The number of skipped articles. */
  function SkipCount(articles: seq<Article>, source: string): (n: nat)
    decreases |articles|
    ensures n <= |articles|
  {
    if articles == [] then 0
    else SkipCount(articles[..|articles| - 1], source) + if Skipped(articles[|articles| - 1], source) then 1 else 0
  }

  /** The row an imported article becomes, under the given id. */
  function RowOf(a: Article, source: string, id: nat, fl: Floats): Row {
    Row(id, a.title, a.date, source, ViewCount(a.views, fl.thousands), Some(OpenRate(a.openRate, fl)),
        Some(JsNumbers.ParseIntOrZero(a.paidSubs)))
  }

  /** One article of the import: unless skipped, it replaces the row with
      its key and takes the next id. */
  function ImportStep(t: (seq<Row>, nat), a: Article, source: string, fl: Floats): (seq<Row>, nat) {
    if Skipped(a, source) then t
    else (WithoutKey(t.0, (a.title, a.date, source)) + [RowOf(a, source, t.1, fl)], t.1 + 1)
  }

  /** The table after importing the articles in order: each one not skipped
      replaces the row with its key and takes the next id. */
  function Imported(rows: seq<Row>, next: nat, articles: seq<Article>, source: string, fl: Floats): (t: (seq<Row>, nat))
    decreases |articles|
    ensures t.1 == next + |articles| - SkipCount(articles, source)
  {
    if articles == [] then (rows, next)
    else
      var t := Imported(rows, next, articles[..|articles| - 1], source, fl);
      ImportStep(t, articles[|articles| - 1], source, fl)
  }

  lemma SkipCountStep(articles: seq<Article>, source: string, i: nat)
    requires i < |articles|
    ensures SkipCount(articles[..i + 1], source) == SkipCount(articles[..i], source) + if Skipped(articles[i], source) then 1 else 0
  {
    assert articles[..i + 1][..i] == articles[..i];
  }

  lemma ImportedStep(rows: seq<Row>, next: nat, articles: seq<Article>, source: string, fl: Floats, i: nat)
    requires i < |articles|
    ensures Imported(rows, next, articles[..i + 1], source, fl) ==
              ImportStep(Imported(rows, next, articles[..i], source, fl), articles[i], source, fl)
  {
    assert articles[..i + 1][..i] == articles[..i];
  }

  /** The loop of `importToDatabase`. Its statements cannot fail in this
      model, so every article that is not skipped counts as imported. */
  method ImportArticles(table: Table, articles: seq<Article>, source: string, fl: Floats)
    returns (imported: nat, skipped: nat)
    requires table.Valid()
    modifies table
    ensures table.Valid()
    ensures (table.rows, table.nextId) == Imported(old(table.rows), old(table.nextId), articles, source, fl)
    ensures skipped == SkipCount(articles, source) && imported + skipped == |articles|
  {
    imported, skipped := 0, 0;
    var i := 0;
    while i < |articles|
      invariant i <= |articles| && table.Valid()
      invariant (table.rows, table.nextId) == Imported(old(table.rows), old(table.nextId), articles[..i], source, fl)
      invariant skipped == SkipCount(articles[..i], source) && imported + skipped == i
    {
      ImportedStep(old(table.rows), old(table.nextId), articles, source, fl, i);
      SkipCountStep(articles, source, i);
      var wasSkipped := ImportOne(table, articles[i], source, fl);
      if wasSkipped {
        skipped := skipped + 1;
      } else {
        imported := imported + 1;
      }
      i := i + 1;
    }
    assert articles[..i] == articles;
  }

  /** The body of the loop for one article: a Persuasion copy of a YM
      article is skipped, any other replaces the row with its key. */
  method ImportOne(table: Table, a: Article, source: string, fl: Floats) returns (wasSkipped: bool)
    requires table.Valid()
    modifies table
    ensures table.Valid()
    ensures wasSkipped == Skipped(a, source)
    ensures (table.rows, table.nextId) == ImportStep(old((table.rows, table.nextId)), a, source, fl)
  {
    var listName := Default(a.listName, source);
    if source == "persuasion" && listName == "ym" {
      return true;
    }
    var r := RowOf(a, source, table.nextId, fl);
    table.Upsert(a.title, a.date, source, r.views, r.openRate.value, r.paidSubs.value);
    return false;
  }

  /** Every article that is not skipped has a row with its key afterwards. */
  lemma {:induction false} ImportedPresent(rows: seq<Row>, next: nat, articles: seq<Article>, source: string, fl: Floats, i: nat)
    requires i < |articles| && !Skipped(articles[i], source)
    ensures exists r :: r in Imported(rows, next, articles, source, fl).0 && Key(r) == (articles[i].title, articles[i].date, source)
    decreases |articles|
  {
    var init := articles[..|articles| - 1];
    var a := articles[|articles| - 1];
    var t0 := Imported(rows, next, init, source, fl);
    var r0, n0 := t0.0, t0.1;
    var k := (articles[i].title, articles[i].date, source);
    var added := RowOf(a, source, n0, fl);
    var result := Imported(rows, next, articles, source, fl).0;
    if !Skipped(a, source) && k == Key(added) {
      assert result == WithoutKey(r0, k) + [added];
      assert added in result;
    } else {
      assert i < |articles| - 1;
      assert init[i] == articles[i];
      ImportedPresent(rows, next, init, source, fl, i);
      var r :| r in r0 && Key(r) == k;
      if !Skipped(a, source) {
        assert r in WithoutKey(r0, Key(added));
      }
      assert r in result;
    }
  }

  /** Every row the import adds comes from an article that is not skipped:
      a skipped article never reaches the table. */
  lemma {:induction false} ImportedRowsAdmitted(rows: seq<Row>, next: nat, articles: seq<Article>, source: string, fl: Floats)
    requires forall r :: r in rows ==> r.id < next
    ensures forall r :: r in Imported(rows, next, articles, source, fl).0 && r.id >= next ==>
              exists i :: 0 <= i < |articles| && !Skipped(articles[i], source) && r == RowOf(articles[i], source, r.id, fl)
    decreases |articles|
  {
    if articles != [] {
      var init := articles[..|articles| - 1];
      var a := articles[|articles| - 1];
      ImportedRowsAdmitted(rows, next, init, source, fl);
      forall r | r in Imported(rows, next, articles, source, fl).0 && r.id >= next
        ensures exists i :: 0 <= i < |articles| && !Skipped(articles[i], source) && r == RowOf(articles[i], source, r.id, fl)
      {
        var t0 := Imported(rows, next, init, source, fl);
        var r0, n0 := t0.0, t0.1;
        if r in r0 {
          var i :| 0 <= i < |init| && !Skipped(init[i], source) && r == RowOf(init[i], source, r.id, fl);
          assert init[i] == articles[i];
        } else {
          assert r == RowOf(a, source, n0, fl);
          assert articles[|articles| - 1] == a;
        }
      }
    }
  }
}
