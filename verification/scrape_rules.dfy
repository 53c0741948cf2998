/** The pure rules of scrape-articles.js: the list an article belongs to,
    the access type and meta fields read off the posts page, and the CSV row
    `saveToCSV` writes for an article. */
module ScrapeRules {
  import opened Text
  import Csv

  /** The five `list_name` values. */
  datatype ListName = Ym | Persuasion | Bookstack | FranklyFukuyama | AmericanPurpose

  /** The label stored in the `list_name` column. */
  function Label(l: ListName): string {
    match l
    case Ym => "ym"
    case Persuasion => "persuasion"
    case Bookstack => "bookstack"
    case FranklyFukuyama => "frankly_fukuyama"
    case AmericanPurpose => "american_purpose"
  }

  /** The list a label names, if any. */
  function ListOf(name: string): (l: Option<ListName>)
    ensures l.Some? ==> Label(l.value) == name
  {
    if name == "ym" then Some(Ym)
    else if name == "persuasion" then Some(Persuasion)
    else if name == "bookstack" then Some(Bookstack)
    else if name == "frankly_fukuyama" then Some(FranklyFukuyama)
    else if name == "american_purpose" then Some(AmericanPurpose)
    else None
  }

  /** The five labels are distinct: each is read back as its own list. */
  lemma LabelRoundTrip(l: ListName)
    ensures ListOf(Label(l)) == Some(l)
  {
  }

  /** `new Date('2023-07-01')`: midnight UTC, in milliseconds since the epoch. */
  const JulyFirst2023: int := 1688169600000

  /** `new Date(d)` as a time value; `None` is an invalid date (`NaN`), which
      compares false with everything. */
  type Clock = string -> Option<int>

  /** `articleDate && articleDate >= julyFirst2023` for the date string `d`. */
  predicate OnOrAfterJuly2023(d: string, time: Clock) {
    d != "" && time(d).Some? && time(d).value >= JulyFirst2023
  }

  predicate ByMounk(author: string) {
    Contains(Lower(author), "yascha mounk")
  }

  /** The list named by the section, checked in priority order. */
  function SectionList(section: string): (l: ListName)
    ensures l != Ym
    ensures l == Bookstack <==> Contains(Lower(section), "bookstack")
  {
    var s := Lower(section);
    if Contains(s, "bookstack") then Bookstack
    else if Contains(s, "frankly fukuyama") then FranklyFukuyama
    else if Contains(s, "american purpose") then AmericanPurpose
    else Persuasion
  }

  /** `classifyList(author, section, dateStr)`. */
  function ClassifyList(author: string, section: string, date: string, time: Clock): (l: ListName)
    ensures l == Ym <==> ByMounk(author) && OnOrAfterJuly2023(date, time)
    ensures ByMounk(author) ==> l == Ym || l == Persuasion
    ensures !ByMounk(author) ==> l == SectionList(section)
  {
    if ByMounk(author) then
      if OnOrAfterJuly2023(date, time) then Ym else Persuasion
    else SectionList(section)
  }

  /** The author rule comes first: for a Yascha Mounk article the section plays no part. */
  lemma AuthorBeforeSection(author: string, s1: string, s2: string, date: string, time: Clock)
    requires ByMounk(author)
    ensures ClassifyList(author, s1, date, time) == ClassifyList(author, s2, date, time)
  {
  }

  /** A section naming several lists goes to the first one in priority order. */
  lemma SectionPriority(section: string)
    requires Contains(Lower(section), "frankly fukuyama") && Contains(Lower(section), "american purpose")
    ensures SectionList(section) in {Bookstack, FranklyFukuyama}
  {
  }

  /** The access type shown on a title line. */
  datatype Access = Paid | Preview | Free

  function AccessLabel(a: Access): string {
    match a
    case Paid => "paid"
    case Preview => "preview"
    case Free => "free"
  }

  /** `Paid` anywhere on the line wins over `Preview`; neither means free. */
  function AccessType(line: string): (a: Access)
    ensures a == Paid <==> Contains(line, "Paid")
    ensures a == Preview <==> !Contains(line, "Paid") && Contains(line, "Preview")
  {
    if Contains(line, "Paid") then Paid
    else if Contains(line, "Preview") then Preview
    else Free
  }

  /** A string that is not in `s` does not appear in `s + tail` when `tail`
      lacks its last character. */
  lemma NotAcross(s: string, tail: string, t: string)
    requires |t| > 0 && !Contains(s, t) && t[|t| - 1] !in tail
    ensures !Contains(s + tail, t)
  {
    var line := s + tail;
    if Contains(line, t) {
      var k := Find(line, t).value;
      assert line[k..k + |t|] == t;
      if k + |t| <= |s| {
        assert line[k..k + |t|] == s[k..k + |t|];
        ContainsAt(s, t, k);
      }
    }
  }

  /** A title followed by its badge is classified by the badge, unless the
      title itself holds `Paid`. */
  lemma BadgeDecides(title: string, badge: string)
    requires badge == "Paid" || (badge == "Preview" && !Contains(title, "Paid"))
    ensures AccessLabel(AccessType(title + " " + badge)) == (if badge == "Paid" then "paid" else "preview")
  {
    assert OccursAt(badge, badge, 0);
    ContainsExtend(badge, badge, title + " ");
    assert title + " " + badge == title + (" " + badge);
    if badge != "Paid" {
      NotAcross(title, " " + badge, "Paid");
    }
  }

  /** The separator characters of a meta line. */
  predicate IsBullet(c: char) {
    c == '•' || c == '·'
  }

  predicate NoBullet(s: string) {
    forall k :: 0 <= k < |s| ==> !IsBullet(s[k])
  }

  /** The first bullet at or after `i`. */
  function FirstBullet(s: string, i: nat): (r: Option<nat>)
    requires i <= |s|
    decreases |s| - i
    ensures r.Some? ==> i <= r.value < |s| && IsBullet(s[r.value])
    ensures forall k :: i <= k < |s| && (r.None? || k < r.value) ==> !IsBullet(s[k])
  {
    if i == |s| then None
    else if IsBullet(s[i]) then Some(i)
    else FirstBullet(s, i + 1)
  }

  /** `line.split(/\s*[•·]\s*\/)`: each bullet, with the white space around
      it, separates two parts. */
  function MetaParts(line: string): (parts: seq<string>)
    decreases |line|
    ensures |parts| >= 1
  {
    match FirstBullet(line, 0)
    case None => [line]
    case Some(q) => [TrimEnd(line[..q])] + MetaParts(TrimStart(line[q + 1..]))
  }

  /** The date, author and section of a post. */
  datatype Meta = Meta(date: string, author: string, section: string)

  /** Part `k`, trimmed, or `''` when the line has fewer parts. */
  function MetaPart(parts: seq<string>, k: nat): string {
    if k < |parts| then Trim(parts[k]) else ""
  }

  /** The first three parts. */
  function MetaOf(parts: seq<string>): Meta {
    Meta(MetaPart(parts, 0), MetaPart(parts, 1), MetaPart(parts, 2))
  }

  /** The meta line of a post. */
  function MetaFields(line: string): Meta {
    MetaOf(MetaParts(line))
  }

  /** A part before a bullet ends where its trailing white space starts, and
      the rest starts after the white space that follows the bullet. */
  lemma MetaPartsCons(x: string, b: char, rest: string)
    requires NoBullet(x) && IsBullet(b)
    ensures MetaParts(x + [b] + rest) == [TrimEnd(x)] + MetaParts(TrimStart(rest))
  {
    var s := x + [b] + rest;
    assert s[|x|] == b;
    assert forall k :: 0 <= k < |x| ==> s[k] == x[k];
    assert FirstBullet(s, 0) == Some(|x|);
    assert s[..|x|] == x;
    assert s[|x| + 1..] == rest;
  }

  lemma MetaPartsOne(x: string)
    requires NoBullet(x)
    ensures MetaParts(x) == [x]
  {
    assert FirstBullet(x, 0).None?;
  }

  lemma TrimEndSpace(x: string, sp: string)
    requires sp == " " && (x == [] || !IsSpace(x[|x| - 1]))
    ensures TrimEnd(x + sp) == x
  {
    assert (x + sp)[..|x|] == x;
  }

  lemma TrimStartSpace(sp: string, y: string)
    requires sp == " " && (y == [] || !IsSpace(y[0]))
    ensures TrimStart(sp + y) == y
  {
    assert (sp + y)[1..] == y;
  }

  lemma TrimTight(x: string)
    requires Trim(x) == x
    ensures x == [] || (!IsSpace(x[0]) && !IsSpace(x[|x| - 1]))
  {
  }

  /** One ` • ` separator after a tight part: the part is whole and the
      rest starts right after the separator. */
  lemma MetaStep(x: string, sep: string, rest: string)
    requires sep == " • "
    requires NoBullet(x) && (x == [] || !IsSpace(x[|x| - 1]))
    requires rest == [] || !IsSpace(rest[0])
    ensures MetaParts(x + sep + rest) == [x] + MetaParts(rest)
  {
    var sp := " ";
    var b := '•';
    assert x + sep + rest == (x + sp) + [b] + (sp + rest);
    assert NoBullet(x + sp);
    MetaPartsCons(x + sp, b, sp + rest);
    TrimEndSpace(x, sp);
    TrimStartSpace(sp, rest);
  }

  lemma HeadOfAppend(a: string, b: string)
    requires a != []
    ensures (a + b)[0] == a[0]
  {
  }

  lemma MetaOfParts(a: string, b: string, c: string)
    ensures MetaOf([a] + ([b] + [c])) == Meta(Trim(a), Trim(b), Trim(c))
  {
    var parts := [a] + ([b] + [c]);
    assert |parts| == 3 && parts[0] == a && parts[1] == b && parts[2] == c;
  }

  lemma MetaPartsOfLine(date: string, author: string, section: string, sep: string)
    requires sep == " • "
    requires NoBullet(date) && NoBullet(author) && NoBullet(section)
    requires date == [] || !IsSpace(date[|date| - 1])
    requires author != [] && !IsSpace(author[0]) && !IsSpace(author[|author| - 1])
    requires section == [] || !IsSpace(section[0])
    ensures MetaParts(date + sep + (author + sep + section)) == [date] + ([author] + [section])
  {
    HeadOfAppend(author, sep);
    HeadOfAppend(author + sep, section);
    MetaStep(date, sep, author + sep + section);
    MetaStep(author, sep, section);
    MetaPartsOne(section);
  }

  /** A meta line as the page writes it, `date • author • section`, gives its
      three fields back. */
  lemma MetaOfLine(date: string, author: string, section: string, sep: string)
    requires sep == " • "
    requires NoBullet(date) && NoBullet(author) && NoBullet(section)
    requires Trim(date) == date && Trim(author) == author && Trim(section) == section
    requires author != ""
    ensures MetaFields(date + sep + (author + sep + section)) == Meta(date, author, section)
  {
    TrimTight(date);
    TrimTight(author);
    TrimTight(section);
    MetaPartsOfLine(date, author, section, sep);
    MetaOfParts(date, author, section);
  }

  /** A meta line without bullets is all date: no author and no section. */
  lemma MetaOfDateOnly(line: string)
    requires NoBullet(line)
    ensures MetaFields(line) == Meta(Trim(line), "", "")
  {
    MetaPartsOne(line);
  }

  /** An article as the scraper collects it; every value is a string, the
      date is the parsed one and `listName` is set once the page is processed. */
  datatype Article = Article(
    title: string, date: string, author: string, section: string, listName: string,
    articleType: string, accessType: string,
    views: string, openRate: string, paidSubs: string, freeSubs: string, revenue: string,
    engagement: string, recipients: string, shares: string, likes: string, comments: string)

  /** The header line of the exported CSV files. */
  const HeaderNames: seq<string> := ["title", "date", "author", "list_name", "article_type", "access_type",
    "views", "open_rate", "new_paid_subs", "new_free_subs", "estimated_revenue", "engagement_rate",
    "recipients", "shares", "likes", "comments"]

  function Header(): string {
    Join(HeaderNames, ",")
  }

  /** The ten count columns, each `'0'` when empty. */
  function Metrics(a: Article): (ms: seq<string>)
    ensures |ms| == 10
    ensures forall k :: 0 <= k < 10 ==> ms[k] != ""
  {
    [Default(a.views, "0"), Default(a.openRate, "0"), Default(a.paidSubs, "0"), Default(a.freeSubs, "0"),
     Default(a.revenue, "0"), Default(a.engagement, "0"), Default(a.recipients, "0"), Default(a.shares, "0"),
     Default(a.likes, "0"), Default(a.comments, "0")]
  }

  /** The values a row stands for, in header order. */
  function Values(a: Article): seq<string> {
    [a.title, a.date, a.author, a.listName, Default(a.articleType, "article"), Default(a.accessType, "free")]
      + Metrics(a)
  }

  /** The cells of a row: the six text columns escaped, the counts as they are. */
  function Cells(a: Article): (cells: seq<string>)
    ensures |cells| == |HeaderNames|
  {
    [Csv.Escape(Some(a.title)), Csv.Escape(Some(a.date)), Csv.Escape(Some(a.author)), Csv.Escape(Some(a.listName)),
     Csv.Escape(Some(Default(a.articleType, "article"))), Csv.Escape(Some(Default(a.accessType, "free")))]
      + Metrics(a)
  }

  /** One line of the CSV file. */
  function CsvRow(a: Article): string {
    Join(Cells(a), ",")
  }

  /** The count columns hold neither quotes nor commas (the scraper strips
      the commas from views). */
  predicate PlainMetrics(a: Article) {
    forall k :: 0 <= k < 10 ==> '"' !in Metrics(a)[k] && ',' !in Metrics(a)[k]
  }

  /** `parseCSVLine` reads a written row back as the article's sixteen values,
      whatever quotes and commas the text columns hold. */
  lemma CsvRowRoundTrip(a: Article)
    requires PlainMetrics(a)
    ensures Csv.Fields(CsvRow(a), false) == Values(a)
    ensures |Values(a)| == |HeaderNames| == 16
  {
    var cells, values := Cells(a), Values(a);
    forall i | 0 <= i < |cells| ensures Csv.Encodes(cells[i], values[i]) {
      if i >= 6 {
        assert cells[i] == values[i] == Metrics(a)[i - 6];
      }
    }
    Csv.RowRoundTrip(cells, values);
  }

  /** A column name needs no quoting and holds no line break. */
  predicate PlainName(s: string) {
    '"' !in s && ',' !in s && '\n' !in s
  }

  predicate PlainNames(names: seq<string>, i: nat, j: nat) {
    i <= j <= |names| && forall k :: i <= k < j ==> PlainName(names[k])
  }

  /** Every column name is plain; the names are checked two at a time. */
  lemma HeaderNamesPlain()
    ensures forall k :: 0 <= k < |HeaderNames| ==> PlainName(HeaderNames[k])
  {
    NamesPlain0();
    NamesPlain2();
    NamesPlain4();
    NamesPlain6();
    NamesPlain8();
    NamesPlain10();
    NamesPlain12();
    NamesPlain14();
  }

  lemma NamesPlain0() ensures PlainNames(HeaderNames, 0, 2) {
    assert PlainName(HeaderNames[0]) && PlainName(HeaderNames[1]);
  }

  lemma NamesPlain2() ensures PlainNames(HeaderNames, 2, 4) {
    assert PlainName(HeaderNames[2]) && PlainName(HeaderNames[3]);
  }

  lemma NamesPlain4() ensures PlainNames(HeaderNames, 4, 6) {
    assert PlainName(HeaderNames[4]) && PlainName(HeaderNames[5]);
  }

  lemma NamesPlain6() ensures PlainNames(HeaderNames, 6, 8) {
    assert PlainName(HeaderNames[6]) && PlainName(HeaderNames[7]);
  }

  lemma NamesPlain8() ensures PlainNames(HeaderNames, 8, 10) {
    assert PlainName(HeaderNames[8]) && PlainName(HeaderNames[9]);
  }

  lemma NamesPlain10() ensures PlainNames(HeaderNames, 10, 12) {
    assert PlainName(HeaderNames[10]) && PlainName(HeaderNames[11]);
  }

  lemma NamesPlain12() ensures PlainNames(HeaderNames, 12, 14) {
    assert PlainName(HeaderNames[12]) && PlainName(HeaderNames[13]);
  }

  lemma NamesPlain14() ensures PlainNames(HeaderNames, 14, 16) {
    assert PlainName(HeaderNames[14]) && PlainName(HeaderNames[15]);
  }

  /** The header is read back as the sixteen column names. */
  lemma HeaderRoundTrip()
    ensures Csv.Fields(Header(), false) == HeaderNames
  {
    HeaderNamesPlain();
    forall i | 0 <= i < |HeaderNames| ensures Csv.Encodes(HeaderNames[i], HeaderNames[i]) {
      assert PlainName(HeaderNames[i]);
    }
    Csv.RowRoundTrip(HeaderNames, HeaderNames);
  }

  /** Doubling quotes adds no other character. */
  lemma {:induction false} DoubledKeeps(s: string, c: char)
    requires c != '"' && c !in s
    ensures c !in Csv.Doubled(s)
  {
    if s != [] {
      DoubledKeeps(s[1..], c);
    }
  }

  /** No part holds `c`, so neither does their join, for a separator without `c`. */
  lemma {:induction false} JoinKeeps(xs: seq<string>, sep: string, c: char)
    requires c !in sep && forall k :: 0 <= k < |xs| ==> c !in xs[k]
    ensures c !in Join(xs, sep)
    decreases |xs|
  {
    if |xs| > 1 {
      JoinKeeps(xs[1..], sep, c);
    }
  }

  /** A row of an article whose values are single lines is a single line. */
  lemma CsvRowOneLine(a: Article)
    requires forall k :: 0 <= k < |Values(a)| ==> '\n' !in Values(a)[k]
    ensures '\n' !in CsvRow(a)
  {
    var cells, values := Cells(a), Values(a);
    CellsOfValues(a);
    EscapedKeep(values, cells, '\n');
    JoinKeeps(cells, ",", '\n');
  }

  /** The first six cells are the escaped text values, the rest the counts. */
  lemma CellsOfValues(a: Article)
    ensures |Cells(a)| == |Values(a)|
    ensures forall k :: 0 <= k < 6 ==> Cells(a)[k] == Csv.Escape(Some(Values(a)[k]))
    ensures forall k :: 6 <= k < |Cells(a)| ==> Cells(a)[k] == Values(a)[k]
  {
  }

  /** Escaping the first six values adds no character other than quotes. */
  lemma EscapedKeep(values: seq<string>, cells: seq<string>, c: char)
    requires c != '"' && |cells| == |values| >= 6
    requires forall k :: 0 <= k < 6 ==> cells[k] == Csv.Escape(Some(values[k]))
    requires forall k :: 6 <= k < |cells| ==> cells[k] == values[k]
    requires forall k :: 0 <= k < |values| ==> c !in values[k]
    ensures forall k :: 0 <= k < |cells| ==> c !in cells[k]
  {
    forall k | 0 <= k < 6 ensures c !in cells[k] {
      DoubledKeeps(values[k], c);
    }
  }
}
