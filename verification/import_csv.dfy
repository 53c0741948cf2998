/** import-csv.js: the legacy importer. Its reader picks the fields of a line
    with the regular expression `/"([^"]*)"|([^,]+)/g` and strips one quote
    from each end of every match; its main loop upserts every record of the
    YM file and then of the Persuasion file. */
module ImportCsv {
  import opened Text
  import opened ArticleTable
  import JsNumbers
  import opened Metrics
  import Csv
  import ArticleFix

  /** The position of the first quote in `s`. */
  function QuoteIndex(s: string): (r: Option<nat>)
    ensures r.Some? ==> r.value < |s| && s[r.value] == '"' && '"' !in s[..r.value]
    ensures r.None? ==> '"' !in s
  {
    if s == [] then None
    else if s[0] == '"' then Some(0)
    else match QuoteIndex(s[1..])
      case None => None
      case Some(j) => assert s[..j + 1] == [s[0]] + s[1..][..j]; Some(j + 1)
  }

  /** The length of the run of non-comma characters that starts `s`. */
  function RunLength(s: string): (n: nat)
    ensures n <= |s| && ',' !in s[..n]
    ensures n < |s| ==> s[n] == ','
  {
    if s == [] || s[0] == ',' then 0
    else
      var n := RunLength(s[1..]);
      assert s[..n + 1] == [s[0]] + s[1..][..n];
      n + 1
  }

  /** The matches of the regular expression, left to right: at a quote that
      has a closing quote after it, the quoted text up to that closing quote
      (commas included); at a comma, nothing; at any other character
      (a quote without a partner too), the longest run without a comma. */
  function Tokens(s: string): (ts: seq<string>)
    decreases |s|
    ensures forall k :: 0 <= k < |ts| ==> ts[k] != ""
  {
    if s == [] then []
    else if s[0] == ',' then Tokens(s[1..])
    else if s[0] == '"' && QuoteIndex(s[1..]).Some? then
      var j := QuoteIndex(s[1..]).value;
      [s[..j + 2]] + Tokens(s[j + 2..])
    else
      var n := RunLength(s);
      [s[..n]] + Tokens(s[n..])
  }

  /** `f.replace(/^"|"$/g, '')`: one quote off the front and one off the end. */
  function Strip(f: string): (r: string)
    ensures |r| <= |f|
    ensures '"' !in f ==> r == f
  {
    var a := if f != [] && f[0] == '"' then 1 else 0;
    var b := if |f| > a && f[|f| - 1] == '"' then |f| - 1 else |f|;
    f[a..b]
  }

  /** The fields of a line: every token with its outer quotes stripped. */
  function Fields(line: string): (fs: seq<string>)
    ensures |fs| == |Tokens(line)|
  {
    var ts := Tokens(line);
    seq(|ts|, k requires 0 <= k < |ts| => Strip(ts[k]))
  }

  /** `fields[k]`, or the empty string (falsy, like `undefined`) past the end. */
  function At(fields: seq<string>, k: nat): string {
    if k < |fields| then fields[k] else ""
  }

  /** The record `parseCSV` builds from a line. */
  datatype Record = Record(title: string, date: string, views: string, openRate: string,
                           paidSubs: string, source: string)

  /** The record of a line: the first five fields, title and date defaulting
      to `''` and the three counts to `'0'`, tagged with the file's source. */
  function RecordOf(line: string, source: string): (r: Record)
    ensures var fs := Fields(line);
            && r.source == source
            && r.views != "" && r.openRate != "" && r.paidSubs != ""
            && (|fs| > 0 && fs[0] != "" ==> r.title == fs[0])
            && (|fs| > 1 && fs[1] != "" ==> r.date == fs[1])
            && (|fs| > 2 && fs[2] != "" ==> r.views == fs[2])
            && (|fs| <= 2 ==> r.views == "0" && r.openRate == "0" && r.paidSubs == "0")
  {
    var fs := Fields(line);
    Record(Default(At(fs, 0), ""), Default(At(fs, 1), ""), Default(At(fs, 2), "0"),
           Default(At(fs, 3), "0"), Default(At(fs, 4), "0"), source)
  }

  /** `lines.filter(l => l.trim())`. */
  function NonBlank(lines: seq<string>): (r: seq<string>)
    ensures |r| <= |lines|
    ensures forall k :: 0 <= k < |r| ==> Trim(r[k]) != ""
  {
    if lines == [] then []
    else if Trim(lines[0]) == "" then NonBlank(lines[1..])
    else [lines[0]] + NonBlank(lines[1..])
  }

  /** Lines that are none of them blank are all kept. */
  lemma {:induction false} NonBlankKeepsAll(lines: seq<string>)
    requires forall k :: 0 <= k < |lines| ==> Trim(lines[k]) != ""
    ensures NonBlank(lines) == lines
  {
    if lines != [] {
      NonBlankKeepsAll(lines[1..]);
      assert lines == [lines[0]] + lines[1..];
    }
  }

  function Records(lines: seq<string>, source: string): (rs: seq<Record>)
    ensures |rs| == |lines|
    ensures forall k :: 0 <= k < |rs| ==> rs[k] == RecordOf(lines[k], source)
  {
    seq(|lines|, k requires 0 <= k < |lines| => RecordOf(lines[k], source))
  }

  /** `parseCSV`: a missing file gives no records; otherwise the lines after
      the header that are not blank, one record each. */
  function ParseCsv(file: Option<string>, source: string): (rs: seq<Record>)
    ensures file.None? ==> rs == []
    ensures forall k :: 0 <= k < |rs| ==> rs[k].source == source
  {
    Records(NonBlank(ArticleFix.DataLines(file)), source)
  }

  /** A file made of a header and lines without line breaks gives one record
      per line that is not blank, in order: the header is never a record. */
  lemma FileReadBack(header: string, lines: seq<string>, source: string)
    requires '\n' !in header && forall k :: 0 <= k < |lines| ==> '\n' !in lines[k]
    ensures ParseCsv(Some(Join([header] + lines, "\n")), source) == Records(NonBlank(lines), source)
  {
    LinesReadBack(header, lines, "\n");
  }

  /** How the reader starts on a comma, a quoted text or a plain run. */
  lemma TokensOfComma(x: string)
    ensures Tokens("," + x) == Tokens(x)
  {
    assert ("," + x)[1..] == x;
  }

  lemma {:induction false} QuoteIndexOf(v: string, x: string)
    requires '"' !in v
    ensures QuoteIndex(v + "\"" + x) == Some(|v|)
    decreases |v|
  {
    if v != [] {
      assert (v + "\"" + x)[1..] == v[1..] + "\"" + x;
      QuoteIndexOf(v[1..], x);
    }
  }

  lemma TokensOfQuoted(v: string, x: string)
    requires '"' !in v
    ensures Tokens(Quote(v) + x) == [Quote(v)] + Tokens(x)
  {
    var s := Quote(v) + x;
    assert s[1..] == v + "\"" + x;
    QuoteIndexOf(v, x);
    assert s[..|v| + 2] == Quote(v);
    assert s[|v| + 2..] == x;
  }

  lemma {:induction false} RunLengthOf(v: string, x: string)
    requires ',' !in v && (x == [] || x[0] == ',')
    ensures RunLength(v + x) == |v|
    decreases |v|
  {
    if v != [] {
      assert (v + x)[1..] == v[1..] + x;
      RunLengthOf(v[1..], x);
    }
  }

  lemma TokensOfPlain(v: string, x: string)
    requires Plain(v) && (x == [] || x[0] == ',')
    ensures Tokens(v + x) == Present(v) + Tokens(x)
  {
    if v == [] {
      assert v + x == x;
    } else {
      RunLengthOf(v, x);
      assert (v + x)[0] == v[0];
      assert (v + x)[..|v|] == v;
      assert (v + x)[|v|..] == x;
    }
  }

  /** `[v]`, or nothing for the empty value. */
  function Present(v: string): seq<string> {
    if v == "" then [] else [v]
  }

  /** The values that are not empty, in order. */
  function NonEmpty(vs: seq<string>): (r: seq<string>)
    ensures |r| <= |vs|
    ensures forall k :: 0 <= k < |r| ==> r[k] != "" && r[k] in vs
  {
    if vs == [] then [] else Present(vs[0]) + NonEmpty(vs[1..])
  }

  /** A value without commas and quotes. */
  predicate Plain(v: string) {
    ',' !in v && '"' !in v
  }

  /** A line split into its first value and the comma-led rest. */
  lemma JoinFirst(vs: seq<string>, sep: string)
    requires |vs| >= 2
    ensures Join(vs, sep) == vs[0] + (sep + Join(vs[1..], sep))
  {
  }

  lemma {:induction false} PlainTokens(vs: seq<string>)
    requires |vs| >= 1 && forall k :: 0 <= k < |vs| ==> Plain(vs[k])
    ensures Tokens(Join(vs, ",")) == NonEmpty(vs)
    decreases |vs|
  {
    if |vs| == 1 {
      TokensOfPlain(vs[0], "");
      assert vs[0] + "" == vs[0];
    } else {
      var rest := Join(vs[1..], ",");
      JoinFirst(vs, ",");
      TokensOfPlain(vs[0], "," + rest);
      TokensOfComma(rest);
      assert forall k :: 0 <= k < |vs| - 1 ==> Plain(vs[1..][k]);
      PlainTokens(vs[1..]);
    }
  }

  /** Tokens without quotes are fields as they stand. */
  lemma FieldsOfQuoteFree(line: string)
    requires forall k :: 0 <= k < |Tokens(line)| ==> '"' !in Tokens(line)[k]
    ensures Fields(line) == Tokens(line)
  {
  }

  /** Values without commas and quotes, joined by commas, are read back
      without the empty ones: an empty field gives no token, so every field
      after it moves one place to the left. */
  lemma PlainFields(vs: seq<string>)
    requires |vs| >= 1 && forall k :: 0 <= k < |vs| ==> Plain(vs[k])
    ensures Fields(Join(vs, ",")) == NonEmpty(vs)
  {
    PlainTokens(vs);
    FieldsOfQuoteFree(Join(vs, ","));
  }

  /** A line with an empty date between a title and a views count: the
      views count lands in the date column, and the views default to `'0'`. */
  lemma EmptyFieldShifts(t: string, v: string, source: string)
    requires t != "" && v != "" && Plain(t) && Plain(v)
    ensures RecordOf(t + ",," + v, source) == Record(t, v, "0", "0", "0", source)
  {
    var vs := [t, "", v];
    PlainFields(vs);
    JoinFirst(vs, ",");
    JoinFirst(vs[1..], ",");
    assert vs[1..][1..] == [v];
    assert Join(vs, ",") == t + ",," + v;
    assert NonEmpty(vs[2..]) == [v] by { assert vs[2..][1..] == []; }
    assert NonEmpty(vs) == [t, v] by { assert vs[1..][1..] == vs[2..]; }
  }

  /** `"v"`. */
  function Quote(v: string): string {
    "\"" + v + "\""
  }

  function Quoted(vs: seq<string>): (r: seq<string>)
    ensures |r| == |vs| && forall k :: 0 <= k < |vs| ==> r[k] == Quote(vs[k])
  {
    seq(|vs|, k requires 0 <= k < |vs| => Quote(vs[k]))
  }

  lemma {:induction false} QuotedTokens(vs: seq<string>)
    requires |vs| >= 1 && forall k :: 0 <= k < |vs| ==> '"' !in vs[k]
    ensures Tokens(Join(Quoted(vs), ",")) == Quoted(vs)
    decreases |vs|
  {
    var qs := Quoted(vs);
    if |vs| == 1 {
      TokensOfQuoted(vs[0], "");
      assert Quote(vs[0]) + "" == Quote(vs[0]);
      assert qs == [Quote(vs[0])];
    } else {
      var rest := Join(qs[1..], ",");
      JoinFirst(qs, ",");
      TokensOfQuoted(vs[0], "," + rest);
      TokensOfComma(rest);
      assert qs[1..] == Quoted(vs[1..]);
      QuotedTokens(vs[1..]);
      assert qs == [qs[0]] + qs[1..];
    }
  }

  /** The quotes around a quote-free value are stripped. */
  lemma StripQuote(v: string)
    requires '"' !in v
    ensures Strip(Quote(v)) == v
  {
    assert Quote(v)[1..|v| + 1] == v;
  }

  /** Values without quotes, written in quotes, are read back as they are,
      the empty ones and those holding commas included. */
  lemma QuotedFields(vs: seq<string>)
    requires |vs| >= 1 && forall k :: 0 <= k < |vs| ==> '"' !in vs[k]
    ensures Fields(Join(Quoted(vs), ",")) == vs
  {
    QuotedTokens(vs);
    forall k | 0 <= k < |vs| ensures Strip(Quoted(vs)[k]) == vs[k] {
      StripQuote(vs[k]);
    }
  }

  /** Doubling leaves a text without quotes as it is. */
  lemma {:induction false} DoubledPlain(v: string)
    requires '"' !in v
    ensures Csv.Doubled(v) == v
    decreases |v|
  {
    if v != [] {
      DoubledPlain(v[1..]);
      assert v == [v[0]] + v[1..];
    }
  }

  lemma {:induction false} DoubledAppend(a: string, b: string)
    ensures Csv.Doubled(a + b) == Csv.Doubled(a) + Csv.Doubled(b)
    decreases |a|
  {
    if a != [] {
      var head := if a[0] == '"' then "\"\"" else [a[0]];
      assert (a + b)[0] == a[0];
      assert (a + b)[1..] == a[1..] + b;
      assert Csv.Doubled(a + b) == head + Csv.Doubled(a[1..] + b);
      DoubledAppend(a[1..], b);
      assert Csv.Doubled(a) == head + Csv.Doubled(a[1..]);
    } else {
      assert a + b == b;
    }
  }

  /** A value with one quote in it has that quote doubled. */
  lemma DoubledOneQuote(x: string, y: string)
    requires '"' !in x && '"' !in y
    ensures Csv.Doubled(x + "\"" + y) == x + "\"\"" + y
  {
    DoubledAppend(x + "\"", y);
    DoubledAppend(x, "\"");
    DoubledPlain(x);
    DoubledPlain(y);
    assert Csv.Doubled("\"") == "\"\"";
  }

  /** How scrape-articles.js escapes a value with one quote in it: as the two
      quote-free halves, each in quotes. */
  lemma EscapeOneQuote(x: string, y: string)
    requires '"' !in x && '"' !in y
    ensures Csv.Escape(Some(x + "\"" + y)) == Quote(x) + Quote(y)
  {
    DoubledOneQuote(x, y);
  }

  /** The reader does not undo the writer's doubled quotes: a value with one
      quote in it, escaped as scrape-articles.js escapes it, is read as two
      fields, the text before and the text after the quote, where
      `parseCSVLine` reads the value back. */
  lemma DoubledQuoteSplits(x: string, y: string)
    requires '"' !in x && '"' !in y
    ensures Fields(Csv.Escape(Some(x + "\"" + y))) == [x, y]
    ensures Csv.Fields(Csv.Escape(Some(x + "\"" + y)), false) == [x + "\"" + y]
  {
    var v := x + "\"" + y;
    var line := Csv.Escape(Some(v));
    EscapeOneQuote(x, y);
    TokensOfQuoted(x, Quote(y));
    TokensOfQuoted(y, "");
    assert Quote(y) + "" == Quote(y);
    assert Tokens(line) == [Quote(x), Quote(y)];
    StripQuote(x);
    StripQuote(y);
    Csv.LastCell(line, v);
  }

  /** The three numbers `main` computes from a record. */
  datatype Counts = Counts(views: int, openRate: real, paidSubs: int)

  /** The views as `ViewCount` reads them, the open rate as a float, the paid
      subscriptions by `parseInt`, `NaN` counting as 0. */
  function CountsOf(r: Record, fl: Floats): Counts {
    Counts(ViewCount(r.views, fl.thousands), OpenRate(r.openRate, fl), JsNumbers.ParseIntOrZero(r.paidSubs))
  }

  /** A record whose views are digits grouped by commas stores that number. */
  lemma CountsOfGrouped(r: Record, fl: Floats, n: nat)
    requires RemoveCommas(r.views) == JsNumbers.NatToString(n)
    ensures CountsOf(r, fl).views == n
  {
    ViewCountOfGrouped(n, r.views, fl.thousands);
  }

  /** How the loader turns a record into its numbers. */
  type Convert = Record -> Counts

  function Converter(fl: Floats): Convert {
    r => CountsOf(r, fl)
  }

  /** The row `main` upserts for a record. */
  function RowOf(r: Record, id: nat, c: Counts): Row {
    Row(id, r.title, r.date, r.source, c.views, Some(c.openRate), Some(c.paidSubs))
  }

  function KeyOf(r: Record): (string, string, string) {
    (r.title, r.date, r.source)
  }

  function LoadStep(t: (seq<Row>, nat), r: Record, conv: Convert): (seq<Row>, nat) {
    (WithoutKey(t.0, KeyOf(r)) + [RowOf(r, t.1, conv(r))], t.1 + 1)
  }

  /** The table after upserting the records in order. */
  function Loaded(rows: seq<Row>, next: nat, records: seq<Record>, conv: Convert): (t: (seq<Row>, nat))
    decreases |records|
    ensures t.1 == next + |records|
  {
    if records == [] then (rows, next)
    else LoadStep(Loaded(rows, next, records[..|records| - 1], conv), records[|records| - 1], conv)
  }

  lemma LoadedStep(rows: seq<Row>, next: nat, records: seq<Record>, conv: Convert, i: nat)
    requires i < |records|
    ensures Loaded(rows, next, records[..i + 1], conv) == LoadStep(Loaded(rows, next, records[..i], conv), records[i], conv)
  {
    assert records[..i + 1][..i] == records[..i];
  }

  /** One pass of the loop body: the numbers of the record, then
      `INSERT OR REPLACE` of its row. */
  method ImportOne(table: Table, r: Record, fl: Floats)
    requires table.Valid()
    modifies table
    ensures table.Valid()
    ensures (table.rows, table.nextId) == LoadStep(old((table.rows, table.nextId)), r, Converter(fl))
  {
    var c := CountsOf(r, fl);
    assert Converter(fl)(r) == c;
    table.Upsert(r.title, r.date, r.source, c.views, c.openRate, c.paidSubs);
  }

  /** The loop of `main` over the YM records and then the Persuasion records.
      `INSERT OR REPLACE` cannot fail on these rows, so every record counts. */
  method ImportAll(table: Table, ym: seq<Record>, persuasion: seq<Record>, fl: Floats) returns (imported: nat)
    requires table.Valid()
    modifies table
    ensures table.Valid()
    ensures (table.rows, table.nextId) == Loaded(old(table.rows), old(table.nextId), ym + persuasion, Converter(fl))
    ensures imported == |ym| + |persuasion|
  {
    var records := ym + persuasion;
    imported := 0;
    var i := 0;
    while i < |records|
      invariant i <= |records| && table.Valid() && imported == i
      invariant (table.rows, table.nextId) == Loaded(old(table.rows), old(table.nextId), records[..i], Converter(fl))
    {
      LoadedStep(old(table.rows), old(table.nextId), records, Converter(fl), i);
      ImportOne(table, records[i], fl);
      imported := imported + 1;
      i := i + 1;
    }
    assert records[..i] == records;
  }

  /** `main`: the YM file's records, then the Persuasion file's, each tagged
      with its source; a missing file adds nothing. */
  method ImportFiles(table: Table, ymFile: Option<string>, persuasionFile: Option<string>, fl: Floats)
    returns (imported: nat)
    requires table.Valid()
    modifies table
    ensures table.Valid()
    ensures var ym, p := ParseCsv(ymFile, "ym"), ParseCsv(persuasionFile, "persuasion");
            (table.rows, table.nextId) == Loaded(old(table.rows), old(table.nextId), ym + p, Converter(fl))
            && imported == |ym| + |p|
  {
    var ym := ParseCsv(ymFile, "ym");
    var persuasion := ParseCsv(persuasionFile, "persuasion");
    imported := ImportAll(table, ym, persuasion, fl);
  }

  /** A step keeps a row whose key differs from the record's. */
  lemma LoadStepKeeps(t: (seq<Row>, nat), r: Record, conv: Convert, x: Row)
    requires x in t.0 && Key(x) != KeyOf(r)
    ensures x in LoadStep(t, r, conv).0
  {
  }

  /** The rows after a step: the kept ones and the record's. */
  lemma LoadStepRows(t: (seq<Row>, nat), r: Record, conv: Convert)
    ensures RowOf(r, t.1, conv(r)) in LoadStep(t, r, conv).0
    ensures forall x :: x in LoadStep(t, r, conv).0 ==> (x in t.0 && Key(x) != KeyOf(r)) || x == RowOf(r, t.1, conv(r))
  {
  }

  lemma LoadedLast(rows: seq<Row>, next: nat, records: seq<Record>, conv: Convert)
    requires records != []
    ensures Loaded(rows, next, records, conv) ==
              LoadStep(Loaded(rows, next, records[..|records| - 1], conv), records[|records| - 1], conv)
  {
  }

  /** Every record leaves a row with its key. */
  lemma {:induction false} LoadedPresent(rows: seq<Row>, next: nat, records: seq<Record>, conv: Convert, i: nat)
    requires i < |records|
    ensures exists x :: x in Loaded(rows, next, records, conv).0 && Key(x) == KeyOf(records[i])
    decreases |records|
  {
    var init := records[..|records| - 1];
    var last := records[|records| - 1];
    var t0 := Loaded(rows, next, init, conv);
    LoadedLast(rows, next, records, conv);
    if KeyOf(records[i]) == KeyOf(last) {
      LoadStepRows(t0, last, conv);
      var x := RowOf(last, t0.1, conv(last));
      assert x in Loaded(rows, next, records, conv).0 && Key(x) == KeyOf(records[i]);
    } else {
      assert init[i] == records[i];
      LoadedPresent(rows, next, init, conv, i);
      var x :| x in t0.0 && Key(x) == KeyOf(records[i]);
      LoadStepKeeps(t0, last, conv, x);
      assert x in Loaded(rows, next, records, conv).0;
    }
  }

  /** No record after the `i`-th has its key. */
  predicate LastWithKey(records: seq<Record>, i: nat)
    requires i < |records|
  {
    forall j :: i < j < |records| ==> KeyOf(records[j]) != KeyOf(records[i])
  }

  /** `x` is the row of a record that no later record shares a key with. */
  predicate RowOfLast(records: seq<Record>, x: Row, conv: Convert) {
    exists i :: 0 <= i < |records| && x == RowOf(records[i], x.id, conv(records[i])) && LastWithKey(records, i)
  }

  /** A row that stands for the last record of its key stays so when a
      record with another key follows. */
  lemma KeptRowOfLast(records: seq<Record>, x: Row, conv: Convert)
    requires records != [] && RowOfLast(records[..|records| - 1], x, conv)
    requires Key(x) != KeyOf(records[|records| - 1])
    ensures RowOfLast(records, x, conv)
  {
    var init := records[..|records| - 1];
    var i :| 0 <= i < |init| && x == RowOf(init[i], x.id, conv(init[i])) && LastWithKey(init, i);
    assert init[i] == records[i];
    forall j | i < j < |records| ensures KeyOf(records[j]) != KeyOf(records[i]) {
      if j < |init| {
        assert init[j] == records[j];
      }
    }
  }

  /** `INSERT OR REPLACE` lets the last record with a key win: every row the
      import adds is the row of a record that no later record shares a key with. */
  lemma {:induction false} LastRecordWins(rows: seq<Row>, next: nat, records: seq<Record>, conv: Convert)
    requires forall x :: x in rows ==> x.id < next
    ensures forall x :: x in Loaded(rows, next, records, conv).0 && x.id >= next ==> RowOfLast(records, x, conv)
    decreases |records|
  {
    if records != [] {
      var init := records[..|records| - 1];
      var last := records[|records| - 1];
      var t0 := Loaded(rows, next, init, conv);
      LastRecordWins(rows, next, init, conv);
      LoadedLast(rows, next, records, conv);
      LoadStepRows(t0, last, conv);
      forall x | x in Loaded(rows, next, records, conv).0 && x.id >= next
        ensures RowOfLast(records, x, conv)
      {
        if x in t0.0 && Key(x) != KeyOf(last) {
          KeptRowOfLast(records, x, conv);
        } else {
          assert x == RowOf(last, x.id, conv(last)) && LastWithKey(records, |records| - 1);
        }
      }
    }
  }
}
