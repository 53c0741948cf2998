/** fix-article-data.js: a title-to-date map is built from the two exported
    CSV files, stored dates are corrected from it, and rows that share a
    lower-cased title are merged into the one with the most views. */
module ArticleFix {
  import opened Text
  import opened ArticleTable
  import Csv
  import FixDates

  /** `parseDate(originalDate, 2026)`: the script's parser with the short-date
      year fixed; the field is `None` when the line has no second column. */
  type DateParser = Option<string> -> Option<string>

  /** The map key of a title: `title.toLowerCase().trim()`. */
  function TitleKey(title: string): string {
    Trim(Lower(title))
  }

  /** The data lines of a CSV file: `split('\n').slice(1)`; a missing file has none. */
  function DataLines(file: Option<string>): seq<string> {
    if file.None? then [] else Split(file.value, "\n")[1..]
  }

  /** What a data line contributes: the key of its title, the parsed date,
      and whether the original date spells out a year (`includes('202')`). */
  datatype Dated = Dated(key: string, date: string, explicit: bool)

  /** A blank line, an empty title or a date the parser rejects gives nothing. */
  function LineEntry(line: string, parse: DateParser): Option<Dated> {
    if Trim(line) == "" then None
    else
      var fields := Csv.Fields(line, false);
      var original := if |fields| > 1 then Some(fields[1]) else None;
      var iso := parse(original);
      if fields[0] != "" && iso.Some? && iso.value != "" then
        Some(Dated(TitleKey(fields[0]), iso.value, original.Some? && Contains(original.value, "202")))
      else None
  }

  function Get(m: map<string, string>, k: string): Option<string> {
    if k in m then Some(m[k]) else None
  }

  /** The first of two lookups that finds something. */
  function Or(a: Option<string>, b: Option<string>): Option<string> {
    if a.Some? then a else b
  }

  /** A YM line: its entry is always written. */
  function YmStep(m: map<string, string>, e: Option<Dated>): map<string, string> {
    if e.Some? then m[e.value.key := e.value.date] else m
  }

  /** A Persuasion line: an entry with an explicit year is written, any
      other entry only when its key is absent. */
  function PersuasionStep(m: map<string, string>, e: Option<Dated>): map<string, string> {
    if e.Some? && (e.value.explicit || e.value.key !in m) then m[e.value.key := e.value.date] else m
  }

  /** The entries of the lines, in order. */
  function Entries(lines: seq<string>, parse: DateParser): (es: seq<Option<Dated>>)
    ensures |es| == |lines|
  {
    seq(|lines|, i requires 0 <= i < |lines| => LineEntry(lines[i], parse))
  }

  /** The YM pass, line by line. */
  function YmFold(m: map<string, string>, es: seq<Option<Dated>>): map<string, string> {
    if es == [] then m else YmStep(YmFold(m, es[..|es| - 1]), es[|es| - 1])
  }

  /** The Persuasion pass, line by line. */
  function PersuasionFold(m: map<string, string>, es: seq<Option<Dated>>): map<string, string> {
    if es == [] then m else PersuasionStep(PersuasionFold(m, es[..|es| - 1]), es[|es| - 1])
  }

  /** `buildDateMapFromCSVs`: the YM file first, then the Persuasion file. */
  function DateMap(ym: Option<string>, persuasion: Option<string>, parse: DateParser): map<string, string> {
    PersuasionFold(YmFold(map[], Entries(DataLines(ym), parse)), Entries(DataLines(persuasion), parse))
  }

  /** The date of the last entry with key `k` (with an explicit year, when `explicitOnly`). */
  function LastDate(es: seq<Option<Dated>>, k: string, explicitOnly: bool): Option<string> {
    if es == [] then None
    else
      var e := es[|es| - 1];
      if e.Some? && e.value.key == k && (e.value.explicit || !explicitOnly) then Some(e.value.date)
      else LastDate(es[..|es| - 1], k, explicitOnly)
  }

  /** The date of the first entry with key `k`. */
  function FirstDate(es: seq<Option<Dated>>, k: string): Option<string> {
    if es == [] then None
    else
      var e := es[|es| - 1];
      Or(FirstDate(es[..|es| - 1], k), if e.Some? && e.value.key == k then Some(e.value.date) else None)
  }

  /** After the YM pass a key holds the date of its last YM line. */
  lemma {:induction false} YmFoldLookup(m: map<string, string>, es: seq<Option<Dated>>, k: string)
    ensures Get(YmFold(m, es), k) == Or(LastDate(es, k, false), Get(m, k))
  {
    if es != [] {
      YmFoldLookup(m, es[..|es| - 1], k);
    }
  }

  /** After the Persuasion pass a key holds the date of its last Persuasion
      line with an explicit year; failing that, what it held before; failing
      that, the date of its first Persuasion line. */
  lemma {:induction false} PersuasionFoldLookup(m: map<string, string>, es: seq<Option<Dated>>, k: string)
    ensures Get(PersuasionFold(m, es), k) == Or(LastDate(es, k, true), Or(Get(m, k), FirstDate(es, k)))
  {
    if es != [] {
      PersuasionFoldLookup(m, es[..|es| - 1], k);
    }
  }

  /** The override rule for the whole map: a Persuasion date with an explicit
      year beats a YM date, which beats a Persuasion date without one; among
      YM lines and among explicit Persuasion lines the last wins, among the
      other Persuasion lines the first. */
  lemma DateMapLookup(ym: Option<string>, persuasion: Option<string>, parse: DateParser, k: string)
    ensures var y, p := Entries(DataLines(ym), parse), Entries(DataLines(persuasion), parse);
            Get(DateMap(ym, persuasion, parse), k) == Or(LastDate(p, k, true), Or(LastDate(y, k, false), FirstDate(p, k)))
  {
    var y, p := Entries(DataLines(ym), parse), Entries(DataLines(persuasion), parse);
    YmFoldLookup(map[], y, k);
    PersuasionFoldLookup(YmFold(map[], y), p, k);
  }

  /** The number of lines that give an entry (`count` in the Persuasion pass). */
  function EntryCount(es: seq<Option<Dated>>): (n: nat)
    ensures n <= |es|
  {
    if es == [] then 0 else EntryCount(es[..|es| - 1]) + if es[|es| - 1].Some? then 1 else 0
  }

  /** The body shared by both passes: split the line and parse its date. */
  method ReadLine(line: string, parse: DateParser) returns (e: Option<Dated>)
    ensures e == LineEntry(line, parse)
  {
    if Trim(line) == "" {
      return None;
    }
    var fields := Csv.ParseLine(line);
    var title := fields[0];
    var original := if |fields| > 1 then Some(fields[1]) else None;
    var iso := parse(original);
    if title != "" && iso.Some? && iso.value != "" {
      e := Some(Dated(TitleKey(title), iso.value, original.Some? && Contains(original.value, "202")));
    } else {
      e := None;
    }
  }

  /** The YM pass of `buildDateMapFromCSVs` over the lines of the file. */
  method YmPass(lines: seq<string>, parse: DateParser) returns (dates: map<string, string>)
    ensures dates == YmFold(map[], Entries(lines, parse))
  {
    dates := map[];
    ghost var es := Entries(lines, parse);
    var i := 0;
    while i < |lines|
      invariant i <= |lines|
      invariant dates == YmFold(map[], es[..i])
    {
      assert es[..i + 1][..i] == es[..i];
      var e := ReadLine(lines[i], parse);
      assert e == es[i];
      if e.Some? {
        dates := dates[e.value.key := e.value.date];
      }
      i := i + 1;
    }
    assert es[..i] == es;
  }

  /** The Persuasion pass of `buildDateMapFromCSVs`, starting from the map
      the YM pass built; `count` is the number of lines with an entry. */
  method PersuasionPass(start: map<string, string>, lines: seq<string>, parse: DateParser)
    returns (dates: map<string, string>, count: nat)
    ensures dates == PersuasionFold(start, Entries(lines, parse))
    ensures count == EntryCount(Entries(lines, parse))
  {
    dates := start;
    ghost var es := Entries(lines, parse);
    count := 0;
    var i := 0;
    while i < |lines|
      invariant i <= |lines|
      invariant dates == PersuasionFold(start, es[..i])
      invariant count == EntryCount(es[..i])
    {
      PersuasionPrefix(start, es, i);
      var e := ReadLine(lines[i], parse);
      assert e == es[i];
      ghost var before := dates;
      if e.Some? {
        if e.value.explicit {
          dates := dates[e.value.key := e.value.date];
        } else if e.value.key !in dates {
          dates := dates[e.value.key := e.value.date];
        }
        count := count + 1;
      }
      assert dates == PersuasionStep(before, e);
      i := i + 1;
    }
    assert es[..i] == es;
  }

  lemma PersuasionPrefix(start: map<string, string>, es: seq<Option<Dated>>, i: nat)
    requires i < |es|
    ensures PersuasionFold(start, es[..i + 1]) == PersuasionStep(PersuasionFold(start, es[..i]), es[i])
    ensures EntryCount(es[..i + 1]) == EntryCount(es[..i]) + if es[i].Some? then 1 else 0
  {
    assert es[..i + 1][..i] == es[..i];
  }

  /** `buildDateMapFromCSVs`, with each file's text or `None` when it does
      not exist; `count` is the number of Persuasion lines with an entry. */
  method BuildDateMap(ym: Option<string>, persuasion: Option<string>, parse: DateParser)
    returns (dates: map<string, string>, count: nat)
    ensures dates == DateMap(ym, persuasion, parse)
    ensures count == EntryCount(Entries(DataLines(persuasion), parse))
  {
    dates := YmPass(DataLines(ym), parse);
    dates, count := PersuasionPass(dates, DataLines(persuasion), parse);
  }

  /** The date the fix loop writes into a row: the map has a (non-empty)
      date for the key of its title and it differs from the stored one. The
      script looks titles up by `TitleKey`. */
  function Target(r: Row, dates: map<string, string>, key: string -> string): (d: Option<string>)
    ensures d.Some? ==> d.value != r.date && key(r.title) in dates && d.value == dates[key(r.title)]
    ensures d.None? ==> key(r.title) !in dates || dates[key(r.title)] in {"", r.date}
  {
    var c := Get(dates, key(r.title));
    if c.Some? && c.value != "" && c.value != r.date then c else None
  }

  /** The map has no date for the row's title (`!correctDate`). */
  predicate NotFound(r: Row, dates: map<string, string>, key: string -> string) {
    key(r.title) !in dates || dates[key(r.title)] == ""
  }

  function NotFoundCount(rows: seq<Row>, k: nat, dates: map<string, string>, key: string -> string): (n: nat)
    requires k <= |rows|
    ensures n <= k
  {
    if k == 0 then 0 else NotFoundCount(rows, k - 1, dates, key) + if NotFound(rows[k - 1], dates, key) then 1 else 0
  }

  lemma NotFoundStep(rows: seq<Row>, k: nat, dates: map<string, string>, key: string -> string)
    requires k < |rows|
    ensures var c := Get(dates, key(rows[k].title));
            NotFoundCount(rows, k + 1, dates, key) == NotFoundCount(rows, k, dates, key) + if c.None? || c.value == "" then 1 else 0
  {
  }

  /** `t` agrees with `rows` from `k` on, and every row kept its date or took its target. */
  predicate Retargeted(rows: seq<Row>, t: seq<Row>, k: nat, dates: map<string, string>, key: string -> string) {
    |t| == |rows|
    && (forall j :: k <= j < |rows| ==> t[j] == rows[j])
    && forall j :: 0 <= j < |rows| ==> t[j] == rows[j] || (Target(rows[j], dates, key).Some? && t[j] == rows[j].(date := Target(rows[j], dates, key).value))
  }

  /** The table the fix loop leaves after visiting the first `k` rows: row
      `k - 1` takes its target date unless that breaks the unique key of the
      table so far, in which case the error is caught and the row is left
      alone. */
  function Retargeting(rows: seq<Row>, k: nat, dates: map<string, string>, key: string -> string): (t: seq<Row>)
    requires k <= |rows|
    ensures |t| == |rows|
  {
    if k == 0 then rows
    else
      var t := Retargeting(rows, k - 1, dates, key);
      var d := Target(rows[k - 1], dates, key);
      if d.Some? && !Clashes(t, k - 1, rows[k - 1].(date := d.value)) then t[k - 1 := rows[k - 1].(date := d.value)] else t
  }

  /** The loop writes nothing but a target date, and only into rows it has visited. */
  lemma {:induction false} RetargetingPartly(rows: seq<Row>, k: nat, dates: map<string, string>, key: string -> string)
    requires k <= |rows|
    ensures Retargeted(rows, Retargeting(rows, k, dates, key), k, dates, key)
  {
    if k > 0 {
      RetargetingPartly(rows, k - 1, dates, key);
    }
  }

  /** A visit that updates row `k` exactly when the loop's update succeeds
      leaves the table `Retargeting` describes one row further on, and the
      count of changed rows grows by one exactly then. */
  lemma RetargetVisit(rows: seq<Row>, before: seq<Row>, after: seq<Row>, k: nat, dates: map<string, string>, key: string -> string, updated: bool)
    requires k < |rows| && before == Retargeting(rows, k, dates, key)
    requires updated <==> Target(rows[k], dates, key).Some? && !Clashes(before, k, rows[k].(date := Target(rows[k], dates, key).value))
    requires after == if updated then before[k := rows[k].(date := Target(rows[k], dates, key).value)] else before
    ensures after == Retargeting(rows, k + 1, dates, key)
    ensures FixDates.ChangedCount(rows, after, k + 1) == FixDates.ChangedCount(rows, before, k) + if updated then 1 else 0
  {
    RetargetingPartly(rows, k, dates, key);
    if updated {
      assert after[k].date != rows[k].date;
    }
    FixDates.ChangedCountStep(rows, before, after, k);
  }

  /** The date-fix loop over the rows read at its start. An update that
      breaks the unique key is caught and skipped. The result is the table
      `Retargeting` describes: every row keeps its date or takes the map's
      date for its title. `fixed` counts the rows that changed, and
      `notFound` the rows whose title has no date. */
  method FixFromMap(table: Table, dates: map<string, string>, key: string -> string) returns (fixed: nat, notFound: nat)
    requires table.Valid()
    modifies table
    ensures table.Valid() && table.rows == Retargeting(old(table.rows), |old(table.rows)|, dates, key)
    ensures Retargeted(old(table.rows), table.rows, |table.rows|, dates, key)
    ensures fixed == FixDates.ChangedCount(old(table.rows), table.rows, |table.rows|)
    ensures notFound == NotFoundCount(old(table.rows), |old(table.rows)|, dates, key)
  {
    var rows := table.rows;
    fixed, notFound := 0, 0;
    var k := 0;
    while k < |rows|
      invariant k <= |rows| && table.Valid()
      invariant table.rows == Retargeting(rows, k, dates, key)
      invariant fixed == FixDates.ChangedCount(rows, table.rows, k)
      invariant notFound == NotFoundCount(rows, k, dates, key)
    {
      var r := rows[k];
      ghost var before := table.rows;
      RetargetingPartly(rows, k, dates, key);
      var correct := Get(dates, key(r.title));
      NotFoundStep(rows, k, dates, key);
      var updated := false;
      if correct.Some? && correct.value != "" && correct.value != r.date {
        IndexOfUnique(before, table.nextId, k);
        updated := table.UpdateDate(r.id, correct.value);
        if updated {
          fixed := fixed + 1;
        }
      } else if correct.None? || correct.value == "" {
        notFound := notFound + 1;
      }
      RetargetVisit(rows, before, table.rows, k, dates, key, updated);
      k := k + 1;
    }
    RetargetingPartly(rows, |rows|, dates, key);
  }

  /** The first two steps of `fixArticleData`: the date map built from the two
      CSV files, then the fix loop, which looks each title up by `TitleKey`. */
  method FixDatesFromCsvs(table: Table, ym: Option<string>, persuasion: Option<string>, parse: DateParser)
    returns (dates: map<string, string>, fixed: nat, notFound: nat)
    requires table.Valid()
    modifies table
    ensures dates == DateMap(ym, persuasion, parse)
    ensures table.Valid() && table.rows == Retargeting(old(table.rows), |old(table.rows)|, dates, TitleKey)
    ensures Retargeted(old(table.rows), table.rows, |table.rows|, dates, TitleKey)
    ensures fixed == FixDates.ChangedCount(old(table.rows), table.rows, |table.rows|)
    ensures notFound == NotFoundCount(old(table.rows), |old(table.rows)|, dates, TitleKey)
  {
    var count;
    dates, count := BuildDateMap(ym, persuasion, parse);
    fixed, notFound := FixFromMap(table, dates, TitleKey);
  }

  /** The merged statistics of one group of versions. */
  datatype Merge = Merge(keepId: nat, views: int, openRate: real, subs: int, source: string, deleteIds: seq<nat>)

  function RateOrZero(r: Row): real {
    if r.openRate.Some? then r.openRate.value else 0.0
  }

  function SubsOrZero(r: Row): int {
    if r.paidSubs.Some? then r.paidSubs.value else 0
  }

  function MaxReal(a: real, b: real): real {
    if a >= b then a else b
  }

  /** One step of the views rule, with the keeper's views `keep`: a later
      version with views counts only if it has more than the total so far
      (when the keeper has views) or replaces the total (when it has none). */
  function ViewsStep(total: int, keep: int, del: int): int {
    if del > 0 && keep > 0 then (if total >= del then total else del)
    else if del > 0 then del
    else total
  }

  /** `totalViews` after the loop over `vs[1..]`. */
  function TotalViews(vs: seq<Row>): int
    requires |vs| >= 1
  {
    if |vs| == 1 then vs[0].views
    else ViewsStep(TotalViews(vs[..|vs| - 1]), vs[0].views, vs[|vs| - 1].views)
  }

  /** `maxOpenRate` once the loop has run: missing rates count as 0. */
  function MaxRate(vs: seq<Row>): real
    requires |vs| >= 1
  {
    if |vs| == 1 then RateOrZero(vs[0]) else MaxReal(MaxRate(vs[..|vs| - 1]), RateOrZero(vs[|vs| - 1]))
  }

  /** `totalSubs`: missing counts are 0. */
  function TotalSubs(vs: seq<Row>): int {
    if vs == [] then 0 else TotalSubs(vs[..|vs| - 1]) + SubsOrZero(vs[|vs| - 1])
  }

  /** Some version is from YM and has views. */
  predicate HasYmViews(vs: seq<Row>) {
    exists v :: v in vs && v.source == "ym" && v.views > 0
  }

  /** `ymVersion ? 'ym' : keepSource`. */
  function BestSource(vs: seq<Row>): string
    requires |vs| >= 1
  {
    if HasYmViews(vs) then "ym" else vs[0].source
  }

  function Ids(vs: seq<Row>): (ids: seq<nat>)
    ensures |ids| == |vs| && forall i :: 0 <= i < |vs| ==> ids[i] == vs[i].id
  {
    seq(|vs|, i requires 0 <= i < |vs| => vs[i].id)
  }

  /** The keeper is the first version; every other version is deleted. */
  function MergeOf(vs: seq<Row>): Merge
    requires |vs| >= 1
  {
    Merge(vs[0].id, TotalViews(vs), MaxRate(vs), TotalSubs(vs), BestSource(vs), Ids(vs[1..]))
  }

  predicate SortedByViews(vs: seq<Row>) {
    forall i, j :: 0 <= i < j < |vs| ==> vs[i].views >= vs[j].views
  }

  /** With the versions in descending order of views, as the query returns
      them, the merged views are the keeper's. */
  lemma {:induction false} TotalViewsSorted(vs: seq<Row>)
    requires |vs| >= 1 && SortedByViews(vs)
    ensures TotalViews(vs) == vs[0].views
  {
    if |vs| > 1 {
      var init := vs[..|vs| - 1];
      assert SortedByViews(init);
      TotalViewsSorted(init);
      assert vs[|vs| - 1].views <= vs[0].views;
    }
  }

  /** When the keeper has views, in any order the merged views are the
      largest views of all versions. */
  lemma {:induction false} TotalViewsMax(vs: seq<Row>)
    requires |vs| >= 1 && vs[0].views > 0
    ensures forall v :: v in vs ==> v.views <= TotalViews(vs)
    ensures exists v :: v in vs && v.views == TotalViews(vs)
  {
    if |vs| > 1 {
      var init := vs[..|vs| - 1];
      TotalViewsMax(init);
      var last := vs[|vs| - 1];
      forall v | v in vs ensures v.views <= TotalViews(vs) {
        if v != last {
          var i :| 0 <= i < |vs| && vs[i] == v;
          assert init[i] == v;
        }
      }
      if TotalViews(vs) == last.views {
        assert last in vs;
      } else {
        var w :| w in init && w.views == TotalViews(init);
        assert w in vs;
      }
    } else {
      assert vs[0] in vs;
    }
  }

  /** The merged open rate is the largest rate of any version. */
  lemma {:induction false} MaxRateIsMax(vs: seq<Row>)
    requires |vs| >= 1
    ensures forall v :: v in vs ==> RateOrZero(v) <= MaxRate(vs)
    ensures exists v :: v in vs && RateOrZero(v) == MaxRate(vs)
  {
    if |vs| > 1 {
      var init := vs[..|vs| - 1];
      MaxRateIsMax(init);
      var last := vs[|vs| - 1];
      forall v | v in vs ensures RateOrZero(v) <= MaxRate(vs) {
        if v != last {
          var i :| 0 <= i < |vs| && vs[i] == v;
          assert init[i] == v;
        }
      }
      if MaxRate(vs) == RateOrZero(last) {
        assert last in vs;
      } else {
        var w :| w in init && RateOrZero(w) == MaxRate(init);
        assert w in vs;
      }
    } else {
      assert vs[0] in vs;
    }
  }

  /** The merged subscriber count is additive over the versions. */
  lemma {:induction false} TotalSubsAppend(a: seq<Row>, b: seq<Row>)
    ensures TotalSubs(a + b) == TotalSubs(a) + TotalSubs(b)
  {
    if b != [] {
      assert (a + b)[..|a + b| - 1] == a + b[..|b| - 1];
      TotalSubsAppend(a, b[..|b| - 1]);
    } else {
      assert a + b == a;
    }
  }

  /** The merge loop of `fixArticleData` for one group of versions. */
  method MergeStats(versions: seq<Row>) returns (m: Merge)
    requires |versions| > 1
    ensures m == MergeOf(versions)
  {
    var keep := versions[0];
    var totalViews := keep.views;
    var maxOpenRate := keep.openRate;
    var totalSubs := SubsOrZero(keep);
    var idsToDelete: seq<nat> := [];
    var i := 1;
    assert versions[..1] == [keep];
    while i < |versions|
      invariant 1 <= i <= |versions|
      invariant totalViews == TotalViews(versions[..i])
      invariant maxOpenRate == if i == 1 then keep.openRate else Some(MaxRate(versions[..i]))
      invariant totalSubs == TotalSubs(versions[..i])
      invariant idsToDelete == Ids(versions[1..i])
    {
      var del := versions[i];
      assert versions[..i + 1][..i] == versions[..i];
      assert versions[..i + 1][0] == keep;
      if del.views > 0 && keep.views > 0 {
        totalViews := if totalViews >= del.views then totalViews else del.views;
      } else if del.views > 0 {
        totalViews := del.views;
      }
      var sofar := if maxOpenRate.Some? then maxOpenRate.value else 0.0;
      maxOpenRate := Some(MaxReal(sofar, RateOrZero(del)));
      totalSubs := totalSubs + SubsOrZero(del);
      idsToDelete := idsToDelete + [del.id];
      i := i + 1;
    }
    assert versions[..i] == versions;
    m := Merge(keep.id, totalViews, maxOpenRate.value, totalSubs, BestSource(versions), idsToDelete);
  }

  /** The keeper with the merged statistics written into it. */
  function MergedRow(r: Row, m: Merge): Row {
    r.(views := m.views, openRate := Some(m.openRate), paidSubs := Some(m.subs), source := m.source)
  }

  /** Writing the merged statistics into the keeper breaks the unique key. */
  predicate StatsClash(rows: seq<Row>, vs: seq<Row>)
    requires |vs| >= 1
  {
    var found := IndexOfId(rows, vs[0].id);
    found.Some? && Clashes(rows, found.value, MergedRow(rows[found.value], MergeOf(vs)))
  }

  /** The rows after the keeper's update. */
  function StatsUpdated(rows: seq<Row>, vs: seq<Row>): (r: seq<Row>)
    requires |vs| >= 1
    ensures |r| == |rows|
  {
    match IndexOfId(rows, vs[0].id)
    case None => rows
    case Some(i) => rows[i := MergedRow(rows[i], MergeOf(vs))]
  }

  /** The rows after deleting each id of `ids` in turn. */
  function WithoutIds(rows: seq<Row>, ids: seq<nat>): (r: seq<Row>)
    ensures forall x :: x in r <==> x in rows && x.id !in ids
  {
    if ids == [] then rows else WithoutId(WithoutIds(rows, ids[..|ids| - 1]), ids[|ids| - 1])
  }

  lemma {:induction false} WithoutIdsConsistent(rows: seq<Row>, nextId: nat, ids: seq<nat>)
    requires Consistent(rows, nextId)
    ensures Consistent(WithoutIds(rows, ids), nextId)
  {
    if ids != [] {
      WithoutIdsConsistent(rows, nextId, ids[..|ids| - 1]);
      WithoutIdConsistent(WithoutIds(rows, ids[..|ids| - 1]), nextId, ids[|ids| - 1]);
    }
  }

  /** Deletes the ids in order; `merged` counts the statements. */
  method DeleteAll(table: Table, ids: seq<nat>) returns (merged: nat)
    requires table.Valid()
    modifies table
    ensures table.Valid() && table.nextId == old(table.nextId)
    ensures table.rows == WithoutIds(old(table.rows), ids) && merged == |ids|
  {
    ghost var start := table.rows;
    merged := 0;
    while merged < |ids|
      invariant merged <= |ids|
      invariant table.Valid() && table.nextId == old(table.nextId)
      invariant table.rows == WithoutIds(start, ids[..merged])
    {
      assert ids[..merged + 1][..merged] == ids[..merged];
      table.Delete(ids[merged]);
      merged := merged + 1;
    }
    assert ids[..merged] == ids;
  }

  /** One group of the duplicate merge as written: the keeper is updated
      first and the other versions are deleted after. The update is not
      guarded, so when it breaks the unique key the script stops with the
      error and nothing is saved (`ok` is false). */
  method ApplyMerge(table: Table, versions: seq<Row>) returns (merged: nat, ok: bool)
    requires table.Valid()
    modifies table
    ensures table.Valid()
    ensures |versions| <= 1 ==> ok && merged == 0 && table.rows == old(table.rows)
    ensures |versions| > 1 ==> (ok <==> !StatsClash(old(table.rows), versions))
    ensures !ok ==> table.rows == old(table.rows)
    ensures |versions| > 1 && ok ==>
              merged == |versions| - 1
              && table.rows == WithoutIds(StatsUpdated(old(table.rows), versions), Ids(versions[1..]))
  {
    if |versions| <= 1 {
      return 0, true;
    }
    var m := MergeStats(versions);
    ok := table.UpdateStats(m.keepId, m.views, m.openRate, m.subs, m.source);
    if !ok {
      return 0, false;
    }
    merged := DeleteAll(table, m.deleteIds);
  }

  /** The rows of one duplicate group: distinct rows of the table sharing
      the lower-cased title of the first, and every such row of the table. */
  predicate Group(rows: seq<Row>, vs: seq<Row>) {
    |vs| >= 1
    && (forall i, j :: 0 <= i < j < |vs| ==> vs[i].id != vs[j].id)
    && (forall v :: v in vs ==> v in rows && Lower(v.title) == Lower(vs[0].title))
    && (forall r :: r in rows && Lower(r.title) == Lower(vs[0].title) ==> r in vs)
  }

  /** Once only the keeper has the group's lower-cased title, a row with the
      keeper's title cannot take another row's key. */
  lemma OnlyKeeperLeft(left: seq<Row>, nextId: nat, i: nat, r: Row)
    requires Consistent(left, nextId) && i < |left| && r.title == left[i].title
    requires forall x :: x in left && Lower(x.title) == Lower(left[i].title) ==> x.id == left[i].id
    ensures !Clashes(left, i, r)
  {
  }

  /** A row of a consistent table is found by its id. */
  lemma RowFound(rows: seq<Row>, nextId: nat, x: Row)
    requires Consistent(rows, nextId) && x in rows
    ensures IndexOfId(rows, x.id).Some? && rows[IndexOfId(rows, x.id).value] == x
  {
    var a :| 0 <= a < |rows| && rows[a] == x;
    IndexOfUnique(rows, nextId, a);
  }

  /** Deleting the other versions leaves the keeper as the group's only row. */
  lemma KeeperAlone(rows: seq<Row>, vs: seq<Row>)
    requires Group(rows, vs) && |vs| > 1
    ensures vs[0] in WithoutIds(rows, Ids(vs[1..]))
    ensures forall x :: x in WithoutIds(rows, Ids(vs[1..])) && Lower(x.title) == Lower(vs[0].title) ==> x.id == vs[0].id
  {
    var ids := Ids(vs[1..]);
    assert vs[0] in vs;
    forall c | 0 <= c < |ids| ensures ids[c] != vs[0].id {
      assert ids[c] == vs[c + 1].id;
    }
    forall x | x in WithoutIds(rows, ids) && Lower(x.title) == Lower(vs[0].title)
      ensures x.id == vs[0].id
    {
      var b :| 0 <= b < |vs| && vs[b] == x;
    }
  }

  /** With the other versions deleted first, no row is left that the
      keeper's new key could collide with. */
  lemma NoClashAfterDeletes(rows: seq<Row>, nextId: nat, vs: seq<Row>)
    requires Consistent(rows, nextId) && Group(rows, vs) && |vs| > 1
    ensures IndexOfId(WithoutIds(rows, Ids(vs[1..])), vs[0].id).Some?
    ensures !StatsClash(WithoutIds(rows, Ids(vs[1..])), vs)
  {
    var left := WithoutIds(rows, Ids(vs[1..]));
    WithoutIdsConsistent(rows, nextId, Ids(vs[1..]));
    KeeperAlone(rows, vs);
    RowFound(left, nextId, vs[0]);
    var i := IndexOfId(left, vs[0].id).value;
    OnlyKeeperLeft(left, nextId, i, MergedRow(left[i], MergeOf(vs)));
  }

  /** The intended order: delete the other versions, then update the
      keeper. On a whole group this never breaks the unique key, so the
      merge always goes through. */
  method ApplyMergeDeletingFirst(table: Table, versions: seq<Row>) returns (merged: nat)
    requires table.Valid() && Group(table.rows, versions)
    modifies table
    ensures table.Valid()
    ensures |versions| <= 1 ==> merged == 0 && table.rows == old(table.rows)
    ensures |versions| > 1 ==>
              merged == |versions| - 1
              && table.rows == StatsUpdated(WithoutIds(old(table.rows), Ids(versions[1..])), versions)
  {
    if |versions| <= 1 {
      return 0;
    }
    var m := MergeStats(versions);
    NoClashAfterDeletes(table.rows, table.nextId, versions);
    merged := DeleteAll(table, m.deleteIds);
    var ok := table.UpdateStats(m.keepId, m.views, m.openRate, m.subs, m.source);
  }

  /** A Persuasion copy with more views and a YM copy of one article with the
      same date: the merged source is `ym`, so updating the keeper first
      gives it the YM copy's key and the merge as written fails. */
  lemma MergeClashExample(t: string, d: string)
    requires t == "T" && d == "2025-01-01"
    ensures var rows := [Row(1, t, d, "persuasion", 10, None, None), Row(2, t, d, "ym", 5, None, None)];
            Consistent(rows, 3) && Group(rows, rows) && SortedByViews(rows) && StatsClash(rows, rows)
  {
    var rows := [Row(1, t, d, "persuasion", 10, None, None), Row(2, t, d, "ym", 5, None, None)];
    assert rows[1] in rows;
    assert HasYmViews(rows);
    assert IndexOfId(rows, 1) == Some(0);
    assert Key(rows[1]) == Key(MergedRow(rows[0], MergeOf(rows)));
  }
}
