/** fix-dates.js: every row whose `published_date` does not have the shape
    `____-__-__` is visited in table order, and a date that `parseDate`
    understands is written back with an `UPDATE`. The loop is stated for a
    date parser `parse`; the script runs it with `ParseDate`. */
module FixDates {
  import opened Text
  import opened ArticleTable
  import Dates

  /** A date parser: the new date for a stored date, or `None` (`null`). */
  type Parser = string -> Option<string>

  /** fix-dates.js `parseDate` applied to a stored date. */
  function ParseDate(d: string): (r: Option<string>)
    ensures r.Some? ==> Dates.IsIso(r.value)
    ensures d == "" ==> r.None?
  {
    Dates.FixDatesParse(Some(d))
  }

  /** `published_date LIKE '____-__-__'`: ten characters with dashes at 4 and 7. */
  predicate IsoShaped(d: string) {
    |d| == 10 && d[4] == '-' && d[7] == '-'
  }

  /** The date the script writes into a row, if it touches the row: the row
      is selected by the query and the parser does not give `null`. */
  function Repair(r: Row, parse: Parser): (d: Option<string>)
    ensures d.Some? <==> !IsoShaped(r.date) && parse(r.date).Some?
    ensures d.Some? ==> d == parse(r.date)
  {
    if IsoShaped(r.date) then None else parse(r.date)
  }

  /** A parser that never gives back a date the query selects unchanged. */
  ghost predicate MovesOff(parse: Parser) {
    forall d :: !IsoShaped(d) && parse(d).Some? ==> parse(d).value != d
  }

  /** The query never selects an ISO-shaped date and `parseDate` only gives
      ISO dates, so every row the script updates really changes. */
  lemma ParseDateMovesOff()
    ensures MovesOff(ParseDate)
  {
    forall d | !IsoShaped(d) && ParseDate(d).Some?
      ensures ParseDate(d).value != d
    {
      assert Dates.IsIso(ParseDate(d).value);
    }
  }

  function RepairRow(r: Row, parse: Parser): (s: Row)
    ensures s.id == r.id && s.title == r.title && s.source == r.source
    ensures Repair(r, parse).None? ==> s == r
    ensures Repair(r, parse).Some? ==> s.date == Repair(r, parse).value
  {
    match Repair(r, parse)
    case Some(d) => r.(date := d)
    case None => r
  }

  /** The table after the first `k` rows were visited. */
  function Progress(rows: seq<Row>, k: nat, parse: Parser): (p: seq<Row>)
    ensures |p| == |rows|
    ensures forall j :: 0 <= j < |rows| ==> p[j].id == rows[j].id
  {
    seq(|rows|, j requires 0 <= j < |rows| => if j < k then RepairRow(rows[j], parse) else rows[j])
  }

  /** The number of rows among the first `k` that are updated. */
  function RepairCount(rows: seq<Row>, k: nat, parse: Parser): (n: nat)
    requires k <= |rows|
    ensures n <= k
  {
    if k == 0 then 0 else RepairCount(rows, k - 1, parse) + (if Repair(rows[k - 1], parse).Some? then 1 else 0)
  }

  /** Visiting row `k` breaks the unique key: after the earlier updates
      another row already has the title, the new date and the source. */
  predicate ClashAt(rows: seq<Row>, k: nat, parse: Parser)
    requires k < |rows|
  {
    Repair(rows[k], parse).Some? && Clashes(Progress(rows, k, parse), k, RepairRow(rows[k], parse))
  }

  /** No row among the first `k` clashes when it is visited. */
  predicate NoClashBefore(rows: seq<Row>, k: nat, parse: Parser)
    requires k <= |rows|
  {
    k == 0 || (NoClashBefore(rows, k - 1, parse) && !ClashAt(rows, k - 1, parse))
  }

  /** A clash at row `k` means the rows up to any later point did not all pass. */
  lemma {:induction false} NoClashFails(rows: seq<Row>, k: nat, n: nat, parse: Parser)
    requires k < n <= |rows| && ClashAt(rows, k, parse)
    ensures !NoClashBefore(rows, n, parse)
  {
    if n > k + 1 {
      NoClashFails(rows, k, n - 1, parse);
    }
  }

  /** A row that does not break the key keeps the run clean. */
  lemma NoClashStep(rows: seq<Row>, before: seq<Row>, k: nat, parse: Parser)
    requires k < |rows| && Visited(rows, before, k, parse) && NoClashBefore(rows, k, parse)
    requires Repair(rows[k], parse).Some? ==> !Clashes(before, k, RepairRow(rows[k], parse))
    ensures NoClashBefore(rows, k + 1, parse)
  {
    VisitedIsProgress(rows, before, k, parse);
  }

  /** A row that breaks the key ends the clean prefix. */
  lemma ClashStep(rows: seq<Row>, before: seq<Row>, k: nat, parse: Parser)
    requires k < |rows| && Visited(rows, before, k, parse)
    requires Repair(rows[k], parse).Some? && Clashes(before, k, RepairRow(rows[k], parse))
    ensures !NoClashBefore(rows, k + 1, parse)
  {
    VisitedIsProgress(rows, before, k, parse);
  }

  /** `t` is the table after the first `k` rows of `rows` were visited. */
  predicate Visited(rows: seq<Row>, t: seq<Row>, k: nat, parse: Parser) {
    |t| == |rows| && forall j :: 0 <= j < |rows| ==> t[j] == if j < k then RepairRow(rows[j], parse) else rows[j]
  }

  lemma VisitedIsProgress(rows: seq<Row>, t: seq<Row>, k: nat, parse: Parser)
    requires Visited(rows, t, k, parse)
    ensures t == Progress(rows, k, parse)
  {
  }

  /** Visiting row `k`: it is given its repaired date, or left alone. */
  lemma VisitStep(rows: seq<Row>, before: seq<Row>, after: seq<Row>, k: nat, parse: Parser)
    requires k < |rows| && Visited(rows, before, k, parse)
    requires after == before[k := RepairRow(rows[k], parse)]
    ensures Visited(rows, after, k + 1, parse)
  {
  }

  /** The script as written: the `UPDATE` is not guarded, so a broken key
      throws out of the loop and the database file is never written
      (`saved` is false). When it completes, exactly the selected rows that
      the parser understands carry their new date, and `fixed` counts them. */
  method Run(table: Table, parse: Parser) returns (fixed: nat, saved: bool)
    requires table.Valid()
    modifies table
    ensures table.Valid()
    ensures saved <==> NoClashBefore(old(table.rows), |old(table.rows)|, parse)
    ensures saved ==> table.rows == Progress(old(table.rows), |old(table.rows)|, parse)
                      && fixed == RepairCount(old(table.rows), |old(table.rows)|, parse)
  {
    var rows := table.rows;
    fixed := 0;
    var k := 0;
    while k < |rows|
      invariant 0 <= k <= |rows|
      invariant table.Valid()
      invariant Visited(rows, table.rows, k, parse)
      invariant fixed == RepairCount(rows, k, parse)
      invariant NoClashBefore(rows, k, parse)
    {
      ghost var before := table.rows;
      VisitedAhead(rows, before, k, parse);
      var updated, clash := VisitRow(table, rows[k], k, parse);
      RunVisit(rows, before, table.rows, k, parse, updated, clash);
      if clash {
        return fixed, false;
      }
      if updated {
        fixed := fixed + 1;
      }
      k := k + 1;
    }
    VisitedIsProgress(rows, table.rows, k, parse);
    saved := true;
  }

  lemma VisitedAhead(rows: seq<Row>, t: seq<Row>, k: nat, parse: Parser)
    requires Visited(rows, t, k, parse) && k < |rows|
    ensures t[k] == rows[k]
  {
  }

  /** One visit of the script as written: a clash means the whole run is not
      clean; otherwise the row is visited, the prefix stays clean, and the
      count grows by one exactly when the row is updated. */
  lemma RunVisit(rows: seq<Row>, before: seq<Row>, after: seq<Row>, k: nat, parse: Parser, updated: bool, clash: bool)
    requires k < |rows| && Visited(rows, before, k, parse) && NoClashBefore(rows, k, parse)
    requires clash <==> Repair(rows[k], parse).Some? && Clashes(before, k, RepairRow(rows[k], parse))
    requires updated <==> Repair(rows[k], parse).Some? && !clash
    requires after == if updated then before[k := RepairRow(rows[k], parse)] else before
    ensures clash ==> !NoClashBefore(rows, |rows|, parse)
    ensures !clash ==> Visited(rows, after, k + 1, parse) && NoClashBefore(rows, k + 1, parse)
    ensures !clash ==> RepairCount(rows, k + 1, parse) == RepairCount(rows, k, parse) + if updated then 1 else 0
  {
    VisitedIsProgress(rows, before, k, parse);
    if clash {
      NoClashFails(rows, k, |rows|, parse);
    } else {
      NoClashStep(rows, before, k, parse);
      if !updated {
        assert before[k := RepairRow(rows[k], parse)] == before;
      }
      VisitStep(rows, before, after, k, parse);
    }
  }

  /** The table the intended script leaves after visiting the first `k`
      rows: a row is given its repaired date unless that breaks the key. */
  function Skipping(rows: seq<Row>, k: nat, parse: Parser): (t: seq<Row>)
    requires k <= |rows|
    ensures |t| == |rows|
  {
    if k == 0 then rows
    else
      var t := Skipping(rows, k - 1, parse);
      var r := RepairRow(rows[k - 1], parse);
      if Repair(rows[k - 1], parse).Some? && !Clashes(t, k - 1, r) then t[k - 1 := r] else t
  }

  /** `t` agrees with `rows` from `k` on, and every row kept its date or
      received its repaired one. */
  predicate Partly(rows: seq<Row>, t: seq<Row>, k: nat, parse: Parser) {
    |t| == |rows|
    && (forall j :: k <= j < |rows| ==> t[j] == rows[j])
    && forall j :: 0 <= j < |rows| ==> t[j] == rows[j] || t[j] == RepairRow(rows[j], parse)
  }

  /** Skipping never writes anything but a repaired date, and only into rows already visited. */
  lemma {:induction false} SkippingPartly(rows: seq<Row>, k: nat, parse: Parser)
    requires k <= |rows|
    ensures Partly(rows, Skipping(rows, k, parse), k, parse)
  {
    if k > 0 {
      SkippingPartly(rows, k - 1, parse);
    }
  }

  /** The rows from `k` on are not visited yet. */
  lemma SkippingAhead(rows: seq<Row>, k: nat, parse: Parser)
    requires k < |rows|
    ensures Skipping(rows, k, parse)[k] == rows[k]
  {
    SkippingPartly(rows, k, parse);
  }

  /** Without clashes, skipping does what the script as written does. */
  lemma {:induction false} SkippingClean(rows: seq<Row>, k: nat, parse: Parser)
    requires k <= |rows| && NoClashBefore(rows, k, parse)
    ensures Skipping(rows, k, parse) == Progress(rows, k, parse)
  {
    if k > 0 {
      var t := Skipping(rows, k - 1, parse);
      SkippingClean(rows, k - 1, parse);
      SkippingPartly(rows, k - 1, parse);
      var r := RepairRow(rows[k - 1], parse);
      if Repair(rows[k - 1], parse).None? {
        assert t[k - 1 := r] == t;
      }
      assert Skipping(rows, k, parse) == t[k - 1 := r];
    }
  }

  /** What the intended script promises: every row keeps its date or
      receives the parsed one, and without clashes the result is the one
      the script as written saves. */
  lemma SkippingOutcome(rows: seq<Row>, parse: Parser)
    ensures Partly(rows, Skipping(rows, |rows|, parse), |rows|, parse)
    ensures NoClashBefore(rows, |rows|, parse) ==> Skipping(rows, |rows|, parse) == Progress(rows, |rows|, parse)
  {
    SkippingPartly(rows, |rows|, parse);
    if NoClashBefore(rows, |rows|, parse) {
      SkippingClean(rows, |rows|, parse);
    }
  }

  /** The intended script: a broken key skips the row, as the date repair in
      fix-article-data.js does. The run always completes with the table
      `Skipping` describes, and `fixed` counts the rows that changed. */
  method RunSkippingClashes(table: Table, parse: Parser) returns (fixed: nat)
    requires table.Valid() && MovesOff(parse)
    modifies table
    ensures table.Valid() && table.rows == Skipping(old(table.rows), |old(table.rows)|, parse)
    ensures fixed == ChangedCount(old(table.rows), table.rows, |table.rows|)
  {
    var rows := table.rows;
    fixed := 0;
    var k := 0;
    while k < |rows|
      invariant 0 <= k <= |rows| && table.Valid()
      invariant table.rows == Skipping(rows, k, parse)
      invariant fixed == ChangedCount(rows, table.rows, k)
    {
      fixed := SkipVisit(table, rows, k, parse, fixed);
      k := k + 1;
    }
  }

  /** The loop body of the intended script: visit row `k` and count it when
      it was updated. */
  method SkipVisit(table: Table, rows: seq<Row>, k: nat, parse: Parser, fixed: nat) returns (fixed': nat)
    requires table.Valid() && MovesOff(parse) && k < |rows|
    requires table.rows == Skipping(rows, k, parse) && fixed == ChangedCount(rows, table.rows, k)
    modifies table
    ensures table.Valid() && table.rows == Skipping(rows, k + 1, parse)
    ensures fixed' == ChangedCount(rows, table.rows, k + 1)
  {
    ghost var before := table.rows;
    SkippingAhead(rows, k, parse);
    var updated, clash := VisitRow(table, rows[k], k, parse);
    SkippingVisit(rows, before, table.rows, k, parse, updated);
    fixed' := if updated then fixed + 1 else fixed;
  }

  /** A visit that updates row `k` exactly when the intended script does
      leaves the table `Skipping` describes one row further on; it changes
      row `k` exactly when it updates it, and no other row, so the count of
      changed rows grows by one exactly then. */
  lemma SkippingVisit(rows: seq<Row>, before: seq<Row>, after: seq<Row>, k: nat, parse: Parser, updated: bool)
    requires MovesOff(parse) && k < |rows| && before == Skipping(rows, k, parse)
    requires updated <==> Repair(rows[k], parse).Some? && !Clashes(before, k, RepairRow(rows[k], parse))
    requires after == if updated then before[k := RepairRow(rows[k], parse)] else before
    ensures after == Skipping(rows, k + 1, parse)
    ensures ChangedCount(rows, after, k + 1) == ChangedCount(rows, before, k) + if updated then 1 else 0
  {
    SkippingAhead(rows, k, parse);
    if updated {
      assert after[k].date != rows[k].date;
    }
    ChangedCountStep(rows, before, after, k);
  }

  /** One pass of the loop body for the row at position `k`: a row the query
      selects and the parser understands is given its new date, unless that
      breaks the unique key (`clash`), in which case nothing changes. */
  method VisitRow(table: Table, r: Row, k: nat, parse: Parser) returns (updated: bool, clash: bool)
    requires table.Valid() && k < |table.rows| && table.rows[k] == r
    modifies table
    ensures table.Valid()
    ensures clash <==> Repair(r, parse).Some? && Clashes(old(table.rows), k, RepairRow(r, parse))
    ensures updated <==> Repair(r, parse).Some? && !clash
    ensures table.rows == if updated then old(table.rows)[k := RepairRow(r, parse)] else old(table.rows)
  {
    updated, clash := false, false;
    if !IsoShaped(r.date) {
      var iso := parse(r.date);
      if iso.Some? {
        IndexOfUnique(table.rows, table.nextId, k);
        var ok := table.UpdateDate(r.id, iso.value);
        updated, clash := ok, !ok;
      }
    }
  }

  /** The number of positions below `k` where `a` and `b` differ. */
  function ChangedCount(a: seq<Row>, b: seq<Row>, k: nat): (n: nat)
    requires k <= |a| && k <= |b|
    ensures n <= k
  {
    if k == 0 then 0 else ChangedCount(a, b, k - 1) + (if a[k - 1] != b[k - 1] then 1 else 0)
  }

  /** Changing position `k` only affects the count from `k + 1` on. */
  lemma ChangedCountStep(rows: seq<Row>, before: seq<Row>, after: seq<Row>, k: nat)
    requires k < |rows| == |before| == |after|
    requires forall j :: 0 <= j < |rows| && j != k ==> after[j] == before[j]
    ensures ChangedCount(rows, after, k) == ChangedCount(rows, before, k)
    ensures ChangedCount(rows, after, k + 1) == ChangedCount(rows, before, k) + (if rows[k] != after[k] then 1 else 0)
  {
    ChangedCountPrefix(rows, before, after, k);
  }

  lemma {:induction false} ChangedCountPrefix(rows: seq<Row>, before: seq<Row>, after: seq<Row>, k: nat)
    requires k <= |rows| && k <= |before| && k <= |after|
    requires forall j :: 0 <= j < k ==> after[j] == before[j]
    ensures ChangedCount(rows, after, k) == ChangedCount(rows, before, k)
  {
    if k > 0 {
      ChangedCountPrefix(rows, before, after, k - 1);
    }
  }

  /** Two rows of one article whose first date the parser turns into the
      second's: the table is consistent, yet visiting the first row breaks
      the unique key. */
  lemma TwinClash(a: Row, b: Row, parse: Parser)
    requires a.id < b.id && a.title == b.title && a.source == b.source
    requires !IsoShaped(a.date) && IsoShaped(b.date) && parse(a.date) == Some(b.date)
    ensures Consistent([a, b], b.id + 1) && ClashAt([a, b], 0, parse)
  {
    var rows := [a, b];
    assert Progress(rows, 0, parse) == rows;
    assert Key(rows[1]) == Key(RepairRow(rows[0], parse));
  }

  /** `parseDate` reads a full month name, day and year. */
  lemma ParsedExample(date: string, iso: string)
    requires date == "January 5, 2025" && iso == "2025-01-05"
    ensures ParseDate(date) == Some(iso)
  {
    var n, d, y := "January", "5", "2025";
    assert date == n + " " + d + "," + " " + y;
    Dates.FixDatesOfFull(n, 0, " ", d, ",", " ", y);
    IsoSpelled(iso, y, d);
  }

  lemma IsoSpelled(iso: string, y: string, d: string)
    requires iso == "2025-01-05" && y == "2025" && d == "5"
    ensures iso == y + "-" + Dates.MonthCode(0) + "-" + Dates.Pad2(d)
  {
  }

  /** Two rows for one article, one written with a month name and one in ISO
      form: the first is repaired to the second's date, which breaks the
      unique key, so the script as written stops without saving anything. */
  lemma ClashAborts(date: string, iso: string)
    requires date == "January 5, 2025" && iso == "2025-01-05"
    ensures var rows := [Row(1, "Example", date, "ym", 0, None, None),
                         Row(2, "Example", iso, "ym", 0, None, None)];
            Consistent(rows, 3) && ClashAt(rows, 0, ParseDate)
  {
    ParsedExample(date, iso);
    TwinClash(Row(1, "Example", date, "ym", 0, None, None), Row(2, "Example", iso, "ym", 0, None, None), ParseDate);
  }
}
