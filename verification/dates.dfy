/** The `parseDate` functions of the two repair scripts: an ISO date is kept,
    a full month-name date (`January 29, 2025`) becomes `YYYY-MM-DD`, and, in
    fix-article-data.js only, a short date (`Jan 17`) takes a given year and
    anything else is handed to the host's `Date` parser. */
module Dates {
  import opened Text
  import JsNumbers

  /** `/^\d{4}-\d{2}-\d{2}$/`. */
  predicate IsIso(s: string) {
    |s| == 10 && s[4] == '-' && s[7] == '-' && AllDigits(s[..4]) && AllDigits(s[5..7]) && AllDigits(s[8..])
  }

  /** The alternatives of the full-date pattern, in order, as the month table spells them. */
  const FullMonths: seq<string> :=
    ["january", "february", "march", "april", "may", "june",
     "july", "august", "september", "october", "november", "december"]

  /** The alternatives of the short-date pattern. */
  const ShortMonths: seq<string> := ["jan", "feb", "mar", "apr", "may", "jun", "jul", "aug", "sep", "oct", "nov", "dec"]

  /** The table's two-digit number for the month at index `i`. */
  function MonthCode(i: nat): (c: string)
    requires i < 12
    ensures |c| == 2 && AllDigits(c)
  {
    if i < 9 then ['0', JsNumbers.DigitChar(i + 1)] else ['1', JsNumbers.DigitChar(i - 9)]
  }

  /** `padStart(2, '0')` on a one- or two-digit day. */
  function Pad2(d: string): (r: string)
    requires 1 <= |d| <= 2
    ensures |r| == 2 && r[1] == d[|d| - 1] && (|d| == 2 ==> r == d) && (|d| == 1 ==> r[0] == '0')
  {
    if |d| == 1 then "0" + d else d
  }

  /** `s` starts with `name`, ignoring ASCII case as the `/i` flag does. */
  predicate StartsWithName(s: string, name: string) {
    |name| <= |s| && Lower(s[..|name|]) == name
  }

  /** The first month of `table`, from index `k`, that `s` starts with. No
      table entry shares its first three letters with another, so at most one
      entry can match and the order of the alternatives does not matter. */
  function MonthPrefix(s: string, table: seq<string>, k: nat): (r: Option<nat>)
    requires k <= |table|
    decreases |table| - k
    ensures r.Some? ==> k <= r.value < |table| && StartsWithName(s, table[r.value])
    ensures r.Some? ==> forall m :: k <= m < r.value ==> !StartsWithName(s, table[m])
    ensures r.None? ==> forall m :: k <= m < |table| ==> !StartsWithName(s, table[m])
  {
    if k == |table| then None
    else if StartsWithName(s, table[k]) then Some(k)
    else MonthPrefix(s, table, k + 1)
  }

  /** `,?\s*(\d{4})$` at the start of `t`: the year. The optional comma and
      the white space are taken greedily; giving any back cannot help, as a
      digit would then have to match a comma or a space. */
  function YearTail(t: string): (r: Option<string>)
    ensures r.Some? ==> |r.value| == 4 && AllDigits(r.value) && |t| >= 4 && t[|t| - 4..] == r.value
  {
    var off := if |t| > 0 && t[0] == ',' then 1 else 0;
    var u := t[off..];
    var j := SpaceRunEnd(u, 0);
    if |u| - j == 4 && AllDigits(u[j..]) then
      SuffixOfSuffix(t, off, j);
      Some(u[j..])
    else None
  }

  /** `(\d{1,2}),?\s*(\d{4})$` at the start of `t`: the day and the year. A
      two-digit day is tried first, then a one-digit day, as backtracking does. */
  function DayYear(t: string): (r: Option<(string, string)>)
    ensures r.Some? ==> 1 <= |r.value.0| <= 2 && AllDigits(r.value.0) && |r.value.1| == 4 && AllDigits(r.value.1)
    ensures r.Some? ==> |t| >= 4 && t[|t| - 4..] == r.value.1
  {
    if |t| >= 2 && IsDigit(t[0]) && IsDigit(t[1]) && YearTail(t[2..]).Some? then
      assert t[2..][|t| - 6..] == t[|t| - 4..];
      Some((t[..2], YearTail(t[2..]).value))
    else if |t| >= 1 && IsDigit(t[0]) && YearTail(t[1..]).Some? then
      assert t[1..][|t| - 5..] == t[|t| - 4..];
      Some((t[..1], YearTail(t[1..]).value))
    else None
  }

  /** `^(January|…|December)\s+(\d{1,2}),?\s*(\d{4})$` with `/i`, rewritten as
      `year-month-day`. */
  function FullDate(s: string): (r: Option<string>)
    ensures r.Some? ==> IsIso(r.value)
    ensures r.Some? ==> |s| >= 4 && AllDigits(s[|s| - 4..]) && r.value[..4] == s[|s| - 4..]
  {
    FullDateIn(s, FullMonths)
  }

  /** The full-date pattern with the month alternatives of `table`. */
  function FullDateIn(s: string, table: seq<string>): (r: Option<string>)
    requires |table| == 12
    ensures r.Some? ==> IsIso(r.value)
    ensures r.Some? ==> |s| >= 4 && AllDigits(s[|s| - 4..]) && r.value[..4] == s[|s| - 4..]
  {
    match MonthPrefix(s, table, 0)
    case None => None
    case Some(m) =>
      var rest := s[|table[m]|..];
      var j := SpaceRunEnd(rest, 0);
      if j == 0 then None
      else match DayYear(rest[j..])
        case None => None
        case Some((day, year)) =>
          SuffixOfSuffix(s, |table[m]|, j);
          IsoOfParts(year, MonthCode(m), Pad2(day));
          assert (year + "-" + MonthCode(m) + "-" + Pad2(day))[..4] == year;
          Some(year + "-" + MonthCode(m) + "-" + Pad2(day))
  }

  /** The last characters of a suffix of a suffix are the last characters of the whole. */
  lemma SuffixOfSuffix(t: string, a: nat, b: nat)
    requires a <= |t| && b <= |t| - a && |t| - a - b >= 4
    ensures t[a..][b..][|t| - a - b - 4..] == t[|t| - 4..]
  {
  }

  /** Four digits, a dash, two digits, a dash and two digits make an ISO date. */
  lemma IsoOfParts(year: string, mm: string, dd: string)
    requires |year| == 4 && AllDigits(year) && |mm| == 2 && AllDigits(mm) && |dd| == 2 && AllDigits(dd)
    ensures IsIso(year + "-" + mm + "-" + dd)
  {
    var r := year + "-" + mm + "-" + dd;
    assert r[..4] == year && r[5..7] == mm && r[8..] == dd;
  }

  /** The year fix-article-data.js gives short dates. */
  const ShortDateYear: nat := 2026

  /** `^(Jan|…|Dec)\s+(\d{1,2})$` with `/i`, rewritten with the given year. */
  function ShortDate(s: string, year: nat): (r: Option<string>)
    ensures r.Some? && 1000 <= year <= 9999 ==> IsIso(r.value)
  {
    ShortDateIn(s, ShortMonths, year)
  }

  function ShortDateIn(s: string, table: seq<string>, year: nat): (r: Option<string>)
    requires |table| == 12
    ensures r.Some? && 1000 <= year <= 9999 ==> IsIso(r.value)
  {
    match MonthPrefix(s, table, 0)
    case None => None
    case Some(m) =>
      var rest := s[|table[m]|..];
      var j := SpaceRunEnd(rest, 0);
      var day := rest[j..];
      if j == 0 || !(1 <= |day| <= 2 && AllDigits(day)) then None
      else
        YearIso(year, MonthCode(m), Pad2(day));
        Some(JsNumbers.NatToString(year) + "-" + MonthCode(m) + "-" + Pad2(day))
  }

  /** A year between 1000 and 9999 is written with four digits, so it starts an ISO date. */
  lemma YearIso(year: nat, mm: string, dd: string)
    requires |mm| == 2 && AllDigits(mm) && |dd| == 2 && AllDigits(dd)
    ensures 1000 <= year <= 9999 ==> IsIso(JsNumbers.NatToString(year) + "-" + mm + "-" + dd)
  {
    if 1000 <= year <= 9999 {
      assert |JsNumbers.NatToString(year / 1000)| == 1;
      assert |JsNumbers.NatToString(year / 100)| == 2;
      assert |JsNumbers.NatToString(year / 10)| == 3;
      IsoOfParts(JsNumbers.NatToString(year), mm, dd);
    }
  }

  /** fix-dates.js `parseDate`: `None` for a missing or empty input, the
      trimmed input when it is ISO, the rewritten full date, else `None`. */
  function FixDatesParse(input: Option<string>): (r: Option<string>)
    ensures r.Some? ==> IsIso(r.value)
    ensures input.None? || input.value == "" ==> r.None?
  {
    if input.None? || input.value == "" then None
    else
      var s := Trim(input.value);
      if IsIso(s) then Some(s) else FullDate(s)
  }

  /** fix-article-data.js `parseDate`: the same two forms, then the short
      form with `shortYear`, then `hostDate`, which stands for
      `new Date(str).toISOString().split('T')[0]` (`None` for an invalid date). */
  function ArticleDataParse(input: Option<string>, shortYear: nat, hostDate: string -> Option<string>): (r: Option<string>)
    ensures input.None? || input.value == "" ==> r.None?
  {
    if input.None? || input.value == "" then None
    else
      var s := Trim(input.value);
      if IsIso(s) then Some(s)
      else if FullDate(s).Some? then FullDate(s)
      else if ShortDate(s, shortYear).Some? then ShortDate(s, shortYear)
      else hostDate(s)
  }

  /** An ISO date is returned unchanged by both parsers. */
  lemma IsoUnchanged(s: string, shortYear: nat, hostDate: string -> Option<string>)
    requires IsIso(s)
    ensures FixDatesParse(Some(s)) == Some(s)
    ensures ArticleDataParse(Some(s), shortYear, hostDate) == Some(s)
  {
    assert !IsSpace(s[0]) && !IsSpace(s[9]) by {
      assert IsDigit(s[..4][0]) && IsDigit(s[8..][1]);
    }
    TrimOfTight(s);
  }

  /** fix-dates.js `parseDate` is idempotent: its output parses to itself. */
  lemma FixDatesIdempotent(input: Option<string>)
    requires FixDatesParse(input).Some?
    ensures FixDatesParse(FixDatesParse(input)) == FixDatesParse(input)
  {
    IsoUnchanged(FixDatesParse(input).value, 0, _ => None);
  }

  /** Where fix-dates.js finds a date, fix-article-data.js finds the same one. */
  lemma ParsersAgree(input: Option<string>, shortYear: nat, hostDate: string -> Option<string>)
    requires FixDatesParse(input).Some?
    ensures ArticleDataParse(input, shortYear, hostDate) == FixDatesParse(input)
  {
  }

  /** Twelve names, each of at least three letters, no two sharing their first three. */
  predicate DistinctStarts(table: seq<string>) {
    |table| == 12
    && (forall m :: 0 <= m < 12 ==> |table[m]| >= 3 && 'a' <= table[m][0] <= 'z')
    && forall i, j :: 0 <= i < j < 12 ==> table[i][..3] != table[j][..3]
  }

  /** Both month tables have distinct starts. */
  lemma MonthTables()
    ensures DistinctStarts(FullMonths) && DistinctStarts(ShortMonths)
  {
    ShortsDistinct();
    forall m | 0 <= m < 12 ensures FullMonths[m][..3] == ShortMonths[m] {
    }
  }

  lemma ShortsDistinct()
    ensures forall i, j :: 0 <= i < j < 12 ==> ShortMonths[i] != ShortMonths[j]
    ensures forall m :: 0 <= m < 12 ==> |ShortMonths[m]| == 3 && ShortMonths[m][..3] == ShortMonths[m]
  {
  }

  /** A text that starts with month `m` starts with no other month of the table. */
  lemma OnlyMonth(s: string, table: seq<string>, m: nat)
    requires DistinctStarts(table)
    requires m < 12 && StartsWithName(s, table[m])
    ensures MonthPrefix(s, table, 0) == Some(m)
  {
    forall k | 0 <= k < m ensures !StartsWithName(s, table[k]) {
      LowerSlice(s, 0, 3);
    }
  }

  /** `Month D, YYYY` in any capitalisation, with any white space and an
      optional comma, becomes `YYYY-MM-DD` with the day padded to two digits. */
  lemma FullDateOf(name: string, m: nat, ws: string, day: string, comma: string, ws2: string, year: string)
    requires m < 12 && Lower(name) == FullMonths[m]
    requires ws != [] && AllSpace(ws) && AllSpace(ws2) && (comma == "" || comma == ",")
    requires 1 <= |day| <= 2 && AllDigits(day) && |year| == 4 && AllDigits(year)
    ensures FullDate(name + ws + day + comma + ws2 + year) == Some(year + "-" + MonthCode(m) + "-" + Pad2(day))
  {
    MonthTables();
    FullDateInOf(name, FullMonths, m, ws, day, comma, ws2, year);
  }

  lemma FullDateInOf(name: string, table: seq<string>, m: nat, ws: string, day: string, comma: string, ws2: string, year: string)
    requires DistinctStarts(table) && m < 12 && Lower(name) == table[m]
    requires ws != [] && AllSpace(ws) && AllSpace(ws2) && (comma == "" || comma == ",")
    requires 1 <= |day| <= 2 && AllDigits(day) && |year| == 4 && AllDigits(year)
    ensures FullDateIn(name + ws + day + comma + ws2 + year, table) == Some(year + "-" + MonthCode(m) + "-" + Pad2(day))
  {
    var t := day + comma + ws2 + year;
    assert name + ws + day + comma + ws2 + year == name + ws + t;
    DayYearOf(day, comma, ws2, year);
    FullDateThen(name, table, m, ws, t, day, year);
  }

  /** The full-date pattern, given where the day and year are read. */
  lemma FullDateThen(name: string, table: seq<string>, m: nat, ws: string, t: string, day: string, year: string)
    requires DistinctStarts(table) && m < 12 && Lower(name) == table[m]
    requires ws != [] && AllSpace(ws) && t != [] && !IsSpace(t[0])
    requires DayYear(t) == Some((day, year))
    ensures FullDateIn(name + ws + t, table) == Some(year + "-" + MonthCode(m) + "-" + Pad2(day))
  {
    MonthThen(name, table, m, ws, t);
  }

  /** A month name, white space, and text that starts with a non-space: the
      month is found, and the white-space run ends where the text starts. */
  lemma MonthThen(name: string, table: seq<string>, m: nat, ws: string, t: string)
    requires DistinctStarts(table) && m < 12 && Lower(name) == table[m]
    requires ws != [] && AllSpace(ws) && t != [] && !IsSpace(t[0])
    ensures var s := name + ws + t;
            MonthPrefix(s, table, 0) == Some(m) && s[|table[m]|..] == ws + t
            && SpaceRunEnd(ws + t, 0) == |ws| && (ws + t)[|ws|..] == t
  {
    var s := name + ws + t;
    Decompose(name, ws, t);
    OnlyMonth(s, table, m);
    SpaceRunOf(ws, t);
  }

  lemma Decompose(name: string, ws: string, t: string)
    ensures (name + ws + t)[..|name|] == name && (name + ws + t)[|name|..] == ws + t
    ensures (ws + t)[|ws|..] == t
  {
  }

  /** The white-space run of `ws + x` is `ws` when `x` starts with a non-space. */
  lemma SpaceRunOf(ws: string, x: string)
    requires AllSpace(ws) && x != [] && !IsSpace(x[0])
    ensures SpaceRunEnd(ws + x, 0) == |ws|
  {
    var s := ws + x;
    assert s[|ws|] == x[0];
    assert forall k :: 0 <= k < |ws| ==> s[k] == ws[k];
  }

  /** A day, an optional comma, white space and a year read back as that day and year. */
  lemma DayYearOf(day: string, comma: string, ws2: string, year: string)
    requires AllSpace(ws2) && (comma == "" || comma == ",")
    requires 1 <= |day| <= 2 && AllDigits(day) && |year| == 4 && AllDigits(year)
    ensures DayYear(day + comma + ws2 + year) == Some((day, year))
  {
    var r := comma + ws2 + year;
    var t := day + r;
    assert t == day + comma + ws2 + year;
    YearTailOf(comma, ws2, year);
    assert t[|day|..] == r && t[..|day|] == day;
    if |day| == 1 {
      TailStart(comma, ws2, year);
      assert t[1] == r[0];
      if r == year {
        assert t[2..] == year[1..];
        YearTailLength(t[2..]);
      }
    }
  }

  /** What follows the day starts with a digit only when it is the year alone. */
  lemma TailStart(comma: string, ws2: string, year: string)
    requires AllSpace(ws2) && (comma == "" || comma == ",") && |year| == 4
    ensures IsDigit((comma + ws2 + year)[0]) ==> comma + ws2 + year == year
  {
    if comma == "" && ws2 != [] {
      assert (comma + ws2 + year)[0] == ws2[0];
    }
  }

  lemma YearTailOf(comma: string, ws2: string, year: string)
    requires AllSpace(ws2) && (comma == "" || comma == ",") && |year| == 4 && AllDigits(year)
    ensures YearTail(comma + ws2 + year) == Some(year)
  {
    var t := comma + ws2 + year;
    var u := ws2 + year;
    assert t[|comma|..] == u;
    SpaceRunOf(ws2, year);
    assert u[|ws2|..] == year;
  }

  /** A year tail is at least four characters long. */
  lemma YearTailLength(t: string)
    ensures YearTail(t).Some? ==> |t| >= 4
  {
  }

  /** fix-dates.js reads a full date, surrounded by nothing, as that date. */
  lemma FixDatesOfFull(name: string, m: nat, ws: string, day: string, comma: string, ws2: string, year: string)
    requires m < 12 && Lower(name) == FullMonths[m]
    requires ws != [] && AllSpace(ws) && AllSpace(ws2) && (comma == "" || comma == ",")
    requires 1 <= |day| <= 2 && AllDigits(day) && |year| == 4 && AllDigits(year)
    ensures FixDatesParse(Some(name + ws + day + comma + ws2 + year)) == Some(year + "-" + MonthCode(m) + "-" + Pad2(day))
  {
    var s := name + ws + day + comma + ws2 + year;
    FullDateOf(name, m, ws, day, comma, ws2, year);
    MonthTables();
    LetterStart(name, FullMonths, m);
    assert s[0] == name[0] && s[|s| - 1] == year[3];
    FixDatesOfTight(s);
  }

  /** `s` is a month name of the full table in any capitalisation, white
      space, a one- or two-digit day, an optional comma, optional white space
      and a four-digit year, and nothing else. */
  predicate FullForm(s: string, name: string, m: nat, ws: string, day: string, comma: string, ws2: string, year: string) {
    m < 12 && Lower(name) == FullMonths[m]
    && ws != [] && AllSpace(ws) && AllSpace(ws2) && (comma == "" || comma == ",")
    && 1 <= |day| <= 2 && AllDigits(day) && |year| == 4 && AllDigits(year)
    && s == name + ws + day + comma + ws2 + year
  }

  /** The full-date pattern accepts exactly the texts of `FullForm`;
      `FullDateOf` gives the date it reads from each of them. */
  lemma FullDateSound(s: string)
    ensures FullDate(s).Some? <==> exists name, m, ws, day, comma, ws2, year :: FullForm(s, name, m, ws, day, comma, ws2, year)
  {
    if FullDate(s).Some? {
      var name, m, ws, day, comma, ws2, year := FullDateParts(s);
    } else if exists name, m, ws, day, comma, ws2, year :: FullForm(s, name, m, ws, day, comma, ws2, year) {
      var name, m, ws, day, comma, ws2, year :| FullForm(s, name, m, ws, day, comma, ws2, year);
      FullDateOf(name, m, ws, day, comma, ws2, year);
    }
  }

  /** The pieces of a text the full-date pattern accepts. */
  lemma FullDateParts(s: string) returns (name: string, m: nat, ws: string, day: string, comma: string, ws2: string, year: string)
    requires FullDate(s).Some?
    ensures FullForm(s, name, m, ws, day, comma, ws2, year)
  {
    var t;
    m, name, ws, t := FullDateSteps(s, FullMonths);
    day, year := DayYear(t).value.0, DayYear(t).value.1;
    comma, ws2 := DayYearSound(t);
    Join(name, ws, day, comma, ws2, year);
  }

  /** The steps the full-date pattern took on a text it accepts: the month
      name, the white space after it, and the text where the day and year are read. */
  lemma FullDateSteps(s: string, table: seq<string>) returns (m: nat, name: string, ws: string, t: string)
    requires |table| == 12 && FullDateIn(s, table).Some?
    ensures m < 12 && Lower(name) == table[m]
    ensures ws != [] && AllSpace(ws) && DayYear(t).Some?
    ensures s == name + (ws + t)
  {
    m := MonthPrefix(s, table, 0).value;
    var n := |table[m]|;
    name := s[..n];
    var rest := s[n..];
    var j := SpaceRunEnd(rest, 0);
    ws, t := rest[..j], rest[j..];
    assert rest == ws + t;
    assert s == name + rest;
  }

  lemma Join(name: string, ws: string, day: string, comma: string, ws2: string, year: string)
    ensures name + ws + day + comma + ws2 + year == name + (ws + (day + comma + ws2 + year))
  {
  }

  /** Where the year tail is found, the text is a comma or not, white space and the year. */
  lemma YearTailSound(t: string) returns (comma: string, ws2: string)
    requires YearTail(t).Some?
    ensures (comma == "" || comma == ",") && AllSpace(ws2) && t == comma + ws2 + YearTail(t).value
  {
    var off := if |t| > 0 && t[0] == ',' then 1 else 0;
    var u := t[off..];
    var j := SpaceRunEnd(u, 0);
    var year := u[j..];
    assert YearTail(t) == Some(year);
    comma, ws2 := t[..off], u[..j];
    assert off == 1 ==> comma == [t[0]];
    assert u == ws2 + year && t == comma + u;
    AppendAssoc(comma, ws2, year);
  }

  /** Where a day and year are found, the text is the day, a comma or not, white space and the year. */
  lemma DayYearSound(t: string) returns (comma: string, ws2: string)
    requires DayYear(t).Some?
    ensures (comma == "" || comma == ",") && AllSpace(ws2)
    ensures t == DayYear(t).value.0 + comma + ws2 + DayYear(t).value.1
  {
    var d := if |t| >= 2 && IsDigit(t[0]) && IsDigit(t[1]) && YearTail(t[2..]).Some? then 2 else 1;
    var day, year := t[..d], YearTail(t[d..]).value;
    assert DayYear(t) == Some((day, year));
    comma, ws2 := YearTailSound(t[d..]);
    assert t == day + (comma + ws2 + year);
    AppendAssoc(day, comma + ws2, year);
    AppendAssoc(day, comma, ws2);
  }

  /** fix-dates.js finds a date exactly when the trimmed input is ISO or a
      full month-name date; everything else gives `None`. */
  lemma FixDatesParseSound(input: Option<string>)
    ensures FixDatesParse(input).Some? <==>
              input.Some? && input.value != ""
              && (IsIso(Trim(input.value))
                  || exists name, m, ws, day, comma, ws2, year :: FullForm(Trim(input.value), name, m, ws, day, comma, ws2, year))
  {
    if input.Some? && input.value != "" {
      var s := Trim(input.value);
      calc {
        FixDatesParse(input).Some?;
        IsIso(s) || FullDate(s).Some?;
        { FullDateSound(s); }
        IsIso(s) || exists name, m, ws, day, comma, ws2, year :: FullForm(s, name, m, ws, day, comma, ws2, year);
      }
    }
  }

  /** A text that starts with a letter and ends with a digit is not trimmed
      and is not ISO, so fix-dates.js tries the full-date pattern on it as it stands. */
  lemma FixDatesOfTight(s: string)
    requires |s| >= 1 && !IsSpace(s[0]) && !IsDigit(s[0]) && IsDigit(s[|s| - 1])
    ensures FixDatesParse(Some(s)) == FullDate(s)
  {
    TrimOfTight(s);
    if |s| >= 4 {
      assert s[..4][0] == s[0];
    }
  }

  /** A name that lower-cases to a month of the table starts with a letter. */
  lemma LetterStart(name: string, table: seq<string>, m: nat)
    requires DistinctStarts(table) && m < 12 && Lower(name) == table[m]
    ensures |name| >= 3 && !IsSpace(name[0]) && !IsDigit(name[0])
  {
    assert LowerChar(name[0]) == table[m][0];
  }

  /** The short form `Mon D` is dated with `shortYear` by fix-article-data.js
      and rejected by fix-dates.js. */
  lemma ShortDateOf(name: string, m: nat, ws: string, day: string, shortYear: nat)
    requires m < 12 && Lower(name) == ShortMonths[m]
    requires ws != [] && AllSpace(ws) && 1 <= |day| <= 2 && AllDigits(day)
    ensures ShortDate(name + ws + day, shortYear) == Some(JsNumbers.NatToString(shortYear) + "-" + MonthCode(m) + "-" + Pad2(day))
    ensures FixDatesParse(Some(name + ws + day)) == None
  {
    MonthTables();
    ShortsDistinct();
    ShortDateInOf(name, ShortMonths, m, ws, day, shortYear);
    ShortRejected(name, ws, day);
  }

  lemma ShortDateInOf(name: string, table: seq<string>, m: nat, ws: string, day: string, shortYear: nat)
    requires DistinctStarts(table) && m < 12 && Lower(name) == table[m]
    requires ws != [] && AllSpace(ws) && 1 <= |day| <= 2 && AllDigits(day)
    ensures ShortDateIn(name + ws + day, table, shortYear) == Some(JsNumbers.NatToString(shortYear) + "-" + MonthCode(m) + "-" + Pad2(day))
    ensures |name| == |table[m]| && !IsSpace(name[0])
  {
    MonthThen(name, table, m, ws, day);
    assert LowerChar(name[0]) == table[m][0];
  }

  /** Three letters, white space and a day of one or two digits is neither
      ISO nor a full date. */
  lemma ShortRejected(name: string, ws: string, day: string)
    requires |name| == 3 && !IsSpace(name[0])
    requires ws != [] && AllSpace(ws) && 1 <= |day| <= 2 && AllDigits(day)
    ensures FixDatesParse(Some(name + ws + day)) == None
  {
    var s := name + ws + day;
    var p := 2 + |ws|;
    assert s[0] == name[0] && s[|s| - 1] == day[|day| - 1];
    assert s[p] == ws[|ws| - 1];
    assert |s| == 10 ==> s[4] == ws[1];
    RejectedWithSpace(s, p);
  }

  /** A text with white space among its last four characters, and at index
      4 when it has ten, is neither ISO nor a full date. */
  lemma RejectedWithSpace(s: string, p: nat)
    requires |s| >= 1 && !IsSpace(s[0]) && !IsSpace(s[|s| - 1])
    requires p < |s| && |s| - 4 <= p && IsSpace(s[p])
    requires |s| == 10 ==> IsSpace(s[4])
    ensures FixDatesParse(Some(s)) == None
  {
    TrimOfTight(s);
    assert !IsIso(s);
    assert FullDate(s).None? by {
      if |s| >= 4 {
        assert s[|s| - 4..][p - (|s| - 4)] == s[p];
      }
    }
  }
}
