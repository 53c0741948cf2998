/** The CSV conventions the scripts share: `parseCSVLine` of
    fix-article-data.js, a character-level reader with a quoted state in
    which `""` stands for one quote and commas do not separate fields, and
    the `escape` helper of scrape-articles.js `saveToCSV`, which wraps a
    value in quotes and doubles the quotes inside it. */
module Csv {
  import opened Text

  /** `p` put in front of the first of the fields `fs`. */
  function Prepend(p: string, fs: seq<string>): (r: seq<string>)
    requires |fs| >= 1
    ensures |r| == |fs| && r[0] == p + fs[0] && r[1..] == fs[1..]
  {
    [p + fs[0]] + fs[1..]
  }

  lemma PrependTwice(p: string, q: string, fs: seq<string>)
    requires |fs| >= 1
    ensures Prepend(p, Prepend(q, fs)) == Prepend(p + q, fs)
  {
    assert p + (q + fs[0]) == (p + q) + fs[0];
  }

  lemma PrependNothing(fs: seq<string>)
    requires |fs| >= 1
    ensures Prepend("", fs) == fs
  {
    assert "" + fs[0] == fs[0];
  }

  lemma PrependNew(p: string, fs: seq<string>)
    ensures Prepend(p, [""] + fs) == [p] + fs
  {
    assert p + "" == p;
    assert ([""] + fs)[1..] == fs;
  }

  /** The fields read from `s` by a reader that is in the quoted state when
      `quoted` holds: a quote toggles the state, except that two quotes in
      the quoted state stand for one literal quote; a comma outside quotes
      ends a field; every other character is copied. */
  function Fields(s: string, quoted: bool): (fs: seq<string>)
    decreases |s|
    ensures |fs| >= 1
  {
    if s == [] then [""]
    else if s[0] == '"' then
      if quoted && |s| >= 2 && s[1] == '"' then Prepend("\"", Fields(s[2..], quoted))
      else Fields(s[1..], !quoted)
    else if s[0] == ',' && !quoted then [""] + Fields(s[1..], false)
    else Prepend([s[0]], Fields(s[1..], quoted))
  }

  /** The commas of `s` read while outside quotes. */
  function OutsideCommas(s: string, quoted: bool): nat
    decreases |s|
  {
    if s == [] then 0
    else if s[0] == '"' then
      if quoted && |s| >= 2 && s[1] == '"' then OutsideCommas(s[2..], quoted)
      else OutsideCommas(s[1..], !quoted)
    else if s[0] == ',' && !quoted then 1 + OutsideCommas(s[1..], false)
    else OutsideCommas(s[1..], quoted)
  }

  /** A line has one field more than it has commas outside quotes. */
  lemma {:induction false} FieldCount(s: string, quoted: bool)
    decreases |s|
    ensures |Fields(s, quoted)| == OutsideCommas(s, quoted) + 1
  {
    if s == [] {
    } else if s[0] == '"' {
      if quoted && |s| >= 2 && s[1] == '"' {
        FieldCount(s[2..], quoted);
      } else {
        FieldCount(s[1..], !quoted);
      }
    } else if s[0] == ',' && !quoted {
      FieldCount(s[1..], false);
    } else {
      FieldCount(s[1..], quoted);
    }
  }

  /** One step of the reader at position `i` of `line`, with `fields` read
      and `current` the field being read: the fields still to come, in terms
      of the state after the step. */
  lemma Step(line: string, i: nat, quoted: bool, fields: seq<string>, current: string)
    requires i < |line|
    ensures line[i] == '"' && quoted && i + 1 < |line| && line[i + 1] == '"' ==>
              fields + Prepend(current, Fields(line[i..], quoted))
              == fields + Prepend(current + "\"", Fields(line[i + 2..], quoted))
    ensures line[i] == '"' && !(quoted && i + 1 < |line| && line[i + 1] == '"') ==>
              fields + Prepend(current, Fields(line[i..], quoted))
              == fields + Prepend(current, Fields(line[i + 1..], !quoted))
    ensures line[i] == ',' && !quoted ==>
              fields + Prepend(current, Fields(line[i..], quoted))
              == (fields + [current]) + Prepend("", Fields(line[i + 1..], false))
    ensures line[i] != '"' && !(line[i] == ',' && !quoted) ==>
              fields + Prepend(current, Fields(line[i..], quoted))
              == fields + Prepend(current + [line[i]], Fields(line[i + 1..], quoted))
  {
    var s := line[i..];
    assert s[0] == line[i] && s[1..] == line[i + 1..];
    if line[i] == '"' {
      if quoted && i + 1 < |line| && line[i + 1] == '"' {
        assert s[1] == line[i + 1] && s[2..] == line[i + 2..];
        PrependTwice(current, "\"", Fields(line[i + 2..], quoted));
      } else if i + 1 < |line| {
        assert s[1] == line[i + 1];
      }
    } else if line[i] == ',' && !quoted {
      var rest := Fields(line[i + 1..], false);
      PrependNew(current, rest);
      PrependNothing(rest);
    } else {
      PrependTwice(current, [line[i]], Fields(line[i + 1..], quoted));
    }
  }

  /** fix-article-data.js `parseCSVLine`: one pass over the line with the
      field being read in `current` and the quoted state in `inQuotes`. */
  method ParseLine(line: string) returns (fields: seq<string>)
    ensures fields == Fields(line, false)
    ensures |fields| == OutsideCommas(line, false) + 1
  {
    fields := [];
    var current := "";
    var inQuotes := false;
    var i := 0;
    PrependNothing(Fields(line, false));
    while i < |line|
      invariant 0 <= i <= |line|
      invariant fields + Prepend(current, Fields(line[i..], inQuotes)) == Fields(line, false)
    {
      Step(line, i, inQuotes, fields, current);
      if line[i] == '"' {
        if inQuotes && i + 1 < |line| && line[i + 1] == '"' {
          current := current + "\"";
          i := i + 1;
        } else {
          inQuotes := !inQuotes;
        }
      } else if line[i] == ',' && !inQuotes {
        fields := fields + [current];
        current := "";
      } else {
        current := current + [line[i]];
      }
      i := i + 1;
    }
    assert line[i..] == [] && current + "" == current;
    fields := fields + [current];
    FieldCount(line, false);
  }

  /** `str.replace(/"/g, '""')`. */
  function Doubled(s: string): (r: string)
    ensures |r| >= |s|
  {
    if s == [] then []
    else (if s[0] == '"' then "\"\"" else [s[0]]) + Doubled(s[1..])
  }

  /** scrape-articles.js `escape`: the value, or `""` for a missing or empty
      one, in quotes with its quotes doubled. */
  function Escape(v: Option<string>): (r: string)
    ensures |r| >= 2 && r[0] == '"' && r[|r| - 1] == '"'
    ensures v.None? || v.value == "" ==> r == "\"\""
  {
    "\"" + Doubled(v.GetOr("")) + "\""
  }

  /** How the reader starts on a character other than a quote. */
  lemma FieldsOfChar(c: char, t: string, quoted: bool)
    requires c != '"' && !(c == ',' && !quoted)
    ensures Fields([c] + t, quoted) == Prepend([c], Fields(t, quoted))
  {
    assert ([c] + t)[1..] == t;
  }

  lemma FieldsOfQuotePair(t: string)
    ensures Fields("\"\"" + t, true) == Prepend("\"", Fields(t, true))
  {
    assert ("\"\"" + t)[2..] == t;
  }

  lemma FieldsOfQuote(t: string, quoted: bool)
    requires !(quoted && t != [] && t[0] == '"')
    ensures Fields("\"" + t, quoted) == Fields(t, !quoted)
  {
    assert ("\"" + t)[1..] == t;
    if t != [] {
      assert ("\"" + t)[1] == t[0];
    }
  }

  lemma FieldsOfComma(t: string)
    ensures Fields("," + t, false) == [""] + Fields(t, false)
  {
    assert ("," + t)[1..] == t;
  }

  /** The closing quote of an escaped value ends the field when the line ends
      or a comma follows: reading the doubled text in the quoted state gives
      the value back. */
  lemma {:induction false} DoubledRead(v: string, x: string)
    requires x == [] || x[0] == ','
    ensures Fields(Doubled(v) + "\"" + x, true) == Prepend(v, Fields(x, false))
  {
    if v == [] {
      assert Doubled(v) + "\"" + x == "\"" + x;
      FieldsOfQuote(x, true);
      PrependNothing(Fields(x, false));
    } else {
      DoubledHead(v, x);
      DoubledRead(v[1..], x);
      PrependTwice([v[0]], v[1..], Fields(x, false));
      assert v == [v[0]] + v[1..];
    }
  }

  /** The first character of a doubled value is read as itself. */
  lemma DoubledHead(v: string, x: string)
    requires v != []
    ensures Fields(Doubled(v) + "\"" + x, true) == Prepend([v[0]], Fields(Doubled(v[1..]) + "\"" + x, true))
  {
    var t := Doubled(v[1..]) + "\"" + x;
    if v[0] == '"' {
      assert Doubled(v) + "\"" + x == "\"\"" + t;
      FieldsOfQuotePair(t);
    } else {
      assert Doubled(v) + "\"" + x == [v[0]] + t;
      FieldsOfChar(v[0], t, true);
    }
  }

  /** An escaped value is read back as the value. */
  lemma EscapeRead(v: string, x: string)
    requires x == [] || x[0] == ','
    ensures Fields(Escape(Some(v)) + x, false) == Prepend(v, Fields(x, false))
  {
    var t := Doubled(v) + "\"" + x;
    assert Escape(Some(v)) + x == "\"" + t;
    FieldsOfQuote(t, false);
    DoubledRead(v, x);
  }

  /** A text without quotes and commas is read as it stands. */
  lemma {:induction false} PlainRead(v: string, x: string)
    requires '"' !in v && ',' !in v
    ensures Fields(v + x, false) == Prepend(v, Fields(x, false))
  {
    if v == [] {
      assert v + x == x;
      PrependNothing(Fields(x, false));
    } else {
      assert v == [v[0]] + v[1..];
      assert v + x == [v[0]] + (v[1..] + x);
      FieldsOfChar(v[0], v[1..] + x, false);
      PlainRead(v[1..], x);
      PrependTwice([v[0]], v[1..], Fields(x, false));
    }
  }

  /** A cell of a written row stands for `v`: either `v` escaped, or `v`
      itself when it holds neither a quote nor a comma. */
  predicate Encodes(cell: string, v: string) {
    cell == Escape(Some(v)) || (cell == v && '"' !in v && ',' !in v)
  }

  /** A row written as cells joined by commas is read back as the values:
      `parseCSVLine` undoes `escape`, whatever quotes and commas the values hold. */
  lemma {:induction false} RowRoundTrip(cells: seq<string>, values: seq<string>)
    requires |cells| == |values| >= 1
    requires forall i :: 0 <= i < |cells| ==> Encodes(cells[i], values[i])
    ensures Fields(Join(cells, ","), false) == values
  {
    if |cells| == 1 {
      LastCell(cells[0], values[0]);
      assert values == [values[0]];
    } else {
      assert forall i :: 0 <= i < |cells| - 1 ==> Encodes(cells[1..][i], values[1..][i]);
      RowRoundTrip(cells[1..], values[1..]);
      NextCell(cells[0], values[0], Join(cells[1..], ","), values[1..]);
      assert values == [values[0]] + values[1..];
    }
  }

  lemma LastCell(cell: string, v: string)
    requires Encodes(cell, v)
    ensures Fields(cell, false) == [v]
  {
    CellRead(cell, v, "");
    assert cell + "" == cell;
    assert Prepend(v, [""]) == [v + ""];
    assert v + "" == v;
  }

  lemma NextCell(cell: string, v: string, rest: string, vs: seq<string>)
    requires Encodes(cell, v) && Fields(rest, false) == vs
    ensures Fields(cell + "," + rest, false) == [v] + vs
  {
    CellRead(cell, v, "," + rest);
    FieldsOfComma(rest);
    PrependNew(v, vs);
    assert cell + "," + rest == cell + ("," + rest);
  }

  lemma CellRead(cell: string, v: string, x: string)
    requires Encodes(cell, v) && (x == [] || x[0] == ',')
    ensures Fields(cell + x, false) == Prepend(v, Fields(x, false))
  {
    if cell == Escape(Some(v)) {
      EscapeRead(v, x);
    } else {
      PlainRead(v, x);
    }
  }
}
