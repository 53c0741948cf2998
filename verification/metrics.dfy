/** The count conversions both importers share (scrape-articles.js and
    import-csv.js run the same code): a view count with a `k` is a thousands
    figure read as a float, any other view count has its commas removed and
    is read by `parseInt`, `NaN` counting as 0; an open rate is a float. */
module Metrics {
  import opened Text
  import JsNumbers

  /** `s.replace(/,/g, '')`. */
  function RemoveCommas(s: string): (r: string)
    ensures |r| <= |s|
    ensures ',' !in r
    ensures forall c :: c in r <==> c in s && c != ','
  {
    if s == [] then []
    else (if s[0] == ',' then [] else [s[0]]) + RemoveCommas(s[1..])
  }

  /** Lower-casing commutes with removing commas. */
  lemma {:induction false} RemoveCommasLower(s: string)
    ensures RemoveCommas(Lower(s)) == Lower(RemoveCommas(s))
  {
    if s != [] {
      RemoveCommasLower(s[1..]);
      assert Lower(s)[1..] == Lower(s[1..]);
      LowerAppend(if s[0] == ',' then [] else [s[0]], RemoveCommas(s[1..]));
    }
  }

  /** The views count stored for a scraped value: 0 for an empty value; the
      `k` form goes through `thousands` (the float conversion and rounding,
      which this model does not spell out); otherwise `parseInt` of the
      value without its commas, or 0. */
  function ViewCount(views: string, thousands: string -> int): (n: int)
    ensures views == "" ==> n == 0
    ensures views != "" && !Contains(Lower(views), "k") ==>
              n == JsNumbers.ParseIntOrZero(Lower(RemoveCommas(views)))
  {
    if views == "" then 0
    else
      var v := Lower(views);
      if Contains(v, "k") then thousands(v)
      else
        RemoveCommasLower(views);
        JsNumbers.ParseIntOrZero(RemoveCommas(v))
  }

  /** Digits grouped by commas in any way (`1,234`, `12,34`, `1234`) are read as the number they spell. */
  lemma ViewCountOfGrouped(n: nat, views: string, thousands: string -> int)
    requires RemoveCommas(views) == JsNumbers.NatToString(n)
    ensures ViewCount(views, thousands) == n
  {
    GroupedDigits(n, views);
    NoK(views);
    LowerDigits(JsNumbers.NatToString(n));
    ParseOfNatToString(n);
  }

  /** A grouped number is already lower case and holds no `k`. */
  lemma GroupedDigits(n: nat, views: string)
    requires RemoveCommas(views) == JsNumbers.NatToString(n)
    ensures views != [] && Lower(views) == views && 'k' !in views
  {
    var d := JsNumbers.NatToString(n);
    assert d[0] in RemoveCommas(views);
    forall i | 0 <= i < |views| ensures LowerChar(views[i]) == views[i] && views[i] != 'k' {
      if views[i] != ',' {
        assert views[i] in RemoveCommas(views);
        var j :| 0 <= j < |d| && d[j] == views[i];
      }
    }
  }

  lemma NoK(s: string)
    requires 'k' !in s
    ensures !Contains(s, "k")
  {
    forall j ensures !OccursAt(s, "k", j) {
      NoCharNoOccurrence(s, "k", 'k', j);
    }
    ContainsIff(s, "k");
  }

  lemma LowerDigits(d: string)
    requires AllDigits(d)
    ensures Lower(d) == d
  {
  }

  lemma ParseOfNatToString(n: nat)
    ensures JsNumbers.ParseIntOrZero(JsNumbers.NatToString(n)) == n
  {
    var d := JsNumbers.NatToString(n);
    JsNumbers.ParseIntOfNatToString(n, "", "");
    assert "" + d + "" == d;
  }

  /** The float conversions, which the model leaves to the host:
      `Math.round(parseFloat(v) * 1000)` for a `k` view count, and
      `parseFloat(r.replace('%', '')) / 100` for an open rate. */
  datatype Floats = Floats(thousands: string -> int, rate: string -> real)

  /** The open rate stored: 0 for an empty value. */
  function OpenRate(r: string, fl: Floats): (x: real)
    ensures r == "" ==> x == 0.0
    ensures r != "" ==> x == fl.rate(r)
  {
    if r == "" then 0.0 else fl.rate(r)
  }
}
