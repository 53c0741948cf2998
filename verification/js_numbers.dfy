/** The integer conversions the scripts rely on: `String(n)` for a natural
    number, and `parseInt(s) || 0` with JavaScript's default radix rules
    (leading white space, an optional sign, a `0x` prefix for hexadecimal, the
    longest run of digits, `NaN` when there is none). */
module JsNumbers {
  import opened Text

  function DigitValue(c: char): nat
    requires IsDigit(c)
  {
    c as int - '0' as int
  }

  /** The value of a run of decimal digits. */
  function DecimalValue(s: string): nat
    requires AllDigits(s)
  {
    if s == [] then 0 else 10 * DecimalValue(AllButLast(s)) + DigitValue(Last(s))
  }

  predicate IsHexDigit(c: char) {
    IsDigit(c) || 'a' <= c <= 'f' || 'A' <= c <= 'F'
  }

  function HexDigitValue(c: char): (v: nat)
    requires IsHexDigit(c)
    ensures v < 16
  {
    if IsDigit(c) then DigitValue(c)
    else if 'a' <= c <= 'f' then c as int - 'a' as int + 10
    else c as int - 'A' as int + 10
  }

  function HexRunEnd(s: string, i: nat): (e: nat)
    requires i <= |s|
    decreases |s| - i
    ensures i <= e <= |s|
    ensures forall k :: i <= k < e ==> IsHexDigit(s[k])
  {
    if i < |s| && IsHexDigit(s[i]) then HexRunEnd(s, i + 1) else i
  }

  function HexValue(s: string): nat
    requires forall k :: 0 <= k < |s| ==> IsHexDigit(s[k])
  {
    if s == [] then 0 else 16 * HexValue(AllButLast(s)) + HexDigitValue(Last(s))
  }

  function DigitChar(d: nat): (c: char)
    requires d < 10
    ensures IsDigit(c) && DigitValue(c) == d
  {
    ('0' as int + d) as char
  }

  /** `String(n)` for a natural number: its decimal digits, without leading zeros. */
  function NatToString(n: nat): (s: string)
    ensures |s| >= 1 && AllDigits(s)
    ensures |s| > 1 ==> s[0] != '0'
  {
    if n < 10 then [DigitChar(n)] else NatToString(n / 10) + [DigitChar(n % 10)]
  }

  /** Reading the digits back gives the number. */
  lemma {:induction false} NatToStringValue(n: nat)
    ensures DecimalValue(NatToString(n)) == n
  {
    if n >= 10 {
      var s := NatToString(n);
      assert AllButLast(s) == NatToString(n / 10);
      NatToStringValue(n / 10);
    }
  }

  /** The unsigned part of `parseInt`: hexadecimal after `0x` or `0X`, else
      decimal; `None` when no digit follows. */
  function Magnitude(u: string): (r: Option<nat>)
    ensures r.Some? && !(|u| >= 2 && u[0] == '0' && (u[1] == 'x' || u[1] == 'X')) ==>
              0 < DigitRunEnd(u, 0) && r.value == DecimalValue(u[..DigitRunEnd(u, 0)])
  {
    if |u| >= 2 && u[0] == '0' && (u[1] == 'x' || u[1] == 'X') then
      var e := HexRunEnd(u, 2);
      if e == 2 then None else Some(HexValue(u[2..e]))
    else
      var e := DigitRunEnd(u, 0);
      if e == 0 then None else Some(DecimalValue(u[..e]))
  }

  /** `parseInt(s)` with no radix; `None` is `NaN`. */
  function ParseInt(s: string): (r: Option<int>)
    ensures r.Some? && TrimStart(s) != [] && TrimStart(s)[0] == '-' ==> r.value <= 0
  {
    var t := TrimStart(s);
    if |t| > 0 && t[0] == '-' then
      match Magnitude(t[1..])
      case None => None
      case Some(m) => Some(-(m as int))
    else if |t| > 0 && t[0] == '+' then
      match Magnitude(t[1..])
      case None => None
      case Some(m) => Some(m)
    else
      match Magnitude(t)
      case None => None
      case Some(m) => Some(m)
  }

  /** `parseInt(s) || 0`: `NaN` (and zero) become 0. */
  function ParseIntOrZero(s: string): int {
    ParseInt(s).GetOr(0)
  }

  /** Text that cannot continue a number: not a digit, and not the `x` that
      would turn a leading `0` into a hexadecimal prefix. */
  predicate EndsNumber(rest: string) {
    rest == [] || !(IsDigit(rest[0]) || rest[0] == 'x' || rest[0] == 'X')
  }

  /** A number written by `String(n)` is read back by `parseInt`, whatever
      white space precedes it and whatever text that cannot continue it follows. */
  lemma ParseIntOfNatToString(n: nat, pad: string, rest: string)
    requires AllSpace(pad)
    requires EndsNumber(rest)
    ensures ParseInt(pad + NatToString(n) + rest) == Some(n)
  {
    var d := NatToString(n);
    var u := d + rest;
    AppendAssoc(pad, d, rest);
    TrimStartOfPadded(pad, u);
    assert u[0] == d[0];
    MagnitudeOfNatToString(n, rest);
  }

  lemma MagnitudeOfNatToString(n: nat, rest: string)
    requires EndsNumber(rest)
    ensures Magnitude(NatToString(n) + rest) == Some(n)
  {
    var d := NatToString(n);
    var u := d + rest;
    assert u[0] == d[0];
    assert |d| > 1 ==> u[1] == d[1] && IsDigit(d[1]);
    assert |d| == 1 && |u| >= 2 ==> u[1] == rest[0];
    DigitRunOfDigits(d, rest);
    assert u[..|d|] == d;
    NatToStringValue(n);
  }

  lemma {:induction false} TrimStartOfPadded(pad: string, u: string)
    requires AllSpace(pad) && |u| > 0 && !IsSpace(u[0])
    ensures TrimStart(pad + u) == u
    decreases |pad|
  {
    if pad != [] {
      assert (pad + u)[1..] == pad[1..] + u;
      TrimStartOfPadded(pad[1..], u);
    } else {
      assert pad + u == u;
    }
  }

  lemma {:induction false} DigitRunOfDigits(d: string, rest: string)
    requires AllDigits(d)
    requires rest == [] || !IsDigit(rest[0])
    ensures DigitRunEnd(d + rest, 0) == |d|
  {
    DigitRunFrom(d, rest, 0);
  }

  lemma {:induction false} DigitRunFrom(d: string, rest: string, i: nat)
    requires AllDigits(d) && i <= |d|
    requires rest == [] || !IsDigit(rest[0])
    ensures DigitRunEnd(d + rest, i) == |d|
    decreases |d| - i
  {
    if i < |d| {
      assert (d + rest)[i] == d[i];
      DigitRunFrom(d, rest, i + 1);
    } else if rest != [] {
      assert (d + rest)[i] == rest[0];
    }
  }
}
