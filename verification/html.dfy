/** HTML escaping in the browser client. `escapeHtml` sets a detached
    element's `textContent` and reads back its `innerHTML`; the HTML
    serialisation of a text node replaces `&`, U+00A0, `<` and `>` by character
    references and leaves every other character, the double quote included, as
    it is. */
module Html {
  import opened Text

  const Nbsp: char := '\U{00A0}'

  function EscapeChar(c: char): (r: string)
    ensures '<' !in r && '>' !in r && |r| >= 1
    ensures '"' in r ==> c == '"'
  {
    if c == '&' then "&amp;"
    else if c == Nbsp then "&nbsp;"
    else if c == '<' then "&lt;"
    else if c == '>' then "&gt;"
    else [c]
  }

  /** `escapeHtml(text)`: the text-node serialisation of `text`. */
  function EscapeHtml(s: string): (r: string)
    ensures '<' !in r && '>' !in r
    ensures |s| <= |r|
    ensures '"' !in s ==> '"' !in r
  {
    if s == [] then "" else EscapeChar(s[0]) + EscapeHtml(s[1..])
  }

  /** Escaping leaves double quotes alone: the escaped text holds one exactly
      when the original does. */
  lemma {:induction false} EscapeHtmlQuotes(s: string)
    ensures '"' in EscapeHtml(s) <==> '"' in s
  {
    if s != [] {
      EscapeHtmlQuotes(s[1..]);
      assert s == [s[0]] + s[1..];
      if s[0] == '"' {
        assert EscapeHtml(s)[0] == '"';
      }
    }
  }

  /** Escaping works character by character, so it distributes over joins. */
  lemma {:induction false} EscapeHtmlAppend(a: string, b: string)
    ensures EscapeHtml(a + b) == EscapeHtml(a) + EscapeHtml(b)
    decreases |a|
  {
    if a == [] {
      assert a + b == b;
    } else {
      assert (a + b)[0] == a[0] && (a + b)[1..] == a[1..] + b;
      EscapeHtmlAppend(a[1..], b);
      AppendAssoc(EscapeChar(a[0]), EscapeHtml(a[1..]), EscapeHtml(b));
    }
  }

  /** The escaping an attribute value between double quotes needs: the double
      quote becomes `&quot;` as well. */
  function EscapeAttrChar(c: char): (r: string)
    ensures '"' !in r && '<' !in r && '>' !in r
  {
    if c == '"' then "&quot;" else EscapeChar(c)
  }

  function EscapeAttr(s: string): (r: string)
    ensures '"' !in r && '<' !in r && '>' !in r
  {
    if s == [] then "" else EscapeAttrChar(s[0]) + EscapeAttr(s[1..])
  }

  /** Decoding of the character references the two escapes produce, as the HTML
      parser performs it on text and on attribute values. */
  function Unescape(s: string): string
    decreases |s|
  {
    if s == [] then ""
    else if "&amp;" <= s then "&" + Unescape(s[5..])
    else if "&nbsp;" <= s then [Nbsp] + Unescape(s[6..])
    else if "&lt;" <= s then "<" + Unescape(s[4..])
    else if "&gt;" <= s then ">" + Unescape(s[4..])
    else if "&quot;" <= s then "\"" + Unescape(s[6..])
    else [s[0]] + Unescape(s[1..])
  }

  /** A character that does not start a reference decodes to itself. */
  lemma UnescapePlain(c: char, rest: string)
    requires c != '&'
    ensures Unescape([c] + rest) == [c] + Unescape(rest)
  {
    assert ([c] + rest)[0] == c && ([c] + rest)[1..] == rest;
  }

  lemma UnescapeAmp(rest: string)
    ensures Unescape("&amp;" + rest) == "&" + Unescape(rest)
  {
    assert ("&amp;" + rest)[5..] == rest;
  }

  lemma UnescapeNbsp(rest: string)
    ensures Unescape("&nbsp;" + rest) == [Nbsp] + Unescape(rest)
  {
    var u := "&nbsp;" + rest;
    assert u[1] == 'n' && "&nbsp;" <= u && u[6..] == rest;
  }

  /** `&lt;` and `&gt;` decode to the bracket they name. */
  lemma UnescapeBracket(c: char, rest: string)
    requires c == '<' || c == '>'
    ensures Unescape(EscapeChar(c) + rest) == [c] + Unescape(rest)
  {
    var u := EscapeChar(c) + rest;
    assert |EscapeChar(c)| == 4 && u[1] == EscapeChar(c)[1] && EscapeChar(c) <= u && u[4..] == rest;
  }

  lemma UnescapeQuot(rest: string)
    ensures Unescape("&quot;" + rest) == "\"" + Unescape(rest)
  {
    var u := "&quot;" + rest;
    assert u[1] == 'q' && "&quot;" <= u && u[6..] == rest;
  }

  /** Decoding undoes the escaping of one character. */
  lemma UnescapeStep(c: char, rest: string)
    ensures Unescape(EscapeAttrChar(c) + rest) == [c] + Unescape(rest)
  {
    if c == '&' {
      UnescapeAmp(rest);
    } else if c == Nbsp {
      UnescapeNbsp(rest);
    } else if c == '<' || c == '>' {
      UnescapeBracket(c, rest);
    } else if c == '"' {
      UnescapeQuot(rest);
    } else {
      UnescapePlain(c, rest);
    }
  }

  /** The browser shows exactly the text that was escaped. */
  lemma {:induction false} UnescapeEscapeHtml(s: string)
    ensures Unescape(EscapeHtml(s)) == s
    decreases |s|
  {
    if s != [] {
      UnescapeEscapeHtml(s[1..]);
      if s[0] == '"' {
        UnescapePlain(s[0], EscapeHtml(s[1..]));
      } else {
        UnescapeStep(s[0], EscapeHtml(s[1..]));
      }
    }
  }

  /** An attribute value escaped this way decodes to the original text. */
  lemma {:induction false} UnescapeEscapeAttr(s: string)
    ensures Unescape(EscapeAttr(s)) == s
    decreases |s|
  {
    if s != [] {
      UnescapeStep(s[0], EscapeAttr(s[1..]));
      UnescapeEscapeAttr(s[1..]);
    }
  }

  /** Text without an ampersand holds no reference and decodes to itself. */
  lemma {:induction false} UnescapeNoReference(s: string)
    requires '&' !in s
    ensures Unescape(s) == s
    decreases |s|
  {
    if s != [] {
      assert s == [s[0]] + s[1..];
      UnescapePlain(s[0], s[1..]);
      UnescapeNoReference(s[1..]);
    }
  }

  lemma {:induction false} UnescapeAfterPlain(p: string, rest: string)
    requires '&' !in p
    ensures Unescape(p + rest) == p + Unescape(rest)
    decreases |p|
  {
    if p != [] {
      assert p + rest == [p[0]] + (p[1..] + rest);
      UnescapePlain(p[0], p[1..] + rest);
      UnescapeAfterPlain(p[1..], rest);
      AppendAssoc([p[0]], p[1..], Unescape(rest));
      assert [p[0]] + p[1..] == p;
    } else {
      assert p + rest == rest;
    }
  }

  /** An escaped value followed by more text decodes to the value followed by
      the decoding of that text. */
  lemma {:induction false} UnescapeEscapeAttrThen(s: string, rest: string)
    ensures Unescape(EscapeAttr(s) + rest) == s + Unescape(rest)
    decreases |s|
  {
    if s == [] {
      assert EscapeAttr(s) + rest == rest;
    } else {
      var e := EscapeAttrChar(s[0]);
      AppendAssoc(e, EscapeAttr(s[1..]), rest);
      UnescapeStep(s[0], EscapeAttr(s[1..]) + rest);
      UnescapeEscapeAttrThen(s[1..], rest);
      AppendAssoc([s[0]], s[1..], Unescape(rest));
      assert [s[0]] + s[1..] == s;
    }
  }

  /** The value of a double-quoted attribute that starts at `i`: the text up to
      the next double quote. */
  function QuotedValue(s: string, i: nat): (v: string)
    requires i <= |s|
    decreases |s| - i
    ensures '"' !in v && OccursAt(s, v, i)
  {
    if i == |s| || s[i] == '"' then ""
    else
      var v := [s[i]] + QuotedValue(s, i + 1);
      assert s[i..i + |v|] == [s[i]] + s[i + 1..i + |v|];
      v
  }

  /** Text after the value's closing quote does not change the value. */
  lemma {:induction false} QuotedValueAppend(s: string, t: string, i: nat)
    requires i <= |s| && '"' in s[i..]
    ensures QuotedValue(s + t, i) == QuotedValue(s, i)
    decreases |s| - i
  {
    assert (s + t)[i] == s[i];
    if s[i] != '"' {
      assert s[i..] == [s[i]] + s[i + 1..];
      QuotedValueAppend(s, t, i + 1);
    }
  }

  /** A value without a double quote is read back whole. */
  lemma {:induction false} QuotedValueOf(prefix: string, v: string, rest: string)
    requires '"' !in v
    ensures QuotedValue(prefix + v + "\"" + rest, |prefix|) == v
    decreases |v|
  {
    var s := prefix + v + "\"" + rest;
    if v == [] {
      assert s[|prefix|] == '"';
    } else {
      assert s[|prefix|] == v[0];
      assert s == (prefix + [v[0]]) + v[1..] + "\"" + rest;
      QuotedValueOf(prefix + [v[0]], v[1..], rest);
    }
  }

  /** `html.replace(/\n/g, '<br>')`. */
  function BreakLines(s: string): (r: string)
    ensures '\n' !in r
  {
    if s == [] then ""
    else (if s[0] == '\n' then "<br>" else [s[0]]) + BreakLines(s[1..])
  }

  /** Only the line breaks change: the text around each becomes the text around a `<br>`. */
  lemma {:induction false} BreakLinesAppend(a: string, b: string)
    ensures BreakLines(a + b) == BreakLines(a) + BreakLines(b)
    decreases |a|
  {
    if a == [] {
      assert a + b == b;
    } else {
      assert (a + b)[0] == a[0] && (a + b)[1..] == a[1..] + b;
      BreakLinesAppend(a[1..], b);
      AppendAssoc(if a[0] == '\n' then "<br>" else [a[0]], BreakLines(a[1..]), BreakLines(b));
    }
  }

  lemma BreakLinesOfLine(s: string)
    requires '\n' !in s
    ensures BreakLines(s) == s
  {
    if s != [] {
      assert s == [s[0]] + s[1..];
      BreakLinesOfLine(s[1..]);
    }
  }
}
