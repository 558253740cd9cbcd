/**
 `escapeHtml` of the server: five global replaces applied one after the
 other, `&` first, then `<`, `>`, `"` and `'`. The main result is that this
 chain is the per-character entity map `EscapeMap`: because `&` is replaced
 before any entity is introduced, the `&` of an entity written by a later
 pass is never escaped again.
 */
module Escape {
  import opened Text
  import opened JsString

  /** The characters `escapeHtml` rewrites. */
  predicate Special(c: char)
  {
    c == '&' || c == '<' || c == '>' || c == '"' || c == '\''
  }

  /** A text with none of the characters `escapeHtml` rewrites. */
  predicate Plain(s: string)
  {
    forall i :: 0 <= i < |s| ==> !Special(s[i])
  }

  /** The entity written for one character; any other character stands for itself. */
  function EscapeChar(c: char): string
  {
    if c == '&' then "&amp;"
    else if c == '<' then "&lt;"
    else if c == '>' then "&gt;"
    else if c == '"' then "&quot;"
    else if c == '\'' then "&#039;"
    else [c]
  }

  /** The per-character entity map applied to a whole text. */
  function EscapeMap(s: string): string
    decreases |s|
  {
    if |s| == 0 then []
    else EscapeChar(s[0]) + EscapeMap(s[1..])
  }

  /** The same five passes as literal replace-alls. */
  function Passes(s: string): string
  {
    ReplaceAll(ReplaceAll(ReplaceAll(ReplaceAll(ReplaceAll(
      s, "&", "&amp;"), "<", "&lt;"), ">", "&gt;"), "\"", "&quot;"), "'", "&#039;")
  }

  lemma PassesConcat(a: string, b: string)
    ensures Passes(a + b) == Passes(a) + Passes(b)
  {
    var a1 := ReplaceAll(a, "&", "&amp;");
    var b1 := ReplaceAll(b, "&", "&amp;");
    ReplaceCharConcat(a, b, '&', "&amp;");
    var a2 := ReplaceAll(a1, "<", "&lt;");
    var b2 := ReplaceAll(b1, "<", "&lt;");
    ReplaceCharConcat(a1, b1, '<', "&lt;");
    var a3 := ReplaceAll(a2, ">", "&gt;");
    var b3 := ReplaceAll(b2, ">", "&gt;");
    ReplaceCharConcat(a2, b2, '>', "&gt;");
    var a4 := ReplaceAll(a3, "\"", "&quot;");
    var b4 := ReplaceAll(b3, "\"", "&quot;");
    ReplaceCharConcat(a3, b3, '"', "&quot;");
    ReplaceCharConcat(a4, b4, '\'', "&#039;");
  }

  /**
   On one character the chain yields that character's entity: the passes
   before the matching one see no match, and the passes after it find none
   of their characters in the entity.
   */
  lemma PassesChar(x: char)
    ensures Passes([x]) == EscapeChar(x)
  {
    ReplaceCharSingle(x, '&', "&amp;");
    var a1 := ReplaceAll([x], "&", "&amp;");
    if x == '<' { ReplaceCharSingle(x, '<', "&lt;"); } else { ReplaceCharAbsent(a1, '<', "&lt;"); }
    var a2 := ReplaceAll(a1, "<", "&lt;");
    if x == '>' { ReplaceCharSingle(x, '>', "&gt;"); } else { ReplaceCharAbsent(a2, '>', "&gt;"); }
    var a3 := ReplaceAll(a2, ">", "&gt;");
    if x == '"' { ReplaceCharSingle(x, '"', "&quot;"); } else { ReplaceCharAbsent(a3, '"', "&quot;"); }
    var a4 := ReplaceAll(a3, "\"", "&quot;");
    if x == '\'' { ReplaceCharSingle(x, '\'', "&#039;"); } else { ReplaceCharAbsent(a4, '\'', "&#039;"); }
  }

  lemma {:induction false} PassesIsCharMap(s: string)
    ensures Passes(s) == EscapeMap(s)
    decreases |s|
  {
    if |s| > 0 {
      var x, t := s[0], s[1..];
      calc {
        Passes(s);
        { assert s == [x] + t; }
        Passes([x] + t);
        { PassesConcat([x], t); }
        Passes([x]) + Passes(t);
        { PassesChar(x); PassesIsCharMap(t); }
        EscapeChar(x) + EscapeMap(t);
      }
    }
  }

  /**
   `escapeHtml(str)`, pass by pass, with JavaScript's `replace`. No entity
   text holds a `$`, so every pass is a literal replace-all, and the chain
   (`&` first) is the per-character entity map `EscapeMap`.
   */
  function EscapeHtml(s: string): (r: string)
    ensures r == EscapeMap(s)
  {
    PassesIsCharMap(s);
    var amp := ReplaceGlobal(s, "&", "&amp;");
    var lt := ReplaceGlobal(amp, "<", "&lt;");
    var gt := ReplaceGlobal(lt, ">", "&gt;");
    var quot := ReplaceGlobal(gt, "\"", "&quot;");
    ReplaceGlobal(quot, "'", "&#039;")
  }

  /** No `<`, `>`, `"` or `'` is left in escaped text. */
  lemma {:induction false} EscapeMapNoMarkup(s: string)
    ensures '<' !in EscapeMap(s) && '>' !in EscapeMap(s)
    ensures '"' !in EscapeMap(s) && '\'' !in EscapeMap(s)
    decreases |s|
  {
    if |s| > 0 {
      EscapeMapNoMarkup(s[1..]);
    }
  }

  lemma EscapeHtmlNoMarkup(s: string)
    ensures '<' !in EscapeHtml(s) && '>' !in EscapeHtml(s)
    ensures '"' !in EscapeHtml(s) && '\'' !in EscapeHtml(s)
  {
    EscapeMapNoMarkup(s);
  }

  /** No entity holds a `$`, so escaping neither adds nor removes one. */
  lemma {:induction false} EscapeMapDollar(s: string)
    ensures '$' in EscapeMap(s) <==> '$' in s
    decreases |s|
  {
    if |s| > 0 {
      EscapeMapDollar(s[1..]);
      assert s == [s[0]] + s[1..];
      assert '$' in EscapeChar(s[0]) <==> s[0] == '$';
    }
  }

  lemma EscapeHtmlDollar(s: string)
    ensures '$' in EscapeHtml(s) <==> '$' in s
  {
    EscapeMapDollar(s);
  }

  /**
   The escaped text is longer than the input by the entity overhead of each
   special character: 4 for `&`, 3 for `<` and `>`, 5 for `"` and `'`.
   */
  lemma {:induction false} EscapeMapLength(s: string)
    ensures |EscapeMap(s)| == |s| + 4 * Count(s, '&') + 3 * Count(s, '<') + 3 * Count(s, '>')
                                  + 5 * Count(s, '"') + 5 * Count(s, '\'')
    decreases |s|
  {
    if |s| > 0 {
      EscapeMapLength(s[1..]);
    }
  }

  /** Escaping never shortens a text. */
  lemma EscapeHtmlNeverShorter(s: string)
    ensures |EscapeHtml(s)| >= |s|
  {
    EscapeMapLength(s);
  }

  /** `escapeHtml` is the identity exactly on texts without special characters. */
  lemma EscapeHtmlIdentity(s: string)
    ensures EscapeHtml(s) == s <==> Plain(s)
  {
    EscapeMapLength(s);
    if Plain(s) {
      PlainFixed(s);
    } else {
      var i :| 0 <= i < |s| && Special(s[i]);
      CountZero(s, s[i]);
    }
  }

  lemma {:induction false} PlainFixed(s: string)
    requires Plain(s)
    ensures EscapeMap(s) == s
    decreases |s|
  {
    if |s| > 0 {
      assert !Special(s[0]);
      PlainFixed(s[1..]);
      assert s == [s[0]] + s[1..];
    }
  }

  /**
   The output holds exactly one `&` per special input character. The count
   alone does not rule out double escaping (`&amp;lt;` also holds one `&`);
   that follows from the character map and from `EscapeMapLength`.
   */
  lemma {:induction false} EscapeMapAmpersands(s: string)
    ensures Count(EscapeMap(s), '&')
            == Count(s, '&') + Count(s, '<') + Count(s, '>') + Count(s, '"') + Count(s, '\'')
    decreases |s|
  {
    if |s| > 0 {
      EscapeMapAmpersands(s[1..]);
      CountConcat(EscapeChar(s[0]), EscapeMap(s[1..]), '&');
      EntityAmpersand(s[0]);
    }
  }

  /** Each entity holds one `&`, at its start; a plain character holds none. */
  lemma EntityAmpersand(x: char)
    ensures Count(EscapeChar(x), '&') == if Special(x) then 1 else 0
  {
    var e := EscapeChar(x);
    if Special(x) {
      assert e[0] == '&';
      assert '&' !in e[1..];
      CountZero(e[1..], '&');
    }
  }

  lemma EscapeHtmlAmpersands(s: string)
    ensures Count(EscapeHtml(s), '&')
            == Count(s, '&') + Count(s, '<') + Count(s, '>') + Count(s, '"') + Count(s, '\'')
  {
    EscapeMapAmpersands(s);
  }

  /** Had `&` been replaced last, the `&` of `&lt;` would be escaped again. */
  lemma AmpersandLastDoubleEscapes()
    ensures ReplaceAll(ReplaceAll("<", "<", "&lt;"), "&", "&amp;") == "&amp;lt;"
    ensures EscapeHtml("<") == "&lt;"
  {
    ReplaceCharSingle('<', '<', "&lt;");
    assert "&lt;" == "&" + "lt;";
    ReplaceCharConcat("&", "lt;", '&', "&amp;");
    ReplaceCharSingle('&', '&', "&amp;");
    ReplaceCharAbsent("lt;", '&', "&amp;");
    assert "<"[1..] == [];
  }

  /** Decodes the five entities `escapeHtml` writes; everything else is copied. */
  function Unescape(s: string): string
    decreases |s|
  {
    if |s| == 0 then []
    else if "&amp;" <= s then "&" + Unescape(s[5..])
    else if "&lt;" <= s then "<" + Unescape(s[4..])
    else if "&gt;" <= s then ">" + Unescape(s[4..])
    else if "&quot;" <= s then "\"" + Unescape(s[6..])
    else if "&#039;" <= s then "'" + Unescape(s[6..])
    else [s[0]] + Unescape(s[1..])
  }

  lemma UnescapeChar(x: char, rest: string)
    ensures Unescape(EscapeChar(x) + rest) == [x] + Unescape(rest)
  {
    if x == '&' {
      UnescapeEntity("&amp;", x, rest);
    } else if x == '<' {
      UnescapeEntity("&lt;", x, rest);
    } else if x == '>' {
      UnescapeEntity("&gt;", x, rest);
    } else if x == '"' {
      UnescapeEntity("&quot;", x, rest);
    } else if x == '\'' {
      UnescapeEntity("&#039;", x, rest);
    } else {
      var s := [x] + rest;
      assert s[0] == x;
      assert s[1..] == rest;
    }
  }

  /** Each entity decodes to its character and the scan resumes right after it. */
  lemma UnescapeEntity(e: string, x: char, rest: string)
    requires Special(x) && e == EscapeChar(x)
    ensures Unescape(e + rest) == [x] + Unescape(rest)
  {
    var s := e + rest;
    assert s[..|e|] == e;
    assert s[|e|..] == rest;
    assert s[1] == e[1];
  }

  /** Unescaping recovers the original text, so escaping loses nothing. */
  lemma {:induction false} UnescapeEscapeMap(s: string)
    ensures Unescape(EscapeMap(s)) == s
    decreases |s|
  {
    if |s| > 0 {
      UnescapeChar(s[0], EscapeMap(s[1..]));
      UnescapeEscapeMap(s[1..]);
      assert s == [s[0]] + s[1..];
    }
  }

  lemma UnescapeEscapeHtml(s: string)
    ensures Unescape(EscapeHtml(s)) == s
  {
    UnescapeEscapeMap(s);
  }

  /** Distinct texts escape to distinct texts. */
  lemma EscapeHtmlInjective(s: string, t: string)
    requires EscapeHtml(s) == EscapeHtml(t)
    ensures s == t
  {
    UnescapeEscapeHtml(s);
    UnescapeEscapeHtml(t);
  }

  /**
   Escaping can create a `$` pattern: `$<` is literal text for `replace`,
   but its escaped form `$&lt;` starts with `$&`, which stands for the
   matched placeholder. The text is a parameter so that the solver does not
   expand `escapeHtml` on a literal.
   */
  lemma EscapeCreatesMatchPattern(v: string, matched: string, before: string, after: string)
    requires v == "$<"
    ensures Substitution(v, matched, before, after) == v
    ensures EscapeHtml(v) == "$&lt;"
    ensures Substitution(EscapeHtml(v), matched, before, after) == matched + "lt;"
  {
    assert v[1..] == "<";
    SubstitutionWithoutDollar("<", matched, before, after);
    EscapeLessThanAfterDollar(v);
    assert "$&lt;"[2..] == "lt;";
    SubstitutionWithoutDollar("lt;", matched, before, after);
  }

  /** `$<` escapes to `$&lt;`; the text is fixed by the requires, as above. */
  lemma EscapeLessThanAfterDollar(v: string)
    requires v == "$<"
    ensures EscapeHtml(v) == "$&lt;"
  {
    var rest := v[1..];
    assert v[0] == '$' && rest == ['<'];
    assert rest[1..] == [];
    assert EscapeMap(rest) == EscapeChar('<') + EscapeMap([]);
    assert EscapeMap(v) == EscapeChar('$') + EscapeMap(rest);
  }
}
