/**
 The generator's `escapeHtml`: five global single-character replacements, `&` first, and
 what they guarantee: no raw `<`, `>`, `"` or `'` survives, every `&` begins one of the
 five entities, and decoding the entities gives the text back.
 */
module HtmlEscape {
  import opened Text

  /** `s.replace(/c/g, rep)`: every occurrence of the one character `c` replaced by `rep`. */
  function ReplaceChar(s: string, c: char, rep: string): string {
    if s == [] then []
    else (if s[0] == c then rep else [s[0]]) + ReplaceChar(s[1..], c, rep)
  }

  /** A replacement free of `d` brings no `d` in: the replaced character itself, or one already absent. */
  lemma {:induction false} ReplaceCharLacks(s: string, c: char, rep: string, d: char)
    requires Lacks(rep, d)
    requires d == c || Lacks(s, d)
    ensures Lacks(ReplaceChar(s, c, rep), d)
    decreases |s|
  {
    if s != [] {
      var head := if s[0] == c then rep else [s[0]];
      if d != c {
        LacksSlice(s, d, 1, |s|);
      }
      ReplaceCharLacks(s[1..], c, rep, d);
      LacksAppend(head, ReplaceChar(s[1..], c, rep), d);
    }
  }

  /** A string without `c` is left alone. */
  lemma {:induction false} ReplaceCharAbsent(s: string, c: char, rep: string)
    requires Lacks(s, c)
    ensures ReplaceChar(s, c, rep) == s
    decreases |s|
  {
    if s != [] {
      LacksSlice(s, c, 1, |s|);
      ReplaceCharAbsent(s[1..], c, rep);
      assert s == [s[0]] + s[1..];
    }
  }

  lemma {:induction false} ReplaceCharAppend(a: string, b: string, c: char, rep: string)
    ensures ReplaceChar(a + b, c, rep) == ReplaceChar(a, c, rep) + ReplaceChar(b, c, rep)
    decreases |a|
  {
    if a == [] {
      assert a + b == b;
    } else {
      assert (a + b)[1..] == a[1..] + b;
      ReplaceCharAppend(a[1..], b, c, rep);
    }
  }

  /** `escapeHtml` as written: `&`, then `<`, `>`, `"` and `'`, each a global replace. */
  function EscapeHtml(text: string): string {
    var amp := ReplaceChar(text, '&', "&amp;");
    var lt := ReplaceChar(amp, '<', "&lt;");
    var gt := ReplaceChar(lt, '>', "&gt;");
    var quot := ReplaceChar(gt, '"', "&quot;");
    ReplaceChar(quot, '\'', "&#39;")
  }

  /** The entity one character becomes, or the character itself. */
  function EscapeChar(c: char): string {
    if c == '&' then "&amp;"
    else if c == '<' then "&lt;"
    else if c == '>' then "&gt;"
    else if c == '"' then "&quot;"
    else if c == '\'' then "&#39;"
    else [c]
  }

  /** The reference escape: each character replaced by its entity independently. */
  function EscapeEach(text: string): string {
    if text == [] then [] else EscapeChar(text[0]) + EscapeEach(text[1..])
  }

  lemma ReplaceCharOne(x: char, c: char, rep: string)
    ensures ReplaceChar([x], c, rep) == if x == c then rep else [x]
  {
    assert [x][1..] == [];
  }

  lemma EscapeOneChar(c: char)
    ensures EscapeHtml([c]) == EscapeChar(c)
  {
    ReplaceCharOne(c, '&', "&amp;");
    if c == '&' {
      PassesLater("&amp;", '<');
    } else {
      ReplaceCharOne(c, '<', "&lt;");
      if c == '<' {
        PassesLater("&lt;", '>');
      } else {
        ReplaceCharOne(c, '>', "&gt;");
        if c == '>' {
          PassesLater("&gt;", '"');
        } else {
          ReplaceCharOne(c, '"', "&quot;");
          if c == '"' {
            PassesLater("&quot;", '\'');
          } else {
            ReplaceCharOne(c, '\'', "&#39;");
          }
        }
      }
    }
  }

  /** A string with none of the characters replaced from step `from` on passes through those steps unchanged. */
  lemma PassesLater(t: string, from: char)
    requires from == '<' || from == '>' || from == '"' || from == '\''
    requires forall i :: 0 <= i < |t| ==> t[i] != '<' && t[i] != '>' && t[i] != '"' && t[i] != '\''
    ensures from == '<' ==> ReplaceChar(ReplaceChar(ReplaceChar(ReplaceChar(t, '<', "&lt;"), '>', "&gt;"), '"', "&quot;"), '\'', "&#39;") == t
    ensures from == '>' ==> ReplaceChar(ReplaceChar(ReplaceChar(t, '>', "&gt;"), '"', "&quot;"), '\'', "&#39;") == t
    ensures from == '"' ==> ReplaceChar(ReplaceChar(t, '"', "&quot;"), '\'', "&#39;") == t
    ensures from == '\'' ==> ReplaceChar(t, '\'', "&#39;") == t
  {
    ReplaceCharAbsent(t, '<', "&lt;");
    ReplaceCharAbsent(t, '>', "&gt;");
    ReplaceCharAbsent(t, '"', "&quot;");
    ReplaceCharAbsent(t, '\'', "&#39;");
  }

  lemma EscapeHtmlAppend(a: string, b: string)
    ensures EscapeHtml(a + b) == EscapeHtml(a) + EscapeHtml(b)
  {
    ReplaceCharAppend(a, b, '&', "&amp;");
    var a1, b1 := ReplaceChar(a, '&', "&amp;"), ReplaceChar(b, '&', "&amp;");
    ReplaceCharAppend(a1, b1, '<', "&lt;");
    var a2, b2 := ReplaceChar(a1, '<', "&lt;"), ReplaceChar(b1, '<', "&lt;");
    ReplaceCharAppend(a2, b2, '>', "&gt;");
    var a3, b3 := ReplaceChar(a2, '>', "&gt;"), ReplaceChar(b2, '>', "&gt;");
    ReplaceCharAppend(a3, b3, '"', "&quot;");
    var a4, b4 := ReplaceChar(a3, '"', "&quot;"), ReplaceChar(b3, '"', "&quot;");
    ReplaceCharAppend(a4, b4, '\'', "&#39;");
  }

  /**
   Replacing `&` first is what makes the chain equal to escaping each character on its own:
   no later replacement touches an entity an earlier one produced.
   */
  lemma {:induction false} EscapeHtmlIsPerChar(text: string)
    ensures EscapeHtml(text) == EscapeEach(text)
    decreases |text|
  {
    if text != [] {
      assert text == [text[0]] + text[1..];
      EscapeHtmlAppend([text[0]], text[1..]);
      EscapeOneChar(text[0]);
      EscapeHtmlIsPerChar(text[1..]);
    }
  }

  /** No raw markup character survives the escape. */
  lemma EscapeHtmlIsInert(text: string)
    ensures Lacks(EscapeHtml(text), '<') && Lacks(EscapeHtml(text), '>')
    ensures Lacks(EscapeHtml(text), '"') && Lacks(EscapeHtml(text), '\'')
  {
    var amp := ReplaceChar(text, '&', "&amp;");
    var lt := ReplaceChar(amp, '<', "&lt;");
    var gt := ReplaceChar(lt, '>', "&gt;");
    var quot := ReplaceChar(gt, '"', "&quot;");
    ReplaceCharLacks(amp, '<', "&lt;", '<');
    ReplaceCharLacks(lt, '>', "&gt;", '<');
    ReplaceCharLacks(gt, '"', "&quot;", '<');
    ReplaceCharLacks(quot, '\'', "&#39;", '<');
    ReplaceCharLacks(lt, '>', "&gt;", '>');
    ReplaceCharLacks(gt, '"', "&quot;", '>');
    ReplaceCharLacks(quot, '\'', "&#39;", '>');
    ReplaceCharLacks(gt, '"', "&quot;", '"');
    ReplaceCharLacks(quot, '\'', "&#39;", '"');
    ReplaceCharLacks(quot, '\'', "&#39;", '\'');
  }

  /** One of the five entities the escape writes starts at `i`. */
  predicate EntityAt(s: string, i: int) {
    OccursAt(s, "&amp;", i) || OccursAt(s, "&lt;", i) || OccursAt(s, "&gt;", i)
    || OccursAt(s, "&quot;", i) || OccursAt(s, "&#39;", i)
  }

  predicate AmpersandsAreEntities(s: string) {
    forall i :: 0 <= i < |s| && s[i] == '&' ==> EntityAt(s, i)
  }

  lemma EntityAtShifted(x: string, y: string, i: int)
    requires 0 <= i && EntityAt(y, i)
    ensures EntityAt(x + y, |x| + i)
  {
    var s := x + y;
    forall lit | lit in ["&amp;", "&lt;", "&gt;", "&quot;", "&#39;"] && OccursAt(y, lit, i)
      ensures OccursAt(s, lit, |x| + i)
    {
      assert s[|x| + i..|x| + i + |lit|] == y[i..i + |lit|];
    }
  }

  lemma EntityAtPrefix(x: string, y: string, i: int)
    requires 0 <= i && EntityAt(x, i)
    ensures EntityAt(x + y, i)
  {
    var s := x + y;
    forall lit | lit in ["&amp;", "&lt;", "&gt;", "&quot;", "&#39;"] && OccursAt(x, lit, i)
      ensures OccursAt(s, lit, i)
    {
      assert s[i..i + |lit|] == x[i..i + |lit|];
    }
  }

  lemma EscapeCharEntities(c: char)
    ensures AmpersandsAreEntities(EscapeChar(c))
  {
    var h := EscapeChar(c);
    forall i | 0 <= i < |h| && h[i] == '&' ensures EntityAt(h, i) {
      assert i == 0;
    }
  }

  lemma {:induction false} EscapeEachEntities(text: string)
    ensures AmpersandsAreEntities(EscapeEach(text))
    decreases |text|
  {
    if text != [] {
      var h, t := EscapeChar(text[0]), EscapeEach(text[1..]);
      EscapeEachEntities(text[1..]);
      EscapeCharEntities(text[0]);
      assert EscapeEach(text) == h + t;
      forall i | 0 <= i < |h + t| && (h + t)[i] == '&' ensures EntityAt(h + t, i) {
        if i < |h| {
          EntityAtPrefix(h, t, i);
        } else {
          EntityAtShifted(h, t, i - |h|);
        }
      }
    }
  }

  /** Every `&` of the escaped text starts `&amp;`, `&lt;`, `&gt;`, `&quot;` or `&#39;`. */
  lemma EscapeHtmlEntities(text: string)
    ensures AmpersandsAreEntities(EscapeHtml(text))
  {
    EscapeHtmlIsPerChar(text);
    EscapeEachEntities(text);
  }

  /** Decoding the five entities (anything else is copied). */
  function Unescape(s: string): string
    decreases |s|
  {
    if s == [] then []
    else if OccursAt(s, "&amp;", 0) then "&" + Unescape(s[5..])
    else if OccursAt(s, "&lt;", 0) then "<" + Unescape(s[4..])
    else if OccursAt(s, "&gt;", 0) then ">" + Unescape(s[4..])
    else if OccursAt(s, "&quot;", 0) then "\"" + Unescape(s[6..])
    else if OccursAt(s, "&#39;", 0) then "'" + Unescape(s[5..])
    else [s[0]] + Unescape(s[1..])
  }

  lemma UnescapeAmp(rest: string)
    ensures Unescape("&amp;" + rest) == "&" + Unescape(rest)
  {
    var s := "&amp;" + rest;
    assert s[..5] == "&amp;" && s[5..] == rest;
  }

  lemma UnescapeLt(rest: string)
    ensures Unescape("&lt;" + rest) == "<" + Unescape(rest)
  {
    var s := "&lt;" + rest;
    assert s[1] == 'l' && s[..4] == "&lt;" && s[4..] == rest;
  }

  lemma UnescapeGt(rest: string)
    ensures Unescape("&gt;" + rest) == ">" + Unescape(rest)
  {
    var s := "&gt;" + rest;
    assert s[1] == 'g' && s[..4] == "&gt;" && s[4..] == rest;
  }

  lemma UnescapeQuot(rest: string)
    ensures Unescape("&quot;" + rest) == "\"" + Unescape(rest)
  {
    var s := "&quot;" + rest;
    assert s[1] == 'q' && s[..6] == "&quot;" && s[6..] == rest;
  }

  lemma UnescapeApos(rest: string)
    ensures Unescape("&#39;" + rest) == "'" + Unescape(rest)
  {
    var s := "&#39;" + rest;
    assert s[1] == '#' && s[..5] == "&#39;" && s[5..] == rest;
  }

  lemma UnescapeOther(c: char, rest: string)
    requires c != '&'
    ensures Unescape([c] + rest) == [c] + Unescape(rest)
  {
    var s := [c] + rest;
    assert s[0] == c && s[1..] == rest;
    UnescapePlain(s);
  }

  /** A string that does not start with `&` decodes its first character as itself. */
  lemma UnescapePlain(s: string)
    requires s != [] && s[0] != '&'
    ensures Unescape(s) == [s[0]] + Unescape(s[1..])
  {
    NotAtHead(s, "&amp;");
    NotAtHead(s, "&lt;");
    NotAtHead(s, "&gt;");
    NotAtHead(s, "&quot;");
    NotAtHead(s, "&#39;");
  }

  lemma NotAtHead(s: string, p: string)
    requires s != [] && p != [] && s[0] != p[0]
    ensures !OccursAt(s, p, 0)
  {
  }

  lemma UnescapeStep(c: char, rest: string)
    ensures Unescape(EscapeChar(c) + rest) == [c] + Unescape(rest)
  {
    if c == '&' {
      UnescapeAmp(rest);
    } else if c == '<' {
      UnescapeLt(rest);
    } else if c == '>' {
      UnescapeGt(rest);
    } else if c == '"' {
      UnescapeQuot(rest);
    } else if c == '\'' {
      UnescapeApos(rest);
    } else {
      UnescapeOther(c, rest);
    }
  }

  lemma {:induction false} UnescapeEscapeEach(text: string)
    ensures Unescape(EscapeEach(text)) == text
    decreases |text|
  {
    if text != [] {
      UnescapeStep(text[0], EscapeEach(text[1..]));
      UnescapeEscapeEach(text[1..]);
      assert text == [text[0]] + text[1..];
    }
  }

  /** Escaping loses nothing: decoding the entities restores the text. */
  lemma EscapeHtmlRoundTrip(text: string)
    ensures Unescape(EscapeHtml(text)) == text
  {
    EscapeHtmlIsPerChar(text);
    UnescapeEscapeEach(text);
  }

  /** Text with none of the five characters is left as it is. */
  lemma EscapeHtmlPlain(text: string)
    requires Lacks(text, '&') && Lacks(text, '<') && Lacks(text, '>') && Lacks(text, '"') && Lacks(text, '\'')
    ensures EscapeHtml(text) == text
  {
    EscapeHtmlIsPerChar(text);
    EscapeEachPlain(text);
  }

  lemma {:induction false} EscapeEachPlain(text: string)
    requires Lacks(text, '&') && Lacks(text, '<') && Lacks(text, '>') && Lacks(text, '"') && Lacks(text, '\'')
    ensures EscapeEach(text) == text
    decreases |text|
  {
    if text != [] {
      LacksSlice(text, '&', 1, |text|);
      LacksSlice(text, '<', 1, |text|);
      LacksSlice(text, '>', 1, |text|);
      LacksSlice(text, '"', 1, |text|);
      LacksSlice(text, '\'', 1, |text|);
      EscapeEachPlain(text[1..]);
      assert text == [text[0]] + text[1..];
    }
  }
}
