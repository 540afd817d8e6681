/**
 The converter's CTA pass over a whole HTML string: first every `[cta]` directive, then, in
 order, the `<CTA>…</CTA>`, `<CTA>…`, `CTA: …` and `CTA …` forms, each match replaced by a
 Mailchimp button whose label and URL come from the directive text and the comment table.
 */
module CtaConversion {
  import opened Base
  import opened Text
  import opened Scan
  import opened Button
  import opened CtaText

  /** The text class `[^\n\r<\[]` of the converter's `[cta]` pattern. */
  predicate ConverterTextChar(c: char) { c != '\n' && c != '\r' && c != '<' && c != '[' }

  /** The text class `[^\n\r<]` of the `CTA:` and `CTA` forms. */
  predicate LineTextChar(c: char) { c != '\n' && c != '\r' && c != '<' }

  function ConverterDirective(s: string, p: nat): Option<Hit> {
    DirectiveAt(s, p, ConverterTextChar)
  }

  /** `<CTA>([^<]+)<\/CTA>` with the `i` flag. */
  function TagPairCta(s: string, p: nat): Option<Hit> {
    if AtCI(s, p, "<cta>") then
      var e := FindChar(s, p + 5, IsOpenAngle);
      if e > p + 5 && AtCI(s, e, "</cta>") then Some(Hit(e + 6, [s[p + 5..e]])) else None
    else None
  }

  /** `<CTA>([^<\n\r]+)` with the `i` flag. */
  function OpenTagCta(s: string, p: nat): Option<Hit> {
    if AtCI(s, p, "<cta>") then
      var e := FindChar(s, p + 5, c => !LineTextChar(c));
      if e > p + 5 then Some(Hit(e, [s[p + 5..e]])) else None
    else None
  }

  /** `CTA:\s*([^\n\r<]+)` with the `i` flag. */
  function ColonCta(s: string, p: nat): Option<Hit> {
    if AtCI(s, p, "cta:") then
      match GroupStart(s, p + 4, SkipSpace(s, p + 4), LineTextChar)
      case None => None
      case Some(k) =>
        var e := FindChar(s, k, c => !LineTextChar(c));
        Some(Hit(e, [s[k..e]]))
    else None
  }

  /** `CTA\s+([^\n\r<]+)` with the `i` flag: at least one whitespace character after `CTA`. */
  function SpacedCta(s: string, p: nat): Option<Hit> {
    if AtCI(s, p, "cta") && SkipSpace(s, p + 3) > p + 3 then
      match GroupStart(s, p + 4, SkipSpace(s, p + 3), LineTextChar)
      case None => None
      case Some(k) =>
        var e := FindChar(s, k, c => !LineTextChar(c));
        Some(Hit(e, [s[k..e]]))
    else None
  }

  /** The button for one directive text: label and URL resolved from the trimmed text, then the table. */
  function ButtonFor(text: string, table: CommentTable): string {
    var resolved := ResolveFromText(Trim(text), table);
    CreateMailchimpButton(resolved.0, Some(resolved.1))
  }

  /** Replaces every match of `m` by the button built from its first group. */
  function ButtonPass(html: string, m: Matcher, table: CommentTable): string {
    ReplaceAll(html, m, (s: string, at: nat, matched: string, g: seq<string>) => ButtonFor(Group(g, 1), table))
  }

  /** `enhancedCTAConversion`: the `[cta]` pass, then the four `CTA` passes in order. */
  function EnhancedCtaConversion(html: string, table: CommentTable): string {
    var afterBracket := ButtonPass(html, ConverterDirective, table);
    var afterPair := ButtonPass(afterBracket, TagPairCta, table);
    var afterOpen := ButtonPass(afterPair, OpenTagCta, table);
    var afterColon := ButtonPass(afterOpen, ColonCta, table);
    ButtonPass(afterColon, SpacedCta, table)
  }

  // ------------------------------------------------------------------ properties

  /** Every CTA pattern starts with the letters `cta` (after `[` or `<` for the bracketed forms). */
  lemma PatternsNeedCta(s: string, p: nat)
    requires !ContainsCI(s, "cta")
    ensures !ValidHit(s, p, ConverterDirective(s, p))
    ensures !ValidHit(s, p, TagPairCta(s, p))
    ensures !ValidHit(s, p, OpenTagCta(s, p))
    ensures !ValidHit(s, p, ColonCta(s, p))
    ensures !ValidHit(s, p, SpacedCta(s, p))
  {
    if AtCI(s, p, "[cta]") {
      AtCISub(s, p, "[cta]", 1, "cta");
      ContainsCIAt(s, p + 1, "cta");
    }
    if AtCI(s, p, "<cta>") {
      AtCISub(s, p, "<cta>", 1, "cta");
      ContainsCIAt(s, p + 1, "cta");
    }
    if AtCI(s, p, "cta:") {
      AtCISub(s, p, "cta:", 0, "cta");
      ContainsCIAt(s, p, "cta");
    }
    if AtCI(s, p, "cta") {
      ContainsCIAt(s, p, "cta");
    }
  }

  lemma PassWithoutCta(html: string, m: Matcher, table: CommentTable)
    requires forall p :: 0 <= p < |html| ==> !ValidHit(html, p, m(html, p))
    ensures ButtonPass(html, m, table) == html
  {
    ReplaceAllWithoutMatches(html, m, (s: string, at: nat, matched: string, g: seq<string>) => ButtonFor(Group(g, 1), table));
  }

  /** HTML that never mentions `cta`, in any letter case, comes through the CTA conversion unchanged. */
  lemma NoDirectiveUnchanged(html: string, table: CommentTable)
    requires !ContainsCI(html, "cta")
    ensures EnhancedCtaConversion(html, table) == html
  {
    forall p | 0 <= p < |html|
      ensures !ValidHit(html, p, ConverterDirective(html, p)) && !ValidHit(html, p, TagPairCta(html, p))
        && !ValidHit(html, p, OpenTagCta(html, p)) && !ValidHit(html, p, ColonCta(html, p))
        && !ValidHit(html, p, SpacedCta(html, p))
    {
      PatternsNeedCta(html, p);
    }
    PassWithoutCta(html, ConverterDirective, table);
    PassWithoutCta(html, TagPairCta, table);
    PassWithoutCta(html, OpenTagCta, table);
    PassWithoutCta(html, ColonCta, table);
    PassWithoutCta(html, SpacedCta, table);
  }

  /** A `[cta]` at the front, a run of `n` text characters, then `[/cta]`: one match of the whole. */
  lemma DirectiveAtClosed(s: string, n: nat, allowed: char -> bool)
    requires n > 0 && 5 + n + 6 <= |s| && AtCI(s, 0, "[cta]") && AtCI(s, 5 + n, "[/cta]")
    requires !IsSpace(s[5]) && forall k :: 5 <= k < 5 + n ==> allowed(s[k])
    requires !allowed(s[5 + n]) && !IsSpace(s[5 + n])
    ensures DirectiveAt(s, 0, allowed) == Some(Hit(5 + n + 6, [s[5..5 + n]]))
  {
    assert SkipSpace(s, 5) == 5;
    assert GroupStart(s, 5, 5, allowed) == Some(5);
    var e := FindChar(s, 5, c => !allowed(c));
    assert e == 5 + n;
    assert SkipSpace(s, e) == e;
  }

  /** The directive `[cta]` + `t` + `[/cta]` is one match: the closing tag is swallowed with it. */
  lemma ClosedDirectiveMatch(t: string)
    requires t != [] && IsTrimmed(t)
    requires forall k :: 0 <= k < |t| ==> ConverterTextChar(t[k])
    ensures ConverterDirective("[cta]" + t + "[/cta]", 0) == Some(Hit(|t| + 11, [t]))
  {
    var s := "[cta]" + t + "[/cta]";
    assert s[..5] == "[cta]";
    assert AtCI(s, 0, "[cta]");
    assert s[5] == t[0];
    assert forall k :: 5 <= k < 5 + |t| ==> s[k] == t[k - 5];
    assert s[5 + |t|] == '[';
    assert s[5..5 + |t|] == t;
    assert s[5 + |t|..5 + |t| + 6] == "[/cta]";
    assert AtCI(s, 5 + |t|, "[/cta]");
    DirectiveAtClosed(s, |t|, ConverterTextChar);
  }

  /**
   A closed directive alone becomes exactly one button, built from its text: the link
   patterns first, then the comment table, then `#`.
   */
  lemma ClosedDirectiveBecomesButton(t: string, table: CommentTable)
    requires t != [] && IsTrimmed(t)
    requires forall k :: 0 <= k < |t| ==> ConverterTextChar(t[k])
    ensures ButtonPass("[cta]" + t + "[/cta]", ConverterDirective, table) == ButtonFor(t, table)
  {
    var s := "[cta]" + t + "[/cta]";
    var piece := Matched(0, s, [t]);
    assert ScanFrom(s, 0, ConverterDirective) == [piece] by {
      ClosedDirectiveMatch(t);
      assert s[0..|s|] == s;
      assert ScanFrom(s, |s|, ConverterDirective) == [];
    }
    RenderSingle(s, piece, (s: string, at: nat, matched: string, g: seq<string>) => ButtonFor(Group(g, 1), table));
  }

  /** A URL found in the text decides the button alone: the comment table is not consulted. */
  lemma TextUrlBeatsTable(text: string, t1: CommentTable, t2: CommentTable)
    requires SplitLink(text).1 != "#"
    ensures ResolveFromText(text, t1) == ResolveFromText(text, t2) == SplitLink(text)
  {
  }

  /** A text with no URL in it keeps its whole text as the label and takes its URL from the table. */
  lemma NoUrlUsesTable(text: string, table: CommentTable)
    requires forall q :: 0 <= q < |text| ==> SchemeLen(text, q) == 0
    ensures ResolveFromText(text, table) == (text, CommentFallback(table, text))
  {
    NoSchemeKeepsText(text);
  }
}
