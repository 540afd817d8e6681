/**
 The conversion route's CTA rule, applied to one text element: when the element's text looks
 like a CTA, the whole element is replaced by a Mailchimp button. The button's URL comes
 from, in order of precedence, the first authored anchor in the element's HTML, a URL in the
 text, the comment-link table, and finally `#`.
 */
module RouteCta {
  import opened Base
  import opened Text
  import opened Scan
  import opened DocUrls
  import opened Button
  import opened CtaText

  /**
   The route's trigger: the trimmed text opens with `[cta]` in any case, or opens with `CTA`
   in exactly that case (no separator needed), or the raw text holds `<CTA>` verbatim.
   */
  predicate Triggers(text: string) {
    AtCI(Trim(text), 0, "[cta]") || OccursAt(Trim(text), "CTA", 0) || Contains(text, "<CTA>")
  }

  /**
   The comment-table lookup as the route writes it: the two containment tests only. Every
   key is visited and each fitting key overwrites the URL.
   */
  function RouteFallback(table: CommentTable, caption: string, acc: string): string
    decreases |table|
  {
    if table == [] then acc
    else RouteFallback(table[1..], caption, if KeyMatchesTwoWay(caption, table[0].0) then table[0].1 else acc)
  }

  /** The label and URL the route chooses for a CTA whose button text is `caption`. */
  function ChooseLink(caption: string, html: string, table: CommentTable, lookupQ: string -> QueryLookup): (string, string) {
    match FirstGroups(html, AnchorAt)
    case Some(g) =>
      (Trim(Group(g, 2)), CleanGoogleDocsUrl(Trim(Group(g, 1)), lookupQ))
    case None => TextLink(caption, table)
  }

  /** The label and URL from the CTA text alone: the link patterns, then the comment table. */
  function TextLink(caption: string, table: CommentTable): (string, string) {
    var split := SplitLink(caption);
    if split.1 == "#" then (split.0, RouteFallback(table, caption, "#")) else split
  }

  /**
   The CTA rule on one element with text `text` and inner HTML `html`: `Some(button)` when the
   element is replaced, `None` when it is left alone. Without an authored anchor the button
   carries the label and URL the converter's own directive passes would give the CTA text;
   with one, the anchor's text and cleaned `href`.
   */
  function ConvertElement(text: string, html: string, table: CommentTable, lookupQ: string -> QueryLookup): (r: Option<string>)
    ensures r.Some? <==> Triggers(text) && DirectiveText(text).Some?
    ensures r.Some? && FirstGroups(html, AnchorAt).None? ==>
      var link := ResolveFromText(DirectiveText(text).value, table);
      r.value == ButtonHead + link.1 + ButtonMid + link.0 + ButtonTail
    ensures r.Some? && FirstGroups(html, AnchorAt).Some? ==>
      var g := FirstGroups(html, AnchorAt).value;
      r.value == ButtonHead + CleanGoogleDocsUrl(Trim(Group(g, 1)), lookupQ) + ButtonMid + Trim(Group(g, 2)) + ButtonTail
  {
    if Triggers(text) then
      match DirectiveText(text)
      case Some(caption) =>
        var link := ChooseLink(caption, html, table, lookupQ);
        ChosenButton(caption, html, table, lookupQ);
        Some(CreateMailchimpButton(link.0, Some(link.1)))
      case None => None
    else None
  }

  /** The button built from the chosen link, by where the link came from. */
  lemma ChosenButton(caption: string, html: string, table: CommentTable, lookupQ: string -> QueryLookup)
    ensures var b := CreateMailchimpButton(ChooseLink(caption, html, table, lookupQ).0, Some(ChooseLink(caption, html, table, lookupQ).1));
      && (FirstGroups(html, AnchorAt).None? ==>
            var link := ResolveFromText(caption, table);
            b == ButtonHead + link.1 + ButtonMid + link.0 + ButtonTail)
      && (FirstGroups(html, AnchorAt).Some? ==>
            var g := FirstGroups(html, AnchorAt).value;
            b == ButtonHead + CleanGoogleDocsUrl(Trim(Group(g, 1)), lookupQ) + ButtonMid + Trim(Group(g, 2)) + ButtonTail)
  {
    NoAnchorResolvesAsConverter(caption, table);
  }

  // ------------------------------------------------------------------ properties

  /** The route's two-way test and the converter's three-way test pick the same URL. */
  lemma {:induction false} RouteFallbackAgrees(table: CommentTable, caption: string, acc: string)
    ensures RouteFallback(table, caption, acc) == LastMatching(table, caption, acc)
    decreases |table|
  {
    if table != [] {
      KeyMatchesForms(caption, table[0].0);
      var next := if KeyMatches(caption, table[0].0) then table[0].1 else acc;
      RouteFallbackAgrees(table[1..], caption, next);
    }
  }

  /** Without an anchor, the route resolves a CTA exactly as the converter's directive passes do. */
  lemma NoAnchorResolvesAsConverter(caption: string, table: CommentTable)
    ensures TextLink(caption, table) == ResolveFromText(caption, table)
  {
    HashMeansUnsplit(caption);
    RouteFallbackAgrees(table, caption, "#");
  }

  /**
   An authored anchor decides the button alone: its text is the label and its cleaned `href`
   the URL, whatever the CTA text says and whatever the comment table holds.
   */
  lemma AnchorWins(caption1: string, caption2: string, html: string, t1: CommentTable, t2: CommentTable, lookupQ: string -> QueryLookup)
    requires FirstGroups(html, AnchorAt).Some?
    ensures ChooseLink(caption1, html, t1, lookupQ) == ChooseLink(caption2, html, t2, lookupQ)
  {
  }

  /** Text without any `cta`, in any case, never turns an element into a button. */
  lemma NoCtaNoButton(text: string, html: string, table: CommentTable, lookupQ: string -> QueryLookup)
    requires !ContainsCI(text, "cta")
    ensures ConvertElement(text, html, table, lookupQ).None?
  {
    NoDirectiveNoText(text);
  }

  /** The `CTA` opening is case-sensitive: a lower-case `cta: ...` line does not trigger the rule. */
  lemma LowerCaseCtaIgnored(html: string, table: CommentTable, lookupQ: string -> QueryLookup)
    ensures ConvertElement("cta: Shop now", html, table, lookupQ).None?
  {
    LowerCaseCtaNoTrigger();
  }

  lemma LowerCaseCtaNoTrigger()
    ensures !Triggers("cta: Shop now")
  {
    var text := "cta: Shop now";
    assert IsTrimmed(text);
    TrimOfTrimmed(text);
    assert !AtCI(text, 0, "[cta]") by {
      if AtCI(text, 0, "[cta]") {
        AtCIChar(text, 0, "[cta]", 0);
        assert false;
      }
    }
    assert !OccursAt(text, "CTA", 0) by {
      if OccursAt(text, "CTA", 0) {
        OccursAtChar(text, "CTA", 0, 0);
        assert false;
      }
    }
    assert !Contains(text, "<CTA>") by {
      NoCharNoOccurrence(text, "<CTA>", 0);
    }
  }

  // ------------------------------------------------------------------ a plain anchor

  /** A case-insensitive occurrence inside an embedded string is one in that string. */
  lemma AtCIInside(s: string, u: string, j: nat, i: nat, lit: string)
    requires OccursAt(s, u, j) && j <= i && i + |lit| <= j + |u|
    requires AtCI(s, i, lit)
    ensures AtCI(u, i - j, lit)
  {
    forall x | i <= x < i + |lit|
      ensures s[x] == u[x - j]
    {
      OccursAtChar(s, u, j, x - j);
    }
    assert s[i..i + |lit|] == u[i - j..i - j + |lit|];
  }

  /** `HrefFrom` walks down to the rightmost `href=` that completes a match. */
  lemma {:induction false} HrefFromFinds(s: string, p: nat, h: nat, found: nat)
    requires p + 3 <= found <= h
    requires HrefAt(s, found).Some?
    requires forall x :: found < x <= h ==> HrefAt(s, x).None?
    ensures HrefFrom(s, p, h) == HrefAt(s, found)
    decreases h
  {
    if h > found {
      HrefFromFinds(s, p, h - 1, found);
    }
  }

  function PlainAnchor(u: string, t: string): string {
    "<a href=\"" + u + "\">" + t + "</a>"
  }

  /** Where `href=` cannot start inside a plain anchor: everywhere after the real one. */
  lemma NoLaterHref(u: string, t: string, h: nat)
    requires u != [] && !ContainsCI(u, "href=")
    requires forall k :: 0 <= k < |u| ==> !IsQuote(u[k]) && !IsCloseAngle(u[k])
    requires 3 < h <= 10 + |u|
    ensures !AtCI(PlainAnchor(u, t), h, "href=")
  {
    var s := PlainAnchor(u, t);
    assert OccursAt(s, u, 9);
    assert s[9 + |u|] == '"' && s[10 + |u|] == '>';
    if AtCI(s, h, "href=") {
      AtCIChar(s, h, "href=", 0);
      if h < 9 {
        assert false;
      } else if h + 5 <= 9 + |u| {
        AtCIInside(s, u, 9, h, "href=");
        ContainsCIAt(u, h - 9, "href=");
        assert false;
      } else if h <= 9 + |u| {
        AtCIChar(s, h, "href=", 9 + |u| - h);
        assert false;
      } else {
        assert false;
      }
    }
  }

  /**
   The anchor pattern reads a plain `<a href="u">t</a>` back as its URL and its text, provided
   the URL has no quote, no `>` and no `href=` of its own, and the text no `<`.
   */
  lemma PlainAnchorGroups(u: string, t: string)
    requires u != [] && !ContainsCI(u, "href=")
    requires forall k :: 0 <= k < |u| ==> !IsQuote(u[k]) && !IsCloseAngle(u[k])
    requires t != [] && forall k :: 0 <= k < |t| ==> !IsOpenAngle(t[k])
    ensures FirstGroups(PlainAnchor(u, t), AnchorAt) == Some([u, t])
  {
    var s := PlainAnchor(u, t);
    PlainAnchorLayout(u, t);
    assert AtCI(s, 0, "<a");
    var h0 := FindChar(s, 2, IsCloseAngle);
    assert h0 == 10 + |u|;
    HrefAtFirst(s, u, t);
    forall x | 3 < x <= h0
      ensures HrefAt(s, x).None?
    {
      NoLaterHref(u, t, x);
    }
    HrefFromFinds(s, 0, h0, 3);
    assert ValidHit(s, 0, AnchorAt(s, 0));
    FirstMatchAtStart(s, AnchorAt);
  }

  /** Where the parts of a plain anchor sit. */
  predicate AnchorShape(s: string, u: string, t: string) {
    && |s| == |u| + |t| + 15
    && s[..2] == "<a" && s[2] == ' ' && s[3..8] == "href=" && s[8] == '"'
    && (forall k :: 9 <= k < 9 + |u| ==> s[k] == u[k - 9])
    && s[9 + |u|] == '"' && s[10 + |u|] == '>'
    && (forall k :: 11 + |u| <= k < 11 + |u| + |t| ==> s[k] == t[k - 11 - |u|])
    && s[11 + |u| + |t|..] == "</a>"
  }

  lemma PlainAnchorLayout(u: string, t: string)
    ensures AnchorShape(PlainAnchor(u, t), u, t)
  {
  }

  /** The `href=` of a plain anchor completes the match, with the URL and the text as groups. */
  lemma HrefAtFirst(s: string, u: string, t: string)
    requires AnchorShape(s, u, t)
    requires u != []
    requires forall k :: 0 <= k < |u| ==> !IsQuote(u[k]) && !IsCloseAngle(u[k])
    requires t != [] && forall k :: 0 <= k < |t| ==> !IsOpenAngle(t[k])
    ensures HrefAt(s, 3) == Some(Hit(|s|, [u, t]))
  {
    var n := |u|;
    HrefSteps(s, u, t);
    AnchorParts(s, u, t);
    HrefAtFrom(s, 3, 9 + n, 10 + n, 11 + n + |t|, |s|, u, t);
  }

  lemma AnchorParts(s: string, u: string, t: string)
    requires AnchorShape(s, u, t)
    ensures s[9..9 + |u|] == u && s[11 + |u|..11 + |u| + |t|] == t
  {
  }

  lemma HrefSteps(s: string, u: string, t: string)
    requires AnchorShape(s, u, t)
    requires u != []
    requires forall k :: 0 <= k < |u| ==> !IsQuote(u[k]) && !IsCloseAngle(u[k])
    requires t != [] && forall k :: 0 <= k < |t| ==> !IsOpenAngle(t[k])
    ensures AtCI(s, 3, "href=") && IsQuote(s[8])
    ensures FindChar(s, 9, IsQuote) == 9 + |u| && FindChar(s, 10 + |u|, IsCloseAngle) == 10 + |u|
    ensures FindChar(s, 11 + |u|, IsOpenAngle) == 11 + |u| + |t| && AtCI(s, 11 + |u| + |t|, "</a>")
  {
    HrefUrlSteps(s, u, t);
    HrefTextSteps(s, u, t);
  }

  lemma HrefUrlSteps(s: string, u: string, t: string)
    requires AnchorShape(s, u, t)
    requires forall k :: 0 <= k < |u| ==> !IsQuote(u[k]) && !IsCloseAngle(u[k])
    ensures AtCI(s, 3, "href=") && IsQuote(s[8])
    ensures FindChar(s, 9, IsQuote) == 9 + |u| && FindChar(s, 10 + |u|, IsCloseAngle) == 10 + |u|
  {
    assert AtCI(s, 3, "href=");
    FindCharIs(s, 9, IsQuote, 9 + |u|);
    FindCharIs(s, 10 + |u|, IsCloseAngle, 10 + |u|);
  }

  lemma HrefTextSteps(s: string, u: string, t: string)
    requires AnchorShape(s, u, t)
    requires forall k :: 0 <= k < |t| ==> !IsOpenAngle(t[k])
    ensures FindChar(s, 11 + |u|, IsOpenAngle) == 11 + |u| + |t| && AtCI(s, 11 + |u| + |t|, "</a>")
  {
    var e := 11 + |u| + |t|;
    assert s[e..] == "</a>";
    assert s[e] == '<';
    FindCharIs(s, 11 + |u|, IsOpenAngle, e);
    assert s[e..e + 4] == "</a>";
  }

  /** The steps of an `href=` match, read off one by one. */
  lemma HrefAtFrom(s: string, h: nat, ue: nat, k: nat, te: nat, e: nat, url: string, text: string)
    requires AtCI(s, h, "href=") && h + 5 < |s| && IsQuote(s[h + 5])
    requires FindChar(s, h + 6, IsQuote) == ue && h + 6 < ue < |s|
    requires FindChar(s, ue + 1, IsCloseAngle) == k && k < |s|
    requires FindChar(s, k + 1, IsOpenAngle) == te && te > k + 1 && AtCI(s, te, "</a>")
    requires e == te + 4 && url == s[h + 6..ue] && text == s[k + 1..te]
    ensures HrefAt(s, h) == Some(Hit(e, [url, text]))
  {
  }

  /** An element holding a plain anchor gets the anchor's own text and URL, the redirect unwrapped. */
  lemma PlainAnchorLink(caption: string, u: string, t: string, table: CommentTable, lookupQ: string -> QueryLookup)
    requires u != [] && !ContainsCI(u, "href=")
    requires forall k :: 0 <= k < |u| ==> !IsQuote(u[k]) && !IsCloseAngle(u[k])
    requires t != [] && forall k :: 0 <= k < |t| ==> !IsOpenAngle(t[k])
    ensures ChooseLink(caption, PlainAnchor(u, t), table, lookupQ) == (Trim(t), CleanGoogleDocsUrl(Trim(u), lookupQ))
  {
    PlainAnchorGroups(u, t);
    assert Group([u, t], 1) == u && Group([u, t], 2) == t;
  }
}
