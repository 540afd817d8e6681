/**
 The simple parser (`parseHtmlToDocument` of the simple parser file): the same walk over the
 exported body as the Google Docs parser, with three differences. Empty headings and CTAs without
 a button are skipped instead of kept; a paragraph or list item that holds a link keeps its inner
 HTML, with Google redirect links cleaned and every anchor restyled; and the final pass only
 drops empty elements, without merging spacers.
 */
module SimpleParser {
  import opened Base
  import opened Text
  import opened Scan
  import opened Document
  import opened DocUrls
  import opened CtaText
  import opened ParserRules
  import opened MailImageUrl
  import DocsParser

  // ------------------------------------------------------------------ link rewriting

  predicate IsDoubleQuote(c: char) { c == '"' }

  const HrefOpen := "href=\""
  const GoogleDomain := "google.com"

  /** The attribute a rewritten anchor carries after its `href`. */
  const LinkStyle := " style=\"color: #1a73e8; text-decoration: underline;\">"

  /**
   `href="([^"]*google\.com[^"]*)"` at `p`: the value runs to the next double quote and must
   mention `google.com`.
   */
  function GoogleHrefAt(s: string, p: nat): (r: Option<Hit>)
    ensures r.Some? ==> OccursAt(s, HrefOpen, p)
    ensures r.Some? ==> var q := r.value.end - 1;
      p + 6 <= q < |s| && s[q] == '"' && r.value.groups == [s[p + 6..q]]
      && Lacks(s[p + 6..q], '"') && Contains(s[p + 6..q], GoogleDomain)
  {
    if OccursAt(s, HrefOpen, p) then
      var q := FindChar(s, p + 6, IsDoubleQuote);
      if q < |s| && Contains(s[p + 6..q], GoogleDomain) then Some(Hit(q + 1, [s[p + 6..q]])) else None
    else None
  }

  /** The callback of the first pass: the value is replaced by its cleaned URL. */
  function CleanHref(lookupQ: string -> QueryLookup): Replacer {
    (s: string, i: nat, t: string, g: seq<string>) => HrefOpen + CleanGoogleDocsUrl(Group(g, 1), lookupQ) + "\""
  }

  /** `href="([^"]*)"[^>]*>` at `h`: the value up to the next double quote, then up to the next `>`. */
  function HrefTailAt(s: string, h: nat): (r: Option<Hit>)
    ensures r.Some? ==> OccursAt(s, HrefOpen, h) && h + 6 < r.value.end <= |s| && s[r.value.end - 1] == '>'
  {
    if OccursAt(s, HrefOpen, h) then
      var q := FindChar(s, h + 6, IsDoubleQuote);
      if q < |s| then
        var g := FindChar(s, q + 1, IsCloseAngle);
        if g < |s| then Some(Hit(g + 1, [s[h + 6..q]])) else None
      else None
    else None
  }

  /**
   The greedy `[^>]*` before `href=`: it gives characters back from `h` down to `lo`, so the
   last start in that range from which the rest of the pattern matches is the one taken.
   */
  function LastHrefStart(s: string, lo: nat, h: nat): (r: Option<nat>)
    decreases h
    ensures r.Some? ==> lo <= r.value <= h && HrefTailAt(s, r.value).Some?
    ensures r.Some? ==> forall k :: r.value < k <= h ==> HrefTailAt(s, k).None?
    ensures r.None? ==> forall k :: lo <= k <= h ==> HrefTailAt(s, k).None?
  {
    if h < lo then None
    else if HrefTailAt(s, h).Some? then Some(h)
    else if h == lo then None
    else LastHrefStart(s, lo, h - 1)
  }

  /** `<a[^>]*href="([^"]*)"[^>]*>` at `p`. */
  function StyledAnchorAt(s: string, p: nat): (r: Option<Hit>)
    ensures r.Some? ==> OccursAt(s, "<a", p) && Contains(s, HrefOpen)
  {
    if OccursAt(s, "<a", p) then
      match LastHrefStart(s, p + 2, FindChar(s, p + 2, IsCloseAngle))
      case Some(h) => HrefTailAt(s, h)
      case None => None
    else None
  }

  /** The callback of the second pass: only the `href` survives, followed by the link style. */
  function StyleLink(s: string, i: nat, t: string, g: seq<string>): string {
    "<a href=\"" + Group(g, 1) + "\"" + LinkStyle
  }

  /** The two passes applied to the inner HTML of a paragraph or list item that holds a link. */
  function RewriteLinks(html: string, lookupQ: string -> QueryLookup): string {
    ReplaceAll(ReplaceAll(html, GoogleHrefAt, CleanHref(lookupQ)), StyledAnchorAt, StyleLink)
  }

  /** `<a href="u">t</a>`, an anchor as the export writes it. */
  function AnchorHtml(u: string, t: string): string {
    "<a " + HrefOpen + u + "\">" + t + "</a>"
  }

  /** The same anchor after both passes. */
  function StyledAnchorHtml(u: string, t: string): string {
    "<a href=\"" + u + "\"" + LinkStyle + t + "</a>"
  }

  /** HTML without any `href="` is left alone by both passes. */
  lemma RewriteLinksWithoutHref(html: string, lookupQ: string -> QueryLookup)
    requires !Contains(html, HrefOpen)
    ensures RewriteLinks(html, lookupQ) == html
  {
    forall j | 0 <= j < |html| ensures !ValidHit(html, j, GoogleHrefAt(html, j)) {
      assert !OccursAt(html, HrefOpen, j);
    }
    ReplaceAllWithoutMatches(html, GoogleHrefAt, CleanHref(lookupQ));
    forall j | 0 <= j < |html| ensures !ValidHit(html, j, StyledAnchorAt(html, j)) { }
    ReplaceAllWithoutMatches(html, StyledAnchorAt, StyleLink);
  }

  /** `www.google.com/url` holds `google.com`: every redirect link is one the first pass visits. */
  lemma RedirectMentionsGoogle(u: string)
    requires Contains(u, RedirectHost)
    ensures Contains(u, GoogleDomain)
  {
    var i :| 0 <= i <= |u| && OccursAt(u, RedirectHost, i);
    var x, y := u[i + 4..i + 14], u[i..i + 18][4..14];
    assert x == y;
    assert OccursAt(u, GoogleDomain, i + 4);
  }

  /** Where the characters of an exported anchor sit. */
  lemma AnchorChars(u: string, t: string)
    ensures var s := AnchorHtml(u, t); var n := |u|;
      && |s| == 15 + n + |t|
      && s[..3] == "<a " && s[3..9] == HrefOpen && s[9..9 + n] == u && s[9 + n] == '"' && s[10 + n] == '>'
      && s[11 + n..11 + n + |t|] == t && s[11 + n + |t|..] == "</a>"
  {
  }

  /** The only double quotes of an exported anchor are the two around its URL. */
  lemma AnchorQuotes(u: string, t: string)
    requires Lacks(u, '"') && Lacks(t, '"')
    ensures var s := AnchorHtml(u, t);
      forall k :: 0 <= k < |s| && s[k] == '"' ==> k == 8 || k == 8 + |u| + 1
  {
    var s := AnchorHtml(u, t);
    var n := |u|;
    AnchorChars(u, t);
    forall k | 0 <= k < |s| && k != 8 && k != 9 + n ensures s[k] != '"' {
      if 9 <= k < 9 + n {
        assert s[k] == s[9..9 + n][k - 9];
      } else if 11 + n <= k < 11 + n + |t| {
        assert s[k] == s[11 + n..11 + n + |t|][k - 11 - n];
      } else if 11 + n + |t| <= k {
        assert s[k] == s[11 + n + |t|..][k - 11 - n - |t|];
      } else if k < 3 {
        assert s[k] == s[..3][k];
      } else if 3 <= k < 8 {
        assert s[k] == s[3..9][k - 3];
      }
    }
  }

  /** No double quote follows the one that closes the URL. */
  lemma AnchorNoQuoteAfter(u: string, t: string)
    requires Lacks(u, '"') && Lacks(t, '"')
    ensures var s := AnchorHtml(u, t); FindChar(s, 10 + |u|, IsDoubleQuote) == |s|
  {
    AnchorQuotes(u, t);
    AnchorChars(u, t);
    FindCharIs(AnchorHtml(u, t), 10 + |u|, IsDoubleQuote, |AnchorHtml(u, t)|);
  }

  /**
   `href="` can start only where its quote lands on one of the two: at the attribute itself,
   or at the end of a URL that happens to end in `href=`.
   */
  lemma AnchorHrefStarts(u: string, t: string)
    requires Lacks(u, '"') && Lacks(t, '"')
    ensures var s := AnchorHtml(u, t);
      forall j :: 0 <= j < |s| && OccursAt(s, HrefOpen, j) ==> j == 3 || j == |u| + 4
  {
    var s := AnchorHtml(u, t);
    AnchorQuotes(u, t);
    forall j | 0 <= j < |s| && OccursAt(s, HrefOpen, j) ensures j == 3 || j == |u| + 4 {
      OccursAtChar(s, HrefOpen, j, 5);
    }
  }

  /** The first pass finds its only match at the attribute, and only when the URL mentions `google.com`. */
  lemma GoogleHrefOnAnchor(u: string, t: string)
    requires Lacks(u, '"') && Lacks(t, '"')
    ensures var s := AnchorHtml(u, t);
      && (forall j :: 0 <= j < |s| && j != 3 ==> GoogleHrefAt(s, j).None?)
      && GoogleHrefAt(s, 3) == (if Contains(u, GoogleDomain) then Some(Hit(10 + |u|, [u])) else None)
  {
    var s := AnchorHtml(u, t);
    var n := |u|;
    AnchorChars(u, t);
    AnchorHrefStarts(u, t);
    AnchorNoQuoteAfter(u, t);
    AnchorQuotes(u, t);
    assert OccursAt(s, HrefOpen, 3);
    FindCharIs(s, 9, IsDoubleQuote, 9 + n);
    assert s[9..9 + n] == u;
  }

  /**
   The first pass on an exported anchor whose URL and text hold no double quote: the URL is
   replaced by its cleaned form (which is the URL itself unless it is a redirect).
   */
  lemma CleanPassOnAnchor(u: string, t: string, lookupQ: string -> QueryLookup)
    requires Lacks(u, '"') && Lacks(t, '"')
    ensures ReplaceAll(AnchorHtml(u, t), GoogleHrefAt, CleanHref(lookupQ))
      == AnchorHtml(CleanGoogleDocsUrl(u, lookupQ), t)
  {
    if Contains(u, GoogleDomain) {
      CleanPassGoogle(u, t, lookupQ);
    } else {
      CleanPassOther(u, t, lookupQ);
    }
  }

  lemma CleanPassGoogle(u: string, t: string, lookupQ: string -> QueryLookup)
    requires Lacks(u, '"') && Lacks(t, '"') && Contains(u, GoogleDomain)
    ensures ReplaceAll(AnchorHtml(u, t), GoogleHrefAt, CleanHref(lookupQ))
      == AnchorHtml(CleanGoogleDocsUrl(u, lookupQ), t)
  {
    var s := AnchorHtml(u, t);
    var n := |u|;
    GoogleHrefOnAnchor(u, t);
    AnchorChars(u, t);
    var rep := CleanHref(lookupQ);
    ReplaceAllOnly(s, GoogleHrefAt, rep, 3);
    var c := CleanGoogleDocsUrl(u, lookupQ);
    assert rep(s, 3, s[3..10 + n], [u]) == HrefOpen + c + "\"";
    assert s[..3] == "<a " && s[10 + n..] == ">" + t + "</a>";
  }

  lemma CleanPassOther(u: string, t: string, lookupQ: string -> QueryLookup)
    requires Lacks(u, '"') && Lacks(t, '"') && !Contains(u, GoogleDomain)
    ensures ReplaceAll(AnchorHtml(u, t), GoogleHrefAt, CleanHref(lookupQ))
      == AnchorHtml(CleanGoogleDocsUrl(u, lookupQ), t)
  {
    var s := AnchorHtml(u, t);
    GoogleHrefOnAnchor(u, t);
    assert !Contains(u, RedirectHost) by {
      if Contains(u, RedirectHost) { RedirectMentionsGoogle(u); }
    }
    ReplaceAllWithoutMatches(s, GoogleHrefAt, CleanHref(lookupQ));
  }

  /** The second pass matches an exported anchor at its start, capturing the URL. */
  lemma StyledAnchorAtStart(u: string, t: string)
    requires Lacks(u, '"') && Lacks(t, '"')
    ensures StyledAnchorAt(AnchorHtml(u, t), 0) == Some(Hit(11 + |u|, [u]))
  {
    var s := AnchorHtml(u, t);
    var n := |u|;
    AnchorChars(u, t);
    AnchorHrefStarts(u, t);
    AnchorNoQuoteAfter(u, t);
    assert s[0] == s[..3][0] && s[1] == s[..3][1] && s[2] == s[..3][2];
    assert OccursAt(s, "<a", 0) by { assert s[0..2] == "<a"; }
    var g := FindChar(s, 2, IsCloseAngle);
    assert 3 <= g;
    assert OccursAt(s, HrefOpen, 3);
    FindCharIs(s, 9, IsDoubleQuote, 9 + n);
    FindCharIs(s, 10 + n, IsCloseAngle, 10 + n);
    assert s[9..9 + n] == u;
    assert HrefTailAt(s, 3) == Some(Hit(11 + n, [u]));
    assert HrefTailAt(s, n + 4).None?;
    var r := LastHrefStart(s, 2, g);
    assert r.Some?;
    assert r.value == 3;
  }

  /** Nothing after an exported anchor opens another one when its text holds no `<`. */
  lemma StyledAnchorNoLater(u: string, t: string)
    requires Lacks(t, '<')
    ensures var s := AnchorHtml(u, t);
      forall j :: 11 + |u| <= j < |s| ==> StyledAnchorAt(s, j).None?
  {
    var s := AnchorHtml(u, t);
    var n := |u|;
    AnchorChars(u, t);
    forall j | 11 + n <= j < |s| ensures !OccursAt(s, "<a", j) {
      if j < 11 + n + |t| {
        assert s[j] == s[11 + n..11 + n + |t|][j - 11 - n];
        assert s[j] != '<';
      } else if j == 11 + n + |t| && j + 1 < |s| {
        assert s[j + 1] == s[11 + n + |t|..][1];
      }
      if OccursAt(s, "<a", j) {
        OccursAtChar(s, "<a", j, 0);
        OccursAtChar(s, "<a", j, 1);
      }
    }
  }

  /**
   The second pass on an exported anchor: the anchor's own attributes are replaced by the
   `href` and the link style, and its text is kept.
   */
  lemma StylePassOnAnchor(u: string, t: string)
    requires Lacks(u, '"') && Lacks(t, '"') && Lacks(t, '<')
    ensures ReplaceAll(AnchorHtml(u, t), StyledAnchorAt, StyleLink) == StyledAnchorHtml(u, t)
  {
    var s := AnchorHtml(u, t);
    var n := |u|;
    StyledAnchorAtStart(u, t);
    StyledAnchorNoLater(u, t);
    assert |s| == 15 + n + |t|;
    ReplaceAllOnly(s, StyledAnchorAt, StyleLink, 0);
    StyledJoin(s, u, t);
  }

  /** The restyled head put back in front of the anchor's unchanged text and close tag. */
  lemma StyledJoin(s: string, u: string, t: string)
    requires s == AnchorHtml(u, t)
    ensures 11 + |u| <= |s|
    ensures s[..0] + StyleLink(s, 0, s[0..11 + |u|], [u]) + s[11 + |u|..] == StyledAnchorHtml(u, t)
  {
    assert Group([u], 1) == u;
    var head := "<a href=\"" + u + "\"" + LinkStyle;
    assert StyleLink(s, 0, s[0..11 + |u|], [u]) == head;
    AnchorTail(u, t);
    EmptyPrefix(head);
    Assoc(head, t, "</a>");
  }

  lemma AnchorTail(u: string, t: string)
    ensures AnchorHtml(u, t)[11 + |u|..] == t + "</a>"
  {
    var x := "<a " + HrefOpen + u + "\">";
    assert |x| == 11 + |u|;
    assert AnchorHtml(u, t) == x + (t + "</a>");
  }

  /**
   A paragraph that is one exported anchor, read as the simple parser reads it: the link is
   cleaned, restyled, and its text kept.
   */
  lemma RewriteSingleLink(u: string, t: string, lookupQ: string -> QueryLookup)
    requires Lacks(u, '"') && Lacks(t, '"') && Lacks(t, '<')
    requires Lacks(CleanGoogleDocsUrl(u, lookupQ), '"')
    ensures RewriteLinks(AnchorHtml(u, t), lookupQ) == StyledAnchorHtml(CleanGoogleDocsUrl(u, lookupQ), t)
  {
    CleanPassOnAnchor(u, t, lookupQ);
    StylePassOnAnchor(CleanGoogleDocsUrl(u, lookupQ), t);
  }

  // ------------------------------------------------------- one anchor inside a paragraph

  /** Text with no double quote and no `<`: words around a link, with no attribute or tag of their own. */
  predicate PlainAround(x: string) {
    Lacks(x, '"') && Lacks(x, '<')
  }

  /** The only double quotes of `s` are at `a` and `b`. */
  predicate QuotesOnlyAt(s: string, a: nat, b: nat) {
    forall k :: 0 <= k < |s| && s[k] == '"' ==> k == a || k == b
  }

  /** An exported anchor between plain words: its two quotes are the only ones. */
  lemma AnchorDocQuotes(pre: string, u: string, t: string, post: string)
    requires Lacks(u, '"') && Lacks(t, '"') && Lacks(pre, '"') && Lacks(post, '"')
    ensures QuotesOnlyAt(pre + AnchorHtml(u, t) + post, |pre| + 8, |pre| + 9 + |u|)
  {
    var a := AnchorHtml(u, t);
    var s := pre + a + post;
    AnchorQuotes(u, t);
    forall k | 0 <= k < |s| && k != |pre| + 8 && k != |pre| + 9 + |u|
      ensures s[k] != '"'
    {
      if k < |pre| {
        assert s[k] == pre[k];
      } else if k < |pre| + |a| {
        assert s[k] == a[k - |pre|];
      } else {
        assert s[k] == post[k - |pre| - |a|];
      }
    }
  }

  /**
   With its only double quotes at `a` and `b`, no `href="` value can be read except from `a`:
   one opening at `b` never closes.
   */
  lemma HrefTailNone(s: string, k: nat, a: nat, b: nat)
    requires QuotesOnlyAt(s, a, b) && a < b && k + 5 != a
    ensures HrefTailAt(s, k).None? && GoogleHrefAt(s, k).None?
  {
    if OccursAt(s, HrefOpen, k) {
      OccursAtChar(s, HrefOpen, k, 5);
      FindCharIs(s, k + 6, IsDoubleQuote, |s|);
    }
  }

  /**
   Inside a document whose only double quotes are an exported anchor's two, the first pass can
   match only at the anchor's `href`, and does so exactly when the URL mentions `google.com`.
   */
  lemma HrefPassWindow(s: string, p: nat, u: string, t: string, q: nat, e: nat)
    requires Window(s, p, AnchorHtml(u, t)) && QuotesOnlyAt(s, p + 8, p + 9 + |u|) && Lacks(u, '"')
    requires q == p + 3 && e == p + 10 + |u|
    ensures forall j :: 0 <= j < |s| && j != q ==> GoogleHrefAt(s, j).None?
    ensures GoogleHrefAt(s, q) == if Contains(u, GoogleDomain) then Some(Hit(e, [u])) else None
  {
    var a := AnchorHtml(u, t);
    var n := |u|;
    AnchorChars(u, t);
    WindowSlice(s, p, a, 3, 9);
    WindowSlice(s, p, a, 9, 9 + n);
    WindowChar(s, p, a, 9 + n);
    assert OccursAt(s, HrefOpen, p + 3);
    FindCharIs(s, p + 9, IsDoubleQuote, p + 9 + n);
    forall j | 0 <= j < |s| && j != q
      ensures GoogleHrefAt(s, j).None?
    {
      HrefTailNone(s, j, p + 8, p + 9 + n);
    }
  }

  /** Inside a document, an exported anchor opens with `<a` and a space, and its `href` reads its URL up to its first `>`. */
  lemma AnchorOpenWindow(s: string, p: nat, u: string, t: string, q: nat, e: nat)
    requires Window(s, p, AnchorHtml(u, t)) && QuotesOnlyAt(s, p + 8, p + 9 + |u|) && Lacks(u, '"')
    requires q == p + 3 && e == p + 11 + |u|
    ensures OccursAt(s, "<a", p) && s[p + 2] == ' ' && HrefTailAt(s, q) == Some(Hit(e, [u]))
  {
    var a := AnchorHtml(u, t);
    var n := |u|;
    AnchorChars(u, t);
    WindowSlice(s, p, a, 0, 3);
    WindowSlice(s, p, a, 3, 9);
    WindowSlice(s, p, a, 9, 9 + n);
    WindowChar(s, p, a, 9 + n);
    WindowChar(s, p, a, 10 + n);
    assert OccursAt(s, "<a", p) by { assert s[p..p + 2] == s[p..p + 3][..2]; }
    assert s[p + 2] == s[p..p + 3][2];
    assert OccursAt(s, HrefOpen, q);
    FindCharIs(s, q + 6, IsDoubleQuote, p + 9 + n);
    FindCharIs(s, p + 10 + n, IsCloseAngle, p + 10 + n);
  }

  /**
   Inside a document whose only double quotes are an exported anchor's two, the second pass
   matches at the anchor's start up to its first `>`, capturing the URL.
   */
  lemma StylePassWindow(s: string, p: nat, u: string, t: string, e: nat)
    requires Window(s, p, AnchorHtml(u, t)) && QuotesOnlyAt(s, p + 8, p + 9 + |u|) && Lacks(u, '"')
    requires e == p + 11 + |u|
    ensures StyledAnchorAt(s, p) == Some(Hit(e, [u]))
  {
    AnchorOpenWindow(s, p, u, t, p + 3, e);
    var g := FindChar(s, p + 2, IsCloseAngle);
    forall k | p + 3 < k <= g
      ensures HrefTailAt(s, k).None?
    {
      HrefTailNone(s, k, p + 8, p + 9 + |u|);
    }
    var r := LastHrefStart(s, p + 2, g);
    assert r.Some? && r.value == p + 3;
  }

  /** Outside the opening tag of an exported anchor between plain words, no `<a` starts. */
  lemma NoAnchorOutside(pre: string, u: string, t: string, post: string)
    requires Lacks(pre, '<') && Lacks(t, '<') && Lacks(post, '<')
    ensures var s, b := pre + AnchorHtml(u, t) + post, |pre| + 11 + |u|;
      forall j :: 0 <= j < |s| && (j < |pre| || b <= j) ==> !OccursAt(s, "<a", j)
  {
    var x := "<a " + HrefOpen + u + "\">";
    var s := pre + x + (t + "</a>" + post);
    var b := |pre| + |x|;
    AnchorSplit(u, t);
    Regroup(pre, x, t + "</a>", post);
    forall j | 0 <= j < |s| && (j < |pre| || b <= j)
      ensures s[j] != '<' || (j + 1 < |s| && s[j + 1] == '/')
    {
      if j < |pre| {
        assert s[j] == pre[j];
      } else if j < b + |t| {
        assert s[j] == t[j - b];
      } else if j == b + |t| {
        assert s[j + 1] == "</a>"[1];
      } else if j < b + |t| + 4 {
        assert s[j] == "</a>"[j - b - |t|];
      } else {
        assert s[j] == post[j - b - |t| - 4];
      }
    }
    forall j | 0 <= j < |s| && (j < |pre| || b <= j)
      ensures !OccursAt(s, "<a", j)
    {
      if OccursAt(s, "<a", j) {
        OccursAtChar(s, "<a", j, 0);
        OccursAtChar(s, "<a", j, 1);
      }
    }
  }

  /** An exported anchor cut around its `href` attribute, and cut after its opening tag. */
  lemma AnchorSplit(u: string, t: string)
    ensures AnchorHtml(u, t) == "<a " + (HrefOpen + u + "\"") + (">" + t + "</a>")
    ensures AnchorHtml(u, t) == ("<a " + HrefOpen + u + "\">") + (t + "</a>")
  {
  }

  /** A restyled anchor cut after its opening tag. */
  lemma StyledSplit(u: string, t: string)
    ensures StyledAnchorHtml(u, t) == ("<a href=\"" + u + "\"" + LinkStyle) + (t + "</a>")
  {
  }

  /** The first pass on an exported anchor between plain words cleans its URL and keeps the rest. */
  lemma CleanPassIn(pre: string, u: string, t: string, post: string, lookupQ: string -> QueryLookup)
    requires Lacks(u, '"') && Lacks(t, '"') && PlainAround(pre) && PlainAround(post)
    ensures ReplaceAll(pre + AnchorHtml(u, t) + post, GoogleHrefAt, CleanHref(lookupQ))
         == pre + AnchorHtml(CleanGoogleDocsUrl(u, lookupQ), t) + post
  {
    if Contains(u, GoogleDomain) {
      CleanPassInGoogle(pre, u, t, post, lookupQ);
    } else {
      CleanPassInOther(pre, u, t, post, lookupQ);
    }
  }

  lemma CleanPassInGoogle(pre: string, u: string, t: string, post: string, lookupQ: string -> QueryLookup)
    requires Lacks(u, '"') && Lacks(t, '"') && PlainAround(pre) && PlainAround(post) && Contains(u, GoogleDomain)
    ensures ReplaceAll(pre + AnchorHtml(u, t) + post, GoogleHrefAt, CleanHref(lookupQ))
         == pre + AnchorHtml(CleanGoogleDocsUrl(u, lookupQ), t) + post
  {
    var a := AnchorHtml(u, t);
    var s := pre + a + post;
    var c := CleanGoogleDocsUrl(u, lookupQ);
    var x, m, w := pre + "<a ", HrefOpen + u + "\"", ">" + t + "</a>";
    AnchorSplit(u, t);
    Regroup5(pre, "<a ", m, w, post);
    AnchorDocQuotes(pre, u, t, post);
    WindowOf(pre, a, post);
    HrefPassWindow(s, |pre|, u, t, |x|, |x| + |m|);
    ReplaceAllAroundNone(x, m, w + post, GoogleHrefAt, CleanHref(lookupQ), [u]);
    AnchorSplit(c, t);
    Regroup5(pre, "<a ", HrefOpen + c + "\"", w, post);
  }

  lemma CleanPassInOther(pre: string, u: string, t: string, post: string, lookupQ: string -> QueryLookup)
    requires Lacks(u, '"') && Lacks(t, '"') && PlainAround(pre) && PlainAround(post) && !Contains(u, GoogleDomain)
    ensures ReplaceAll(pre + AnchorHtml(u, t) + post, GoogleHrefAt, CleanHref(lookupQ))
         == pre + AnchorHtml(CleanGoogleDocsUrl(u, lookupQ), t) + post
  {
    var a := AnchorHtml(u, t);
    var s := pre + a + post;
    AnchorDocQuotes(pre, u, t, post);
    WindowOf(pre, a, post);
    HrefPassWindow(s, |pre|, u, t, |pre| + 3, |pre| + 10 + |u|);
    assert !Contains(u, RedirectHost) by {
      if Contains(u, RedirectHost) { RedirectMentionsGoogle(u); }
    }
    ReplaceAllWithoutMatches(s, GoogleHrefAt, CleanHref(lookupQ));
  }

  /**
   In a document whose only double quotes are an exported anchor's two and where no other `<a`
   starts, the second pass rewrites exactly the anchor's opening tag.
   */
  lemma StyleOnlyWindow(s: string, p: nat, u: string, t: string, e: nat)
    requires Window(s, p, AnchorHtml(u, t)) && QuotesOnlyAt(s, p + 8, p + 9 + |u|) && Lacks(u, '"')
    requires e == p + 11 + |u|
    requires forall j :: 0 <= j < |s| && (j < p || e <= j) ==> !OccursAt(s, "<a", j)
    ensures ReplaceAll(s, StyledAnchorAt, StyleLink) == s[..p] + StyleLink(s, p, s[p..e], [u]) + s[e..]
  {
    StylePassWindow(s, p, u, t, e);
    forall j | 0 <= j < |s| && (j < p || e <= j)
      ensures !ValidHit(s, j, StyledAnchorAt(s, j))
    {
    }
    ReplaceAllOnly(s, StyledAnchorAt, StyleLink, p);
  }

  /** A document cut before and after a prefix `x` of its middle part. */
  lemma CutAround(pre: string, a: string, post: string, x: string, z: string)
    requires a == x + z
    ensures (pre + a + post)[..|pre|] == pre && (pre + a + post)[|pre| + |x|..] == z + post
  {
    assert pre + a + post == pre + x + (z + post);
  }

  /** The second pass on an exported anchor between plain words restyles it and keeps the rest. */
  lemma StylePassIn(pre: string, u: string, t: string, post: string)
    requires Lacks(u, '"') && Lacks(t, '"') && Lacks(t, '<') && PlainAround(pre) && PlainAround(post)
    ensures ReplaceAll(pre + AnchorHtml(u, t) + post, StyledAnchorAt, StyleLink)
         == pre + StyledAnchorHtml(u, t) + post
  {
    var a := AnchorHtml(u, t);
    var s := pre + a + post;
    var x, z := "<a " + HrefOpen + u + "\">", t + "</a>";
    AnchorDocQuotes(pre, u, t, post);
    WindowOf(pre, a, post);
    NoAnchorOutside(pre, u, t, post);
    StyleOnlyWindow(s, |pre|, u, t, |pre| + 11 + |u|);
    AnchorSplit(u, t);
    CutAround(pre, a, post, x, z);
    assert Group([u], 1) == u;
    StyledSplit(u, t);
    Regroup(pre, "<a href=\"" + u + "\"" + LinkStyle, z, post);
  }

  /**
   A paragraph holding one exported anchor between plain words, read as the simple parser reads
   it: the link is cleaned and restyled, and its text and the words around it are kept.
   */
  lemma RewriteLinkIn(pre: string, u: string, t: string, post: string, lookupQ: string -> QueryLookup)
    requires Lacks(u, '"') && Lacks(t, '"') && Lacks(t, '<') && PlainAround(pre) && PlainAround(post)
    requires Lacks(CleanGoogleDocsUrl(u, lookupQ), '"')
    ensures RewriteLinks(pre + AnchorHtml(u, t) + post, lookupQ)
         == pre + StyledAnchorHtml(CleanGoogleDocsUrl(u, lookupQ), t) + post
  {
    CleanPassIn(pre, u, t, post, lookupQ);
    StylePassIn(pre, CleanGoogleDocsUrl(u, lookupQ), t, post);
  }

  // ------------------------------------------------------------------ one element

  /** A heading: as the Google Docs parser builds it (with this parser's formatting), but skipped when empty. */
  function ParseHeading(n: Node, level: nat): (r: seq<Element>)
    ensures |r| <= 1 && (r == [] <==> Trim(n.text) == [])
    ensures r != [] ==> r[0] == DocsParser.ParseHeading(n, level).(formatting := SimpleFormatting(n.styling))
  {
    var t := Trim(n.text);
    if t == [] then [] else [Element(Heading, t, SimpleFormatting(n.styling), Some(level), None, None, None, None, None)]
  }

  /**
   The content of a paragraph or list item: its trimmed text, or, when it holds an anchor, its
   inner HTML with both link passes applied.
   */
  function LinkedContent(n: Node, lookupQ: string -> QueryLookup): (r: string)
    ensures n.anchor.None? ==> r == Trim(n.text)
    ensures n.anchor.Some? && !Contains(n.html, HrefOpen) ==> r == n.html
  {
    if n.anchor.Some? then
      (if !Contains(n.html, HrefOpen) then RewriteLinksWithoutHref(n.html, lookupQ); RewriteLinks(n.html, lookupQ)
       else RewriteLinks(n.html, lookupQ))
    else Trim(n.text)
  }

  /** `parseCTAElement`: the same button as the Google Docs parser's, or nothing when no pattern matches. */
  function ParseCtaElement(n: Node, lookupQ: string -> QueryLookup): (r: Option<Element>)
    ensures r.None? <==> DirectiveText(Trim(n.text)).None?
    ensures r.Some? ==> r.value == DocsParser.ParseCta(n, lookupQ) && r.value.kind == Cta
  {
    match CtaParts(Trim(n.text), n.html, lookupQ)
    case None => None
    case Some(parts) => Some(CtaElement(parts.0, parts.1))
  }

  /**
   A paragraph: nothing for empty text; the CTA button when the text triggers one; a spacer
   for `[space]`; otherwise a paragraph whose content is the text or, with a link, the HTML.
   */
  function ParseParagraph(n: Node, lookupQ: string -> QueryLookup): (r: seq<Element>)
    ensures |r| <= 1 && (r == [] <==> Trim(n.text) == [])
    ensures r != [] ==> (r[0].kind == Cta <==> IsCtaPattern(Trim(n.text)))
    ensures r != [] ==> (r[0] == BareSpace <==> Trim(n.text) == DocsParser.SpaceDirective)
    ensures r != [] && r[0].kind == Cta ==> r[0] == DocsParser.ParseCta(n, lookupQ)
    ensures r != [] && r[0].kind !in {Cta, Space} ==>
      r[0].kind == Paragraph && r[0].content == LinkedContent(n, lookupQ)
      && r[0].formatting == SimpleFormatting(n.styling) && r[0].url.None?
  {
    var t := Trim(n.text);
    DocsParser.SpaceDirectiveIsNotCta();
    if t == [] then []
    else if IsCtaPattern(t) then
      TrimIsTrimmed(n.text);
      TriggerHasText(t);
      match ParseCtaElement(n, lookupQ)
      case Some(e) => [e]
      case None => []
    else if t == DocsParser.SpaceDirective then [BareSpace]
    else [Element(Paragraph, LinkedContent(n, lookupQ), SimpleFormatting(n.styling), None, None, None, None, None, None)]
  }

  /** A non-empty paragraph gives one element in both parsers, the same one unless it is a plain paragraph. */
  lemma ParagraphsAgree(n: Node, lookupQ: string -> QueryLookup)
    requires Trim(n.text) != []
    ensures var r := ParseParagraph(n, lookupQ); var d := DocsParser.ParseParagraph(n, lookupQ);
      && |r| == 1 && d.Some? && r[0].kind == d.value.kind
      && (r[0].kind != Paragraph ==> r[0] == d.value)
      && (n.anchor.None? ==> r[0].content == d.value.content)
  {
    var t := Trim(n.text);
    var r := ParseParagraph(n, lookupQ);
    var d := DocsParser.ParseParagraph(n, lookupQ);
    assert |r| == 1 && d.Some?;
    if IsCtaPattern(t) {
      assert r[0].kind == Cta && d.value.kind == Cta;
      assert d.value == DocsParser.ParseCta(n, lookupQ);
    } else if t == DocsParser.SpaceDirective {
      assert r[0] == BareSpace && d.value == BareSpace;
    } else {
      assert r[0].kind != Cta && r[0] != BareSpace;
      assert r[0].kind == Paragraph && d.value.kind == Paragraph;
    }
  }

  /** One `li`: an item without list type, skipped when empty. */
  function ParseItem(li: Node, lookupQ: string -> QueryLookup): (r: seq<Element>)
    ensures |r| <= 1 && (r == [] <==> Trim(li.text) == [])
    ensures r != [] ==> r[0].kind == ListItem && r[0].listType.None? && r[0].content == LinkedContent(li, lookupQ)
  {
    if Trim(li.text) == [] then []
    else [Element(ListItem, LinkedContent(li, lookupQ), SimpleFormatting(li.styling), None, None, None, None, None, None)]
  }

  function ParseList(items: seq<Node>, lookupQ: string -> QueryLookup): seq<Element>
    decreases |items|
  {
    if items == [] then [] else ParseItem(items[0], lookupQ) + ParseList(items[1..], lookupQ)
  }

  /** The contents of a list of elements, in order. */
  function Contents(es: seq<Element>): (r: seq<string>)
    ensures |r| == |es|
    decreases |es|
  {
    if es == [] then [] else [es[0].content] + Contents(es[1..])
  }

  lemma {:induction false} ContentsAppend(a: seq<Element>, b: seq<Element>)
    ensures Contents(a + b) == Contents(a) + Contents(b)
    decreases |a|
  {
    if a == [] {
      assert a + b == b;
    } else {
      assert (a + b)[1..] == a[1..] + b;
      ContentsAppend(a[1..], b);
    }
  }

  predicate Unlinked(items: seq<Node>) {
    forall i :: 0 <= i < |items| ==> items[i].anchor.None?
  }

  /**
   Both parsers keep the same list items: without links, the items hold the same texts in the
   same order, whatever list type the Google Docs parser records.
   */
  lemma {:induction false} ListsAgree(items: seq<Node>, lt: ListType, lookupQ: string -> QueryLookup)
    requires Unlinked(items)
    ensures Contents(ParseList(items, lookupQ)) == Contents(DocsParser.ParseList(items, lt))
    decreases |items|
  {
    if items != [] {
      var tail := items[1..];
      assert Unlinked(tail) by {
        forall i | 0 <= i < |tail| ensures tail[i].anchor.None? { assert tail[i] == items[i + 1]; }
      }
      ListsAgree(tail, lt, lookupQ);
      var a := ParseItem(items[0], lookupQ);
      var b := DocsParser.ParseItem(items[0], lt);
      ItemAgrees(items[0], lt, lookupQ);
      ContentsAppend(a, ParseList(tail, lookupQ));
      ContentsAppend(b, DocsParser.ParseList(tail, lt));
    }
  }

  /** Both parsers read an item without a link to the same text. */
  lemma ItemAgrees(item: Node, lt: ListType, lookupQ: string -> QueryLookup)
    requires item.anchor.None?
    ensures Contents(ParseItem(item, lookupQ)) == Contents(DocsParser.ParseItem(item, lt))
  {
    var a := ParseItem(item, lookupQ);
    var b := DocsParser.ParseItem(item, lt);
    if a != [] { assert a[1..] == [] && b[1..] == []; }
  }

  /** The image URL: `https:` for a protocol-relative source, then the mail size for a Google-hosted one. */
  function SimpleImageUrl(src: string): string {
    var a := WithScheme(src);
    if Contains(src, "googleusercontent.com") then SizeForMail(a) else a
  }

  /** The parser tests the image URL before the scheme is added, the generator after; the result is the same. */
  lemma SimpleImageUrlIsOptimized(src: string)
    ensures SimpleImageUrl(src) == OptimizeForMail(WithScheme(src))
  {
    SchemeKeepsTests(src);
    assert GoogleImageHost == "googleusercontent.com";
  }

  /**
   The generator's own mail-size rewrite leaves a parsed Google image URL unchanged, provided
   the image URL carried no size parameter.
   */
  lemma SimpleImageUrlStable(src: string)
    requires Contains(src, GoogleImageHost) && Unsized(WithScheme(src))
    ensures OptimizeForMail(SimpleImageUrl(src)) == SimpleImageUrl(src)
  {
    var a := WithScheme(src);
    SimpleImageUrlIsOptimized(src);
    SchemeKeepsTests(src);
    assert GoogleImageHost == "googleusercontent.com";
    SizeForMailUnsized(a);
    var sep: string := if Contains(a, "?") then "&" else "?";
    assert SizeForMail(a) == a + (sep + MailSize);
    ContainsAppend(a, sep + MailSize, GoogleImageHost);
    SizeForMailIdempotent(a);
  }

  /** An image: the alt text (`이미지` when absent or empty) as content, the rewritten URL, no alt field. */
  function ParseImage(n: Node): (r: Element)
    ensures r.kind == Image && r.content != [] && r.alt.None?
    ensures r.content == DocsParser.ParseImage(n).content
    ensures r.url == Some(OptimizeForMail(WithScheme(Or(n.src, ""))))
  {
    SimpleImageUrlIsOptimized(Or(n.src, ""));
    Element(Image, Or(n.alt, DefaultAlt), NoFormatting, None, Some(SimpleImageUrl(Or(n.src, ""))), None, None, None, None)
  }

  /** One element of the selector `p, h1, …, h6, ul, ol, img`, by its lower-cased tag name. */
  function ParseNode(n: Node, lookupQ: string -> QueryLookup): seq<Element> {
    var tag := Lower(n.tag);
    match HeadingTagLevel(tag)
    case Some(level) => ParseHeading(n, level)
    case None =>
      if tag == "p" then ParseParagraph(n, lookupQ)
      else if tag == "ul" || tag == "ol" then ParseList(n.items, lookupQ)
      else if tag == "img" then [ParseImage(n)]
      else []
  }

  function ParseNodes(ns: seq<Node>, lookupQ: string -> QueryLookup): seq<Element>
    decreases |ns|
  {
    if ns == [] then [] else ParseNode(ns[0], lookupQ) + ParseNodes(ns[1..], lookupQ)
  }

  /** `parseHtmlToDocument`: the title, or `제목 없음`, and the parsed elements that pass the filter. */
  function ParseHtmlToDocument(title: string, ns: seq<Node>, lookupQ: string -> QueryLookup): (r: Doc)
    ensures r.title == (if title != [] then title else DocsParser.UntitledTitle)
    ensures forall i :: 0 <= i < |r.elements| ==> Kept(r.elements[i])
    ensures |r.elements| <= |ParseNodes(ns, lookupQ)|
    ensures forall e :: e in r.elements <==> e in ParseNodes(ns, lookupQ) && Kept(e)
    ensures (forall i :: 0 <= i < |ParseNodes(ns, lookupQ)| ==> Kept(ParseNodes(ns, lookupQ)[i])) ==>
              r.elements == ParseNodes(ns, lookupQ)
  {
    var es := ParseNodes(ns, lookupQ);
    var t := if title != [] then title else DocsParser.UntitledTitle;
    DocsParser.DropEmptyAllKept(es);
    DropEmptyMembers(es);
    if forall i :: 0 <= i < |es| ==> Kept(es[i]) then
      DropEmptyKeepsKept(es);
      Doc(t, DropEmpty(es))
    else
      Doc(t, DropEmpty(es))
  }

  /** Spacers are not merged here: two `[space]` paragraphs stay two spacers, where the Google Docs parser makes one of level 2. */
  lemma SpacersNotMerged()
    ensures DropEmpty([BareSpace, BareSpace]) == [BareSpace, BareSpace]
    ensures DocsParser.PostProcess([BareSpace, BareSpace]) == [DocsParser.SpaceRun(2)]
  {
    DocsParser.ReprocessingResetsLevels();
  }
}
