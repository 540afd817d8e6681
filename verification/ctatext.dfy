/**
 The pieces every CTA (call-to-action) rule shares: the `[cta]` and `CTA` directive patterns,
 the four patterns that split a button text into a label and a URL, the `<a href>` pattern
 that reads an authored link out of an element's HTML, and the comment-table fallback.
 */
module CtaText {
  import opened Base
  import opened Text
  import opened Scan

  // ------------------------------------------------------------- URL heads

  /** Length of the `https?:\/\/` match at `q` (the greedy `s?` is tried first): 8, 7, or 0 for none. */
  function SchemeLen(s: string, q: int): nat {
    if OccursAt(s, "https://", q) then 8 else if OccursAt(s, "http://", q) then 7 else 0
  }

  /** `https?:\/\/[^\s]+` matches at `q`: a scheme followed by at least one non-space. */
  predicate UrlStartAt(s: string, q: int) {
    0 <= q && SchemeLen(s, q) > 0 && q + SchemeLen(s, q) < |s| && !IsSpace(s[q + SchemeLen(s, q)])
  }

  /** Where the greedy `[^\s]+` after the scheme stops. */
  function UrlEnd(s: string, q: int): (r: nat)
    requires UrlStartAt(s, q)
    ensures q + SchemeLen(s, q) < r <= |s|
    ensures forall k :: q <= k < r ==> !IsSpace(s[k])
  {
    assert forall k :: q <= k < q + SchemeLen(s, q) ==> s[k] == (if SchemeLen(s, q) == 8 then "https://" else "http://")[k - q];
    FindChar(s, q + SchemeLen(s, q), IsSpace)
  }

  predicate IsCloseParen(c: char) { c == ')' }

  /** `\((https?:\/\/[^)]+)\)` matches at `q`. */
  predicate ParenUrlAt(s: string, q: int) {
    0 <= q < |s| && s[q] == '(' && SchemeLen(s, q + 1) > 0 && q + 1 + SchemeLen(s, q + 1) <= |s|
    && ParenEnd(s, q) > q + 1 + SchemeLen(s, q + 1) && ParenEnd(s, q) < |s|
  }

  /** Where the greedy `[^)]+` after `(` and the scheme stops. */
  function ParenEnd(s: string, q: int): (r: nat)
    requires 0 <= q && q + 1 + SchemeLen(s, q + 1) <= |s|
  {
    FindChar(s, q + 1 + SchemeLen(s, q + 1), IsCloseParen)
  }

  // ------------------------------------------------------------- the four link patterns

  /** The lazy `(.*?)` of `(.*?)\s*(https?:\/\/[^\s]+)`: the shortest label (without line terminators) before a URL. */
  function LazyUrl(s: string, p: nat, j: nat): Option<Hit>
    requires p <= j <= |s|
    decreases |s| - j
  {
    var q := SkipSpace(s, j);
    if UrlStartAt(s, q) then Some(Hit(UrlEnd(s, q), [s[p..j], s[q..UrlEnd(s, q)]]))
    else if j < |s| && !IsLineTerminator(s[j]) then LazyUrl(s, p, j + 1)
    else None
  }

  /** Pattern 1, `(.*?)\s*(https?:\/\/[^\s]+)`. */
  function UrlAfterText(s: string, p: nat): Option<Hit> {
    if p <= |s| then LazyUrl(s, p, p) else None
  }

  function LazyParen(s: string, p: nat, j: nat): Option<Hit>
    requires p <= j <= |s|
    decreases |s| - j
  {
    var q := SkipSpace(s, j);
    if ParenUrlAt(s, q) then Some(Hit(ParenEnd(s, q) + 1, [s[p..j], s[q + 1..ParenEnd(s, q)]]))
    else if j < |s| && !IsLineTerminator(s[j]) then LazyParen(s, p, j + 1)
    else None
  }

  /** Pattern 2, `(.*?)\s*\((https?:\/\/[^)]+)\)`. */
  function ParenUrlAfterText(s: string, p: nat): Option<Hit> {
    if p <= |s| then LazyParen(s, p, p) else None
  }

  predicate IsCloseBracket(c: char) { c == ']' }

  /** Pattern 3, `\[([^\]]+)\]\((https?:\/\/[^)]+)\)`. */
  function MarkdownLink(s: string, p: nat): Option<Hit> {
    if p < |s| && s[p] == '[' then
      var k := FindChar(s, p + 1, IsCloseBracket);
      if k > p + 1 && ParenUrlAt(s, k + 1) then
        Some(Hit(ParenEnd(s, k + 1) + 1, [s[p + 1..k], s[k + 2..ParenEnd(s, k + 1)]]))
      else None
    else None
  }

  predicate IsLetterH(c: char) { c == 'h' }

  /** Pattern 4, `([^h]+)(https?:\/\/[^\s]+)`. */
  function UrlAfterNonH(s: string, p: nat): Option<Hit> {
    if p <= |s| then
      var k := FindChar(s, p, IsLetterH);
      if k > p && UrlStartAt(s, k) then Some(Hit(UrlEnd(s, k), [s[p..k], s[k..UrlEnd(s, k)]])) else None
    else None
  }

  /**
   One step of the split: if `m` matches the text anywhere, its first match gives the label
   (group 1) and the URL (group 2), both trimmed; otherwise `otherwise` decides. (Every link
   pattern has two groups, so the `(text, "#")` branch is never taken.)
   */
  function TryPattern(text: string, m: Matcher, otherwise: (string, string)): (r: (string, string))
    ensures FirstMatchFrom(text, 0, m).None? ==> r == otherwise
    ensures FirstMatchFrom(text, 0, m).Some? && |m(text, FirstMatchFrom(text, 0, m).value).value.groups| >= 2 ==> IsTrimmed(r.1)
  {
    match FirstGroups(text, m)
    case Some(g) => if |g| >= 2 then (TrimAndShow(g[0]), TrimAndShow(g[1])) else (text, "#")
    case None => otherwise
  }

  function TrimAndShow(s: string): (r: string)
    ensures IsTrimmed(r)
  {
    TrimIsTrimmed(s);
    Trim(s)
  }

  /** Once a pattern matches, what would have come after it no longer matters. */
  lemma TryPatternMatched(text: string, m: Matcher, o1: (string, string), o2: (string, string))
    requires FirstMatchFrom(text, 0, m).Some?
    ensures TryPattern(text, m, o1) == TryPattern(text, m, o2)
  {
  }

  /**
   The CTA text split of the converter and of the route: the four link patterns tried in
   order, the first that matches anywhere winning; with none, the text is kept and the URL
   is `#`.
   */
  function SplitLink(text: string): (string, string) {
    TryPattern(text, UrlAfterText,
      TryPattern(text, ParenUrlAfterText,
        TryPattern(text, MarkdownLink,
          TryPattern(text, UrlAfterNonH, (text, "#")))))
  }

  /** The parsers' split: only the first pattern. */
  function SplitTrailingUrl(text: string): (string, string) {
    TryPattern(text, UrlAfterText, (text, "#"))
  }

  // ------------------------------------------------------------- facts about the patterns

  lemma FirstMatchExists(s: string, m: Matcher, i: nat)
    requires i < |s| && ValidHit(s, i, m(s, i))
    ensures FirstMatchFrom(s, 0, m).Some?
  {
  }

  /** Wherever pattern 4 matches, pattern 1 matches too (at the URL itself). */
  lemma NonHShadowedByUrl(s: string)
    requires FirstMatchFrom(s, 0, UrlAfterNonH).Some?
    ensures FirstMatchFrom(s, 0, UrlAfterText).Some?
  {
    var p := FirstMatchFrom(s, 0, UrlAfterNonH).value;
    var k := FindChar(s, p, IsLetterH);
    assert UrlStartAt(s, k);
    assert SkipSpace(s, k) == k;
    assert ValidHit(s, k, UrlAfterText(s, k));
    FirstMatchExists(s, UrlAfterText, k);
  }

  /** Wherever pattern 3 matches, pattern 2 matches too (at the opening parenthesis). */
  lemma MarkdownShadowedByParen(s: string)
    requires FirstMatchFrom(s, 0, MarkdownLink).Some?
    ensures FirstMatchFrom(s, 0, ParenUrlAfterText).Some?
  {
    var p := FirstMatchFrom(s, 0, MarkdownLink).value;
    assert MarkdownLink(s, p).Some?;
    var q := MarkdownParen(s, p);
    ParenHitAt(s, q);
    FirstMatchExists(s, ParenUrlAfterText, q);
  }

  /** A Markdown link holds a parenthesised URL right after its closing bracket. */
  lemma MarkdownParen(s: string, p: nat) returns (q: nat)
    requires MarkdownLink(s, p).Some?
    ensures ParenUrlAt(s, q)
  {
    q := FindChar(s, p + 1, IsCloseBracket) + 1;
  }

  /** Pattern 2 matches at every `(` that opens a parenthesised URL. */
  lemma ParenHitAt(s: string, q: nat)
    requires ParenUrlAt(s, q)
    ensures ValidHit(s, q, ParenUrlAfterText(s, q))
  {
    assert SkipSpace(s, q) == q;
    assert LazyParen(s, q, q) == Some(Hit(ParenEnd(s, q) + 1, [s[q..q], s[q + 1..ParenEnd(s, q)]]));
  }

  /** Patterns 3 and 4 are never the first to match: the split only ever uses patterns 1 and 2. */
  lemma LaterPatternsShadowed(text: string)
    ensures SplitLink(text) == TryPattern(text, UrlAfterText, TryPattern(text, ParenUrlAfterText, (text, "#")))
  {
    var d := (text, "#");
    var t4 := TryPattern(text, UrlAfterNonH, d);
    var t3 := TryPattern(text, MarkdownLink, t4);
    if FirstMatchFrom(text, 0, UrlAfterText).None? && FirstMatchFrom(text, 0, ParenUrlAfterText).None? {
      if FirstMatchFrom(text, 0, MarkdownLink).Some? {
        MarkdownShadowedByParen(text);
        assert false;
      }
      if FirstMatchFrom(text, 0, UrlAfterNonH).Some? {
        NonHShadowedByUrl(text);
        assert false;
      }
      assert t3 == d;
    } else if FirstMatchFrom(text, 0, UrlAfterText).None? {
      TryPatternMatched(text, ParenUrlAfterText, t3, d);
    }
  }

  /** A lazy label scan only succeeds when some URL start lies ahead. */
  lemma {:induction false} LazyUrlNeedsUrl(s: string, p: nat, j: nat)
    requires p <= j <= |s|
    requires LazyUrl(s, p, j).Some?
    ensures exists q :: j <= q < |s| && UrlStartAt(s, q)
    decreases |s| - j
  {
    var q := SkipSpace(s, j);
    if !UrlStartAt(s, q) {
      LazyUrlNeedsUrl(s, p, j + 1);
    }
  }

  lemma {:induction false} LazyParenNeedsScheme(s: string, p: nat, j: nat)
    requires p <= j <= |s|
    requires LazyParen(s, p, j).Some?
    ensures exists q :: j <= q < |s| && SchemeLen(s, q) > 0
    decreases |s| - j
  {
    var q := SkipSpace(s, j);
    if !ParenUrlAt(s, q) {
      LazyParenNeedsScheme(s, p, j + 1);
    } else {
      assert SchemeLen(s, q + 1) > 0;
    }
  }

  /** A text without `http://` or `https://` is kept whole as the label, and the URL stays `#`. */
  lemma NoSchemeKeepsText(text: string)
    requires forall q :: 0 <= q < |text| ==> SchemeLen(text, q) == 0
    ensures SplitLink(text) == (text, "#")
  {
    LaterPatternsShadowed(text);
    if FirstMatchFrom(text, 0, UrlAfterText).Some? {
      var p := FirstMatchFrom(text, 0, UrlAfterText).value;
      LazyUrlNeedsUrl(text, p, p);
      assert false;
    }
    if FirstMatchFrom(text, 0, ParenUrlAfterText).Some? {
      var p := FirstMatchFrom(text, 0, ParenUrlAfterText).value;
      LazyParenNeedsScheme(text, p, p);
      assert false;
    }
  }

  /** A URL found by pattern 1 starts with the `h` of its scheme. */
  lemma {:induction false} LazyUrlGroups(s: string, p: nat, j: nat)
    requires p <= j <= |s|
    requires LazyUrl(s, p, j).Some?
    ensures |LazyUrl(s, p, j).value.groups| == 2
    ensures LazyUrl(s, p, j).value.groups[1] != [] && LazyUrl(s, p, j).value.groups[1][0] == 'h'
    decreases |s| - j
  {
    var q := SkipSpace(s, j);
    if UrlStartAt(s, q) {
      SchemeStartsH(s, q);
    } else {
      LazyUrlGroups(s, p, j + 1);
    }
  }

  /** A URL found by pattern 2 starts with the `h` of its scheme. */
  lemma {:induction false} LazyParenGroups(s: string, p: nat, j: nat)
    requires p <= j <= |s|
    requires LazyParen(s, p, j).Some?
    ensures |LazyParen(s, p, j).value.groups| == 2
    ensures LazyParen(s, p, j).value.groups[1] != [] && LazyParen(s, p, j).value.groups[1][0] == 'h'
    decreases |s| - j
  {
    var q := SkipSpace(s, j);
    if ParenUrlAt(s, q) {
      SchemeStartsH(s, q + 1);
    } else {
      LazyParenGroups(s, p, j + 1);
    }
  }

  /** Both schemes open with `h`. */
  lemma SchemeStartsH(s: string, q: int)
    requires 0 <= q && SchemeLen(s, q) > 0
    ensures q < |s| && s[q] == 'h'
  {
    if OccursAt(s, "https://", q) {
      OccursAtChar(s, "https://", q, 0);
    } else {
      OccursAtChar(s, "http://", q, 0);
    }
  }

  /** A URL a pattern found is never `#` after trimming. */
  lemma FoundUrlNotHash(g: seq<string>)
    requires |g| == 2 && g[1] != [] && g[1][0] == 'h'
    ensures TrimAndShow(g[1]) != "#"
  {
    TrimKeepsFirst(g[1]);
  }

  /**
   The split leaves the URL at `#` exactly when no pattern matches, and then the label is the
   whole text: so "the URL is still `#`" and "nothing was split off" are the same test.
   */
  lemma HashMeansUnsplit(text: string)
    ensures SplitLink(text).1 == "#" <==>
      FirstMatchFrom(text, 0, UrlAfterText).None? && FirstMatchFrom(text, 0, ParenUrlAfterText).None?
    ensures SplitLink(text).1 == "#" ==> SplitLink(text).0 == text
  {
    LaterPatternsShadowed(text);
    if FirstMatchFrom(text, 0, UrlAfterText).Some? {
      var p := FirstMatchFrom(text, 0, UrlAfterText).value;
      LazyUrlGroups(text, p, p);
      FoundUrlNotHash(UrlAfterText(text, p).value.groups);
    } else if FirstMatchFrom(text, 0, ParenUrlAfterText).Some? {
      var p := FirstMatchFrom(text, 0, ParenUrlAfterText).value;
      LazyParenGroups(text, p, p);
      FoundUrlNotHash(ParenUrlAfterText(text, p).value.groups);
    }
  }

  lemma UrlStartsWithH(s: string, q: int)
    requires UrlStartAt(s, q)
    ensures s[q] == 'h'
  {
    if OccursAt(s, "https://", q) {
      OccursAtChar(s, "https://", q, 0);
    } else {
      OccursAtChar(s, "http://", q, 0);
    }
  }

  /** The first URL start of a text: no earlier index starts one. */
  predicate FirstUrlStart(s: string, q0: int) {
    UrlStartAt(s, q0) && forall q :: 0 <= q < q0 ==> !UrlStartAt(s, q)
  }

  lemma {:induction false} LazyUrlFindsFirst(s: string, j: nat, q0: nat) returns (e: nat)
    requires FirstUrlStart(s, q0) && j <= q0
    requires forall k :: 0 <= k < |s| ==> !IsLineTerminator(s[k])
    ensures j <= e <= q0 && forall k :: e <= k < q0 ==> IsSpace(s[k])
    ensures LazyUrl(s, 0, j) == Some(Hit(UrlEnd(s, q0), [s[..e], s[q0..UrlEnd(s, q0)]]))
    decreases q0 - j
  {
    var q := SkipSpace(s, j);
    UrlStartsWithH(s, q0);
    if UrlStartAt(s, q) {
      assert q == q0;
      e := j;
    } else {
      assert j < q0;
      e := LazyUrlFindsFirst(s, j + 1, q0);
    }
  }

  /**
   Pattern 1 splits a single-line text at its first URL: the label is everything before it,
   trimmed, and the URL is the whole non-space run.
   */
  lemma FirstUrlSplits(text: string, q0: nat)
    requires FirstUrlStart(text, q0)
    requires forall k :: 0 <= k < |text| ==> !IsLineTerminator(text[k])
    ensures SplitLink(text) == (Trim(text[..q0]), text[q0..UrlEnd(text, q0)])
  {
    var e := LazyUrlFindsFirst(text, 0, q0);
    var url := text[q0..UrlEnd(text, q0)];
    assert UrlAfterText(text, 0) == Some(Hit(UrlEnd(text, q0), [text[..e], url]));
    assert ValidHit(text, 0, UrlAfterText(text, 0));
    FirstMatchAtStart(text, UrlAfterText);
    assert FirstGroups(text, UrlAfterText) == Some([text[..e], url]);
    SplitByFirstPattern(text, [text[..e], url]);
    LabelBeforeSpaces(text, e, q0);
    UrlIsTrimmed(text, q0);
  }

  lemma LabelBeforeSpaces(s: string, e: nat, q: nat)
    requires e <= q <= |s|
    requires forall k :: e <= k < q ==> IsSpace(s[k])
    ensures Trim(s[..e]) == Trim(s[..q])
  {
    assert s[..q] == s[..e] + s[e..q];
    TrimDropsTrailingSpace(s[..e], s[e..q]);
  }

  lemma UrlIsTrimmed(s: string, q: int)
    requires UrlStartAt(s, q)
    ensures Trim(s[q..UrlEnd(s, q)]) == s[q..UrlEnd(s, q)]
  {
    var url := s[q..UrlEnd(s, q)];
    assert url[0] == s[q] && url[|url| - 1] == s[UrlEnd(s, q) - 1];
    TrimOfTrimmed(url);
  }

  lemma SplitByFirstPattern(text: string, g: seq<string>)
    requires FirstGroups(text, UrlAfterText) == Some(g) && |g| == 2
    ensures SplitLink(text) == (Trim(g[0]), Trim(g[1]))
  {
  }

  // ------------------------------------------------------------- directives

  /**
   The largest `k` in `[lo, w]` whose character is allowed: where a capture group starts when
   a greedy `\s*` that ran to `w` gives characters back one at a time.
   */
  function GroupStart(s: string, lo: nat, w: nat, allowed: char -> bool): (r: Option<nat>)
    decreases w
    ensures r.Some? ==> lo <= r.value <= w && r.value < |s| && allowed(s[r.value])
    ensures r.Some? ==> forall k :: r.value < k <= w && k < |s| ==> !allowed(s[k])
    ensures r.None? ==> forall k :: lo <= k <= w && k < |s| ==> !allowed(s[k])
  {
    if w < lo then None
    else if w < |s| && allowed(s[w]) then Some(w)
    else if w == lo then None
    else GroupStart(s, lo, w - 1, allowed)
  }

  /** The text class of the route's and the parsers' `[cta]` pattern, `[^\n\r\[]`. */
  predicate DirectiveTextChar(c: char) { c != '\n' && c != '\r' && c != '[' }

  /**
   `\[cta\]\s*(X+)(?:\s*\[\/cta\])?` with the `i` flag, for the text class `X` given by
   `allowed`; the closing `[/cta]` is consumed when it follows the group after whitespace.
   */
  function DirectiveAt(s: string, p: nat, allowed: char -> bool): Option<Hit> {
    if AtCI(s, p, "[cta]") then
      var w := SkipSpace(s, p + 5);
      match GroupStart(s, p + 5, w, allowed)
      case None => None
      case Some(k) =>
        var e := FindChar(s, k, c => !allowed(c));
        var close := SkipSpace(s, e);
        Some(Hit(if AtCI(s, close, "[/cta]") then close + 6 else e, [s[k..e]]))
    else None
  }

  function BracketDirective(s: string, p: nat): Option<Hit> {
    DirectiveAt(s, p, DirectiveTextChar)
  }

  predicate ColonOrSpace(c: char) { c == ':' || IsSpace(c) }
  predicate NotLineBreak(c: char) { c != '\n' && c != '\r' }

  /** `CTA[:\s]*([^\n\r]+)` with the `i` flag. */
  function CtaWordAt(s: string, p: nat): Option<Hit> {
    if AtCI(s, p, "cta") then
      var w := FindChar(s, p + 3, c => !ColonOrSpace(c));
      match GroupStart(s, p + 3, w, NotLineBreak)
      case None => None
      case Some(k) =>
        var e := FindChar(s, k, c => !NotLineBreak(c));
        Some(Hit(e, [s[k..e]]))
    else None
  }

  /**
   The button text of a CTA element: group 1 of the `[cta]` pattern, else of the `CTA` pattern,
   trimmed; `None` when neither matches.
   */
  function DirectiveText(text: string): (r: Option<string>)
    ensures r.Some? ==> IsTrimmed(r.value)
    ensures FirstMatchFrom(text, 0, BracketDirective).Some? ==> r.Some?
  {
    match FirstGroups(text, BracketDirective)
    case Some(g) => Some(TrimAndShow(if |g| >= 1 then g[0] else []))
    case None =>
      match FirstGroups(text, CtaWordAt)
      case Some(g) => Some(TrimAndShow(if |g| >= 1 then g[0] else []))
      case None => None
  }

  lemma BracketHoldsCta(s: string, p: int)
    requires AtCI(s, p, "[cta]")
    ensures AtCI(s, p + 1, "cta")
  {
    AtCISub(s, p, "[cta]", 1, "cta");
  }

  /** A text holding neither `[cta]` nor `cta` (in any case) has no button text. */
  lemma NoDirectiveNoText(text: string)
    requires !ContainsCI(text, "cta")
    ensures DirectiveText(text).None?
  {
    if FirstMatchFrom(text, 0, BracketDirective).Some? {
      var p := FirstMatchFrom(text, 0, BracketDirective).value;
      assert ValidHit(text, p, DirectiveAt(text, p, DirectiveTextChar));
      assert AtCI(text, p, "[cta]");
      BracketHoldsCta(text, p);
      assert false;
    }
    if FirstMatchFrom(text, 0, CtaWordAt).Some? {
      var p := FirstMatchFrom(text, 0, CtaWordAt).value;
      ContainsCIAt(text, p, "cta");
      assert false;
    }
  }

  // ------------------------------------------------------------- the authored anchor

  predicate IsQuote(c: char) { c == '"' || c == '\'' }
  predicate IsCloseAngle(c: char) { c == '>' }
  predicate IsOpenAngle(c: char) { c == '<' }

  /** The rest of `<a[^>]+href=["']([^"']+)["'][^>]*>([^<]+)<\/a>` once `href=` is tried at `h`. */
  function HrefAt(s: string, h: nat): Option<Hit> {
    if AtCI(s, h, "href=") && h + 5 < |s| && IsQuote(s[h + 5]) then
      var u := FindChar(s, h + 6, IsQuote);
      if u > h + 6 && u < |s| then
        var k := FindChar(s, u + 1, IsCloseAngle);
        if k < |s| then
          var t := FindChar(s, k + 1, IsOpenAngle);
          if t > k + 1 && AtCI(s, t, "</a>") then Some(Hit(t + 4, [s[h + 6..u], s[k + 1..t]])) else None
        else None
      else None
    else None
  }

  /** The greedy `[^>]+` gives characters back one at a time: `href=` is tried from the right. */
  function HrefFrom(s: string, p: nat, h: nat): Option<Hit>
    decreases h
  {
    if h < p + 3 then None
    else if HrefAt(s, h).Some? then HrefAt(s, h)
    else HrefFrom(s, p, h - 1)
  }

  /** `<a[^>]+href=["']([^"']+)["'][^>]*>([^<]+)<\/a>` with the `i` flag: groups are the href and the link text. */
  function AnchorAt(s: string, p: nat): Option<Hit> {
    if AtCI(s, p, "<a") then HrefFrom(s, p, FindChar(s, p + 2, IsCloseAngle)) else None
  }

  // ------------------------------------------------------------- comment table

  /** The comment-link table: keys in iteration order with their URLs. */
  type CommentTable = seq<(string, string)>

  /** A comment key fits a label when, ignoring case, either contains the other. */
  predicate KeyMatches(caption: string, key: string) {
    var t := Lower(caption);
    var k := Lower(key);
    t == k || Contains(t, k) || Contains(k, t)
  }

  /** The route's form of the test, without the equality case. */
  predicate KeyMatchesTwoWay(caption: string, key: string) {
    Contains(Lower(caption), Lower(key)) || Contains(Lower(key), Lower(caption))
  }

  lemma SelfContains(s: string)
    ensures Contains(s, s)
  {
    assert OccursAt(s, s, 0) by {
      assert s[0..|s|] == s;
    }
  }

  /** Equality adds nothing to the two containment tests. */
  lemma KeyMatchesForms(caption: string, key: string)
    ensures KeyMatches(caption, key) <==> KeyMatchesTwoWay(caption, key)
  {
    SelfContains(Lower(caption));
  }

  /** An empty label fits every key. */
  lemma EmptyLabelMatches(key: string)
    ensures KeyMatches([], key)
  {
    assert OccursAt(Lower(key), Lower([]), 0);
  }

  /**
   `r` is what the last key of `table` fitting `caption` maps to, or `acc` when no key fits:
   the reference reading of "the last match wins".
   */
  predicate LastFit(table: CommentTable, caption: string, acc: string, r: string) {
    (r == acc && forall k :: 0 <= k < |table| ==> !KeyMatches(caption, table[k].0))
    || exists k :: 0 <= k < |table| && KeyMatches(caption, table[k].0) && r == table[k].1
         && forall k' :: k < k' < |table| ==> !KeyMatches(caption, table[k'].0)
  }

  /**
   The comment-table fallback: every key is visited in order and each fitting key overwrites
   the URL, so the last fitting key's URL wins; with none, `acc` stays.
   */
  function LastMatching(table: CommentTable, caption: string, acc: string): (r: string)
    ensures LastFit(table, caption, acc, r)
    decreases |table|
  {
    if table == [] then acc
    else
      var next := if KeyMatches(caption, table[0].0) then table[0].1 else acc;
      var r := LastMatching(table[1..], caption, next);
      LastFitStep(table, caption, acc, next, r);
      r
  }

  /** Visiting one more key first: a fit in the rest still wins, otherwise the first key decides. */
  lemma LastFitStep(table: CommentTable, caption: string, acc: string, next: string, r: string)
    requires table != []
    requires next == if KeyMatches(caption, table[0].0) then table[0].1 else acc
    requires LastFit(table[1..], caption, next, r)
    ensures LastFit(table, caption, acc, r)
  {
    if r == next && forall k :: 0 <= k < |table[1..]| ==> !KeyMatches(caption, table[1..][k].0) {
      assert forall k :: 1 <= k < |table| ==> !KeyMatches(caption, table[k].0) by {
        forall k | 1 <= k < |table| ensures !KeyMatches(caption, table[k].0) {
          assert table[k] == table[1..][k - 1];
        }
      }
    } else {
      var k :| 0 <= k < |table[1..]| && KeyMatches(caption, table[1..][k].0) && r == table[1..][k].1
        && forall k' :: k < k' < |table[1..]| ==> !KeyMatches(caption, table[1..][k'].0);
      assert table[k + 1] == table[1..][k];
      assert forall k' :: k + 1 < k' < |table| ==> !KeyMatches(caption, table[k'].0) by {
        forall k' | k + 1 < k' < |table| ensures !KeyMatches(caption, table[k'].0) {
          assert table[k'] == table[1..][k' - 1];
        }
      }
    }
  }

  /** The URL for a label found in no link pattern: the last fitting comment key's URL, or `#`. */
  function CommentFallback(table: CommentTable, caption: string): string {
    LastMatching(table, caption, "#")
  }

  /** With an empty label, every key fits and the table's last URL wins. */
  lemma EmptyLabelTakesLast(table: CommentTable)
    requires table != []
    ensures CommentFallback(table, []) == table[|table| - 1].1
  {
    var r := CommentFallback(table, []);
    EmptyLabelMatches(table[|table| - 1].0);
    if r == "#" && forall k :: 0 <= k < |table| ==> !KeyMatches([], table[k].0) {
      assert false;
    }
    var k :| 0 <= k < |table| && KeyMatches([], table[k].0) && r == table[k].1
      && forall k' :: k < k' < |table| ==> !KeyMatches([], table[k'].0);
    assert k == |table| - 1;
  }

  /**
   A button's label and URL from its text alone: the link patterns first, then, only when no
   pattern found a URL, the comment table.
   */
  function ResolveFromText(text: string, table: CommentTable): (r: (string, string)) {
    var split := SplitLink(text);
    if split.1 == "#" then (split.0, CommentFallback(table, split.0)) else split
  }
}
