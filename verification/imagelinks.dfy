/**
 `convertImageLinks`: a `[img-link:URL]`, `[img-link] URL` or `[link:URL]` directive in front
 of an image wraps that image in a link to URL. The first two forms go through a temporary
 HTML-comment marker, `<!--IMG_LINK_MARKER:URL-->`, which a later pass turns into the link
 when an `<img>` follows it; markers left over at the end are deleted.

 The marker patterns as written read the URL with the class `[^-->]`, which is the character
 range from `-` to `>`: a URL holding `.`, `/`, a digit, `:`, `;`, `<`, `=`, `>` or `-` after
 its scheme never matches, so for ordinary URLs the image stays unlinked and the marker stays
 in the output. `ConvertImageLinksAsWritten` models that; `ConvertImageLinks` reads the URL up
 to the first `-->`, which is what the marker's writer produces.
 */
module ImageLinks {
  import opened Base
  import opened Text
  import opened Scan

  const MarkerHead := "<!" + "--IMG_LINK_MARKER:"
  const MarkerTail := "-->"

  /** The temporary marker for a directive's URL. */
  function Marker(url: string): string {
    MarkerHead + url + MarkerTail
  }

  const AnchorHead := "<a href=\""
  const AnchorMid := "\" target=\"_blank\" " + "style=\"display: " + "inline-block; " + "text-decoration: none; " + "border: none;\">"
  const AnchorTail := "</a>"

  /** The image tag wrapped in a link to `url`. */
  function LinkedImage(url: string, imgTag: string): string {
    AnchorHead + url + AnchorMid + imgTag + AnchorTail
  }

  predicate IsCloseBracket(c: char) { c == ']' }
  predicate IsGreater(c: char) { c == '>' }
  predicate SpaceOrOpen(c: char) { IsSpace(c) || c == '<' }

  /** The class `[^-->]` excludes exactly the characters from `-` to `>`. */
  predicate InDashRange(c: char) { '-' <= c <= '>' }

  /** `\[img-link:\s*(https?:\/\/[^\]]+)\]` with the `i` flag. */
  function ImgLinkColon(s: string, p: nat): Option<Hit> {
    if AtCI(s, p, "[img-link:") then
      var k := SkipSpace(s, p + 10);
      var n := SchemeLenCI(s, k);
      if n > 0 then
        var e := FindChar(s, k + n, IsCloseBracket);
        if e > k + n && e < |s| then Some(Hit(e + 1, [s[k..e]])) else None
      else None
    else None
  }

  /** `\[img-link\]\s*(https?:\/\/[^\s<]+)` with the `i` flag. */
  function ImgLinkSpaced(s: string, p: nat): Option<Hit> {
    if AtCI(s, p, "[img-link]") then
      var k := SkipSpace(s, p + 10);
      var n := SchemeLenCI(s, k);
      if n > 0 then
        var e := FindChar(s, k + n, SpaceOrOpen);
        if e > k + n then Some(Hit(e, [s[k..e]])) else None
      else None
    else None
  }

  /** `\s*(<img[^>]*>)` from `from`: the image tag and where it ends, or `None`. */
  function ImageAfter(s: string, from: nat): (r: Option<(nat, nat)>)
    requires from <= |s|
    ensures r.Some? ==> from <= r.value.0 < r.value.1 <= |s|
  {
    var w := SkipSpace(s, from);
    if AtCI(s, w, "<img") then
      var g := FindChar(s, w + 4, IsGreater);
      if g < |s| then Some((w, g + 1)) else None
    else None
  }

  /** `\[link:\s*(https?:\/\/[^\]]+)\]\s*(<img[^>]*>)` with the `i` flag. */
  function LinkBeforeImage(s: string, p: nat): Option<Hit> {
    if AtCI(s, p, "[link:") then
      var k := SkipSpace(s, p + 6);
      var n := SchemeLenCI(s, k);
      if n > 0 then
        var e := FindChar(s, k + n, IsCloseBracket);
        if e > k + n && e < |s| then
          match ImageAfter(s, e + 1)
          case Some((w, g)) => Some(Hit(g, [s[k..e], s[w..g]]))
          case None => None
        else None
      else None
    else None
  }

  /** A marker whose URL body ends at `v`, followed by an image. */
  function MarkerImageHit(s: string, k: nat, v: nat): Option<Hit>
    requires k <= v && v + 3 <= |s|
  {
    match ImageAfter(s, v + 3)
    case Some((w, g)) => Some(Hit(g, [s[k..v], s[w..g]]))
    case None => None
  }

  /** `<!--IMG_LINK_MARKER:(https?:\/\/[^-->]+)-->\s*(<img[^>]*>)` with the `i` flag, as written. */
  function MarkerImageAsWritten(s: string, p: nat): Option<Hit> {
    if AtCI(s, p, "<!--img_link_marker:") then
      var k := p + 20;
      var n := SchemeLenCI(s, k);
      if n > 0 then
        var v := FindChar(s, k + n, InDashRange);
        if v > k + n && AtCI(s, v, "-->") then MarkerImageHit(s, k, v) else None
      else None
    else None
  }

  /** The first `-->` at or after `from`. */
  function TailFrom(s: string, from: nat): Option<nat> {
    IndexOfFrom(s, MarkerTail, from)
  }

  /** The marker pattern with the URL read up to the first `-->`. */
  function MarkerImage(s: string, p: nat): Option<Hit> {
    if AtCI(s, p, "<!--img_link_marker:") then
      var k := p + 20;
      var n := SchemeLenCI(s, k);
      if n > 0 then
        match TailFrom(s, k + n)
        case Some(v) => if v > k + n then MarkerImageHit(s, k, v) else None
        case None => None
      else None
    else None
  }

  /** `<!--IMG_LINK_MARKER:[^-->]+-->` with the `i` flag, as written. */
  function LeftoverMarkerAsWritten(s: string, p: nat): Option<Hit> {
    if AtCI(s, p, "<!--img_link_marker:") then
      var v := FindChar(s, p + 20, InDashRange);
      if v > p + 20 && AtCI(s, v, "-->") then Some(Hit(v + 3, [])) else None
    else None
  }

  /** A leftover marker, its body read up to the first `-->`. */
  function LeftoverMarker(s: string, p: nat): Option<Hit> {
    if AtCI(s, p, "<!--img_link_marker:") then
      match IndexOfFrom(s, MarkerTail, p + 20)
      case Some(v) => if v > p + 20 then Some(Hit(v + 3, [])) else None
      case None => None
    else None
  }

  function ToMarker(s: string, at: nat, matched: string, g: seq<string>): string {
    Marker(Group(g, 1))
  }

  function ToLink(s: string, at: nat, matched: string, g: seq<string>): string {
    LinkedImage(Group(g, 1), Group(g, 2))
  }

  function Erase(s: string, at: nat, matched: string, g: seq<string>): string {
    []
  }

  /** The six passes, with the marker patterns given as parameters. */
  function ImageLinkPasses(html: string, markerImage: Matcher, leftover: Matcher): string {
    var marked := ReplaceAll(html, ImgLinkColon, ToMarker);
    var linked := ReplaceAll(marked, markerImage, ToLink);
    var marked2 := ReplaceAll(linked, ImgLinkSpaced, ToMarker);
    var linked2 := ReplaceAll(marked2, markerImage, ToLink);
    var direct := ReplaceAll(linked2, LinkBeforeImage, ToLink);
    ReplaceAll(direct, leftover, Erase)
  }

  /** `convertImageLinks` as written, with the `[^-->]` class. */
  function ConvertImageLinksAsWritten(html: string): string {
    ImageLinkPasses(html, MarkerImageAsWritten, LeftoverMarkerAsWritten)
  }

  /** `convertImageLinks` with the marker's URL read up to `-->`. */
  function ConvertImageLinks(html: string): string {
    ImageLinkPasses(html, MarkerImage, LeftoverMarker)
  }

  // ------------------------------------------------------------------ where patterns cannot start

  /** The directive patterns open with `[`. */
  lemma BracketPatternsNeedBracket(s: string, p: nat)
    requires p < |s| ==> s[p] != '['
    ensures ImgLinkColon(s, p).None? && ImgLinkSpaced(s, p).None? && LinkBeforeImage(s, p).None?
  {
    if AtCI(s, p, "[img-link:") {
      AtCIChar(s, p, "[img-link:", 0);
    }
    if AtCI(s, p, "[img-link]") {
      AtCIChar(s, p, "[img-link]", 0);
      LowerCharPunct(s[p], '[');
    }
    if AtCI(s, p, "[link:") {
      AtCIChar(s, p, "[link:", 0);
      LowerCharPunct(s[p], '[');
    }
  }

  /** The marker patterns have `!` second. */
  lemma MarkerPatternsNeedBang(s: string, p: nat)
    requires p + 1 < |s| ==> s[p + 1] != '!'
    ensures MarkerImage(s, p).None? && MarkerImageAsWritten(s, p).None?
    ensures LeftoverMarker(s, p).None? && LeftoverMarkerAsWritten(s, p).None?
  {
    if AtCI(s, p, "<!--img_link_marker:") {
      AtCIChar(s, p, "<!--img_link_marker:", 1);
      LowerCharPunct(s[p + 1], '!');
    }
  }

  // ------------------------------------------------------------------ helpers for whole strings

  function ImgTag(attrs: string): string {
    "<img" + attrs + ">"
  }

  /** A URL as both directive forms accept it: an `http://` or `https://` scheme, then more. */
  predicate SchemedUrl(u: string) {
    SchemeLenCI(u, 0) > 0 && |u| > SchemeLenCI(u, 0)
  }

  lemma SchemeInside(a: string, u: string, b: string)
    requires SchemedUrl(u)
    ensures SchemeLenCI(a + u + b, |a|) == SchemeLenCI(u, 0)
    ensures u[0] == 'h' || u[0] == 'H'
  {
    var s := a + u + b;
    assert |u| >= 8;
    assert s[|a|..|a| + 8] == u[..8];
    assert s[|a|..|a| + 7] == u[..7];
    if AtCI(u, 0, "https://") {
      AtCIChar(u, 0, "https://", 0);
    } else {
      AtCIChar(u, 0, "http://", 0);
    }
  }

  /** The strings the templates are made of hold no `[` and no `!`. */
  lemma TemplatesLack(c: char)
    requires c == '[' || c == '!'
    ensures Lacks(AnchorHead, c) && Lacks(AnchorMid, c) && Lacks(AnchorTail, c)
    ensures Lacks("<img", c) && Lacks(">", c) && Lacks(MarkerTail, c)
    ensures Lacks(MarkerHead[2..], c) && Lacks(MarkerHead, '[')
  {
    assert Lacks("\" target=\"_blank\" ", c) && Lacks("style=\"display: ", c) && Lacks("inline-block; ", c);
    assert Lacks("text-decoration: none; ", c) && Lacks("border: none;\">", c);
    LacksAppend("\" target=\"_blank\" ", "style=\"display: ", c);
    LacksAppend("\" target=\"_blank\" " + "style=\"display: ", "inline-block; ", c);
    LacksAppend("\" target=\"_blank\" " + "style=\"display: " + "inline-block; ", "text-decoration: none; ", c);
    LacksAppend("\" target=\"_blank\" " + "style=\"display: " + "inline-block; " + "text-decoration: none; ", "border: none;\">", c);
    assert MarkerHead[2..] == "--IMG_LINK_MARKER:";
    assert Lacks("<!", '[') && Lacks("--IMG_LINK_MARKER:", '[');
    LacksAppend("<!", "--IMG_LINK_MARKER:", '[');
  }

  /** The link around an image holds `[` or `!` only where the URL or the image does. */
  lemma LinkedImageLacks(u: string, img: string, c: char)
    requires c == '[' || c == '!'
    requires Lacks(u, c) && Lacks(img, c)
    ensures Lacks(LinkedImage(u, img), c)
  {
    TemplatesLack(c);
    LacksJoin3(AnchorHead, u, AnchorMid, c);
    LacksJoin3(AnchorHead + u + AnchorMid, img, AnchorTail, c);
  }

  lemma ImgTagLacks(attrs: string, c: char)
    requires c == '[' || c == '!'
    requires Lacks(attrs, c)
    ensures Lacks(ImgTag(attrs), c)
  {
    TemplatesLack(c);
    LacksJoin3("<img", attrs, ">", c);
  }

  /** Without `[` and `!` none of the later passes can fire. */
  lemma LaterPassesInert(s: string)
    requires Lacks(s, '[') && Lacks(s, '!')
    ensures ReplaceAll(s, ImgLinkSpaced, ToMarker) == s
    ensures ReplaceAll(s, MarkerImage, ToLink) == s
    ensures ReplaceAll(s, LinkBeforeImage, ToLink) == s
    ensures ReplaceAll(s, LeftoverMarker, Erase) == s
  {
    forall p | 0 <= p < |s|
      ensures ImgLinkSpaced(s, p).None? && LinkBeforeImage(s, p).None?
      ensures MarkerImage(s, p).None? && LeftoverMarker(s, p).None?
    {
      BracketPatternsNeedBracket(s, p);
      MarkerPatternsNeedBang(s, p);
    }
    ReplaceAllWithoutMatches(s, ImgLinkSpaced, ToMarker);
    ReplaceAllWithoutMatches(s, MarkerImage, ToLink);
    ReplaceAllWithoutMatches(s, LinkBeforeImage, ToLink);
    ReplaceAllWithoutMatches(s, LeftoverMarker, Erase);
  }

  // ------------------------------------------------------------------ the `[img-link:URL]` form

  /** The colon directive is read with its URL, the closing `]` included in the match. */
  lemma ColonHit(pre: string, u: string, rest: string)
    requires SchemedUrl(u) && Lacks(u, ']')
    ensures ImgLinkColon(pre + "[img-link:" + u + "]" + rest, |pre|) == Some(Hit(|pre| + 11 + |u|, [u]))
  {
    var s := pre + "[img-link:" + u + "]" + rest;
    ColonSlices(s, pre, u, rest);
    ColonInWindow(s, |pre|, u);
  }

  /** The pieces of a colon directive, located inside the joined text. */
  lemma ColonSlices(s: string, pre: string, u: string, rest: string)
    requires s == pre + "[img-link:" + u + "]" + rest
    ensures Window(s, |pre|, "[img-link:") && Window(s, |pre| + 10, u)
    ensures |pre| + 10 + |u| < |s| && s[|pre| + 10 + |u|] == ']'
  {
    var a := pre + "[img-link:";
    Assoc(a + u, "]", rest);
    WindowOf(a, u, "]" + rest);
    Assoc(a, u, "]" + rest);
    WindowOf(pre, "[img-link:", u + ("]" + rest));
    WindowOf(a + u, "]" + rest, []);
    EmptySuffix(a + u + ("]" + rest));
    WindowChar(s, |a| + |u|, "]" + rest, 0);
  }

  /** A colon directive whose URL lies at `p + 10` inside `s`, followed by `]`. */
  lemma ColonInWindow(s: string, p: nat, u: string)
    requires SchemedUrl(u) && Lacks(u, ']')
    requires Window(s, p, "[img-link:") && Window(s, p + 10, u)
    requires p + 10 + |u| < |s| && s[p + 10 + |u|] == ']'
    ensures ImgLinkColon(s, p) == Some(Hit(p + 11 + |u|, [u]))
  {
    var k := p + 10;
    SchemedHead(u);
    WindowChar(s, k, u, 0);
    WindowSchemeLen(s, k, u, 0);
    NoCloseInWindow(s, k, u, SchemeLenCI(u, 0));
    ColonFound(s, p, k + |u|);
  }

  /** A schemed URL is at least a scheme and one character long, and starts with `h`. */
  lemma SchemedHead(u: string)
    requires SchemedUrl(u)
    ensures |u| >= 8 && (u[0] == 'h' || u[0] == 'H')
  {
    if AtCI(u, 0, "https://") {
      AtCIChar(u, 0, "https://", 0);
    } else {
      AtCIChar(u, 0, "http://", 0);
    }
  }

  /** A text lacking `]` placed at `k` leaves no `]` from `k + n` to its end. */
  lemma NoCloseInWindow(s: string, k: nat, u: string, n: nat)
    requires Window(s, k, u) && Lacks(u, ']')
    ensures forall j :: k + n <= j < k + |u| ==> !IsCloseBracket(s[j])
  {
    forall j | k + n <= j < k + |u|
      ensures !IsCloseBracket(s[j])
    {
      WindowChar(s, k, u, j - k);
    }
  }

  /** A colon directive read from its parts: the prefix, a scheme, then no `]` until the one at `e`. */
  lemma ColonFound(s: string, p: nat, e: nat)
    requires p + 10 <= e < |s| && s[p..p + 10] == "[img-link:"
    requires SkipSpace(s, p + 10) == p + 10
    requires 0 < SchemeLenCI(s, p + 10) < e - (p + 10)
    requires forall j :: p + 10 + SchemeLenCI(s, p + 10) <= j < e ==> !IsCloseBracket(s[j])
    requires s[e] == ']'
    ensures ImgLinkColon(s, p) == Some(Hit(e + 1, [s[p + 10..e]]))
  {
    FindCharIs(s, p + 10 + SchemeLenCI(s, p + 10), IsCloseBracket, e);
  }

  // ------------------------------------------------------------------ the marker

  /** A case-insensitive `-->` is a plain one. */
  lemma ArrowCI(s: string, v: int)
    requires AtCI(s, v, "-->")
    ensures OccursAt(s, "-->", v)
  {
    AtCIChar(s, v, "-->", 0);
    AtCIChar(s, v, "-->", 1);
    AtCIChar(s, v, "-->", 2);
    LowerCharPunct(s[v], '-');
    LowerCharPunct(s[v + 1], '-');
    LowerCharPunct(s[v + 2], '>');
  }

  /** No `-->` starts inside a marker's URL, when the URL holds none itself. */
  lemma NoArrowInUrl(pre: string, u: string, rest: string, v: int)
    requires !Contains(u, "-->")
    requires |pre| + 20 <= v < |pre| + 20 + |u|
    ensures !OccursAt(pre + Marker(u) + rest, "-->", v)
  {
    var s := pre + Marker(u) + rest;
    var k := |pre| + 20;
    assert s == (pre + MarkerHead) + u + ("-->" + rest);
    if OccursAt(s, "-->", v) {
      assert s[v + 2] == '>';
      if v + 3 <= k + |u| {
        assert s[v..v + 3] == u[v - k..v - k + 3];
        assert OccursAt(u, "-->", v - k);
        assert false;
      } else {
        assert false;
      }
    }
  }

  lemma MarkerHeadRead(pre: string, u: string, rest: string)
    ensures AtCI(pre + Marker(u) + rest, |pre|, "<!--img_link_marker:")
  {
    var s := pre + Marker(u) + rest;
    assert s[|pre|..|pre| + 20] == MarkerHead;
  }

  /** The first `-->` from inside a marker's URL is the marker's own end. */
  lemma ArrowAfterUrl(pre: string, u: string, rest: string, from: nat)
    requires !Contains(u, "-->") && |pre| + 20 <= from <= |pre| + 20 + |u|
    ensures TailFrom(pre + Marker(u) + rest, from) == Some(|pre| + 20 + |u|)
  {
    var s := pre + Marker(u) + rest;
    var e := |pre| + 20 + |u|;
    assert s == (pre + MarkerHead + u) + MarkerTail + rest;
    assert s[e..e + 3] == MarkerTail;
    assert OccursAt(s, MarkerTail, e);
    var found := IndexOfFrom(s, MarkerTail, from);
    if found != Some(e) {
      if found.Some? && found.value < e {
        NoArrowInUrl(pre, u, rest, found.value);
      }
      assert false;
    }
  }

  /** Whitespace and then an image tag, after any prefix: the tag is read whole. */
  lemma ImageAtFront(x: string, sp: string, attrs: string, post: string)
    requires AllSpace(sp) && Lacks(attrs, '>')
    ensures ImageAfter(x + (sp + ImgTag(attrs) + post), |x|) == Some((|x| + |sp|, |x| + |sp| + |ImgTag(attrs)|))
  {
    var y := ImgTag(attrs) + post;
    Assoc(sp, ImgTag(attrs), post);
    Assoc(x, sp, y);
    Assoc(x + sp, ImgTag(attrs), post);
    SpacesThen(x, sp, y);
    WindowOf(x + sp, ImgTag(attrs), post);
    ImageTagFound(x + sp + y, |x|, |x| + |sp|, attrs);
  }

  /** An image tag seen through a window, at the first non-space, is the image the search finds. */
  lemma ImageTagFound(s: string, from: nat, w: nat, attrs: string)
    requires Window(s, w, ImgTag(attrs)) && Lacks(attrs, '>') && from <= w && SkipSpace(s, from) == w
    ensures ImageAfter(s, from) == Some((w, w + |ImgTag(attrs)|))
  {
    var t := ImgTag(attrs);
    assert s[w..w + 4] == t[..4] == "<img";
    forall j | w + 4 <= j < w + 4 + |attrs|
      ensures !IsGreater(s[j])
    {
      WindowChar(s, w, t, j - w);
      assert t[j - w] == attrs[j - w - 4];
    }
    WindowChar(s, w, t, |t| - 1);
    ImageFound(s, from, w, w + 4 + |attrs|);
  }

  /** An image tag read from its parts: `<img` at the first non-space, then no `>` until the one at `g`. */
  lemma ImageFound(s: string, from: nat, w: nat, g: nat)
    requires from <= w && w + 4 <= g < |s| && s[w..w + 4] == "<img"
    requires SkipSpace(s, from) == w
    requires forall j :: w + 4 <= j < g ==> !IsGreater(s[j])
    requires s[g] == '>'
    ensures ImageAfter(s, from) == Some((w, g + 1))
  {
    FindCharIs(s, w + 4, IsGreater, g);
  }

  /** The repaired marker pattern, once its parts are located. */
  lemma MarkerImageParts(s: string, p: nat, k: nat, n: nat, f: nat, v: nat, e: nat, w: nat, g: nat, x: string, y: string)
    requires k == p + 20 && f == k + n && e == v + 3
    requires AtCI(s, p, "<!--img_link_marker:")
    requires n > 0 && SchemeLenCI(s, k) == n && v > f
    requires TailFrom(s, f) == Some(v)
    requires e <= |s| && ImageAfter(s, e) == Some((w, g))
    requires s[k..v] == x && s[w..g] == y
    ensures MarkerImage(s, p) == Some(Hit(g, [x, y]))
  {
    MarkerHeadParts(s, p, n, v);
    MarkerHitParts(s, k, v, w, g, x, y);
  }

  /** Past a matched head, scheme and `-->`, the pattern is decided by the image after the `-->`. */
  lemma MarkerHeadParts(s: string, p: nat, n: nat, v: nat)
    requires AtCI(s, p, "<!--img_link_marker:") && n > 0 && SchemeLenCI(s, p + 20) == n
    requires TailFrom(s, p + 20 + n) == Some(v) && v > p + 20 + n
    ensures v + 3 <= |s| && MarkerImage(s, p) == MarkerImageHit(s, p + 20, v)
  {
  }

  /** The image after a marker's `-->` completes the match with the URL and the tag as its groups. */
  lemma MarkerHitParts(s: string, k: nat, v: nat, w: nat, g: nat, x: string, y: string)
    requires k <= v && v + 3 <= |s| && ImageAfter(s, v + 3) == Some((w, g))
    requires s[k..v] == x && s[w..g] == y
    ensures MarkerImageHit(s, k, v) == Some(Hit(g, [x, y]))
  {
  }

  /** Inside the marker, the URL and its scheme sit right after the head. */
  lemma MarkerUrl(pre: string, u: string, rest: string)
    requires SchemedUrl(u)
    ensures var s := pre + Marker(u) + rest;
      SchemeLenCI(s, |pre| + 20) == SchemeLenCI(u, 0) && s[|pre| + 20..|pre| + 20 + |u|] == u
  {
    var s := pre + Marker(u) + rest;
    assert s == (pre + MarkerHead) + u + (MarkerTail + rest);
    SchemeInside(pre + MarkerHead, u, MarkerTail + rest);
  }

  /** An image search that succeeds inside `t` succeeds at the same place inside `s`. */
  lemma WindowImageAfter(s: string, p: nat, t: string, from: nat, w: nat, g: nat)
    requires Window(s, p, t) && from <= |t| && ImageAfter(t, from) == Some((w, g))
    ensures ImageAfter(s, p + from) == Some((p + w, p + g))
  {
    WindowSkipSpace(s, p, t, from);
    WindowAtCI(s, p, t, w, "<img");
    WindowFindChar(s, p, t, w + 4, IsGreater);
  }

  lemma WindowHead(s: string, p: nat, t: string, n: nat, k: nat)
    requires Window(s, p, t) && k == p + 20
    requires AtCI(t, 0, "<!--img_link_marker:") && SchemeLenCI(t, 20) == n && 28 <= |t|
    ensures AtCI(s, p, "<!--img_link_marker:") && SchemeLenCI(s, k) == n
  {
    WindowAtCIStart(s, p, t, "<!--img_link_marker:");
    WindowSchemeLen(s, p, t, 20);
  }

  /** A `-->` found inside `t` is found at the same place inside `s`. */
  lemma WindowTail(s: string, p: nat, t: string, from: nat, v: nat, a: nat, b: nat)
    requires Window(s, p, t) && a == p + from && b == p + v
    requires TailFrom(t, from) == Some(v)
    ensures TailFrom(s, a) == Some(b)
  {
    WindowIndexOfFrom(s, p, t, MarkerTail, from, v);
  }

  /** An image tag that ends `t` is found at the same place inside `s`. */
  lemma WindowImage(s: string, p: nat, t: string, e: nat, w: nat, e': nat, w': nat, g': nat)
    requires Window(s, p, t) && e' == p + e && w' == p + w && g' == p + |t|
    requires e <= |t| && ImageAfter(t, e) == Some((w, |t|))
    ensures ImageAfter(s, e') == Some((w', g'))
  {
    WindowImageAfter(s, p, t, e, w, |t|);
  }

  lemma WindowPart(s: string, p: nat, t: string, i: nat, j: nat, i': nat, j': nat)
    requires Window(s, p, t) && i <= j <= |t| && i' == p + i && j' == p + j
    ensures s[i'..j'] == t[i..j]
  {
    WindowSlice(s, p, t, i, j);
  }

  /**
   `t` is a marker head, a scheme, the URL `u` up to the first `-->` after the scheme, and then,
   after whitespace, the image tag `img`, which ends `t`.
   */
  predicate MarkerShaped(t: string, u: string, img: string) {
    ShapedAt(t, u, img, 1)
  }

  predicate ShapedAt(t: string, u: string, img: string, k: nat)
    decreases k
  {
    if k > 0 then ShapedAt(t, u, img, k - 1) else
    && 20 + |u| + 3 + |img| <= |t| && t[0] == '<'
    && AtCI(t, 0, "<!--img_link_marker:") && 0 < SchemeLenCI(t, 20) < |u|
    && TailFrom(t, 20 + SchemeLenCI(t, 20)) == Some(20 + |u|)
    && ImageAfter(t, 20 + |u| + 3) == Some((|t| - |img|, |t|))
    && t[20..20 + |u|] == u && t[|t| - |img|..|t|] == img
  }

  /** The head, scheme and URL of such a stretch, read at their places in the document around it. */
  lemma ShapeHeadInWindow(s: string, p: nat, t: string, u: string, img: string)
    returns (k: nat, n: nat, f: nat, v: nat)
    requires Window(s, p, t) && 20 + |u| <= |t| && AtCI(t, 0, "<!--img_link_marker:")
    requires 0 < SchemeLenCI(t, 20) < |u| && TailFrom(t, 20 + SchemeLenCI(t, 20)) == Some(20 + |u|)
    requires t[20..20 + |u|] == u
    ensures k == p + 20 && f == k + n && v == p + (20 + |u|)
    ensures AtCI(s, p, "<!--img_link_marker:") && n > 0 && SchemeLenCI(s, k) == n && v > f
    ensures TailFrom(s, f) == Some(v) && s[k..v] == u
  {
    n := SchemeLenCI(t, 20);
    k, f, v := p + 20, p + (20 + n), p + (20 + |u|);
    WindowHead(s, p, t, n, k);
    WindowTail(s, p, t, 20 + n, 20 + |u|, f, v);
    WindowPart(s, p, t, 20, 20 + |u|, k, v);
  }

  /** The image of such a stretch, read at its place in the document around it. */
  lemma ShapeImageInWindow(s: string, p: nat, t: string, u: string, img: string)
    returns (e: nat, w: nat)
    requires Window(s, p, t) && 20 + |u| + 3 + |img| <= |t|
    requires ImageAfter(t, 20 + |u| + 3) == Some((|t| - |img|, |t|)) && t[|t| - |img|..|t|] == img
    ensures e == p + (20 + |u|) + 3
    ensures e <= |s| && ImageAfter(s, e) == Some((w, p + |t|)) && s[w..p + |t|] == img
  {
    e, w := p + (20 + |u| + 3), p + (|t| - |img|);
    WindowImage(s, p, t, 20 + |u| + 3, |t| - |img|, e, w, p + |t|);
    WindowPart(s, p, t, |t| - |img|, |t|, w, p + |t|);
  }

  /** Such a stretch, wherever it stands in a document, is one match of the repaired pattern. */
  lemma MarkerWindowHit(s: string, p: nat, t: string, u: string, img: string)
    requires Window(s, p, t) && MarkerShaped(t, u, img)
    ensures MarkerImage(s, p) == Some(Hit(p + |t|, [u, img]))
    ensures t != [] && t[0] == '<'
  {
    var k, n, f, v, e, w := ShapeInWindow(s, p, t, u, img);
    MarkerImageParts(s, p, k, n, f, v, e, w, p + |t|, u, img);
  }

  /** The parts of such a stretch, read at their places in the document around it. */
  lemma ShapeInWindow(s: string, p: nat, t: string, u: string, img: string)
    returns (k: nat, n: nat, f: nat, v: nat, e: nat, w: nat)
    requires Window(s, p, t) && MarkerShaped(t, u, img)
    ensures k == p + 20 && f == k + n && e == v + 3 && t != [] && t[0] == '<'
    ensures AtCI(s, p, "<!--img_link_marker:") && n > 0 && SchemeLenCI(s, k) == n && v > f
    ensures TailFrom(s, f) == Some(v) && s[k..v] == u
    ensures e <= |s| && ImageAfter(s, e) == Some((w, p + |t|)) && s[w..p + |t|] == img
  {
    assert ShapedAt(t, u, img, 0);
    k, n, f, v := ShapeHeadInWindow(s, p, t, u, img);
    e, w := ShapeImageInWindow(s, p, t, u, img);
  }

  /** A marker of a URL, whitespace and an image tag has that shape. */
  lemma MarkerShape(u: string, sp: string, attrs: string)
    requires SchemedUrl(u) && !Contains(u, "-->") && AllSpace(sp) && Lacks(attrs, '>')
    ensures MarkerShaped(Marker(u) + sp + ImgTag(attrs), u, ImgTag(attrs))
  {
    Assoc(Marker(u), sp, ImgTag(attrs));
    HeadShape(u, sp, attrs);
    ImageShape(u, sp, attrs);
    ArrowShape(u, sp, attrs);
    ShapedFromParts(Marker(u) + (sp + ImgTag(attrs)), u, ImgTag(attrs));
  }

  /** A stretch with each part of the marker shape has that shape. */
  lemma ShapedFromParts(t: string, u: string, img: string)
    requires 20 + |u| + 3 + |img| <= |t| && t[0] == '<'
    requires AtCI(t, 0, "<!--img_link_marker:") && 0 < SchemeLenCI(t, 20) < |u|
    requires TailFrom(t, 20 + SchemeLenCI(t, 20)) == Some(20 + |u|)
    requires ImageAfter(t, 20 + |u| + 3) == Some((|t| - |img|, |t|))
    requires t[20..20 + |u|] == u && t[|t| - |img|..|t|] == img
    ensures MarkerShaped(t, u, img)
  {
  }

  /** The head and scheme of a marker followed by whitespace and an image. */
  lemma HeadShape(u: string, sp: string, attrs: string)
    requires SchemedUrl(u)
    ensures var t := Marker(u) + (sp + ImgTag(attrs));
      t[0] == '<' && AtCI(t, 0, "<!--img_link_marker:") && SchemeLenCI(t, 20) == SchemeLenCI(u, 0)
      && t[20..20 + |u|] == u
  {
    var rest := sp + ImgTag(attrs);
    assert [] + Marker(u) + rest == Marker(u) + rest;
    MarkerHeadRead([], u, rest);
    MarkerUrl([], u, rest);
  }

  /** The first `-->` after the scheme is the marker's own end. */
  lemma ArrowShape(u: string, sp: string, attrs: string)
    requires SchemedUrl(u) && !Contains(u, "-->")
    ensures SchemeLenCI(u, 0) < |u|
    ensures TailFrom(Marker(u) + (sp + ImgTag(attrs)), 20 + SchemeLenCI(u, 0)) == Some(20 + |u|)
  {
    ArrowAfterMarker(u, sp + ImgTag(attrs), 20 + SchemeLenCI(u, 0));
  }

  /** The first `-->` from inside the URL of a marker that opens the text is the marker's own end. */
  lemma ArrowAfterMarker(u: string, rest: string, from: nat)
    requires !Contains(u, "-->") && 20 <= from <= 20 + |u|
    ensures TailFrom(Marker(u) + rest, from) == Some(20 + |u|)
  {
    EmptyPrefix(Marker(u));
    ArrowAfterUrl([], u, rest, from);
  }

  /** The image after a marker and whitespace runs to the end. */
  lemma ImageShape(u: string, sp: string, attrs: string)
    requires AllSpace(sp) && Lacks(attrs, '>')
    ensures var t := Marker(u) + (sp + ImgTag(attrs)); var img := ImgTag(attrs);
      ImageAfter(t, 20 + |u| + 3) == Some((|t| - |img|, |t|)) && t[|t| - |img|..|t|] == img
  {
    EmptySuffix(sp + ImgTag(attrs));
    ImageAtFront(Marker(u), sp, attrs, []);
    ImageSlice(Marker(u), sp, ImgTag(attrs), []);
  }

  /** The image tag after whitespace, read back as a slice. */
  lemma ImageSlice(x: string, sp: string, img: string, post: string)
    ensures (x + (sp + img + post))[|x| + |sp|..|x| + |sp| + |img|] == img
  {
    assert x + (sp + img + post) == (x + sp) + img + post;
  }

  /** Some character after the scheme lies in the range `-` to `>`, as any dot does. */
  predicate HasDashRangeChar(u: string) {
    exists j | SchemeLenCI(u, 0) <= j < |u| :: InDashRange(u[j])
  }

  /**
   As written, both marker patterns stop at the first character between `-` and `>` after the
   head: when no `-->` starts between the head and a dash-range character after the scheme, and
   the scheme itself ends in one (`/`), neither pattern matches.
   */
  lemma MissedAt(s: string, p: nat, k: nat, n: nat, j: nat)
    requires k == p + 20 && AtCI(s, p, "<!--img_link_marker:") && 0 < n && SchemeLenCI(s, k) == n
    requires k + n <= j < |s| && InDashRange(s[j]) && InDashRange(s[k + n - 1])
    requires forall i :: k <= i <= j ==> !OccursAt(s, "-->", i)
    ensures MarkerImageAsWritten(s, p).None? && LeftoverMarkerAsWritten(s, p).None?
  {
    var v := FindChar(s, k + n, InDashRange);
    if AtCI(s, v, "-->") {
      ArrowCI(s, v);
    }
    var v2 := FindChar(s, k, InDashRange);
    if AtCI(s, v2, "-->") {
      ArrowCI(s, v2);
    }
  }

  /** As written, both marker patterns miss the marker of such a URL, wherever it stands. */
  lemma MarkerMissedAsWritten(pre: string, u: string, rest: string)
    requires SchemedUrl(u) && !Contains(u, "-->") && HasDashRangeChar(u)
    ensures MarkerImageAsWritten(pre + Marker(u) + rest, |pre|).None?
    ensures LeftoverMarkerAsWritten(pre + Marker(u) + rest, |pre|).None?
  {
    var s := pre + Marker(u) + rest;
    var k := |pre| + 20;
    MarkerHeadRead(pre, u, rest);
    MarkerUrl(pre, u, rest);
    var n := SchemeLenCI(u, 0);
    var j :| n <= j < |u| && InDashRange(u[j]);
    assert s[k + j] == s[k..k + |u|][j] == u[j];
    if AtCI(u, 0, "https://") {
      AtCIChar(u, 0, "https://", n - 1);
    } else {
      AtCIChar(u, 0, "http://", n - 1);
    }
    LowerCharPunct(u[n - 1], '/');
    assert s[k + n - 1] == s[k..k + |u|][n - 1] == u[n - 1];
    forall i | k <= i <= k + j
      ensures !OccursAt(s, "-->", i)
    {
      NoArrowInUrl(pre, u, rest, i);
    }
    MissedAt(s, |pre|, k, n, k + j);
  }

  // ------------------------------------------------------------------ the `[img-link:URL]` directive

  /** Conditions under which a URL and an image's attributes pass through intact. */
  predicate PlainParts(u: string, attrs: string) {
    && SchemedUrl(u) && Lacks(u, ']') && Lacks(u, '[') && Lacks(u, '!') && !Contains(u, "-->")
    && Lacks(attrs, '>') && Lacks(attrs, '[') && Lacks(attrs, '!')
  }

  /** Text with no other directive or marker: no `[` and no `!`. */
  predicate Quiet(s: string) {
    Lacks(s, '[') && Lacks(s, '!')
  }

  lemma SpaceQuiet(sp: string)
    requires AllSpace(sp)
    ensures Quiet(sp)
  {
  }

  /** The first pass turns the directive into the marker and leaves the text around it alone. */
  lemma ColonPass(pre: string, u: string, post: string)
    requires SchemedUrl(u) && Lacks(u, ']') && Lacks(pre, '[') && Lacks(post, '[')
    ensures ReplaceAll(pre + "[img-link:" + u + "]" + post, ImgLinkColon, ToMarker) == pre + Marker(u) + post
  {
    var t := "[img-link:" + u + "]";
    var s := pre + t + post;
    assert s == pre + "[img-link:" + u + "]" + post;
    ColonHit(pre, u, post);
    forall j | 0 <= j < |s| && (j < |pre| || |pre| + |t| <= j)
      ensures ImgLinkColon(s, j).None?
    {
      if j < |pre| {
        assert s[j] == pre[j];
      } else {
        assert s[j] == post[j - |pre| - |t|];
      }
      BracketPatternsNeedBracket(s, j);
    }
    ReplaceAllAroundNone(pre, t, post, ImgLinkColon, ToMarker, [u]);
  }

  /** The first pass on the whole document: the directive becomes the marker. */
  lemma FirstPass(pre: string, u: string, sp: string, attrs: string, post: string)
    requires PlainParts(u, attrs) && AllSpace(sp) && Quiet(pre) && Quiet(post)
    ensures ReplaceAll(pre + "[img-link:" + u + "]" + sp + ImgTag(attrs) + post, ImgLinkColon, ToMarker)
         == pre + (Marker(u) + sp + ImgTag(attrs)) + post
  {
    var img := ImgTag(attrs);
    var mid := sp + img + post;
    SpaceQuiet(sp);
    ImgTagLacks(attrs, '[');
    LacksJoin3(sp, img, post, '[');
    ColonPass(pre, u, mid);
    assert pre + "[img-link:" + u + "]" + sp + img + post == pre + "[img-link:" + u + "]" + mid;
    assert pre + Marker(u) + mid == pre + (Marker(u) + sp + img) + post;
  }

  /** A marker, whitespace and an image hold no `[`, and no `!` past the marker's own. */
  lemma MarkerImageLacks(u: string, sp: string, attrs: string)
    requires PlainParts(u, attrs) && AllSpace(sp)
    ensures var x := Marker(u) + sp + ImgTag(attrs);
      Lacks(x, '[') && forall i :: 2 <= i < |x| ==> x[i] != '!'
  {
    var img := ImgTag(attrs);
    var x := Marker(u) + sp + img;
    var tail := MarkerHead[2..] + u + MarkerTail + sp + img;
    TemplatesLack('[');
    TemplatesLack('!');
    ImgTagLacks(attrs, '[');
    ImgTagLacks(attrs, '!');
    SpaceQuiet(sp);
    LacksJoin3(MarkerHead[2..], u, MarkerTail, '!');
    LacksJoin3(MarkerHead[2..] + u + MarkerTail, sp, img, '!');
    LacksJoin3(MarkerHead, u, MarkerTail, '[');
    LacksJoin3(MarkerHead + u + MarkerTail, sp, img, '[');
    assert x[2..] == tail;
    forall i | 2 <= i < |x|
      ensures x[i] != '!'
    {
      assert x[i] == tail[i - 2];
    }
  }

  /**
   The document after the first pass holds no `[`, and its only `!` is the marker's own, when
   the text around the directive has neither.
   */
  lemma MarkerLacks(pre: string, u: string, sp: string, attrs: string, post: string)
    requires PlainParts(u, attrs) && AllSpace(sp) && Quiet(pre) && Quiet(post)
    ensures var s := pre + (Marker(u) + sp + ImgTag(attrs)) + post;
      Lacks(s, '[') && forall i :: 0 <= i < |s| && i != |pre| + 1 ==> s[i] != '!'
  {
    var x := Marker(u) + sp + ImgTag(attrs);
    var s := pre + x + post;
    MarkerImageLacks(u, sp, attrs);
    LacksJoin3(pre, x, post, '[');
    assert x[0] == '<';
    forall i | 0 <= i < |s| && i != |pre| + 1
      ensures s[i] != '!'
    {
      if i < |pre| {
        assert s[i] == pre[i];
      } else if i < |pre| + |x| {
        assert s[i] == x[i - |pre|];
      } else {
        assert s[i] == post[i - |pre| - |x|];
      }
    }
  }

  /**
   The second pass on a marker stretch in a document whose other text holds no `!`: the stretch
   becomes the linked image and the text on both sides stays.
   */
  lemma MarkerPassShaped(pre: string, t: string, post: string, u: string, img: string)
    requires MarkerShaped(t, u, img) && Lacks(pre, '!') && Lacks(post, '!')
    ensures ReplaceAll(pre + t + post, MarkerImage, ToLink) == pre + LinkedImage(u, img) + post
  {
    ShapedOpens(t, u, img);
    MarkerOutsideNone(pre, t, post);
    WindowOf(pre, t, post);
    MarkerOnlyWindow(pre + t + post, |pre|, t, u, img);
    WindowSides(pre, t, post);
  }

  /** The marker pass on a document whose only match is such a stretch: the stretch becomes the linked image. */
  lemma MarkerOnlyWindow(s: string, p: nat, t: string, u: string, img: string)
    requires Window(s, p, t) && MarkerShaped(t, u, img)
    requires forall j :: 0 <= j < |s| && (j < p || p + |t| <= j) ==> MarkerImage(s, j).None?
    ensures ReplaceAll(s, MarkerImage, ToLink) == s[..p] + LinkedImage(u, img) + s[p + |t|..]
  {
    MarkerWindowHit(s, p, t, u, img);
    ReplaceAllOnly(s, MarkerImage, ToLink, p);
    ToLinkGroups(s, p, s[p..p + |t|], u, img);
  }

  /** The link built from a match's two groups, the URL and the image tag. */
  lemma ToLinkGroups(s: string, at: nat, matched: string, u: string, img: string)
    ensures ToLink(s, at, matched, [u, img]) == LinkedImage(u, img)
  {
    assert Group([u, img], 1) == u && Group([u, img], 2) == img;
  }

  /** A marker stretch opens with `<`. */
  lemma ShapedOpens(t: string, u: string, img: string)
    requires MarkerShaped(t, u, img)
    ensures t != [] && t[0] == '<'
  {
    assert ShapedAt(t, u, img, 0);
  }

  /** With no `!` outside a stretch that opens with `<`, no marker pattern matches outside it. */
  lemma MarkerOutsideNone(pre: string, t: string, post: string)
    requires t != [] && t[0] == '<' && Lacks(pre, '!') && Lacks(post, '!')
    ensures NoMatchOutside(pre, t, post, MarkerImage)
  {
    var s := pre + t + post;
    forall j | 0 <= j < |s| && (j < |pre| || |pre| + |t| <= j)
      ensures MarkerImage(s, j).None?
    {
      if j + 1 < |pre| {
        assert s[j + 1] == pre[j + 1];
      } else if j + 1 == |pre| {
        assert s[j + 1] == t[0];
      } else if j + 1 < |s| {
        assert s[j + 1] == post[j + 1 - |pre| - |t|];
      }
      MarkerPatternsNeedBang(s, j);
    }
  }

  /** The second pass links the image after the marker and keeps the text on both sides. */
  lemma MarkerPass(pre: string, u: string, sp: string, attrs: string, post: string)
    requires PlainParts(u, attrs) && AllSpace(sp) && Quiet(pre) && Quiet(post)
    ensures ReplaceAll(pre + (Marker(u) + sp + ImgTag(attrs)) + post, MarkerImage, ToLink)
         == pre + LinkedImage(u, ImgTag(attrs)) + post
  {
    MarkerShape(u, sp, attrs);
    MarkerPassShaped(pre, Marker(u) + sp + ImgTag(attrs), post, u, ImgTag(attrs));
  }

  /**
   `[img-link:URL]`, whitespace and an image, anywhere in a document with no other directive or
   marker: the repaired conversion replaces that stretch with the image wrapped in a link to URL
   and keeps the text on both sides.
   */
  lemma ColonDirectiveLinksImage(pre: string, u: string, sp: string, attrs: string, post: string)
    requires PlainParts(u, attrs) && AllSpace(sp) && Quiet(pre) && Quiet(post)
    ensures ConvertImageLinks(pre + "[img-link:" + u + "]" + sp + ImgTag(attrs) + post)
         == pre + LinkedImage(u, ImgTag(attrs)) + post
  {
    var img := ImgTag(attrs);
    FirstPass(pre, u, sp, attrs, post);
    MarkerPass(pre, u, sp, attrs, post);
    var s2 := pre + LinkedImage(u, img) + post;
    ImgTagLacks(attrs, '[');
    ImgTagLacks(attrs, '!');
    LinkedImageLacks(u, img, '[');
    LinkedImageLacks(u, img, '!');
    LacksJoin3(pre, LinkedImage(u, img), post, '[');
    LacksJoin3(pre, LinkedImage(u, img), post, '!');
    LaterPassesInert(s2);
  }

  /**
   The same document through the conversion as written, when the URL holds a character between
   `-` and `>` after its scheme (a dot, say): the image is not linked and the marker stays where
   the directive was.
   */
  lemma ColonDirectiveAsWritten(pre: string, u: string, sp: string, attrs: string, post: string)
    requires PlainParts(u, attrs) && HasDashRangeChar(u) && AllSpace(sp) && Quiet(pre) && Quiet(post)
    ensures ConvertImageLinksAsWritten(pre + "[img-link:" + u + "]" + sp + ImgTag(attrs) + post)
         == pre + Marker(u) + sp + ImgTag(attrs) + post
  {
    var img := ImgTag(attrs);
    MarkerStaysAsWritten(pre, u, sp, attrs, post);
    FirstPass(pre, u, sp, attrs, post);
    assert pre + (Marker(u) + sp + img) + post == pre + Marker(u) + sp + img + post;
  }

  /** As written, the passes after the first one leave the marker, whitespace and image alone. */
  lemma MarkerStaysAsWritten(pre: string, u: string, sp: string, attrs: string, post: string)
    requires PlainParts(u, attrs) && HasDashRangeChar(u) && AllSpace(sp) && Quiet(pre) && Quiet(post)
    ensures var s := pre + (Marker(u) + sp + ImgTag(attrs)) + post;
      && ReplaceAll(s, MarkerImageAsWritten, ToLink) == s && ReplaceAll(s, ImgLinkSpaced, ToMarker) == s
      && ReplaceAll(s, LinkBeforeImage, ToLink) == s && ReplaceAll(s, LeftoverMarkerAsWritten, Erase) == s
  {
    var img := ImgTag(attrs);
    var s := pre + (Marker(u) + sp + img) + post;
    MarkerLacks(pre, u, sp, attrs, post);
    assert s == pre + Marker(u) + (sp + img + post);
    MarkerMissedAsWritten(pre, u, sp + img + post);
    LaterPassesKeepAsWritten(s, |pre|);
  }

  /**
   Text with no `[`, whose only `!` follows position `q`, and where neither marker pattern as
   written matches at `q`, comes through the passes after the first one unchanged.
   */
  lemma LaterPassesKeepAsWritten(s: string, q: nat)
    requires Lacks(s, '[') && forall i :: 0 <= i < |s| && i != q + 1 ==> s[i] != '!'
    requires MarkerImageAsWritten(s, q).None? && LeftoverMarkerAsWritten(s, q).None?
    ensures ReplaceAll(s, MarkerImageAsWritten, ToLink) == s && ReplaceAll(s, ImgLinkSpaced, ToMarker) == s
    ensures ReplaceAll(s, LinkBeforeImage, ToLink) == s && ReplaceAll(s, LeftoverMarkerAsWritten, Erase) == s
  {
    forall p | 0 <= p < |s|
      ensures ImgLinkSpaced(s, p).None? && LinkBeforeImage(s, p).None?
      ensures MarkerImageAsWritten(s, p).None? && LeftoverMarkerAsWritten(s, p).None?
    {
      BracketPatternsNeedBracket(s, p);
      if p != q {
        MarkerPatternsNeedBang(s, p);
      }
    }
    ReplaceAllWithoutMatches(s, MarkerImageAsWritten, ToLink);
    ReplaceAllWithoutMatches(s, ImgLinkSpaced, ToMarker);
    ReplaceAllWithoutMatches(s, LinkBeforeImage, ToLink);
    ReplaceAllWithoutMatches(s, LeftoverMarkerAsWritten, Erase);
  }

  /** HTML with no `[` and no marker comes through both versions of the conversion unchanged. */
  lemma NoDirectiveUnchanged(html: string)
    requires Lacks(html, '[') && !ContainsCI(html, "<!--img_link_marker:")
    ensures ConvertImageLinks(html) == html
    ensures ConvertImageLinksAsWritten(html) == html
  {
    forall p | 0 <= p < |html|
      ensures ImgLinkColon(html, p).None? && ImgLinkSpaced(html, p).None? && LinkBeforeImage(html, p).None?
      ensures MarkerImage(html, p).None? && LeftoverMarker(html, p).None?
      ensures MarkerImageAsWritten(html, p).None? && LeftoverMarkerAsWritten(html, p).None?
    {
      BracketPatternsNeedBracket(html, p);
      if AtCI(html, p, "<!--img_link_marker:") {
        ContainsCIAt(html, p, "<!--img_link_marker:");
      }
    }
    ReplaceAllWithoutMatches(html, ImgLinkColon, ToMarker);
    ReplaceAllWithoutMatches(html, ImgLinkSpaced, ToMarker);
    ReplaceAllWithoutMatches(html, LinkBeforeImage, ToLink);
    ReplaceAllWithoutMatches(html, MarkerImage, ToLink);
    ReplaceAllWithoutMatches(html, LeftoverMarker, Erase);
    ReplaceAllWithoutMatches(html, MarkerImageAsWritten, ToLink);
    ReplaceAllWithoutMatches(html, LeftoverMarkerAsWritten, Erase);
  }
}
