/**
 The per-element style rules of the conversion route. The route walks the parsed document and
 rewrites each element's `style` attribute (`""` when the attribute is absent); here each rule is
 a pure function of that string and of the few facts about the element it consults (does a link
 hold an image, does an underline sit inside a link). A rule that also renames the element
 returns a `Styled` pair.
 */
module ElementRules {
  import opened Base
  import opened Text
  import opened Scan
  import opened DocUrls

  /** An element as the rules see it: its tag name and its `style` attribute. */
  datatype Styled = Styled(tag: string, style: string)

  /** `s` ends with `t`. */
  predicate EndsWith(s: string, t: string) {
    |t| <= |s| && s[|s| - |t|..] == t
  }

  lemma EndsWithOccurs(s: string, t: string)
    requires EndsWith(s, t)
    ensures OccursAt(s, t, |s| - |t|)
  {
  }

  // ---------------------------------------------------------------- bold

  const Important := "!important"
  const BoldValue := " bold " + Important
  /** The declaration every bold rewrite ends with: `font-weight: bold !important;`. */
  const BoldDecl := "font-weight" + ":" + BoldValue + ";"

  /**
   `font-weight\s*:\s*[^;]*;?` (when `spaced`) or `font-weight:\s*[^;]*;?`, both with the `i`
   flag. The whitespace after the colon is absorbed by `[^;]*`, so a match runs to the next
   `;`, which it takes, or to the end of the style.
   */
  function WeightDeclAt(spaced: bool, s: string, p: nat): (r: Option<Hit>)
    ensures r.Some? ==> AtCI(s, p, "font-weight") && p < r.value.end <= |s|
  {
    if !AtCI(s, p, "font-weight") then None
    else
      var c := if spaced then SkipSpace(s, p + 11) else p + 11;
      if c >= |s| || s[c] != ':' then None
      else
        var e := FindChar(s, c + 1, IsSemicolon);
        Some(Hit(if e < |s| then e + 1 else e, []))
  }

  function WeightMatcher(spaced: bool): Matcher {
    (s: string, p: nat) => WeightDeclAt(spaced, s, p)
  }

  /** Every `font-weight` declaration deleted, left to right. */
  function StripWeight(spaced: bool, style: string): string {
    ReplaceAll(style, WeightMatcher(spaced), Fixed([]))
  }

  /**
   The bold rewrite: the weight declarations removed, one trailing `;` trimmed, and
   `font-weight: bold !important;` appended after a `; ` separator (alone when nothing is left).
   */
  function WeightedBold(spaced: bool, style: string): (r: string)
    ensures EndsWith(r, BoldDecl)
    ensures r == BoldDecl || (|r| > |BoldDecl| + 2 && r[|r| - |BoldDecl| - 2..|r| - |BoldDecl|] == "; ")
  {
    var clean := DropTrailingSemicolon(StripWeight(spaced, style));
    if clean != [] then clean + "; " + BoldDecl else BoldDecl
  }

  /** `b` and `strong`: the bold rewrite, and the element becomes a `span`. */
  function BoldRule(style: string): (r: Styled)
    ensures r.tag == "span" && EndsWith(r.style, BoldDecl)
  {
    Styled("span", WeightedBold(true, style))
  }

  /** `font-weight:\s*(bold|bolder|[5-9]\d\d)` with the `i` flag; `bold` is tried first and needs nothing after it. */
  function HeavyAt(s: string, p: nat): (r: Option<Hit>)
    ensures r.Some? ==> AtCI(s, p, "font-weight:") && p < r.value.end <= |s|
  {
    if !AtCI(s, p, "font-weight:") then None
    else
      var b := SkipSpace(s, p + 12);
      if AtCI(s, b, "bold") then Some(Hit(b + 4, [s[b..b + 4]]))
      else if b + 3 <= |s| && '5' <= s[b] <= '9' && IsDigit(s[b + 1]) && IsDigit(s[b + 2]) then
        Some(Hit(b + 3, [s[b..b + 3]]))
      else None
  }

  /** The span test: `style.match(/font-weight:\s*(bold|bolder|[5-9]\d\d)/i)` finds something. */
  predicate IsHeavy(style: string) {
    FirstMatchFrom(style, 0, HeavyAt).Some?
  }

  /**
   A `span` selected by `[style*='font-weight']` (a case-sensitive substring test) whose weight
   is heavy gets the bold rewrite, with the unspaced weight pattern; every other span keeps its style.
   */
  function SpanRule(style: string): (r: string)
    ensures Contains(style, "font-weight") && IsHeavy(style) ==> EndsWith(r, BoldDecl)
    ensures !(Contains(style, "font-weight") && IsHeavy(style)) ==> r == style
  {
    if Contains(style, "font-weight") && IsHeavy(style) then WeightedBold(false, style) else style
  }

  /** A search for `;` that meets one at `r` after none from `from`. */
  lemma FindSemicolonAt(s: string, from: nat, r: nat)
    requires from <= r < |s| && s[r] == ';'
    requires forall j :: from <= j < r ==> s[j] != ';'
    ensures FindChar(s, from, IsSemicolon) == r
  {
  }

  /** Both weight patterns match `font-weight: bold !important;` exactly. */
  lemma BoldDeclMatched(spaced: bool, s: string, k: nat)
    requires OccursAt(s, BoldDecl, k)
    ensures WeightDeclAt(spaced, s, k) == Some(Hit(k + |BoldDecl|, []))
  {
    var w := "font-weight";
    assert BoldDecl == w + ":" + BoldValue + ";";
    assert |BoldDecl| == 29;
    assert s[k..k + 29] == BoldDecl;
    assert s[k..k + 11] == BoldDecl[..11] == w;
    assert Lower(w) == w;
    assert AtCI(s, k, w);
    assert s[k + 11] == BoldDecl[11] == ':';
    if spaced {
      assert SkipSpace(s, k + 11) == k + 11;
    }
    LacksAppend(" bold ", Important, ';');
    forall j | k + 12 <= j < k + 28
      ensures s[j] != ';'
    {
      assert s[j] == BoldDecl[j - k] == BoldValue[j - k - 12];
    }
    assert s[k + 28] == BoldDecl[28] == ';';
    FindSemicolonAt(s, k + 12, k + 28);
  }

  /** Before a `;` that ends `c`, no case-insensitive `font-weight` starts unless `c` itself holds one. */
  lemma NoWeightBeforeSemicolon(c: string, t: string, j: nat)
    requires !ContainsCI(c, "font-weight") && t != [] && t[0] == ';' && j < |c|
    ensures !AtCI(c + t, j, "font-weight")
  {
    var y := c + t;
    if j + 11 <= |c| {
      assert y[j..j + 11] == c[j..j + 11];
      assert !AtCI(c, j, "font-weight");
    } else if AtCI(y, j, "font-weight") {
      AtCIChar(y, j, "font-weight", |c| - j);
      assert false;
    }
  }

  /** Trimming the trailing semicolon of `c + "; "` gives `c` back. */
  lemma DropSeparator(c: string)
    ensures DropTrailingSemicolon(c + "; ") == c
  {
    var d := c + ";";
    assert c + "; " == d + " ";
    TrimEndAppendSpaces(d, " ");
    assert TrimEnd(d) == d;
    assert d[..|d| - 1] == c;
  }

  /** A style holding no weight declaration keeps everything through the strip. */
  lemma NoWeightKept(spaced: bool, style: string)
    requires !ContainsCI(style, "font-weight")
    ensures StripWeight(spaced, style) == style
  {
    forall j | 0 <= j < |style|
      ensures !ValidHit(style, j, WeightMatcher(spaced)(style, j))
    {
      assert !AtCI(style, j, "font-weight");
    }
    ReplaceAllWithoutMatches(style, WeightMatcher(spaced), Fixed([]));
  }

  /**
   The bold rewrite is stable: on its own output it changes nothing, so that output carries one
   weight declaration, the final `font-weight: bold !important;`. It needs the kept part to hold
   no stray `font-weight` text of its own.
   */
  lemma WeightedBoldStable(spaced: bool, style: string)
    requires !ContainsCI(DropTrailingSemicolon(StripWeight(spaced, style)), "font-weight")
    ensures WeightedBold(spaced, WeightedBold(spaced, style)) == WeightedBold(spaced, style)
  {
    var c := DropTrailingSemicolon(StripWeight(spaced, style));
    if c == [] {
      BoldAloneStripped(spaced);
    } else {
      BoldAfterKeptStripped(spaced, c);
      DropSeparator(c);
    }
  }

  /** The bold declaration on its own loses everything to the weight strip. */
  lemma BoldAloneStripped(spaced: bool)
    ensures StripWeight(spaced, BoldDecl) == []
  {
    var r := BoldDecl;
    BoldDeclMatched(spaced, r, 0);
    ReplaceAllWhole(r, WeightMatcher(spaced), Fixed([]), []);
  }

  /** Kept text without weight text, the `; ` separator and the bold declaration: the strip leaves the first two. */
  lemma BoldAfterKeptStripped(spaced: bool, c: string)
    requires !ContainsCI(c, "font-weight")
    ensures StripWeight(spaced, c + "; " + BoldDecl) == c + "; "
  {
    var t := "; " + BoldDecl;
    var r := c + t;
    assert c + "; " + BoldDecl == r;
    var m := WeightMatcher(spaced);
    var k := |c| + 2;
    assert r[k..] == BoldDecl;
    BoldDeclMatched(spaced, r, k);
    forall j | 0 <= j < k
      ensures !ValidHit(r, j, m(r, j))
    {
      NoWeightInKept(c, j);
    }
    ReplaceAllTrailing(r, m, Fixed([]), k);
    assert r[..k] == c + "; ";
  }

  /** No weight text starts in the kept text or its separator. */
  lemma NoWeightInKept(c: string, j: nat)
    requires !ContainsCI(c, "font-weight") && j < |c| + 2
    ensures !AtCI(c + "; " + BoldDecl, j, "font-weight")
  {
    var t := "; " + BoldDecl;
    var r := c + t;
    assert c + "; " + BoldDecl == r;
    if j < |c| {
      NoWeightBeforeSemicolon(c, t, j);
    } else {
      assert r[j] == ';' || r[j] == ' ';
      if AtCI(r, j, "font-weight") {
        AtCIChar(r, j, "font-weight", 0);
        assert false;
      }
    }
  }

  /** A style that is one weight declaration, with nothing after it, becomes exactly the bold declaration. */
  lemma SoleWeightBecomesBold(spaced: bool, v: string)
    requires Lacks(v, ';')
    ensures WeightedBold(spaced, "font-weight:" + v) == BoldDecl
  {
    var s := "font-weight:" + v;
    assert s[..11] == "font-weight";
    assert AtCI(s, 0, "font-weight");
    assert s[11] == ':';
    if spaced {
      assert SkipSpace(s, 11) == 11;
    }
    forall j | 12 <= j < |s|
      ensures !IsSemicolon(s[j])
    {
      assert s[j] == v[j - 12];
    }
    assert FindChar(s, 12, IsSemicolon) == |s|;
    ReplaceAllWhole(s, WeightMatcher(spaced), Fixed([]), []);
  }

  /** The leading pieces of the bold declaration, as the heavy-weight test reads them. */
  lemma BoldDeclPieces()
    ensures |BoldDecl| == 29
    ensures BoldDecl[..12] == "font-weight:" && BoldDecl[12] == ' ' && BoldDecl[13] == 'b'
    ensures BoldDecl[13..17] == "bold"
  {
    var a := "font-weight" + ":";
    assert BoldDecl == a + (" bold " + Important + ";");
    assert BoldDecl[12..] == " bold " + Important + ";";
    assert BoldDecl[12..][1..5] == BoldDecl[13..17];
  }

  /** The output of the bold rewrite is heavy again, so a span that received it is selected once more. */
  lemma BoldDeclIsHeavy(s: string, k: nat)
    requires OccursAt(s, BoldDecl, k)
    ensures Contains(s, "font-weight") && IsHeavy(s)
  {
    BoldDeclPieces();
    var w := "font-weight:";
    var u := s[k..k + 29];
    assert u == BoldDecl;
    assert s[k..k + 12] == u[..12] == w;
    assert s[k..k + 11] == w[..11];
    assert OccursAt(s, "font-weight", k);
    assert Lower(w) == w;
    assert AtCI(s, k, w);
    assert s[k + 12] == u[12] == ' ';
    assert s[k + 13] == u[13] == 'b';
    assert SkipSpace(s, k + 12) == k + 13;
    assert s[k + 13..k + 17] == u[13..17] == "bold";
    assert Lower("bold") == "bold";
    assert ValidHit(s, k, HeavyAt(s, k));
  }

  /** The span rule is stable on its own output, under the same condition as the bold rewrite. */
  lemma SpanRuleStable(style: string)
    requires !ContainsCI(DropTrailingSemicolon(StripWeight(false, style)), "font-weight")
    ensures SpanRule(SpanRule(style)) == SpanRule(style)
  {
    if Contains(style, "font-weight") && IsHeavy(style) {
      var r := WeightedBold(false, style);
      assert SpanRule(style) == r;
      WeightedBoldStable(false, style);
      EndsWithOccurs(r, BoldDecl);
      BoldDeclIsHeavy(r, |r| - |BoldDecl|);
      assert SpanRule(r) == WeightedBold(false, r);
    }
  }

  // ---------------------------------------------------------------- appended declarations

  /** A style that does not open with `;`, so the leading-semicolon trim leaves it alone. */
  predicate StartsVisible(s: string) {
    s == [] || s[0] != ';'
  }

  /** A declaration body: it starts with a visible character other than `;`. */
  predicate IsDeclBody(body: string) {
    body != [] && body[0] != ';' && !IsSpace(body[0])
  }

  /** `${style}; ${body}`.replace(/^;\s*\/, ""): a declaration appended after a `; ` separator. */
  function AppendDecl(style: string, body: string): (r: string)
    requires IsDeclBody(body)
    ensures Contains(r, body) && r != []
    ensures StartsVisible(style) ==> StartsVisible(r)
    ensures style == [] ==> r == body
    ensures style != [] && style[0] != ';' ==> r == style + "; " + body
  {
    AppendedBody(style, body);
    DropLeadingSemicolon(style + "; " + body)
  }

  lemma AppendedBody(style: string, body: string)
    requires IsDeclBody(body)
    ensures Contains(DropLeadingSemicolon(style + "; " + body), body)
    ensures style == [] ==> DropLeadingSemicolon(style + "; " + body) == body
  {
    var full := style + "; " + body;
    assert full[|style| + 2..] == body;
    assert OccursAt(full, body, |style| + 2);
    ContainsDropLeading(full, body);
    if style == [] {
      assert full == "; " + body;
      assert SkipSpace(full, 1) == 2;
    }
  }

  /** Each appended declaration lengthens a visible style, so appending twice never equals appending once. */
  lemma AppendDeclNotIdempotent(style: string, body: string)
    requires IsDeclBody(body) && StartsVisible(style)
    ensures |AppendDecl(AppendDecl(style, body), body)| == |AppendDecl(style, body)| + 2 + |body|
  {
  }

  /** `if (!style.includes(word)) style += decl`. */
  function AddIfAbsent(style: string, word: string, decl: string): (r: string)
    ensures style <= r
  {
    if Contains(style, word) then style else style + decl
  }

  lemma AddIfAbsentHas(style: string, word: string, decl: string)
    requires Contains(decl, word)
    ensures Contains(AddIfAbsent(style, word, decl), word)
  {
    if !Contains(style, word) {
      var i :| 0 <= i <= |decl| && OccursAt(decl, word, i);
      ContainsAfter(style, decl, word, i);
    }
  }

  lemma AddIfAbsentKeeps(style: string, word: string, decl: string, p: string)
    requires Contains(style, p)
    ensures Contains(AddIfAbsent(style, word, decl), p)
  {
    if !Contains(style, word) {
      ContainsAppend(style, decl, p);
    }
  }

  /** `"; " + word + rest` holds `word`. */
  lemma SeparatedHas(word: string, rest: string)
    ensures Contains("; " + word + rest, word)
  {
    assert "; " + word + rest == "; " + (word + rest);
    assert OccursAt(word + rest, word, 0);
    ContainsAfter("; ", word + rest, word, 0);
  }

  /** An occurrence of an occurrence. */
  lemma ContainsWithin(s: string, mid: string, p: string)
    requires Contains(s, mid) && Contains(mid, p)
    ensures Contains(s, p)
  {
    var i :| 0 <= i <= |s| && OccursAt(s, mid, i);
    var j :| 0 <= j <= |mid| && OccursAt(mid, p, j);
    forall k | 0 <= k < |p|
      ensures s[i + j + k] == p[k]
    {
      assert s[i..i + |mid|][j + k] == s[i + j + k];
      assert mid[j..j + |p|][k] == mid[j + k];
    }
    assert s[i + j..i + j + |p|] == p;
    assert OccursAt(s, p, i + j);
  }

  /** A prefix keeps its occurrences in any extension. */
  lemma ContainsExtended(a: string, b: string, p: string)
    requires Contains(a, p) && a <= b
    ensures Contains(b, p)
  {
    assert b == a + b[|a|..];
    ContainsAppend(a, b[|a|..], p);
  }

  /** A visibly starting word survives the leading-semicolon trim of any extension of a style holding it. */
  lemma WordSurvives(a: string, b: string, p: string)
    requires Contains(a, p) && a <= b && p != [] && p[0] != ';' && !IsSpace(p[0])
    ensures Contains(DropLeadingSemicolon(b), p)
  {
    ContainsExtended(a, b, p);
    ContainsDropLeading(b, p);
  }

  /** Extending a style that starts visibly (or `"; "` followed by a visible character) keeps the trim's result starting visibly. */
  lemma TrimStartsVisible(a: string, b: string)
    requires a <= b
    requires (a != [] && a[0] != ';') || (|a| >= 3 && a[0] == ';' && a[1] == ' ' && a[2] != ';' && !IsSpace(a[2]))
    ensures StartsVisible(DropLeadingSemicolon(b))
  {
    assert b[0] == a[0];
    if a[0] == ';' {
      assert b[1] == ' ' && b[2] == a[2];
      assert SkipSpace(b, 1) == 2;
    }
  }

  // ---------------------------------------------------------------- links

  const TextDecoration := "text-decoration"
  const Display := "display"
  const Border := "border"
  const Cursor := "cursor"

  /**
   The style of a link that holds an image: `text-decoration: none`, `display: inline-block`
   and `border: none`, each appended only when its property name is absent, then the leading
   semicolon trimmed.
   */
  function ImageLinkStyle(style: string): (r: string)
    ensures Contains(r, TextDecoration) && Contains(r, Display) && Contains(r, Border)
  {
    var a1 := AddIfAbsent(style, TextDecoration, "; " + TextDecoration + ": none;");
    var a2 := AddIfAbsent(a1, Display, "; " + Display + ": inline-block;");
    var a3 := AddIfAbsent(a2, Border, "; " + Border + ": none;");
    SeparatedHas(TextDecoration, ": none;");
    SeparatedHas(Display, ": inline-block;");
    SeparatedHas(Border, ": none;");
    AddIfAbsentHas(style, TextDecoration, "; " + TextDecoration + ": none;");
    AddIfAbsentHas(a1, Display, "; " + Display + ": inline-block;");
    AddIfAbsentHas(a2, Border, "; " + Border + ": none;");
    WordSurvives(a1, a3, TextDecoration);
    WordSurvives(a2, a3, Display);
    WordSurvives(a3, a3, Border);
    DropLeadingSemicolon(a3)
  }

  /** A style that already names all three properties, and does not open with `;`, is kept as it is. */
  lemma ImageLinkStyleKeeps(style: string)
    requires Contains(style, TextDecoration) && Contains(style, Display) && Contains(style, Border)
    requires StartsVisible(style)
    ensures ImageLinkStyle(style) == style
  {
  }

  /** The image-link styling applied twice equals applying it once. */
  lemma ImageLinkStyleIdempotent(style: string)
    requires StartsVisible(style)
    ensures ImageLinkStyle(ImageLinkStyle(style)) == ImageLinkStyle(style)
  {
    var a1 := AddIfAbsent(style, TextDecoration, "; " + TextDecoration + ": none;");
    var a2 := AddIfAbsent(a1, Display, "; " + Display + ": inline-block;");
    var a3 := AddIfAbsent(a2, Border, "; " + Border + ": none;");
    if style == [] {
      assert a1 == "; " + TextDecoration + ": none;";
      assert a1[2] == TextDecoration[0] == 't';
    }
    TrimStartsVisible(if style == [] then a1 else style, a3);
    ImageLinkStyleKeeps(ImageLinkStyle(style));
  }

  /** `cursor: pointer` for an image inside a link, only when `cursor` is absent. */
  function ImgCursorStyle(style: string): (r: string)
    ensures Contains(r, Cursor)
    ensures Contains(style, Cursor) ==> r == style
  {
    if Contains(style, Cursor) then style
    else
      var d := Cursor + ": pointer;";
      var r := AppendDecl(style, d);
      ContainsPrefix(Cursor, ": pointer;");
      ContainsWithin(r, d, Cursor);
      r
  }

  const ColorCheck := "color:"
  const LinkBlue := "#1a73e8"
  const DecorationCheck := TextDecoration + ":"

  /** The first half of the text-link style: `color: #1a73e8` unless `color:` occurs. */
  function ColouredLink(style: string): (r: string)
    ensures Contains(r, ColorCheck)
    ensures Contains(style, ColorCheck) ==> r == style
    ensures StartsVisible(style) ==> r != [] && r[0] != ';'
  {
    if Contains(style, ColorCheck) then style
    else
      var a := AppendDecl(style, "color: " + LinkBlue + ";");
      BlueHasColor(a);
      a
  }

  /**
   The style of a text link: `color: #1a73e8` unless the style contains `color:` (which
   `background-color:` also satisfies), then `text-decoration: underline` unless
   `text-decoration:` is present, then the leading semicolon trimmed.
   */
  function TextLinkStyle(style: string): (r: string)
    ensures Contains(r, ColorCheck) && Contains(r, DecorationCheck)
  {
    var l := ColouredLink(style);
    var l2 := AddIfAbsent(l, DecorationCheck, "; " + DecorationCheck + " underline;");
    SeparatedHas(DecorationCheck, " underline;");
    AddIfAbsentHas(l, DecorationCheck, "; " + DecorationCheck + " underline;");
    WordSurvives(l, l2, ColorCheck);
    WordSurvives(l2, l2, DecorationCheck);
    DropLeadingSemicolon(l2)
  }

  lemma BlueHasColor(l: string)
    requires Contains(l, "color: " + LinkBlue + ";")
    ensures Contains(l, ColorCheck)
  {
    assert "color: " + LinkBlue + ";" == ColorCheck + " " + LinkBlue + ";";
    assert OccursAt(ColorCheck + " " + LinkBlue + ";", ColorCheck, 0);
    ContainsWithin(l, "color: " + LinkBlue + ";", ColorCheck);
  }

  /** A text link style naming both properties, not opening with `;`, is kept as it is. */
  lemma TextLinkStyleKeeps(style: string)
    requires Contains(style, ColorCheck) && Contains(style, DecorationCheck) && StartsVisible(style)
    ensures TextLinkStyle(style) == style
  {
  }

  lemma TextLinkStyleIdempotent(style: string)
    requires StartsVisible(style)
    ensures TextLinkStyle(TextLinkStyle(style)) == TextLinkStyle(style)
  {
    var l := ColouredLink(style);
    var l2 := AddIfAbsent(l, DecorationCheck, "; " + DecorationCheck + " underline;");
    assert l != [] && l[0] != ';';
    TrimStartsVisible(l, l2);
    TextLinkStyleKeeps(TextLinkStyle(style));
  }

  /** `background-color:` counts as a colour: a link with a background colour never turns blue. */
  lemma BackgroundColorKeepsLinkUncoloured(style: string)
    requires Contains(style, "background-" + ColorCheck) && !Contains(style, LinkBlue)
    ensures !Contains(TextLinkStyle(style), LinkBlue)
  {
    BackgroundHasColor(style);
    var d := "; " + DecorationCheck + " underline;";
    DecorationAddsNoBlue(style, d);
    DropKeepsAbsent(AddIfAbsent(style, DecorationCheck, d), LinkBlue);
  }

  lemma BackgroundHasColor(style: string)
    requires Contains(style, "background-" + ColorCheck)
    ensures Contains(style, ColorCheck)
  {
    var i :| 0 <= i <= |style| && OccursAt(style, "background-" + ColorCheck, i);
    OccursAtSuffix(style, "background-", ColorCheck, i);
  }

  /** The underline declaration holds no `#`, so it brings no blue in. */
  lemma DecorationAddsNoBlue(l: string, d: string)
    requires d == "; " + DecorationCheck + " underline;" && !Contains(l, LinkBlue)
    ensures !Contains(AddIfAbsent(l, DecorationCheck, d), LinkBlue)
  {
    if !Contains(l, DecorationCheck) {
      NoCharNoOccurrence(d, LinkBlue, 0);
      AppendNoNewOccurrence(l, d, LinkBlue);
    }
  }

  /** Dropping a leading `;` and spaces keeps a pattern absent. */
  lemma DropKeepsAbsent(x: string, p: string)
    requires !Contains(x, p)
    ensures !Contains(DropLeadingSemicolon(x), p)
  {
    var r := DropLeadingSemicolon(x);
    if Contains(r, p) {
      ContainsInSuffix(x, |x| - |r|, p);
    }
  }

  /** The attributes the link pass leaves on an `a` element. */
  datatype LinkAttrs = LinkAttrs(href: Option<string>, style: string, target: string)

  /**
   The link pass: the `href` cleaned of a Google redirect, the image-link or text-link style
   depending on whether the link holds an image, and `target="_blank"` on every link.
   */
  function LinkRule(href: Option<string>, style: string, hasImage: bool, lookupQ: string -> QueryLookup): (r: LinkAttrs)
    ensures r.target == "_blank"
    ensures r.href.None? <==> href.None?
    ensures href.Some? && !Contains(href.value, RedirectHost) ==> r.href == href
    ensures hasImage ==> Contains(r.style, TextDecoration) && Contains(r.style, Display) && Contains(r.style, Border)
    ensures !hasImage ==> Contains(r.style, ColorCheck) && Contains(r.style, DecorationCheck)
  {
    LinkAttrs(RewriteHref(href, lookupQ), if hasImage then ImageLinkStyle(style) else TextLinkStyle(style), "_blank")
  }

  // ---------------------------------------------------------------- italic and underline

  const ItalicBody := "font-style: italic;"
  const UnderlineBody := TextDecoration + ": underline;"

  /** `i` and `em`: `font-style: italic` appended unconditionally, and the element becomes a `span`. */
  function ItalicRule(style: string): (r: Styled)
    ensures r.tag == "span" && Contains(r.style, ItalicBody)
    ensures style != [] && style[0] != ';' ==> r.style == style + "; " + ItalicBody
  {
    Styled("span", AppendDecl(style, ItalicBody))
  }

  /** `u`: `text-decoration: underline` appended; the element becomes a `span` unless a link sits inside or around it. */
  function UnderlineRule(style: string, hasLink: bool): (r: Styled)
    ensures r.tag == (if hasLink then "u" else "span")
    ensures Contains(r.style, UnderlineBody)
    ensures style != [] && style[0] != ';' ==> r.style == style + "; " + UnderlineBody
  {
    Styled(if hasLink then "u" else "span", AppendDecl(style, UnderlineBody))
  }

  // ---------------------------------------------------------------- block tags

  /** The block elements the route styles. */
  datatype BlockTag = Para | Heading1 | Heading2 | Heading3 | BulletList | NumberedList | ListItem

  /** The font size a block receives when its style does not mention `font-size`; lists receive none. */
  function DefaultFontSize(tag: BlockTag): Option<string> {
    match tag
    case Para => Some("14px")
    case Heading1 => Some("24px")
    case Heading2 => Some("20px")
    case Heading3 => Some("18px")
    case _ => None
  }

  const HeadingWeight := "font-weight: bold; "

  /** The declarations appended to every block of a kind, whatever its style already says. */
  function BlockBody(tag: BlockTag): (r: string)
    ensures IsDeclBody(r)
  {
    match tag
    case Para => "margin: " + "0 0 16px 0; line-height: 1.6;"
    case Heading1 => HeadingWeight + "margin: 20px 0 16px 0; line-height: 1.3;"
    case Heading2 => HeadingWeight + "margin: 18px 0 14px 0; line-height: 1.3;"
    case Heading3 => HeadingWeight + "margin: 16px 0 12px 0; line-height: 1.3;"
    case BulletList => "margin: " + "16px 0; padding-left: 20px;"
    case NumberedList => "margin: " + "16px 0; padding-left: 20px;"
    case ListItem => "margin: " + "8px 0; line-height: 1.6;"
  }

  const FontSize := "font-size"

  /** The font-size declaration a block gets when it has none. */
  function FontSizeDecl(size: string): string {
    "; " + FontSize + ": " + size + ";"
  }

  /**
   The block rule: a paragraph or heading without `font-size` gets its default size first; then
   the kind's margin and line-height declarations are appended unconditionally and the leading
   semicolon trimmed.
   */
  function BlockStyle(tag: BlockTag, style: string): (r: string)
    ensures Contains(r, BlockBody(tag))
    ensures DefaultFontSize(tag).Some? ==> Contains(r, FontSize)
    ensures DefaultFontSize(tag).Some? && !Contains(style, FontSize) ==>
      Contains(r, FontSize + ": " + DefaultFontSize(tag).value + ";")
    ensures (DefaultFontSize(tag).None? || Contains(style, FontSize)) ==> r == AppendDecl(style, BlockBody(tag))
    ensures StartsVisible(style) ==> StartsVisible(r)
  {
    var base := match DefaultFontSize(tag)
      case Some(size) => if Contains(style, FontSize) then style else style + FontSizeDecl(size)
      case None => style;
    BlockFacts(tag, style, base);
    AppendDecl(base, BlockBody(tag))
  }

  lemma BlockFacts(tag: BlockTag, style: string, base: string)
    requires base == match DefaultFontSize(tag)
      case Some(size) => if Contains(style, FontSize) then style else style + FontSizeDecl(size)
      case None => style
    ensures DefaultFontSize(tag).Some? ==> Contains(AppendDecl(base, BlockBody(tag)), FontSize)
    ensures DefaultFontSize(tag).Some? && !Contains(style, FontSize) ==>
      Contains(AppendDecl(base, BlockBody(tag)), FontSize + ": " + DefaultFontSize(tag).value + ";")
    ensures StartsVisible(style) ==> StartsVisible(AppendDecl(base, BlockBody(tag)))
  {
    if DefaultFontSize(tag).Some? {
      if Contains(style, FontSize) {
        KeptSizeShown(style, BlockBody(tag));
      } else {
        DefaultSizeShown(style, DefaultFontSize(tag).value, BlockBody(tag));
      }
    }
  }

  lemma KeptSizeShown(style: string, body: string)
    requires IsDeclBody(body) && Contains(style, FontSize)
    ensures Contains(AppendDecl(style, body), FontSize)
  {
    ContainsAppend(style, "; " + body, FontSize);
    assert style + "; " + body == style + ("; " + body);
    ContainsDropLeading(style + "; " + body, FontSize);
  }

  /** A default size declaration survives into the block's style. */
  lemma DefaultSizeShown(style: string, size: string, body: string)
    requires IsDeclBody(body)
    ensures Contains(AppendDecl(style + FontSizeDecl(size), body), FontSize + ": " + size + ";")
    ensures Contains(AppendDecl(style + FontSizeDecl(size), body), FontSize)
    ensures style == [] ==> StartsVisible(AppendDecl(style + FontSizeDecl(size), body))
  {
    var decl := FontSize + ": " + size + ";";
    var full := style + FontSizeDecl(size) + "; " + body;
    assert FontSizeDecl(size) == "; " + decl;
    assert full == style + "; " + (decl + ("; " + body));
    assert full[|style| + 2..][..|decl|] == decl;
    assert OccursAt(full, decl, |style| + 2);
    assert decl[0] == 'f';
    ContainsDropLeading(full, decl);
    assert OccursAt(decl, FontSize, 0);
    ContainsWithin(DropLeadingSemicolon(full), decl, FontSize);
    if style == [] {
      assert full[1] == ' ' && full[2] == 'f';
      assert SkipSpace(full, 1) == 2;
    }
  }

  /** A block whose style names a font size keeps it: nothing but the kind's declarations is added. */
  lemma BlockKeepsFontSize(tag: BlockTag, style: string)
    requires Contains(style, FontSize) && StartsVisible(style)
    ensures BlockStyle(tag, style) == style + "; " + BlockBody(tag)
  {
  }

  /** Styling a block twice appends the kind's declarations a second time: the rule is not idempotent. */
  lemma BlockStyleNotIdempotent(tag: BlockTag, style: string)
    requires StartsVisible(style)
    ensures |BlockStyle(tag, BlockStyle(tag, style))| > |BlockStyle(tag, style)|
    ensures BlockStyle(tag, BlockStyle(tag, style)) != BlockStyle(tag, style)
  {
    var r := BlockStyle(tag, style);
    assert r != [] && StartsVisible(r);
    if DefaultFontSize(tag).Some? {
      assert Contains(r, FontSize);
    }
    assert BlockStyle(tag, r) == r + "; " + BlockBody(tag);
  }

  // ---------------------------------------------------------------- images

  /** A protocol-relative `src` (one starting with `//`) gets `https:`; anything else, or no `src`, stays. */
  function RouteImageSrc(src: Option<string>): (r: Option<string>)
    ensures r.None? <==> src.None?
    ensures r.Some? ==> !OccursAt(r.value, "//", 0)  || r == src
    ensures r.Some? ==> EndsWith(r.value, src.value)
  {
    match src
    case Some(s) =>
      if OccursAt(s, "//", 0) then
        assert ("https:" + s)[6..] == s;
        assert ("https:" + s)[0] == 'h';
        Some("https:" + s)
      else src
    case None => None
  }

  /** Fixing a `src` twice is fixing it once. */
  lemma RouteImageSrcIdempotent(src: Option<string>)
    ensures RouteImageSrc(RouteImageSrc(src)) == RouteImageSrc(src)
  {
    if src.Some? && OccursAt(src.value, "//", 0) {
      var r := "https:" + src.value;
      assert r[0] == 'h';
      assert !OccursAt(r, "//", 0);
    }
  }

  const MaxWidth := "max-width"
  const Height := "height"
  const Auto := "auto"

  /** The properties the route demands of an image style, looked for by substring as the route looks for them. */
  predicate IsRouteImageSafe(x: string) {
    && Contains(x, MaxWidth)
    && Contains(x, Height) && Contains(x, Auto)
    && Contains(x, Display)
    && Contains(x, Border)
  }

  const HeightDecl := "; " + Height + ": " + Auto + ";"

  /** The height step: `height: auto` unless both `height` and `auto` occur. */
  function AddHeight(x: string): (r: string)
    ensures x <= r
    ensures Contains(r, Height) && Contains(r, Auto)
    ensures Contains(x, Height) && Contains(x, Auto) ==> r == x
  {
    HeightFacts(x);
    if !Contains(x, Height) || !Contains(x, Auto) then x + HeightDecl else x
  }

  lemma HeightFacts(x: string)
    ensures Contains(x + HeightDecl, Height) && Contains(x + HeightDecl, Auto)
  {
    var d := HeightDecl;
    assert d[2..8] == Height;
    assert OccursAt(d, Height, 2);
    assert d[10..14] == Auto;
    assert OccursAt(d, Auto, 10);
    ContainsAfter(x, d, Auto, 10);
    ContainsAfter(x, d, Height, 2);
  }

  /**
   The route's own image style: `max-width: 100%`, `height: auto` (unless both words occur),
   `display: block` and `border: 0`, each appended only when its test fails, then the leading
   semicolon trimmed.
   */
  function RouteImageStyle(style: string): (r: string)
    ensures IsRouteImageSafe(r)
  {
    var a1 := AddIfAbsent(style, MaxWidth, "; " + MaxWidth + ": 100%;");
    var a2 := AddHeight(a1);
    var a3 := AddIfAbsent(a2, Display, "; " + Display + ": block;");
    var a4 := AddIfAbsent(a3, Border, "; " + Border + ": 0;");
    RouteStyleFacts(style);
    DropLeadingSemicolon(a4)
  }

  lemma RouteStyleFacts(style: string)
    ensures
      var a1 := AddIfAbsent(style, MaxWidth, "; " + MaxWidth + ": 100%;");
      var a2 := AddHeight(a1);
      var a3 := AddIfAbsent(a2, Display, "; " + Display + ": block;");
      var a4 := AddIfAbsent(a3, Border, "; " + Border + ": 0;");
      IsRouteImageSafe(DropLeadingSemicolon(a4))
  {
    var a1 := AddIfAbsent(style, MaxWidth, "; " + MaxWidth + ": 100%;");
    var a2 := AddHeight(a1);
    var a3 := AddIfAbsent(a2, Display, "; " + Display + ": block;");
    var a4 := AddIfAbsent(a3, Border, "; " + Border + ": 0;");
    SeparatedHas(MaxWidth, ": 100%;");
    SeparatedHas(Display, ": block;");
    SeparatedHas(Border, ": 0;");
    AddIfAbsentHas(style, MaxWidth, "; " + MaxWidth + ": 100%;");
    AddIfAbsentHas(a2, Display, "; " + Display + ": block;");
    AddIfAbsentHas(a3, Border, "; " + Border + ": 0;");
    WordSurvives(a1, a4, MaxWidth);
    WordSurvives(a2, a4, Height);
    WordSurvives(a2, a4, Auto);
    WordSurvives(a3, a4, Display);
    WordSurvives(a4, a4, Border);
  }

  /** A safe style that does not open with `;` is kept as it is. */
  lemma RouteImageStyleKeeps(style: string)
    requires IsRouteImageSafe(style) && StartsVisible(style)
    ensures RouteImageStyle(style) == style
  {
  }

  lemma RouteImageStyleIdempotent(style: string)
    requires StartsVisible(style)
    ensures RouteImageStyle(RouteImageStyle(style)) == RouteImageStyle(style)
  {
    var a1 := AddIfAbsent(style, MaxWidth, "; " + MaxWidth + ": 100%;");
    var a2 := AddHeight(a1);
    var a3 := AddIfAbsent(a2, Display, "; " + Display + ": block;");
    var a4 := AddIfAbsent(a3, Border, "; " + Border + ": 0;");
    assert a1 <= a4;
    if style == [] {
      assert a1 == "; " + MaxWidth + ": 100%;";
      assert a1[2] == 'm';
    }
    TrimStartsVisible(if style == [] then a1 else style, a4);
    RouteImageStyleKeeps(RouteImageStyle(style));
  }

  // ---------------------------------------------------------------- the final pass

  /** `font-weight\s*:\s*bold\s*;?` with the `i` flag. */
  function BoldWeightAt(s: string, p: nat): (r: Option<Hit>)
    ensures r.Some? ==> AtCI(s, p, "font-weight") && p < r.value.end <= |s|
  {
    if !AtCI(s, p, "font-weight") then None
    else
      var c := SkipSpace(s, p + 11);
      if c >= |s| || s[c] != ':' then None
      else
        var b := SkipSpace(s, c + 1);
        if !AtCI(s, b, "bold") then None
        else
          var e := SkipSpace(s, b + 4);
          Some(Hit(if e < |s| && s[e] == ';' then e + 1 else e, []))
  }

  /** The three substring tests that gate the upgrade to `!important`. */
  predicate WantsUpgrade(style: string) {
    Contains(style, "font-weight") && Contains(style, "bold") && !Contains(style, Important)
  }

  /** `font-weight: bold` becomes `font-weight: bold !important;` when no `!important` occurs anywhere. */
  function UpgradeBold(style: string): (r: string)
    ensures Contains(style, Important) ==> r == style
  {
    if WantsUpgrade(style) then ReplaceAll(style, BoldWeightAt, Fixed(BoldDecl)) else style
  }

  const LineHeightDecl := "; line-height: 1.6;"

  /**
   The final pass over `span`, `div` and `p`: an element with an empty style is left alone;
   otherwise the bold upgrade, then `line-height: 1.6` appended unless `line-height` occurs.
   */
  function FinalStyle(style: string): (r: string)
    ensures style == [] ==> r == []
    ensures style != [] ==> Contains(r, "line-height")
    ensures Contains(style, Important) ==> r == style || r == style + LineHeightDecl
    ensures Contains(style, "line-height") && !WantsUpgrade(style) ==> r == style
  {
    if style == [] then style
    else
      var n := UpgradeBold(style);
      LineHeightShown();
      if Contains(n, "line-height") then n
      else
        ContainsAfter(n, LineHeightDecl, "line-height", 2);
        n + LineHeightDecl
  }

  lemma LineHeightShown()
    ensures OccursAt(LineHeightDecl, "line-height", 2)
  {
  }

  /** No bold declaration starts anywhere in `s`. */
  predicate NoBoldWeight(s: string) {
    forall j :: 0 <= j < |s| ==> !ValidHit(s, j, BoldWeightAt(s, j))
  }

  /** A bold declaration in `x + t`, where `t` opens with `;`, that starts inside `x` is one of `x`. */
  lemma BoldWeightInPrefix(x: string, t: string, j: nat)
    requires t != [] && t[0] == ';' && j < |x|
    requires ValidHit(x + t, j, BoldWeightAt(x + t, j))
    ensures ValidHit(x, j, BoldWeightAt(x, j))
  {
    BoldWeightParts(x + t, j);
    BoldPartsInPrefix(x, t, j);
    BoldWeightFromParts(x, j);
  }

  /** `font-weight`, spaces, `:`, spaces and `bold` at `p`: what the bold pattern needs before its optional tail. */
  predicate BoldParts(s: string, p: nat) {
    && AtCI(s, p, "font-weight")
    && var c := SkipSpace(s, p + 11);
      c < |s| && s[c] == ':' && AtCI(s, SkipSpace(s, c + 1), "bold")
  }

  lemma BoldPartsInPrefix(x: string, t: string, j: nat)
    requires t != [] && t[0] == ';' && j < |x| && BoldParts(x + t, j)
    ensures BoldParts(x, j)
  {
    var c0 := BoldPartsOpen(x + t, j);
    BoldWordsLackSemicolon();
    AtCIBeforeSemicolon(x, t, j, "font-weight");
    var c := ColonInPrefix(x, t, j + 11, c0);
    WordAfterSpaceInPrefix(x, t, c, "bold");
    BoldPartsClose(x, j, c);
  }

  /** The colon position of a bold declaration, and what surrounds it. */
  lemma BoldPartsOpen(s: string, p: nat) returns (c: nat)
    requires BoldParts(s, p)
    ensures AtCI(s, p, "font-weight") && c == SkipSpace(s, p + 11)
    ensures c < |s| && s[c] == ':' && AtCI(s, SkipSpace(s, c + 1), "bold")
  {
    c := SkipSpace(s, p + 11);
  }

  lemma BoldPartsClose(s: string, p: nat, c: nat)
    requires AtCI(s, p, "font-weight") && c == SkipSpace(s, p + 11)
    requires c < |s| && s[c] == ':' && AtCI(s, SkipSpace(s, c + 1), "bold")
    ensures BoldParts(s, p)
  {
  }

  lemma BoldWordsLackSemicolon()
    ensures Lacks("font-weight", ';') && Lacks("bold", ';')
  {
  }

  /** Spaces then a word without `;` after position `c` of `x + t`, where `t` opens with `;`, lie inside `x`. */
  lemma WordAfterSpaceInPrefix(x: string, t: string, c: nat, w: string)
    requires t != [] && t[0] == ';' && c < |x| && Lacks(w, ';')
    requires AtCI(x + t, SkipSpace(x + t, c + 1), w)
    ensures AtCI(x, SkipSpace(x, c + 1), w)
  {
    SkipSpaceExtend(x, t, c + 1);
    AtCIBeforeSemicolon(x, t, SkipSpace(x, c + 1), w);
  }

  /** Spaces then `:` in `x + t`, where `t` opens with `;`, lie inside `x`. */
  lemma ColonInPrefix(x: string, t: string, from: nat, c0: nat) returns (c: nat)
    requires t != [] && t[0] == ';' && from <= |x|
    requires c0 == SkipSpace(x + t, from) && c0 < |x + t| && (x + t)[c0] == ':'
    ensures c == SkipSpace(x, from) == c0
    ensures c < |x| && x[c] == ':'
  {
    var y := x + t;
    assert y[|x|] == ';';
    SkipSpaceExtend(x, t, from);
    c := SkipSpace(x, from);
    if c == |x| {
      assert false;
    }
    assert y[c] == x[c];
  }

  lemma BoldWeightParts(s: string, p: nat)
    requires ValidHit(s, p, BoldWeightAt(s, p))
    ensures BoldParts(s, p)
  {
  }

  lemma BoldWeightFromParts(s: string, p: nat)
    requires BoldParts(s, p)
    ensures ValidHit(s, p, BoldWeightAt(s, p))
  {
    var c := SkipSpace(s, p + 11);
    var b := SkipSpace(s, c + 1);
    var e := SkipSpace(s, b + 4);
    assert BoldWeightAt(s, p) == Some(Hit(if e < |s| && s[e] == ';' then e + 1 else e, []));
  }

  /** A case-insensitive word without `;` found in `x + t`, where `t` opens with `;`, lies inside `x`. */
  lemma AtCIBeforeSemicolon(x: string, t: string, j: nat, w: string)
    requires t != [] && t[0] == ';' && j <= |x| && Lacks(w, ';') && AtCI(x + t, j, w)
    ensures j + |w| <= |x| && AtCI(x, j, w)
  {
    var y := x + t;
    assert y[|x|] == ';';
    if j + |w| > |x| {
      AtCIChar(y, j, w, |x| - j);
      assert false;
    }
    assert y[j..j + |w|] == x[j..j + |w|];
  }

  /** `LineHeightDecl` holds no `f` in either case. */
  lemma LineHeightHasNoF()
    ensures Lacks(LineHeightDecl, 'f') && Lacks(LineHeightDecl, 'F')
  {
  }

  /** Appending the line-height declaration creates no bold declaration. */
  lemma NoBoldWeightAppend(x: string)
    requires NoBoldWeight(x)
    ensures NoBoldWeight(x + LineHeightDecl)
  {
    var y := x + LineHeightDecl;
    LineHeightHasNoF();
    forall j | 0 <= j < |y|
      ensures !ValidHit(y, j, BoldWeightAt(y, j))
    {
      if j < |x| {
        if ValidHit(y, j, BoldWeightAt(y, j)) {
          BoldWeightInPrefix(x, LineHeightDecl, j);
          assert false;
        }
      } else {
        assert y[j] == LineHeightDecl[j - |x|];
        if AtCI(y, j, "font-weight") {
          AtCIChar(y, j, "font-weight", 0);
          assert false;
        }
      }
    }
  }

  /** Appending the line-height declaration creates none of the words the upgrade tests. */
  lemma AppendKeepsAbsent(x: string, w: string, k: nat)
    requires !Contains(x, w) && k < |w| && Lacks(LineHeightDecl, w[k]) && Lacks(w, ';')
    ensures !Contains(x + LineHeightDecl, w)
  {
    NoCharNoOccurrence(LineHeightDecl, w, k);
    AppendNoNewOccurrence(x, LineHeightDecl, w);
  }

  /** An upgrade that found a bold declaration leaves an `!important` behind. */
  lemma UpgradeShowsImportant(style: string, j: nat)
    requires WantsUpgrade(style) && j < |style| && ValidHit(style, j, BoldWeightAt(style, j))
    ensures Contains(UpgradeBold(style), Important)
  {
    var n := UpgradeBold(style);
    ReplaceAllFixedShows(style, BoldWeightAt, BoldDecl, j);
    BoldDeclShowsImportant();
    ContainsWithin(n, BoldDecl, Important);
  }

  lemma BoldDeclShowsImportant()
    ensures Contains(BoldDecl, Important)
  {
    var head := "font-weight" + ":" + " bold ";
    assert BoldDecl == head + (Important + ";");
    assert OccursAt(Important + ";", Important, 0);
    ContainsAfter(head, Important + ";", Important, 0);
  }

  /** After the final pass the upgrade can no longer fire, or fires on nothing. */
  lemma FinalLeavesNothingToUpgrade(style: string)
    requires style != []
    ensures
      var y := FinalStyle(style);
      !WantsUpgrade(y) || NoBoldWeight(y)
  {
    var n := UpgradeBold(style);
    var y := FinalStyle(style);
    assert y == n || y == n + LineHeightDecl;
    if WantsUpgrade(style) && NoBoldWeight(style) {
      ReplaceAllWithoutMatches(style, BoldWeightAt, Fixed(BoldDecl));
      if y != n {
        NoBoldWeightAppend(style);
      }
    } else if WantsUpgrade(style) {
      var j :| 0 <= j < |style| && ValidHit(style, j, BoldWeightAt(style, j));
      UpgradeShowsImportant(style, j);
      if y != n {
        ContainsAppend(n, LineHeightDecl, Important);
      }
    } else if Contains(style, Important) {
      if y != n {
        ContainsAppend(n, LineHeightDecl, Important);
      }
    } else if !Contains(style, "font-weight") {
      if y != n {
        AppendKeepsAbsent(style, "font-weight", 0);
      }
    } else {
      if y != n {
        AppendKeepsAbsent(style, "bold", 0);
      }
    }
  }

  /** The final pass applied twice equals the final pass applied once. */
  lemma FinalStyleIdempotent(style: string)
    ensures FinalStyle(FinalStyle(style)) == FinalStyle(style)
  {
    if style != [] {
      var y := FinalStyle(style);
      FinalLeavesNothingToUpgrade(style);
      if WantsUpgrade(y) {
        ReplaceAllWithoutMatches(y, BoldWeightAt, Fixed(BoldDecl));
      }
      assert UpgradeBold(y) == y;
    }
  }
}
