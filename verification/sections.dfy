/**
 The two whole-string passes the convert route runs over the serialised body after the
 per-element rules: a visible divider in front of everything Google Docs exports as a page
 break, and extra top margins where a paragraph, heading or list directly follows another
 block.
 */
module SectionSpacing {
  import opened Base
  import opened Text
  import opened Scan

  predicate IsGt(c: char) { c == '>' }
  predicate IsQuote(c: char) { c == '"' }

  // ------------------------------------------------------------------ page breaks

  /** The divider put in front of a page break: an empty div with a grey bottom border. */
  const Divider: string :=
    "<div style=\"" + "margin: 40px 0; " + "border-bottom: " + "1px solid #e0e0e0; "
    + "padding-bottom: " + "20px;\">" + "</div>"

  /** What a styled page-break pattern looks for inside the first quoted `style` value. */
  datatype StyleTest = PageBreakStyle | LargeMargin(side: Side)

  datatype Side = Top | Bottom

  function MarginName(side: Side): string {
    match side
    case Top => "margin-top:"
    case Bottom => "margin-bottom:"
  }

  /** The seven page-break patterns, all global and case-insensitive. */
  datatype BreakPattern =
    | DivWith(word: string)    // `<div[^>]*WORD[^>]*>`
    | StyledDiv(test: StyleTest) // `<div[^>]*style="[^"]*TEST[^"]*"[^>]*>`
    | BrRun                    // `(<br[^>]*>\s*){3,}`

  const BreakPatterns: seq<BreakPattern> := [
    DivWith("page-break"), DivWith("break-before"), DivWith("break-after"),
    StyledDiv(PageBreakStyle), BrRun,
    StyledDiv(LargeMargin(Top)), StyledDiv(LargeMargin(Bottom))
  ]

  /** The tag from `p` to the first `>` after it ends at `e`. */
  predicate TagAt(s: string, p: nat, e: nat) {
    p < e <= |s| && s[e - 1] == '>' && forall j :: p <= j < e - 1 ==> s[j] != '>'
  }

  /** `AtCI` seen through a slice that holds the whole occurrence. */
  lemma AtCISlice(s: string, a: nat, b: nat, q: nat, w: string)
    requires a <= q && q + |w| <= b <= |s|
    ensures AtCI(s, q, w) <==> AtCI(s[a..b], q - a, w)
  {
    var x := s[a..b][q - a..q - a + |w|];
    var y := s[q..q + |w|];
    forall k | 0 <= k < |w|
      ensures x[k] == y[k]
    {
    }
    assert x == y;
  }

  /**
   `<div[^>]*WORD[^>]*>`: neither `[^>]*` can pass a `>`, so this is the `<div` tag up to its first
   `>`, with WORD (ignoring case) somewhere inside it.
   */
  function DivWithAt(word: string, s: string, p: nat): (r: Option<Hit>)
    requires Lacks(word, '>')
    ensures r.Some? ==> AtCI(s, p, "<div") && TagAt(s, p, r.value.end) && p + 4 < r.value.end
    ensures r.Some? ==> ContainsCI(s[p + 4..r.value.end - 1], word)
    ensures forall e: nat ::
      (AtCI(s, p, "<div") && TagAt(s, p, e) && p + 4 < e && ContainsCI(s[p + 4..e - 1], word)) ==> r == Some(Hit(e, []))
  {
    if !AtCI(s, p, "<div") then None
    else
      var g := FindChar(s, p + 4, IsGt);
      match IndexOfCIFrom(s, word, p + 4)
      case Some(q) =>
        if g < |s| && q + |word| <= g then
          AtCISlice(s, p + 4, g, q, word);
          Some(Hit(g + 1, []))
        else
          if g < |s| then
            NoOccurrenceBefore(s, word, p + 4, g, Some(q));
            DivWithMisses(word, s, p, g);
            None
          else
            DivWithMisses(word, s, p, g);
            None
      case None =>
        DivWithMisses(word, s, p, g);
        None
  }

  /** No case-insensitive occurrence of a word without `>` covers a `>`. */
  lemma NoWordOverGt(s: string, g: nat, word: string)
    requires g < |s| && s[g] == '>' && Lacks(word, '>')
    ensures forall q :: q <= g < q + |word| ==> !AtCI(s, q, word)
  {
    forall q | q <= g < q + |word| && AtCI(s, q, word)
      ensures false
    {
      AtCIChar(s, q, word, g - q);
    }
  }

  /** The first `>` from `p + 4` is the end of any tag starting at `p`. */
  lemma TagEndFound(s: string, p: nat, e: nat)
    requires TagAt(s, p, e) && p + 4 < e
    ensures FindChar(s, p + 4, IsGt) == e - 1
  {
    FindCharIs(s, p + 4, IsGt, e - 1);
  }

  /** No occurrence inside `[a, b)` of the whole string means none in the slice. */
  lemma NoneInSlice(s: string, a: nat, b: nat, word: string)
    requires a <= b <= |s|
    requires forall q :: a <= q && q + |word| <= b ==> !AtCI(s, q, word)
    ensures !ContainsCI(s[a..b], word)
  {
    forall i | 0 <= i <= b - a
      ensures !AtCI(s[a..b], i, word)
    {
      if i + |word| <= b - a {
        AtCISlice(s, a, b, a + i, word);
      } else {
        AtCITooLong(s[a..b], i, word);
      }
    }
  }

  lemma NoOccurrenceBefore(s: string, word: string, from: nat, g: nat, found: Option<nat>)
    requires found == IndexOfCIFrom(s, word, from) && g < |s|
    requires found.Some? ==> !(found.value + |word| <= g)
    ensures forall q :: from <= q && q + |word| <= g ==> !AtCI(s, q, word)
  {
    forall q | from <= q && q + |word| <= g
      ensures !AtCI(s, q, word)
    {
      NoEarlyOccurrence(s, word, from, q, g, found);
    }
  }

  /** An occurrence ending by `g` would have been found by the search, which found none that early. */
  lemma NoEarlyOccurrence(s: string, word: string, from: nat, q: nat, g: nat, found: Option<nat>)
    requires found == IndexOfCIFrom(s, word, from) && from <= q && q + |word| <= g < |s|
    requires found.Some? ==> !(found.value + |word| <= g)
    ensures !AtCI(s, q, word)
  {
  }

  /** Any case-insensitive occurrence at or after `from` lies at or after the first one. */
  lemma FirstCIOccurrence(s: string, word: string, from: nat, q: nat, found: Option<nat>)
    requires found == IndexOfCIFrom(s, word, from) && from <= q
    ensures AtCI(s, q, word) ==> found.Some? && found.value <= q
  {
  }

  lemma DivWithMisses(word: string, s: string, p: nat, g: nat)
    requires p + 4 <= |s| && g == FindChar(s, p + 4, IsGt)
    requires g < |s| ==> forall q :: p + 4 <= q && q + |word| <= g ==> !AtCI(s, q, word)
    ensures forall e: nat :: !(TagAt(s, p, e) && p + 4 < e && ContainsCI(s[p + 4..e - 1], word))
  {
    forall e: nat | TagAt(s, p, e) && p + 4 < e
      ensures !ContainsCI(s[p + 4..e - 1], word)
    {
      TagEndFound(s, p, e);
      NoneInSlice(s, p + 4, e - 1, word);
    }
  }

  /** `margin-SIDE:\s*[4-9]\d+px`: a first digit from 4 to 9 followed by at least one more digit. */
  function LargeMarginAt(side: Side, s: string, q: nat): (r: Option<Hit>)
    ensures r.Some? ==> q < r.value.end <= |s|
  {
    var name := MarginName(side);
    if !AtCI(s, q, name) then None
    else
      var w := SkipSpace(s, q + |name|);
      if w < |s| && '4' <= s[w] <= '9' then
        var d := FindChar(s, w + 1, NotDigit);
        if d > w + 1 && AtCI(s, d, "px") then Some(Hit(d + 2, [])) else None
      else None
  }

  /** The test inside the quoted style value, as a pattern of its own. */
  function StyleTestAt(test: StyleTest, s: string, q: nat): (r: Option<Hit>)
    ensures r.Some? ==> q < r.value.end <= |s|
  {
    match test
    case PageBreakStyle => if AtCI(s, q, "page-break") then Some(Hit(q + 10, [])) else None
    case LargeMargin(side) => LargeMarginAt(side, s, q)
  }

  function TestMatcher(test: StyleTest): Matcher {
    (x: string, q: nat) => StyleTestAt(test, x, q)
  }

  /**
   `style="[^"]*TEST[^"]*"[^>]*>` at `st`: the test must start inside the value, before its closing
   quote (a match of the test holds no quote, so it then also ends inside), and the match runs on to
   the first `>` after that quote.
   */
  function StyleValueAt(test: StyleTest, s: string, st: nat): (r: Option<Hit>)
    ensures r.Some? ==> st < r.value.end <= |s|
  {
    if !AtCI(s, st, "style=\"") then None
    else
      var close := FindChar(s, st + 7, IsQuote);
      var inner := FirstMatchFrom(s, st + 7, TestMatcher(test));
      if close < |s| && inner.Some? && inner.value < close then
        var g := FindChar(s, close + 1, IsGt);
        if g < |s| then Some(Hit(g + 1, [])) else None
      else None
  }

  /** The greedy `[^>]*` before `style="` gives characters back one at a time: the rightmost start that works wins. */
  function LastStyleValue(test: StyleTest, s: string, lo: nat, st: nat): (r: Option<Hit>)
    requires lo <= st
    decreases st - lo
    ensures r.Some? ==> lo < r.value.end <= |s|
  {
    match StyleValueAt(test, s, st)
    case Some(h) => Some(h)
    case None => if st == lo then None else LastStyleValue(test, s, lo, st - 1)
  }

  function StyledDivAt(test: StyleTest, s: string, p: nat): (r: Option<Hit>)
    ensures r.Some? ==> AtCI(s, p, "<div") && p < r.value.end <= |s|
  {
    if !AtCI(s, p, "<div") then None
    else LastStyleValue(test, s, p + 4, FindChar(s, p + 4, IsGt))
  }

  /** One round of `<br[^>]*>\s*` at `p`: where it ends. */
  function BrRoundAt(s: string, p: nat): (r: Option<nat>)
    ensures r.Some? ==> p < r.value <= |s|
  {
    if !AtCI(s, p, "<br") then None
    else
      var g := FindChar(s, p + 3, IsGt);
      if g < |s| then Some(SkipSpace(s, g + 1)) else None
  }

  /** As many rounds as follow each other from `p`, and where the last one ends. */
  function BrRounds(s: string, p: nat): (r: (nat, nat))
    requires p <= |s|
    decreases |s| - p
    ensures p <= r.1 <= |s| && (r.0 > 0 ==> p < r.1)
    ensures r.0 == 0 <==> BrRoundAt(s, p).None?
  {
    match BrRoundAt(s, p)
    case Some(e) =>
      var rest := BrRounds(s, e);
      (rest.0 + 1, rest.1)
    case None => (0, p)
  }

  /** `(<br[^>]*>\s*){3,}`: at least three line breaks in a row (a round that fails half-way is given back). */
  function BrRunAt(s: string, p: nat): (r: Option<Hit>)
    ensures r.Some? ==> p < r.value.end <= |s|
    ensures r.Some? ==> BrRounds(s, p).0 >= 3
  {
    if p > |s| then None
    else
      var rounds := BrRounds(s, p);
      if rounds.0 >= 3 then Some(Hit(rounds.1, [])) else None
  }

  function BreakAt(pat: BreakPattern, s: string, p: nat): Option<Hit> {
    match pat
    case DivWith(word) => if Lacks(word, '>') then DivWithAt(word, s, p) else None
    case StyledDiv(test) => StyledDivAt(test, s, p)
    case BrRun => BrRunAt(s, p)
  }

  function BreakMatcher(pat: BreakPattern): Matcher {
    (x: string, p: nat) => BreakAt(pat, x, p)
  }

  /** The replacement callback `(match) => divider + match`. */
  function DividerFirst(d: string): Replacer {
    (x: string, i: nat, t: string, g: seq<string>) => d + t
  }

  /**
   One page-break pattern: every match gets the divider in front and is itself kept. The divider is
   a parameter so that its being the only addition can be stated: without it the pass is the
   identity, and the text grows by one divider per match.
   */
  function MarkBreak(html: string, pat: BreakPattern, d: string): (r: string)
    ensures |r| == |html| + |d| * MatchCount(ScanFrom(html, 0, BreakMatcher(pat)))
    ensures d == [] ==> r == html
  {
    var r := ReplaceAll(html, BreakMatcher(pat), DividerFirst(d));
    ReplaceAllPrefixedLength(html, BreakMatcher(pat), DividerFirst(d), d);
    if d == [] then
      assert forall st, t, g :: DividerFirst(d)(html, st, t, g) == t;
      ReplaceAllKeeps(html, BreakMatcher(pat), DividerFirst(d));
      r
    else r
  }

  function MarkBreaks(html: string, pats: seq<BreakPattern>, d: string): (r: string)
    decreases |pats|
    ensures |r| >= |html|
    ensures d == [] ==> r == html
  {
    if pats == [] then html
    else
      MarkBreakGrows(html, pats[0], d);
      MarkBreaks(MarkBreak(html, pats[0], d), pats[1..], d)
  }

  lemma MarkBreakGrows(html: string, pat: BreakPattern, d: string)
    ensures |MarkBreak(html, pat, d)| >= |html|
  {
    var n := MatchCount(ScanFrom(html, 0, BreakMatcher(pat)));
    assert |d| * n >= 0;
  }

  /** The page-break pass of the route: the seven patterns in order, each with the fixed divider. */
  function MarkPageBreaks(html: string): string {
    MarkBreaks(html, BreakPatterns, Divider)
  }

  /** A `<div …>` tag that mentions the word is marked as a whole. */
  lemma DivTagMarked(word: string, a: string, b: string, d: string)
    requires Lacks(word, '>') && Lacks(a, '>') && Lacks(b, '>') && Lower(word) == word
    ensures MarkBreak("<div" + a + word + b + ">", DivWith(word), d) == d + "<div" + a + word + b + ">"
  {
    var t := "<div" + a + word + b + ">";
    DivTagMatched(word, a, b);
    ReplaceAllWhole(t, BreakMatcher(DivWith(word)), DividerFirst(d), []);
  }

  lemma DivTagMatched(word: string, a: string, b: string)
    requires Lacks(word, '>') && Lacks(a, '>') && Lacks(b, '>') && Lower(word) == word
    ensures var t := "<div" + a + word + b + ">";
      BreakMatcher(DivWith(word))(t, 0) == Some(Hit(|t|, []))
  {
    var t := "<div" + a + word + b + ">";
    var e := |t|;
    assert t[..4] == "<div";
    assert t[4..e - 1] == a + word + b;
    assert OccursAt(t[4..e - 1], word, |a|);
    assert AtCI(t[4..e - 1], |a|, word);
    DivTagCloses(word, a, b);
    assert TagAt(t, 0, e);
  }

  /** The only `>` of `<div…>` is its last character. */
  lemma DivTagCloses(word: string, a: string, b: string)
    requires Lacks(word, '>') && Lacks(a, '>') && Lacks(b, '>')
    ensures var t := "<div" + a + word + b + ">";
      t[|t| - 1] == '>' && forall j | 0 <= j < |t| - 1 :: t[j] != '>'
  {
    var t := "<div" + a + word + b + ">";
    var m := a + word + b;
    assert t == "<div" + m + ">";
    forall j | 0 <= j < |t| - 1
      ensures t[j] != '>'
    {
      if j >= 4 {
        assert t[j] == m[j - 4];
        if j < 4 + |a| {
          assert m[j - 4] == a[j - 4];
        } else if j < 4 + |a| + |word| {
          assert m[j - 4] == word[j - 4 - |a|];
        } else {
          assert m[j - 4] == b[j - 4 - |a| - |word|];
        }
      }
    }
  }

  /**
   `margin-SIDE:` followed by a whole number of pixels is a page break exactly when the number has
   two or more digits and starts with 4 to 9: `40px` and `450px` count, `100px` to `399px` do not.
   */
  /** `margin-SIDE:` then spaces: the name is there and the whitespace run stops at the first digit. */
  lemma MarginNameThenSpace(side: Side, sp: string, ds: string, rest: string)
    requires AllSpace(sp) && |ds| >= 1 && IsDigit(ds[0])
    ensures var s := MarginName(side) + sp + ds + rest;
      AtCI(s, 0, MarginName(side)) && SkipSpace(s, |MarginName(side)|) == |MarginName(side)| + |sp|
      && s[|MarginName(side)| + |sp|] == ds[0]
  {
    var name := MarginName(side);
    var s := name + sp + ds + rest;
    var w := |name| + |sp|;
    assert s[..|name|] == name;
    assert s[w] == ds[0];
    forall j | |name| <= j < w
      ensures IsSpace(s[j])
    {
      assert s[j] == sp[j - |name|];
    }
    FindCharIs(s, |name|, c => !IsSpace(c), w);
  }

  /** The digit run after the first digit ends where `px` starts. */
  lemma DigitsThenPx(x: string, ds: string, rest: string)
    requires |ds| >= 1 && forall k :: 0 <= k < |ds| ==> IsDigit(ds[k])
    ensures var s := x + ds + "px" + rest;
      FindChar(s, |x| + 1, NotDigit) == |x| + |ds| && AtCI(s, |x| + |ds|, "px")
  {
    DigitRunEnds(x, ds, rest);
    PxAfter(x + ds, rest);
  }

  lemma PxAfter(x: string, rest: string)
    ensures AtCI(x + "px" + rest, |x|, "px")
  {
    var s := x + "px" + rest;
    assert s[|x|..|x| + 2] == "px";
    OccursAtCI(s, |x|, "px");
  }

  lemma DigitRunEnds(x: string, ds: string, rest: string)
    requires |ds| >= 1 && forall k :: 0 <= k < |ds| ==> IsDigit(ds[k])
    ensures FindChar(x + ds + "px" + rest, |x| + 1, NotDigit) == |x| + |ds|
  {
    var tail := "px" + rest;
    var s := x + ds + tail;
    assert x + ds + "px" + rest == s;
    var d := |x| + |ds|;
    forall j | |x| + 1 <= j < d
      ensures IsDigit(s[j])
    {
      assert s[j] == ds[j - |x|];
    }
    assert s[d] == tail[0] == 'p';
    FindCharIs(s, |x| + 1, NotDigit, d);

  }

  /**
   `margin-SIDE:` followed by a whole number of pixels is a page break exactly when the number has
   two or more digits and starts with 4 to 9: `40px` and `450px` count, `100px` to `399px` do not.
   */
  lemma LargeMarginThreshold(side: Side, sp: string, ds: string, rest: string)
    requires AllSpace(sp) && |ds| >= 1 && forall k :: 0 <= k < |ds| ==> IsDigit(ds[k])
    ensures LargeMarginAt(side, MarginName(side) + sp + ds + "px" + rest, 0).Some?
      <==> (|ds| >= 2 && ds[0] >= '4')
  {
    var name := MarginName(side);
    MarginNameThenSpace(side, sp, ds, "px" + rest);
    assert name + sp + ds + "px" + rest == name + sp + ds + ("px" + rest);
    DigitsThenPx(name + sp, ds, rest);
  }

  // ------------------------------------------------------------------ adjacent blocks

  /** ` style="DECLS"`: the attribute the adjacency rules insert right after a tag name. */
  function StyleAttr(decls: string): string {
    " style=\"" + decls + "\""
  }

  const ParaGap: string := StyleAttr("margin-top: 20px;")
  const HeadingGap: string := StyleAttr("margin-top: 35px; " + "margin-bottom: 15px;")
  const ListParaGap: string := StyleAttr("margin-top: 25px;")
  const ParaListGap: string := StyleAttr("margin-top: 20px;")

  /** `CLOSE\s*OPEN[^>]*>` under the `i` flag: a closing tag, whitespace, and the next tag up to its `>`. */
  function PairAt(close: string, open: string, s: string, p: nat): (r: Option<Hit>)
    ensures r.Some? ==> p < r.value.end <= |s| && AtCI(s, p, close)
  {
    if |close| == 0 || !AtCI(s, p, close) then None
    else
      var w := SkipSpace(s, p + |close|);
      if !AtCI(s, w, open) then None
      else
        var g := FindChar(s, w + |open|, IsGt);
        if g < |s| then Some(Hit(g + 1, [])) else None
  }

  /** `<\/h[1-6]>\s*<h[1-6][^>]*>` under the `i` flag. */
  function HeadingPairAt(s: string, p: nat): (r: Option<Hit>)
    ensures r.Some? ==> p < r.value.end <= |s|
  {
    if !HeadingCloseAt(s, p) then None
    else
      var w := SkipSpace(s, p + 5);
      if !HeadingStartAt(s, w) then None
      else
        var g := FindChar(s, w + 3, IsGt);
        if g < |s| then Some(Hit(g + 1, [])) else None
  }

  /** `<\/h[1-6]>` under the `i` flag. */
  predicate HeadingCloseAt(s: string, p: nat) {
    AtCI(s, p, "</h") && p + 4 < |s| && '1' <= s[p + 3] <= '6' && s[p + 4] == '>'
  }

  /** `<h[1-6]` under the `i` flag. */
  predicate HeadingStartAt(s: string, w: nat) {
    AtCI(s, w, "<h") && w + 2 < |s| && '1' <= s[w + 2] <= '6'
  }

  /** `<h([1-6])([^>]*)>`, case-sensitive: the level and the attributes of a heading's opening tag. */
  function HeadingOpenAt(s: string, p: nat): (r: Option<Hit>)
    ensures r.Some? ==> p < r.value.end <= |s| && |r.value.groups| == 2
    ensures r.Some? ==> s[p..r.value.end] == "<h" + r.value.groups[0] + r.value.groups[1] + ">"
  {
    if !(OccursAt(s, "<h", p) && p + 2 < |s| && '1' <= s[p + 2] <= '6') then None
    else
      var g := FindChar(s, p + 3, IsGt);
      if g < |s| then
        assert s[p..g + 1] == s[p..p + 2] + [s[p + 2]] + s[p + 3..g] + [s[g]];
        Some(Hit(g + 1, [[s[p + 2]], s[p + 3..g]]))
      else None
  }

  /** `<(ul|ol)`, case-sensitive. */
  function ListOpenAt(s: string, p: nat): (r: Option<Hit>)
    ensures r.Some? ==> r.value.end == p + 3 <= |s| && |r.value.groups| == 1
    ensures r.Some? ==> s[p..p + 3] == "<" + r.value.groups[0]
  {
    if OccursAt(s, "<ul", p) then Some(Hit(p + 3, [s[p + 1..p + 3]]))
    else if OccursAt(s, "<ol", p) then Some(Hit(p + 3, [s[p + 1..p + 3]]))
    else None
  }

  function HeadingOpenMatcher(): Matcher {
    (y: string, q: nat) => HeadingOpenAt(y, q)
  }

  function ListOpenMatcher(): Matcher {
    (y: string, q: nat) => ListOpenAt(y, q)
  }

  function ParaPairMatcher(): Matcher {
    (x: string, p: nat) => PairAt("</p>", "<p", x, p)
  }

  function HeadingPairMatcher(): Matcher {
    (x: string, p: nat) => HeadingPairAt(x, p)
  }

  /** `(<\/ul>\s*<p[^>]*>)|(<\/ol>\s*<p[^>]*>)`. */
  function ListParaMatcher(): Matcher {
    (x: string, p: nat) => if PairAt("</ul>", "<p", x, p).Some? then PairAt("</ul>", "<p", x, p) else PairAt("</ol>", "<p", x, p)
  }

  /** `(<\/p>\s*<ul[^>]*>)|(<\/p>\s*<ol[^>]*>)`. */
  function ParaListMatcher(): Matcher {
    (x: string, p: nat) => if PairAt("</p>", "<ul", x, p).Some? then PairAt("</p>", "<ul", x, p) else PairAt("</p>", "<ol", x, p)
  }

  /** `match.replace("<p", "<p" + ins)`: the first lower-case `<p` of the match. */
  function OpenParaWith(ins: string): Replacer {
    (x: string, i: nat, t: string, g: seq<string>) => ReplaceFirstLiteral(t, "<p", "<p" + ins)
  }

  /** `match.replace(/<h([1-6])([^>]*)>/, (m, level, attrs) => "<h" + level + ins + attrs + ">")`. */
  function OpenHeadingWith(ins: string): Replacer {
    (x: string, i: nat, t: string, g: seq<string>) =>
      ReplaceFirstMatch(t, HeadingOpenMatcher(),
        (y: string, j: nat, u: string, hg: seq<string>) => "<h" + Group(hg, 1) + ins + Group(hg, 2) + ">")
  }

  /** `match.replace(/<(ul|ol)/, "<$1" + ins)`: a replacement string, so `$1` is the list tag. */
  function OpenListWith(ins: string): Replacer {
    (x: string, i: nat, t: string, g: seq<string>) => ReplaceFirstWith(t, ListOpenMatcher(), "<$1" + ins)
  }

  /** `</p>` then `<p…>`: the second paragraph gets `ins` after its tag name. */
  function ParaAfterPara(html: string, ins: string): (r: string)
    ensures ins == [] ==> r == html
  {
    if ins == [] then
      forall st, t, g ensures OpenParaWith(ins)(html, st, t, g) == t {
        assert "<p" + ins == "<p";
        ReplaceFirstLiteralSame(t, "<p");
      }
      ReplaceAllKeeps(html, ParaPairMatcher(), OpenParaWith(ins));
      ReplaceAll(html, ParaPairMatcher(), OpenParaWith(ins))
    else ReplaceAll(html, ParaPairMatcher(), OpenParaWith(ins))
  }

  lemma HeadingOpenKeeps(x: string, i: nat, t: string, g: seq<string>)
    ensures OpenHeadingWith([])(x, i, t, g) == t
  {
    match FirstMatchFrom(t, 0, HeadingOpenMatcher())
    case Some(j) =>
      var h := HeadingOpenAt(t, j).value;
      assert t == t[..j] + t[j..h.end] + t[h.end..];
    case None =>
  }

  /** Two adjacent headings: the second gets `ins` after its level. */
  function HeadingAfterHeading(html: string, ins: string): (r: string)
    ensures ins == [] ==> r == html
  {
    if ins == [] then
      forall st, t, g ensures OpenHeadingWith(ins)(html, st, t, g) == t {
        HeadingOpenKeeps(html, st, t, g);
      }
      ReplaceAllKeeps(html, HeadingPairMatcher(), OpenHeadingWith(ins));
      ReplaceAll(html, HeadingPairMatcher(), OpenHeadingWith(ins))
    else ReplaceAll(html, HeadingPairMatcher(), OpenHeadingWith(ins))
  }

  /** A list closes and a paragraph opens: the paragraph gets `ins`. */
  function ParaAfterList(html: string, ins: string): (r: string)
    ensures ins == [] ==> r == html
  {
    if ins == [] then
      forall st, t, g ensures OpenParaWith(ins)(html, st, t, g) == t {
        assert "<p" + ins == "<p";
        ReplaceFirstLiteralSame(t, "<p");
      }
      ReplaceAllKeeps(html, ListParaMatcher(), OpenParaWith(ins));
      ReplaceAll(html, ListParaMatcher(), OpenParaWith(ins))
    else ReplaceAll(html, ListParaMatcher(), OpenParaWith(ins))
  }

  lemma ListOpenKeeps(x: string, i: nat, t: string, g: seq<string>)
    ensures OpenListWith([])(x, i, t, g) == t
  {
    assert "<$1" + [] == "<$1";
    match FirstMatchFrom(t, 0, ListOpenMatcher())
    case Some(j) =>
      var h := ListOpenAt(t, j).value;
      var name := h.groups[0];
      assert "<$1" == "<" + "$1";
      assert Substitute("$1", t[j..j + 3], t[..j], t[j + 3..], h.groups) == name;
      SubstituteLiteralPrefix("<", "$1", t[j..j + 3], t[..j], t[j + 3..], h.groups);
      assert t == t[..j] + t[j..j + 3] + t[j + 3..];
    case None =>
  }

  /** A paragraph closes and a list opens: the list gets `ins`. */
  function ListAfterPara(html: string, ins: string): (r: string)
    ensures ins == [] ==> r == html
  {
    if ins == [] then
      forall st, t, g ensures OpenListWith(ins)(html, st, t, g) == t {
        ListOpenKeeps(html, st, t, g);
      }
      ReplaceAllKeeps(html, ParaListMatcher(), OpenListWith(ins));
      ReplaceAll(html, ParaListMatcher(), OpenListWith(ins))
    else ReplaceAll(html, ParaListMatcher(), OpenListWith(ins))
  }

  /** The four adjacency passes in the route's order, each with its own margins. */
  function SpaceAdjacentBlocks(html: string): string {
    ListAfterPara(ParaAfterList(HeadingAfterHeading(ParaAfterPara(html, ParaGap), HeadingGap), ListParaGap), ParaListGap)
  }

  // ------------------------------------------------------------------ what the adjacency passes do

  /** `[^>]*>` over attributes without `>` stops at the closing `>`. */
  lemma GtCloses(x: string, attrs: string, y: string)
    requires Lacks(attrs, '>')
    ensures FindChar(x + attrs + ">" + y, |x|, IsGt) == |x| + |attrs|
  {
    var s := x + attrs + ">" + y;
    forall j | |x| <= j < |x| + |attrs|
      ensures !IsGt(s[j])
    {
      assert s[j] == attrs[j - |x|];
    }
    assert s[|x| + |attrs|] == '>';
    FindCharIs(s, |x|, IsGt, |x| + |attrs|);
  }

  /** A character that lower-cases to something else rules a case-insensitive occurrence out. */
  lemma NotAtCI(s: string, i: nat, lit: string, k: nat)
    requires k < |lit| && i + k < |s| && LowerChar(s[i + k]) != lit[k]
    ensures !AtCI(s, i, lit)
  {
    if AtCI(s, i, lit) {
      AtCIChar(s, i, lit, k);
    }
  }

  /**
   A closing tag, whitespace and an opening tag with its attributes make one whole `PairAt` match,
   whatever the case of the tags' letters.
   */
  lemma PairWhole(close: string, open: string, sp: string, attrs: string)
    requires 0 < |close| && 0 < |open| && !IsSpace(open[0])
    requires AllSpace(sp) && Lacks(attrs, '>')
    ensures var t := close + sp + open + attrs + ">";
      PairAt(Lower(close), Lower(open), t, 0) == Some(Hit(|t|, []))
  {
    var t := close + sp + open + attrs + ">";
    var w := |close| + |sp|;
    assert t[..|close|] == close;
    assert AtCI(t, 0, Lower(close));
    assert t == close + sp + (open + attrs + ">");
    SpacesThen(close, sp, open + attrs + ">");
    assert t[w..w + |open|] == open;
    assert AtCI(t, w, Lower(open));
    assert t == (close + sp + open) + attrs + ">" + [];
    GtCloses(close + sp + open, attrs, []);
    PairHit(Lower(close), Lower(open), t, w, |close + sp + open| + |attrs|);
  }

  /** `PairAt` at the start once the space run and the closing `>` are located. */
  lemma PairHit(close: string, open: string, s: string, w: nat, g: nat)
    requires 0 < |close| && AtCI(s, 0, close) && SkipSpace(s, |close|) == w
    requires AtCI(s, w, open) && FindChar(s, w + |open|, IsGt) == g && g < |s|
    ensures PairAt(close, open, s, 0) == Some(Hit(g + 1, []))
  {
  }

  lemma ParaPairWhole(sp: string, attrs: string)
    requires AllSpace(sp) && Lacks(attrs, '>')
    ensures var t := "</p>" + sp + "<p" + attrs + ">";
      ParaPairMatcher()(t, 0) == Some(Hit(|t|, []))
  {
    PairWhole("</p>", "<p", sp, attrs);
    TagsLower();
  }

  /** In `CLOSE SPACES <p ATTRS>` the first lower-case `<p` is the paragraph's, so `ins` lands right after it. */
  lemma ParaOpenReplaced(close: string, sp: string, attrs: string, ins: string)
    requires |close| >= 2 && close[0] == '<' && close[1] == '/' && Lacks(close[1..], '<')
    requires AllSpace(sp) && Lacks(ins, '$')
    ensures ReplaceFirstLiteral(close + sp + "<p" + attrs + ">", "<p", "<p" + ins)
      == close + sp + "<p" + ins + attrs + ">"
  {
    var t := close + sp + "<p" + attrs + ">";
    var w := |close| + |sp|;
    assert t[..w] == close + sp;
    assert t[w..w + 2] == "<p";
    assert t[w + 2..] == attrs + ">";
    NoParaOpenInSpacedClose(t, close, sp);
    LacksAppend("<p", ins, '$');
    ReplaceFirstLiteralAt(t, "<p", "<p" + ins, w);
    Flatten(close + sp, "<p", ins, attrs, ">");
  }

  /** No `<p` starts inside a closing tag and the spaces after it. */
  lemma NoParaOpenInSpacedClose(t: string, close: string, sp: string)
    requires |close| >= 2 && close[0] == '<' && close[1] == '/' && Lacks(close[1..], '<')
    requires AllSpace(sp) && |close| + |sp| <= |t| && t[..|close| + |sp|] == close + sp
    ensures forall j :: 0 <= j < |close| + |sp| ==> !OccursAt(t, "<p", j)
  {
    var u := t[..|close| + |sp|];
    forall j | 0 <= j < |close| + |sp|
      ensures !OccursAt(t, "<p", j)
    {
      assert t[j] == u[j];
      if j == 0 {
        assert t[1] == u[1] == '/';
      } else if j < |close| {
        assert u[j] == close[1..][j - 1];
      } else {
        assert u[j] == sp[j - |close|];
      }
    }
  }

  /**
   `</p>`, whitespace, `<p …>`: the second paragraph gets `ins` right after `<p`, in front of any
   attribute it already had (a second `style` attribute, which browsers then ignore).
   */
  lemma ParaPairStyled(sp: string, attrs: string, ins: string)
    requires AllSpace(sp) && Lacks(attrs, '>') && Lacks(ins, '$')
    ensures ParaAfterPara("</p>" + sp + "<p" + attrs + ">", ins) == "</p>" + sp + "<p" + ins + attrs + ">"
  {
    if ins == [] {
      assert "</p>" + sp + "<p" + ins + attrs + ">" == "</p>" + sp + "<p" + attrs + ">";
    } else {
      ParaPairReplaced(sp, attrs, ins);
    }
  }

  lemma ParaPairReplaced(sp: string, attrs: string, ins: string)
    requires AllSpace(sp) && Lacks(attrs, '>') && Lacks(ins, '$') && ins != []
    ensures ReplaceAll("</p>" + sp + "<p" + attrs + ">", ParaPairMatcher(), OpenParaWith(ins))
      == "</p>" + sp + "<p" + ins + attrs + ">"
  {
    var t := "</p>" + sp + "<p" + attrs + ">";
    ParaPairWhole(sp, attrs);
    ParaOpenReplaced("</p>", sp, attrs, ins);
    ReplaceAllWhole(t, ParaPairMatcher(), OpenParaWith(ins), []);
  }

  /** A pair match of all of `t` is one wherever `t` is found. */
  lemma PairMoved(close: string, open: string, pre: string, t: string, post: string)
    requires PairAt(close, open, t, 0) == Some(Hit(|t|, []))
    ensures PairAt(close, open, pre + t + post, |pre|) == Some(Hit(|pre| + |t|, []))
  {
    var w, g := PairSteps(close, open, t);
    assert (pre + t + post)[|pre|..|pre| + |t|] == t;
    PairInWindow(close, open, pre + t + post, |pre|, t, w, g);
  }

  /** The steps of a pair match of all of `t`. */
  lemma PairSteps(close: string, open: string, t: string) returns (w: nat, g: nat)
    requires PairAt(close, open, t, 0) == Some(Hit(|t|, []))
    ensures |close| > 0 && AtCI(t, 0, close) && |close| <= w && SkipSpace(t, |close|) == w && AtCI(t, w, open)
    ensures FindChar(t, w + |open|, IsGt) == g && g + 1 == |t|
  {
    w := SkipSpace(t, |close|);
    g := FindChar(t, w + |open|, IsGt);
  }

  /** A pair match of all of `t` is a pair match wherever `t` is found. */
  lemma PairInWindow(close: string, open: string, s: string, p: nat, t: string, w: nat, g: nat)
    requires Window(s, p, t)
    requires |close| > 0 && AtCI(t, 0, close) && |close| <= w && SkipSpace(t, |close|) == w && AtCI(t, w, open)
    requires FindChar(t, w + |open|, IsGt) == g && g + 1 == |t|
    ensures PairAt(close, open, s, p) == Some(Hit(p + |t|, []))
  {
    StepsInWindow(close, open, s, p, t, w, g);
    PairAtFrom(close, open, s, p, p + w, p + g);
  }

  lemma StepsInWindow(close: string, open: string, s: string, p: nat, t: string, w: nat, g: nat)
    requires Window(s, p, t)
    requires AtCI(t, 0, close) && |close| <= w && SkipSpace(t, |close|) == w && AtCI(t, w, open)
    requires FindChar(t, w + |open|, IsGt) == g && g < |t|
    ensures AtCI(s, p, close) && SkipSpace(s, p + |close|) == p + w && AtCI(s, p + w, open)
    ensures FindChar(s, p + w + |open|, IsGt) == p + g && p + g < |s|
  {
    WindowAtCI(s, p, t, 0, close);
    WindowSkipSpace(s, p, t, |close|);
    WindowAtCI(s, p, t, w, open);
    WindowFindChar(s, p, t, w + |open|, IsGt);
  }

  /** The steps of a pair match, read off one by one. */
  lemma PairAtFrom(close: string, open: string, s: string, p: nat, w: nat, g: nat)
    requires |close| > 0 && AtCI(s, p, close)
    requires SkipSpace(s, p + |close|) == w && AtCI(s, w, open)
    requires FindChar(s, w + |open|, IsGt) == g && g < |s|
    ensures PairAt(close, open, s, p) == Some(Hit(g + 1, []))
  {
  }

  /**
   `ParaPairStyled` inside a document: when no other `</p>`-then-`<p` pair starts in the text
   before or after it, the pass styles this pair's second paragraph and changes nothing else.
   */
  lemma ParaPairStyledIn(pre: string, sp: string, attrs: string, post: string, ins: string)
    requires AllSpace(sp) && Lacks(attrs, '>') && Lacks(ins, '$')
    requires NoMatchOutside(pre, "</p>" + sp + "<p" + attrs + ">", post, ParaPairMatcher())
    ensures ParaAfterPara(pre + ("</p>" + sp + "<p" + attrs + ">") + post, ins)
      == pre + ("</p>" + sp + "<p" + ins + attrs + ">") + post
  {
    if ins == [] {
      assert "</p>" + sp + "<p" + ins + attrs + ">" == "</p>" + sp + "<p" + attrs + ">";
    } else {
      ParaPairReplacedIn(pre, sp, attrs, post, ins);
    }
  }

  lemma ParaPairReplacedIn(pre: string, sp: string, attrs: string, post: string, ins: string)
    requires AllSpace(sp) && Lacks(attrs, '>') && Lacks(ins, '$')
    requires NoMatchOutside(pre, "</p>" + sp + "<p" + attrs + ">", post, ParaPairMatcher())
    ensures ReplaceAll(pre + ("</p>" + sp + "<p" + attrs + ">") + post, ParaPairMatcher(), OpenParaWith(ins))
      == pre + ("</p>" + sp + "<p" + ins + attrs + ">") + post
  {
    ParaPairWhole(sp, attrs);
    ParaOpenReplaced("</p>", sp, attrs, ins);
    ParaPairReplacedAround(pre, "</p>" + sp + "<p" + attrs + ">", post, ins, "</p>" + sp + "<p" + ins + attrs + ">");
  }

  /** A paragraph pair that makes one whole match is the pass's only rewrite when nothing matches around it. */
  lemma ParaPairReplacedAround(pre: string, t: string, post: string, ins: string, out: string)
    requires ParaPairMatcher()(t, 0) == Some(Hit(|t|, []))
    requires NoMatchOutside(pre, t, post, ParaPairMatcher())
    requires ReplaceFirstLiteral(t, "<p", "<p" + ins) == out
    ensures ReplaceAll(pre + t + post, ParaPairMatcher(), OpenParaWith(ins)) == pre + out + post
  {
    PairMoved("</p>", "<p", pre, t, post);
    ReplaceAllAroundNone(pre, t, post, ParaPairMatcher(), OpenParaWith(ins), []);
  }

  /** `</p><pre>` also matches `</p>\s*<p[^>]*>`: the `<pre>` tag is broken into `<p style="…"re>`. */
  lemma PreBlockBroken()
    ensures ParaAfterPara("</p>" + "<pre>", ParaGap) == "</p>" + "<p" + ParaGap + "re>"
  {
    LacksJoin3(" style=\"", "margin-top: 20px;", "\"", '$');
    ParaPairStyled([], "re", ParaGap);
    assert "</p>" + [] + "<p" + "re" + ">" == "</p>" + "<pre>";
    assert "</p>" + [] + "<p" + ParaGap + "re" + ">" == "</p>" + "<p" + ParaGap + "re>";
  }

  /** Every `<` of an upper-case pair is followed by `/` or `P`, so a lower-case `<p` occurs nowhere. */
  lemma UpperPairLacksLowerOpen(sp: string, attrs: string)
    requires AllSpace(sp) && Lacks(attrs, '<')
    ensures forall j :: 0 <= j <= |"</P>" + sp + "<P" + attrs + ">"| ==> !OccursAt("</P>" + sp + "<P" + attrs + ">", "<p", j)
  {
    var t := "</P>" + sp + "<P" + attrs + ">";
    var n := |sp|;
    assert t[..4] == "</P>" && t[4..4 + n] == sp && t[4 + n..6 + n] == "<P";
    assert t[6 + n..|t| - 1] == attrs && t[|t| - 1] == '>';
    forall j | 0 <= j < |t| - 1
      ensures t[j] != '<' || t[j + 1] != 'p'
    {
      if j < 4 {
        assert t[j] == t[..4][j] && t[j + 1] == t[..5][j + 1];
      } else if j < 4 + n {
        assert t[j] == t[4..4 + n][j - 4];
      } else if j < 6 + n {
        assert t[j] == t[4 + n..6 + n][j - 4 - n];
        assert t[j + 1] == 'P' || t[j] == 'P';
      } else {
        assert t[j] == t[6 + n..|t| - 1][j - 6 - n];
      }
    }
    forall j | 0 <= j <= |t|
      ensures !OccursAt(t, "<p", j)
    {
      if j + 2 <= |t| {
        assert t[j..j + 2][0] == t[j] && t[j..j + 2][1] == t[j + 1];
      }
    }
  }

  /**
   An upper-case `</P><P>` pair is matched (the pattern has the `i` flag) but the insertion looks
   for a lower-case `<p`, so nothing changes.
   */
  lemma UpperParaPairUnstyled(sp: string, attrs: string, ins: string)
    requires AllSpace(sp) && Lacks(attrs, '<') && Lacks(attrs, '>')
    ensures ParaAfterPara("</P>" + sp + "<P" + attrs + ">", ins) == "</P>" + sp + "<P" + attrs + ">"
  {
    var t := "</P>" + sp + "<P" + attrs + ">";
    UpperPairLacksLowerOpen(sp, attrs);
    IndexOfContains(t, "<p");
    PairWhole("</P>", "<P", sp, attrs);
    assert Lower("</P>") == "</p>" && Lower("<P") == "<p";
    if ins != [] {
      ReplaceAllWhole(t, ParaPairMatcher(), OpenParaWith(ins), []);
    }
  }

  // headings

  lemma HeadingPairWhole(a: char, sp: string, b: char, attrs: string)
    requires '1' <= a <= '6' && '1' <= b <= '6' && AllSpace(sp) && Lacks(attrs, '>')
    ensures var t := "</h" + [a] + ">" + sp + "<h" + [b] + attrs + ">";
      HeadingPairMatcher()(t, 0) == Some(Hit(|t|, []))
  {
    var close := "</h" + [a] + ">";
    var t := close + sp + "<h" + [b] + attrs + ">";
    var w := 5 + |sp|;
    assert t[..3] == "</h";
    OccursAtCI(t, 0, "</h");
    assert t[3] == a && t[4] == '>';
    assert t == close + sp + ("<h" + [b] + attrs + ">");
    SpacesThen(close, sp, "<h" + [b] + attrs + ">");
    assert t[w..w + 2] == "<h";
    OccursAtCI(t, w, "<h");
    assert t[w + 2] == b;
    assert t == (close + sp + "<h" + [b]) + attrs + ">" + [];
    GtCloses(close + sp + "<h" + [b], attrs, []);
  }

  /** The second heading's opening tag is the first `<h` followed by a level. */
  lemma HeadingOpenFirst(a: char, sp: string, b: char, attrs: string)
    requires '1' <= a <= '6' && '1' <= b <= '6' && AllSpace(sp) && Lacks(attrs, '>')
    ensures var t := "</h" + [a] + ">" + sp + "<h" + [b] + attrs + ">";
      FirstMatchFrom(t, 0, HeadingOpenMatcher()) == Some(5 + |sp|)
      && HeadingOpenAt(t, 5 + |sp|) == Some(Hit(|t|, [[b], attrs]))
  {
    var close := "</h" + [a] + ">";
    var t := close + sp + "<h" + [b] + attrs + ">";
    var w := 5 + |sp|;
    HeadingOpenAtSecond(a, sp, b, attrs);
    assert t[..w] == close + sp;
    forall j | 0 <= j < w
      ensures !ValidHit(t, j, HeadingOpenMatcher()(t, j))
    {
      NoHeadingOpenInSpacedClose(t, a, sp, j);
    }
    FirstMatchIs(t, HeadingOpenMatcher(), 0, w);
  }

  /** The second heading's opening tag is matched whole, with its level and attributes as groups. */
  lemma HeadingOpenAtSecond(a: char, sp: string, b: char, attrs: string)
    requires '1' <= b <= '6' && Lacks(attrs, '>')
    ensures var t := "</h" + [a] + ">" + sp + "<h" + [b] + attrs + ">";
      HeadingOpenAt(t, 5 + |sp|) == Some(Hit(|t|, [[b], attrs]))
  {
    var close := "</h" + [a] + ">";
    var t := close + sp + "<h" + [b] + attrs + ">";
    var w := 5 + |sp|;
    assert t[w..w + 2] == "<h" && t[w + 2] == b;
    assert t == (close + sp + "<h" + [b]) + attrs + ">" + [];
    GtCloses(close + sp + "<h" + [b], attrs, []);
    assert t[w + 3..|t| - 1] == attrs;
  }

  /** No heading tag opens inside a `</hN>` and the spaces after it. */
  lemma NoHeadingOpenInSpacedClose(t: string, a: char, sp: string, j: nat)
    requires '1' <= a <= '6' && AllSpace(sp) && |t| > 5 + |sp| && t[..5 + |sp|] == "</h" + [a] + ">" + sp
    requires j < 5 + |sp|
    ensures HeadingOpenAt(t, j).None?
  {
    var u := t[..5 + |sp|];
    assert t[j] == u[j];
    if j == 0 {
      assert t[1] == u[1] == '/';
    } else if j < 5 {
      assert u[j] != '<';
    } else {
      assert u[j] == sp[j - 5];
    }
  }

  lemma HeadingPairReplaced(a: char, sp: string, b: char, attrs: string, ins: string)
    requires '1' <= a <= '6' && '1' <= b <= '6' && AllSpace(sp) && Lacks(attrs, '>')
    ensures ReplaceAll("</h" + [a] + ">" + sp + "<h" + [b] + attrs + ">", HeadingPairMatcher(), OpenHeadingWith(ins))
      == "</h" + [a] + ">" + sp + "<h" + [b] + ins + attrs + ">"
  {
    var t := "</h" + [a] + ">" + sp + "<h" + [b] + attrs + ">";
    HeadingPairWhole(a, sp, b, attrs);
    HeadingOpenRewritten(t, 0, a, sp, b, attrs, ins);
    ReplaceAllWhole(t, HeadingPairMatcher(), OpenHeadingWith(ins), []);
  }

  lemma HeadingOpenRewritten(x: string, i: nat, a: char, sp: string, b: char, attrs: string, ins: string)
    requires '1' <= a <= '6' && '1' <= b <= '6' && AllSpace(sp) && Lacks(attrs, '>')
    ensures var t := "</h" + [a] + ">" + sp + "<h" + [b] + attrs + ">";
      OpenHeadingWith(ins)(x, i, t, []) == "</h" + [a] + ">" + sp + "<h" + [b] + ins + attrs + ">"
  {
    var t := "</h" + [a] + ">" + sp + "<h" + [b] + attrs + ">";
    var w := 5 + |sp|;
    HeadingOpenFirst(a, sp, b, attrs);
    HeadingOpenReplacedAt(x, i, t, w, [b], attrs, ins);
    HeadingTextParts("</h" + [a] + ">" + sp, [b], attrs, ins);
  }

  /** The text before a heading's opening tag, and the tag rebuilt after it. */
  lemma HeadingTextParts(pre: string, level: string, attrs: string, ins: string)
    ensures (pre + "<h" + level + attrs + ">")[..|pre|] == pre
    ensures pre + ("<h" + level + ins + attrs + ">") == pre + "<h" + level + ins + attrs + ">"
  {
    var tag := "<h" + level + attrs + ">";
    assert pre + "<h" + level + attrs + ">" == pre + tag;
    assert (pre + tag)[..|pre|] == pre;
  }

  /** The first heading tag, ending the text, is rebuilt with `ins` after its level. */
  lemma HeadingOpenReplacedAt(x: string, i: nat, t: string, w: nat, level: string, attrs: string, ins: string)
    requires FirstMatchFrom(t, 0, HeadingOpenMatcher()) == Some(w)
    requires HeadingOpenAt(t, w) == Some(Hit(|t|, [level, attrs]))
    ensures OpenHeadingWith(ins)(x, i, t, []) == t[..w] + ("<h" + level + ins + attrs + ">")
  {
    var hg := [level, attrs];
    assert Group(hg, 1) == level && Group(hg, 2) == attrs;
    assert t[|t|..] == [];
  }

  /** Two adjacent headings: the second gets `ins` between its level and its attributes. */
  lemma HeadingPairStyled(a: char, sp: string, b: char, attrs: string, ins: string)
    requires '1' <= a <= '6' && '1' <= b <= '6' && AllSpace(sp) && Lacks(attrs, '>')
    ensures HeadingAfterHeading("</h" + [a] + ">" + sp + "<h" + [b] + attrs + ">", ins)
      == "</h" + [a] + ">" + sp + "<h" + [b] + ins + attrs + ">"
  {
    if ins == [] {
      assert "</h" + [a] + ">" + sp + "<h" + [b] + ins + attrs + ">" == "</h" + [a] + ">" + sp + "<h" + [b] + attrs + ">";
    } else {
      HeadingPairReplaced(a, sp, b, attrs, ins);
    }
  }

  /** A heading pair match of all of `t` is one wherever `t` is found. */
  lemma HeadingPairMoved(pre: string, t: string, post: string)
    requires HeadingPairAt(t, 0) == Some(Hit(|t|, []))
    ensures HeadingPairAt(pre + t + post, |pre|) == Some(Hit(|pre| + |t|, []))
  {
    WindowOf(pre, t, post);
    HeadingPairInWindow(pre + t + post, |pre|, t);
  }

  lemma HeadingPairInWindow(s: string, p: nat, t: string)
    requires Window(s, p, t) && HeadingPairAt(t, 0) == Some(Hit(|t|, []))
    ensures HeadingPairAt(s, p) == Some(Hit(p + |t|, []))
  {
    var w0, g0 := HeadingPairSteps(t);
    var w, g := HeadingStepsInWindow(s, p, t, w0, g0);
    HeadingPairAtFrom(s, p, w, g, p + |t|);
  }

  /** The steps of a heading pair match of all of `t`. */
  lemma HeadingPairSteps(t: string) returns (w: nat, g: nat)
    requires HeadingPairAt(t, 0) == Some(Hit(|t|, []))
    ensures HeadingCloseAt(t, 0) && 5 <= w && SkipSpace(t, 5) == w && HeadingStartAt(t, w)
    ensures FindChar(t, w + 3, IsGt) == g && g + 1 == |t|
  {
    w := SkipSpace(t, 5);
    g := FindChar(t, w + 3, IsGt);
  }

  lemma HeadingStepsInWindow(s: string, p: nat, t: string, w: nat, g: nat) returns (w': nat, g': nat)
    requires Window(s, p, t)
    requires HeadingCloseAt(t, 0) && 5 <= w && SkipSpace(t, 5) == w && HeadingStartAt(t, w)
    requires FindChar(t, w + 3, IsGt) == g && g < |t|
    ensures w' == p + w && g' == p + g
    ensures HeadingCloseAt(s, p) && SkipSpace(s, p + 5) == w' && HeadingStartAt(s, w')
    ensures FindChar(s, w' + 3, IsGt) == g' && g' < |s|
  {
    WindowHeadingClose(s, p, t);
    WindowSkipSpace(s, p, t, 5);
    WindowHeadingStart(s, p, t, w);
    WindowFindChar(s, p, t, w + 3, IsGt);
    w', g' := p + w, p + g;
  }

  lemma WindowHeadingClose(s: string, p: nat, t: string)
    requires Window(s, p, t) && HeadingCloseAt(t, 0)
    ensures HeadingCloseAt(s, p)
  {
    WindowAtCI(s, p, t, 0, "</h");
    WindowChar(s, p, t, 3);
    WindowChar(s, p, t, 4);
  }

  lemma WindowHeadingStart(s: string, p: nat, t: string, w: nat)
    requires Window(s, p, t) && HeadingStartAt(t, w)
    ensures HeadingStartAt(s, p + w)
  {
    WindowAtCI(s, p, t, w, "<h");
    WindowChar(s, p, t, w + 2);
  }

  /** The steps of a heading pair match, read off one by one. */
  lemma HeadingPairAtFrom(s: string, p: nat, w: nat, g: nat, e: nat)
    requires HeadingCloseAt(s, p) && SkipSpace(s, p + 5) == w && HeadingStartAt(s, w)
    requires FindChar(s, w + 3, IsGt) == g && g < |s| && e == g + 1
    ensures HeadingPairAt(s, p) == Some(Hit(e, []))
  {
  }

  /**
   `HeadingPairStyled` inside a document: when no other heading pair starts in the text before
   or after it, the pass styles this pair's second heading and changes nothing else.
   */
  lemma HeadingPairStyledIn(pre: string, a: char, sp: string, b: char, attrs: string, post: string, ins: string)
    requires '1' <= a <= '6' && '1' <= b <= '6' && AllSpace(sp) && Lacks(attrs, '>')
    requires NoMatchOutside(pre, "</h" + [a] + ">" + sp + "<h" + [b] + attrs + ">", post, HeadingPairMatcher())
    ensures HeadingAfterHeading(pre + ("</h" + [a] + ">" + sp + "<h" + [b] + attrs + ">") + post, ins)
      == pre + ("</h" + [a] + ">" + sp + "<h" + [b] + ins + attrs + ">") + post
  {
    if ins == [] {
      assert "</h" + [a] + ">" + sp + "<h" + [b] + ins + attrs + ">" == "</h" + [a] + ">" + sp + "<h" + [b] + attrs + ">";
    } else {
      HeadingPairReplacedIn(pre, a, sp, b, attrs, post, ins);
    }
  }

  lemma HeadingPairReplacedIn(pre: string, a: char, sp: string, b: char, attrs: string, post: string, ins: string)
    requires '1' <= a <= '6' && '1' <= b <= '6' && AllSpace(sp) && Lacks(attrs, '>')
    requires NoMatchOutside(pre, "</h" + [a] + ">" + sp + "<h" + [b] + attrs + ">", post, HeadingPairMatcher())
    ensures ReplaceAll(pre + ("</h" + [a] + ">" + sp + "<h" + [b] + attrs + ">") + post, HeadingPairMatcher(), OpenHeadingWith(ins))
      == pre + ("</h" + [a] + ">" + sp + "<h" + [b] + ins + attrs + ">") + post
  {
    var t := "</h" + [a] + ">" + sp + "<h" + [b] + attrs + ">";
    HeadingPairWhole(a, sp, b, attrs);
    HeadingOpenRewritten(pre + t + post, |pre|, a, sp, b, attrs, ins);
    HeadingReplacedAround(pre, t, post, ins, "</h" + [a] + ">" + sp + "<h" + [b] + ins + attrs + ">");
  }

  /** A heading pair that makes one whole match is the pass's only rewrite when nothing matches around it. */
  lemma HeadingReplacedAround(pre: string, t: string, post: string, ins: string, out: string)
    requires HeadingPairMatcher()(t, 0) == Some(Hit(|t|, []))
    requires NoMatchOutside(pre, t, post, HeadingPairMatcher())
    requires OpenHeadingWith(ins)(pre + t + post, |pre|, t, []) == out
    ensures ReplaceAll(pre + t + post, HeadingPairMatcher(), OpenHeadingWith(ins)) == pre + out + post
  {
    HeadingPairMoved(pre, t, post);
    ReplaceAllAroundNone(pre, t, post, HeadingPairMatcher(), OpenHeadingWith(ins), []);
  }

  // a list, then a paragraph

  predicate IsListName(list: string) { list == "ul" || list == "ol" }

  lemma ListParaWhole(list: string, sp: string, attrs: string)
    requires IsListName(list) && AllSpace(sp) && Lacks(attrs, '>')
    ensures var t := "</" + list + ">" + sp + "<p" + attrs + ">";
      ListParaMatcher()(t, 0) == Some(Hit(|t|, []))
  {
    if list == "ol" {
      assert "</" + list + ">" == "</ol>";
      ListCloseParaPair("</ol>", sp, attrs);
      UnorderedCloseAbsent("</ol>" + sp + "<p" + attrs + ">");
    } else {
      assert "</" + list + ">" == "</ul>";
      ListCloseParaPair("</ul>", sp, attrs);
    }
  }

  lemma ListCloseParaPair(close: string, sp: string, attrs: string)
    requires close == "</ul>" || close == "</ol>"
    requires AllSpace(sp) && Lacks(attrs, '>')
    ensures var t := close + sp + "<p" + attrs + ">";
      PairAt(close, "<p", t, 0) == Some(Hit(|t|, []))
  {
    PairWhole(close, "<p", sp, attrs);
    TagsLower();
  }

  /** The paragraph and list tags the adjacency passes look for are already lower-case. */
  lemma TagsLower()
    ensures Lower("</p>") == "</p>" && Lower("<p") == "<p"
    ensures Lower("</ul>") == "</ul>" && Lower("</ol>") == "</ol>" && Lower("<ul") == "<ul" && Lower("<ol") == "<ol"
  {
    LowerFixed("</p>");
    LowerFixed("<p");
    LowerFixed("</ul>");
    LowerFixed("</ol>");
    LowerFixed("<ul");
    LowerFixed("<ol");
  }

  /** Where `</ol>` is found, `</ul>` is not. */
  lemma UnorderedCloseAbsent(t: string)
    requires AtCI(t, 0, "</ol>")
    ensures PairAt("</ul>", "<p", t, 0).None?
  {
    AtCIChar(t, 0, "</ol>", 2);
    NotAtCI(t, 0, "</ul>", 2);
  }

  lemma ListParaReplaced(list: string, sp: string, attrs: string, ins: string)
    requires IsListName(list) && AllSpace(sp) && Lacks(attrs, '>') && Lacks(ins, '$')
    ensures ReplaceAll("</" + list + ">" + sp + "<p" + attrs + ">", ListParaMatcher(), OpenParaWith(ins))
      == "</" + list + ">" + sp + "<p" + ins + attrs + ">"
  {
    var close := "</" + list + ">";
    var t := close + sp + "<p" + attrs + ">";
    ListParaWhole(list, sp, attrs);
    assert close[1..] == "/" + list + ">";
    ParaOpenReplaced(close, sp, attrs, ins);
    ReplaceAllWhole(t, ListParaMatcher(), OpenParaWith(ins), []);
  }

  /** A list closes and a paragraph follows: the paragraph gets `ins` right after `<p`. */
  lemma ListParaStyled(list: string, sp: string, attrs: string, ins: string)
    requires IsListName(list) && AllSpace(sp) && Lacks(attrs, '>') && Lacks(ins, '$')
    ensures ParaAfterList("</" + list + ">" + sp + "<p" + attrs + ">", ins)
      == "</" + list + ">" + sp + "<p" + ins + attrs + ">"
  {
    if ins == [] {
      assert "</" + list + ">" + sp + "<p" + ins + attrs + ">" == "</" + list + ">" + sp + "<p" + attrs + ">";
    } else {
      ListParaReplaced(list, sp, attrs, ins);
    }
  }

  /**
   `ListParaStyled` inside a document: when no other list-then-paragraph pair starts in the text
   before or after it, the pass styles this pair's paragraph and changes nothing else.
   */
  lemma ListParaStyledIn(pre: string, list: string, sp: string, attrs: string, post: string, ins: string)
    requires IsListName(list) && AllSpace(sp) && Lacks(attrs, '>') && Lacks(ins, '$')
    requires NoMatchOutside(pre, "</" + list + ">" + sp + "<p" + attrs + ">", post, ListParaMatcher())
    ensures ParaAfterList(pre + ("</" + list + ">" + sp + "<p" + attrs + ">") + post, ins)
      == pre + ("</" + list + ">" + sp + "<p" + ins + attrs + ">") + post
  {
    if ins == [] {
      assert "</" + list + ">" + sp + "<p" + ins + attrs + ">" == "</" + list + ">" + sp + "<p" + attrs + ">";
    } else {
      ListParaReplacedIn(pre, list, sp, attrs, post, ins);
    }
  }

  lemma ListParaReplacedIn(pre: string, list: string, sp: string, attrs: string, post: string, ins: string)
    requires IsListName(list) && AllSpace(sp) && Lacks(attrs, '>') && Lacks(ins, '$')
    requires NoMatchOutside(pre, "</" + list + ">" + sp + "<p" + attrs + ">", post, ListParaMatcher())
    ensures ReplaceAll(pre + ("</" + list + ">" + sp + "<p" + attrs + ">") + post, ListParaMatcher(), OpenParaWith(ins))
      == pre + ("</" + list + ">" + sp + "<p" + ins + attrs + ">") + post
  {
    var close := "</" + list + ">";
    ListParaWhole(list, sp, attrs);
    assert close[1..] == "/" + list + ">";
    ParaOpenReplaced(close, sp, attrs, ins);
    ListParaReplacedAround(pre, close + sp + "<p" + attrs + ">", post, ins, close + sp + "<p" + ins + attrs + ">");
  }

  /** A list-then-paragraph pair that makes one whole match is the pass's only rewrite when nothing matches around it. */
  lemma ListParaReplacedAround(pre: string, t: string, post: string, ins: string, out: string)
    requires ListParaMatcher()(t, 0) == Some(Hit(|t|, []))
    requires NoMatchOutside(pre, t, post, ListParaMatcher())
    requires ReplaceFirstLiteral(t, "<p", "<p" + ins) == out
    ensures ReplaceAll(pre + t + post, ListParaMatcher(), OpenParaWith(ins)) == pre + out + post
  {
    ListParaMoved(pre, t, post);
    ReplaceAllAroundNone(pre, t, post, ListParaMatcher(), OpenParaWith(ins), []);
  }

  /** A list-then-paragraph match of all of `t` is one wherever `t` is found: `</ol>` never reads as `</ul>`. */
  lemma ListParaMoved(pre: string, t: string, post: string)
    requires ListParaMatcher()(t, 0) == Some(Hit(|t|, []))
    ensures ListParaMatcher()(pre + t + post, |pre|) == Some(Hit(|pre| + |t|, []))
  {
    var s := pre + t + post;
    if PairAt("</ul>", "<p", t, 0).Some? {
      PairMoved("</ul>", "<p", pre, t, post);
    } else {
      PairMoved("</ol>", "<p", pre, t, post);
      AtCIChar(t, 0, "</ol>", 2);
      assert s[|pre|..|pre| + |t|] == t;
      WindowChar(s, |pre|, t, 2);
      NotAtCI(s, |pre|, "</ul>", 2);
    }
  }

  // a paragraph, then a list

  lemma ParaListWhole(list: string, sp: string, attrs: string)
    requires IsListName(list) && AllSpace(sp) && Lacks(attrs, '>')
    ensures var t := "</p>" + sp + "<" + list + attrs + ">";
      ParaListMatcher()(t, 0) == Some(Hit(|t|, []))
  {
    var t := "</p>" + sp + "<" + list + attrs + ">";
    ParaListPair(list, sp, attrs);
    if list == "ol" {
      NoUnorderedPair(list, sp, attrs);
    }
    ParaListPicks(t, list);
  }

  /** The matcher tries `<ul` first and falls back to `<ol`. */
  lemma ParaListPicks(t: string, list: string)
    requires IsListName(list) && PairAt("</p>", "<" + list, t, 0) == Some(Hit(|t|, []))
    requires list == "ol" ==> PairAt("</p>", "<ul", t, 0).None?
    ensures ParaListMatcher()(t, 0) == Some(Hit(|t|, []))
  {
  }

  lemma ParaListPair(list: string, sp: string, attrs: string)
    requires IsListName(list) && AllSpace(sp) && Lacks(attrs, '>')
    ensures var t := "</p>" + sp + "<" + list + attrs + ">";
      PairAt("</p>", "<" + list, t, 0) == Some(Hit(|t|, []))
  {
    var open := "<" + list;
    Regroup("</p>" + sp, "<", list, attrs, ">");
    PairWhole("</p>", open, sp, attrs);
    TagsLower();
    assert open == "<ul" || open == "<ol";
  }

  lemma Regroup(x: string, a: string, b: string, c: string, d: string)
    ensures x + a + b + c + d == x + (a + b) + c + d
  {
    assert x + a + b == x + (a + b);
  }

  lemma NoUnorderedPair(list: string, sp: string, attrs: string)
    requires list == "ol" && AllSpace(sp)
    ensures PairAt("</p>", "<ul", "</p>" + sp + "<" + list + attrs + ">", 0).None?
  {
    var t := "</p>" + sp + "<" + list + attrs + ">";
    var y := "<" + list + attrs + ">";
    assert t == "</p>" + sp + y;
    SpacesThen("</p>", sp, y);
    assert t[4 + |sp| + 1] == 'o';
    NotAtCI(t, 4 + |sp|, "<ul", 1);
  }

  /** The list's opening tag is the first `<ul` or `<ol`, and `$1` names it. */
  lemma ListOpenFirst(list: string, sp: string, attrs: string)
    requires IsListName(list) && AllSpace(sp)
    ensures var t := "</p>" + sp + "<" + list + attrs + ">";
      FirstMatchFrom(t, 0, ListOpenMatcher()) == Some(4 + |sp|)
      && ListOpenAt(t, 4 + |sp|) == Some(Hit(7 + |sp|, [list]))
  {
    var t := "</p>" + sp + "<" + list + attrs + ">";
    var w := 4 + |sp|;
    assert t[w..w + 3] == "<" + list;
    assert t[w + 1..w + 3] == list;
    assert t[..w] == "</p>" + sp;
    forall j | 0 <= j < w
      ensures !ValidHit(t, j, ListOpenMatcher()(t, j))
    {
      NoListOpenInSpacedClose(t, sp, j);
    }
    FirstMatchIs(t, ListOpenMatcher(), 0, w);
  }

  /** No `<ul` or `<ol` starts inside a `</p>` and the spaces after it. */
  lemma NoListOpenInSpacedClose(t: string, sp: string, j: nat)
    requires AllSpace(sp) && |t| > 4 + |sp| && t[..4 + |sp|] == "</p>" + sp && j < 4 + |sp|
    ensures ListOpenAt(t, j).None?
  {
    var u := t[..4 + |sp|];
    assert t[j] == u[j];
    if j == 0 {
      assert t[1] == u[1] == '/';
    } else if j < 4 {
      assert u[j] == "</p>"[j];
      assert t[j] == '/' || t[j] == 'p' || t[j] == '>';
    } else {
      assert u[j] == sp[j - 4];
    }
  }

  lemma ParaListReplaced(list: string, sp: string, attrs: string, ins: string)
    requires IsListName(list) && AllSpace(sp) && Lacks(attrs, '>') && Lacks(ins, '$')
    ensures ReplaceAll("</p>" + sp + "<" + list + attrs + ">", ParaListMatcher(), OpenListWith(ins))
      == "</p>" + sp + "<" + list + ins + attrs + ">"
  {
    var t := "</p>" + sp + "<" + list + attrs + ">";
    ParaListWhole(list, sp, attrs);
    ListOpenRewritten(list, sp, attrs, ins);
    ReplaceAllWhole(t, ParaListMatcher(), OpenListWith(ins), []);
  }

  lemma ListOpenRewritten(list: string, sp: string, attrs: string, ins: string)
    requires IsListName(list) && AllSpace(sp) && Lacks(ins, '$')
    ensures var t := "</p>" + sp + "<" + list + attrs + ">";
      OpenListWith(ins)(t, 0, t, []) == "</p>" + sp + "<" + list + ins + attrs + ">"
  {
    var t := "</p>" + sp + "<" + list + attrs + ">";
    var w := 4 + |sp|;
    ListOpenFirst(list, sp, attrs);
    ListTemplateExpands(list, ins, t[w..w + 3], t[..w], t[w + 3..]);
    assert OpenListWith(ins)(t, 0, t, []) == t[..w] + ("<" + list + ins) + t[w + 3..];
    assert t[..w] == "</p>" + sp;
    assert t[w + 3..] == attrs + ">";
  }

  /** `"<$1" + ins` with the list tag as group 1. */
  lemma ListTemplateExpands(list: string, ins: string, matched: string, before: string, after: string)
    requires Lacks(ins, '$')
    ensures Substitute("<$1" + ins, matched, before, after, [list]) == "<" + list + ins
  {
    SubstituteLiteralPrefix("<", "$1" + ins, matched, before, after, [list]);
    SubstituteGroupOne(ins, matched, before, after, [list]);
    SubstituteLiteral(ins, matched, before, after, [list]);
    assert "<$1" + ins == "<" + ("$1" + ins);
  }

  /**
   `ParaListStyled` inside a document: when no other paragraph-then-list pair starts in the text
   before or after it, the pass styles this pair's list and changes nothing else.
   */
  lemma ParaListStyledIn(pre: string, list: string, sp: string, attrs: string, post: string, ins: string)
    requires IsListName(list) && AllSpace(sp) && Lacks(attrs, '>') && Lacks(ins, '$')
    requires NoMatchOutside(pre, "</p>" + sp + "<" + list + attrs + ">", post, ParaListMatcher())
    ensures ListAfterPara(pre + ("</p>" + sp + "<" + list + attrs + ">") + post, ins)
      == pre + ("</p>" + sp + "<" + list + ins + attrs + ">") + post
  {
    if ins == [] {
      assert "</p>" + sp + "<" + list + ins + attrs + ">" == "</p>" + sp + "<" + list + attrs + ">";
    } else {
      ParaListReplacedIn(pre, list, sp, attrs, post, ins);
    }
  }

  lemma ParaListReplacedIn(pre: string, list: string, sp: string, attrs: string, post: string, ins: string)
    requires IsListName(list) && AllSpace(sp) && Lacks(attrs, '>') && Lacks(ins, '$')
    requires NoMatchOutside(pre, "</p>" + sp + "<" + list + attrs + ">", post, ParaListMatcher())
    ensures ReplaceAll(pre + ("</p>" + sp + "<" + list + attrs + ">") + post, ParaListMatcher(), OpenListWith(ins))
      == pre + ("</p>" + sp + "<" + list + ins + attrs + ">") + post
  {
    var t := "</p>" + sp + "<" + list + attrs + ">";
    ParaListWhole(list, sp, attrs);
    ListOpenRewritten(list, sp, attrs, ins);
    ParaListReplacedAround(pre, t, post, ins, "</p>" + sp + "<" + list + ins + attrs + ">");
  }

  /** A paragraph-then-list pair that makes one whole match is the pass's only rewrite when nothing matches around it. */
  lemma ParaListReplacedAround(pre: string, t: string, post: string, ins: string, out: string)
    requires ParaListMatcher()(t, 0) == Some(Hit(|t|, []))
    requires NoMatchOutside(pre, t, post, ParaListMatcher())
    requires OpenListWith(ins)(t, 0, t, []) == out
    ensures ReplaceAll(pre + t + post, ParaListMatcher(), OpenListWith(ins)) == pre + out + post
  {
    ParaListMoved(pre, t, post);
    assert OpenListWith(ins)(pre + t + post, |pre|, t, []) == OpenListWith(ins)(t, 0, t, []);
    ReplaceAllAroundNone(pre, t, post, ParaListMatcher(), OpenListWith(ins), []);
  }

  /** A paragraph-then-list match of all of `t` is one wherever `t` is found: `<ol` never reads as `<ul`. */
  lemma ParaListMoved(pre: string, t: string, post: string)
    requires ParaListMatcher()(t, 0) == Some(Hit(|t|, []))
    ensures ParaListMatcher()(pre + t + post, |pre|) == Some(Hit(|pre| + |t|, []))
  {
    if PairAt("</p>", "<ul", t, 0).Some? {
      PairMoved("</p>", "<ul", pre, t, post);
    } else {
      PairMoved("</p>", "<ol", pre, t, post);
      OrderedNotUnordered(pre, t, post);
    }
  }

  /** Where `</p> <ol…>` is found, `</p> <ul` is not. */
  lemma OrderedNotUnordered(pre: string, t: string, post: string)
    requires PairAt("</p>", "<ol", t, 0) == Some(Hit(|t|, []))
    ensures PairAt("</p>", "<ul", pre + t + post, |pre|).None?
  {
    var s := pre + t + post;
    var w, g := PairSteps("</p>", "<ol", t);
    assert s[|pre|..|pre| + |t|] == t;
    StepsInWindow("</p>", "<ol", s, |pre|, t, w, g);
    AtCIChar(t, w, "<ol", 1);
    WindowChar(s, |pre|, t, w + 1);
    NotAtCI(s, |pre| + w, "<ul", 1);
  }


  /** A paragraph closes and a list follows: the list gets `ins` right after `<ul` or `<ol`. */
  lemma ParaListStyled(list: string, sp: string, attrs: string, ins: string)
    requires IsListName(list) && AllSpace(sp) && Lacks(attrs, '>') && Lacks(ins, '$')
    ensures ListAfterPara("</p>" + sp + "<" + list + attrs + ">", ins)
      == "</p>" + sp + "<" + list + ins + attrs + ">"
  {
    if ins == [] {
      assert "</p>" + sp + "<" + list + ins + attrs + ">" == "</p>" + sp + "<" + list + attrs + ">";
    } else {
      ParaListReplaced(list, sp, attrs, ins);
    }
  }
}
