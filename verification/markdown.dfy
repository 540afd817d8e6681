/**
 The visual editor's Markdown view of a document: `documentToMarkdown` writes one Markdown
 block per element, joined by blank lines, and `markdownToDocument` reads a text back line by
 line, trying heading, list item, image, CTA and rule (`---`) patterns before falling back to a
 paragraph with `**bold**`, `*italic*` and `[text](url)` markup.
 */
module Markdown {
  import opened Base
  import opened Text
  import opened Scan
  import opened Document
  import CtaText
  import ParserRules

  // ------------------------------------------------------------------ writing

  /** `${x}` for an optional field: an absent one prints as `undefined`. */
  function Show(o: Option<string>): (r: string)
    ensures o.Some? ==> r == o.value
  {
    match o
    case Some(s) => s
    case None => "undefined"
  }

  /** A spacer's block: a rule on a line of its own. */
  const SpaceBlock := "\n---\n"

  const Rule := "---"

  /** Bold markup inside italic markup, as the paragraph's formatting asks. */
  function Emphasis(c: string, bold: bool, italic: bool): string {
    var b := if bold then "**" + c + "**" else c;
    if italic then "*" + b + "*" else b
  }

  /** Link markup around a text when the URL is truthy. */
  function LinkMarkup(t: string, url: Option<string>): string {
    if Truthy(url) then "[" + t + "](" + url.value + ")" else t
  }

  function ParagraphMarkdown(e: Element): string {
    LinkMarkup(Emphasis(e.content, e.formatting.bold, e.formatting.italic), e.url)
  }

  function HeadingBlock(c: string, level: nat): string {
    Repeat('#', level) + " " + c
  }

  function ListBlock(c: string, ordered: bool): string {
    (if ordered then "1." else "-") + " " + c
  }

  function ImageBlock(alt: string, url: string): string {
    "![" + alt + "](" + url + ")"
  }

  function CtaBlock(text: string, url: string): string {
    "[CTA: " + text + "](" + url + ")"
  }

  /** The Markdown block of one element. */
  function ElementMarkdown(e: Element): string {
    match e.kind
    case Heading => HeadingBlock(e.content, LevelOr1(e.level))
    case Paragraph => ParagraphMarkdown(e)
    case ListItem => ListBlock(e.content, e.listType == Some(Ordered))
    case Image => ImageBlock(Or(e.alt, DefaultAlt), Show(e.url))
    case Cta => CtaBlock(Show(e.ctaText), Show(e.ctaUrl))
    case Space => SpaceBlock
    case Table => e.content
  }

  function Blocks(es: seq<Element>): (r: seq<string>)
    ensures |r| == |es|
    decreases |es|
  {
    if es == [] then [] else [ElementMarkdown(es[0])] + Blocks(es[1..])
  }

  /** `documentToMarkdown`: the blocks joined by a blank line. */
  function DocumentToMarkdown(doc: Doc): string {
    Join(Blocks(doc.elements), "\n\n")
  }

  // ------------------------------------------------------------------ reading one line

  predicate IsHash(c: char) { c == '#' }
  predicate NotHash(c: char) { c != '#' }
  predicate IsCloseBracket(c: char) { c == ']' }
  predicate NotCloseBracket(c: char) { c != ']' }
  predicate IsCloseParen(c: char) { c == ')' }
  predicate IsStar(c: char) { c == '*' }
  predicate IsBullet(c: char) { c == '-' || c == '*' || c == '+' }

  /** `(.+)$` from `w`: at least one character, and none a line terminator, up to the end. */
  predicate RestOfLine(t: string, w: nat) {
    w < |t| && forall k :: w <= k < |t| ==> !IsLineTerminator(t[k])
  }

  /**
   `^(#{1,6})\s+(.+)$`: the run of leading `#` (one to six of them), whitespace, then the text
   after the whitespace run. A longer run of `#` never matches, since the pattern's run would be
   followed by another `#`.
   */
  function HeadingLine(t: string): (r: Option<(nat, string)>)
    ensures r.Some? ==> 1 <= r.value.0 <= 6
  {
    var h := FindChar(t, 0, NotHash);
    if 1 <= h <= 6 && h < |t| && IsSpace(t[h]) then
      var w := SkipSpace(t, h);
      if RestOfLine(t, w) then Some((h, t[w..])) else None
    else None
  }

  /** `^[-*+]\s+(.+)$`. */
  function BulletLine(t: string): Option<string> {
    if |t| >= 2 && IsBullet(t[0]) && IsSpace(t[1]) then
      var w := SkipSpace(t, 1);
      if RestOfLine(t, w) then Some(t[w..]) else None
    else None
  }

  /** `^\d+\.\s+(.+)$`. */
  function NumberedLine(t: string): Option<string> {
    var d := FindChar(t, 0, NotDigit);
    if 1 <= d && d + 1 < |t| && t[d] == '.' && IsSpace(t[d + 1]) then
      var w := SkipSpace(t, d + 1);
      if RestOfLine(t, w) then Some(t[w..]) else None
    else None
  }

  /** `^\d+\.`: the line opens with a number and a dot. */
  predicate OpensNumbered(t: string) {
    var d := FindChar(t, 0, NotDigit);
    1 <= d < |t| && t[d] == '.'
  }

  /** `^!\[([^\]]*)\]\(([^)]+)\)$`: the alt text and the URL. */
  function ImageLine(t: string): Option<(string, string)> {
    if |t| >= 2 && t[0] == '!' && t[1] == '[' then
      var a := FindChar(t, 2, IsCloseBracket);
      if a + 1 < |t| && t[a + 1] == '(' then
        var b := FindChar(t, a + 2, IsCloseParen);
        if a + 2 < b && b + 1 == |t| then Some((t[2..a], t[a + 2..b])) else None
      else None
    else None
  }

  /**
   `^\[CTA:\s*([^\]]+)\]\(([^)]+)\)$`: the button text and URL. The greedy `\s*` gives back one
   whitespace character when nothing else is left for the text.
   */
  function CtaLine(t: string): Option<(string, string)> {
    if OccursAt(t, "[CTA:", 0) then
      var w := SkipSpace(t, 5);
      var c := FindChar(t, 5, IsCloseBracket);
      match CtaText.GroupStart(t, 5, w, NotCloseBracket)
      case None => None
      case Some(k) =>
        if k < c && c + 1 < |t| && t[c + 1] == '(' then
          var b := FindChar(t, c + 2, IsCloseParen);
          if c + 2 < b && b + 1 == |t| then Some((t[k..c], t[c + 2..b])) else None
        else None
    else None
  }

  /** `\*\*([^*]+)\*\*` at `p`. */
  function BoldAt(s: string, p: nat): Option<Hit> {
    if p + 1 < |s| && s[p] == '*' && s[p + 1] == '*' then
      var q := FindChar(s, p + 2, IsStar);
      if p + 2 < q && q + 1 < |s| && s[q + 1] == '*' then Some(Hit(q + 2, [s[p + 2..q]])) else None
    else None
  }

  /** `\*([^*]+)\*` at `p`. */
  function ItalicAt(s: string, p: nat): Option<Hit> {
    if p < |s| && s[p] == '*' then
      var q := FindChar(s, p + 1, IsStar);
      if p + 1 < q < |s| then Some(Hit(q + 1, [s[p + 1..q]])) else None
    else None
  }

  /** `\[([^\]]+)\]\(([^)]+)\)` at `p`: the link text and the URL. */
  function LinkAt(s: string, p: nat): Option<Hit> {
    if p < |s| && s[p] == '[' then
      var c := FindChar(s, p + 1, IsCloseBracket);
      if p + 1 < c && c + 1 < |s| && s[c + 1] == '(' then
        var b := FindChar(s, c + 2, IsCloseParen);
        if c + 2 < b < |s| then Some(Hit(b + 1, [s[p + 1..c], s[c + 2..b]])) else None
      else None
    else None
  }

  /** The replacement `"$1"`. */
  function FirstGroup(s: string, i: nat, t: string, g: seq<string>): string {
    Group(g, 1)
  }

  /** Markup removal for the paragraph rule: whether the pattern was found, and the text with every match unwrapped. */
  function Unwrap(s: string, m: Matcher): (bool, string) {
    if FirstMatchFrom(s, 0, m).Some? then (true, ReplaceAll(s, m, FirstGroup)) else (false, s)
  }

  /** The paragraph rule: bold markup, then italic markup, is unwrapped; a link keeps only its text. */
  function ParagraphLine(t: string): Element {
    var (bold, c1) := Unwrap(t, BoldAt);
    var (italic, c2) := Unwrap(c1, ItalicAt);
    var fmt := Formatting(bold, italic, false, None, None, None, None);
    match FirstGroups(c2, LinkAt)
    case Some(g) => Element(Paragraph, Group(g, 1), fmt, None, Some(Group(g, 2)), None, None, None, None)
    case None => Element(Paragraph, c2, fmt, None, None, None, None, None, None)
  }

  function HeadingElement(content: string, level: nat): Element {
    Element(Heading, content, NoFormatting, Some(level), None, None, None, None, None)
  }

  function ListElement(content: string, lt: ListType): Element {
    Element(ListItem, content, NoFormatting, None, None, None, Some(lt), None, None)
  }

  function ImageElement(alt: string, url: string): Element {
    Element(Image, alt, NoFormatting, None, Some(url), Some(alt), None, None, None)
  }

  /** The element a trimmed, non-empty line reads as; the patterns are tried in the editor's order. */
  function LineElement(t: string): Element {
    match HeadingLine(t)
    case Some(h) => HeadingElement(h.1, h.0)
    case None =>
      var list := if BulletLine(t).Some? then BulletLine(t) else NumberedLine(t);
      match list
      case Some(c) => ListElement(c, if OpensNumbered(t) then Ordered else Unordered)
      case None =>
        match ImageLine(t)
        case Some(im) => ImageElement(im.0, im.1)
        case None =>
          match CtaLine(t)
          case Some(b) => ParserRules.CtaElement(b.0, b.1)
          case None => if t == Rule then BareSpace else ParagraphLine(t)
  }

  /** One line: nothing when blank, otherwise the element its trimmed text reads as. */
  function ParseLine(line: string): (r: seq<Element>)
    ensures |r| <= 1 && (r == [] <==> Trim(line) == [])
  {
    var t := Trim(line);
    if t == [] then [] else [LineElement(t)]
  }

  /** Every line read by `read`, the results joined in line order. */
  function ReadLines<T>(read: string -> seq<T>, lines: seq<string>): seq<T>
    decreases |lines|
  {
    if lines == [] then [] else read(lines[0]) + ReadLines(read, lines[1..])
  }

  function ParseLines(lines: seq<string>): seq<Element> {
    ReadLines(ParseLine, lines)
  }

  /** `markdownToDocument`: the elements of every line; the current document's title is kept. */
  function MarkdownToDocument(md: string, current: Doc): (r: Doc)
    ensures r.title == current.title
  {
    Doc(current.title, ParseLines(Split(md, '\n')))
  }

  // ------------------------------------------------------------------ lines of a text

  /** One unfolding of `Split`. */
  lemma SplitCons(c: char, rest: string, sep: char)
    ensures Split([c] + rest, sep)
      == if c == sep then [[]] + Split(rest, sep) else [[c] + Split(rest, sep)[0]] + Split(rest, sep)[1..]
  {
    var s := [c] + rest;
    assert s[0] == c && s[1..] == rest;
  }

  lemma SplitAppendStep(a: string, b: string, sep: char)
    requires a != []
    requires Split(a[1..] + [sep] + b, sep) == Split(a[1..], sep) + Split(b, sep)
    ensures Split(a + [sep] + b, sep) == Split(a, sep) + Split(b, sep)
  {
    var c, a' := a[0], a[1..];
    assert a + [sep] + b == [c] + (a' + [sep] + b);
    assert a == [c] + a';
    SplitStep(c, a', b, sep);
  }

  lemma SplitStep(c: char, a': string, b: string, sep: char)
    requires Split(a' + [sep] + b, sep) == Split(a', sep) + Split(b, sep)
    ensures Split([c] + (a' + [sep] + b), sep) == Split([c] + a', sep) + Split(b, sep)
  {
    var t := a' + [sep] + b;
    SplitCons(c, t, sep);
    SplitCons(c, a', sep);
    ConsJoins(c, sep, Split(t, sep), Split(a', sep), Split(b, sep));
  }

  /** Consing a character onto split parts commutes with appending more parts. */
  lemma ConsJoins(c: char, sep: char, rt: seq<string>, ra: seq<string>, rb: seq<string>)
    requires |ra| >= 1 && rt == ra + rb
    ensures (if c == sep then [[]] + rt else [[c] + rt[0]] + rt[1..])
      == (if c == sep then [[]] + ra else [[c] + ra[0]] + ra[1..]) + rb
  {
    if c != sep {
      PartJoins(c, ra, rb);
    }
  }

  /** Gluing a character to the first part commutes with appending more parts. */
  lemma PartJoins(c: char, ra: seq<string>, rb: seq<string>)
    requires |ra| >= 1
    ensures [[c] + (ra + rb)[0]] + (ra + rb)[1..] == ([[c] + ra[0]] + ra[1..]) + rb
  {
    assert (ra + rb)[0] == ra[0];
    assert (ra + rb)[1..] == ra[1..] + rb;
  }

  /** Splitting at a separator character splits the two sides independently. */
  lemma {:induction false} SplitAppend(a: string, b: string, sep: char)
    ensures Split(a + [sep] + b, sep) == Split(a, sep) + Split(b, sep)
    decreases |a|
  {
    if a == [] {
      assert a + [sep] + b == [sep] + b;
      SplitCons(sep, b, sep);
    } else {
      SplitAppend(a[1..], b, sep);
      SplitAppendStep(a, b, sep);
    }
  }

  /** A text without the separator is one part. */
  lemma {:induction false} SplitOneLine(a: string, sep: char)
    requires Lacks(a, sep)
    ensures Split(a, sep) == [a]
    decreases |a|
  {
    if a != [] {
      LacksSlice(a, sep, 1, |a|);
      SplitOneLine(a[1..], sep);
      assert [a[0]] + a[1..] == a;
    }
  }

  lemma ParseLinesAppend(x: seq<string>, y: seq<string>)
    ensures ParseLines(x + y) == ParseLines(x) + ParseLines(y)
  {
    ReadLinesAppend(ParseLine, x, y);
  }

  /** Reading two runs of lines one after the other reads each run on its own. */
  lemma {:induction false} ReadLinesAppend<T>(read: string -> seq<T>, x: seq<string>, y: seq<string>)
    ensures ReadLines(read, x + y) == ReadLines(read, x) + ReadLines(read, y)
    decreases |x|
  {
    if x == [] {
      assert x + y == y;
    } else {
      assert (x + y)[0] == x[0];
      assert (x + y)[1..] == x[1..] + y;
      ReadLinesAppend(read, x[1..], y);
    }
  }

  /** A one-line text reads as its line. */
  lemma ReadOneLine(line: string)
    requires Lacks(line, '\n')
    ensures ParseLines(Split(line, '\n')) == ParseLine(line)
  {
    SplitOneLine(line, '\n');
    ParseOneLine(line);
  }

  // ------------------------------------------------------------------ what survives the trip

  /** No character of `s` ends a line. */
  predicate OneLine(s: string) {
    forall k :: 0 <= k < |s| ==> !IsLineTerminator(s[k])
  }

  /** Text a heading or list item can carry through a line: non-empty, trimmed, on one line. */
  predicate LineText(s: string) {
    s != [] && IsTrimmed(s) && OneLine(s)
  }

  /** A link or image target: non-empty, with no `)` and on one line. */
  predicate UrlText(u: string) {
    u != [] && Lacks(u, ')') && Lacks(u, '\n')
  }

  /** A button caption: non-empty, not starting with whitespace, with no `]`, on one line. */
  predicate CaptionText(t: string) {
    t != [] && !IsSpace(t[0]) && Lacks(t, ']') && Lacks(t, '\n')
  }

  /** A paragraph first character that opens none of the line patterns. */
  predicate PlainStart(c: char) {
    c != '#' && c != '-' && c != '+' && c != '!' && !IsDigit(c)
  }

  /** Paragraph text with no markup characters, whose line opens no other pattern. */
  predicate PlainText(s: string) {
    s != [] && IsTrimmed(s) && Lacks(s, '\n') && PlainStart(s[0])
    && Lacks(s, '*') && Lacks(s, '[') && Lacks(s, ']')
  }

  function ParagraphElement(c: string, bold: bool, italic: bool, url: Option<string>): Element {
    Element(Paragraph, c, Formatting(bold, italic, false, None, None, None, None), None, url, None, None, None, None)
  }

  /**
   The elements the Markdown view carries unchanged (spacers aside): every field the writer
   drops is unset, and the text avoids the characters the patterns stop at.
   */
  predicate Portable(e: Element) {
    match e.kind
    case Heading =>
      e.level.Some? && 1 <= e.level.value <= 6 && e == HeadingElement(e.content, e.level.value)
      && LineText(e.content)
    case ListItem =>
      e.listType.Some? && e == ListElement(e.content, e.listType.value) && LineText(e.content)
    case Image =>
      e.url.Some? && e == ImageElement(e.content, e.url.value)
      && e.content != [] && Lacks(e.content, ']') && Lacks(e.content, '\n') && UrlText(e.url.value)
    case Cta =>
      e.ctaUrl.Some? && e == ParserRules.CtaElement(e.content, e.ctaUrl.value)
      && CaptionText(e.content) && UrlText(e.ctaUrl.value)
    case Paragraph =>
      e == ParagraphElement(e.content, e.formatting.bold, e.formatting.italic, e.url)
      && PlainText(e.content)
      && (e.url.Some? ==> UrlText(e.url.value) && Lacks(e.url.value, '*'))
      && (e.url.Some? && !e.formatting.bold && !e.formatting.italic ==> !OccursAt(e.content, "CTA:", 0))
    case Space => true
    case Table => false
  }

  /** What an element reads back as: a spacer loses its level and text. */
  function Canon(e: Element): Element {
    if e.kind == Space then BareSpace else e
  }

  function Canonical(es: seq<Element>): (r: seq<Element>)
    ensures |r| == |es|
    decreases |es|
  {
    if es == [] then [] else [Canon(es[0])] + Canonical(es[1..])
  }

  // ------------------------------------------------------------------ one line per kind

  /** A line not opening with `#` is no heading. */
  lemma NoHeading(t: string)
    requires t != [] && t[0] != '#'
    ensures HeadingLine(t).None?
  {
    FindCharIs(t, 0, NotHash, 0);
  }

  /** A line opening with neither a bullet and whitespace nor a digit is no list item. */
  lemma NoListItem(t: string)
    requires t != [] && !IsDigit(t[0])
    requires IsBullet(t[0]) ==> |t| >= 2 && !IsSpace(t[1])
    ensures BulletLine(t).None? && NumberedLine(t).None? && !OpensNumbered(t)
  {
    FindCharIs(t, 0, NotDigit, 0);
  }

  lemma NoCta(t: string)
    requires !OccursAt(t, "[CTA:", 0)
    ensures CtaLine(t).None?
  {
  }

  /** The lines that match no other pattern fall to the rule check and the paragraph rule. */
  lemma OtherLine(t: string)
    requires t != [] && t[0] != '#' && !IsDigit(t[0]) && t[0] != '!'
    requires IsBullet(t[0]) ==> |t| >= 2 && !IsSpace(t[1])
    requires !OccursAt(t, "[CTA:", 0)
    ensures LineElement(t) == if t == Rule then BareSpace else ParagraphLine(t)
  {
    NoHeading(t);
    NoListItem(t);
    NoCta(t);
  }

  /** A line framed by a visible opening and closing character is one line and trimmed. */
  lemma Framed(p: string, x: string, q: string)
    requires p != [] && !IsSpace(p[0]) && Lacks(p, '\n') && Lacks(x, '\n') && Lacks(q, '\n')
    requires q != [] ==> !IsSpace(q[|q| - 1])
    requires q == [] ==> x != [] && !IsSpace(x[|x| - 1])
    ensures Lacks(p + x + q, '\n') && IsTrimmed(p + x + q)
  {
    var line := p + x + q;
    LacksJoin3(p, x, q, '\n');
    assert line[0] == p[0];
    if q == [] {
      assert line[|line| - 1] == x[|x| - 1];
    } else {
      assert line[|line| - 1] == q[|q| - 1];
    }
  }

  /** `(.+)$` holds from `w` when the rest of the line is a one-line text. */
  lemma RestIs(t: string, w: nat, c: string)
    requires w <= |t| && t[w..] == c && c != [] && OneLine(c)
    ensures RestOfLine(t, w)
  {
    assert forall k :: w <= k < |t| ==> t[k] == c[k - w];
  }

  lemma HeadingPattern(t: string, level: nat, c: string)
    requires 1 <= level <= 6 && level + 1 < |t|
    requires forall j :: 0 <= j < level ==> t[j] == '#'
    requires t[level] == ' ' && !IsSpace(t[level + 1])
    requires t[level + 1..] == c && OneLine(c)
    ensures HeadingLine(t) == Some((level, c))
  {
    FindCharIs(t, 0, NotHash, level);
    assert SkipSpace(t, level) == level + 1;
    RestIs(t, level + 1, c);
  }

  lemma HeadingReads(c: string, level: nat)
    requires 1 <= level <= 6 && LineText(c)
    ensures LineElement(HeadingBlock(c, level)) == HeadingElement(c, level)
  {
    var line := Repeat('#', level) + " " + c;
    assert line[level] == ' ' && line[level + 1] == c[0];
    assert line[level + 1..] == c;
    HeadingPattern(line, level, c);
  }

  lemma HeadingShape(c: string, level: nat)
    requires 1 <= level && LineText(c)
    ensures Lacks(HeadingBlock(c, level), '\n') && IsTrimmed(HeadingBlock(c, level))
  {
    var hashes := Repeat('#', level);
    Framed(hashes + " ", c, []);
    assert hashes + " " + c + [] == HeadingBlock(c, level);
  }

  /** A heading of level one to six with one-line text reads back as itself. */
  lemma HeadingRoundTrip(c: string, level: nat)
    requires 1 <= level <= 6 && LineText(c)
    ensures Lacks(HeadingBlock(c, level), '\n')
    ensures ParseLine(HeadingBlock(c, level)) == [HeadingElement(c, level)]
  {
    HeadingReads(c, level);
    HeadingShape(c, level);
    TrimOfTrimmed(HeadingBlock(c, level));
  }

  lemma ListPattern(t: string, d: nat, c: string)
    requires d + 1 < |t| && t[d] == ' ' && !IsSpace(t[d + 1])
    requires t[d + 1..] == c && OneLine(c)
    ensures SkipSpace(t, d) == d + 1 && RestOfLine(t, d + 1)
  {
    RestIs(t, d + 1, c);
  }

  /** `[^X]*` up to `X` at `e`, then `(`: the positions of a bracketed part. */
  lemma Bracketed(t: string, from: nat, text: string, close: char -> bool)
    requires from + |text| < |t| && t[from..from + |text|] == text
    requires close(t[from + |text|])
    requires forall k :: 0 <= k < |text| ==> !close(text[k])
    ensures FindChar(t, from, close) == from + |text|
  {
    assert forall k :: from <= k < from + |text| ==> t[k] == text[k - from];
    FindCharIs(t, from, close, from + |text|);
  }

  lemma ImagePattern(a: string, u: string)
    requires Lacks(a, ']') && u != [] && Lacks(u, ')')
    ensures ImageLine(ImageBlock(a, u)) == Some((a, u))
  {
    var head := "![" + a + "](";
    var line := head + u + ")";
    assert line == ImageBlock(a, u);
    var n := |a|;
    assert line[..n + 2] == "![" + a;
    assert line[2..2 + n] == a && line[2 + n] == ']' && line[3 + n] == '(';
    Bracketed(line, 2, a, IsCloseBracket);
    assert line[4 + n..4 + n + |u|] == u && line[4 + n + |u|] == ')';
    Bracketed(line, 4 + n, u, IsCloseParen);
  }

  /** The opening `[CTA:` and the caption up to the first `]`. */
  lemma CtaHead(t: string, rest: string)
    requires CaptionText(t) && rest != [] && rest[0] == ']'
    ensures var line := "[CTA: " + t + rest;
      OccursAt(line, "[CTA:", 0) && SkipSpace(line, 5) == 6
      && CtaText.GroupStart(line, 5, 6, NotCloseBracket) == Some(6)
      && FindChar(line, 5, IsCloseBracket) == 6 + |t| && line[6..6 + |t|] == t
  {
    var line := "[CTA: " + t + rest;
    assert line[..5] == "[CTA:";
    assert line[5] == ' ' && line[6] == t[0];
    assert line[6..6 + |t|] == t && line[6 + |t|] == ']';
    Bracketed(line, 6, t, IsCloseBracket);
    assert line[5..6 + |t|] == [' '] + t;
    Bracketed(line, 5, [' '] + t, IsCloseBracket);
  }

  lemma CtaPattern(t: string, u: string)
    requires CaptionText(t) && u != [] && Lacks(u, ')')
    ensures CtaLine(CtaBlock(t, u)) == Some((t, u))
  {
    var rest := "](" + u + ")";
    var line := "[CTA: " + t + rest;
    assert line == CtaBlock(t, u);
    CtaHead(t, rest);
    var n := |t|;
    assert line[7 + n] == '(';
    assert line[8 + n..8 + n + |u|] == u && line[8 + n + |u|] == ')';
    Bracketed(line, 8 + n, u, IsCloseParen);
  }

  lemma ListReads(c: string, ordered: bool)
    requires LineText(c)
    ensures LineElement(ListBlock(c, ordered)) == ListElement(c, if ordered then Ordered else Unordered)
  {
    if ordered {
      var line := "1. " + c;
      assert line == ListBlock(c, true);
      assert line[2] == ' ' && line[3] == c[0];
      assert line[3..] == c;
      ListPattern(line, 2, c);
      FindCharIs(line, 0, NotDigit, 1);
      assert NumberedLine(line) == Some(c);
      NoHeading(line);
    } else {
      var line := "- " + c;
      assert line == ListBlock(c, false);
      assert line[1] == ' ' && line[2] == c[0];
      assert line[2..] == c;
      ListPattern(line, 1, c);
      assert BulletLine(line) == Some(c);
      NoHeading(line);
      FindCharIs(line, 0, NotDigit, 0);
    }
  }

  lemma ListShape(c: string, ordered: bool)
    requires LineText(c)
    ensures Lacks(ListBlock(c, ordered), '\n') && IsTrimmed(ListBlock(c, ordered))
  {
    var marker := if ordered then "1. " else "- ";
    Framed(marker, c, []);
    assert marker + c + [] == ListBlock(c, ordered);
  }

  /** A list item with one-line text reads back as itself, ordered or not. */
  lemma ListRoundTrip(c: string, lt: ListType)
    requires LineText(c)
    ensures Lacks(ListBlock(c, lt == Ordered), '\n')
    ensures ParseLine(ListBlock(c, lt == Ordered)) == [ListElement(c, lt)]
  {
    var line := ListBlock(c, lt == Ordered);
    ListReads(c, lt == Ordered);
    assert (if lt == Ordered then Ordered else Unordered) == lt;
    ListShape(c, lt == Ordered);
    TrimOfTrimmed(line);
  }

  lemma ImageReads(a: string, u: string)
    requires Lacks(a, ']') && u != [] && Lacks(u, ')')
    ensures LineElement(ImageBlock(a, u)) == ImageElement(a, u)
  {
    var line := ImageBlock(a, u);
    ImagePattern(a, u);
    assert line[0] == '!';
    NoHeading(line);
    NoListItem(line);
  }

  lemma ImageShape(a: string, u: string)
    requires Lacks(a, '\n') && Lacks(u, '\n')
    ensures Lacks(ImageBlock(a, u), '\n') && IsTrimmed(ImageBlock(a, u))
  {
    var head := "![" + a + "](";
    LacksJoin3("![", a, "](", '\n');
    Framed(head, u, ")");
  }

  /** An image whose alt text and URL avoid the closing characters reads back as itself. */
  lemma ImageRoundTrip(a: string, u: string)
    requires Lacks(a, ']') && Lacks(a, '\n') && UrlText(u)
    ensures Lacks(ImageBlock(a, u), '\n')
    ensures ParseLine(ImageBlock(a, u)) == [ImageElement(a, u)]
  {
    ImageReads(a, u);
    ImageShape(a, u);
    TrimOfTrimmed(ImageBlock(a, u));
  }

  lemma CtaReads(t: string, u: string)
    requires CaptionText(t) && u != [] && Lacks(u, ')')
    ensures LineElement(CtaBlock(t, u)) == ParserRules.CtaElement(t, u)
  {
    var line := CtaBlock(t, u);
    CtaPattern(t, u);
    assert line[0] == '[';
    NoHeading(line);
    NoListItem(line);
  }

  lemma CtaShape(t: string, u: string)
    requires Lacks(t, '\n') && Lacks(u, '\n')
    ensures Lacks(CtaBlock(t, u), '\n') && IsTrimmed(CtaBlock(t, u))
  {
    var head := "[CTA: " + t + "](";
    LacksJoin3("[CTA: ", t, "](", '\n');
    Framed(head, u, ")");
  }

  /** A button written as `[CTA: text](url)` reads back as the same button. */
  lemma CtaRoundTrip(t: string, u: string)
    requires CaptionText(t) && UrlText(u)
    ensures Lacks(CtaBlock(t, u), '\n')
    ensures ParseLine(CtaBlock(t, u)) == [ParserRules.CtaElement(t, u)]
  {
    CtaReads(t, u);
    CtaShape(t, u);
    TrimOfTrimmed(CtaBlock(t, u));
  }

  lemma SpaceRoundTrip()
    ensures ParseLines(Split(SpaceBlock, '\n')) == [BareSpace]
  {
    SplitAppend([], Rule + "\n", '\n');
    assert [] + ['\n'] + (Rule + "\n") == SpaceBlock;
    SplitAppend(Rule, [], '\n');
    assert Rule + ['\n'] + [] == Rule + "\n";
    SplitOneLine(Rule, '\n');
    var lines := [[], Rule, []];
    assert Split(SpaceBlock, '\n') == lines;
    FindCharIs(Rule, 0, NotHash, 0);
    FindCharIs(Rule, 0, NotDigit, 0);
    TrimOfTrimmed(Rule);
    assert LineElement(Rule) == BareSpace;
    assert lines == [[]] + ([Rule] + [[]]);
    BlankLineCons([Rule] + [[]]);
    ParseLinesCons(Rule, [[]]);
    ParseOneLine([]);
    BlankParse();
  }

  // ------------------------------------------------------------------ paragraph markup

  /** No two adjacent stars: where `\*\*` cannot start. */
  predicate NoDoubleStar(s: string) {
    forall j :: 0 <= j < |s| - 1 ==> !(s[j] == '*' && s[j + 1] == '*')
  }

  lemma StarEdges(x: string)
    requires Lacks(x, '*')
    ensures NoDoubleStar(x) && NoDoubleStar("*" + x) && NoDoubleStar(x + "*")
  {
    assert forall j :: 0 <= j < |x| ==> ("*" + x)[j + 1] == x[j] && (x + "*")[j] == x[j];
  }

  lemma NoDoubleStarAround(p: string, c: string, q: string)
    requires NoDoubleStar(p) && NoDoubleStar(q) && c != [] && Lacks(c, '*')
    ensures NoDoubleStar(p + c + q)
  {
    var s := p + c + q;
    forall j | 0 <= j < |s| - 1
      ensures !(s[j] == '*' && s[j + 1] == '*')
    {
      if j + 1 < |p| {
        assert s[j] == p[j] && s[j + 1] == p[j + 1];
      } else if j + 1 == |p| {
        assert s[j + 1] == c[0];
      } else if j + 1 < |p| + |c| {
        assert s[j] == c[j - |p|];
      } else if j + 1 == |p| + |c| {
        assert s[j] == c[|c| - 1];
      } else {
        assert s[j] == q[j - |p| - |c|] && s[j + 1] == q[j + 1 - |p| - |c|];
      }
    }
  }

  lemma BoldAbsent(s: string)
    requires NoDoubleStar(s)
    ensures Unwrap(s, BoldAt) == (false, s)
  {
    forall j | 0 <= j < |s|
      ensures BoldAt(s, j).None?
    {
    }
  }

  /** No bold span starts inside a prefix without `**`, even right before one. */
  lemma NoBoldBefore(p: string, rest: string)
    requires NoDoubleStar(p) && |rest| >= 3 && rest[0] == '*' && rest[1] == '*' && rest[2] != '*'
    ensures forall j :: 0 <= j < |p| ==> !ValidHit(p + rest, j, BoldAt(p + rest, j))
  {
    var s := p + rest;
    forall j | 0 <= j < |p|
      ensures !ValidHit(s, j, BoldAt(s, j))
    {
      if j + 1 < |p| {
        assert s[j] == p[j] && s[j + 1] == p[j + 1];
      } else if s[j] == '*' {
        assert s[j + 1] == '*' && s[j + 2] == '*';
        assert FindChar(s, j + 2, IsStar) == j + 2;
      }
    }
  }

  /** No bold span starts inside a suffix without `**`. */
  lemma NoBoldAfter(pre: string, q: string)
    requires NoDoubleStar(q)
    ensures forall j :: |pre| <= j < |pre + q| ==> !ValidHit(pre + q, j, BoldAt(pre + q, j))
  {
    var s := pre + q;
    forall j | |pre| <= j < |s|
      ensures !ValidHit(s, j, BoldAt(s, j))
    {
      if j + 1 < |s| {
        assert s[j] == q[j - |pre|] && s[j + 1] == q[j + 1 - |pre|];
      }
    }
  }

  /** One bold span, with no other `**` around it, is unwrapped to its text. */
  lemma BoldUnwrap(p: string, c: string, q: string)
    requires NoDoubleStar(p) && NoDoubleStar(q) && c != [] && Lacks(c, '*')
    ensures Unwrap(p + "**" + c + "**" + q, BoldAt) == (true, p + c + q)
  {
    var rest := "**" + c + "**" + q;
    var pre := p + "**" + c + "**";
    var s := p + rest;
    var k := |p|;
    var e := k + 4 + |c|;
    BoldSpanAt(p, c, q);
    assert s == pre + q;
    NoBoldBefore(p, rest);
    NoBoldAfter(pre, q);
    FirstMatchIs(s, BoldAt, 0, k);
    ReplaceAllOnly(s, BoldAt, FirstGroup, k);
  }

  /** The bold span right after `p` is matched whole, its text as the group. */
  lemma BoldSpanAt(p: string, c: string, q: string)
    requires c != [] && Lacks(c, '*')
    ensures var s := p + "**" + c + "**" + q;
      var k, e := |p|, |p| + 4 + |c|;
      s == p + ("**" + c + "**" + q) && s == (p + "**" + c + "**") + q && |p + "**" + c + "**"| == e
      && ("**" + c + "**" + q)[2] == c[0]
      && BoldAt(s, k) == Some(Hit(e, [c])) && s[..k] == p && s[e..] == q
  {
    var s := p + "**" + c + "**" + q;
    BoldSpanLayout(p, c, q);
    BoldAtSpan(s, |p|, c);
  }

  /** Where the pieces of `p**c**q` sit. */
  lemma BoldSpanLayout(p: string, c: string, q: string)
    requires c != []
    ensures var s := p + "**" + c + "**" + q;
      var k, e := |p|, |p| + 4 + |c|;
      s == p + ("**" + c + "**" + q) && s == (p + "**" + c + "**") + q && |p + "**" + c + "**"| == e
      && ("**" + c + "**" + q)[2] == c[0] && |s| >= e
      && s[k] == '*' && s[k + 1] == '*' && s[k + 2..k + 2 + |c|] == c && s[e - 2] == '*' && s[e - 1] == '*'
      && s[..k] == p && s[e..] == q
  {
    var rest := "**" + c + "**" + q;
    var s := p + rest;
    assert s == p + "**" + c + "**" + q;
    var k := |p|;
    var e := k + 4 + |c|;
    assert rest[2] == c[0];
    assert s[k..] == rest;
    assert rest[2..2 + |c|] == c;
    assert s[..k] == p && s[e..] == q;
  }

  /** Two stars, star-free text and two more stars at `k` make a bold match. */
  lemma BoldAtSpan(s: string, k: nat, c: string)
    requires c != [] && Lacks(c, '*') && k + 4 + |c| <= |s|
    requires s[k] == '*' && s[k + 1] == '*' && s[k + 2..k + 2 + |c|] == c
    requires s[k + 2 + |c|] == '*' && s[k + 3 + |c|] == '*'
    ensures BoldAt(s, k) == Some(Hit(k + 4 + |c|, [c]))
  {
    Bracketed(s, k + 2, c, IsStar);
  }

  lemma ItalicAbsent(s: string)
    requires Lacks(s, '*')
    ensures Unwrap(s, ItalicAt) == (false, s)
  {
    forall j | 0 <= j < |s|
      ensures ItalicAt(s, j).None?
    {
    }
  }

  /** One italic span in otherwise star-free text is unwrapped to its text. */
  lemma ItalicUnwrap(p: string, c: string, q: string)
    requires Lacks(p, '*') && Lacks(q, '*') && c != [] && Lacks(c, '*')
    ensures Unwrap(p + "*" + c + "*" + q, ItalicAt) == (true, p + c + q)
  {
    var s := p + "*" + c + "*" + q;
    var k := |p|;
    var e := k + 2 + |c|;
    assert s[k] == '*' && s[k + 1..k + 1 + |c|] == c && s[e - 1] == '*';
    Bracketed(s, k + 1, c, IsStar);
    assert ItalicAt(s, k) == Some(Hit(e, [c]));
    forall j | 0 <= j < k
      ensures !ValidHit(s, j, ItalicAt(s, j))
    {
      assert s[j] == p[j];
    }
    forall j | e <= j < |s|
      ensures !ValidHit(s, j, ItalicAt(s, j))
    {
      assert s[j] == q[j - e];
    }
    FirstMatchIs(s, ItalicAt, 0, k);
    ReplaceAllOnly(s, ItalicAt, FirstGroup, k);
    assert s[..k] == p && s[e..] == q;
  }

  lemma LinkAtStart(c: string, u: string)
    requires c != [] && Lacks(c, ']') && u != [] && Lacks(u, ')')
    ensures LinkAt("[" + c + "](" + u + ")", 0) == Some(Hit(|c| + |u| + 4, [c, u]))
  {
    var s := "[" + c + "](" + u + ")";
    var n := |c|;
    LinkMarkupPositions(s, c, u);
    Bracketed(s, 1, c, IsCloseBracket);
    Bracketed(s, 3 + n, u, IsCloseParen);
    LinkAtHit(s, 1 + n, 3 + n + |u|);
  }

  /** Where the text, the brackets, the URL and the parentheses of link markup sit. */
  lemma LinkMarkupPositions(s: string, c: string, u: string)
    requires s == "[" + c + "](" + u + ")"
    ensures |s| == |c| + |u| + 4 && s[0] == '['
    ensures s[1..1 + |c|] == c && s[1 + |c|] == ']' && s[2 + |c|] == '('
    ensures s[3 + |c|..3 + |c| + |u|] == u && s[3 + |c| + |u|] == ')'
  {
    var head := "[" + c + "](";
    var n := |c|;
    assert s[..|head|] == head;
    assert head[1..1 + n] == c && head[1 + n] == ']' && head[2 + n] == '(';
  }

  /** `LinkAt` at the start once both closing characters are located. */
  lemma LinkAtHit(s: string, c: nat, b: nat)
    requires 0 < |s| && s[0] == '[' && 1 < c && c + 2 < b < |s| && s[c + 1] == '('
    requires FindChar(s, 1, IsCloseBracket) == c && FindChar(s, c + 2, IsCloseParen) == b
    ensures LinkAt(s, 0) == Some(Hit(b + 1, [s[1..c], s[c + 2..b]]))
  {
  }

  lemma LinkFound(c: string, u: string)
    requires c != [] && Lacks(c, ']') && u != [] && Lacks(u, ')')
    ensures FirstGroups("[" + c + "](" + u + ")", LinkAt) == Some([c, u])
  {
    LinkAtStart(c, u);
    FirstMatchAtStart("[" + c + "](" + u + ")", LinkAt);
  }

  lemma LinkAbsent(s: string)
    requires Lacks(s, '[')
    ensures FirstGroups(s, LinkAt).None?
  {
    forall j | 0 <= j < |s|
      ensures LinkAt(s, j).None?
    {
    }
  }

  /** What link markup puts before and after a text. */
  function LinkOpen(url: Option<string>): string {
    if Truthy(url) then "[" else ""
  }

  function LinkClose(url: Option<string>): string {
    if Truthy(url) then "](" + url.value + ")" else ""
  }

  /** A URL the paragraph markup carries: absent, or one-line text with no `)` or `*`. */
  predicate LinkTarget(url: Option<string>) {
    url.Some? ==> UrlText(url.value) && Lacks(url.value, '*')
  }

  lemma LinkParts(t: string, url: Option<string>)
    requires LinkTarget(url)
    ensures LinkMarkup(t, url) == LinkOpen(url) + t + LinkClose(url)
    ensures Lacks(LinkOpen(url), '*') && Lacks(LinkClose(url), '*')
    ensures Lacks(LinkOpen(url), '\n') && Lacks(LinkClose(url), '\n')
  {
    if Truthy(url) {
      LacksJoin3("](", url.value, ")", '*');
      LacksJoin3("](", url.value, ")", '\n');
    }
  }

  /** The text around the emphasis markup, as the bold pass sees it. */
  lemma BoldFrame(c: string, bold: bool, italic: bool, url: Option<string>)
    requires LinkTarget(url)
    ensures var i := if italic then "*" else "";
      var p, q := LinkOpen(url) + i, i + LinkClose(url);
      NoDoubleStar(p) && NoDoubleStar(q)
      && LinkMarkup(Emphasis(c, bold, italic), url) == if bold then p + "**" + c + "**" + q else p + c + q
  {
    LinkParts(Emphasis(c, bold, italic), url);
    StarEdges(LinkOpen(url));
    StarEdges(LinkClose(url));
    EmphasisRegroup(LinkOpen(url), c, LinkClose(url), bold, italic);
  }

  /** The italic stars join the text around the emphasis; the bold stars stay next to the text. */
  lemma EmphasisRegroup(o: string, c: string, cl: string, bold: bool, italic: bool)
    ensures var i := if italic then "*" else "";
      o + Emphasis(c, bold, italic) + cl
        == if bold then (o + i) + "**" + c + "**" + (i + cl) else (o + i) + c + (i + cl)
  {
    var i := if italic then "*" else "";
    var b := if bold then "**" + c + "**" else c;
    assert Emphasis(c, bold, italic) == i + b + i;
    Regroup3(o, i, b, cl);
    if bold {
      assert (o + i) + b + (i + cl) == (o + i) + "**" + c + "**" + (i + cl);
    }
  }

  lemma Regroup3(o: string, i: string, b: string, cl: string)
    ensures o + (i + b + i) + cl == (o + i) + b + (i + cl)
  {
  }

  /** The bold pass finds the bold markup exactly when there is some, and leaves the rest. */
  lemma BoldStep(c: string, bold: bool, italic: bool, url: Option<string>)
    requires c != [] && Lacks(c, '*') && LinkTarget(url)
    ensures Unwrap(LinkMarkup(Emphasis(c, bold, italic), url), BoldAt)
      == (bold, LinkMarkup(Emphasis(c, false, italic), url))
  {
    var i := if italic then "*" else "";
    var p, q := LinkOpen(url) + i, i + LinkClose(url);
    BoldFrame(c, bold, italic, url);
    BoldFrame(c, false, italic, url);
    if bold {
      BoldUnwrap(p, c, q);
    } else {
      NoDoubleStarAround(p, c, q);
      BoldAbsent(p + c + q);
    }
  }

  /** The italic pass, likewise, once the bold markup is gone. */
  lemma ItalicStep(c: string, italic: bool, url: Option<string>)
    requires c != [] && Lacks(c, '*') && LinkTarget(url)
    ensures Unwrap(LinkMarkup(Emphasis(c, false, italic), url), ItalicAt) == (italic, LinkMarkup(c, url))
  {
    var pre, post := LinkOpen(url), LinkClose(url);
    LinkParts(Emphasis(c, false, italic), url);
    LinkParts(c, url);
    if italic {
      assert LinkMarkup(Emphasis(c, false, true), url) == pre + "*" + c + "*" + post;
      ItalicUnwrap(pre, c, post);
    } else {
      LacksJoin3(pre, c, post, '*');
      ItalicAbsent(pre + c + post);
    }
  }

  /** The link pass finds the link markup exactly when the URL is truthy. */
  lemma LinkStep(c: string, url: Option<string>)
    requires c != [] && Lacks(c, '[') && Lacks(c, ']') && LinkTarget(url)
    ensures FirstGroups(LinkMarkup(c, url), LinkAt)
      == if Truthy(url) then Some([c, url.value]) else None
  {
    if Truthy(url) {
      LinkFound(c, url.value);
    } else {
      LinkAbsent(c);
    }
  }

  /** The paragraph rule undoes the paragraph writer on markup-free text. */
  lemma ParagraphUnwraps(c: string, bold: bool, italic: bool, url: Option<string>)
    requires c != [] && Lacks(c, '*') && Lacks(c, '[') && Lacks(c, ']') && LinkTarget(url)
    ensures ParagraphLine(LinkMarkup(Emphasis(c, bold, italic), url))
      == ParagraphElement(c, bold, italic, if Truthy(url) then url else None)
  {
    BoldStep(c, bold, italic, url);
    ItalicStep(c, italic, url);
    LinkStep(c, url);
  }

  /** A link text that `[CTA:` opens starts with `CTA:` itself. */
  lemma CtaOpensLinkText(c: string, rest: string)
    requires rest != [] && rest[0] == ']'
    requires OccursAt("[" + c + rest, "[CTA:", 0)
    ensures OccursAt(c, "CTA:", 0)
  {
    var s := "[" + c + rest;
    forall k | 1 <= k <= 4
      ensures s[k] == "[CTA:"[k] && s[k] != ']'
    {
      OccursAtChar(s, "[CTA:", 0, k);
    }
    assert s[1 + |c|] == ']';
    assert s[1..5] == c[..4];
  }

  lemma EmphasisShape(c: string, bold: bool, italic: bool)
    requires PlainText(c)
    ensures var e := Emphasis(c, bold, italic);
      e != [] && Lacks(e, '\n') && e[|e| - 1] != '\n' && !IsSpace(e[|e| - 1])
      && e[0] == (if bold || italic then '*' else c[0])
      && (bold || italic ==> |e| >= 2 && !IsSpace(e[1]))
  {
    var b := if bold then "**" + c + "**" else c;
    LacksJoin3("**", c, "**", '\n');
    LacksJoin3("*", b, "*", '\n');
  }

  lemma LinkedShape(e: string, u: string)
    requires e != [] && Lacks(e, '\n') && e[0] != 'C' && LinkTarget(Some(u))
    ensures var line := LinkMarkup(e, Some(u));
      Lacks(line, '\n') && IsTrimmed(line) && line[0] == '[' && !OccursAt(line, "[CTA:", 0)
  {
    var rest := "](" + u + ")";
    var line := LinkMarkup(e, Some(u));
    LinkParts(e, Some(u));
    assert line == "[" + e + rest;
    Framed("[", e, rest);
    assert line[1] == e[0];
  }

  lemma LinkedCtaShape(c: string, u: string)
    requires c != [] && Lacks(c, '\n') && !OccursAt(c, "CTA:", 0) && LinkTarget(Some(u))
    ensures var line := LinkMarkup(c, Some(u));
      Lacks(line, '\n') && IsTrimmed(line) && line[0] == '[' && !OccursAt(line, "[CTA:", 0)
  {
    var rest := "](" + u + ")";
    var line := LinkMarkup(c, Some(u));
    LinkParts(c, Some(u));
    assert line == "[" + c + rest;
    Framed("[", c, rest);
    if OccursAt(line, "[CTA:", 0) {
      CtaOpensLinkText(c, rest);
    }
  }

  lemma ParagraphShape(c: string, bold: bool, italic: bool, url: Option<string>)
    requires PlainText(c) && LinkTarget(url)
    requires Truthy(url) && !bold && !italic ==> !OccursAt(c, "CTA:", 0)
    ensures var line := LinkMarkup(Emphasis(c, bold, italic), url);
      Lacks(line, '\n') && IsTrimmed(line) && line != Rule
      && LineElement(line) == ParagraphLine(line)
  {
    var e := Emphasis(c, bold, italic);
    var line := LinkMarkup(e, url);
    EmphasisShape(c, bold, italic);
    if !Truthy(url) {
    } else if bold || italic {
      LinkedShape(e, url.value);
    } else {
      LinkedCtaShape(c, url.value);
    }
    OtherLine(line);
  }

  /** A paragraph of markup-free text reads back with its bold, italic and link intact. */
  lemma ParagraphRoundTrip(c: string, bold: bool, italic: bool, url: Option<string>)
    requires PlainText(c) && LinkTarget(url)
    requires url.Some? && !bold && !italic ==> !OccursAt(c, "CTA:", 0)
    ensures Lacks(LinkMarkup(Emphasis(c, bold, italic), url), '\n')
    ensures ParseLine(LinkMarkup(Emphasis(c, bold, italic), url)) == [ParagraphElement(c, bold, italic, url)]
  {
    var line := LinkMarkup(Emphasis(c, bold, italic), url);
    ParagraphShape(c, bold, italic, url);
    ParagraphUnwraps(c, bold, italic, url);
    assert (if Truthy(url) then url else None) == url;
    TrimOfTrimmed(line);
  }

  // ------------------------------------------------------------------ whole documents

  /** Every portable element's block reads back as the element, a spacer as a bare one. */
  lemma ElementRoundTrip(e: Element)
    requires Portable(e)
    ensures ParseLines(Split(ElementMarkdown(e), '\n')) == [Canon(e)]
  {
    var block := ElementMarkdown(e);
    match e.kind
    case Heading =>
      HeadingRoundTrip(e.content, e.level.value);
      ReadOneLine(block);
    case ListItem =>
      ListRoundTrip(e.content, e.listType.value);
      ReadOneLine(block);
    case Image =>
      ImageRoundTrip(e.content, e.url.value);
      ReadOneLine(block);
    case Cta =>
      CtaRoundTrip(e.content, e.ctaUrl.value);
      ReadOneLine(block);
    case Paragraph =>
      ParagraphRoundTrip(e.content, e.formatting.bold, e.formatting.italic, e.url);
      ReadOneLine(block);
    case Space =>
      SpaceRoundTrip();
  }

  lemma EmptyReads()
    ensures ParseLines(Split([], '\n')) == []
  {
    var blank: seq<string> := [[]];
    assert Split([], '\n') == blank && blank[1..] == [];
  }

  lemma SplitBlankLine(a: string, b: string)
    ensures Split(a + "\n\n" + b, '\n') == Split(a, '\n') + ([[]] + Split(b, '\n'))
  {
    assert a + "\n\n" + b == a + ['\n'] + (['\n'] + b);
    SplitAppend(a, ['\n'] + b, '\n');
    SplitAppend([], b, '\n');
    assert [] + ['\n'] + b == ['\n'] + b;
  }

  lemma ParseLinesCons(l: string, y: seq<string>)
    ensures ParseLines([l] + y) == ParseLine(l) + ParseLines(y)
  {
    var z := [l] + y;
    assert z[0] == l && z[1..] == y;
  }

  lemma BlankParse()
    ensures ParseLine([]) == []
  {
    assert TrimStart([]) == [];
  }

  lemma SkipBlankLine(x: seq<string>, y: seq<string>)
    ensures ParseLines(x + ([[]] + y)) == ParseLines(x) + ParseLines(y)
  {
    ParseLinesAppend(x, [[]] + y);
    BlankLineCons(y);
  }

  lemma BlankLineCons(y: seq<string>)
    ensures ParseLines([[]] + y) == ParseLines(y)
  {
    ParseLinesCons([], y);
    BlankParse();
  }

  lemma ParseOneLine(line: string)
    ensures ParseLines([line]) == ParseLine(line)
  {
    ParseLinesCons(line, []);
    assert [line] + [] == [line];
  }

  /** The blank line between two blocks reads as nothing. */
  lemma BlankLineReads(a: string, b: string)
    ensures ParseLines(Split(a + "\n\n" + b, '\n')) == ParseLines(Split(a, '\n')) + ParseLines(Split(b, '\n'))
  {
    SplitBlankLine(a, b);
    SkipBlankLine(Split(a, '\n'), Split(b, '\n'));
  }

  lemma BlocksCons(es: seq<Element>)
    requires |es| > 1
    ensures Join(Blocks(es), "\n\n") == ElementMarkdown(es[0]) + "\n\n" + Join(Blocks(es[1..]), "\n\n")
    ensures Canonical(es) == [Canon(es[0])] + Canonical(es[1..])
  {
    assert Blocks(es) == [ElementMarkdown(es[0])] + Blocks(es[1..]);
  }

  lemma BlocksStep(es: seq<Element>)
    requires |es| > 1 && Portable(es[0])
    requires ParseLines(Split(Join(Blocks(es[1..]), "\n\n"), '\n')) == Canonical(es[1..])
    ensures ParseLines(Split(Join(Blocks(es), "\n\n"), '\n')) == Canonical(es)
  {
    ElementRoundTrip(es[0]);
    BlocksCons(es);
    BlankLineReads(ElementMarkdown(es[0]), Join(Blocks(es[1..]), "\n\n"));
  }

  /** The blocks of a document read back one after another. */
  lemma {:induction false} BlocksRoundTrip(es: seq<Element>)
    requires forall k :: 0 <= k < |es| ==> Portable(es[k])
    ensures ParseLines(Split(Join(Blocks(es), "\n\n"), '\n')) == Canonical(es)
    decreases |es|
  {
    if es == [] {
      EmptyReads();
    } else if |es| == 1 {
      ElementRoundTrip(es[0]);
      assert Blocks(es) == [ElementMarkdown(es[0])];
    } else {
      BlocksRoundTrip(es[1..]);
      BlocksStep(es);
    }
  }

  /**
   Writing a document of portable elements as Markdown and reading it back gives the same
   elements, except that every spacer comes back bare (level and text dropped), under the
   current document's title.
   */
  lemma MarkdownRoundTrip(doc: Doc, current: Doc)
    requires forall k :: 0 <= k < |doc.elements| ==> Portable(doc.elements[k])
    ensures MarkdownToDocument(DocumentToMarkdown(doc), current) == Doc(current.title, Canonical(doc.elements))
  {
    BlocksRoundTrip(doc.elements);
  }
}
