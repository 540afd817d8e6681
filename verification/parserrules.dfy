/**
 What the two document parsers (the Google Docs parser and the simple parser) read from a block
 in the same way: its formatting, whether it is a CTA, the CTA's button text and URL, an image's
 source and alt text, and the final filter that drops empty elements.

 The cheerio DOM walk is not modelled: each visited element arrives as a `Node` carrying what
 the parsers ask cheerio for.
 */
module ParserRules {
  import opened Base
  import opened Text
  import opened Scan
  import opened Document
  import opened Numbers
  import opened DocUrls
  import opened CtaText
  import RouteCta

  // ------------------------------------------------------------------ the input

  /**
   What `extractFormatting` reads from an element: its `style` attribute (`""` when absent) and
   whether it holds a `b`/`strong`, an `i`/`em` and a `u` descendant.
   */
  datatype Styling = Styling(style: string, hasBold: bool, hasItalic: bool, hasUnderline: bool)

  /** The first `a` descendant of an element, with its `href` attribute if it has one. */
  datatype Anchor = Anchor(href: Option<string>)

  /**
   One element of the exported body as a parser visits it: the tag name, `text()` (untrimmed),
   `html()`, the formatting inputs, the first anchor inside it, an image's `src` and `alt`
   attributes, and for a list the `li` elements inside it.
   */
  datatype Node = Node(
    tag: string,
    text: string,
    html: string,
    styling: Styling,
    anchor: Option<Anchor>,
    src: Option<string>,
    alt: Option<string>,
    items: seq<Node>)

  /** `h1` … `h6` (already lower-cased) give their digit as the heading level. */
  function HeadingTagLevel(tag: string): (r: Option<nat>)
    ensures r.Some? ==> 1 <= r.value <= 6
    ensures r.Some? <==> |tag| == 2 && tag[0] == 'h' && '1' <= tag[1] <= '6'
  {
    if |tag| == 2 && tag[0] == 'h' && '1' <= tag[1] <= '6' then Some(tag[1] as int - '0' as int)
    else None
  }

  /** The tag the generator writes for a heading level is read back as that level. */
  lemma HeadingTagRoundTrip(level: nat)
    requires 1 <= level <= 6
    ensures HeadingTagLevel("h" + NatToString(level)) == Some(level)
  {
    assert NatToString(level) == [DigitChar(level)];
  }

  // ------------------------------------------------------------------ formatting

  predicate IsHexRun(s: string, from: nat, n: nat) {
    from + n <= |s| && forall k :: from <= k < from + n ==> IsHexDigit(s[k])
  }

  /** What a property's value pattern accepts: a size in a unit, a colour, or an alignment keyword. */
  datatype ValueKind = Size(unit: string) | Colour | Align

  /** `\d+(?:\.\d+)?` followed by the unit at `w`: where the digits end, the unit checked after them. */
  function SizeEnd(s: string, w: nat, unit: string): (r: Option<nat>)
    requires w <= |s|
    ensures r.Some? ==> w < r.value <= |s| && OccursAt(s, unit, r.value)
  {
    var d := FindChar(s, w, NotDigit);
    if d == w then None
    else if d < |s| && s[d] == '.' && FindChar(s, d + 1, NotDigit) > d + 1
      && OccursAt(s, unit, FindChar(s, d + 1, NotDigit))
    then Some(FindChar(s, d + 1, NotDigit))
    else if OccursAt(s, unit, d) then Some(d)
    else None
  }

  predicate IsCloseParen(c: char) { c == ')' }

  /** `#[0-9a-fA-F]{6}|#[0-9a-fA-F]{3}|rgb\([^)]+\)` at `w`, the alternatives tried in order. */
  function ColourEnd(s: string, w: nat): (r: Option<nat>)
    requires w <= |s|
    ensures r.Some? ==> w < r.value <= |s|
  {
    if w < |s| && s[w] == '#' && IsHexRun(s, w + 1, 6) then Some(w + 7)
    else if w < |s| && s[w] == '#' && IsHexRun(s, w + 1, 3) then Some(w + 4)
    else if OccursAt(s, "rgb(", w) then
      var e := FindChar(s, w + 4, IsCloseParen);
      if w + 4 < e < |s| then Some(e + 1) else None
    else None
  }

  /** `left|center|right|justify` at `w`. */
  function AlignEnd(s: string, w: nat): (r: Option<nat>)
    ensures r.Some? ==> w < r.value <= |s|
  {
    if OccursAt(s, "left", w) then Some(w + 4)
    else if OccursAt(s, "center", w) then Some(w + 6)
    else if OccursAt(s, "right", w) then Some(w + 5)
    else if OccursAt(s, "justify", w) then Some(w + 7)
    else None
  }

  function ValueEnd(kind: ValueKind, s: string, w: nat): (r: Option<nat>)
    requires w <= |s|
    ensures r.Some? ==> w < r.value <= |s|
    ensures r.Some? && kind.Size? ==> OccursAt(s, kind.unit, r.value)
  {
    match kind
    case Size(unit) => SizeEnd(s, w, unit)
    case Colour => ColourEnd(s, w)
    case Align => AlignEnd(s, w)
  }

  /**
   `name\s*(value)` at `p`, plus the unit after a size. A greedy `\s*` followed by a value that
   starts with no whitespace never gives characters back, so the value starts where the
   whitespace ends.
   */
  function DeclAt(name: string, kind: ValueKind, s: string, p: nat): (r: Option<Hit>)
    ensures r.Some? ==> OccursAt(s, name, p) && p < r.value.end <= |s| && |r.value.groups| == 1
  {
    if OccursAt(s, name, p) then
      var w := SkipSpace(s, p + |name|);
      match ValueEnd(kind, s, w)
      case Some(e) =>
        Some(Hit(if kind.Size? then e + |kind.unit| else e, [s[w..e]]))
      case None => None
    else None
  }

  /** `/font-size:\s*(\d+(?:\.\d+)?)px/`, the Google Docs parser's size. */
  function PxSizeAt(s: string, p: nat): Option<Hit> { DeclAt("font-size:", Size("px"), s, p) }

  /** `/font-size:\s*(\d+(?:\.\d+)?)pt/`, the simple parser's size. */
  function PtSizeAt(s: string, p: nat): Option<Hit> { DeclAt("font-size:", Size("pt"), s, p) }

  /** `/color:\s*(…)/`: no word boundary, so it also matches inside `background-color:`. */
  function ColourAt(s: string, p: nat): Option<Hit> { DeclAt("color:", Colour, s, p) }

  function BackgroundAt(s: string, p: nat): Option<Hit> { DeclAt("background-color:", Colour, s, p) }

  function AlignAt(s: string, p: nat): Option<Hit> { DeclAt("text-align:", Align, s, p) }

  /** Group 1 of the first match of a one-group pattern, as `style.match(re)?.[1]`. */
  function FirstValue(s: string, m: Matcher): Option<string> {
    match FirstGroups(s, m)
    case Some(g) => Some(Group(g, 1))
    case None => None
  }

  predicate IsBold(st: Styling) {
    || Contains(st.style, "font-weight: bold") || Contains(st.style, "font-weight: 700")
    || Contains(st.style, "font-weight: 800") || Contains(st.style, "font-weight: 900")
    || st.hasBold
  }

  predicate IsItalic(st: Styling) { Contains(st.style, "font-style: italic") || st.hasItalic }

  predicate IsUnderlined(st: Styling) {
    Contains(st.style, "text-decoration: underline") || st.hasUnderline
  }

  predicate IsColourValue(v: string) {
    || (|v| == 7 && v[0] == '#' && IsHexRun(v, 1, 6))
    || (|v| == 4 && v[0] == '#' && IsHexRun(v, 1, 3))
    || (|v| > 5 && OccursAt(v, "rgb(", 0) && v[|v| - 1] == ')' && Lacks(v[4..|v| - 1], ')'))
  }

  predicate IsAlignKeyword(v: string) {
    v == "left" || v == "center" || v == "right" || v == "justify"
  }

  /** The value group of a declaration match is the value its pattern accepts. */
  lemma DeclValue(name: string, kind: ValueKind, s: string, p: nat)
    requires DeclAt(name, kind, s, p).Some?
    ensures var v := DeclAt(name, kind, s, p).value.groups[0];
      && (kind.Size? ==> IsDecimal(v))
      && (kind.Colour? ==> IsColourValue(v))
      && (kind.Align? ==> IsAlignKeyword(v))
  {
    var w := SkipSpace(s, p + |name|);
    var e := ValueEnd(kind, s, w).value;
    match kind
    case Size(unit) => SizeValue(s, w, unit);
    case Colour => ColourValue(s, w);
    case Align =>
  }

  lemma SizeValue(s: string, w: nat, unit: string)
    requires w <= |s| && SizeEnd(s, w, unit).Some?
    ensures IsDecimal(s[w..SizeEnd(s, w, unit).value])
  {
    var e := SizeEnd(s, w, unit).value;
    var v := s[w..e];
    var d := FindChar(s, w, NotDigit);
    var n := d - w;
    assert 0 < n <= |v|;
    assert forall k :: 0 <= k < n ==> IsDigit(v[k]) by {
      forall k | 0 <= k < n ensures IsDigit(v[k]) {
        assert v[k] == s[w + k] && !NotDigit(s[w + k]);
      }
    }
    if e != d {
      var f := FindChar(s, d + 1, NotDigit);
      assert e == f && v[n] == s[d] == '.' && n + 1 < |v|;
      forall k | n < k < |v| ensures IsDigit(v[k]) {
        assert v[k] == s[w + k] && !NotDigit(s[w + k]);
      }
    }
    assert DecimalPoint(v, n);
    DecimalAt(v, n);
  }

  lemma ColourValue(s: string, w: nat)
    requires w <= |s| && ColourEnd(s, w).Some?
    ensures IsColourValue(s[w..ColourEnd(s, w).value])
  {
    var e := ColourEnd(s, w).value;
    var v := s[w..e];
    assert forall k :: 0 <= k < |v| ==> v[k] == s[w + k];
    if e != w + 7 && e != w + 4 {
      assert OccursAt(v, "rgb(", 0) by { assert v[..4] == s[w..w + 4]; }
      assert v[4..|v| - 1] == s[w + 4..e - 1];
    }
  }

  /** A first match of a declaration pattern reads a value of the right shape. */
  lemma FirstValueShape(name: string, kind: ValueKind, s: string, m: Matcher)
    requires forall p: nat :: m(s, p) == DeclAt(name, kind, s, p)
    requires FirstValue(s, m).Some?
    ensures var v := FirstValue(s, m).value;
      && (kind.Size? ==> IsDecimal(v))
      && (kind.Colour? ==> IsColourValue(v))
      && (kind.Align? ==> IsAlignKeyword(v))
  {
    var p := FirstMatchFrom(s, 0, m).value;
    assert m(s, p) == DeclAt(name, kind, s, p);
    DeclValue(name, kind, s, p);
  }

  /** Every value either parser reads has the shape its pattern accepts. */
  lemma ValuesShaped(s: string)
    ensures FirstValue(s, PxSizeAt).Some? ==> IsDecimal(FirstValue(s, PxSizeAt).value)
    ensures FirstValue(s, PtSizeAt).Some? ==> IsDecimal(FirstValue(s, PtSizeAt).value)
    ensures FirstValue(s, ColourAt).Some? ==> IsColourValue(FirstValue(s, ColourAt).value)
    ensures FirstValue(s, BackgroundAt).Some? ==> IsColourValue(FirstValue(s, BackgroundAt).value)
    ensures FirstValue(s, AlignAt).Some? ==> IsAlignKeyword(FirstValue(s, AlignAt).value)
  {
    if FirstValue(s, PxSizeAt).Some? { FirstValueShape("font-size:", Size("px"), s, PxSizeAt); }
    if FirstValue(s, PtSizeAt).Some? { FirstValueShape("font-size:", Size("pt"), s, PtSizeAt); }
    if FirstValue(s, ColourAt).Some? { FirstValueShape("color:", Colour, s, ColourAt); }
    if FirstValue(s, BackgroundAt).Some? { FirstValueShape("background-color:", Colour, s, BackgroundAt); }
    if FirstValue(s, AlignAt).Some? { FirstValueShape("text-align:", Align, s, AlignAt); }
  }

  /**
   The Google Docs parser's `extractFormatting`: the three flags from the style text or a
   descendant tag, the size in px, the text and background colours, and the alignment.
   */
  function DocsFormatting(st: Styling): (r: Formatting)
    ensures r.bold == IsBold(st) && r.italic == IsItalic(st) && r.underline == IsUnderlined(st)
    ensures r.fontSize.Some? <==> FirstValue(st.style, PxSizeAt).Some?
    ensures r.fontSize.Some? ==> IsCanonical(r.fontSize.value)
    ensures r.color.Some? ==> IsColourValue(r.color.value)
    ensures r.backgroundColor.Some? ==> IsColourValue(r.backgroundColor.value)
    ensures r.alignment.Some? ==> IsAlignKeyword(r.alignment.value)
  {
    var s := st.style;
    ValuesShaped(s);
    Formatting(IsBold(st), IsItalic(st), IsUnderlined(st),
      SizeNumber(FirstValue(s, PxSizeAt)), FirstValue(s, ColourAt), FirstValue(s, BackgroundAt), FirstValue(s, AlignAt))
  }

  /** `parseFloat` of the size read, held as the number prints. */
  function SizeNumber(v: Option<string>): (r: Option<string>)
    requires v.Some? ==> IsDecimal(v.value)
  {
    match v
    case Some(ds) => Some(CanonicalNumber(ds))
    case None => None
  }

  /**
   The simple parser's `extractFormatting`: the same flags, the size in pt, and the text
   colour only.
   */
  function SimpleFormatting(st: Styling): (r: Formatting)
    ensures r.bold == IsBold(st) && r.italic == IsItalic(st) && r.underline == IsUnderlined(st)
    ensures r.fontSize.Some? <==> FirstValue(st.style, PtSizeAt).Some?
    ensures r.fontSize.Some? ==> IsCanonical(r.fontSize.value)
    ensures r.color.Some? ==> IsColourValue(r.color.value)
    ensures r.backgroundColor.None? && r.alignment.None?
  {
    var s := st.style;
    ValuesShaped(s);
    Formatting(IsBold(st), IsItalic(st), IsUnderlined(st), SizeNumber(FirstValue(s, PtSizeAt)), FirstValue(s, ColourAt), None, None)
  }

  /** The size the Google Docs parser reads is shown exactly when it was there and was not zero. */
  lemma DocsSizeTruthy(st: Styling)
    ensures var v := FirstValue(st.style, PxSizeAt);
      NumberTruthy(DocsFormatting(st).fontSize) <==> v.Some? && IsDecimal(v.value) && !IsZero(v.value)
  {
    var v := FirstValue(st.style, PxSizeAt);
    ValuesShaped(st.style);
    if v.Some? {
      ZeroPrintsAsZero(v.value);
    }
  }

  /** The two parsers read the same flags and the same text colour. */
  lemma FormattingsAgree(st: Styling)
    ensures var d := DocsFormatting(st); var s := SimpleFormatting(st);
      d.bold == s.bold && d.italic == s.italic && d.underline == s.underline && d.color == s.color
  {
  }

  // ------------------------------------------------------------------ formatting quirks

  /** Where `font-size:` can start in `font-size: N` followed by digits and a two-letter unit. */
  lemma OnlyLeadingSize(ds: string, unit: string, p: nat)
    requires forall k :: 0 <= k < |ds| ==> IsDigit(ds[k])
    requires |unit| == 2 && unit[0] != 'f' && unit[1] != 'f'
    requires 0 < p
    ensures !OccursAt("font-size: " + ds + unit, "font-size:", p)
  {
    var s := "font-size: " + ds + unit;
    if p < |s| {
      if p < 11 {
        assert s[p] == "font-size: "[p];
      } else if p < 11 + |ds| {
        assert s[p] == ds[p - 11];
      } else {
        assert s[p] == unit[p - 11 - |ds|];
      }
      assert s[p] != 'f';
      NotOccursAt(s, "font-size:", p, 0);
    }
  }

  /** A greedy `\s*` from `from` stops where the first non-space character is. */
  lemma SkipSpaceIs(s: string, from: nat, k: nat)
    requires from <= k < |s| && !IsSpace(s[k])
    requires forall j :: from <= j < k ==> IsSpace(s[j])
    ensures SkipSpace(s, from) == k
  {
  }

  /** `x + sp + ds + unit` read as a size at `|x|`: the digits are the value. */
  lemma SizeAfterSpaces(x: string, sp: string, ds: string, unit: string)
    requires forall k :: 0 <= k < |sp| ==> IsSpace(sp[k])
    requires ds != [] && forall k :: 0 <= k < |ds| ==> IsDigit(ds[k])
    requires |unit| == 2 && !IsDigit(unit[0]) && unit[0] != '.'
    ensures var s := x + sp + ds + unit; var w := |x| + |sp|;
      SkipSpace(s, |x|) == w && SizeEnd(s, w, unit) == Some(w + |ds|) && s[w..w + |ds|] == ds
  {
    SizeReadJoined(x + sp + ds + unit, x, sp, ds, unit);
  }

  lemma SizeReadJoined(s: string, x: string, sp: string, ds: string, unit: string)
    requires s == x + sp + ds + unit
    requires forall k :: 0 <= k < |sp| ==> IsSpace(sp[k])
    requires ds != [] && forall k :: 0 <= k < |ds| ==> IsDigit(ds[k])
    requires |unit| == 2 && !IsDigit(unit[0]) && unit[0] != '.'
    ensures SkipSpace(s, |x|) == |x| + |sp| && SizeEnd(s, |x| + |sp|, unit) == Some(|x| + |sp| + |ds|)
    ensures s[|x| + |sp|..|x| + |sp| + |ds|] == ds
  {
    SizeSlices(s, x, sp, ds, unit);
    SizeRead(s, |x|, sp, ds, unit);
  }

  lemma SizeSlices(s: string, x: string, sp: string, ds: string, unit: string)
    requires s == x + sp + ds + unit
    ensures Window(s, |x|, sp) && Window(s, |x| + |sp|, ds) && Window(s, |x| + |sp| + |ds|, unit)
  {
    WindowOf(x, sp, ds + unit);
    Assoc(x + sp, ds, unit);
    WindowOf(x + sp, ds, unit);
    WindowOf(x + sp + ds, unit, []);
    EmptySuffix(x + sp + ds + unit);
  }

  /** Spaces, digits and a unit lying at `from` inside `s`, read as a size. */
  lemma SizeRead(s: string, from: nat, sp: string, ds: string, unit: string)
    requires Window(s, from, sp) && Window(s, from + |sp|, ds) && Window(s, from + |sp| + |ds|, unit)
    requires forall k :: 0 <= k < |sp| ==> IsSpace(sp[k])
    requires ds != [] && forall k :: 0 <= k < |ds| ==> IsDigit(ds[k])
    requires |unit| == 2 && !IsDigit(unit[0]) && unit[0] != '.'
    ensures SkipSpace(s, from) == from + |sp| && SizeEnd(s, from + |sp|, unit) == Some(from + |sp| + |ds|)
    ensures s[from + |sp|..from + |sp| + |ds|] == ds
  {
    var w := from + |sp|;
    var d := w + |ds|;
    WindowChar(s, w, ds, 0);
    SpacesInWindow(s, from, sp);
    WindowChar(s, d, unit, 0);
    DigitsInWindow(s, w, ds);
    SizeEndAt(s, w, d, unit);
  }

  /** A run of spaces lying at `from`, followed by something else, is where `\s*` stops. */
  lemma SpacesInWindow(s: string, from: nat, sp: string)
    requires Window(s, from, sp) && from + |sp| < |s| && !IsSpace(s[from + |sp|])
    requires forall k :: 0 <= k < |sp| ==> IsSpace(sp[k])
    ensures SkipSpace(s, from) == from + |sp|
  {
    forall k | from <= k < from + |sp| ensures IsSpace(s[k]) { WindowChar(s, from, sp, k - from); }
    SkipSpaceIs(s, from, from + |sp|);
  }

  /** A run of digits lying at `w`, followed by a non-digit, is where `\d+` stops. */
  lemma DigitsInWindow(s: string, w: nat, ds: string)
    requires Window(s, w, ds) && w + |ds| < |s| && NotDigit(s[w + |ds|])
    requires forall k :: 0 <= k < |ds| ==> IsDigit(ds[k])
    ensures FindChar(s, w, NotDigit) == w + |ds|
  {
    forall k | w <= k < w + |ds| ensures !NotDigit(s[k]) { WindowChar(s, w, ds, k - w); }
    FindCharIs(s, w, NotDigit, w + |ds|);
  }

  /** Digits from `w` up to `d`, then the unit and no decimal point: the size ends at `d`. */
  lemma SizeEndAt(s: string, w: nat, d: nat, unit: string)
    requires w < d < |s| && FindChar(s, w, NotDigit) == d && s[d] != '.' && OccursAt(s, unit, d)
    ensures SizeEnd(s, w, unit) == Some(d)
  {
  }

  /**
   The two parsers read sizes in different units: a `font-size` in px is the Google Docs
   parser's size and is invisible to the simple parser, which reads only pt.
   */
  lemma SizeUnitsDiffer(ds: string, st: Styling)
    requires ds != [] && forall k :: 0 <= k < |ds| ==> IsDigit(ds[k])
    requires st.style == "font-size: " + ds + "px"
    ensures IsDecimal(ds) && DocsFormatting(st).fontSize == Some(CanonicalNumber(ds))
    ensures SimpleFormatting(st).fontSize.None?
  {
    assert DecimalPoint(ds, |ds|);
    DecimalAt(ds, |ds|);
    PxSizeRead(ds);
    PtSizeMissing(ds);
  }

  lemma PxSizeRead(ds: string)
    requires ds != [] && forall k :: 0 <= k < |ds| ==> IsDigit(ds[k])
    ensures FirstValue("font-size: " + ds + "px", PxSizeAt) == Some(ds)
  {
    var s := "font-size: " + ds + "px";
    assert s == "font-size:" + " " + ds + "px";
    SizeAfterSpaces("font-size:", " ", ds, "px");
    assert OccursAt(s, "font-size:", 0) by { assert s[..10] == "font-size:"; }
    assert PxSizeAt(s, 0) == Some(Hit(|s|, [ds]));
    FirstMatchAtStart(s, PxSizeAt);
  }

  lemma PtSizeMissing(ds: string)
    requires ds != [] && forall k :: 0 <= k < |ds| ==> IsDigit(ds[k])
    ensures FirstValue("font-size: " + ds + "px", PtSizeAt).None?
  {
    var s := "font-size: " + ds + "px";
    assert s == "font-size:" + " " + ds + "px";
    SizeAfterSpaces("font-size:", " ", ds, "px");
    var d := 11 + |ds|;
    assert s[d + 1] == 'x';
    assert !OccursAt(s, "pt", d);
    assert PtSizeAt(s, 0).None?;
    forall p | 0 < p < |s| ensures !ValidHit(s, p, PtSizeAt(s, p)) {
      OnlyLeadingSize(ds, "pt", p);
    }
    assert FirstMatchFrom(s, 0, PtSizeAt).None?;
  }

  /** `x + sp + c` read as a colour at `|x|`, for a six-digit hex colour `c`. */
  lemma ColourAfterSpaces(x: string, sp: string, c: string)
    requires forall k :: 0 <= k < |sp| ==> IsSpace(sp[k])
    requires |c| == 7 && c[0] == '#' && IsHexRun(c, 1, 6)
    ensures var s := x + sp + c; var w := |x| + |sp|;
      SkipSpace(s, |x|) == w && ColourEnd(s, w) == Some(|s|) && s[w..] == c
  {
    var s := x + sp + c;
    var w := |x| + |sp|;
    forall k | |x| <= k < w ensures IsSpace(s[k]) { assert s[k] == sp[k - |x|]; }
    assert s[w] == '#';
    SkipSpaceIs(s, |x|, w);
    forall k | w + 1 <= k < w + 7 ensures IsHexDigit(s[k]) { assert s[k] == c[k - w]; }
    assert s[w..] == c;
  }

  /** `color:` does not start before the `color:` of `background-color:`. */
  lemma NoColourBefore(rest: string, p: nat)
    requires p < 11
    ensures !OccursAt("background-" + rest, "color:", p)
  {
    var s := "background-" + rest;
    if p + 6 <= |s| {
      var w := s[p..p + 6];
      assert w[0] == s[p] && w[1] == s[p + 1];
      assert s[p] == "background-"[p];
      if p < 10 { assert s[p + 1] == "background-"[p + 1]; }
      assert w[0] != 'c' || w[1] != 'o';
    }
  }

  /**
   The colour pattern has no word boundary: a style that sets only a background colour gives
   the element that colour as its text colour too.
   */
  lemma BackgroundReadAsColour(sp: string, c: string, st: Styling)
    requires forall k :: 0 <= k < |sp| ==> IsSpace(sp[k])
    requires |c| == 7 && c[0] == '#' && IsHexRun(c, 1, 6)
    requires st.style == "background-color:" + sp + c
    ensures DocsFormatting(st).backgroundColor == Some(c)
    ensures DocsFormatting(st).color == Some(c)
  {
    var s := st.style;
    ColourAfterSpaces("background-color:", sp, c);
    assert OccursAt(s, "background-color:", 0) by { assert s[..17] == "background-color:"; }
    var w := 17 + |sp|;
    assert SkipSpace(s, 17) == w && ColourEnd(s, w) == Some(|s|) && s[w..|s|] == c;
    assert BackgroundAt(s, 0) == Some(Hit(|s|, [c]));
    FirstMatchAtStart(s, BackgroundAt);
    var rest := "color:" + sp + c;
    assert s == "background-" + rest;
    assert s == "background-" + "color:" + sp + c;
    ColourAfterSpaces("background-" + "color:", sp, c);
    assert OccursAt(s, "color:", 11) by { assert s[11..17] == "color:"; }
    assert ColourAt(s, 11) == Some(Hit(|s|, [c]));
    forall p | 0 <= p < 11 ensures !ValidHit(s, p, ColourAt(s, p)) {
      NoColourBefore(rest, p);
    }
    FirstMatchIs(s, ColourAt, 0, 11);
  }

  // ------------------------------------------------------------------ CTA elements

  /**
   `isCTAPattern`, the same in both parsers: the trimmed text opens with `[cta]`, or with `cta`
   followed by `:` or whitespace, in any letter case; or the untrimmed text holds `<CTA>`.
   */
  predicate IsCtaPattern(text: string) {
    var t := Trim(text);
    || AtCI(t, 0, "[cta]")
    || (AtCI(t, 0, "cta") && |t| > 3 && ColonOrSpace(t[3]))
    || Contains(text, "<CTA>")
  }

  /** The trim of a string is a slice of it. */
  lemma TrimIsSlice(s: string) returns (a: nat)
    ensures a + |Trim(s)| <= |s| && Trim(s) == s[a..a + |Trim(s)|]
  {
    var t := TrimStart(s);
    a := |s| - |t|;
    assert TrimEnd(t) == t[..|TrimEnd(t)|];
  }

  /** Every trigger holds the letters `cta` in some case. */
  lemma CtaPatternNeedsCta(text: string)
    requires IsCtaPattern(text)
    ensures ContainsCI(text, "cta")
  {
    var t := Trim(text);
    if Contains(text, "<CTA>") {
      var i :| 0 <= i <= |text| && OccursAt(text, "<CTA>", i);
      CtaInTag(text, i);
    } else if AtCI(t, 0, "cta") {
      CiInTrim(text, 0);
    } else {
      BracketHoldsCta(t, 0);
      CiInTrim(text, 1);
    }
  }

  lemma CiInTrim(text: string, i: nat)
    requires AtCI(Trim(text), i, "cta")
    ensures ContainsCI(text, "cta")
  {
    var t := Trim(text);
    var a := TrimIsSlice(text);
    assert i + 3 <= |t|;
    var x, y := t[i..i + 3], text[a + i..a + i + 3];
    forall k | 0 <= k < 3 ensures x[k] == y[k] {
      assert t[i + k] == text[a + i + k];
    }
    assert x == y;
    assert AtCI(text, a + i, "cta");
  }

  lemma CtaInTag(text: string, i: nat)
    requires OccursAt(text, "<CTA>", i)
    ensures ContainsCI(text, "cta")
  {
    OccursAtChar(text, "<CTA>", i, 1);
    OccursAtChar(text, "<CTA>", i, 2);
    OccursAtChar(text, "<CTA>", i, 3);
    var u := text[i + 1..i + 4];
    assert u[0] == 'C' && u[1] == 'T' && u[2] == 'A';
    assert Lower(u) == "cta";
    assert AtCI(text, i + 1, "cta");
  }

  /** The parsers accept a lower-case `cta:` opening, which the conversion route ignores. */
  lemma LowerCaseCtaParsed()
    ensures IsCtaPattern("cta: Shop now") && !RouteCta.Triggers("cta: Shop now")
  {
    var text := "cta: Shop now";
    assert IsTrimmed(text);
    TrimOfTrimmed(text);
    assert AtCI(text, 0, "cta") && text[3] == ':';
    RouteCta.LowerCaseCtaNoTrigger();
  }

  /**
   The route accepts `CTA` with no separator after it (as in `CTAx`), which the parsers ignore.
   */
  lemma SeparatorlessCtaIgnored(text: string)
    requires |text| == 4 && text[..3] == "CTA" && !ColonOrSpace(text[3])
    ensures !IsCtaPattern(text) && RouteCta.Triggers(text)
  {
    assert text[0] == text[..3][0];
    assert IsTrimmed(text);
    SeparatorlessNoTrigger(text);
    NoTriggerNoPattern(text);
    RouteTriggersOnCta(text);
  }

  /** `isCTAPattern` with the trim left out. */
  predicate TrimmedTrigger(t: string) {
    || AtCI(t, 0, "[cta]")
    || (AtCI(t, 0, "cta") && |t| > 3 && ColonOrSpace(t[3]))
    || Contains(t, "<CTA>")
  }

  /** A text with no whitespace at either end triggers exactly when it does untrimmed. */
  lemma NoTriggerNoPattern(t: string)
    requires IsTrimmed(t) && !TrimmedTrigger(t)
    ensures !IsCtaPattern(t)
  {
    TrimOfTrimmed(t);
  }

  lemma RouteTriggersOnCta(t: string)
    requires IsTrimmed(t) && |t| >= 3 && t[..3] == "CTA"
    ensures RouteCta.Triggers(t)
  {
    TrimOfTrimmed(t);
  }

  lemma SeparatorlessNoTrigger(text: string)
    requires |text| == 4 && !ColonOrSpace(text[3])
    ensures !TrimmedTrigger(text)
  {
    AtCITooLong(text, 0, "[cta]");
  }

  /**
   `CTA[:\s]*([^\n\r]+)` matches at `p` once `cta` is there and a character that is not a line
   break follows it past a run of colons and whitespace.
   */
  lemma CtaWordFires(t: string, p: nat, k: nat)
    requires AtCI(t, p, "cta") && p + 3 <= k < |t| && NotLineBreak(t[k])
    requires forall j :: p + 3 <= j < k ==> ColonOrSpace(t[j])
    ensures ValidHit(t, p, CtaWordAt(t, p))
  {
    var w := FindChar(t, p + 3, c => !ColonOrSpace(c));
    assert k <= w;
    var g := GroupStart(t, p + 3, w, NotLineBreak);
    assert g.Some?;
  }

  /** A match of the `CTA` pattern anywhere gives a button text. */
  lemma WordGivesText(t: string, p: nat)
    requires ValidHit(t, p, CtaWordAt(t, p))
    ensures DirectiveText(t).Some?
  {
    assert FirstMatchFrom(t, 0, CtaWordAt).Some?;
  }

  /**
   A trimmed text that triggers a CTA always yields a button text: the paragraph (or `null`)
   that `parseCTA` and `parseCTAElement` return when no pattern matches cannot be reached from
   the paragraph rule.
   */
  lemma TriggerHasText(t: string)
    requires IsTrimmed(t) && IsCtaPattern(t)
    ensures DirectiveText(t).Some?
  {
    TrimOfTrimmed(t);
    TagTriggerHasText(t);
    BracketTriggerHasText(t);
    WordTriggerHasText(t);
  }

  lemma BracketTriggerHasText(t: string)
    ensures AtCI(t, 0, "[cta]") ==> DirectiveText(t).Some?
  {
    if !AtCI(t, 0, "[cta]") { return; }
    BracketHoldsCta(t, 0);
    AtCIChar(t, 0, "[cta]", 4);
    CtaWordFires(t, 1, 4);
    WordGivesText(t, 1);
  }

  lemma WordTriggerHasText(t: string)
    ensures IsTrimmed(t) && AtCI(t, 0, "cta") && |t| > 3 && ColonOrSpace(t[3]) ==> DirectiveText(t).Some?
  {
    if !(IsTrimmed(t) && AtCI(t, 0, "cta") && |t| > 3 && ColonOrSpace(t[3])) { return; }
    var w := FindChar(t, 3, c => !ColonOrSpace(c));
    if w < |t| {
      CtaWordFires(t, 0, w);
    } else {
      CtaWordFires(t, 0, |t| - 1);
    }
    WordGivesText(t, 0);
  }

  lemma TagTriggerHasText(t: string)
    ensures Contains(t, "<CTA>") ==> DirectiveText(t).Some?
  {
    if !Contains(t, "<CTA>") { return; }
    var i :| 0 <= i <= |t| && OccursAt(t, "<CTA>", i);
    OccursAtChar(t, "<CTA>", i, 4);
    OccursAtChar(t, "<CTA>", i, 1);
    OccursAtChar(t, "<CTA>", i, 2);
    OccursAtChar(t, "<CTA>", i, 3);
    var w := t[i + 1..i + 4];
    assert w[0] == 'C' && w[1] == 'T' && w[2] == 'A';
    assert Lower(w) == "cta";
    assert AtCI(t, i + 1, "cta");
    CtaWordFires(t, i + 1, i + 4);
    WordGivesText(t, i + 1);
  }

  /**
   The button text and URL of a CTA element whose trimmed text is `text` and whose inner HTML
   is `html`; `None` when neither directive pattern matches the text. An anchor in the HTML
   gives both (its `href` cleaned, untrimmed); otherwise a trailing `http(s)://` run is split
   off the button text; otherwise the URL is `#`.
   */
  function CtaParts(text: string, html: string, lookupQ: string -> QueryLookup): (r: Option<(string, string)>)
    ensures r.None? <==> DirectiveText(text).None?
    ensures r.Some? ==> IsTrimmed(r.value.0)
    ensures r.Some? && FirstGroups(html, AnchorAt).Some? ==>
      var g := FirstGroups(html, AnchorAt).value;
      r.value == (Trim(Group(g, 2)), CleanGoogleDocsUrl(Group(g, 1), lookupQ))
    ensures r.Some? && FirstGroups(html, AnchorAt).None? ==>
      r.value == SplitTrailingUrl(DirectiveText(text).value)
  {
    match DirectiveText(text)
    case None => None
    case Some(caption) =>
      match FirstGroups(html, AnchorAt)
      case Some(g) => Some((TrimAndShow(Group(g, 2)), CleanGoogleDocsUrl(Group(g, 1), lookupQ)))
      case None => Some(SplitTrailingUrl(caption))
  }

  /** The element both parsers build for a CTA: the button text is also the content. */
  function CtaElement(caption: string, url: string): (r: Element)
    ensures r.kind == Cta && r.content == caption && r.ctaText == Some(caption) && r.ctaUrl == Some(url)
    ensures r.formatting == NoFormatting && r.url.None? && r.level.None?
  {
    Element(Cta, caption, NoFormatting, None, None, None, None, Some(caption), Some(url))
  }

  /** A plain anchor supplies the button: its text trimmed, its URL cleaned. */
  lemma CtaPartsPlainAnchor(text: string, u: string, t: string, lookupQ: string -> QueryLookup)
    requires DirectiveText(text).Some?
    requires u != [] && !ContainsCI(u, "href=")
    requires forall k :: 0 <= k < |u| ==> !IsQuote(u[k]) && !IsCloseAngle(u[k])
    requires t != [] && forall k :: 0 <= k < |t| ==> !IsOpenAngle(t[k])
    ensures CtaParts(text, RouteCta.PlainAnchor(u, t), lookupQ) == Some((Trim(t), CleanGoogleDocsUrl(u, lookupQ)))
  {
    RouteCta.PlainAnchorGroups(u, t);
    assert Group([u, t], 1) == u && Group([u, t], 2) == t;
  }

  /**
   With an anchor whose `href` has no surrounding whitespace, the parsers choose the same
   button text and URL as the conversion route (which trims the `href` before cleaning it).
   */
  lemma CtaPartsAgreeWithRoute(text: string, html: string, table: CommentTable, lookupQ: string -> QueryLookup)
    requires DirectiveText(text).Some?
    requires FirstGroups(html, AnchorAt).Some? && IsTrimmed(Group(FirstGroups(html, AnchorAt).value, 1))
    ensures CtaParts(text, html, lookupQ) == Some(RouteCta.ChooseLink(DirectiveText(text).value, html, table, lookupQ))
  {
    TrimOfTrimmed(Group(FirstGroups(html, AnchorAt).value, 1));
  }

  /** Without an anchor and without any `http(s)://` in the button text, the URL is `#`. */
  lemma CtaPartsWithoutUrl(text: string, html: string, lookupQ: string -> QueryLookup)
    requires DirectiveText(text).Some? && FirstGroups(html, AnchorAt).None?
    requires var c := DirectiveText(text).value; forall q :: 0 <= q < |c| ==> SchemeLen(c, q) == 0
    ensures CtaParts(text, html, lookupQ) == Some((DirectiveText(text).value, "#"))
  {
    var c := DirectiveText(text).value;
    if FirstMatchFrom(c, 0, UrlAfterText).Some? {
      var p := FirstMatchFrom(c, 0, UrlAfterText).value;
      LazyUrlNeedsUrl(c, p, p);
      assert false;
    }
  }

  // ------------------------------------------------------------------ images

  /** `src.startsWith("//") ? "https:" + src : src`. */
  function WithScheme(src: string): (r: string)
    ensures OccursAt(src, "//", 0) ==> r == "https:" + src
    ensures !OccursAt(src, "//", 0) ==> r == src
  {
    if OccursAt(src, "//", 0) then "https:" + src else src
  }

  /** A prefix whose characters never start `p` creates no occurrence of `p`. */
  lemma ContainsBehindPrefix(pre: string, s: string, p: string)
    requires p != [] && Lacks(pre, p[0])
    ensures Contains(pre + s, p) <==> Contains(s, p)
  {
    if Contains(s, p) {
      var i :| 0 <= i <= |s| && OccursAt(s, p, i);
      ContainsAfter(pre, s, p, i);
    }
    if Contains(pre + s, p) {
      var i :| 0 <= i <= |pre + s| && OccursAt(pre + s, p, i);
      OccursAtChar(pre + s, p, i, 0);
      assert i >= |pre|;
      assert (pre + s)[i..i + |p|] == s[i - |pre|..i - |pre| + |p|];
      assert OccursAt(s, p, i - |pre|);
    }
  }

  /** Adding the scheme changes no test the image rules make on the URL. */
  lemma SchemeKeepsTests(src: string)
    ensures Contains(WithScheme(src), "googleusercontent.com") <==> Contains(src, "googleusercontent.com")
    ensures Contains(WithScheme(src), "=w") <==> Contains(src, "=w")
  {
    if OccursAt(src, "//", 0) {
      ContainsBehindPrefix("https:", src, "googleusercontent.com");
      ContainsBehindPrefix("https:", src, "=w");
    }
  }

  // ------------------------------------------------------------------ the final filter

  /** An element survives the final filter: visible text, or a space, or an image. */
  predicate Kept(e: Element) {
    Trim(e.content) != [] || e.kind == Space || e.kind == Image
  }

  /** `elements.filter(...)` with the test above. */
  function DropEmpty(es: seq<Element>): (r: seq<Element>)
    ensures |r| <= |es|
  {
    if es == [] then [] else KeepOne(es[0]) + DropEmpty(es[1..])
  }

  function KeepOne(e: Element): (r: seq<Element>)
    ensures r == [e] || r == []
  {
    if Kept(e) then [e] else []
  }

  /** The filter keeps exactly the elements that pass the test. */
  lemma {:induction false} DropEmptyMembers(es: seq<Element>)
    ensures forall e :: e in DropEmpty(es) <==> e in es && Kept(e)
  {
    if es != [] {
      DropEmptyMembers(es[1..]);
      assert es == [es[0]] + es[1..];
    }
  }

  /** The filter works element by element, so it keeps the order. */
  lemma {:induction false} DropEmptyAppend(a: seq<Element>, b: seq<Element>)
    ensures DropEmpty(a + b) == DropEmpty(a) + DropEmpty(b)
  {
    if a == [] {
      assert a + b == b;
    } else {
      var head := KeepOne(a[0]);
      assert (a + b)[0] == a[0] && (a + b)[1..] == a[1..] + b;
      DropEmptyAppend(a[1..], b);
      calc {
        DropEmpty(a + b);
        head + DropEmpty(a[1..] + b);
        head + (DropEmpty(a[1..]) + DropEmpty(b));
        (head + DropEmpty(a[1..])) + DropEmpty(b);
      }
    }
  }

  /** A list whose elements all pass the test is left as it is. */
  lemma {:induction false} DropEmptyKeepsKept(es: seq<Element>)
    requires forall i :: 0 <= i < |es| ==> Kept(es[i])
    ensures DropEmpty(es) == es
  {
    if es != [] {
      DropEmptyKeepsKept(es[1..]);
    }
  }
}
