/**
 The HTML generator (`HtmlGenerator`): every element of a document becomes one block of
 inline-styled markup, the blocks are joined by newlines, and the whole is wrapped in a
 fixed-width container. Plain text is HTML-escaped; text that already holds a tag is passed
 through as it is.
 */
module HtmlGenerator {
  import opened Base
  import opened Text
  import opened Document
  import opened HtmlEscape
  import opened MailImageUrl
  import opened CssStyles

  // ------------------------------------------------------------------ options

  /**
   The generator's options. `maxWidth` is an integral number of pixels; `lineHeight` is kept
   as the text JavaScript prints for the number (`1.6` prints as `"1.6"`).
   */
  datatype Options = Options(
    maxWidth: nat,
    fontFamily: string,
    lineHeight: string,
    baseColor: string,
    ctaButtonColor: string,
    ctaTextColor: string)

  /** The options a caller may pass; an absent key keeps the default. */
  datatype Overrides = Overrides(
    maxWidth: Option<nat>,
    fontFamily: Option<string>,
    lineHeight: Option<string>,
    baseColor: Option<string>,
    ctaButtonColor: Option<string>,
    ctaTextColor: Option<string>)

  const DefaultOptions := Options(600, "Arial, sans-serif", "1.6", "#333333", "#ff6b35", "#ffffff")
  const NoOverrides := Overrides(None, None, None, None, None, None)

  /** `{ ...defaults, ...options }`. */
  function Configure(ov: Overrides): Options {
    Options(
      ov.maxWidth.OrElse(DefaultOptions.maxWidth),
      ov.fontFamily.OrElse(DefaultOptions.fontFamily),
      ov.lineHeight.OrElse(DefaultOptions.lineHeight),
      ov.baseColor.OrElse(DefaultOptions.baseColor),
      ov.ctaButtonColor.OrElse(DefaultOptions.ctaButtonColor),
      ov.ctaTextColor.OrElse(DefaultOptions.ctaTextColor))
  }

  /**
   The spread: with nothing passed the defaults stand; a passed option replaces its default
   and leaves every other option at the default.
   */
  lemma ConfigureSpread(ov: Overrides)
    ensures Configure(NoOverrides) == DefaultOptions
    ensures ov.fontFamily.Some? ==> Configure(ov).fontFamily == ov.fontFamily.value
    ensures ov.fontFamily.None? ==> Configure(ov).fontFamily == "Arial, sans-serif"
    ensures ov.ctaButtonColor.None? ==> Configure(ov).ctaButtonColor == "#ff6b35"
    ensures ov.ctaTextColor.None? ==> Configure(ov).ctaTextColor == "#ffffff"
    ensures Configure(ov.(fontFamily := None)) == Configure(ov).(fontFamily := DefaultOptions.fontFamily)
  {
  }

  // ------------------------------------------------------------------ heading tables

  /** `N + "px"`. */
  function Px(n: nat): string {
    NatToString(n) + "px"
  }

  /** The heading sizes in pixels: h1 is 24, and from h2 on each level is 2 smaller (20 … 12). */
  function HeadingFontPx(level: nat): nat
    requires 1 <= level <= 6
  {
    if level == 1 then 24 else 24 - 2 * level
  }

  /** `getHeadingFontSize`: a literal table for h1 … h6, `16px` for any other level. */
  function HeadingFontSize(level: nat): string {
    if level == 1 then "24px"
    else if level == 2 then "20px"
    else if level == 3 then "18px"
    else if level == 4 then "16px"
    else if level == 5 then "14px"
    else if level == 6 then "12px"
    else "16px"
  }

  /** A `margin` shorthand with only a top and a bottom. */
  function MarginText(top: nat, bottom: nat): string {
    Px(top) + " 0 " + Px(bottom) + " 0"
  }

  /**
   `getHeadingMargin`: a literal table for h1 … h6, in which both margins shrink by 2px a
   level from 20px/16px; any other level gets h3's margins.
   */
  function HeadingMargin(level: nat): string {
    if level == 1 then "20px 0 16px 0"
    else if level == 2 then "18px 0 14px 0"
    else if level == 3 then "16px 0 12px 0"
    else if level == 4 then "14px 0 10px 0"
    else if level == 5 then "12px 0 8px 0"
    else if level == 6 then "10px 0 6px 0"
    else "16px 0 12px 0"
  }

  /** The decimal text of a two-digit number. */
  lemma TwoDigits(n: nat)
    requires 10 <= n < 100
    ensures NatToString(n) == [DigitChar(n / 10), DigitChar(n % 10)]
  {
  }

  /** The size table follows the scale: 24px for h1, then 2px less a level, and h4's size elsewhere. */
  lemma HeadingFontSizeScale(level: nat)
    ensures 1 <= level <= 6 ==> HeadingFontSize(level) == Px(HeadingFontPx(level))
    ensures !(1 <= level <= 6) ==> HeadingFontSize(level) == Px(16)
  {
    if 1 <= level <= 6 {
      assert HeadingFontSize(level) == Px(HeadingFontPx(level)) by { TwoDigits(HeadingFontPx(level)); }
    } else {
      assert HeadingFontSize(level) == Px(16) by { TwoDigits(16); }
    }
  }

  lemma OneOrTwoDigits(n: nat)
    requires n < 100
    ensures n < 10 ==> NatToString(n) == [DigitChar(n)]
    ensures 10 <= n ==> NatToString(n) == [DigitChar(n / 10), DigitChar(n % 10)]
  {
  }

  /** The margin table follows the scale: both margins shrink by 2px a level, and h3's margins elsewhere. */
  lemma HeadingMarginScale(level: nat)
    ensures 1 <= level <= 6 ==> HeadingMargin(level) == MarginText(22 - 2 * level, 18 - 2 * level)
    ensures !(1 <= level <= 6) ==> HeadingMargin(level) == MarginText(16, 12)
  {
    if 1 <= level <= 3 {
      HeadingMarginUpper(level);
    } else if 4 <= level <= 6 {
      HeadingMarginLower(level);
    } else {
      assert HeadingMargin(level) == MarginText(16, 12) by { TwoDigits(16); TwoDigits(12); }
    }
  }

  lemma HeadingMarginUpper(level: nat)
    requires 1 <= level <= 3
    ensures HeadingMargin(level) == MarginText(22 - 2 * level, 18 - 2 * level)
  {
    if level == 1 {
      assert HeadingMargin(1) == MarginText(20, 16) by { TwoDigits(20); TwoDigits(16); }
    } else if level == 2 {
      assert HeadingMargin(2) == MarginText(18, 14) by { TwoDigits(18); TwoDigits(14); }
    } else if level == 3 {
      assert HeadingMargin(3) == MarginText(16, 12) by { TwoDigits(16); TwoDigits(12); }
    }
  }

  lemma HeadingMarginLower(level: nat)
    requires 4 <= level <= 6
    ensures HeadingMargin(level) == MarginText(22 - 2 * level, 18 - 2 * level)
  {
    if level == 4 {
      assert HeadingMargin(4) == MarginText(14, 10) by { TwoDigits(14); TwoDigits(10); }
    } else if level == 5 {
      assert HeadingMargin(5) == MarginText(12, 8) by { TwoDigits(12); OneOrTwoDigits(8); }
    } else if level == 6 {
      assert HeadingMargin(6) == MarginText(10, 6) by { TwoDigits(10); OneOrTwoDigits(6); }
    }
  }

  // ------------------------------------------------------------------ rich text

  predicate IsGt(c: char) { c == '>' }

  /** `<[^>]+>` covers `s[i..j + 1]`: a `<`, at least one character other than `>`, then `>`. */
  predicate TagSpan(s: string, i: int, j: int) {
    0 <= i && i + 1 < j < |s| && s[i] == '<' && s[j] == '>' && forall k :: i < k < j ==> s[k] != '>'
  }

  /**
   The regex engine's attempt at `p`: `<`, then the greedy `[^>]+` runs to the first `>`
   (giving characters back cannot help, since the next one would not be `>`), which must
   exist and must not be the very next character.
   */
  predicate TagStartsAt(s: string, p: nat) {
    p + 1 < |s| && s[p] == '<' && s[p + 1] != '>' && FindChar(s, p + 1, IsGt) < |s|
  }

  /** `/<[^>]+>/.test(s)` tried from `from` on, one start after another. */
  function HasTagFrom(s: string, from: nat): bool
    decreases |s| - from
  {
    if from >= |s| then false else TagStartsAt(s, from) || HasTagFrom(s, from + 1)
  }

  /** `isRichText`: the content already holds a tag. */
  function IsRichText(s: string): bool {
    HasTagFrom(s, 0)
  }

  lemma TagStartsAtSpan(s: string, p: nat)
    ensures TagStartsAt(s, p) <==> exists j :: TagSpan(s, p, j)
  {
    if TagStartsAt(s, p) {
      assert TagSpan(s, p, FindChar(s, p + 1, IsGt));
    }
    if exists j :: TagSpan(s, p, j) {
      var j :| TagSpan(s, p, j);
      assert !IsGt(s[p + 1]) && IsGt(s[j]);
      assert FindChar(s, p + 1, IsGt) <= j;
    }
  }

  lemma {:induction false} HasTagFromSpan(s: string, from: nat)
    ensures HasTagFrom(s, from) <==> exists i, j :: from <= i && TagSpan(s, i, j)
    decreases |s| - from
  {
    if from < |s| {
      TagStartsAtSpan(s, from);
      HasTagFromSpan(s, from + 1);
      if exists i, j :: from <= i && TagSpan(s, i, j) {
        var i, j :| from <= i && TagSpan(s, i, j);
        if i != from {
          assert from + 1 <= i && TagSpan(s, i, j);
        }
      }
    }
  }

  /** The scan agrees with the pattern: the content is rich exactly when some tag spans part of it. */
  lemma IsRichTextSpan(s: string)
    ensures IsRichText(s) <==> exists i, j :: TagSpan(s, i, j)
  {
    HasTagFromSpan(s, 0);
  }

  /** Text without `<` holds no tag. */
  lemma NoLtNotRich(s: string)
    requires Lacks(s, '<')
    ensures !IsRichText(s)
  {
    IsRichTextSpan(s);
  }

  /** The content as it goes into a block: rich text verbatim, anything else escaped. */
  function RenderContent(content: string): (r: string)
    ensures IsRichText(content) ==> r == content
    ensures !IsRichText(content) ==> r == EscapeHtml(content)
  {
    if IsRichText(content) then content else EscapeHtml(content)
  }

  /**
   Rich text passes through; plain text comes out free of markup characters and decodes back
   to itself, so it is no longer taken for rich text.
   */
  lemma RenderContentMeaning(content: string)
    ensures IsRichText(content) ==> RenderContent(content) == content
    ensures !IsRichText(content) ==> Unescape(RenderContent(content)) == content
    ensures !IsRichText(content) ==> Lacks(RenderContent(content), '<') && Lacks(RenderContent(content), '>')
    ensures !IsRichText(content) ==> !IsRichText(RenderContent(content))
  {
    if !IsRichText(content) {
      EscapeHtmlRoundTrip(content);
      EscapeHtmlIsInert(content);
      NoLtNotRich(EscapeHtml(content));
    }
  }

  // ------------------------------------------------------------------ text blocks

  /** `<tag style="styles">inner</tag>`. */
  function Block(tag: string, styles: string, inner: string): (r: string)
    ensures r != [] && r[0] == '<'
  {
    "<" + tag + " style=\"" + styles + "\">" + inner + "</" + tag + ">"
  }

  function HeadingBase(level: nat): StyleEntries {
    [("fontSize", HeadingFontSize(level)), ("fontWeight", "bold"), ("margin", HeadingMargin(level)),
     ("lineHeight", "1.3")]
  }

  function HeadingStyles(o: Options, e: Element): StyleEntries {
    StyleObject(e.formatting, HeadingBase(LevelOr1(e.level)), o.fontFamily)
  }

  /** `h${level || 1}`. */
  function HeadingTag(level: Option<nat>): string {
    "h" + NatToString(LevelOr1(level))
  }

  /** The tag names the level: two headings share a tag exactly when they share `level || 1`. */
  lemma HeadingTagLevel(l1: Option<nat>, l2: Option<nat>)
    ensures HeadingTag(l1) == HeadingTag(l2) <==> LevelOr1(l1) == LevelOr1(l2)
  {
    var d1, d2 := NatToString(LevelOr1(l1)), NatToString(LevelOr1(l2));
    if HeadingTag(l1) == HeadingTag(l2) {
      assert d1 == HeadingTag(l1)[1..] && d2 == HeadingTag(l2)[1..];
      NatToStringRoundTrip(LevelOr1(l1));
      NatToStringRoundTrip(LevelOr1(l2));
    }
  }

  function GenerateHeading(o: Options, e: Element): string {
    Block(HeadingTag(e.level), StyleText(HeadingStyles(o, e)), RenderContent(e.content))
  }

  lemma DistinctFour(a: string, b: string, c: string, d: string, m: StyleEntries)
    requires |m| == 4 && m[0].0 == a && m[1].0 == b && m[2].0 == c && m[3].0 == d
    requires a != b && a != c && a != d && b != c && b != d && c != d
    ensures Keys(m) == [a, b, c, d] && Distinct(Keys(m))
  {
    KeysIndex(m);
  }

  /**
   A heading's declarations: the element's size, weight and alignment win over the level's
   table values; margin and line height come from the table; the font family is always the
   configured one. The four base properties come first, in this order, and none repeats.
   */
  lemma HeadingStyleValues(o: Options, e: Element)
    ensures var s := HeadingStyles(o, e); var f := e.formatting; var l := LevelOr1(e.level);
      && Lookup(s, "fontSize") == Some(if NumberTruthy(f.fontSize) then f.fontSize.value + "px" else HeadingFontSize(l))
      && Lookup(s, "fontWeight") == Some(if f.bold then "bold !important" else "bold")
      && Lookup(s, "margin") == Some(HeadingMargin(l))
      && Lookup(s, "lineHeight") == Some("1.3")
      && Lookup(s, "fontFamily") == Some(o.fontFamily)
      && Lookup(s, "textAlign") == (if Truthy(f.alignment) then f.alignment else None)
    ensures var s := HeadingStyles(o, e);
      Distinct(Keys(s)) && IsPrefix(["fontSize", "fontWeight", "margin", "lineHeight"], Keys(s))
  {
    var f, l := e.formatting, LevelOr1(e.level);
    var base := HeadingBase(l);
    DistinctFour("fontSize", "fontWeight", "margin", "lineHeight", base);
    LookupAt(base, 0);
    LookupAt(base, 1);
    LookupAt(base, 2);
    LookupAt(base, 3);
    LookupSomeIn(base, "fontFamily");
    LookupSomeIn(base, "textAlign");
    StyleObjectLookup(f, base, o.fontFamily, "fontSize");
    StyleObjectLookup(f, base, o.fontFamily, "fontWeight");
    StyleObjectLookup(f, base, o.fontFamily, "margin");
    StyleObjectLookup(f, base, o.fontFamily, "lineHeight");
    StyleObjectLookup(f, base, o.fontFamily, "textAlign");
    StyleObjectShape(f, base, o.fontFamily);
  }

  function ParagraphBase(o: Options): StyleEntries {
    [("margin", "0 0 16px 0"), ("lineHeight", o.lineHeight)]
  }

  const LinkStyle := "color: #1a73e8; text-decoration: underline;"

  /** `<a href="url" target="_blank" style="…">`. */
  function LinkOpen(url: string): (r: string)
    ensures r != [] && r[0] == '<'
  {
    "<" + "a href=\"" + url + "\" target=\"_blank\" style=\"" + LinkStyle + "\">"
  }

  /** A paragraph's content, wrapped in a link when it has a URL and is not rich text. */
  function ParagraphInner(e: Element): string {
    var c := RenderContent(e.content);
    if Truthy(e.url) && !IsRichText(e.content) then LinkOpen(e.url.value) + c + "</a>" else c
  }

  function GenerateParagraph(o: Options, e: Element): string {
    Block("p", InlineStyles(e.formatting, ParagraphBase(o), o.fontFamily), ParagraphInner(e))
  }

  /**
   A plain-text paragraph carries markup exactly when it has a URL, and then it is one link
   to that URL around the escaped text; rich text ignores the URL.
   */
  lemma ParagraphLink(e: Element)
    ensures !IsRichText(e.content) ==> (Lacks(ParagraphInner(e), '<') <==> !Truthy(e.url))
    ensures !IsRichText(e.content) && Truthy(e.url) ==>
      ParagraphInner(e) == LinkOpen(e.url.value) + EscapeHtml(e.content) + "</a>"
    ensures IsRichText(e.content) ==> ParagraphInner(e) == e.content
  {
    if !IsRichText(e.content) {
      EscapeHtmlIsInert(e.content);
      if Truthy(e.url) {
        var r := ParagraphInner(e);
        assert r[0] == LinkOpen(e.url.value)[0];
      }
    }
  }

  function ListBase(o: Options): StyleEntries {
    [("margin", "8px 0"), ("lineHeight", o.lineHeight)]
  }

  function GenerateListItem(o: Options, e: Element): string {
    Block("li", InlineStyles(e.formatting, ListBase(o), o.fontFamily), RenderContent(e.content))
  }

  /**
   Paragraphs and list items share their declarations apart from the margin: the line height
   is the configured one unless nothing overrides it, and the family is always the configured one.
   */
  lemma BodyStyleValues(o: Options, e: Element)
    ensures var f := e.formatting;
      && Lookup(StyleObject(f, ParagraphBase(o), o.fontFamily), "margin") == Some("0 0 16px 0")
      && Lookup(StyleObject(f, ListBase(o), o.fontFamily), "margin") == Some("8px 0")
      && Lookup(StyleObject(f, ParagraphBase(o), o.fontFamily), "lineHeight") == Some(o.lineHeight)
      && Lookup(StyleObject(f, ListBase(o), o.fontFamily), "lineHeight") == Some(o.lineHeight)
      && Lookup(StyleObject(f, ParagraphBase(o), o.fontFamily), "fontFamily") == Some(o.fontFamily)
      && Lookup(StyleObject(f, ListBase(o), o.fontFamily), "fontFamily") == Some(o.fontFamily)
  {
    var f := e.formatting;
    KeysIndex(ParagraphBase(o));
    KeysIndex(ListBase(o));
    LookupSomeIn(ParagraphBase(o), "fontFamily");
    LookupSomeIn(ListBase(o), "fontFamily");
    StyleObjectLookup(f, ParagraphBase(o), o.fontFamily, "margin");
    StyleObjectLookup(f, ParagraphBase(o), o.fontFamily, "lineHeight");
    StyleObjectLookup(f, ListBase(o), o.fontFamily, "margin");
    StyleObjectLookup(f, ListBase(o), o.fontFamily, "lineHeight");
  }

  // ------------------------------------------------------------------ images

  const ImageStyle := "max-width: 100%; height: auto; display: block; border: 0; margin: 16px 0"
  const ImageAnchorStyle := "display: inline-block; text-decoration: none; border: none;"

  /** `element.url || ""`, rewritten to the mail size when it is a Google-hosted image. */
  function ImageSrc(e: Element): string {
    OptimizeForMail(Or(e.url, []))
  }

  /** `element.alt || element.content || "이미지"`. */
  function ImageAlt(e: Element): (r: string)
    ensures r != []
    ensures Truthy(e.alt) ==> r == e.alt.value
    ensures !Truthy(e.alt) && e.content != [] ==> r == e.content
    ensures !Truthy(e.alt) && e.content == [] ==> r == DefaultAlt
  {
    Or(e.alt, Or(Some(e.content), DefaultAlt))
  }

  function ImgTag(src: string, alt: string): (r: string)
    ensures r != [] && r[0] == '<' && |r| >= 2 && r[1] == 'i'
  {
    "<" + "img src=\"" + src + "\" alt=\"" + alt + "\" style=\"" + ImageStyle + "\">"
  }

  function GenerateImage(e: Element): (r: string)
    ensures r != [] && r[0] == '<'
  {
    var img := ImgTag(ImageSrc(e), ImageAlt(e));
    if Truthy(e.ctaUrl) then "<" + "a href=\"" + e.ctaUrl.value + "\" target=\"_blank\" style=\"" + ImageAnchorStyle + "\">" + img + "</a>"
    else img
  }

  /** The image is wrapped in a link exactly when it has a truthy `ctaUrl`. */
  lemma ImageLinked(e: Element)
    ensures var r := GenerateImage(e); |r| >= 2 && r[0] == '<' && (r[1] == 'a' <==> Truthy(e.ctaUrl))
  {
  }

  /**
   The `src` of a Google-hosted image is the mail-size rewrite of its URL, and rendering an
   image whose URL is already that rewrite yields the same source: the generator's output is
   stable under a second pass, provided the original URL carried no size parameter.
   */
  lemma ImageSrcStable(e: Element)
    requires Truthy(e.url) && Contains(e.url.value, GoogleImageHost) && Unsized(e.url.value)
    ensures ImageSrc(e) == SizeForMail(e.url.value)
    ensures ImageSrc(e.(url := Some(ImageSrc(e)))) == ImageSrc(e)
  {
    var a := e.url.value;
    SizeForMailUnsized(a);
    var sep: string := if Contains(a, "?") then "&" else "?";
    assert SizeForMail(a) == a + (sep + MailSize);
    ContainsAppend(a, sep + MailSize, GoogleImageHost);
    SizeForMailIdempotent(a);
  }

  // ------------------------------------------------------------------ call-to-action button

  // The fixed text of the button template, between its interpolations.
  const CtaTop := "!-- CTA 버튼 상단 여백 -->\n<table cellpadding=\"0\" cellspacing=\"0\" style=\"border-collapse: collapse; width: 100%;\">\n  <tr>\n    <td style=\"height: 30px; line-height: 30px; font-size: 1px;\">&nbsp;</td>\n  </tr>\n</table>\n\n<!-- CTA 버튼 -->\n<table cellpadding=\"0\" cellspacing=\"0\" style=\"border-collapse: collapse; width: 100%;\">\n  <tr>\n    <td style=\"text-align: center;\">\n      <table cellpadding=\"0\" cellspacing=\"0\" style=\"border-collapse: collapse;\">\n        <tr>\n          <td style=\"padding: 0; background-color: "
  const CtaLinkOpen := "; border-radius: 6px;\">\n            <a href=\""
  const CtaLinkStyle := "\" style=\"\n              display: block;\n              padding: 16px 32px;\n              background-color: "
  const CtaLinkColor := " !important;\n              color: "
  const CtaLinkFont := " !important;\n              text-decoration: none !important;\n              border-radius: 6px;\n              font-weight: bold;\n              font-size: 16px;\n              line-height: 1.2;\n              text-align: center;\n              border: none;\n              font-family: "
  const CtaFontOpen := ";\n              mso-line-height-rule: exactly;\n            \" target=\"_blank\">\n              <font color=\""
  const CtaFontStyle := "\" style=\"color: "
  const CtaSpanOpen := " !important; text-decoration: none !important;\">\n                <span style=\"color: "
  const CtaSpanEnd := " !important; text-decoration: none !important;\">\n                  "
  const CtaBottom := "\n                </span>\n              </font>\n            </a>\n          </td>\n        </tr>\n      </table>\n    </td>\n  </tr>\n</table>\n\n<!-- CTA 버튼 하단 여백 -->\n<table cellpadding=\"0\" cellspacing=\"0\" style=\"border-collapse: collapse; width: 100%;\">\n  <tr>\n    <td style=\"height: 40px; line-height: 40px; font-size: 1px;\">&nbsp;</td>\n  </tr>\n</table"

  /** The button template up to the link target; it opens with the top spacer's comment. */
  function CtaHead(o: Options): (r: string)
    ensures r != [] && r[0] == '<'
  {
    "<" + CtaTop + o.ctaButtonColor + CtaLinkOpen
  }

  /** The template between the link target and the button label. */
  function CtaMid(o: Options): string {
    CtaLinkStyle + o.ctaButtonColor + CtaLinkColor + o.ctaTextColor + CtaLinkFont + o.fontFamily
    + CtaFontOpen + o.ctaTextColor + CtaFontStyle + o.ctaTextColor + CtaSpanOpen + o.ctaTextColor + CtaSpanEnd
  }

  /** The template after the label, down to the bottom spacer's closing tag. */
  const CtaTail := CtaBottom + ">"

  lemma CtaTailEnds()
    ensures CtaTail != [] && CtaTail[|CtaTail| - 1] == '>'
  {
  }

  /** `element.ctaText || element.content`. */
  function CtaLabel(e: Element): string {
    Or(e.ctaText, e.content)
  }

  /** `element.ctaUrl || "#"`. */
  function CtaTarget(e: Element): string {
    Or(e.ctaUrl, "#")
  }

  /** The template without its leading line break. */
  function CtaBody(o: Options, e: Element): string {
    CtaHead(o) + CtaTarget(e) + CtaMid(o) + EscapeHtml(CtaLabel(e)) + CtaTail
  }

  /** The trim removes only the template's leading line break, whatever the label and target. */
  lemma CtaBodyTrimmed(o: Options, e: Element)
    ensures CtaBody(o, e) != [] && CtaBody(o, e)[0] == '<'
    ensures Trim("\n" + CtaBody(o, e)) == CtaBody(o, e)
  {
    var body := CtaBody(o, e);
    CtaTailEnds();
    assert body[0] == CtaHead(o)[0];
    assert body[|body| - 1] == CtaTail[|CtaTail| - 1];
    assert "\n" + body == "\n" + body + [];
    TrimPadded("\n", body, []);
  }

  /** The template literal as written: it starts with a line break and is trimmed. */
  function GenerateCta(o: Options, e: Element): (r: string)
    ensures r != [] && r[0] == '<'
  {
    CtaBodyTrimmed(o, e);
    Trim("\n" + CtaBody(o, e))
  }

  /**
   The button links to `ctaUrl` (or `#`) and shows the escaped `ctaText` (or the content),
   which decodes back to the label.
   */
  lemma CtaButtonParts(o: Options, e: Element)
    ensures GenerateCta(o, e) == CtaHead(o) + CtaTarget(e) + CtaMid(o) + EscapeHtml(CtaLabel(e)) + CtaTail
    ensures CtaTarget(e) == if Truthy(e.ctaUrl) then e.ctaUrl.value else "#"
    ensures CtaLabel(e) == if Truthy(e.ctaText) then e.ctaText.value else e.content
    ensures Unescape(EscapeHtml(CtaLabel(e))) == CtaLabel(e)
  {
    CtaBodyTrimmed(o, e);
    EscapeHtmlRoundTrip(CtaLabel(e));
  }

  // ------------------------------------------------------------------ space

  /** The spacer for `h` pixels: margin, height and line height all `h`. */
  function SpaceHtml(h: nat): string {
    SpaceMargin + (NatToString(h) + SpaceRest(h))
  }

  const SpaceMargin := "<div style=\"margin: "
  const SpaceHeight := "x 0; height: "
  const SpaceLineHeight := "px; line-height: "
  const SpaceEnd := "px;\">&nbsp;</div>"

  function SpaceRest(h: nat): (r: string)
    ensures r != [] && r[0] == 'p'
  {
    "p" + SpaceHeight + NatToString(h) + SpaceLineHeight + NatToString(h) + SpaceEnd
  }

  /** `(element.level || 1) * 15` pixels. */
  function GenerateSpace(e: Element): (r: string)
    ensures r != [] && r[0] == '<'
  {
    SpaceHtml(LevelOr1(e.level) * 15)
  }

  /** Two digit runs each followed by a non-digit are equal when the concatenations are. */
  lemma DigitRunPrefix(a: string, x: string, b: string, y: string)
    requires forall i :: 0 <= i < |a| ==> IsDigit(a[i])
    requires forall i :: 0 <= i < |b| ==> IsDigit(b[i])
    requires x != [] && !IsDigit(x[0]) && y != [] && !IsDigit(y[0])
    requires a + x == b + y
    ensures a == b
  {
    forall j | 0 <= j < |a| ensures !NotDigit((a + x)[j]) {
      assert (a + x)[j] == a[j];
    }
    forall j | 0 <= j < |b| ensures !NotDigit((b + y)[j]) {
      assert (b + y)[j] == b[j];
    }
    assert (a + x)[|a|] == x[0] && (b + y)[|b|] == y[0];
    FindCharIs(a + x, 0, NotDigit, |a|);
    FindCharIs(b + y, 0, NotDigit, |b|);
    assert a == (a + x)[..|a|] && b == (b + y)[..|b|];
  }

  /** The spacer's height is readable back from its markup. */
  lemma SpaceHtmlInjective(h1: nat, h2: nat)
    requires SpaceHtml(h1) == SpaceHtml(h2)
    ensures h1 == h2
  {
    var x1, x2 := NatToString(h1) + SpaceRest(h1), NatToString(h2) + SpaceRest(h2);
    assert x1 == SpaceHtml(h1)[|SpaceMargin|..] && x2 == SpaceHtml(h2)[|SpaceMargin|..];
    DigitRunPrefix(NatToString(h1), SpaceRest(h1), NatToString(h2), SpaceRest(h2));
    NatToStringRoundTrip(h1);
    NatToStringRoundTrip(h2);
  }

  /** Equal spacers come from equal `level || 1`. */
  lemma SpaceLevelRecoverable(e1: Element, e2: Element)
    requires GenerateSpace(e1) == GenerateSpace(e2)
    ensures LevelOr1(e1.level) == LevelOr1(e2.level)
  {
    SpaceHtmlInjective(LevelOr1(e1.level) * 15, LevelOr1(e2.level) * 15);
  }

  /** A space without a level, or with level 0, is 15 pixels high. */
  lemma SpaceDefaultHeight(e: Element)
    requires e.level.None? || e.level == Some(0)
    ensures GenerateSpace(e) == SpaceHtml(15)
  {
  }

  // ------------------------------------------------------------------ the document

  /** `generateElementHtml`: one block per kind, nothing for a kind the generator does not know. */
  function GenerateElement(o: Options, e: Element): (r: string)
    ensures r == [] <==> e.kind == Table
    ensures r != [] ==> r[0] == '<'
  {
    match e.kind
    case Heading => GenerateHeading(o, e)
    case Paragraph => GenerateParagraph(o, e)
    case ListItem => GenerateListItem(o, e)
    case Image => GenerateImage(e)
    case Cta => GenerateCta(o, e)
    case Space => GenerateSpace(e)
    case Table => []
  }

  const ContainerFamily := "div style=\"\n  font-family: "
  const ContainerLineHeight := ";\n  line-height: "
  const ContainerColor := ";\n  color: "
  const ContainerWidth := ";\n  max-width: "
  const ContainerRest := ";\n  margin: 0 auto;\n  padding: 20px;\n\">\n  "

  /** The container's opening: the configured family, line height, colour and width. */
  function ContainerOpen(o: Options): (r: string)
    ensures r != [] && r[0] == '<'
  {
    "<" + ContainerFamily + o.fontFamily + ContainerLineHeight + o.lineHeight + ContainerColor + o.baseColor
    + ContainerWidth + Px(o.maxWidth) + ContainerRest
  }

  const ContainerClose := "\n</div" + ">"

  lemma ContainerCloseEnds()
    ensures ContainerClose != [] && ContainerClose[|ContainerClose| - 1] == '>'
  {
  }

  /** `wrapInContainer`: the template literal as written, trimmed. */
  function Wrap(o: Options, content: string): string {
    Trim("\n" + ContainerOpen(o) + content + ContainerClose)
  }

  /** The trim only drops the template's leading line break, whatever the content. */
  lemma WrapKeepsContent(o: Options, content: string)
    ensures Wrap(o, content) == ContainerOpen(o) + content + ContainerClose
  {
    var body := ContainerOpen(o) + content + ContainerClose;
    ContainerCloseEnds();
    assert body[0] == ContainerOpen(o)[0];
    assert body[|body| - 1] == ContainerClose[|ContainerClose| - 1];
    assert "\n" + ContainerOpen(o) + content + ContainerClose == "\n" + body + [];
    TrimPadded("\n", body, []);
  }

  function RenderAll(o: Options, es: seq<Element>): (r: seq<string>)
    ensures |r| == |es|
    ensures forall i :: 0 <= i < |es| ==> r[i] == GenerateElement(o, es[i])
  {
    seq(|es|, i requires 0 <= i < |es| => GenerateElement(o, es[i]))
  }

  /** `generateHtml`: the element blocks joined by line breaks, inside the container. */
  function GenerateHtml(o: Options, d: Doc): string {
    Wrap(o, Join(RenderAll(o, d.elements), "\n"))
  }

  lemma {:induction false} JoinAppend(xs: seq<string>, ys: seq<string>, sep: string)
    requires xs != [] && ys != []
    ensures Join(xs + ys, sep) == Join(xs, sep) + sep + Join(ys, sep)
    decreases |xs|
  {
    if |xs| == 1 {
      assert (xs + ys)[0] == xs[0] && (xs + ys)[1..] == ys;
    } else {
      assert (xs + ys)[0] == xs[0] && (xs + ys)[1..] == xs[1..] + ys;
      JoinAppend(xs[1..], ys, sep);
    }
  }

  lemma RenderAllAppend(o: Options, a: seq<Element>, b: seq<Element>)
    ensures RenderAll(o, a + b) == RenderAll(o, a) + RenderAll(o, b)
  {
    var all, ra, rb := RenderAll(o, a + b), RenderAll(o, a), RenderAll(o, b);
    forall i | 0 <= i < |a + b| ensures all[i] == (ra + rb)[i] {
      if i < |a| {
        assert (a + b)[i] == a[i];
      } else {
        assert (a + b)[i] == b[i - |a|];
      }
    }
  }

  /**
   Rendering is compositional: the page for two runs of elements is the container around the
   two runs' bodies joined by a line break; the title is not rendered.
   */
  lemma GenerateHtmlAppend(o: Options, t: string, a: seq<Element>, b: seq<Element>)
    requires a != [] && b != []
    ensures GenerateHtml(o, Doc(t, a + b))
      == ContainerOpen(o) + (Join(RenderAll(o, a), "\n") + "\n" + Join(RenderAll(o, b), "\n")) + ContainerClose
  {
    RenderAllAppend(o, a, b);
    JoinAppend(RenderAll(o, a), RenderAll(o, b), "\n");
    WrapKeepsContent(o, Join(RenderAll(o, a + b), "\n"));
  }

  /** An empty document is the bare container. */
  lemma GenerateHtmlEmpty(o: Options, t: string)
    ensures GenerateHtml(o, Doc(t, [])) == ContainerOpen(o) + ContainerClose
  {
    WrapKeepsContent(o, []);
    EmptySuffix(ContainerOpen(o));
  }
}
