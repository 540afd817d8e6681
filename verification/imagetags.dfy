/**
 `convertGoogleImagesToBase64` (which, despite its name, embeds nothing): every `<img>` tag with
 a quoted `src` is rewritten for e-mail. A protocol-relative URL gets `https:`, a
 `googleusercontent.com` URL without a width gets `w=600`, the style is completed with
 `max-width`, `height: auto`, `border: 0` and `display: block` where missing, and an
 `alt` is added when the tag has none.
 */
module ImageTags {
  import opened Base
  import opened Text
  import opened Scan

  predicate IsQuoteChar(c: char) { c == '"' || c == '\'' }
  predicate IsGreater(c: char) { c == '>' }

  /** `src=["']([^"']+)["']` with the `i` flag, at `q`. The two quotes need not be alike. */
  function SrcAt(s: string, q: nat): (r: Option<Hit>)
    ensures r.Some? ==> q < r.value.end <= |s| && |r.value.groups| == 1
  {
    if AtCI(s, q, "src=") && q + 4 < |s| && IsQuoteChar(s[q + 4]) then
      var c := FindChar(s, q + 5, IsQuoteChar);
      if c > q + 5 && c < |s| then Some(Hit(c + 1, [s[q + 5..c]])) else None
    else None
  }

  /**
   The rest of the image pattern from a `src=` at `q`: the attribute, then `[^>]*>`; tried from
   the rightmost `q` down, as the greedy `[^>]+` before it backtracks.
   */
  function SrcTagFrom(s: string, lo: nat, q: nat): (r: Option<Hit>)
    decreases q
    ensures r.Some? ==> r.value.end <= |s| && |r.value.groups| == 1
  {
    if q < lo then None
    else
      match SrcAt(s, q)
      case Some(h) =>
        var g := FindChar(s, h.end, IsGreater);
        if g < |s| then Some(Hit(g + 1, h.groups))
        else if q == lo then None else SrcTagFrom(s, lo, q - 1)
      case None => if q == lo then None else SrcTagFrom(s, lo, q - 1)
  }

  /** `<img[^>]+src=["']([^"']+)["'][^>]*>` with the `i` flag: the whole tag, its URL as group 1. */
  function ImageTagAt(s: string, p: nat): (r: Option<Hit>)
    ensures r.Some? ==> p < r.value.end <= |s| && |r.value.groups| == 1
  {
    if AtCI(s, p, "<img") then
      var h := FindChar(s, p + 4, IsGreater);
      if h >= p + 6 then
        match SrcTagFrom(s, p + 5, h - 1)
        case Some(hit) => if hit.end > p then Some(hit) else None
        case None => None
      else None
    else None
  }

  // ------------------------------------------------------------------ the URL

  const ProtocolPrefix := "https:"

  /**
   The URL fix-ups: `https:` before `//`, and a width for Google-hosted images without one. With
   `a` the URL after the scheme fix, a URL that is not Google-hosted or already names a width is
   `a`; any other gets one separator (`&` exactly when `a` already has a query string) and
   `w=600`.
   */
  function FixUrl(url: string): (r: string)
    ensures OccursAt(url, "//", 0) ==> OccursAt(r, ProtocolPrefix + url, 0)
    ensures !OccursAt(url, "//", 0) ==> OccursAt(r, url, 0)
    ensures !OccursAt(r, "//", 0)
    ensures var a := if OccursAt(url, "//", 0) then ProtocolPrefix + url else url;
      (!Contains(a, "googleusercontent.com") || Contains(a, "=w")) ==> r == a
    ensures var a := if OccursAt(url, "//", 0) then ProtocolPrefix + url else url;
      Contains(a, "googleusercontent.com") && !Contains(a, "=w") ==>
        |r| == |a| + 6 && r[..|a|] == a && r[|a| + 1..] == "w=600"
        && (r[|a|] == '&' || r[|a|] == '?') && (r[|a|] == '&' <==> Contains(a, "?"))
  {
    var a := if OccursAt(url, "//", 0) then ProtocolPrefix + url else url;
    assert OccursAt(url, "//", 0) ==> a[0] == 'h';
    if Contains(a, "googleusercontent.com") && !Contains(a, "=w") then
      a + (if Contains(a, "?") then "&w=600" else "?w=600")
    else a
  }

  /**
   The width rule does not recognise the parameter it adds: `?w=600` holds no `=w`, so a
   second pass appends `&w=600` again.
   */
  lemma WidthAddedTwice(a: string)
    requires !OccursAt(a, "//", 0) && Contains(a, "googleusercontent.com") && !Contains(a, "=w") && !Contains(a, "?")
    ensures FixUrl(a) == a + "?w=600"
    ensures FixUrl(FixUrl(a)) == a + "?w=600&w=600"
  {
    var b := a + "?w=600";
    assert !OccursAt(b, "//", 0) by {
      if OccursAt(b, "//", 0) {
        assert false;
      }
    }
    ContainsAppend(a, "?w=600", "googleusercontent.com");
    assert OccursAt(b, "?", |a|);
    NoEqWAfter(a);
  }

  /** Appending `?w=600` creates no `=w`. */
  lemma NoEqWAfter(a: string)
    requires !Contains(a, "=w")
    ensures !Contains(a + "?w=600", "=w")
  {
    var b := a + "?w=600";
    forall i | 0 <= i <= |b|
      ensures !OccursAt(b, "=w", i)
    {
      if i + 2 <= |a| {
        assert b[i..i + 2] == a[i..i + 2];
        assert !OccursAt(a, "=w", i);
      } else if i + 2 <= |b| {
        assert b[i + 1] == "?w=600"[i + 1 - |a|];
        assert i + 1 == |a| + 1 ==> b[i] == '?';
      }
    }
  }


  // ------------------------------------------------------------------ the style

  /** `style=["']([^"']*)["']` with the `i` flag, at `q`. */
  function StyleAt(s: string, q: nat): (r: Option<Hit>)
    ensures r.Some? ==> q < r.value.end <= |s| && |r.value.groups| == 1
  {
    if AtCI(s, q, "style=") && q + 6 < |s| && IsQuoteChar(s[q + 6]) then
      var c := FindChar(s, q + 7, IsQuoteChar);
      if c < |s| then Some(Hit(c + 1, [s[q + 7..c]])) else None
    else None
  }

  /** `style=["'][^"']*["']` with the `i` flag: the same attribute, without a group. */
  function StyleAttrAt(s: string, q: nat): Option<Hit> {
    match StyleAt(s, q)
    case Some(h) => Some(Hit(h.end, []))
    case None => None
  }

  /** The four properties an e-mail image style must carry, looked for as the converter looks for them. */
  predicate IsEmailSafe(x: string) {
    && Contains(x, "max-width")
    && Contains(x, "height") && Contains(x, "auto")
    && Contains(x, "border") && Contains(x, "0")
    && Contains(x, "display")
  }

  /** The declarations appended for what is missing, each after `"; "`, in the converter's order. */
  function AddMissing(x: string): string {
    WithDisplay(WithBorder(WithHeight(WithMaxWidth(x))))
  }

  function WithMaxWidth(x: string): string {
    if !Contains(x, "max-width") then x + "; max-width: 100%" else x
  }

  function WithHeight(a: string): string {
    if !Contains(a, "height") || !Contains(a, "auto") then a + "; height: auto" else a
  }

  function WithBorder(b: string): string {
    if !Contains(b, "border") || !Contains(b, "0") then b + "; border: 0" else b
  }

  function WithDisplay(c: string): string {
    if !Contains(c, "display") then c + "; display: block" else c
  }

  /** The completed style: the missing declarations added, then a stray `;` trimmed at each end. */
  function CompleteStyle(current: string): (r: string)
    ensures IsEmailSafe(r)
  {
    var d := AddMissing(current);
    AddMissingSafe(current);
    var r := DropTrailingSemicolon(DropLeadingSemicolon(d));
    DropsKeepSafe(d);
    r
  }

  /** Appending keeps every word already present. */
  lemma KeepsWords(a: string, tail: string)
    ensures Contains(a, "max-width") ==> Contains(a + tail, "max-width")
    ensures Contains(a, "height") ==> Contains(a + tail, "height")
    ensures Contains(a, "auto") ==> Contains(a + tail, "auto")
    ensures Contains(a, "border") ==> Contains(a + tail, "border")
    ensures Contains(a, "0") ==> Contains(a + tail, "0")
  {
    if Contains(a, "max-width") { ContainsAppend(a, tail, "max-width"); }
    if Contains(a, "height") { ContainsAppend(a, tail, "height"); }
    if Contains(a, "auto") { ContainsAppend(a, tail, "auto"); }
    if Contains(a, "border") { ContainsAppend(a, tail, "border"); }
    if Contains(a, "0") { ContainsAppend(a, tail, "0"); }
  }

  lemma MaxWidthDecl(a: string)
    ensures Contains(a + "; max-width: 100%", "max-width")
  {
    assert ("; max-width: 100%")[2..11] == "max-width";
    ContainsAfter(a, "; max-width: 100%", "max-width", 2);
  }

  lemma HeightDecl(a: string)
    ensures Contains(a + "; height: auto", "height") && Contains(a + "; height: auto", "auto")
  {
    assert ("; height: auto")[2..8] == "height";
    assert ("; height: auto")[10..14] == "auto";
    ContainsAfter(a, "; height: auto", "height", 2);
    ContainsAfter(a, "; height: auto", "auto", 10);
  }

  lemma BorderDecl(a: string)
    ensures Contains(a + "; border: 0", "border") && Contains(a + "; border: 0", "0")
  {
    assert ("; border: 0")[2..8] == "border";
    assert ("; border: 0")[10..11] == "0";
    ContainsAfter(a, "; border: 0", "border", 2);
    ContainsAfter(a, "; border: 0", "0", 10);
  }

  lemma DisplayDecl(a: string)
    ensures Contains(a + "; display: block", "display")
  {
    assert ("; display: block")[2..9] == "display";
    ContainsAfter(a, "; display: block", "display", 2);
  }

  lemma AddMissingSafe(x: string)
    ensures IsEmailSafe(AddMissing(x))
  {
    var a := WithMaxWidth(x);
    MaxWidthDecl(x);
    var b := WithHeight(a);
    HeightDecl(a);
    KeepsWords(a, "; height: auto");
    var c := WithBorder(b);
    BorderDecl(b);
    KeepsWords(b, "; border: 0");
    DisplayDecl(c);
    KeepsWords(c, "; display: block");
  }

  /** Cutting off semicolons and whitespace at the ends keeps a word that has neither at its ends. */
  lemma ContainsKeptByCut(x: string, k: nat, e: nat, p: string)
    requires k <= e <= |x| && p != [] && Contains(x, p)
    requires !IsSemicolon(p[0]) && !IsSpace(p[0]) && !IsSemicolon(p[|p| - 1]) && !IsSpace(p[|p| - 1])
    requires forall i :: 0 <= i < k ==> IsSemicolon(x[i]) || IsSpace(x[i])
    requires forall i :: e <= i < |x| ==> IsSemicolon(x[i]) || IsSpace(x[i])
    ensures Contains(x[k..e], p)
  {
    var i :| 0 <= i <= |x| && OccursAt(x, p, i);
    OccursAtChar(x, p, i, 0);
    OccursAtChar(x, p, i, |p| - 1);
    if i < k {
      assert false;
    }
    if i + |p| > e {
      assert false;
    }
    var y := x[k..e];
    forall t | i <= t < i + |p|
      ensures y[t - k] == x[t]
    {
    }
    assert y[i - k..i - k + |p|] == x[i..i + |p|];
    assert OccursAt(y, p, i - k);
  }

  /** `x[k..e]` is `x` with only semicolons and whitespace cut off at either end. */
  predicate IsJunkCut(x: string, k: nat, e: nat) {
    && k <= e <= |x|
    && (forall i :: 0 <= i < k ==> IsSemicolon(x[i]) || IsSpace(x[i]))
    && (forall i :: e <= i < |x| ==> IsSemicolon(x[i]) || IsSpace(x[i]))
  }

  lemma DropsAreCut(d: string) returns (k: nat, e: nat)
    ensures IsJunkCut(d, k, e) && DropTrailingSemicolon(DropLeadingSemicolon(d)) == d[k..e]
  {
    var l := DropLeadingSemicolon(d);
    var r := DropTrailingSemicolon(l);
    k := |d| - |l|;
    e := k + |r|;
    assert l == d[k..];
    assert r == d[k..e];
    forall i | e <= i < |d|
      ensures IsSemicolon(d[i]) || IsSpace(d[i])
    {
      assert d[i] == l[i - k];
    }
  }

  lemma CutKeepsSafe(x: string, k: nat, e: nat)
    requires IsEmailSafe(x) && IsJunkCut(x, k, e)
    ensures IsEmailSafe(x[k..e])
  {
    ContainsKeptByCut(x, k, e, "max-width");
    ContainsKeptByCut(x, k, e, "height");
    ContainsKeptByCut(x, k, e, "auto");
    ContainsKeptByCut(x, k, e, "border");
    ContainsKeptByCut(x, k, e, "0");
    ContainsKeptByCut(x, k, e, "display");
  }

  lemma DropsKeepSafe(d: string)
    requires IsEmailSafe(d)
    ensures IsEmailSafe(DropTrailingSemicolon(DropLeadingSemicolon(d)))
  {
    var k, e := DropsAreCut(d);
    CutKeepsSafe(d, k, e);
  }


  /** A style with no stray semicolon at either end. */
  predicate IsCleanStyle(y: string) {
    && (y == [] || y[0] != ';')
    && (TrimEnd(y) == [] || TrimEnd(y)[|TrimEnd(y)| - 1] != ';')
  }

  /** What `AddMissing` appends: declarations, each after `"; "`, ending in a visible character. */
  predicate IsDeclTail(t: string) {
    && |t| >= 3 && t[0] == ';' && t[1] == ' ' && !IsSpace(t[2]) && t[2] != ';'
    && !IsSpace(t[|t| - 1]) && t[|t| - 1] != ';'
  }

  /** `d` is `x` with nothing or a declaration tail appended. */
  predicate Extends(x: string, d: string) {
    d == x || (|d| > |x| && d[..|x|] == x && IsDeclTail(d[|x|..]))
  }

  lemma ExtendsStep(x: string, a: string, lit: string)
    requires Extends(x, a) && IsDeclTail(lit)
    ensures Extends(x, a + lit)
  {
    var d := a + lit;
    assert d[..|x|] == x by {
      if a != x {
        assert d[..|x|] == a[..|x|];
      }
    }
    var t := d[|x|..];
    if a == x {
      assert t == lit;
    } else {
      var ta := a[|x|..];
      assert t == ta + lit;
      assert t[..3] == ta[..3];
    }
  }

  lemma DeclarationsAreTails()
    ensures IsDeclTail("; max-width: 100%") && IsDeclTail("; height: auto")
    ensures IsDeclTail("; border: 0") && IsDeclTail("; display: block")
  {
  }

  lemma AddMissingAppends(x: string)
    ensures Extends(x, AddMissing(x))
  {
    var a, b, c, d := WithMaxWidth(x), WithHeight(WithMaxWidth(x)), WithBorder(WithHeight(WithMaxWidth(x))), AddMissing(x);
    DeclarationsAreTails();
    assert Extends(x, x);
    if a != x { ExtendsStep(x, x, "; max-width: 100%"); }
    if b != a { ExtendsStep(x, a, "; height: auto"); }
    if c != b { ExtendsStep(x, b, "; border: 0"); }
    if d != c { ExtendsStep(x, c, "; display: block"); }
  }

  lemma TrimEndVisible(y: string)
    requires y != [] && !IsSpace(y[|y| - 1])
    ensures TrimEnd(y) == y
  {
  }

  /** The end trims leave a clean style alone. */
  lemma DropsKeepClean(y: string)
    requires IsCleanStyle(y)
    ensures DropTrailingSemicolon(DropLeadingSemicolon(y)) == y
  {
  }

  /** A leading `;` trim of a declaration tail stops at its first declaration. */
  lemma LeadingDropOfTail(t: string)
    requires IsDeclTail(t)
    ensures DropLeadingSemicolon(t) == t[2..]
  {
    assert SkipSpace(t, 1) == 2;
  }

  /** A style whose ends are a visible non-`;` character is clean and survives both trims. */
  lemma VisibleEndsClean(l: string)
    requires l != [] && l[0] != ';' && !IsSpace(l[|l| - 1]) && l[|l| - 1] != ';'
    ensures IsCleanStyle(l) && DropTrailingSemicolon(l) == l
  {
    TrimEndVisible(l);
  }

  lemma DropsOnExtension(x: string, d: string)
    requires IsCleanStyle(x) && Extends(x, d) && d != x
    ensures IsCleanStyle(DropTrailingSemicolon(DropLeadingSemicolon(d)))
  {
    var t := d[|x|..];
    assert IsDeclTail(t);
    var l := DropLeadingSemicolon(d);
    if x == [] {
      assert d == t;
      LeadingDropOfTail(t);
      assert l == t[2..];
    } else {
      assert d[0] == x[0];
      assert l == d;
    }
    assert l[|l| - 1] == d[|d| - 1] == t[|t| - 1];
    VisibleEndsClean(l);
  }

  /** A completed style has no stray semicolon at either end, when the original had none. */
  lemma CompleteStyleClean(x: string)
    requires IsCleanStyle(x)
    ensures IsCleanStyle(CompleteStyle(x))
  {
    var d := AddMissing(x);
    AddMissingAppends(x);
    if d == x {
      DropsKeepClean(x);
    } else {
      DropsOnExtension(x, d);
    }
  }

  /** On a clean style that already carries all four properties, completion changes nothing. */
  lemma CompleteStyleFixedPoint(y: string)
    requires IsCleanStyle(y) && IsEmailSafe(y)
    ensures CompleteStyle(y) == y
  {
    DropsKeepClean(y);
  }

  /** Completing a clean style twice is completing it once. */
  lemma CompleteStyleIdempotent(x: string)
    requires IsCleanStyle(x)
    ensures CompleteStyle(CompleteStyle(x)) == CompleteStyle(x)
  {
    CompleteStyleClean(x);
    CompleteStyleFixedPoint(CompleteStyle(x));
  }

  // -------------------------------------------------------------- the tag rewrite

  /** The `alt` attribute put on an image that has none: the Korean word for "image". */
  const AltOpen := "<img alt=\"\U{C774}\U{BBF8}\U{C9C0}\""

  /**
   `s.replace("<img", tmpl)`: the first `<img` becomes `tmpl`. The converter searches for it
   case-sensitively (`ci == false`); `ci == true` is `s.replace(/<img/i, tmpl)`, which finds the
   opening of every tag the image pattern matched.
   */
  function ReplaceImgOpen(s: string, tmpl: string, ci: bool): string {
    if !ci then ReplaceFirstLiteral(s, "<img", tmpl)
    else
      match IndexOfCIFrom(s, "<img", 0)
      case Some(i) => s[..i] + Substitute(tmpl, s[i..i + 4], s[..i], s[i + 4..], []) + s[i + 4..]
      case None => s
  }

  /** The first `src` attribute of the tag rewritten to hold the fixed URL. */
  function SrcStep(tag: string, url: string): string {
    ReplaceFirstWith(tag, SrcAt, "src=\"" + FixUrl(url) + "\"")
  }

  /** The value of the tag's first `style` attribute, `""` when it has none. */
  function CurrentStyle(s: string): string {
    match FirstGroups(s, StyleAt)
    case Some(g) => Group(g, 1)
    case None => ""
  }

  /** A `style` attribute holding `st`. */
  function StyleAttrFor(st: string): (r: string)
    ensures |r| == |st| + 8 && OccursAt(r, "style=\"", 0) && r[7..|r| - 1] == st
  {
    "style=\"" + st + "\""
  }

  /** The attribute the style step writes. */
  function StyleAttr(s: string): (r: string)
    ensures |r| >= 8 && OccursAt(r, "style=\"", 0) && IsEmailSafe(r[7..|r| - 1])
  {
    StyleAttrFor(CompleteStyle(CurrentStyle(s)))
  }

  /** The completed style replaces the first `style` attribute, or is put right after `<img`. */
  function StyleStep(s: string, ci: bool): string {
    if FirstGroups(s, StyleAt).Some? then ReplaceFirstWith(s, StyleAttrAt, StyleAttr(s))
    else ReplaceImgOpen(s, "<img " + StyleAttr(s), ci)
  }

  /** An `alt` attribute after `<img` unless `alt=` already appears. */
  function AltStep(s: string, ci: bool): string {
    if Contains(s, "alt=") then s else ReplaceImgOpen(s, AltOpen, ci)
  }

  /** The callback run on one matched tag with the URL the image pattern captured. */
  function RewriteImageWith(tag: string, url: string, ci: bool): string {
    AltStep(StyleStep(SrcStep(tag, url), ci), ci)
  }

  function ImageReplacer(ci: bool): Replacer {
    (s: string, at: nat, m: string, g: seq<string>) => RewriteImageWith(m, Group(g, 1), ci)
  }

  /** `convertGoogleImagesToBase64` as written: the style and `alt` go after a lower-case `<img` only. */
  function ConvertImagesAsWritten(html: string): string {
    ReplaceAll(html, ImageTagAt, ImageReplacer(false))
  }

  /** `convertGoogleImagesToBase64` with the opening found as the image pattern finds it, ignoring case. */
  function ConvertImages(html: string): string {
    ReplaceAll(html, ImageTagAt, ImageReplacer(true))
  }

  // --------------------------------------------------------- facts about the rewrite

  /** The tag opening each version recognises: exactly `<img`, or `<img` in any case. */
  predicate OpensImage(s: string, ci: bool) {
    if ci then AtCI(s, 0, "<img") else OccursAt(s, "<img", 0)
  }

  lemma LowerOpening(s: string)
    requires OccursAt(s, "<img", 0)
    ensures AtCI(s, 0, "<img")
  {
    var w := s[0..4];
    assert w[0] == '<' && w[1] == 'i' && w[2] == 'm' && w[3] == 'g';
    assert Lower(w) == "<img";
  }

  /** An opening `<img` has the same four characters, up to case, in every version. */
  lemma OpensImageCI(s: string, ci: bool)
    requires OpensImage(s, ci)
    ensures AtCI(s, 0, "<img")
  {
    if !ci {
      LowerOpening(s);
    }
  }

  lemma OpensImageKept(s: string, t: string, ci: bool)
    requires OpensImage(s, ci) && |t| >= 4 && t[..4] == s[..4]
    ensures OpensImage(t, ci)
  {
    assert t[0..4] == s[0..4];
  }

  /** No attribute starts inside the tag's first four characters. */
  lemma NoAttributeInOpening(s: string)
    requires AtCI(s, 0, "<img")
    ensures forall j :: 0 <= j < 4 ==> SrcAt(s, j).None? && StyleAt(s, j).None? && StyleAttrAt(s, j).None?
  {
    forall j | 0 <= j < 4
      ensures SrcAt(s, j).None? && StyleAt(s, j).None? && StyleAttrAt(s, j).None?
    {
      AtCIChar(s, 0, "<img", j);
      if AtCI(s, j, "src=") {
        AtCIChar(s, j, "src=", 0);
        assert false;
      }
      if AtCI(s, j, "style=") {
        AtCIChar(s, j, "style=", 0);
        assert false;
      }
    }
  }

  lemma FixUrlLacks(url: string)
    requires Lacks(url, '$')
    ensures Lacks(FixUrl(url), '$')
  {
    var a := if OccursAt(url, "//", 0) then ProtocolPrefix + url else url;
    LacksAppend(ProtocolPrefix, url, '$');
    assert Lacks(a, '$');
    LacksAppend(a, "&w=600", '$');
    LacksAppend(a, "?w=600", '$');
  }

  lemma AddMissingLacks(x: string)
    requires Lacks(x, '$')
    ensures Lacks(AddMissing(x), '$')
  {
    var a, b, c := WithMaxWidth(x), WithHeight(WithMaxWidth(x)), WithBorder(WithHeight(WithMaxWidth(x)));
    LacksAppend(x, "; max-width: 100%", '$');
    LacksAppend(a, "; height: auto", '$');
    LacksAppend(b, "; border: 0", '$');
    LacksAppend(c, "; display: block", '$');
  }

  lemma DropsLack(d: string)
    requires Lacks(d, '$')
    ensures Lacks(DropTrailingSemicolon(DropLeadingSemicolon(d)), '$')
  {
    var l := DropLeadingSemicolon(d);
    LacksSlice(d, '$', |d| - |l|, |d|);
    var r := DropTrailingSemicolon(l);
    LacksSlice(l, '$', 0, |r|);
    assert r == l[0..|r|];
  }

  lemma CompleteStyleLacks(x: string)
    requires Lacks(x, '$')
    ensures Lacks(CompleteStyle(x), '$')
  {
    AddMissingLacks(x);
    DropsLack(AddMissing(x));
  }

  /** The converter's `src` step, with a `$`-free URL, writes its attribute verbatim. */
  lemma SrcStepLacks(tag: string, url: string)
    requires Lacks(tag, '$') && Lacks(url, '$')
    ensures Lacks(SrcStep(tag, url), '$')
  {
    var tmpl := "src=\"" + FixUrl(url) + "\"";
    FixUrlLacks(url);
    LacksJoin3("src=\"", FixUrl(url), "\"", '$');
    match FirstMatchFrom(tag, 0, SrcAt)
    case Some(i) =>
      var e := SrcAt(tag, i).value.end;
      ReplaceFirstWithVerbatim(tag, SrcAt, tmpl, i);
      LacksSlice(tag, '$', 0, i);
      LacksSlice(tag, '$', e, |tag|);
      assert tag[..i] == tag[0..i] && tag[e..] == tag[e..|tag|];
      LacksJoin3(tag[..i], tmpl, tag[e..], '$');
    case None =>
  }

  lemma CurrentStyleLacks(s: string)
    requires Lacks(s, '$')
    ensures Lacks(CurrentStyle(s), '$')
  {
    match FirstMatchFrom(s, 0, StyleAt) {
      case Some(q) =>
        var c := FindChar(s, q + 7, IsQuoteChar);
        assert CurrentStyle(s) == s[q + 7..c];
        LacksSlice(s, '$', q + 7, c);
      case None =>
    }
  }

  lemma StyleAttrForLacks(st: string)
    requires Lacks(st, '$')
    ensures Lacks(StyleAttrFor(st), '$')
  {
    LacksJoin3("style=\"", st, "\"", '$');
  }

  lemma StyleAttrLacks(s: string)
    requires Lacks(s, '$')
    ensures Lacks(StyleAttr(s), '$')
  {
    CurrentStyleLacks(s);
    CompleteStyleLacks(CurrentStyle(s));
    StyleAttrForLacks(CompleteStyle(CurrentStyle(s)));
  }

  /** The opening is left where it is by the `src` step. */
  lemma SrcStepOpening(tag: string, url: string, ci: bool)
    requires OpensImage(tag, ci)
    ensures OpensImage(SrcStep(tag, url), ci)
  {
    OpensImageCI(tag, ci);
    NoAttributeInOpening(tag);
    ReplaceFirstWithKeepsPrefix(tag, SrcAt, "src=\"" + FixUrl(url) + "\"", 4);
    OpensImageKept(tag, SrcStep(tag, url), ci);
  }

  /** At an opening it recognises, either version swaps the first four characters for `tmpl`. */
  lemma ReplaceImgOpenAtFront(s: string, tmpl: string, ci: bool)
    requires OpensImage(s, ci) && Lacks(tmpl, '$')
    ensures ReplaceImgOpen(s, tmpl, ci) == tmpl + s[4..]
  {
    SubstituteLiteral(tmpl, s[0..4], s[..0], s[4..], []);
    if !ci {
      assert IndexOf(s, "<img") == Some(0);
    } else {
      assert IndexOfCIFrom(s, "<img", 0) == Some(0);
    }
  }

  /** The two `style` patterns find the same first attribute. */
  lemma {:induction false} StyleAttrSameFirst(s: string, from: nat)
    ensures FirstMatchFrom(s, from, StyleAttrAt) == FirstMatchFrom(s, from, StyleAt)
    decreases |s| - from
  {
    if from < |s| {
      StyleAttrSameFirst(s, from + 1);
    }
  }

  /** An existing `style` attribute is replaced where it stands, behind the opening. */
  lemma StyleReplacedInPlace(w: string, t: string, i: nat)
    requires AtCI(w, 0, "<img") && Lacks(t, '$') && FirstMatchFrom(w, 0, StyleAttrAt) == Some(i)
    ensures 4 <= i && OccursAt(ReplaceFirstWith(w, StyleAttrAt, t), t, i)
    ensures ReplaceFirstWith(w, StyleAttrAt, t)[..4] == w[..4]
  {
    NoAttributeInOpening(w);
    ReplaceFirstWithVerbatim(w, StyleAttrAt, t, i);
    var e := StyleAttrAt(w, i).value.end;
    var y := w[..i] + t + w[e..];
    assert y[i..i + |t|] == t;
    assert y[..4] == w[..4];
  }

  /** Without a `style` attribute, the new one goes right after the opening. */
  lemma StyleInsertedAfterOpening(w: string, t: string, ci: bool)
    requires OpensImage(w, ci) && Lacks(t, '$')
    ensures OccursAt(ReplaceImgOpen(w, "<img " + t, ci), t, 5)
    ensures OccursAt(ReplaceImgOpen(w, "<img " + t, ci), "<img", 0)
  {
    LacksAppend("<img ", t, '$');
    ReplaceImgOpenAtFront(w, "<img " + t, ci);
    var y := "<img " + t + w[4..];
    assert y[5..5 + |t|] == t;
    assert y[0..4] == "<img";
  }

  /** The style step puts the completed style attribute after the opening, which it keeps. */
  lemma StyleStepPlaces(w: string, ci: bool) returns (k: nat)
    requires OpensImage(w, ci) && Lacks(w, '$')
    ensures 4 <= k && OccursAt(StyleStep(w, ci), StyleAttr(w), k) && OpensImage(StyleStep(w, ci), ci)
  {
    var t := StyleAttr(w);
    StyleAttrLacks(w);
    OpensImageCI(w, ci);
    var y := StyleStep(w, ci);
    if FirstGroups(w, StyleAt).Some? {
      StyleAttrSameFirst(w, 0);
      var i := FirstMatchFrom(w, 0, StyleAttrAt).value;
      StyleReplacedInPlace(w, t, i);
      assert y == ReplaceFirstWith(w, StyleAttrAt, t);
      OpensImageKept(w, y, ci);
      k := i;
    } else {
      StyleInsertedAfterOpening(w, t, ci);
      assert y == ReplaceImgOpen(w, "<img " + t, ci);
      LowerOpening(y);
      k := 5;
    }
  }

  lemma AltOpenFacts()
    ensures |AltOpen| == 14 && Lacks(AltOpen, '$') && OccursAt(AltOpen, "alt=", 5) && OccursAt(AltOpen, "<img", 0)
  {
  }

  /** Swapping the first four characters for `a` shifts a later occurrence by `|a| - 4`. */
  lemma FrontSwap(a: string, y: string, x: string, k: nat)
    requires 4 <= k && OccursAt(y, x, k)
    ensures OccursAt(a + y[4..], x, k - 4 + |a|)
  {
    var r := a + y[4..];
    assert r[k - 4 + |a|..k - 4 + |a| + |x|] == y[k..k + |x|];
  }

  lemma FrontKept(a: string, b: string, x: string, i: nat)
    requires OccursAt(a, x, i)
    ensures OccursAt(a + b, x, i)
  {
    assert (a + b)[i..i + |x|] == a[i..i + |x|];
  }

  /** Inserting the `alt` attribute shifts what follows the opening by ten characters. */
  lemma AltInserted(y: string, x: string, k: nat)
    requires 4 <= k && OccursAt(y, x, k)
    ensures var r := AltOpen + y[4..];
      OccursAt(r, "<img", 0) && OccursAt(r, "alt=", 5) && OccursAt(r, x, k + 10)
  {
    AltOpenFacts();
    FrontSwap(AltOpen, y, x, k);
    FrontKept(AltOpen, y[4..], "<img", 0);
    FrontKept(AltOpen, y[4..], "alt=", 5);
  }

  /** The `alt` step keeps the opening and what follows it, and leaves an `alt=` behind. */
  lemma AltStepFacts(y: string, ci: bool, x: string, k: nat)
    requires OpensImage(y, ci) && 4 <= k && OccursAt(y, x, k)
    ensures OpensImage(AltStep(y, ci), ci) && Contains(AltStep(y, ci), "alt=") && Contains(AltStep(y, ci), x)
  {
    var r := AltStep(y, ci);
    if !Contains(y, "alt=") {
      AltOpenFacts();
      ReplaceImgOpenAtFront(y, AltOpen, ci);
      AltInserted(y, x, k);
      assert r == AltOpen + y[4..];
      LowerOpening(r);
    } else {
      assert OccursAt(r, x, k);
    }
  }

  /**
   Every image tag the rewrite recognises comes out still opening the tag, with an `alt`
   attribute and with a `style` attribute holding the completed, e-mail-safe style
   (for tags and URLs without `$`, which the replacement strings would expand).
   */
  lemma RewriteImageSafe(tag: string, url: string, ci: bool)
    requires OpensImage(tag, ci) && Lacks(tag, '$') && Lacks(url, '$')
    ensures var r := RewriteImageWith(tag, url, ci);
      && OpensImage(r, ci) && Contains(r, "alt=")
      && Contains(r, StyleAttr(SrcStep(tag, url)))
  {
    var w := SrcStep(tag, url);
    SrcStepOpening(tag, url, ci);
    SrcStepLacks(tag, url);
    var k := StyleStepPlaces(w, ci);
    AltStepFacts(StyleStep(w, ci), ci, StyleAttr(w), k);
  }

  /** A document that is exactly one image tag is that tag rewritten. */
  lemma ConvertSingleImage(html: string, url: string, ci: bool)
    requires ImageTagAt(html, 0) == Some(Hit(|html|, [url]))
    ensures ReplaceAll(html, ImageTagAt, ImageReplacer(ci)) == RewriteImageWith(html, url, ci)
  {
    ReplaceAllWhole(html, ImageTagAt, ImageReplacer(ci), [url]);
  }

  /** Without `<img` in any case, nothing changes. */
  lemma NoImageUnchanged(html: string, ci: bool)
    requires !ContainsCI(html, "<img")
    ensures ReplaceAll(html, ImageTagAt, ImageReplacer(ci)) == html
  {
    forall j | 0 <= j < |html|
      ensures !ValidHit(html, j, ImageTagAt(html, j))
    {
      assert !AtCI(html, j, "<img");
    }
    ReplaceAllWithoutMatches(html, ImageTagAt, ImageReplacer(ci));
  }

  // ------------------------------------------------- an upper-case tag (see README)

  const UpperTag := "<IMG SRC=\"a\">"

  lemma UpperTagMatched()
    ensures ImageTagAt(UpperTag, 0) == Some(Hit(|UpperTag|, ["a"]))
  {
    var t := UpperTag;
    assert Lower(t[0..4]) == "<img";
    assert FindChar(t, 4, IsGreater) == 12;
    assert Lower(t[5..9]) == "src=";
    assert FindChar(t, 10, IsQuoteChar) == 11;
    assert AtCI(t, 5, "src=") && IsQuoteChar(t[9]) && t[10..11] == "a";
    assert SrcAt(t, 5) == Some(Hit(12, ["a"]));
    assert FindChar(t, 12, IsGreater) == 12;
    forall q | 6 <= q <= 11
      ensures SrcAt(t, q).None?
    {
      if AtCI(t, q, "src=") {
        AtCIChar(t, q, "src=", 0);
        assert false;
      }
    }
    assert SrcTagFrom(t, 5, 11) == Some(Hit(13, ["a"]));
  }

  /** A tag with no lower-case `i`, no `t` in any case and no `l` gets neither a style nor an `alt` from the converter. */
  lemma UnopenedTagUntouched(w: string)
    requires AllOffSearch(w)
    ensures StyleStep(w, false) == w && AltStep(w, false) == w && !Contains(w, "alt=")
  {
    NoCharNoOccurrence(w, "<img", 1);
    IndexOfContains(w, "<img");
    NoCharNoOccurrence(w, "alt=", 1);
    forall j | 0 <= j < |w|
      ensures StyleAt(w, j).None?
    {
      if AtCI(w, j, "style=") {
        AtCIChar(w, j, "style=", 1);
        assert false;
      }
    }
    assert FirstMatchFrom(w, 0, StyleAt).None?;
  }

  /** Letters whose absence keeps the converter's case-sensitive searches from firing: `<img`, `style=`, `alt=`. */
  predicate OffSearch(c: char) {
    c != 'i' && c != 't' && c != 'T' && c != 'l'
  }

  predicate AllOffSearch(s: string) {
    forall k :: 0 <= k < |s| ==> OffSearch(s[k])
  }

  lemma UpperTagOffSearch()
    ensures AllOffSearch(UpperTag) && AllOffSearch("a") && AtCI(UpperTag, 0, "<img")
  {
    assert Lower(UpperTag[0..4]) == "<img";
  }

  lemma AllOffSearchJoin(a: string, b: string, d: string)
    requires AllOffSearch(a) && AllOffSearch(b) && AllOffSearch(d)
    ensures AllOffSearch(a + b + d)
  {
  }

  lemma AllOffSearchSlice(s: string, a: nat, b: nat)
    requires AllOffSearch(s) && a <= b <= |s|
    ensures AllOffSearch(s[a..b])
  {
    assert forall k :: 0 <= k < b - a ==> s[a..b][k] == s[a + k];
  }

  /** A URL without `t` is not Google-hosted, so without a leading `//` it is kept as it is. */
  lemma FixUrlKeeps(u: string)
    requires AllOffSearch(u) && !OccursAt(u, "//", 0)
    ensures FixUrl(u) == u
  {
    NoCharNoOccurrence(u, "googleusercontent.com", 4);
  }

  lemma SrcStepOffSearch(t: string, u: string)
    requires AllOffSearch(t) && AllOffSearch(u) && !OccursAt(u, "//", 0) && Lacks(u, '$')
    ensures AllOffSearch(SrcStep(t, u))
  {
    FixUrlKeeps(u);
    var tmpl := "src=\"" + u + "\"";
    AllOffSearchJoin("src=\"", u, "\"");
    LacksJoin3("src=\"", u, "\"", '$');
    match FirstMatchFrom(t, 0, SrcAt) {
      case Some(i) =>
        var e := SrcAt(t, i).value.end;
        ReplaceFirstWithVerbatim(t, SrcAt, tmpl, i);
        AllOffSearchSlice(t, 0, i);
        AllOffSearchSlice(t, e, |t|);
        assert t[..i] == t[0..i] && t[e..] == t[e..|t|];
        AllOffSearchJoin(t[..i], tmpl, t[e..]);
      case None =>
    }
  }


  lemma NoStyleOffSearch(w: string)
    requires AllOffSearch(w)
    ensures !ContainsCI(w, "style=")
  {
    forall j | 0 <= j <= |w|
      ensures !AtCI(w, j, "style=")
    {
      if AtCI(w, j, "style=") {
        AtCIChar(w, j, "style=", 1);
        assert false;
      }
    }
  }

  lemma UnopenedRewrite(t: string, u: string)
    requires AllOffSearch(t) && AllOffSearch(u) && !OccursAt(u, "//", 0) && Lacks(u, '$')
    ensures RewriteImageWith(t, u, false) == SrcStep(t, u)
  {
    SrcStepOffSearch(t, u);
    UnopenedTagUntouched(SrcStep(t, u));
  }

  /**
   As written, an image tag spelled without a lower-case `<img`, e.g. `<IMG SRC="a">`, comes out
   with only its `src` rewritten: no e-mail style and no `alt`.
   */
  lemma UnopenedTagAsWritten(t: string, u: string)
    requires ImageTagAt(t, 0) == Some(Hit(|t|, [u]))
    requires AllOffSearch(t) && AllOffSearch(u) && !OccursAt(u, "//", 0) && Lacks(u, '$')
    ensures ConvertImagesAsWritten(t) == SrcStep(t, u)
    ensures !Contains(ConvertImagesAsWritten(t), "alt=") && !ContainsCI(ConvertImagesAsWritten(t), "style=")
  {
    ConvertSingleImage(t, u, false);
    UnopenedRewrite(t, u);
    SrcStepOffSearch(t, u);
    UnopenedTagUntouched(SrcStep(t, u));
    NoStyleOffSearch(SrcStep(t, u));
  }

  /** With the opening found ignoring case, every `$`-free tag the pattern matches gets its style and `alt`. */
  lemma MatchedTagCorrected(t: string, u: string)
    requires ImageTagAt(t, 0) == Some(Hit(|t|, [u])) && Lacks(t, '$') && Lacks(u, '$')
    ensures OpensImage(ConvertImages(t), true) && Contains(ConvertImages(t), "alt=")
    ensures Contains(ConvertImages(t), StyleAttr(SrcStep(t, u)))
  {
    ConvertSingleImage(t, u, true);
    RewriteImageSafe(t, u, true);
  }

  // ------------------------------------------------- one image tag inside a document

  /** A tag with a single `src=` in any case: the pattern can read its URL from one place only. */
  predicate SingleSrc(t: string) {
    forall i, j :: 0 <= i < |t| && 0 <= j < |t| && AtCI(t, i, "src=") && AtCI(t, j, "src=") ==> i == j
  }

  /**
   When the image pattern's tail succeeds from `q` down to `lo`, it does so at some `src=` at `q0`
   whose quoted value and the next `>` lie in the text.
   */
  lemma {:induction false} SrcTagFromFound(x: string, lo: nat, q: nat) returns (q0: nat, g: nat)
    requires SrcTagFrom(x, lo, q).Some?
    ensures lo <= q0 <= q && AtCI(x, q0, "src=") && SrcAt(x, q0).Some?
    ensures g == FindChar(x, SrcAt(x, q0).value.end, IsGreater) && g < |x|
    ensures SrcTagFrom(x, lo, q) == Some(Hit(g + 1, SrcAt(x, q0).value.groups))
    decreases q
  {
    if SrcAt(x, q).Some? && FindChar(x, SrcAt(x, q).value.end, IsGreater) < |x| {
      SrcTagFromHere(x, lo, q);
      q0, g := q, FindChar(x, SrcAt(x, q).value.end, IsGreater);
    } else {
      SrcTagFromStep(x, lo, q);
      q0, g := SrcTagFromFound(x, lo, q - 1);
    }
  }

  /** A `src=` attribute at `q` with a `>` after it is where the search from `q` stops. */
  lemma SrcTagFromHere(x: string, lo: nat, q: nat)
    requires lo <= q && SrcAt(x, q).Some? && FindChar(x, SrcAt(x, q).value.end, IsGreater) < |x|
    ensures AtCI(x, q, "src=")
    ensures SrcTagFrom(x, lo, q) == Some(Hit(FindChar(x, SrcAt(x, q).value.end, IsGreater) + 1, SrcAt(x, q).value.groups))
  {
  }

  /** Without such an attribute at `q`, a search from `q` that succeeds goes on from `q - 1`. */
  lemma SrcTagFromStep(x: string, lo: nat, q: nat)
    requires SrcTagFrom(x, lo, q).Some?
    requires !(SrcAt(x, q).Some? && FindChar(x, SrcAt(x, q).value.end, IsGreater) < |x|)
    ensures lo < q && SrcTagFrom(x, lo, q) == SrcTagFrom(x, lo, q - 1)
  {
  }

  /** With no other `src=` between `lo` and `q`, the pattern's tail is read at the one at `q0`. */
  lemma {:induction false} SrcTagFromOnly(x: string, lo: nat, q: nat, q0: nat, e: nat, g: nat, end: nat, grp: seq<string>)
    requires lo <= q0 <= q && SrcAt(x, q0) == Some(Hit(e, grp)) && FindChar(x, e, IsGreater) == g < |x|
    requires end == g + 1 && forall i :: lo <= i <= q && i != q0 ==> !AtCI(x, i, "src=")
    ensures SrcTagFrom(x, lo, q) == Some(Hit(end, grp))
    decreases q
  {
    if q != q0 {
      assert !AtCI(x, q, "src=");
      SrcTagFromOnly(x, lo, q - 1, q0, e, g, end, grp);
    }
  }

  /** Where a whole-tag match of the image pattern finds its opening `>`, its `src=`, the closing quote and the final `>`. */
  lemma TagParts(t: string, url: string) returns (h: nat, q0: nat, c: nat, g: nat)
    requires ImageTagAt(t, 0) == Some(Hit(|t|, [url]))
    ensures AtCI(t, 0, "<img") && h == FindChar(t, 4, IsGreater) && 6 <= h < |t|
    ensures 5 <= q0 <= h - 1 && AtCI(t, q0, "src=") && q0 + 4 < |t| && IsQuoteChar(t[q0 + 4])
    ensures c == FindChar(t, q0 + 5, IsQuoteChar) && q0 + 5 < c < |t| && url == t[q0 + 5..c]
    ensures g == FindChar(t, c + 1, IsGreater) && g + 1 == |t| && t[g] == '>'
  {
    h := FindChar(t, 4, IsGreater);
    var g0;
    q0, g0 := SrcTagFromFound(t, 5, h - 1);
    c := FindChar(t, q0 + 5, IsQuoteChar);
    g := FindChar(t, c + 1, IsGreater);
  }

  /** The `src` attribute read inside a tag reads the same inside a document holding the tag. */
  lemma WindowSrcAt(s: string, p: nat, t: string, q0: nat, c: nat, q: nat, e: nat)
    requires Window(s, p, t) && AtCI(t, q0, "src=") && q0 + 4 < |t| && IsQuoteChar(t[q0 + 4])
    requires c == FindChar(t, q0 + 5, IsQuoteChar) && q0 + 5 < c < |t|
    requires q == p + q0 && e == p + c + 1
    ensures SrcAt(s, q) == Some(Hit(e, [t[q0 + 5..c]]))
  {
    WindowAtCIIff(s, p, t, q0, "src=");
    WindowChar(s, p, t, q0 + 4);
    WindowFindChar(s, p, t, q0 + 5, IsQuoteChar);
    WindowSlice(s, p, t, q0 + 5, c);
  }

  /** A `>` found inside a tag is found at the same place inside a document holding the tag. */
  lemma WindowGreater(s: string, p: nat, t: string, from: nat, f: nat, g: nat)
    requires Window(s, p, t) && from <= |t| && FindChar(t, from, IsGreater) < |t|
    requires f == p + from && g == p + FindChar(t, from, IsGreater)
    ensures FindChar(s, f, IsGreater) == g
  {
    WindowFindChar(s, p, t, from, IsGreater);
  }

  /** Inside a tag ending in `>`, a `src=` of the document lies wholly inside the tag. */
  lemma WindowNoOtherSrc(s: string, p: nat, t: string, i: nat)
    requires Window(s, p, t) && t != [] && t[|t| - 1] == '>' && p <= i < p + |t|
    requires AtCI(s, i, "src=")
    ensures AtCI(t, i - p, "src=")
  {
    if i - p + 4 <= |t| {
      WindowAtCIIff(s, p, t, i - p, "src=");
    } else {
      WindowChar(s, p, t, |t| - 1);
      AtCIChar(s, i, "src=", p + |t| - 1 - i);
      assert false;
    }
  }

  /** In a document holding a single-`src` tag ending in `>`, no other `src=` starts inside the tag. */
  lemma OnlySrcInWindow(s: string, p: nat, t: string, q0: nat, g: nat, q: nat, lo: nat, hi: nat)
    requires Window(s, p, t) && SingleSrc(t) && AtCI(t, q0, "src=") && q0 < |t| && g + 1 == |t| && t[g] == '>'
    requires q == p + q0 && p <= lo && hi < p + |t|
    ensures forall i :: lo <= i <= hi && i != q ==> !AtCI(s, i, "src=")
  {
    forall i | lo <= i <= hi && i != q
      ensures !AtCI(s, i, "src=")
    {
      if AtCI(s, i, "src=") {
        WindowNoOtherSrc(s, p, t, i);
      }
    }
  }

  /** The pieces of a whole-tag match of a single-`src` tag, read inside a document holding it. */
  lemma TagInWindow(s: string, p: nat, t: string, url: string) returns (hs: nat, lo: nat, hi: nat, q: nat, e: nat, gs: nat)
    requires Window(s, p, t) && ImageTagAt(t, 0) == Some(Hit(|t|, [url])) && SingleSrc(t)
    ensures AtCI(s, p, "<img") && hs == FindChar(s, p + 4, IsGreater) && hs >= p + 6 && lo == p + 5 && hi == hs - 1
    ensures lo <= q <= hi && SrcAt(s, q) == Some(Hit(e, [url]))
    ensures FindChar(s, e, IsGreater) == gs < |s| && p + |t| == gs + 1
    ensures forall i :: lo <= i <= hi && i != q ==> !AtCI(s, i, "src=")
  {
    var h, q0, c, g := TagParts(t, url);
    hs, lo, hi, q, e, gs := p + h, p + 5, p + h - 1, p + q0, p + c + 1, p + g;
    WindowAtCIIff(s, p, t, 0, "<img");
    WindowGreater(s, p, t, 4, p + 4, hs);
    WindowSrcAt(s, p, t, q0, c, q, e);
    WindowGreater(s, p, t, c + 1, e, gs);
    OnlySrcInWindow(s, p, t, q0, g, q, lo, hi);
  }

  /**
   An image tag with a single `src=` that the pattern matches whole, standing anywhere in a
   document, is matched there whole with the same URL.
   */
  lemma ImageTagWindow(s: string, p: nat, t: string, url: string)
    requires Window(s, p, t) && ImageTagAt(t, 0) == Some(Hit(|t|, [url])) && SingleSrc(t)
    ensures ImageTagAt(s, p) == Some(Hit(p + |t|, [url]))
  {
    var hs, lo, hi, q, e, gs := TagInWindow(s, p, t, url);
    SrcTagFromOnly(s, lo, hi, q, e, gs, p + |t|, [url]);
    ImageTagAtParts(s, p, hs, lo, hi, Hit(p + |t|, [url]));
  }

  /** The image pattern at `p`, from its opening, the first `>` and the tail read before that `>`. */
  lemma ImageTagAtParts(s: string, p: nat, h: nat, lo: nat, hi: nat, hit: Hit)
    requires AtCI(s, p, "<img") && h == FindChar(s, p + 4, IsGreater) && h >= p + 6
    requires lo == p + 5 && hi == h - 1 && SrcTagFrom(s, lo, hi) == Some(hit) && hit.end > p
    ensures ImageTagAt(s, p) == Some(hit)
  {
  }

  /** No `<img` in any case starts outside a stretch opening with `<`, when the text around has none. */
  lemma NoImageOutside(pre: string, t: string, post: string)
    requires t != [] && t[0] == '<' && !ContainsCI(pre, "<img") && !ContainsCI(post, "<img")
    ensures NoMatchOutside(pre, t, post, ImageTagAt)
  {
    var s := pre + t + post;
    var b := |pre| + |t|;
    assert Window(s, 0, pre) by { assert s[0..|pre|] == pre; }
    assert Window(s, b, post) by { assert s[b..b + |post|] == post; }
    forall j | 0 <= j < |s| && (j < |pre| || b <= j)
      ensures ImageTagAt(s, j).None?
    {
      if AtCI(s, j, "<img") {
        if j < |pre| && j + 4 <= |pre| {
          WindowAtCIIff(s, 0, pre, j, "<img");
          ContainsCIAt(pre, j, "<img");
        } else if j < |pre| {
          AtCIChar(s, j, "<img", |pre| - j);
        } else {
          WindowAtCIIff(s, b, post, j - b, "<img");
          ContainsCIAt(post, j - b, "<img");
        }
      }
    }
  }

  /**
   A single-`src` image tag anywhere in a document with no other `<img`: the tag alone is
   rewritten and the text on both sides stays.
   */
  lemma ConvertImageIn(pre: string, t: string, post: string, url: string, ci: bool)
    requires ImageTagAt(t, 0) == Some(Hit(|t|, [url])) && SingleSrc(t)
    requires !ContainsCI(pre, "<img") && !ContainsCI(post, "<img")
    ensures ReplaceAll(pre + t + post, ImageTagAt, ImageReplacer(ci)) == pre + RewriteImageWith(t, url, ci) + post
  {
    AtCIChar(t, 0, "<img", 0);
    LowerCharPunct(t[0], '<');
    WindowOf(pre, t, post);
    ImageTagWindow(pre + t + post, |pre|, t, url);
    NoImageOutside(pre, t, post);
    ReplaceAllAroundNone(pre, t, post, ImageTagAt, ImageReplacer(ci), [url]);
  }

  /**
   As written, such a tag spelled without a lower-case `<img` comes out of a document with only
   its `src` rewritten: no e-mail style and no `alt`.
   */
  lemma UnopenedTagAsWrittenIn(pre: string, t: string, post: string, u: string)
    requires ImageTagAt(t, 0) == Some(Hit(|t|, [u])) && SingleSrc(t)
    requires !ContainsCI(pre, "<img") && !ContainsCI(post, "<img")
    requires AllOffSearch(t) && AllOffSearch(u) && !OccursAt(u, "//", 0) && Lacks(u, '$')
    ensures ConvertImagesAsWritten(pre + t + post) == pre + SrcStep(t, u) + post
    ensures !Contains(SrcStep(t, u), "alt=") && !ContainsCI(SrcStep(t, u), "style=")
  {
    ConvertImageIn(pre, t, post, u, false);
    UnopenedRewrite(t, u);
    SrcStepOffSearch(t, u);
    UnopenedTagUntouched(SrcStep(t, u));
    NoStyleOffSearch(SrcStep(t, u));
  }

  /**
   With the opening found ignoring case, such a `$`-free tag anywhere in a document is replaced by
   a rewrite that opens as an image, carries an `alt` and carries the completed style.
   */
  lemma MatchedTagCorrectedIn(pre: string, t: string, post: string, u: string)
    requires ImageTagAt(t, 0) == Some(Hit(|t|, [u])) && SingleSrc(t) && Lacks(t, '$') && Lacks(u, '$')
    requires !ContainsCI(pre, "<img") && !ContainsCI(post, "<img")
    ensures var r := RewriteImageWith(t, u, true);
      && ConvertImages(pre + t + post) == pre + r + post
      && OpensImage(r, true) && Contains(r, "alt=") && Contains(r, StyleAttr(SrcStep(t, u)))
  {
    ConvertImageIn(pre, t, post, u, true);
    RewriteImageSafe(t, u, true);
  }
}
