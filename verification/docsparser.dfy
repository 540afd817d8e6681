/**
 The Google Docs parser (`GoogleDocsParser.parseHtmlToElements` and its helpers). Every element
 visited in the body becomes zero or more document elements: headings, paragraphs (or CTAs, or
 spacers), list items and images. A final pass drops empty elements and merges each run of
 spacers into one spacer whose level counts the run.
 */
module DocsParser {
  import opened Base
  import opened Text
  import opened Document
  import opened DocUrls
  import opened CtaText
  import opened ParserRules
  import ImageTags

  /** The title ("untitled") used when the export has none. */
  const UntitledTitle := "제목 없음"

  // ------------------------------------------------------------------ one element

  /** `parseHeading`: the trimmed text and the tag's level; empty text is left to the final filter. */
  function ParseHeading(n: Node, level: nat): Element {
    Element(Heading, Trim(n.text), DocsFormatting(n.styling), Some(level), None, None, None, None, None)
  }

  /** The paragraph link: the first anchor's `href` (`""` when it has none), cleaned. */
  function LinkUrl(anchor: Option<Anchor>, lookupQ: string -> QueryLookup): (r: Option<string>)
    ensures r.None? <==> anchor.None?
    ensures anchor.Some? && !Contains(Or(anchor.value.href, ""), RedirectHost) ==> r == Some(Or(anchor.value.href, ""))
  {
    match anchor
    case None => None
    case Some(a) => Some(CleanGoogleDocsUrl(Or(a.href, ""), lookupQ))
  }

  /**
   `parseCTA`: the button from the directive, the anchor and the text, or a plain paragraph
   (with formatting, without link) when neither directive pattern matches.
   */
  function ParseCta(n: Node, lookupQ: string -> QueryLookup): (r: Element)
    ensures r.kind == Cta || r.kind == Paragraph
    ensures r.kind == Paragraph <==> DirectiveText(Trim(n.text)).None?
    ensures r.kind == Paragraph ==>
      r.content == Trim(n.text) && r.url.None? && r.formatting == DocsFormatting(n.styling)
    ensures r.kind == Cta ==>
      r.ctaText == Some(r.content) && r.ctaUrl.Some? && IsTrimmed(r.content) && r.formatting == NoFormatting
    ensures r.kind == Cta ==> Some((r.content, r.ctaUrl.value)) == CtaParts(Trim(n.text), n.html, lookupQ)
  {
    var t := Trim(n.text);
    match CtaParts(t, n.html, lookupQ)
    case None => Element(Paragraph, t, DocsFormatting(n.styling), None, None, None, None, None, None)
    case Some(parts) => CtaElement(parts.0, parts.1)
  }

  const SpaceDirective := "[space]"

  /** `[space]` is not a CTA trigger. */
  lemma SpaceDirectiveIsNotCta()
    ensures !IsCtaPattern(SpaceDirective)
  {
    var t := SpaceDirective;
    assert IsTrimmed(t);
    TrimOfTrimmed(t);
    assert !AtCI(t, 0, "[cta]") by {
      assert LowerChar(t[1]) == 's';
      if AtCI(t, 0, "[cta]") { AtCIChar(t, 0, "[cta]", 1); }
    }
    assert !AtCI(t, 0, "cta") by {
      if AtCI(t, 0, "cta") { AtCIChar(t, 0, "cta", 0); }
    }
    assert !Contains(t, "<CTA>") by {
      NoCharNoOccurrence(t, "<CTA>", 0);
    }
  }

  /**
   `parseParagraph`: nothing for empty text; a CTA when the text triggers one; a spacer for the
   exact text `[space]`; otherwise a paragraph linked to its first anchor's cleaned `href`.
   */
  function ParseParagraph(n: Node, lookupQ: string -> QueryLookup): (r: Option<Element>)
    ensures r.None? <==> Trim(n.text) == []
    ensures r.Some? ==> r.value.kind in {Paragraph, Cta, Space}
    ensures r.Some? ==> (r.value == BareSpace <==> Trim(n.text) == SpaceDirective)
    ensures r.Some? ==> (r.value.kind == Cta <==> IsCtaPattern(Trim(n.text)))
    ensures r.Some? && r.value.kind != Space ==> r.value.content == Trim(n.text) || r.value.kind == Cta
    ensures r.Some? && !IsCtaPattern(Trim(n.text)) && Trim(n.text) != SpaceDirective ==>
      r.value.kind == Paragraph && r.value.url == LinkUrl(n.anchor, lookupQ)
      && r.value.formatting == DocsFormatting(n.styling)
  {
    var t := Trim(n.text);
    SpaceDirectiveIsNotCta();
    if t == [] then None
    else if IsCtaPattern(t) then TrimIsTrimmed(n.text); TriggerHasText(t); Some(ParseCta(n, lookupQ))
    else if t == SpaceDirective then Some(BareSpace)
    else Some(Element(Paragraph, t, DocsFormatting(n.styling), None, LinkUrl(n.anchor, lookupQ), None, None, None, None))
  }

  /** One `li` of `parseList`: an item when its trimmed text is not empty. */
  function ParseItem(li: Node, lt: ListType): (r: seq<Element>)
    ensures |r| <= 1
    ensures r != [] <==> Trim(li.text) != []
    ensures r != [] ==> r[0].content == Trim(li.text) && IsItemOf(r[0], lt)
  {
    var t := Trim(li.text);
    TrimIsTrimmed(li.text);
    if t == [] then [] else [Element(ListItem, t, DocsFormatting(li.styling), None, None, None, Some(lt), None, None)]
  }

  /** `parseList`: the items of a `ul` (unordered) or `ol` (ordered), in order. */
  function ParseList(items: seq<Node>, lt: ListType): seq<Element>
    decreases |items|
  {
    if items == [] then [] else ParseItem(items[0], lt) + ParseList(items[1..], lt)
  }

  /** Every list element is a non-empty, trimmed item of the list's type. */
  predicate IsItemOf(e: Element, lt: ListType) {
    e.kind == ListItem && e.listType == Some(lt) && e.content != [] && IsTrimmed(e.content)
  }

  predicate AllItemsOf(r: seq<Element>, lt: ListType) {
    forall i :: 0 <= i < |r| ==> IsItemOf(r[i], lt)
  }

  lemma ItemsJoin(head: seq<Element>, rest: seq<Element>, lt: ListType)
    requires AllItemsOf(head, lt) && AllItemsOf(rest, lt)
    ensures AllItemsOf(head + rest, lt)
  {
    var r := head + rest;
    forall i | 0 <= i < |r| ensures IsItemOf(r[i], lt) {
      if i < |head| { assert r[i] == head[i]; } else { assert r[i] == rest[i - |head|]; }
    }
  }

  /** Every element of a parsed list is a non-empty, trimmed item of the list's type. */
  lemma {:induction false} ParseListItems(items: seq<Node>, lt: ListType)
    ensures |ParseList(items, lt)| <= |items|
    ensures AllItemsOf(ParseList(items, lt), lt)
    decreases |items|
  {
    if items != [] {
      var tail := items[1..];
      ParseListItems(tail, lt);
      var head := ParseItem(items[0], lt);
      assert AllItemsOf(head, lt);
      ItemsJoin(head, ParseList(tail, lt), lt);
    }
  }

  /** A list whose items all hold text gives one item per `li`, with its trimmed text, in order. */
  lemma {:induction false} ParseListAll(items: seq<Node>, lt: ListType)
    requires forall i :: 0 <= i < |items| ==> Trim(items[i].text) != []
    ensures ContentsAre(ParseList(items, lt), items)
    decreases |items|
  {
    if items != [] {
      var tail := items[1..];
      TailHasText(items);
      ParseListAll(tail, lt);
      ItemContent(items[0], lt);
      ContentsJoin(ParseItem(items[0], lt), ParseList(tail, lt), items);
    }
  }

  lemma TailHasText(items: seq<Node>)
    requires items != [] && forall i :: 0 <= i < |items| ==> Trim(items[i].text) != []
    ensures forall i :: 0 <= i < |items[1..]| ==> Trim(items[1..][i].text) != []
  {
    forall i | 0 <= i < |items[1..]| ensures Trim(items[1..][i].text) != [] {
      assert items[1..][i] == items[i + 1];
    }
  }

  lemma ItemContent(li: Node, lt: ListType)
    requires Trim(li.text) != []
    ensures ContentsAre(ParseItem(li, lt), [li])
  {
  }

  /** One element per node, holding that node's trimmed text. */
  predicate ContentsAre(r: seq<Element>, items: seq<Node>) {
    |r| == |items| && forall i :: 0 <= i < |items| ==> r[i].content == Trim(items[i].text)
  }

  lemma ContentsJoin(head: seq<Element>, rest: seq<Element>, items: seq<Node>)
    requires items != [] && ContentsAre(head, [items[0]]) && ContentsAre(rest, items[1..])
    ensures ContentsAre(head + rest, items)
  {
    var r := head + rest;
    forall i | 0 <= i < |items| ensures r[i].content == Trim(items[i].text) {
      if i > 0 { assert r[i] == rest[i - 1] && items[1..][i - 1] == items[i]; }
    }
  }

  /** `parseImage`'s URL: `https:` for a protocol-relative source, then the width rule. */
  function DocsImageUrl(src: string): string {
    var a := WithScheme(src);
    if Contains(src, "googleusercontent.com") && !Contains(src, "=w") then
      a + (if Contains(a, "?") then "&w=600" else "?w=600")
    else a
  }

  /**
   The parser tests the image URL as given where the image-tag rewrite of the converter tests it
   after adding the scheme; as `https:` adds no occurrence, both rewrite a URL the same way.
   */
  lemma DocsImageUrlIsFixUrl(src: string)
    ensures DocsImageUrl(src) == ImageTags.FixUrl(src)
  {
    SchemeKeepsTests(src);
    assert ImageTags.ProtocolPrefix == "https:";
  }

  /** `parseImage`: the alt text (`이미지` when absent or empty) is both content and alt. */
  function ParseImage(n: Node): (r: Element)
    ensures r.kind == Image && r.alt == Some(r.content) && r.content != []
    ensures Truthy(n.alt) ==> r.content == n.alt.value
    ensures !Truthy(n.alt) ==> r.content == DefaultAlt
    ensures r.url == Some(ImageTags.FixUrl(Or(n.src, "")))
  {
    var alt := Or(n.alt, DefaultAlt);
    DocsImageUrlIsFixUrl(Or(n.src, ""));
    Element(Image, alt, NoFormatting, None, Some(DocsImageUrl(Or(n.src, ""))), Some(alt), None, None, None)
  }

  /** One visited element, by its lower-cased tag name; other tags give nothing. */
  function ParseNode(n: Node, lookupQ: string -> QueryLookup): (r: seq<Element>)
  {
    var tag := Lower(n.tag);
    match HeadingTagLevel(tag)
    case Some(level) => [ParseHeading(n, level)]
    case None =>
      if tag == "p" then
        match ParseParagraph(n, lookupQ)
        case Some(e) => [e]
        case None => []
      else if tag == "ul" || tag == "ol" then ParseList(n.items, if tag == "ol" then Ordered else Unordered)
      else if tag == "img" then [ParseImage(n)]
      else []
  }

  /** What each tag gives: one heading at the tag's level, at most one block for `p`, one image for `img`. */
  lemma ParseNodeKinds(n: Node, lookupQ: string -> QueryLookup)
    ensures var tag := Lower(n.tag); var r := ParseNode(n, lookupQ);
      && (HeadingTagLevel(tag).Some? ==>
            |r| == 1 && r[0].kind == Heading && r[0].level == HeadingTagLevel(tag) && r[0].content == Trim(n.text))
      && (tag == "p" ==> |r| <= 1 && (r == [] <==> Trim(n.text) == []))
      && (tag == "img" ==> |r| == 1 && r[0].kind == Image)
      && (tag == "ul" || tag == "ol" ==>
            AllItemsOf(r, if tag == "ol" then Ordered else Unordered))
      && (HeadingTagLevel(tag).None? && tag !in {"p", "ul", "ol", "img"} ==> r == [])
  {
    var tag := Lower(n.tag);
    if tag == "ul" || tag == "ol" {
      ParseListItems(n.items, if tag == "ol" then Ordered else Unordered);
    }
  }

  /** The visited elements in order, each replaced by what it gives. */
  function ParseNodes(ns: seq<Node>, lookupQ: string -> QueryLookup): seq<Element>
    decreases |ns|
  {
    if ns == [] then [] else ParseNode(ns[0], lookupQ) + ParseNodes(ns[1..], lookupQ)
  }

  // ------------------------------------------------------------------ post-processing

  /** The spacer that stands for a run of `k` spacers. */
  function SpaceRun(k: nat): (r: Element)
    ensures r.kind == Space && r.content == [] && r.level == Some(k)
  {
    Element(Space, [], NoFormatting, Some(k), None, None, None, None, None)
  }

  /** The pending run, if any. */
  function Flush(pending: nat): (r: seq<Element>)
    ensures |r| <= 1
  {
    if pending > 0 then [SpaceRun(pending)] else []
  }

  /**
   The merging loop of `postProcessElements` with `pending` spacers counted so far: a spacer is
   counted, anything else flushes the count and is kept; the count is flushed at the end.
   */
  function MergeSpaces(es: seq<Element>, pending: nat): seq<Element>
    decreases |es|
  {
    if es == [] then Flush(pending)
    else if es[0].kind == Space then MergeSpaces(es[1..], pending + 1)
    else Flush(pending) + [es[0]] + MergeSpaces(es[1..], 0)
  }

  /** `postProcessElements`: the empty-element filter, then the merge. */
  function PostProcess(es: seq<Element>): seq<Element> {
    MergeSpaces(DropEmpty(es), 0)
  }

  /** `parseHtmlToElements`, without the metadata: the title, or `제목 없음`, and the elements. */
  function ParseHtmlToElements(title: string, ns: seq<Node>, lookupQ: string -> QueryLookup): (r: Doc)
    ensures r.title == (if title != [] then title else UntitledTitle)
  {
    Doc(if title != [] then title else UntitledTitle, PostProcess(ParseNodes(ns, lookupQ)))
  }

  // ------------------------------------------------------------------ the list callback as written

  /**
   The error the list callback raises. `parseList` calls `$(li)`, but `$` is the cheerio
   instance local to `parseHtmlToElements`, so it is unbound inside `parseList`.
   */
  const UnboundDollar := "ReferenceError: $ is not defined"

  /** A `ul` or `ol` that holds at least one `li`: the callback runs, and throws. */
  predicate ListWithItems(n: Node) {
    var tag := Lower(n.tag);
    (tag == "ul" || tag == "ol") && n.items != []
  }

  /** `parseList` as written: no `li` gives no items; the first `li` throws. */
  function ParseListAsWritten(items: seq<Node>, lt: ListType): Result<seq<Element>> {
    if items == [] then Ok([]) else Err(UnboundDollar)
  }

  /** One visited element as the code is written: a list goes through the failing callback. */
  function ParseNodeAsWritten(n: Node, lookupQ: string -> QueryLookup): Result<seq<Element>> {
    var tag := Lower(n.tag);
    if tag == "ul" || tag == "ol" then ParseListAsWritten(n.items, if tag == "ol" then Ordered else Unordered)
    else Ok(ParseNode(n, lookupQ))
  }

  /** The `each` walk as written: the first error ends it. */
  function ParseNodesAsWritten(ns: seq<Node>, lookupQ: string -> QueryLookup): Result<seq<Element>>
    decreases |ns|
  {
    if ns == [] then Ok([])
    else
      match ParseNodeAsWritten(ns[0], lookupQ)
      case Err(m) => Err(m)
      case Ok(head) =>
        match ParseNodesAsWritten(ns[1..], lookupQ)
        case Err(m) => Err(m)
        case Ok(rest) => Ok(head + rest)
  }

  /**
   `parseHtmlToElements` as written; `parsePublicDocument` logs the error and throws it again,
   so the failure reaches the caller unchanged.
   */
  function ParseHtmlToElementsAsWritten(title: string, ns: seq<Node>, lookupQ: string -> QueryLookup): Result<Doc> {
    match ParseNodesAsWritten(ns, lookupQ)
    case Err(m) => Err(m)
    case Ok(es) => Ok(Doc(if title != [] then title else UntitledTitle, PostProcess(es)))
  }

  /**
   The code as written fails exactly on a document with a non-empty list, and on every other
   document it parses as `ParseHtmlToElements`, the definition with `$` in scope.
   */
  lemma AsWrittenFailsOnLists(title: string, ns: seq<Node>, lookupQ: string -> QueryLookup)
    ensures ParseHtmlToElementsAsWritten(title, ns, lookupQ).Err?
      <==> exists i :: 0 <= i < |ns| && ListWithItems(ns[i])
    ensures ParseHtmlToElementsAsWritten(title, ns, lookupQ).Err? ==>
      ParseHtmlToElementsAsWritten(title, ns, lookupQ).message == UnboundDollar
    ensures ParseHtmlToElementsAsWritten(title, ns, lookupQ).Ok? ==>
      ParseHtmlToElementsAsWritten(title, ns, lookupQ).value == ParseHtmlToElements(title, ns, lookupQ)
  {
    NodesAsWritten(ns, lookupQ);
  }

  lemma {:induction false} NodesAsWritten(ns: seq<Node>, lookupQ: string -> QueryLookup)
    ensures var r := ParseNodesAsWritten(ns, lookupQ);
      && (r.Err? <==> exists i :: 0 <= i < |ns| && ListWithItems(ns[i]))
      && (r.Err? ==> r.message == UnboundDollar)
      && (r.Ok? ==> r.value == ParseNodes(ns, lookupQ))
    decreases |ns|
  {
    if ns != [] {
      NodesAsWritten(ns[1..], lookupQ);
      NodeAsWritten(ns[0], lookupQ);
      ListsInTail(ns);
    }
  }

  /** One element as written fails exactly when it is a non-empty list, and otherwise agrees. */
  lemma NodeAsWritten(n: Node, lookupQ: string -> QueryLookup)
    ensures var r := ParseNodeAsWritten(n, lookupQ);
      && (r.Err? <==> ListWithItems(n))
      && (r.Err? ==> r.message == UnboundDollar)
      && (r.Ok? ==> r.value == ParseNode(n, lookupQ))
  {
    var tag := Lower(n.tag);
    if (tag == "ul" || tag == "ol") && n.items == [] {
      assert ParseList([], if tag == "ol" then Ordered else Unordered) == [];
    }
  }

  lemma ListsInTail(ns: seq<Node>)
    requires ns != []
    ensures (exists i :: 0 <= i < |ns| && ListWithItems(ns[i]))
      <==> ListWithItems(ns[0]) || exists i :: 0 <= i < |ns[1..]| && ListWithItems(ns[1..][i])
  {
    if exists i :: 0 <= i < |ns| && ListWithItems(ns[i]) {
      var i :| 0 <= i < |ns| && ListWithItems(ns[i]);
      if i > 0 {
        assert ns[1..][i - 1] == ns[i];
      }
    }
    if exists i :: 0 <= i < |ns[1..]| && ListWithItems(ns[1..][i]) {
      var i :| 0 <= i < |ns[1..]| && ListWithItems(ns[1..][i]);
      assert ns[i + 1] == ns[1..][i];
    }
  }

  /** A `ul` holding one `li` with text: the code as written throws, the intended parser gives the item. */
  lemma OneItemListThrows(li: Node, lookupQ: string -> QueryLookup)
    requires Trim(li.text) != []
    ensures var ul := Node("ul", li.text, li.html, li.styling, None, None, None, [li]);
      && ParseHtmlToElementsAsWritten("", [ul], lookupQ) == Err(UnboundDollar)
      && |ParseNodes([ul], lookupQ)| == 1 && ParseNodes([ul], lookupQ)[0].content == Trim(li.text)
  {
    var ul := Node("ul", li.text, li.html, li.styling, None, None, None, [li]);
    UlIsList(ul);
    AsWrittenFailsOnLists("", [ul], lookupQ);
    OneNodeList(ul, lookupQ);
  }

  lemma UlIsList(ul: Node)
    requires ul.tag == "ul" && ul.items != []
    ensures ListWithItems(ul)
  {
    assert Lower("ul") == "ul";
  }

  /** A `ul` whose one `li` has text parses, with `$` in scope, to that one item. */
  lemma OneNodeList(ul: Node, lookupQ: string -> QueryLookup)
    requires ul.tag == "ul" && |ul.items| == 1 && Trim(ul.items[0].text) != []
    ensures |ParseNodes([ul], lookupQ)| == 1 && ParseNodes([ul], lookupQ)[0].content == Trim(ul.items[0].text)
  {
    UlNode(ul, lookupQ);
    OneItem(ul.items);
    assert ParseNodes([ul], lookupQ) == ParseNode(ul, lookupQ) + ParseNodes([], lookupQ);
  }

  lemma UlNode(ul: Node, lookupQ: string -> QueryLookup)
    requires ul.tag == "ul"
    ensures ParseNode(ul, lookupQ) == ParseList(ul.items, Unordered)
  {
    assert Lower("ul") == "ul";
    assert HeadingTagLevel("ul").None?;
  }

  lemma OneItem(items: seq<Node>)
    requires |items| == 1 && Trim(items[0].text) != []
    ensures |ParseList(items, Unordered)| == 1 && ParseList(items, Unordered)[0].content == Trim(items[0].text)
  {
    assert ParseList(items, Unordered) == ParseItem(items[0], Unordered) + ParseList([], Unordered);
  }

  // ------------------------------------------------------------------ properties of the merge

  predicate NoAdjacentSpaces(r: seq<Element>) {
    forall i :: 0 <= i < |r| - 1 ==> !(r[i].kind == Space && r[i + 1].kind == Space)
  }

  lemma SeparatedJoin(a: seq<Element>, e: Element, b: seq<Element>)
    requires |a| <= 1 && e.kind != Space && NoAdjacentSpaces(b)
    ensures NoAdjacentSpaces(a + [e] + b)
  {
    var s := a + [e] + b;
    forall i | 0 <= i < |s| - 1 ensures !(s[i].kind == Space && s[i + 1].kind == Space) {
      if i + 1 == |a| {
        assert s[i + 1] == e;
      } else if i == |a| {
        assert s[i] == e;
      } else {
        assert s[i] == b[i - |a| - 1] && s[i + 1] == b[i - |a|];
      }
    }
  }

  /** After merging, no two neighbouring elements are spacers. */
  lemma {:induction false} MergeSeparates(es: seq<Element>, pending: nat)
    ensures NoAdjacentSpaces(MergeSpaces(es, pending))
    decreases |es|
  {
    if es != [] {
      if es[0].kind == Space {
        MergeSeparates(es[1..], pending + 1);
      } else {
        MergeSeparates(es[1..], 0);
        SeparatedJoin(Flush(pending), es[0], MergeSpaces(es[1..], 0));
      }
    }
  }

  /** The number of spacers in a list. */
  function SpaceCount(es: seq<Element>): nat
    decreases |es|
  {
    if es == [] then 0 else (if es[0].kind == Space then 1 else 0) + SpaceCount(es[1..])
  }

  /** The sum of the levels of the spacers in a list (a spacer without level counts 0). */
  function LevelSum(es: seq<Element>): nat
    decreases |es|
  {
    if es == [] then 0
    else (if es[0].kind == Space && es[0].level.Some? then es[0].level.value else 0) + LevelSum(es[1..])
  }

  /** The elements other than spacers, in order. */
  function NonSpaces(es: seq<Element>): seq<Element>
    decreases |es|
  {
    if es == [] then [] else (if es[0].kind == Space then [] else [es[0]]) + NonSpaces(es[1..])
  }

  lemma {:induction false} LevelSumAppend(a: seq<Element>, b: seq<Element>)
    ensures LevelSum(a + b) == LevelSum(a) + LevelSum(b)
    decreases |a|
  {
    if a == [] {
      assert a + b == b;
    } else {
      assert (a + b)[0] == a[0] && (a + b)[1..] == a[1..] + b;
      LevelSumAppend(a[1..], b);
    }
  }

  lemma {:induction false} NonSpacesAppend(a: seq<Element>, b: seq<Element>)
    ensures NonSpaces(a + b) == NonSpaces(a) + NonSpaces(b)
    decreases |a|
  {
    if a == [] {
      assert a + b == b;
    } else {
      var head := if a[0].kind == Space then [] else [a[0]];
      assert (a + b)[0] == a[0] && (a + b)[1..] == a[1..] + b;
      NonSpacesAppend(a[1..], b);
      calc {
        NonSpaces(a + b);
        head + NonSpaces(a[1..] + b);
        head + (NonSpaces(a[1..]) + NonSpaces(b));
        (head + NonSpaces(a[1..])) + NonSpaces(b);
      }
    }
  }

  /** The merged levels add up to the spacers seen: the pending count plus those still to come. */
  lemma {:induction false} MergeCountsSpaces(es: seq<Element>, pending: nat)
    ensures LevelSum(MergeSpaces(es, pending)) == pending + SpaceCount(es)
    decreases |es|
  {
    if es != [] {
      if es[0].kind == Space {
        MergeCountsSpaces(es[1..], pending + 1);
      } else {
        MergeCountsSpaces(es[1..], 0);
        LevelSumAppend(Flush(pending) + [es[0]], MergeSpaces(es[1..], 0));
        LevelSumAppend(Flush(pending), [es[0]]);
      }
    }
  }

  /** Merging keeps every other element, unchanged and in order. */
  lemma {:induction false} MergeKeepsNonSpaces(es: seq<Element>, pending: nat)
    ensures NonSpaces(MergeSpaces(es, pending)) == NonSpaces(es)
    decreases |es|
  {
    if es != [] {
      if es[0].kind == Space {
        MergeKeepsNonSpaces(es[1..], pending + 1);
      } else {
        MergeKeepsNonSpaces(es[1..], 0);
        NonSpacesAppend(Flush(pending) + [es[0]], MergeSpaces(es[1..], 0));
        NonSpacesAppend(Flush(pending), [es[0]]);
        assert NonSpaces([es[0]]) == [es[0]];
      }
    }
  }

  /** `k` bare spacers. */
  function Copies(k: nat): (r: seq<Element>)
    ensures |r| == k
  {
    seq(k, _ => BareSpace)
  }

  /** Every spacer made bare: levels are what the merge ignores. */
  function Normalize(es: seq<Element>): seq<Element>
    decreases |es|
  {
    if es == [] then [] else [if es[0].kind == Space then BareSpace else es[0]] + Normalize(es[1..])
  }

  /** A merged list read back: a spacer of level `k` stands for `k` bare spacers. */
  function Expand(rs: seq<Element>): seq<Element>
    decreases |rs|
  {
    if rs == [] then []
    else (if rs[0].kind == Space && rs[0].level.Some? then Copies(rs[0].level.value) else [rs[0]]) + Expand(rs[1..])
  }

  lemma {:induction false} ExpandAppend(a: seq<Element>, b: seq<Element>)
    ensures Expand(a + b) == Expand(a) + Expand(b)
    decreases |a|
  {
    if a == [] {
      assert a + b == b;
    } else {
      var head := if a[0].kind == Space && a[0].level.Some? then Copies(a[0].level.value) else [a[0]];
      assert (a + b)[0] == a[0] && (a + b)[1..] == a[1..] + b;
      ExpandAppend(a[1..], b);
      calc {
        Expand(a + b);
        head + Expand(a[1..] + b);
        head + (Expand(a[1..]) + Expand(b));
        (head + Expand(a[1..])) + Expand(b);
      }
    }
  }

  lemma FlushExpands(pending: nat)
    ensures Expand(Flush(pending)) == Copies(pending)
  {
    if pending > 0 {
      var f := Flush(pending);
      assert f[1..] == [];
    } else {
      assert Copies(0) == [];
    }
  }

  /**
   The merge loses nothing but the spacers' own fields: reading every merged spacer back as
   its level's worth of bare spacers gives the input with its spacers made bare.
   */
  lemma {:induction false} MergeExpands(es: seq<Element>, pending: nat)
    ensures Expand(MergeSpaces(es, pending)) == Copies(pending) + Normalize(es)
    decreases |es|
  {
    if es == [] {
      FlushExpands(pending);
    } else if es[0].kind == Space {
      MergeExpands(es[1..], pending + 1);
      assert Copies(pending + 1) == Copies(pending) + [BareSpace];
      assert Normalize(es) == [BareSpace] + Normalize(es[1..]);
    } else {
      MergeExpands(es[1..], 0);
      ExpandKeptStep(es, pending);
    }
  }

  /** The step of the merge at an element that is not a spacer. */
  lemma ExpandKeptStep(es: seq<Element>, pending: nat)
    requires es != [] && es[0].kind != Space
    requires Expand(MergeSpaces(es[1..], 0)) == Normalize(es[1..])
    ensures Expand(MergeSpaces(es, pending)) == Copies(pending) + Normalize(es)
  {
    var e := es[0];
    var m := MergeSpaces(es[1..], 0);
    assert MergeSpaces(es, pending) == Flush(pending) + [e] + m;
    ExpandAppend(Flush(pending) + [e], m);
    ExpandAppend(Flush(pending), [e]);
    FlushExpands(pending);
    assert Expand([e]) == [e] by { assert [e][1..] == []; }
    assert Normalize(es) == [e] + Normalize(es[1..]);
  }

  /** What an element of the output looks like: a spacer with a positive level and no text, or a kept element. */
  predicate Shaped(e: Element) {
    && (e.kind == Space ==> e.content == [] && e.level.Some? && e.level.value >= 1)
    && (e.kind != Space ==> Kept(e))
  }

  predicate AllShaped(es: seq<Element>) {
    forall i :: 0 <= i < |es| ==> Shaped(es[i])
  }

  predicate AllKept(es: seq<Element>) {
    forall i :: 0 <= i < |es| ==> Kept(es[i])
  }

  lemma ShapedJoin(a: seq<Element>, b: seq<Element>)
    requires AllShaped(a) && AllShaped(b)
    ensures AllShaped(a + b)
  {
    forall i | 0 <= i < |a + b| ensures Shaped((a + b)[i]) {
      if i < |a| { assert (a + b)[i] == a[i]; } else { assert (a + b)[i] == b[i - |a|]; }
    }
  }

  lemma KeptTail(es: seq<Element>)
    requires es != [] && AllKept(es)
    ensures AllKept(es[1..]) && Kept(es[0])
  {
    forall i | 0 <= i < |es[1..]| ensures Kept(es[1..][i]) { assert es[1..][i] == es[i + 1]; }
  }

  lemma {:induction false} MergeShaped(es: seq<Element>, pending: nat)
    requires AllKept(es)
    ensures AllShaped(MergeSpaces(es, pending))
    decreases |es|
  {
    if es == [] {
      assert AllShaped(Flush(pending));
    } else {
      KeptTail(es);
      if es[0].kind == Space {
        MergeShaped(es[1..], pending + 1);
      } else {
        MergeShaped(es[1..], 0);
        assert AllShaped(Flush(pending));
        assert AllShaped([es[0]]) by { assert Kept(es[0]); }
        ShapedJoin(Flush(pending), [es[0]]);
        ShapedJoin(Flush(pending) + [es[0]], MergeSpaces(es[1..], 0));
      }
    }
  }

  /** Every element the filter keeps passes its test. */
  lemma DropEmptyAllKept(es: seq<Element>)
    ensures AllKept(DropEmpty(es))
  {
    DropEmptyMembers(es);
    var r := DropEmpty(es);
    forall i | 0 <= i < |r| ensures Kept(r[i]) { assert r[i] in r; }
  }

  /**
   The elements of a parsed document: no two spacers side by side, every spacer a merged run
   with a positive level, every other element one that holds text (or is an image).
   */
  lemma ParsedElementsShape(title: string, ns: seq<Node>, lookupQ: string -> QueryLookup)
    ensures var r := ParseHtmlToElements(title, ns, lookupQ).elements;
      NoAdjacentSpaces(r) && AllShaped(r)
  {
    var kept := DropEmpty(ParseNodes(ns, lookupQ));
    MergeSeparates(kept, 0);
    DropEmptyAllKept(ParseNodes(ns, lookupQ));
    MergeShaped(kept, 0);
  }

  /**
   The post-processing in the terms of the element lists: the spacer levels add up to the
   spacers that survived the filter, and the other survivors are kept in order.
   */
  lemma PostProcessCounts(es: seq<Element>)
    ensures LevelSum(PostProcess(es)) == SpaceCount(DropEmpty(es))
    ensures NonSpaces(PostProcess(es)) == NonSpaces(DropEmpty(es))
    ensures Expand(PostProcess(es)) == Normalize(DropEmpty(es))
  {
    MergeCountsSpaces(DropEmpty(es), 0);
    MergeKeepsNonSpaces(DropEmpty(es), 0);
    MergeExpands(DropEmpty(es), 0);
    assert Copies(0) == [];
  }

  /**
   Post-processing twice is not post-processing once: the second pass ignores the levels the
   first one wrote, so a merged run of two spacers comes back as level 1.
   */
  lemma ReprocessingResetsLevels()
    ensures PostProcess([BareSpace, BareSpace]) == [SpaceRun(2)]
    ensures PostProcess(PostProcess([BareSpace, BareSpace])) == [SpaceRun(1)]
  {
    var one: seq<Element> := [BareSpace];
    var two: seq<Element> := [BareSpace, BareSpace];
    assert KeepOne(BareSpace) == one;
    assert DropEmpty(one) == one by { assert one[1..] == []; }
    assert DropEmpty(two) == two by { assert two[1..] == one; }
    assert MergeSpaces(one, 1) == [SpaceRun(2)] by { assert one[1..] == []; }
    assert MergeSpaces(two, 0) == [SpaceRun(2)] by { assert two[1..] == one; }
    var once: seq<Element> := [SpaceRun(2)];
    assert KeepOne(SpaceRun(2)) == once;
    assert DropEmpty(once) == once by { assert once[1..] == []; }
    assert MergeSpaces(once, 0) == [SpaceRun(1)] by { assert once[1..] == []; }
  }

}
