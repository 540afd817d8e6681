/**
 The block editor's list operations on a document: adding a new block after a given one (or
 at the end), deleting a block, and shallow-merging a partial update into one block, with the
 defaults a new block and a type change bring.
 */
module BlockEditor {
  import opened Base
  import opened Document
  import ParserRules

  // ------------------------------------------------------------------ partial updates

  /** `Partial<SimpleDocumentElement>`: every field optional, `None` for a key left out. */
  datatype Patch = Patch(
    kind: Option<Kind>,
    content: Option<string>,
    formatting: Option<Formatting>,
    level: Option<nat>,
    url: Option<string>,
    alt: Option<string>,
    listType: Option<ListType>,
    ctaText: Option<string>,
    ctaUrl: Option<string>)

  const NoChange := Patch(None, None, None, None, None, None, None, None, None)

  /** The patch's value when it has the key, the old value otherwise. */
  function Pick<T>(o: Option<T>, prev: T): T {
    if o.Some? then o.value else prev
  }

  function PickOpt<T>(o: Option<T>, prev: Option<T>): Option<T> {
    if o.Some? then o else prev
  }

  /** `{ ...el, ...updates }`. */
  function Merge(e: Element, p: Patch): Element {
    Element(
      Pick(p.kind, e.kind), Pick(p.content, e.content), Pick(p.formatting, e.formatting),
      PickOpt(p.level, e.level), PickOpt(p.url, e.url), PickOpt(p.alt, e.alt),
      PickOpt(p.listType, e.listType), PickOpt(p.ctaText, e.ctaText), PickOpt(p.ctaUrl, e.ctaUrl))
  }

  /** `{ ...p, ...q }`: the keys of `q` win. */
  function Then(p: Patch, q: Patch): Patch {
    Patch(
      PickOpt(q.kind, p.kind), PickOpt(q.content, p.content), PickOpt(q.formatting, p.formatting),
      PickOpt(q.level, p.level), PickOpt(q.url, p.url), PickOpt(q.alt, p.alt),
      PickOpt(q.listType, p.listType), PickOpt(q.ctaText, p.ctaText), PickOpt(q.ctaUrl, p.ctaUrl))
  }

  /** An empty update changes nothing. */
  lemma MergeNoChange(e: Element)
    ensures Merge(e, NoChange) == e
  {
  }

  /** Two merges in a row are one merge of the combined update. */
  lemma MergeThen(e: Element, p: Patch, q: Patch)
    ensures Merge(Merge(e, p), q) == Merge(e, Then(p, q))
  {
  }

  /** Merging the same update twice is merging it once. */
  lemma MergeIdempotent(e: Element, p: Patch)
    ensures Merge(Merge(e, p), p) == Merge(e, p)
  {
    MergeThen(e, p, p);
    assert Then(p, p) == p;
  }

  // ------------------------------------------------------------------ new blocks

  /** `getDefaultContent`. */
  function DefaultContent(kind: Kind): (r: string)
    ensures r == [] <==> kind == Table || kind == Space
  {
    match kind
    case Heading => "New Heading"
    case Paragraph => "Enter your text here..."
    case ListItem => "List item"
    case Image => "Image"
    case Cta => "Button Text"
    case _ => ""
  }

  const DefaultButtonText := "Button Text"
  const DefaultButtonUrl := "#"

  /** The block `addBlock` creates: a heading at level 2, a button with placeholder text and URL. */
  function NewBlock(kind: Kind): (r: Element)
    ensures r.kind == kind && r.formatting == NoFormatting
    ensures r.content == [] <==> kind == Space || kind == Table
    ensures r.level.Some? <==> kind == Heading
    ensures kind == Cta ==> r.ctaText == Some(r.content) && Truthy(r.ctaText) && Truthy(r.ctaUrl)
    ensures r.url.None? && r.alt.None? && r.listType.None?
  {
    Element(kind, if kind == Space then "" else DefaultContent(kind), NoFormatting,
      if kind == Heading then Some(2) else None, None, None, None,
      if kind == Cta then Some(DefaultButtonText) else None,
      if kind == Cta then Some(DefaultButtonUrl) else None)
  }

  // ------------------------------------------------------------------ adding

  /** Where `splice(start, 0, x)` inserts: a negative start counts from the end, and both ends clamp. */
  function SpliceIndex(len: nat, start: int): (r: nat)
    ensures r <= len
    ensures 0 <= start <= len ==> r == start
    ensures start > len ==> r == len
  {
    if start < 0 then (if len + start < 0 then 0 else len + start)
    else if start > len then len
    else start
  }

  /** `index + 1` when an index is given, the end otherwise. */
  function AddPosition(len: nat, index: Option<int>): (r: nat)
    ensures r <= len
    ensures index.None? ==> r == len
    ensures index.Some? && -1 <= index.value < len ==> r == index.value + 1
  {
    match index
    case None => len
    case Some(i) => SpliceIndex(len, i + 1)
  }

  /** `addBlock`: one new block right after block `index`, or at the end when there is no index. */
  function AddBlock(doc: Doc, kind: Kind, index: Option<int>): (r: Doc)
    ensures r.title == doc.title
    ensures var p := AddPosition(|doc.elements|, index);
      |r.elements| == |doc.elements| + 1 && r.elements[p] == NewBlock(kind)
      && r.elements[..p] == doc.elements[..p] && r.elements[p + 1..] == doc.elements[p..]
  {
    var es := doc.elements;
    var p := AddPosition(|es|, index);
    var r := es[..p] + [NewBlock(kind)] + es[p..];
    assert r[..p] == es[..p] && r[p + 1..] == es[p..];
    Doc(doc.title, r)
  }

  /** The separator above block `i` passes `i - 1`: the new block lands right before block `i`. */
  lemma SeparatorAddsBefore(doc: Doc, kind: Kind, i: nat)
    requires i < |doc.elements|
    ensures AddBlock(doc, kind, Some(i - 1)).elements[i] == NewBlock(kind)
    ensures AddBlock(doc, kind, Some(i - 1)).elements[i + 1] == doc.elements[i]
  {
    var r := AddBlock(doc, kind, Some(i - 1)).elements;
    assert r[i + 1..][0] == doc.elements[i..][0];
  }

  // ------------------------------------------------------------------ deleting

  /** `filter((_, i) => i !== index)` over the elements numbered from `base`. */
  function DropIndex(es: seq<Element>, index: int, base: nat): (r: seq<Element>)
    ensures base <= index < base + |es| ==> r == es[..index - base] + es[index - base + 1..]
    ensures !(base <= index < base + |es|) ==> r == es
    decreases |es|
  {
    if es == [] then []
    else
      var rest := DropIndex(es[1..], index, base + 1);
      if base == index then
        assert es[index - base + 1..] == es[1..];
        rest
      else
        assert base < index < base + |es| ==> es[..index - base] == [es[0]] + es[1..][..index - base - 1];
        [es[0]] + rest
  }

  /** `deleteBlock`: block `index` removed, the others in order; any other index changes nothing. */
  function DeleteBlock(doc: Doc, index: int): (r: Doc)
    ensures r.title == doc.title
    ensures 0 <= index < |doc.elements| ==> r.elements == doc.elements[..index] + doc.elements[index + 1..]
    ensures !(0 <= index < |doc.elements|) ==> r == doc
  {
    Doc(doc.title, DropIndex(doc.elements, index, 0))
  }

  /** Deleting the block just added restores the document. */
  lemma DeleteUndoesAdd(doc: Doc, kind: Kind, index: Option<int>)
    ensures DeleteBlock(AddBlock(doc, kind, index), AddPosition(|doc.elements|, index)) == doc
  {
    var p := AddPosition(|doc.elements|, index);
    var r := AddBlock(doc, kind, index).elements;
    assert r[..p] + r[p + 1..] == doc.elements[..p] + doc.elements[p..];
    assert doc.elements[..p] + doc.elements[p..] == doc.elements;
  }

  // ------------------------------------------------------------------ updating

  /** `updateBlock`: the update merged into block `index`, every other block kept. */
  function UpdateBlock(doc: Doc, index: int, p: Patch): (r: Doc)
    ensures r.title == doc.title && |r.elements| == |doc.elements|
    ensures forall k :: 0 <= k < |doc.elements| && k != index ==> r.elements[k] == doc.elements[k]
    ensures 0 <= index < |doc.elements| ==> r.elements[index] == Merge(doc.elements[index], p)
  {
    var es := doc.elements;
    Doc(doc.title, seq(|es|, k requires 0 <= k < |es| => if k == index then Merge(es[k], p) else es[k]))
  }

  /** An index outside the document, or an empty update, changes nothing. */
  lemma UpdateNothing(doc: Doc, index: int, p: Patch)
    requires !(0 <= index < |doc.elements|) || p == NoChange
    ensures UpdateBlock(doc, index, p) == doc
  {
    var r := UpdateBlock(doc, index, p);
    forall k | 0 <= k < |doc.elements|
      ensures r.elements[k] == doc.elements[k]
    {
      if k == index {
        MergeNoChange(doc.elements[k]);
      }
    }
  }

  /** Two updates of the same block are one update with the later keys winning. */
  lemma UpdateTwice(doc: Doc, index: int, p: Patch, q: Patch)
    ensures UpdateBlock(UpdateBlock(doc, index, p), index, q) == UpdateBlock(doc, index, Then(p, q))
  {
    var a := UpdateBlock(UpdateBlock(doc, index, p), index, q);
    var b := UpdateBlock(doc, index, Then(p, q));
    forall k | 0 <= k < |doc.elements|
      ensures a.elements[k] == b.elements[k]
    {
      if k == index {
        MergeThen(doc.elements[k], p, q);
      }
    }
  }

  // ------------------------------------------------------------------ type changes and button text

  /**
   The update the type selector sends: the new type, plus level 2 for a heading without a
   level, the text and URL (or placeholders) for a button, and level 1 with no text for a spacer.
   */
  function TypeChange(e: Element, kind: Kind): Patch {
    var base := NoChange.(kind := Some(kind));
    if kind == Heading && (e.level.None? || e.level.value == 0) then base.(level := Some(2))
    else if kind == Cta then
      base.(ctaText := Some(Or(Some(e.content), DefaultButtonText)), ctaUrl := Some(Or(e.ctaUrl, DefaultButtonUrl)))
    else if kind == Space then base.(level := Some(1), content := Some(""))
    else base
  }

  /** A block after a type change: it has the new type, and the fields that type needs are usable. */
  function ChangeType(e: Element, kind: Kind): (r: Element)
    ensures r.kind == kind
    ensures kind == Heading ==> r.level.Some? && r.level.value != 0
    ensures kind == Cta ==> Truthy(r.ctaText) && Truthy(r.ctaUrl) && r.content == e.content
    ensures kind == Cta && e.content != [] ==> r.ctaText == Some(e.content)
    ensures kind == Space ==> r.content == [] && r.level == Some(1)
    ensures kind != Space ==> r.content == e.content
    ensures r.formatting == e.formatting && r.url == e.url && r.alt == e.alt && r.listType == e.listType
  {
    Merge(e, TypeChange(e, kind))
  }

  /** Choosing the same type again changes nothing more. */
  lemma ChangeTypeIdempotent(e: Element, kind: Kind)
    ensures ChangeType(ChangeType(e, kind), kind) == ChangeType(e, kind)
  {
  }

  /** The type selector on block `index`. */
  function ChangeBlockType(doc: Doc, index: nat, kind: Kind): (r: Doc)
    requires index < |doc.elements|
    ensures r.title == doc.title && |r.elements| == |doc.elements|
    ensures r.elements[index] == ChangeType(doc.elements[index], kind)
    ensures forall k :: 0 <= k < |doc.elements| && k != index ==> r.elements[k] == doc.elements[k]
  {
    UpdateBlock(doc, index, TypeChange(doc.elements[index], kind))
  }

  /** The button-text field: the text and the content change together. */
  function EditCtaText(e: Element, text: string): (r: Element)
    ensures r.content == text && r.ctaText == Some(text)
    ensures r.kind == e.kind && r.ctaUrl == e.ctaUrl && r.url == e.url && r.level == e.level
  {
    Merge(e, NoChange.(ctaText := Some(text), content := Some(text)))
  }

  /** Editing a parsed button's text gives the button the parsers would build from that text. */
  lemma EditKeepsParsedShape(caption: string, url: string, text: string)
    ensures EditCtaText(ParserRules.CtaElement(caption, url), text) == ParserRules.CtaElement(text, url)
  {
  }
}
