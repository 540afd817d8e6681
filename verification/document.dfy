/**
 The structured document both parsers produce, the generator and the editors consume.

 One element record serves the two parsers' interfaces (the simple parser's elements are the
 Google Docs parser's without `table`, `alt` and `listType`; the editors read those fields
 anyway). An absent optional field is `None`; JavaScript's truthiness of a present value
 (`""` and `0` are falsy) is spelled out by `Truthy` and `LevelOr1`.
 */
module Document {
  import opened Base

  /** `type`: the block kinds; `Table` is produced by nobody and rendered as nothing. */
  datatype Kind = Paragraph | Heading | ListItem | Image | Table | Cta | Space

  datatype ListType = Ordered | Unordered

  /**
   `formatting`. An unset boolean is `false`. `fontSize` holds the number as JavaScript prints it
   (see `Numbers.CanonicalNumber`); colours and the alignment keyword are kept as text.
   */
  datatype Formatting = Formatting(
    bold: bool,
    italic: bool,
    underline: bool,
    fontSize: Option<string>,
    color: Option<string>,
    backgroundColor: Option<string>,
    alignment: Option<string>)

  const NoFormatting := Formatting(false, false, false, None, None, None, None)

  datatype Element = Element(
    kind: Kind,
    content: string,
    formatting: Formatting,
    level: Option<nat>,
    url: Option<string>,
    alt: Option<string>,
    listType: Option<ListType>,
    ctaText: Option<string>,
    ctaUrl: Option<string>)

  datatype Doc = Doc(title: string, elements: seq<Element>)

  /** An element with only its kind and content set. */
  function Bare(kind: Kind, content: string): (e: Element)
    ensures e.kind == kind && e.content == content
    ensures e.formatting == NoFormatting && e.level.None? && e.url.None? && e.alt.None?
    ensures e.listType.None? && e.ctaText.None? && e.ctaUrl.None?
  {
    Element(kind, content, NoFormatting, None, None, None, None, None, None)
  }

  /** A string field is truthy when it is present and not empty. */
  predicate Truthy(o: Option<string>) {
    o.Some? && o.value != []
  }

  /** A number field is truthy when it is present and not zero; numbers are held as printed. */
  predicate NumberTruthy(o: Option<string>) {
    Truthy(o) && o.value != "0"
  }

  /** `o || fallback` for an optional string. */
  function Or(o: Option<string>, fallback: string): (r: string)
    ensures Truthy(o) ==> r == o.value
    ensures !Truthy(o) ==> r == fallback
  {
    if Truthy(o) then o.value else fallback
  }

  /** `level || 1`: an absent level and level 0 both count as 1. */
  function LevelOr1(level: Option<nat>): (r: nat)
    ensures r >= 1
    ensures level.Some? && level.value != 0 ==> r == level.value
  {
    if level.Some? && level.value != 0 then level.value else 1
  }

  /** A space element carries no text and, before merging, no level. */
  const BareSpace := Bare(Space, [])

  /** The alt text ("image") both parsers and the generator fall back to. */
  const DefaultAlt := "이미지"
}
