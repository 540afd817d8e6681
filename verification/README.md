# google-docs-to-mailchimp, modelled in Dafny

The application turns a published Google Docs document into HTML that survives Mailchimp and
the e-mail clients behind it. There are two routes through it.

- The conversion route fetches the document's HTML export and rewrites it in place. It styles
  bold and italic text, links, blocks and images for e-mail and spaces out adjacent blocks.
  It then turns `[cta]`/`CTA` directives into buttons, `[space]` into spacers and
  `[img-link]` into linked images.
- The structured route parses the export into a list of typed elements with one of two
  parsers: headings, paragraphs, list items, images, buttons and spacers. The user edits
  them in a block editor or as Markdown, and an HTML generator renders the result as a
  mail body.

This project models the string-level logic of both routes. Each element is a datatype
(`Document.Element`), every string is a `seq<char>`, and each operation is a pure function.
Every JavaScript regular expression the code uses is written out as a hand-built matcher
(`Scan.Matcher`) that reproduces its greedy and lazy backtracking on the inputs that matter.
A global `replace` is the left-to-right, non-overlapping scan `Scan.ReplaceAll`. The
replacement-string `$` patterns are expanded as the language defines them
(`Scan.Substitute`). `String.prototype.trim` and `\s` use the language's full whitespace set.

Inputs from outside the string logic are parameters:

- `new URL(url).searchParams.get("q")` is the function `lookupQ`;
- what cheerio reports about an element is carried as plain fields: its text, its inner HTML,
  whether it holds an anchor or an image, and its lower-cased tag name;
- the comment link table is a parameter of the conversions that read it.

Fetching, logging, React state and DOM manipulation are not modelled (see "Left out").

The modules follow the source files:

| module | file | what it holds |
|---|---|---|
| `Base`, `Text`, `Scan` | (library) | `Option`/`Result`; the string primitives; the regex scan and `replace` |
| `DocUrls`, `Button`, `CommentLinks`, `CtaText`, `CtaConversion`, `SpaceDirective`, `ImageLinks`, `ImageTags` | `utils/converter.ts` | document URLs, the button template, the comment link table, the CTA link split and passes, `[space]`, `[img-link]`, the image-tag rewrite |
| `ElementRules`, `RouteCta`, `SectionSpacing` | `api/convert/route.ts` | the per-element style rules, the route's CTA rule, page breaks and block spacing |
| `Document`, `CssStyles`, `HtmlEscape`, `MailImageUrl`, `HtmlGenerator` | `utils/htmlGenerator.ts` | the element record, inline styles, escaping, the mail image size, every `generate*` method |
| `ParserRules`, `Numbers`, `DocsParser`, `SimpleParser` | `utils/googleDocsParser.ts`, `utils/simpleParser.ts` | the rules the two parsers share, `parseFloat` on a size, and each parser |
| `Markdown` | `components/VisualEditor.tsx` | `documentToMarkdown` and `markdownToDocument` |
| `BlockEditor` | `components/BlockEditor.tsx` | adding, deleting, updating and retyping blocks |

## Model

| member | source | states |
|---|---|---|
| DocUrls.DocIdAtValid | google-docs-to-mailchimp/src/app/utils/converter.ts:2 | The id pattern matches at an index exactly when `/document/d/` and at least one id character start there, and its group is the maximal run of id characters. |
| DocUrls.ExtractDocumentId | google-docs-to-mailchimp/src/app/utils/converter.ts:1-7 | The result is an id exactly when some index starts `/document/d/` followed by an id character. The id is the maximal run at the first such index. Otherwise the result is the invalid-URL error. |
| DocUrls.GetPublicHtmlUrl | google-docs-to-mailchimp/src/app/utils/converter.ts:9-11 | The export URL is the fixed prefix, then the id verbatim, then the fixed `/export?format=html` suffix. |
| DocUrls.NoEarlierDocPath | google-docs-to-mailchimp/src/app/utils/converter.ts:1-11 | No `/document/d/` followed by an id character starts inside the export URL's host part. |
| DocUrls.ExportUrlShape | google-docs-to-mailchimp/src/app/utils/converter.ts:9-11 | For a non-empty id of id characters, the export URL starts an id match right after the host, holds the id there and follows it with `/`. |
| DocUrls.ExportUrlRoundTrip | google-docs-to-mailchimp/src/app/utils/converter.ts:1-11 | Extracting the id from the export URL of a non-empty id of id characters gives that id back. |
| DocUrls.IdRunUnique | google-docs-to-mailchimp/src/app/utils/converter.ts:2 | Two maximal runs of id characters at the same index are equal, so the greedy group is determined. |
| DocUrls.CleanGoogleDocsUrl | google-docs-to-mailchimp/src/app/utils/googleDocsParser.ts:367-377 | A URL without `www.google.com/url` is kept. A redirect URL becomes its non-empty `q` parameter. A missing or empty `q`, or a failed parse, keeps the URL. |
| DocUrls.RewriteHref | google-docs-to-mailchimp/src/app/api/convert/route.ts:161-173 | An absent `href` stays absent. A present one without the redirect host is kept. Otherwise it becomes the non-empty `q` or stays as it was. |
| DocUrls.RewriteHrefIsClean | google-docs-to-mailchimp/src/app/api/convert/route.ts:164-173 | The route's `href` rewrite and the parsers' `cleanGoogleDocsUrl` agree on every present `href`. |
| Button.CreateMailchimpButton | google-docs-to-mailchimp/src/app/utils/converter.ts:408-443 | The button is the fixed head, then the URL (`#` when none is passed), then the fixed middle, the text and the fixed tail. The template's leading line break is gone. |
| Button.FramedTrim | google-docs-to-mailchimp/src/app/utils/converter.ts:409-442 | `trim` of the template literal removes exactly the leading line break, whatever text and URL are spliced in. |
| Button.SplitFramedRoundTrip | google-docs-to-mailchimp/src/app/utils/converter.ts:408-443 | Cutting a framed string at the first occurrence of the middle recovers both spliced parts when the first holds no character that opens the middle. |
| Button.ButtonRoundTrip | google-docs-to-mailchimp/src/app/utils/converter.ts:408-443 | The URL and the text can be read back from the button when the URL holds no `"`, so the template loses nothing. |
| Button.DefaultUrl | google-docs-to-mailchimp/src/app/utils/converter.ts:408 | A button built without a URL links to `#` and shows the text. |
| CommentLinks.Keys | google-docs-to-mailchimp/src/app/utils/converter.ts:448 | The keys of the table, one per entry, in order. |
| CommentLinks.Lookup | google-docs-to-mailchimp/src/app/utils/converter.ts:472 | A key is absent exactly when it is not among the table's keys. |
| CommentLinks.Store | google-docs-to-mailchimp/src/app/utils/converter.ts:472 | `links[key] = url` keeps the key order when the key exists and appends it otherwise. Every entry is the new pair or an old one. |
| CommentLinks.StoreKeepsUnique | google-docs-to-mailchimp/src/app/utils/converter.ts:472 | Storing into a table with unique keys keeps them unique. |
| CommentLinks.StoreLookup | google-docs-to-mailchimp/src/app/utils/converter.ts:472 | After storing, the stored key reads the new URL and every other key reads as before. |
| CommentLinks.StoreOf | google-docs-to-mailchimp/src/app/utils/converter.ts:467-487 | Whatever a match stores is a well-formed entry: a non-empty key without `<` or `>`, and a non-empty URL. |
| CommentLinks.OneGroupStore | google-docs-to-mailchimp/src/app/utils/converter.ts:474-486 | The one-group case stores a trimmed key free of `: - , < >`. Its URL starts with `http` and occurs in the group. |
| CommentLinks.TwoGroupRecord | google-docs-to-mailchimp/src/app/utils/converter.ts:467-473 | With a non-empty trimmed URL, a two-group match stores something exactly when the trimmed key minus `<` and `>` is non-empty. It then stores that key and the trimmed URL. |
| CommentLinks.TrimKeepsAbsent | google-docs-to-mailchimp/src/app/utils/converter.ts:478-482 | Trimming after removing characters never brings one back. |
| CommentLinks.UrlRunFacts | google-docs-to-mailchimp/src/app/utils/converter.ts:476 | The `(https?:\/\/[^\s]+)` run found in a group starts with `http` and sits in the group where it was found. |
| CommentLinks.ArrowEnd | google-docs-to-mailchimp/src/app/utils/converter.ts:453 | Where pattern 1's greedy URL run stops, `-->` follows after optional whitespace. |
| CommentLinks.Entries | google-docs-to-mailchimp/src/app/utils/converter.ts:464-489 | One entry per match, each what that match stores. |
| CommentLinks.EntriesGood | google-docs-to-mailchimp/src/app/utils/converter.ts:467-487 | Every entry any match produces is well-formed. |
| CommentLinks.EntriesAppend | google-docs-to-mailchimp/src/app/utils/converter.ts:464-466 | The entries of two runs of matches are the two runs' entries in order. |
| CommentLinks.StoreWellFormed | google-docs-to-mailchimp/src/app/utils/converter.ts:472-484 | Storing a well-formed entry into a well-formed table keeps it well-formed. |
| CommentLinks.ExtractRecordsAll | google-docs-to-mailchimp/src/app/utils/converter.ts:451-489 | The extraction is one recording, in order, of every match of the five patterns, pattern after pattern. |
| CommentLinks.ExtractedWellFormed | google-docs-to-mailchimp/src/app/utils/converter.ts:445-492 | The table extracted from any HTML is well-formed. |
| CommentLinks.ApplyAllWellFormed | google-docs-to-mailchimp/src/app/utils/converter.ts:451-489 | Recording well-formed entries in order keeps a well-formed table well-formed. |
| CommentLinks.ApplyAllAppend | google-docs-to-mailchimp/src/app/utils/converter.ts:451-489 | Recording two runs of matches equals recording the first and then the second. |
| CommentLinks.UntouchedKey | google-docs-to-mailchimp/src/app/utils/converter.ts:451-489 | A key that no match sets keeps its earlier value. |
| CommentLinks.LastRecordWins | google-docs-to-mailchimp/src/app/utils/converter.ts:451-489 | When several matches set a key, the table holds the URL of the last one. |
| CtaText.UrlEnd | google-docs-to-mailchimp/src/app/utils/converter.ts:509 | The greedy `[^\s]+` after a URL scheme takes at least one character and stops at whitespace or the end. |
| CtaText.TryPattern | google-docs-to-mailchimp/src/app/utils/converter.ts:522-529 | A pattern that matches nowhere leaves the fallback in place. Once it matches with two groups, the URL it gives is trimmed. |
| CtaText.TryPatternMatched | google-docs-to-mailchimp/src/app/utils/converter.ts:522-529 | Once a pattern matches, the patterns after it (the fallback) no longer matter: the loop breaks. |
| CtaText.NonHShadowedByUrl | google-docs-to-mailchimp/src/app/utils/converter.ts:509-515 | Wherever pattern 4 matches, pattern 1 matches too. |
| CtaText.MarkdownShadowedByParen | google-docs-to-mailchimp/src/app/utils/converter.ts:511-513 | Wherever pattern 3 matches, pattern 2 matches too. |
| CtaText.MarkdownParen | google-docs-to-mailchimp/src/app/utils/converter.ts:511-513 | A Markdown link holds a parenthesised URL right after its closing bracket. |
| CtaText.ParenHitAt | google-docs-to-mailchimp/src/app/utils/converter.ts:511 | Pattern 2 matches at every `(` that opens a parenthesised URL. |
| CtaText.LaterPatternsShadowed | google-docs-to-mailchimp/src/app/utils/converter.ts:507-529 | The four-pattern split equals the split with only patterns 1 and 2, so patterns 3 and 4 never decide anything. |
| CtaText.NoSchemeKeepsText | google-docs-to-mailchimp/src/app/utils/converter.ts:518-529 | A text containing no `http://` or `https://` keeps the whole text as the label, with URL `#`. |
| CtaText.FoundUrlNotHash | google-docs-to-mailchimp/src/app/utils/converter.ts:526 | A URL group that starts with `h` is never `#` after trimming. |
| CtaText.HashMeansUnsplit | google-docs-to-mailchimp/src/app/utils/converter.ts:518-532 | The URL stays `#` exactly when neither pattern 1 nor pattern 2 matches, and then the label is the whole text. So `buttonUrl === "#"` means nothing was split. |
| CtaText.UrlStartsWithH | google-docs-to-mailchimp/src/app/utils/converter.ts:509 | A URL match starts with `h`. |
| CtaText.FirstUrlSplits | google-docs-to-mailchimp/src/app/utils/converter.ts:509-529 | On a one-line text, pattern 1 splits at the first URL start. The label is everything before it, trimmed, and the URL is the whole non-space run. |
| CtaText.LazyUrlFindsFirst | google-docs-to-mailchimp/src/app/utils/converter.ts:509 | The lazy pattern stops at the first `http(s)://` and captures the text before it, less the white space that precedes the URL, and the URL up to the next white space. |
| CtaText.LabelBeforeSpaces | google-docs-to-mailchimp/src/app/utils/converter.ts:509-525 | The whitespace the lazy label leaves to `\s*` is dropped by the trim anyway. |
| CtaText.UrlIsTrimmed | google-docs-to-mailchimp/src/app/utils/converter.ts:509-526 | A URL run holds no whitespace, so trimming keeps it. |
| CtaText.SplitByFirstPattern | google-docs-to-mailchimp/src/app/utils/converter.ts:522-529 | When pattern 1 matches, the split is its two groups, trimmed. |
| CtaText.GroupStart | google-docs-to-mailchimp/src/app/api/convert/route.ts:455 | Where a capture group starts after a greedy `\s*` gives characters back: the largest allowed position up to where the run stopped. |
| CtaText.DirectiveText | google-docs-to-mailchimp/src/app/api/convert/route.ts:454-459 | The button text, when found, is trimmed. A `[cta]` match always yields one. |
| CtaText.BracketHoldsCta | google-docs-to-mailchimp/src/app/api/convert/route.ts:449 | A case-insensitive `[cta]` holds `cta` one character in. |
| CtaText.NoDirectiveNoText | google-docs-to-mailchimp/src/app/api/convert/route.ts:454-458 | A text holding no `cta` in any case has no button text. |
| CtaText.KeyMatchesForms | google-docs-to-mailchimp/src/app/utils/converter.ts:536-540 | `a === b \|\| a.includes(b) \|\| b.includes(a)` on lower-cased strings is the two containment tests alone. |
| CtaText.EmptyLabelMatches | google-docs-to-mailchimp/src/app/utils/converter.ts:536-540 | An empty label fits every key. |
| CtaText.LastMatching | google-docs-to-mailchimp/src/app/utils/converter.ts:532-544 | The fallback's result is the URL of the last fitting key in key order, or the initial value when no key fits. |
| CtaText.LastFitStep | google-docs-to-mailchimp/src/app/utils/converter.ts:534-543 | Visiting one key before the rest: a fit among the rest still wins, otherwise the first key decides. |
| CtaText.EmptyLabelTakesLast | google-docs-to-mailchimp/src/app/utils/converter.ts:532-544 | With an empty label, the last key's URL wins. |
| CtaConversion.PatternsNeedCta | google-docs-to-mailchimp/src/app/utils/converter.ts:502-559 | None of the five directive patterns matches anywhere in a text that holds no `cta` in any letter case. |
| CtaConversion.PassWithoutCta | google-docs-to-mailchimp/src/app/utils/converter.ts:501-603 | A pass whose pattern matches nowhere leaves the HTML unchanged. |
| CtaConversion.NoDirectiveUnchanged | google-docs-to-mailchimp/src/app/utils/converter.ts:494-606 | HTML that holds no `cta` in any letter case comes through the conversion unchanged. |
| CtaConversion.DirectiveAtClosed | google-docs-to-mailchimp/src/app/api/convert/route.ts:455 | A `[cta]`, a run of `n` text characters, then `[/cta]` is one match of the whole, with the run as the group. |
| CtaConversion.ClosedDirectiveMatch | google-docs-to-mailchimp/src/app/utils/converter.ts:502 | `[cta]` + trimmed text + `[/cta]` is one match: the optional closing tag is swallowed with it. |
| CtaConversion.ClosedDirectiveBecomesButton | google-docs-to-mailchimp/src/app/utils/converter.ts:501-548 | A closed directive alone becomes exactly one button built from its text. |
| CtaConversion.TextUrlBeatsTable | google-docs-to-mailchimp/src/app/utils/converter.ts:522-544 | A URL found in the text decides the button alone: the comment table is not consulted. |
| CtaConversion.NoUrlUsesTable | google-docs-to-mailchimp/src/app/utils/converter.ts:518-544 | A text with no URL scheme keeps its whole text as the label and takes its URL from the comment fallback. |
| SpaceDirective.TagNameAt | google-docs-to-mailchimp/src/app/utils/converter.ts:619 | A tag name read by the alternation `(p\|div\|span\|h[1-6])` is non-empty and occurs at that index, ignoring case. |
| SpaceDirective.LastOccurrenceCI | google-docs-to-mailchimp/src/app/utils/converter.ts:619 | The `[space]` chosen when the greedy `([^<]*)` gives characters back is a case-insensitive occurrence inside the allowed range. |
| SpaceDirective.SplitRepeatsBefore | google-docs-to-mailchimp/src/app/utils/converter.ts:620-629 | For a match `pre + "[space]" + post` with non-blank text before the directive, the callback keeps everything in front of `[space]`. It then adds the trimmed text, the closing tag, the spacer and the element for the text after it. |
| SpaceDirective.TailReplaced | google-docs-to-mailchimp/src/app/utils/converter.ts:628 | The inner `replace(/\[space\].*$/, …)` swaps the `[space]` tail of a one-line match for the template and keeps what comes before it. |
| SpaceDirective.ConstOutStep | google-docs-to-mailchimp/src/app/utils/converter.ts:612-615 | One step of a global replace by a fixed text: a match becomes the text, any other character is copied. |
| SpaceDirective.OccurrenceOutside | google-docs-to-mailchimp/src/app/utils/converter.ts:612-615 | An occurrence in the output of the first pass that does not start in the fixed replacement lies entirely after it. |
| SpaceDirective.SpaceDivFacts | google-docs-to-mailchimp/src/app/utils/converter.ts:614 | The spacer opens with `<` and holds no `[`. |
| SpaceDirective.NoSpaceLeft | google-docs-to-mailchimp/src/app/utils/converter.ts:611-615 | After the first pass no `[space]` in any letter case is left. |
| SpaceDirective.SplitNeedsSpace | google-docs-to-mailchimp/src/app/utils/converter.ts:619 | Every match of the element-splitting pattern holds a `[space]`. |
| SpaceDirective.SecondPassInert | google-docs-to-mailchimp/src/app/utils/converter.ts:608-645 | The element-splitting pass never fires, so the whole conversion is the first pass alone. |
| SpaceDirective.NoDirectiveUnchanged | google-docs-to-mailchimp/src/app/utils/converter.ts:608-645 | HTML with no `[space]` in any letter case comes through unchanged. |
| ImageLinks.ImageAfter | google-docs-to-mailchimp/src/app/utils/converter.ts:661 | The `\s*(<img[^>]*>)` found after a marker lies inside the text. |
| ImageLinks.BracketPatternsNeedBracket | google-docs-to-mailchimp/src/app/utils/converter.ts:652-689 | The `[img-link:`, `[img-link]` and `[link:` patterns match only where a `[` stands. |
| ImageLinks.MarkerPatternsNeedBang | google-docs-to-mailchimp/src/app/utils/converter.ts:661-692 | Both marker patterns, as written and repaired, match only where `!` is the second character. |
| ImageLinks.SchemeInside | google-docs-to-mailchimp/src/app/utils/converter.ts:652 | A URL with an `http://` or `https://` scheme is read the same inside any text and starts with `h` or `H`. |
| ImageLinks.TemplatesLack | google-docs-to-mailchimp/src/app/utils/converter.ts:655-687 | The templates the passes write hold no `[`, and no `!` except the marker's own. |
| ImageLinks.LinkedImageLacks | google-docs-to-mailchimp/src/app/utils/converter.ts:663 | The link around an image holds `[` or `!` only where the URL or the image does. |
| ImageLinks.ImgTagLacks | google-docs-to-mailchimp/src/app/utils/converter.ts:661 | An image tag whose attributes hold no `[` or `!` holds none. |
| ImageLinks.LaterPassesInert | google-docs-to-mailchimp/src/app/utils/converter.ts:667-692 | On text with no `[` and no `!`, the `[img-link]`, marker, `[link:` and leftover-marker passes change nothing. |
| ImageLinks.ColonHit | google-docs-to-mailchimp/src/app/utils/converter.ts:652 | `[img-link:URL]` is one match that includes its closing `]`, with the URL as the group. |
| ImageLinks.ArrowCI | google-docs-to-mailchimp/src/app/utils/converter.ts:661 | A case-insensitive `-->` is a plain one. |
| ImageLinks.NoArrowInUrl | google-docs-to-mailchimp/src/app/utils/converter.ts:655-661 | No `-->` starts inside a marker's URL when the URL holds none. |
| ImageLinks.MarkerHeadRead | google-docs-to-mailchimp/src/app/utils/converter.ts:655-661 | The marker the first pass writes opens with the marker head the later patterns look for, ignoring case. |
| ImageLinks.ArrowAfterUrl | google-docs-to-mailchimp/src/app/utils/converter.ts:655-661 | The first `-->` from inside a marker's URL is the marker's own end. |
| ImageLinks.ImageAtFront | google-docs-to-mailchimp/src/app/utils/converter.ts:661 | An image tag right after any prefix is read whole. |
| ImageLinks.MarkerImageParts | google-docs-to-mailchimp/src/app/utils/converter.ts:661 | The repaired marker pattern reads the URL up to the first `-->` and then the image tag. |
| ImageLinks.MarkerMissedAsWritten | google-docs-to-mailchimp/src/app/utils/converter.ts:661-692 | As written, neither marker pattern matches the marker of a URL holding a character between `-` and `>` after its scheme, such as a dot. |
| ImageLinks.ColonPass | google-docs-to-mailchimp/src/app/utils/converter.ts:651-657 | The first pass turns `[img-link:URL]` into the marker and leaves the image alone. |
| ImageLinks.ColonDirectiveLinksImage | google-docs-to-mailchimp/src/app/utils/converter.ts:647-695 | With the URL read up to `-->`, `[img-link:URL]`, a whitespace run and an image, standing anywhere in HTML with no other `[` or `!`, become exactly that image wrapped in a link to URL, and the text on both sides stays. |
| ImageLinks.ColonDirectiveAsWritten | google-docs-to-mailchimp/src/app/utils/converter.ts:647-695 | As written, the same document ends with the marker, the whitespace and the unlinked image where the directive stood: the image is not linked and the marker stays. |
| ImageLinks.MarkerLacks | google-docs-to-mailchimp/src/app/utils/converter.ts:655 | The marker followed by an image holds no `[`, and no `!` past its own. |
| ImageLinks.NoDirectiveUnchanged | google-docs-to-mailchimp/src/app/utils/converter.ts:647-695 | HTML with no `[` and no marker comes through both versions of the conversion unchanged. |
| ImageLinks.MarkerShape | google-docs-to-mailchimp/src/app/utils/converter.ts:655-661 | The marker the first pass writes, followed by whitespace and an image tag, has the shape the repaired marker pattern reads: head, URL without `-->`, `-->`, whitespace, one tag. |
| ImageLinks.MarkerWindowHit | google-docs-to-mailchimp/src/app/utils/converter.ts:661 | Such a stretch, wherever it stands in a document, is one match of the repaired marker pattern ending at the stretch's end, with the URL and the tag as groups. |
| ImageLinks.MarkerOutsideNone | google-docs-to-mailchimp/src/app/utils/converter.ts:661 | With no `!` on either side of a stretch that opens with `<`, the marker pattern matches nowhere outside the stretch. |
| ImageLinks.MarkerPassShaped | google-docs-to-mailchimp/src/app/utils/converter.ts:660-665 | The marker pass on such a stretch in a document with no other `!` replaces the stretch by the linked image and keeps the text on both sides. |
| ImageLinks.FirstPass | google-docs-to-mailchimp/src/app/utils/converter.ts:651-657 | The first pass on the whole document turns the directive into the marker and keeps the whitespace, the image and the text on both sides. |
| ImageLinks.MarkerPass | google-docs-to-mailchimp/src/app/utils/converter.ts:660-665 | The second pass on that document links the image after the marker, drops the whitespace between them and keeps the text on both sides. |
| ImageLinks.MissedAt | google-docs-to-mailchimp/src/app/utils/converter.ts:661-692 | As written, neither marker pattern matches at a marker head when a character between `-` and `>` follows the scheme before any `-->`. |
| ImageLinks.LaterPassesKeepAsWritten | google-docs-to-mailchimp/src/app/utils/converter.ts:667-692 | Text with no `[`, whose only `!` is a marker's, where neither marker pattern as written matches, comes through the four later passes unchanged. |
| ImageLinks.MarkerStaysAsWritten | google-docs-to-mailchimp/src/app/utils/converter.ts:660-692 | As written, the passes after the first leave a document holding the marker, whitespace and image of such a URL unchanged. |
| ImageTags.SrcAt | google-docs-to-mailchimp/src/app/utils/converter.ts:127 | A `src=` attribute match ends inside the text and has one group. |
| ImageTags.SrcTagFrom | google-docs-to-mailchimp/src/app/utils/converter.ts:127 | The rest of the image pattern, tried from the rightmost `src=` down, ends inside the text with one group. |
| ImageTags.ImageTagAt | google-docs-to-mailchimp/src/app/utils/converter.ts:127 | An image-tag match ends inside the text and has the URL as its only group. |
| ImageTags.FixUrl | google-docs-to-mailchimp/src/app/utils/converter.ts:133-144 | A URL starting with `//` gets `https:` in front, and the result never starts with `//`. After that fix, a URL that is not on `googleusercontent.com` or already holds `=w` is kept. Any other URL gets one separator and `w=600`; the separator is `&` exactly when the URL already holds `?`. |
| ImageTags.WidthAddedTwice | google-docs-to-mailchimp/src/app/utils/converter.ts:139-144 | A second fix-up of a Google-hosted URL without `?` appends the width again, because `?w=600` holds no `=w`. |
| ImageTags.NoEqWAfter | google-docs-to-mailchimp/src/app/utils/converter.ts:143 | Appending `?w=600` creates no `=w`. |
| ImageTags.StyleAt | google-docs-to-mailchimp/src/app/utils/converter.ts:150 | A `style=` attribute match ends inside the text and has one group. |
| ImageTags.CompleteStyle | google-docs-to-mailchimp/src/app/utils/converter.ts:153-173 | The completed style carries `max-width`, `height` and `auto`, `border` and `0`, and `display`, each looked for as the converter looks for it. |
| ImageTags.KeepsWords | google-docs-to-mailchimp/src/app/utils/converter.ts:156-170 | Appending keeps every word the tests look for. |
| ImageTags.MaxWidthDecl | google-docs-to-mailchimp/src/app/utils/converter.ts:157 | The `max-width` declaration satisfies its test. |
| ImageTags.HeightDecl | google-docs-to-mailchimp/src/app/utils/converter.ts:160 | The `height: auto` declaration satisfies both its tests. |
| ImageTags.BorderDecl | google-docs-to-mailchimp/src/app/utils/converter.ts:163 | The `border: 0` declaration satisfies both its tests. |
| ImageTags.DisplayDecl | google-docs-to-mailchimp/src/app/utils/converter.ts:169 | The `display` declaration satisfies its test. |
| ImageTags.AddMissingSafe | google-docs-to-mailchimp/src/app/utils/converter.ts:155-170 | After the appends the style passes all four tests. |
| ImageTags.ContainsKeptByCut | google-docs-to-mailchimp/src/app/utils/converter.ts:173 | Cutting semicolons and whitespace off both ends keeps a word that has neither at its ends. |
| ImageTags.DropsAreCut | google-docs-to-mailchimp/src/app/utils/converter.ts:173 | The two end trims cut only semicolons and whitespace. |
| ImageTags.CutKeepsSafe | google-docs-to-mailchimp/src/app/utils/converter.ts:173 | Such a cut keeps the four tests passing. |
| ImageTags.DropsKeepSafe | google-docs-to-mailchimp/src/app/utils/converter.ts:173 | The end trims keep a safe style safe. |
| ImageTags.ExtendsStep | google-docs-to-mailchimp/src/app/utils/converter.ts:155-170 | Appending one more declaration keeps the style an extension of the original. |
| ImageTags.DeclarationsAreTails | google-docs-to-mailchimp/src/app/utils/converter.ts:157-169 | Each of the four appended declarations is `; ` followed by a visible declaration. |
| ImageTags.AddMissingAppends | google-docs-to-mailchimp/src/app/utils/converter.ts:155-170 | The appends only add declarations after the original style. |
| ImageTags.TrimEndVisible | google-docs-to-mailchimp/src/app/utils/converter.ts:173 | A style ending in a visible character is kept by the end trim. |
| ImageTags.DropsKeepClean | google-docs-to-mailchimp/src/app/utils/converter.ts:173 | The end trims leave a style with no stray semicolon at either end alone. |
| ImageTags.LeadingDropOfTail | google-docs-to-mailchimp/src/app/utils/converter.ts:173 | The leading trim of an appended tail stops at its first declaration. |
| ImageTags.VisibleEndsClean | google-docs-to-mailchimp/src/app/utils/converter.ts:173 | A style whose ends are visible characters other than `;` is clean and survives the trailing trim. |
| ImageTags.DropsOnExtension | google-docs-to-mailchimp/src/app/utils/converter.ts:153-173 | Trimming the ends of a clean style with declarations appended leaves a clean style. |
| ImageTags.CompleteStyleClean | google-docs-to-mailchimp/src/app/utils/converter.ts:153-173 | Completing a clean style leaves a clean style. |
| ImageTags.CompleteStyleFixedPoint | google-docs-to-mailchimp/src/app/utils/converter.ts:153-173 | A clean style that already passes all four tests is kept as it is. |
| ImageTags.CompleteStyleIdempotent | google-docs-to-mailchimp/src/app/utils/converter.ts:153-173 | Completing a clean style twice is completing it once. |
| ImageTags.StyleAttrFor | google-docs-to-mailchimp/src/app/utils/converter.ts:176 | The written attribute is `style="`, the style verbatim, and a closing quote. |
| ImageTags.StyleAttr | google-docs-to-mailchimp/src/app/utils/converter.ts:150-179 | The attribute the style step writes holds a style that passes all four tests. |
| ImageTags.LowerOpening | google-docs-to-mailchimp/src/app/utils/converter.ts:178 | A lower-case `<img` is also an opening ignoring case. |
| ImageTags.OpensImageCI | google-docs-to-mailchimp/src/app/utils/converter.ts:127 | The opening either version recognises is `<img` up to case. |
| ImageTags.OpensImageKept | google-docs-to-mailchimp/src/app/utils/converter.ts:147-183 | Keeping the first four characters keeps the opening. |
| ImageTags.NoAttributeInOpening | google-docs-to-mailchimp/src/app/utils/converter.ts:147-176 | No `src=` or `style=` attribute starts inside the tag's first four characters. |
| ImageTags.FixUrlLacks | google-docs-to-mailchimp/src/app/utils/converter.ts:133-144 | The fix-up adds no `$`. |
| ImageTags.AddMissingLacks | google-docs-to-mailchimp/src/app/utils/converter.ts:155-170 | The appended declarations add no `$`. |
| ImageTags.DropsLack | google-docs-to-mailchimp/src/app/utils/converter.ts:173 | The end trims add no `$`. |
| ImageTags.CompleteStyleLacks | google-docs-to-mailchimp/src/app/utils/converter.ts:153-173 | Completion adds no `$`. |
| ImageTags.SrcStepLacks | google-docs-to-mailchimp/src/app/utils/converter.ts:147 | The `src` step with a `$`-free URL and tag writes no `$`. |
| ImageTags.CurrentStyleLacks | google-docs-to-mailchimp/src/app/utils/converter.ts:150-151 | The style read from a `$`-free tag holds no `$`. |
| ImageTags.StyleAttrForLacks | google-docs-to-mailchimp/src/app/utils/converter.ts:176 | The attribute written for a `$`-free style holds no `$`. |
| ImageTags.StyleAttrLacks | google-docs-to-mailchimp/src/app/utils/converter.ts:150-179 | The style attribute written for a `$`-free tag holds no `$`. |
| ImageTags.SrcStepOpening | google-docs-to-mailchimp/src/app/utils/converter.ts:147 | The `src` step leaves the opening where it is. |
| ImageTags.ReplaceImgOpenAtFront | google-docs-to-mailchimp/src/app/utils/converter.ts:178 | At an opening it recognises, the string `replace("<img", …)` swaps the first four characters for the template. |
| ImageTags.StyleReplacedInPlace | google-docs-to-mailchimp/src/app/utils/converter.ts:175-176 | An existing `style` attribute is replaced where it stands, behind the opening. |
| ImageTags.StyleInsertedAfterOpening | google-docs-to-mailchimp/src/app/utils/converter.ts:177-178 | Without a `style` attribute the new one goes right after the opening. |
| ImageTags.StyleStepPlaces | google-docs-to-mailchimp/src/app/utils/converter.ts:150-179 | The style step puts the completed style attribute after the opening, which it keeps. |
| ImageTags.AltOpenFacts | google-docs-to-mailchimp/src/app/utils/converter.ts:183 | The `alt` template opens with `<img`, holds `alt=` and no `$`. |
| ImageTags.FrontSwap | google-docs-to-mailchimp/src/app/utils/converter.ts:178-183 | Swapping the first four characters shifts a later occurrence by the length difference. |
| ImageTags.FrontKept | google-docs-to-mailchimp/src/app/utils/converter.ts:178-183 | Appending keeps an occurrence. |
| ImageTags.AltInserted | google-docs-to-mailchimp/src/app/utils/converter.ts:183 | Inserting the `alt` attribute shifts what follows the opening by ten characters. |
| ImageTags.AltStepFacts | google-docs-to-mailchimp/src/app/utils/converter.ts:182-184 | The `alt` step keeps the opening and what follows it, and leaves an `alt=` behind. |
| ImageTags.RewriteImageSafe | google-docs-to-mailchimp/src/app/utils/converter.ts:130-187 | Every `$`-free tag with a recognised opening comes out still opened, with an `alt` and with a `style` attribute holding the completed, e-mail-safe style. |
| ImageTags.ConvertSingleImage | google-docs-to-mailchimp/src/app/utils/converter.ts:127-130 | A document that is exactly one image tag becomes that tag rewritten. |
| ImageTags.NoImageUnchanged | google-docs-to-mailchimp/src/app/utils/converter.ts:123-190 | Without `<img` in any letter case nothing changes. |
| ImageTags.UpperTagMatched | google-docs-to-mailchimp/src/app/utils/converter.ts:127 | `<IMG SRC="a">` is matched whole by the case-insensitive image pattern, with URL `a`. |
| ImageTags.UnopenedTagUntouched | google-docs-to-mailchimp/src/app/utils/converter.ts:175-184 | A tag holding none of `i`, `t`, `T` and `l` gets neither a style nor an `alt` from the case-sensitive searches. |
| ImageTags.UpperTagOffSearch | google-docs-to-mailchimp/src/app/utils/converter.ts:127 | `<IMG SRC="a">` is such a tag and still opens an image ignoring case. |
| ImageTags.AllOffSearchJoin | google-docs-to-mailchimp/src/app/utils/converter.ts:147 | Joining such texts gives such a text. |
| ImageTags.AllOffSearchSlice | google-docs-to-mailchimp/src/app/utils/converter.ts:147 | A slice of such a text is one too. |
| ImageTags.FixUrlKeeps | google-docs-to-mailchimp/src/app/utils/converter.ts:133-144 | A URL holding none of `i`, `t`, `T` and `l` is not Google-hosted, so without a leading `//` it is kept. |
| ImageTags.SrcStepOffSearch | google-docs-to-mailchimp/src/app/utils/converter.ts:147 | The `src` step on such a tag and URL gives such a tag. |
| ImageTags.NoStyleOffSearch | google-docs-to-mailchimp/src/app/utils/converter.ts:150 | Such a tag holds no `style=` in any letter case. |
| ImageTags.UnopenedRewrite | google-docs-to-mailchimp/src/app/utils/converter.ts:130-187 | On such a tag the callback does only the `src` step. |
| ImageTags.UnopenedTagAsWritten | google-docs-to-mailchimp/src/app/utils/converter.ts:123-190 | As written, a matched tag without a lower-case `<img` comes out with only its `src` rewritten: no `alt=` and no `style=` in any case. |
| ImageTags.MatchedTagCorrected | google-docs-to-mailchimp/src/app/utils/converter.ts:123-190 | With the opening found ignoring case, every `$`-free matched tag comes out opened, with an `alt` and the completed style attribute. |
| ImageTags.TagParts | google-docs-to-mailchimp/src/app/utils/converter.ts:127 | A whole-tag match of the image pattern has its opening, the first `>` after it, one `src=` before that `>`, a quoted URL and the tag's closing `>` as its last character. |
| ImageTags.SrcTagFromFound | google-docs-to-mailchimp/src/app/utils/converter.ts:127 | When the pattern's tail succeeds, it does so at some `src=` whose quoted value and next `>` lie in the text. |
| ImageTags.SrcTagFromOnly | google-docs-to-mailchimp/src/app/utils/converter.ts:127 | With only one `src=` in the searched range, the pattern's tail is read at that one. |
| ImageTags.TagInWindow | google-docs-to-mailchimp/src/app/utils/converter.ts:127 | The pieces of a single-`src` tag's match are found at the same places when the tag stands inside a document. |
| ImageTags.ImageTagWindow | google-docs-to-mailchimp/src/app/utils/converter.ts:127 | A single-`src` tag the pattern matches whole is matched whole, with the same URL, wherever it stands in a document. |
| ImageTags.ConvertImageIn | google-docs-to-mailchimp/src/app/utils/converter.ts:127-130 | A single-`src` image tag in a document with no other `<img` in any case: only the tag is rewritten and the text on both sides stays. |
| ImageTags.UnopenedTagAsWrittenIn | google-docs-to-mailchimp/src/app/utils/converter.ts:123-190 | As written, such a tag without a lower-case `<img`, inside a document, comes out with only its `src` rewritten: no `alt=` and no `style=` in any case. |
| ImageTags.MatchedTagCorrectedIn | google-docs-to-mailchimp/src/app/utils/converter.ts:123-190 | With the opening found ignoring case, such a `$`-free tag inside a document comes out opened, with an `alt` and the completed style attribute, and the text around it stays. |
| MailImageUrl.SizeParamAt | google-docs-to-mailchimp/src/app/utils/htmlGenerator.ts:159-160 | `[&?]L=\d+` matches exactly where a separator, the letter, `=` and a digit start, and the greedy run stops at a non-digit or the end. |
| MailImageUrl.SizeForMail | google-docs-to-mailchimp/src/app/utils/htmlGenerator.ts:157-162 | The result is the stripped URL, one separator and `w=800&h=600`. The separator is `&` exactly when the stripped URL holds `?`, so the result always has a query string. |
| MailImageUrl.QueryKept | google-docs-to-mailchimp/src/app/utils/htmlGenerator.ts:161-162 | The appended size always leaves a `?` in the URL. |
| MailImageUrl.OptimizeForMail | google-docs-to-mailchimp/src/app/utils/htmlGenerator.ts:156-163 | A URL that does not mention `googleusercontent.com` is kept. One that does gets the size rewrite. |
| MailImageUrl.StripUnsized | google-docs-to-mailchimp/src/app/utils/htmlGenerator.ts:159-160 | Stripping a URL without size parameters keeps it. |
| MailImageUrl.SizeForMailUnsized | google-docs-to-mailchimp/src/app/utils/htmlGenerator.ts:157-162 | A URL without size parameters just gets the mail size appended after the right separator. |
| MailImageUrl.StartInTail | google-docs-to-mailchimp/src/app/utils/htmlGenerator.ts:159-160 | A parameter start in the tail of a concatenation is one of the tail. |
| MailImageUrl.NoStartBeforeSeparator | google-docs-to-mailchimp/src/app/utils/htmlGenerator.ts:159-160 | In an unsized URL followed by a separator, no size parameter starts inside the URL. |
| MailImageUrl.DigitsRunToEnd | google-docs-to-mailchimp/src/app/utils/htmlGenerator.ts:159-160 | A digit run to the end is taken whole. |
| MailImageUrl.StripHeightTail | google-docs-to-mailchimp/src/app/utils/htmlGenerator.ts:160 | Stripping heights from `a + "&h=600"`, for an unsized `a`, removes exactly the height. |
| MailImageUrl.StripWidthTail | google-docs-to-mailchimp/src/app/utils/htmlGenerator.ts:159 | Stripping widths from `a + sep + "w=800&h=600"` removes exactly the width and its separator. |
| MailImageUrl.SizeForMailIdempotent | google-docs-to-mailchimp/src/app/utils/htmlGenerator.ts:156-163 | Rewriting a rewritten URL changes nothing when the original carried no size parameter. |
| MailImageUrl.MiddleWidthHit | google-docs-to-mailchimp/src/app/utils/htmlGenerator.ts:159 | A width parameter in the middle of a URL is matched whole. |
| MailImageUrl.StripOneWidth | google-docs-to-mailchimp/src/app/utils/htmlGenerator.ts:159 | Stripping widths from a URL with one width parameter joins the two sides. |
| ElementRules.WeightedBold | google-docs-to-mailchimp/src/app/api/convert/route.ts:105-110 | A `b`/`strong` style always ends with the bold declaration, separated from the kept declarations by `; ` unless nothing was kept. |
| ElementRules.BoldRule | google-docs-to-mailchimp/src/app/api/convert/route.ts:100-117 | A `b`/`strong` element becomes a `span` whose style ends with the bold declaration. |
| ElementRules.SpanRule | google-docs-to-mailchimp/src/app/api/convert/route.ts:120-142 | A span whose weight is bold, bolder or 500-999 ends with the bold declaration; any other span keeps its style. |
| ElementRules.BoldDeclMatched | google-docs-to-mailchimp/src/app/api/convert/route.ts:133 | The weight pattern matches the whole bold declaration wherever it occurs. |
| ElementRules.NoWeightKept | google-docs-to-mailchimp/src/app/api/convert/route.ts:105 | A style with no `font-weight` in any case passes the strip unchanged. |
| ElementRules.WeightedBoldStable | google-docs-to-mailchimp/src/app/api/convert/route.ts:105-110 | Bolding an already bolded style changes nothing once the strip leaves no other weight. |
| ElementRules.BoldAloneStripped | google-docs-to-mailchimp/src/app/api/convert/route.ts:105 | The strip removes a lone bold declaration entirely. |
| ElementRules.BoldAfterKeptStripped | google-docs-to-mailchimp/src/app/api/convert/route.ts:105 | The strip removes a trailing bold declaration and leaves the kept declarations with their separator. |
| ElementRules.SoleWeightBecomesBold | google-docs-to-mailchimp/src/app/api/convert/route.ts:105-110 | A style holding only one weight declaration becomes exactly the bold declaration. |
| ElementRules.BoldDeclIsHeavy | google-docs-to-mailchimp/src/app/api/convert/route.ts:128-130 | A style containing the bold declaration passes the heavy-weight test. |
| ElementRules.SpanRuleStable | google-docs-to-mailchimp/src/app/api/convert/route.ts:120-142 | For a style whose weight strip (with its trailing `;` dropped) leaves no `font-weight` in any case, applying the span rule twice equals applying it once. |
| ElementRules.AppendDecl | google-docs-to-mailchimp/src/app/api/convert/route.ts:232 | Appending a declaration keeps it in the result; an empty style yields the declaration alone and a style that starts visibly gets `; ` and the declaration after it. |
| ElementRules.AppendDeclNotIdempotent | google-docs-to-mailchimp/src/app/api/convert/route.ts:232 | For a style that is empty or does not start with `;`, appending the same declaration twice grows the style by the separator and the declaration again. |
| ElementRules.AddIfAbsent | google-docs-to-mailchimp/src/app/api/convert/route.ts:183-191 | A conditional addition only extends the style. |
| ElementRules.AddIfAbsentHas | google-docs-to-mailchimp/src/app/api/convert/route.ts:183-191 | After a conditional addition the style contains the word the condition looks for. |
| ElementRules.AddIfAbsentKeeps | google-docs-to-mailchimp/src/app/api/convert/route.ts:183-191 | A conditional addition keeps every fragment the style already contained. |
| ElementRules.ImageLinkStyle | google-docs-to-mailchimp/src/app/api/convert/route.ts:180-193 | An image link's style contains `text-decoration`, `display` and `border`. |
| ElementRules.ImageLinkStyleKeeps | google-docs-to-mailchimp/src/app/api/convert/route.ts:180-193 | An image-link style that is empty or does not start with `;` and already names all three properties is left as it is. |
| ElementRules.ImageLinkStyleIdempotent | google-docs-to-mailchimp/src/app/api/convert/route.ts:180-193 | For a style that is empty or does not start with `;`, restyling an image link twice equals restyling it once. |
| ElementRules.ImgCursorStyle | google-docs-to-mailchimp/src/app/api/convert/route.ts:197-205 | An image inside a link gets a `cursor` declaration, and one that has a cursor already keeps its style. |
| ElementRules.ColouredLink | google-docs-to-mailchimp/src/app/api/convert/route.ts:209-215 | A text link's style mentions `color:`; one that did already is unchanged. |
| ElementRules.TextLinkStyle | google-docs-to-mailchimp/src/app/api/convert/route.ts:207-222 | A text link's style contains `color:` and `text-decoration:`. |
| ElementRules.BlueHasColor | google-docs-to-mailchimp/src/app/api/convert/route.ts:214 | The blue link colour satisfies the colour test. |
| ElementRules.TextLinkStyleKeeps | google-docs-to-mailchimp/src/app/api/convert/route.ts:207-222 | A text-link style that is empty or does not start with `;` and already has both declarations is left as it is. |
| ElementRules.TextLinkStyleIdempotent | google-docs-to-mailchimp/src/app/api/convert/route.ts:207-222 | For a style that is empty or does not start with `;`, restyling a text link twice equals restyling it once. |
| ElementRules.BackgroundColorKeepsLinkUncoloured | google-docs-to-mailchimp/src/app/api/convert/route.ts:209 | A link whose only colour is `background-color:` is not given the blue text colour, because the substring test matches it. |
| ElementRules.LinkRule | google-docs-to-mailchimp/src/app/api/convert/route.ts:159-225 | Every link opens in a new tab; the href is present exactly when the source had one; a non-redirect href is kept; image links and text links get their respective declarations. |
| ElementRules.ItalicRule | google-docs-to-mailchimp/src/app/api/convert/route.ts:227-238 | An `i`/`em` element becomes a span whose style contains the italic declaration, appended after a visible existing style. |
| ElementRules.UnderlineRule | google-docs-to-mailchimp/src/app/api/convert/route.ts:241-265 | A `u` element stays `u` when a link is around or inside it and otherwise becomes a span; either way its style gains the underline declaration. |
| ElementRules.BlockBody | google-docs-to-mailchimp/src/app/api/convert/route.ts:280 | Each block tag's fixed declarations form a non-empty body that starts with neither `;` nor white space. |
| ElementRules.BlockStyle | google-docs-to-mailchimp/src/app/api/convert/route.ts:268-377 | A block style contains its tag's declarations; paragraphs and headings always show a font size, the default one when the source had none; lists and items only append. |
| ElementRules.KeptSizeShown | google-docs-to-mailchimp/src/app/api/convert/route.ts:273-275 | An existing font size survives the block rule. |
| ElementRules.DefaultSizeShown | google-docs-to-mailchimp/src/app/api/convert/route.ts:276 | A defaulted font size appears verbatim in the block style. |
| ElementRules.BlockKeepsFontSize | google-docs-to-mailchimp/src/app/api/convert/route.ts:273-284 | A visible style that names a font size becomes that style, `; `, and the tag's declarations. |
| ElementRules.BlockStyleNotIdempotent | google-docs-to-mailchimp/src/app/api/convert/route.ts:268-377 | For a style that is empty or does not start with `;`, styling a block twice makes its style longer again. |
| ElementRules.RouteImageSrc | google-docs-to-mailchimp/src/app/api/convert/route.ts:385-387 | The source is present exactly when it was; the result ends with the original source and no longer starts with `//` unless it is the original unchanged. |
| ElementRules.RouteImageSrcIdempotent | google-docs-to-mailchimp/src/app/api/convert/route.ts:385-387 | Fixing an image source twice equals fixing it once. |
| ElementRules.AddHeight | google-docs-to-mailchimp/src/app/api/convert/route.ts:397-399 | The height step only extends the style, leaves it with `height` and `auto`, and leaves alone a style that has both. |
| ElementRules.RouteImageStyle | google-docs-to-mailchimp/src/app/api/convert/route.ts:390-407 | An image's style names `max-width`, `height`, `auto`, `display` and `border`. |
| ElementRules.RouteImageStyleKeeps | google-docs-to-mailchimp/src/app/api/convert/route.ts:390-407 | An image style that is empty or does not start with `;` and already names all of them is left as it is. |
| ElementRules.RouteImageStyleIdempotent | google-docs-to-mailchimp/src/app/api/convert/route.ts:390-407 | For a style that is empty or does not start with `;`, restyling an image twice equals restyling it once. |
| ElementRules.UpgradeBold | google-docs-to-mailchimp/src/app/api/convert/route.ts:420-430 | A style that already says `!important` is not upgraded. |
| ElementRules.FinalStyle | google-docs-to-mailchimp/src/app/api/convert/route.ts:411-439 | An empty style stays empty; any other gains `line-height`; one with `!important` only gains the line height; one with a line height and nothing to upgrade is unchanged. |
| ElementRules.UpgradeShowsImportant | google-docs-to-mailchimp/src/app/api/convert/route.ts:424-428 | Upgrading a bold weight makes the style say `!important`. |
| ElementRules.FinalLeavesNothingToUpgrade | google-docs-to-mailchimp/src/app/api/convert/route.ts:411-439 | After the final pass a style either no longer calls for an upgrade (it says `!important` or lacks `font-weight`/`bold`) or holds no `font-weight: bold` declaration the upgrade would rewrite. |
| ElementRules.FinalStyleIdempotent | google-docs-to-mailchimp/src/app/api/convert/route.ts:411-439 | Running the final pass twice equals running it once. |
| RouteCta.ConvertElement | google-docs-to-mailchimp/src/app/api/convert/route.ts:442-523 | An element becomes a button exactly when its text triggers and a directive is found; with an anchor in its HTML the button uses the anchor's trimmed text and cleaned trimmed href, otherwise the text patterns and then the comment table decide. |
| RouteCta.ChosenButton | google-docs-to-mailchimp/src/app/api/convert/route.ts:462-519 | The button built from the chosen link carries the anchor's text and cleaned href when the HTML has an anchor, and the text-derived label and URL otherwise. |
| RouteCta.NoAnchorResolvesAsConverter | google-docs-to-mailchimp/src/app/api/convert/route.ts:486-516 | Without an anchor the route resolves a caption the same way as the converter's fallback. |
| RouteCta.RouteFallbackAgrees | google-docs-to-mailchimp/src/app/api/convert/route.ts:507-516 | The route's comment-table fallback picks the URL of the last fitting key, the same as the converter's. |
| RouteCta.AnchorWins | google-docs-to-mailchimp/src/app/api/convert/route.ts:469-483 | When the HTML holds an anchor, neither the caption nor the comment table affects the chosen link. |
| RouteCta.NoCtaNoButton | google-docs-to-mailchimp/src/app/api/convert/route.ts:448-452 | Text that does not contain `cta` in any case never becomes a button. |
| RouteCta.LowerCaseCtaIgnored | google-docs-to-mailchimp/src/app/api/convert/route.ts:448-452 | `cta: Shop now` is not converted: only `[cta]` is matched without regard to case, and the `CTA` prefix test is case-sensitive. |
| RouteCta.LowerCaseCtaNoTrigger | google-docs-to-mailchimp/src/app/api/convert/route.ts:449-451 | `cta: Shop now` fails all three trigger tests. |
| RouteCta.PlainAnchorGroups | google-docs-to-mailchimp/src/app/api/convert/route.ts:462-464 | In a simple anchor `<a href="u">t</a>` the anchor pattern captures exactly the URL and the text. |
| RouteCta.HrefAtFirst | google-docs-to-mailchimp/src/app/api/convert/route.ts:463 | In an anchor of that layout the href pattern matches from the attribute to the end of `</a>`. |
| RouteCta.HrefAtFrom | google-docs-to-mailchimp/src/app/api/convert/route.ts:463 | The href pattern matches whenever the quote, closing bracket, text and `</a>` follow in order. |
| RouteCta.PlainAnchorLink | google-docs-to-mailchimp/src/app/api/convert/route.ts:469-483 | For a simple anchor the chosen link is its trimmed text with its trimmed and cleaned URL. |
| SectionSpacing.DivWithAt | google-docs-to-mailchimp/src/app/api/convert/route.ts:531-533 | A `<div` tag matches a keyword pattern exactly when the keyword occurs, in any case, before the tag's first `>`; the match ends there. |
| SectionSpacing.DivWithMisses | google-docs-to-mailchimp/src/app/api/convert/route.ts:531-533 | When the keyword does not occur before the first `>`, no tag end makes the pattern match. |
| SectionSpacing.BrRounds | google-docs-to-mailchimp/src/app/api/convert/route.ts:537 | The run of `<br>` tags is counted as far as it reaches; it is empty exactly when no `<br` tag starts at the position. |
| SectionSpacing.BrRunAt | google-docs-to-mailchimp/src/app/api/convert/route.ts:537 | A match of the line-break pattern holds at least three `<br>` tags. |
| SectionSpacing.MarkBreak | google-docs-to-mailchimp/src/app/api/convert/route.ts:544-548 | Marking a page-break pattern lengthens the HTML by exactly one divider per match; an empty divider leaves it unchanged. |
| SectionSpacing.MarkBreaks | google-docs-to-mailchimp/src/app/api/convert/route.ts:529-548 | Marking all patterns in turn never shortens the HTML, and an empty divider leaves it unchanged. |
| SectionSpacing.MarkBreakGrows | google-docs-to-mailchimp/src/app/api/convert/route.ts:544-548 | Marking a pattern never shortens the HTML. |
| SectionSpacing.DivTagMarked | google-docs-to-mailchimp/src/app/api/convert/route.ts:531-533 | A `<div>` tag whose attributes contain the keyword gets the divider put in front of it. |
| SectionSpacing.DivTagMatched | google-docs-to-mailchimp/src/app/api/convert/route.ts:531-533 | Such a tag is matched from `<div` to its closing `>`. |
| SectionSpacing.LargeMarginThreshold | google-docs-to-mailchimp/src/app/api/convert/route.ts:539-540 | A margin value in px triggers the large-margin pattern exactly when it has at least two digits and its first digit is 4 to 9: 40-99px and 400px trigger it, 100-399px do not. |
| SectionSpacing.PairAt | google-docs-to-mailchimp/src/app/api/convert/route.ts:551 | A closing/opening pair match starts with the closing tag and ends within the HTML. |
| SectionSpacing.HeadingOpenAt | google-docs-to-mailchimp/src/app/api/convert/route.ts:559 | A heading-open match spells `<h`, the level, the attributes and `>`. |
| SectionSpacing.ListOpenAt | google-docs-to-mailchimp/src/app/api/convert/route.ts:574 | A list-open match spells `<` and the list name. |
| SectionSpacing.ParaAfterPara | google-docs-to-mailchimp/src/app/api/convert/route.ts:551-553 | An empty insertion leaves the HTML unchanged. |
| SectionSpacing.HeadingAfterHeading | google-docs-to-mailchimp/src/app/api/convert/route.ts:556-563 | An empty insertion leaves the HTML unchanged. |
| SectionSpacing.ParaAfterList | google-docs-to-mailchimp/src/app/api/convert/route.ts:566-571 | An empty insertion leaves the HTML unchanged. |
| SectionSpacing.ListAfterPara | google-docs-to-mailchimp/src/app/api/convert/route.ts:573-578 | An empty insertion leaves the HTML unchanged. |
| SectionSpacing.ParaPairWhole | google-docs-to-mailchimp/src/app/api/convert/route.ts:551 | `</p>`, white space and a `<p ...>` tag are matched as one pair. |
| SectionSpacing.ParaPairStyled | google-docs-to-mailchimp/src/app/api/convert/route.ts:551-553 | The opening `<p` of a paragraph pair gets the margin style in front of its attributes. |
| SectionSpacing.ParaPairStyledIn | google-docs-to-mailchimp/src/app/api/convert/route.ts:551-553 | Inside any HTML with no other pair match, only the pair's `<p` gains the margin style and the text around it is unchanged. |
| SectionSpacing.ParaPairReplacedAround | google-docs-to-mailchimp/src/app/api/convert/route.ts:551-553 | The pair rewrite of a document equals the text before, the rewritten pair and the text after. |
| SectionSpacing.PreBlockBroken | google-docs-to-mailchimp/src/app/api/convert/route.ts:551-552 | `</p><pre>` counts as a paragraph pair, and the insertion lands inside `<pre`, giving `<p style=...re>`. |
| SectionSpacing.UpperParaPairUnstyled | google-docs-to-mailchimp/src/app/api/convert/route.ts:551-552 | An upper-case pair `</P> <P>` is matched but left unstyled, because the literal replace looks for lower-case `<p`. |
| SectionSpacing.HeadingPairWhole | google-docs-to-mailchimp/src/app/api/convert/route.ts:557 | A closing heading, white space and an opening heading of levels 1-6 are matched as one pair. |
| SectionSpacing.HeadingOpenFirst | google-docs-to-mailchimp/src/app/api/convert/route.ts:559 | In a heading pair the first heading-open match is the second tag, with its level and attributes as groups. |
| SectionSpacing.HeadingPairStyled | google-docs-to-mailchimp/src/app/api/convert/route.ts:556-563 | The second heading of a pair gets the margin style between its level and its attributes. |
| SectionSpacing.HeadingPairStyledIn | google-docs-to-mailchimp/src/app/api/convert/route.ts:556-563 | Inside any HTML with no other heading pair, only that heading changes. |
| SectionSpacing.HeadingReplacedAround | google-docs-to-mailchimp/src/app/api/convert/route.ts:556-563 | The heading rewrite of a document equals the text before, the rewritten pair and the text after. |
| SectionSpacing.ListParaWhole | google-docs-to-mailchimp/src/app/api/convert/route.ts:566-567 | A closing `ul` or `ol`, white space and a `<p ...>` tag are matched as one pair. |
| SectionSpacing.UnorderedCloseAbsent | google-docs-to-mailchimp/src/app/api/convert/route.ts:567 | A pair that closes an `ol` does not match the `ul` alternative. |
| SectionSpacing.ListParaStyled | google-docs-to-mailchimp/src/app/api/convert/route.ts:566-571 | The paragraph after a list gets the margin style in front of its attributes. |
| SectionSpacing.ListParaStyledIn | google-docs-to-mailchimp/src/app/api/convert/route.ts:566-571 | Inside any HTML with no other list/paragraph pair, only that paragraph changes. |
| SectionSpacing.ListParaReplacedAround | google-docs-to-mailchimp/src/app/api/convert/route.ts:566-571 | The list/paragraph rewrite of a document equals the text before, the rewritten pair and the text after. |
| SectionSpacing.ParaListWhole | google-docs-to-mailchimp/src/app/api/convert/route.ts:574 | A closing `p`, white space and a `<ul ...>` or `<ol ...>` tag are matched as one pair. |
| SectionSpacing.NoUnorderedPair | google-docs-to-mailchimp/src/app/api/convert/route.ts:574 | A paragraph followed by an `ol` does not match the `ul` alternative. |
| SectionSpacing.ListOpenFirst | google-docs-to-mailchimp/src/app/api/convert/route.ts:576 | In such a pair the first list-open match is the list tag, with the list name as its group. |
| SectionSpacing.ParaListStyled | google-docs-to-mailchimp/src/app/api/convert/route.ts:573-578 | The list after a paragraph gets the margin style between its name and its attributes. |
| SectionSpacing.ParaListStyledIn | google-docs-to-mailchimp/src/app/api/convert/route.ts:573-578 | Inside any HTML with no other paragraph/list pair, only that list changes. |
| SectionSpacing.ParaListReplacedAround | google-docs-to-mailchimp/src/app/api/convert/route.ts:573-578 | The paragraph/list rewrite of a document equals the text before, the rewritten pair and the text after. |
| SectionSpacing.OrderedNotUnordered | google-docs-to-mailchimp/src/app/api/convert/route.ts:574 | A paragraph/`ol` pair anywhere in a document is not a paragraph/`ul` pair. |
| CssStyles.KebabCase | google-docs-to-mailchimp/src/app/utils/htmlGenerator.ts:362-364 | A kebab-cased name holds no capital letter. |
| CssStyles.KebabCaseCamel | google-docs-to-mailchimp/src/app/utils/htmlGenerator.ts:362-364 | A camel-case property name becomes its words in lower case, joined by hyphens. |
| CssStyles.KebabCaseLower | google-docs-to-mailchimp/src/app/utils/htmlGenerator.ts:362-364 | A name without capitals is its own kebab case. |
| CssStyles.KebabTwoWords | google-docs-to-mailchimp/src/app/utils/htmlGenerator.ts:362-364 | A two-word name such as `backgroundColor` becomes `background-color`. |
| CssStyles.HumpBoundary | google-docs-to-mailchimp/src/app/utils/htmlGenerator.ts:363 | A hyphen goes between a lower-case letter or digit and the capital after it. |
| CssStyles.AssignLookup | google-docs-to-mailchimp/src/app/utils/htmlGenerator.ts:262-288 | After setting a property, reading it gives the new value and every other property reads as before. |
| CssStyles.AssignKeys | google-docs-to-mailchimp/src/app/utils/htmlGenerator.ts:262-288 | Setting a property keeps the existing order and appends only a new name. |
| CssStyles.AssignKeepsDistinct | google-docs-to-mailchimp/src/app/utils/htmlGenerator.ts:262-288 | Setting a property never duplicates a name. |
| CssStyles.FormattedLookup | google-docs-to-mailchimp/src/app/utils/htmlGenerator.ts:260-288 | Each property reads the formatting's value when the formatting sets it, and the base style's otherwise. |
| CssStyles.StyleObjectLookup | google-docs-to-mailchimp/src/app/utils/htmlGenerator.ts:260-293 | Besides the overrides, the font family is the base's when truthy and the configured family otherwise. |
| CssStyles.FormattedShape | google-docs-to-mailchimp/src/app/utils/htmlGenerator.ts:260-288 | The formatted object keeps the base's property order, appends new names only, and has no duplicate names. |
| CssStyles.StyleObjectShape | google-docs-to-mailchimp/src/app/utils/htmlGenerator.ts:260-296 | The final style object has distinct names, starts with the base's names and always holds `fontFamily`. |
| CssStyles.LookupAt | google-docs-to-mailchimp/src/app/utils/htmlGenerator.ts:295-297 | With distinct names, each entry's own name reads its own value, so the emitted declarations agree with the object. |
| HtmlEscape.EscapeOneChar | google-docs-to-mailchimp/src/app/utils/htmlGenerator.ts:350-357 | Escaping one character replaces exactly the five special characters by their entities. |
| HtmlEscape.EscapeHtmlAppend | google-docs-to-mailchimp/src/app/utils/htmlGenerator.ts:350-357 | Escaping distributes over concatenation. |
| HtmlEscape.EscapeHtmlIsInert | google-docs-to-mailchimp/src/app/utils/htmlGenerator.ts:350-357 | Escaped text holds no `<`, `>`, `"` or `'`. |
| HtmlEscape.EscapeHtmlEntities | google-docs-to-mailchimp/src/app/utils/htmlGenerator.ts:352 | Every `&` in escaped text starts one of the five entities, because `&` is replaced first. |
| HtmlEscape.EscapeHtmlRoundTrip | google-docs-to-mailchimp/src/app/utils/htmlGenerator.ts:350-357 | Decoding the five entities recovers the original text. |
| HtmlEscape.EscapeHtmlPlain | google-docs-to-mailchimp/src/app/utils/htmlGenerator.ts:350-357 | Text without special characters is left unchanged. |
| HtmlGenerator.ConfigureSpread | google-docs-to-mailchimp/src/app/utils/htmlGenerator.ts:15-25 | With no overrides the options are the defaults; each given option replaces its default and each absent one keeps it. |
| HtmlGenerator.HeadingFontSizeScale | google-docs-to-mailchimp/src/app/utils/htmlGenerator.ts:303-316 | Level 1 gets 24px, level n of 2 to 6 gets 24-2n px, and every other level 16px. |
| HtmlGenerator.HeadingMarginScale | google-docs-to-mailchimp/src/app/utils/htmlGenerator.ts:318-331 | Level n of 1 to 6 gets a top margin of 22-2n px and a bottom margin of 18-2n px; every other level gets 16px and 12px. |
| HtmlGenerator.IsRichTextSpan | google-docs-to-mailchimp/src/app/utils/htmlGenerator.ts:74 | Content counts as rich text exactly when it holds a `<`, then at least one character other than `>`, then `>`. |
| HtmlGenerator.NoLtNotRich | google-docs-to-mailchimp/src/app/utils/htmlGenerator.ts:74 | Content without `<` is never rich text. |
| HtmlGenerator.RenderContent | google-docs-to-mailchimp/src/app/utils/htmlGenerator.ts:73-83 | Rich text is emitted as it is and any other content is escaped. |
| HtmlGenerator.RenderContentMeaning | google-docs-to-mailchimp/src/app/utils/htmlGenerator.ts:73-83 | Escaped plain content decodes back to the content, holds no angle brackets and is not itself rich text. |
| HtmlGenerator.HeadingTagLevel | google-docs-to-mailchimp/src/app/utils/htmlGenerator.ts:64-65 | Two headings get the same tag exactly when their levels, with a missing or zero level read as 1, agree. |
| HtmlGenerator.HeadingStyleValues | google-docs-to-mailchimp/src/app/utils/htmlGenerator.ts:63-71 | A heading's style object reads the formatting's size or the tabled size, `bold !important` or `bold`, the tabled margin, line height 1.3, the configured font family and the formatting's alignment, with distinct names in source order. |
| HtmlGenerator.ParagraphLink | google-docs-to-mailchimp/src/app/utils/htmlGenerator.ts:97-113 | Plain paragraph content is wrapped in a link exactly when the paragraph has a URL, around the escaped content; rich content is emitted without a link. |
| HtmlGenerator.BodyStyleValues | google-docs-to-mailchimp/src/app/utils/htmlGenerator.ts:91-125 | Paragraphs get margin `0 0 16px 0`, list items `8px 0`; both carry the configured line height and font family. |
| HtmlGenerator.ImageAlt | google-docs-to-mailchimp/src/app/utils/htmlGenerator.ts:167-169 | The alt text is the element's alt when truthy, else its content when non-empty, else the default caption; it is never empty. |
| HtmlGenerator.ImageLinked | google-docs-to-mailchimp/src/app/utils/htmlGenerator.ts:171-176 | An image is wrapped in a link exactly when the element has a truthy link URL. |
| HtmlGenerator.ImageSrcStable | google-docs-to-mailchimp/src/app/utils/htmlGenerator.ts:154-163 | A Google image URL without size parameters gets the mail size, and rendering the rewritten URL again gives the same source. |
| HtmlGenerator.CtaBodyTrimmed | google-docs-to-mailchimp/src/app/utils/htmlGenerator.ts:188-242 | The button markup starts with `<` and is its own trimmed form. |
| HtmlGenerator.CtaButtonParts | google-docs-to-mailchimp/src/app/utils/htmlGenerator.ts:184-243 | The button links to the CTA URL or `#`, and shows the escaped CTA text or the content, which decodes back unchanged. |
| HtmlGenerator.SpaceHtmlInjective | google-docs-to-mailchimp/src/app/utils/htmlGenerator.ts:248-251 | Different heights give different spacer markup. |
| HtmlGenerator.SpaceLevelRecoverable | google-docs-to-mailchimp/src/app/utils/htmlGenerator.ts:248-251 | Two spacers with the same markup have the same effective level. |
| HtmlGenerator.SpaceDefaultHeight | google-docs-to-mailchimp/src/app/utils/htmlGenerator.ts:249 | A spacer with no level or level 0 is 15px high. |
| HtmlGenerator.GenerateElement | google-docs-to-mailchimp/src/app/utils/htmlGenerator.ts:41-58 | Only the kind no parser produces renders as nothing; every other element renders as markup starting with `<`. |
| HtmlGenerator.WrapKeepsContent | google-docs-to-mailchimp/src/app/utils/htmlGenerator.ts:333-348 | The container wraps the content unchanged between its opening and closing markup. |
| HtmlGenerator.RenderAll | google-docs-to-mailchimp/src/app/utils/htmlGenerator.ts:31-32 | Rendering a document renders each element, in order, one piece per element. |
| HtmlGenerator.RenderAllAppend | google-docs-to-mailchimp/src/app/utils/htmlGenerator.ts:31-32 | Rendering two element lists one after the other equals rendering their concatenation. |
| HtmlGenerator.GenerateHtmlAppend | google-docs-to-mailchimp/src/app/utils/htmlGenerator.ts:30-36 | The HTML of two non-empty parts is the container around both renderings joined by a newline. |
| HtmlGenerator.GenerateHtmlEmpty | google-docs-to-mailchimp/src/app/utils/htmlGenerator.ts:30-36 | An empty document gives the empty container. |
| Document.Or | google-docs-to-mailchimp/src/app/utils/htmlGenerator.ts:185-186 | The `||` fallback reads the value when truthy and the fallback otherwise. |
| Document.LevelOr1 | google-docs-to-mailchimp/src/app/utils/htmlGenerator.ts:64 | A missing or zero level reads as 1 and any other level as itself. |
| Numbers.DropLeadingZeros | google-docs-to-mailchimp/src/app/utils/googleDocsParser.ts:325 | The whole part keeps at least one digit and starts with `0` only when it is `0`. |
| Numbers.DropTrailingZeros | google-docs-to-mailchimp/src/app/utils/googleDocsParser.ts:325 | The fraction part is empty or ends in a non-zero digit. |
| Numbers.CanonicalNumber | google-docs-to-mailchimp/src/app/utils/googleDocsParser.ts:323-325 | The number printed back from a matched size is in canonical form. |
| Numbers.CanonicalKeepsValue | google-docs-to-mailchimp/src/app/utils/googleDocsParser.ts:323-325 | The canonical form has the same whole value and a fraction that differs only by trailing zeros. |
| Numbers.LeadingZerosValue | google-docs-to-mailchimp/src/app/utils/googleDocsParser.ts:325 | Dropping leading zeros keeps the whole part's value. |
| Numbers.CanonicalIdempotent | google-docs-to-mailchimp/src/app/utils/googleDocsParser.ts:325 | Canonicalising twice equals canonicalising once. |
| Numbers.CanonicalFixed | google-docs-to-mailchimp/src/app/utils/googleDocsParser.ts:325 | A canonical number is its own canonical form. |
| Numbers.ZeroPrintsAsZero | google-docs-to-mailchimp/src/app/utils/googleDocsParser.ts:325 | A size prints as `0` exactly when its value is zero. |
| Numbers.LeadingZerosZero | google-docs-to-mailchimp/src/app/utils/googleDocsParser.ts:325 | The whole part becomes `0` exactly when it is all zeros. |
| Numbers.TrailingZerosEmpty | google-docs-to-mailchimp/src/app/utils/googleDocsParser.ts:325 | The fraction disappears exactly when it is all zeros. |
| Numbers.WholeExample | google-docs-to-mailchimp/src/app/utils/googleDocsParser.ts:325 | `14.0` prints as `14`. |
| Numbers.FractionExample | google-docs-to-mailchimp/src/app/utils/simpleParser.ts:286 | `007.50` prints as `7.5`. |
| ParserRules.HeadingTagLevel | google-docs-to-mailchimp/src/app/utils/googleDocsParser.ts:105-112 | A tag names a heading exactly when it is `h` and a digit 1 to 6, and the level is that digit. |
| ParserRules.HeadingTagRoundTrip | google-docs-to-mailchimp/src/app/utils/googleDocsParser.ts:112 | Reading the tag written for a level 1 to 6 gives the level back. |
| ParserRules.DeclAt | google-docs-to-mailchimp/src/app/utils/googleDocsParser.ts:323-347 | A declaration match starts with the property name and captures one value. |
| ParserRules.DeclValue | google-docs-to-mailchimp/src/app/utils/googleDocsParser.ts:323-347 | A captured size is a decimal number, a captured colour is a hex or `rgb(...)` value and a captured alignment is one of the four keywords. |
| ParserRules.ValuesShaped | google-docs-to-mailchimp/src/app/utils/googleDocsParser.ts:323-347 | The first px size, pt size, colour, background colour and alignment of any style have those shapes. |
| ParserRules.DocsFormatting | google-docs-to-mailchimp/src/app/utils/googleDocsParser.ts:291-351 | The structured parser's bold, italic and underline flags are exactly the style or child-tag tests; a size is present exactly when a px size matches and is canonical; colours and alignment have their shapes. |
| ParserRules.SimpleFormatting | google-docs-to-mailchimp/src/app/utils/simpleParser.ts:255-298 | The simple parser has the same flags, reads the size in pt instead, and never sets background or alignment. |
| ParserRules.DocsSizeTruthy | google-docs-to-mailchimp/src/app/utils/googleDocsParser.ts:323-325 | The parsed size is truthy exactly when a px size matched and its value is not zero. |
| ParserRules.FormattingsAgree | google-docs-to-mailchimp/src/app/utils/simpleParser.ts:255-298 | Both parsers agree on bold, italic, underline and colour for any styling. |
| ParserRules.SizeUnitsDiffer | google-docs-to-mailchimp/src/app/utils/simpleParser.ts:284 | `font-size: 14px` gives the structured parser a size and the simple parser none. |
| ParserRules.PxSizeRead | google-docs-to-mailchimp/src/app/utils/googleDocsParser.ts:323 | The px pattern reads the digits of `font-size: <digits>px`. |
| ParserRules.PtSizeMissing | google-docs-to-mailchimp/src/app/utils/simpleParser.ts:284 | The pt pattern finds nothing in `font-size: <digits>px`. |
| ParserRules.BackgroundReadAsColour | google-docs-to-mailchimp/src/app/utils/googleDocsParser.ts:329-342 | A style holding only `background-color` sets both the background and the text colour, because the colour pattern also matches inside `background-color:`. |
| ParserRules.CtaPatternNeedsCta | google-docs-to-mailchimp/src/app/utils/googleDocsParser.ts:356-362 | A CTA pattern always contains `cta` in some case. |
| ParserRules.LowerCaseCtaParsed | google-docs-to-mailchimp/src/app/utils/googleDocsParser.ts:359 | `cta: Shop now` is a CTA for the parsers but not for the conversion route. |
| ParserRules.SeparatorlessCtaIgnored | google-docs-to-mailchimp/src/app/utils/googleDocsParser.ts:359 | Four characters `CTA` and a character that is neither `:` nor white space trigger the route but are not a parser CTA. |
| ParserRules.NoTriggerNoPattern | google-docs-to-mailchimp/src/app/utils/googleDocsParser.ts:356-362 | Trimmed text that fails every trigger test is not a CTA pattern. |
| ParserRules.RouteTriggersOnCta | google-docs-to-mailchimp/src/app/utils/googleDocsParser.ts:359 | Trimmed text starting with `CTA` triggers the conversion route. |
| ParserRules.TriggerHasText | google-docs-to-mailchimp/src/app/utils/googleDocsParser.ts:249-253 | Every trimmed text that is a CTA pattern yields a directive match, so the non-CTA fallback after it never runs for it. |
| ParserRules.BracketTriggerHasText | google-docs-to-mailchimp/src/app/utils/googleDocsParser.ts:250 | Text opening with `[cta]` always yields directive text. |
| ParserRules.WordTriggerHasText | google-docs-to-mailchimp/src/app/utils/googleDocsParser.ts:251 | Trimmed text opening with `cta` and a separator yields directive text. |
| ParserRules.TagTriggerHasText | google-docs-to-mailchimp/src/app/utils/googleDocsParser.ts:251 | Text holding `<CTA>` yields directive text. |
| ParserRules.CtaParts | google-docs-to-mailchimp/src/app/utils/googleDocsParser.ts:244-286 | A CTA is parsed exactly when directive text is found; with an anchor it takes the anchor's trimmed text and cleaned href, otherwise a trailing URL is split off the text or the URL is `#`. |
| ParserRules.CtaElement | google-docs-to-mailchimp/src/app/utils/googleDocsParser.ts:280-285 | The CTA element's content and button text are the caption and its URL the parsed URL; nothing else is set. |
| ParserRules.CtaPartsPlainAnchor | google-docs-to-mailchimp/src/app/utils/simpleParser.ts:322-328 | For a simple anchor the parts are its trimmed text and its cleaned URL. |
| ParserRules.CtaPartsAgreeWithRoute | google-docs-to-mailchimp/src/app/utils/simpleParser.ts:308-344 | With an anchor whose href is trimmed, the parsers pick the same link as the conversion route. |
| ParserRules.CtaPartsWithoutUrl | google-docs-to-mailchimp/src/app/utils/googleDocsParser.ts:272-278 | Without an anchor or any `http(s)://` in the text, the URL is `#` and the text is kept whole. |
| ParserRules.WithScheme | google-docs-to-mailchimp/src/app/utils/simpleParser.ts:205-207 | A protocol-relative source gets `https:` in front; any other is kept. |
| ParserRules.SchemeKeepsTests | google-docs-to-mailchimp/src/app/utils/googleDocsParser.ts:226-231 | Adding the scheme changes neither the Google-host test nor the `=w` test. |
| ParserRules.DropEmpty | google-docs-to-mailchimp/src/app/utils/simpleParser.ts:246-252 | The filter never lengthens the list. |
| ParserRules.DropEmptyMembers | google-docs-to-mailchimp/src/app/utils/simpleParser.ts:246-252 | An element survives the filter exactly when it was in the list and has visible text, is a space or is an image. |
| ParserRules.DropEmptyAppend | google-docs-to-mailchimp/src/app/utils/googleDocsParser.ts:384-387 | Filtering two lists one after the other equals filtering their concatenation. |
| ParserRules.DropEmptyKeepsKept | google-docs-to-mailchimp/src/app/utils/googleDocsParser.ts:384-387 | A list whose every element passes the test is left unchanged. |
| DocsParser.LinkUrl | google-docs-to-mailchimp/src/app/utils/googleDocsParser.ts:177-182 | A paragraph has a URL exactly when it holds an anchor; an href that is not a Google redirect is kept as it is, and a missing href reads as empty. |
| DocsParser.ParseCta | google-docs-to-mailchimp/src/app/utils/googleDocsParser.ts:244-286 | A CTA paragraph whose text yields no directive falls back to a plain paragraph with its trimmed text and formatting; otherwise it becomes a CTA whose trimmed caption and URL are the parsed parts. |
| DocsParser.SpaceDirectiveIsNotCta | google-docs-to-mailchimp/src/app/utils/googleDocsParser.ts:166-173 | `[space]` is not a CTA pattern, so the space test is reachable. |
| DocsParser.ParseParagraph | google-docs-to-mailchimp/src/app/utils/googleDocsParser.ts:161-190 | An empty paragraph is skipped; `[space]` becomes a space, a CTA pattern a CTA, and anything else a paragraph with its trimmed text, link URL and formatting. |
| DocsParser.ParseItem | google-docs-to-mailchimp/src/app/utils/googleDocsParser.ts:201-211 | A list item with visible text becomes one item of the list's type holding that text; an empty one is skipped. |
| DocsParser.ParseListItems | google-docs-to-mailchimp/src/app/utils/googleDocsParser.ts:195-214 | A list yields at most one element per item, all items of the list's type. |
| DocsParser.ParseListAll | google-docs-to-mailchimp/src/app/utils/googleDocsParser.ts:195-214 | When every item has text, the list yields the items' trimmed texts in order. |
| DocsParser.DocsImageUrlIsFixUrl | google-docs-to-mailchimp/src/app/utils/googleDocsParser.ts:225-231 | The structured parser's image URL rule is the same as the converter's URL fix. |
| DocsParser.ParseImage | google-docs-to-mailchimp/src/app/utils/googleDocsParser.ts:220-239 | An image element's content and alt are the alt text or the default caption, and its URL is the fixed source. |
| DocsParser.ParseNodeKinds | google-docs-to-mailchimp/src/app/utils/googleDocsParser.ts:101-133 | Headings give one heading with the tag's level and trimmed text, paragraphs at most one element, images one image, lists items of their type, and every other tag nothing. |
| DocsParser.SpaceRun | google-docs-to-mailchimp/src/app/utils/googleDocsParser.ts:398 | A merged run of spaces is a space element whose level is the run's length. |
| DocsParser.ParseHtmlToElements | google-docs-to-mailchimp/src/app/utils/googleDocsParser.ts:80-141 | The title is the document's title or the untitled default. |
| DocsParser.AsWrittenFailsOnLists | google-docs-to-mailchimp/src/app/utils/googleDocsParser.ts:195-214 | As written, parsing fails with the unbound-`$` error exactly when the document holds a list with items, and otherwise gives the corrected result. |
| DocsParser.NodesAsWritten | google-docs-to-mailchimp/src/app/utils/googleDocsParser.ts:99-134 | As written, walking the nodes fails exactly when one is a list with items. |
| DocsParser.NodeAsWritten | google-docs-to-mailchimp/src/app/utils/googleDocsParser.ts:120-128 | As written, one node fails exactly when it is a list with items. |
| DocsParser.OneItemListThrows | google-docs-to-mailchimp/src/app/utils/googleDocsParser.ts:202 | A one-item list makes the as-written parse fail, while the corrected parse yields the item's text. |
| DocsParser.MergeSeparates | google-docs-to-mailchimp/src/app/utils/googleDocsParser.ts:389-407 | After merging, no two spaces are adjacent. |
| DocsParser.MergeCountsSpaces | google-docs-to-mailchimp/src/app/utils/googleDocsParser.ts:389-407 | The merged spaces' levels add up to the number of spaces merged. |
| DocsParser.MergeKeepsNonSpaces | google-docs-to-mailchimp/src/app/utils/googleDocsParser.ts:389-407 | Merging keeps every other element, in order. |
| DocsParser.MergeExpands | google-docs-to-mailchimp/src/app/utils/googleDocsParser.ts:389-407 | Expanding each merged space back into single spaces restores the filtered sequence. |
| DocsParser.MergeShaped | google-docs-to-mailchimp/src/app/utils/googleDocsParser.ts:389-407 | Every merged element is a non-space with visible text or an image, or a space with a positive level. |
| DocsParser.DropEmptyAllKept | google-docs-to-mailchimp/src/app/utils/googleDocsParser.ts:384-387 | Every element that survives the filter passes its test. |
| DocsParser.ParsedElementsShape | google-docs-to-mailchimp/src/app/utils/googleDocsParser.ts:136-140 | A parsed document has no adjacent spaces and every element is well-shaped. |
| DocsParser.PostProcessCounts | google-docs-to-mailchimp/src/app/utils/googleDocsParser.ts:382-410 | Post-processing keeps the non-space elements in order and sums the surviving spaces into the run levels; expanding the runs gives the filtered sequence back. |
| DocsParser.ReprocessingResetsLevels | google-docs-to-mailchimp/src/app/utils/googleDocsParser.ts:389-407 | Post-processing is not idempotent: a second pass resets a run of two to level 1, because a merged space is counted once. |
| SimpleParser.GoogleHrefAt | google-docs-to-mailchimp/src/app/utils/simpleParser.ts:125-131 | The Google-href pattern captures an href value without quotes that mentions `google.com`. |
| SimpleParser.LastHrefStart | google-docs-to-mailchimp/src/app/utils/simpleParser.ts:134-137 | The style pattern anchors on the last `href="` that completes a tag, as a greedy `[^>]*` would. |
| SimpleParser.RewriteLinksWithoutHref | google-docs-to-mailchimp/src/app/utils/simpleParser.ts:120-141 | HTML without `href="` passes the link rewrite unchanged. |
| SimpleParser.RedirectMentionsGoogle | google-docs-to-mailchimp/src/app/utils/simpleParser.ts:126 | A redirect URL always passes the `google.com` test. |
| SimpleParser.GoogleHrefOnAnchor | google-docs-to-mailchimp/src/app/utils/simpleParser.ts:126 | In a simple anchor the only Google-href match is at its href, and only when the URL mentions `google.com`. |
| SimpleParser.CleanPassOnAnchor | google-docs-to-mailchimp/src/app/utils/simpleParser.ts:125-131 | The first pass replaces a simple anchor's URL by its cleaned form. |
| SimpleParser.StyledAnchorAtStart | google-docs-to-mailchimp/src/app/utils/simpleParser.ts:135 | The style pattern matches a simple anchor's opening tag and captures its URL. |
| SimpleParser.StylePassOnAnchor | google-docs-to-mailchimp/src/app/utils/simpleParser.ts:134-137 | The second pass replaces a simple anchor's opening tag by the styled one. |
| SimpleParser.RewriteSingleLink | google-docs-to-mailchimp/src/app/utils/simpleParser.ts:120-141 | A paragraph holding one simple anchor becomes that anchor with its cleaned URL and the link style. |
| SimpleParser.AnchorDocQuotes | google-docs-to-mailchimp/src/app/utils/simpleParser.ts:120-137 | An exported anchor between words with no double quotes holds the document's only two double quotes, around its URL. |
| SimpleParser.HrefTailNone | google-docs-to-mailchimp/src/app/utils/simpleParser.ts:126-135 | With the only double quotes at two places, no `href="` value can be read except one whose opening quote is the first of them. |
| SimpleParser.HrefPassWindow | google-docs-to-mailchimp/src/app/utils/simpleParser.ts:125-131 | In such a document the Google-href pattern can only match at the anchor's `href`, and does so exactly when the URL mentions `google.com`. |
| SimpleParser.AnchorOpenWindow | google-docs-to-mailchimp/src/app/utils/simpleParser.ts:135 | Inside such a document the anchor opens with `<a` and a space, and its `href` reads the URL up to the anchor's first `>`. |
| SimpleParser.StylePassWindow | google-docs-to-mailchimp/src/app/utils/simpleParser.ts:134-137 | In such a document the style pattern matches at the anchor's start, up to the end of its opening tag, capturing the URL. |
| SimpleParser.NoAnchorOutside | google-docs-to-mailchimp/src/app/utils/simpleParser.ts:135 | When the words around the anchor and its text hold no `<`, no `<a` starts outside the anchor's opening tag. |
| SimpleParser.StyleOnlyWindow | google-docs-to-mailchimp/src/app/utils/simpleParser.ts:134-137 | In such a document the style pass rewrites exactly the anchor's opening tag and keeps everything before and after it. |
| SimpleParser.CleanPassIn | google-docs-to-mailchimp/src/app/utils/simpleParser.ts:125-131 | The first pass on an anchor between plain words replaces its URL by the cleaned URL and keeps the words on both sides. |
| SimpleParser.StylePassIn | google-docs-to-mailchimp/src/app/utils/simpleParser.ts:134-137 | The second pass on an anchor between plain words replaces its opening tag by the styled one and keeps the words on both sides. |
| SimpleParser.RewriteLinkIn | google-docs-to-mailchimp/src/app/utils/simpleParser.ts:120-141 | A paragraph of plain words holding one anchor becomes the same words around that anchor, with its cleaned URL and the link style. |
| SimpleParser.ParseHeading | google-docs-to-mailchimp/src/app/utils/simpleParser.ts:81-97 | An empty heading is skipped; any other becomes the structured parser's heading with the simple formatting. |
| SimpleParser.LinkedContent | google-docs-to-mailchimp/src/app/utils/simpleParser.ts:116-141 | Text without links is the trimmed text; with links and no `href="` it is the element's HTML. |
| SimpleParser.ParseCtaElement | google-docs-to-mailchimp/src/app/utils/simpleParser.ts:308-344 | A CTA element exists exactly when a directive is found, and is then the structured parser's CTA. |
| SimpleParser.ParseParagraph | google-docs-to-mailchimp/src/app/utils/simpleParser.ts:99-156 | Empty text is skipped; a CTA pattern gives the CTA, `[space]` a space and anything else a paragraph with the linked content, simple formatting and no URL. |
| SimpleParser.ParagraphsAgree | google-docs-to-mailchimp/src/app/utils/simpleParser.ts:99-156 | For a non-empty paragraph both parsers agree on the kind, give equal CTA and space elements, and agree on the text when there is no link. |
| SimpleParser.ParseItem | google-docs-to-mailchimp/src/app/utils/simpleParser.ts:160-194 | A list item with text becomes one item with no list type holding the linked content. |
| SimpleParser.ListsAgree | google-docs-to-mailchimp/src/app/utils/simpleParser.ts:158-196 | Without links, both parsers give the same item texts. |
| SimpleParser.SimpleImageUrlIsOptimized | google-docs-to-mailchimp/src/app/utils/simpleParser.ts:202-223 | The simple parser's image URL is the mail rewrite of the URL with its scheme added. |
| SimpleParser.SimpleImageUrlStable | google-docs-to-mailchimp/src/app/utils/simpleParser.ts:209-218 | For a Google-hosted source whose scheme-fixed URL has no `w=` or `h=` size parameter, rewriting the simple parser's image URL again changes nothing. |
| SimpleParser.ParseImage | google-docs-to-mailchimp/src/app/utils/simpleParser.ts:198-229 | An image element has the structured parser's caption, no alt field and the mail-sized URL. |
| SimpleParser.ParseHtmlToDocument | google-docs-to-mailchimp/src/app/utils/simpleParser.ts:62-253 | The title is the document's title or the untitled default. An element is in the result exactly when the nodes parse to it and it passes the filter. When every parsed element passes, the result is all of them in order. There are never more elements than the nodes yield. |
| SimpleParser.SpacersNotMerged | google-docs-to-mailchimp/src/app/utils/simpleParser.ts:246-252 | The simple parser keeps consecutive spaces apart, where the structured parser merges them. |
| Markdown.Blocks | google-docs-to-mailchimp/src/app/components/VisualEditor.tsx:48-78 | Serialising gives exactly one markdown block per element. |
| Markdown.HeadingLine | google-docs-to-mailchimp/src/app/components/VisualEditor.tsx:92-101 | A heading line has a level of 1 to 6. |
| Markdown.ParseLine | google-docs-to-mailchimp/src/app/components/VisualEditor.tsx:86-174 | A line yields at most one element, and none exactly when it is blank. |
| Markdown.MarkdownToDocument | google-docs-to-mailchimp/src/app/components/VisualEditor.tsx:83-185 | Reading markdown keeps the current document's title. |
| Markdown.SplitAppend | google-docs-to-mailchimp/src/app/components/VisualEditor.tsx:84 | Splitting on newlines distributes over a newline between two texts. |
| Markdown.SplitOneLine | google-docs-to-mailchimp/src/app/components/VisualEditor.tsx:84 | Text without a newline splits into itself. |
| Markdown.ReadLinesAppend | google-docs-to-mailchimp/src/app/components/VisualEditor.tsx:86-174 | Reading lines distributes over concatenation. |
| Markdown.HeadingPattern | google-docs-to-mailchimp/src/app/components/VisualEditor.tsx:92-93 | One to six `#`, a space and non-blank text read as a heading of that level. |
| Markdown.HeadingRoundTrip | google-docs-to-mailchimp/src/app/components/VisualEditor.tsx:51-53 | For level 1 to 6 and non-empty, trimmed text without line terminators, a heading's markdown line is one line and reads back as the same heading. |
| Markdown.ListRoundTrip | google-docs-to-mailchimp/src/app/components/VisualEditor.tsx:62-64 | For non-empty, trimmed text without line terminators, a list item's line is one line and reads back as an item of the same list type. |
| Markdown.ImagePattern | google-docs-to-mailchimp/src/app/components/VisualEditor.tsx:115-116 | `![alt](url)` reads back its alt text and URL. |
| Markdown.ImageRoundTrip | google-docs-to-mailchimp/src/app/components/VisualEditor.tsx:66-67 | For alt text without `]` or a newline, and a non-empty URL without `)` or a newline, an image's line is one line and reads back as the same image. |
| Markdown.CtaPattern | google-docs-to-mailchimp/src/app/components/VisualEditor.tsx:127-128 | `[CTA: text](url)` reads back its caption and URL. |
| Markdown.CtaRoundTrip | google-docs-to-mailchimp/src/app/components/VisualEditor.tsx:69-70 | For a non-empty caption that does not start with whitespace and has no `]` or newline, and a non-empty URL without `)` or a newline, a CTA's line is one line and reads back as the CTA element the parsers build. |
| Markdown.SpaceRoundTrip | google-docs-to-mailchimp/src/app/components/VisualEditor.tsx:72-73 | The spacer markdown reads back as one space. |
| Markdown.OtherLine | google-docs-to-mailchimp/src/app/components/VisualEditor.tsx:139-173 | A line that opens no other construct is a space when it is `---` and a paragraph otherwise. |
| Markdown.BoldUnwrap | google-docs-to-mailchimp/src/app/components/VisualEditor.tsx:153-157 | A single `**...**` span is unwrapped and marks the paragraph bold. |
| Markdown.BoldAbsent | google-docs-to-mailchimp/src/app/components/VisualEditor.tsx:153-157 | Text without `**` is not bold and is kept as it is. |
| Markdown.ItalicUnwrap | google-docs-to-mailchimp/src/app/components/VisualEditor.tsx:160-164 | A single `*...*` span is unwrapped and marks the paragraph italic. |
| Markdown.ItalicAbsent | google-docs-to-mailchimp/src/app/components/VisualEditor.tsx:160-164 | Text without `*` is not italic and is kept as it is. |
| Markdown.LinkFound | google-docs-to-mailchimp/src/app/components/VisualEditor.tsx:167-171 | `[text](url)` yields its text and URL. |
| Markdown.LinkAbsent | google-docs-to-mailchimp/src/app/components/VisualEditor.tsx:167-171 | Text without `[` holds no link. |
| Markdown.ParagraphUnwraps | google-docs-to-mailchimp/src/app/components/VisualEditor.tsx:150-173 | A paragraph's emphasis and link markup are read back as its bold and italic flags, text and URL. |
| Markdown.ParagraphRoundTrip | google-docs-to-mailchimp/src/app/components/VisualEditor.tsx:55-60 | For non-empty, trimmed, one-line text with no `*`, `[` or `]` and a first character that opens no line pattern (`#`, `-`, `+`, `!`, a digit), and a link URL without `)`, `*` or a newline, a paragraph's line reads back as the same paragraph. A bare link whose text starts with `CTA:` is excluded. |
| Markdown.ElementRoundTrip | google-docs-to-mailchimp/src/app/components/VisualEditor.tsx:47-80 | Every element the markdown can express reads back as its canonical form. |
| Markdown.BlankLineReads | google-docs-to-mailchimp/src/app/components/VisualEditor.tsx:79-89 | Blank lines between blocks separate them without adding elements. |
| Markdown.BlocksRoundTrip | google-docs-to-mailchimp/src/app/components/VisualEditor.tsx:47-185 | Serialising expressible elements and reading them back gives their canonical forms, in order. |
| Markdown.MarkdownRoundTrip | google-docs-to-mailchimp/src/app/components/VisualEditor.tsx:47-185 | Converting a document to markdown and back keeps the current title and gives its elements' canonical forms. |
| BlockEditor.MergeNoChange | google-docs-to-mailchimp/src/app/components/BlockEditor.tsx:208-219 | An empty update changes nothing. |
| BlockEditor.MergeThen | google-docs-to-mailchimp/src/app/components/BlockEditor.tsx:208-219 | Two updates in a row equal their combined update. |
| BlockEditor.MergeIdempotent | google-docs-to-mailchimp/src/app/components/BlockEditor.tsx:208-219 | Applying the same update twice equals applying it once. |
| BlockEditor.DefaultContent | google-docs-to-mailchimp/src/app/components/BlockEditor.tsx:222-237 | Every kind but space and the unused kind gets non-empty default text. |
| BlockEditor.NewBlock | google-docs-to-mailchimp/src/app/components/BlockEditor.tsx:180-196 | A new block has the asked kind and no formatting; only a heading gets a level, and a CTA gets its caption as button text and a link. |
| BlockEditor.SpliceIndex | google-docs-to-mailchimp/src/app/components/BlockEditor.tsx:190 | A splice position within the list is used as it is and one beyond the end inserts at the end. |
| BlockEditor.AddPosition | google-docs-to-mailchimp/src/app/components/BlockEditor.tsx:186-190 | Without an index the block goes at the end; with index i it goes right after position i. |
| BlockEditor.AddBlock | google-docs-to-mailchimp/src/app/components/BlockEditor.tsx:180-196 | Adding inserts exactly one new block at its position and keeps every other element in order and the title. |
| BlockEditor.SeparatorAddsBefore | google-docs-to-mailchimp/src/app/components/BlockEditor.tsx:352 | The insert control above block i puts the new block at i and moves the old one down. |
| BlockEditor.DropIndex | google-docs-to-mailchimp/src/app/components/BlockEditor.tsx:199-205 | Removing an index inside the list drops that one element; any other index drops nothing. |
| BlockEditor.DeleteBlock | google-docs-to-mailchimp/src/app/components/BlockEditor.tsx:199-205 | Deleting a valid index removes exactly that element; an invalid index leaves the document unchanged. |
| BlockEditor.DeleteUndoesAdd | google-docs-to-mailchimp/src/app/components/BlockEditor.tsx:180-205 | Deleting a block just added gives back the original document. |
| BlockEditor.UpdateBlock | google-docs-to-mailchimp/src/app/components/BlockEditor.tsx:208-219 | Updating changes only the element at the index, to the merged element, and keeps the length and title. |
| BlockEditor.UpdateNothing | google-docs-to-mailchimp/src/app/components/BlockEditor.tsx:208-219 | An empty update or an index outside the list leaves the document unchanged. |
| BlockEditor.UpdateTwice | google-docs-to-mailchimp/src/app/components/BlockEditor.tsx:208-219 | Two updates of the same block equal one combined update. |
| BlockEditor.ChangeType | google-docs-to-mailchimp/src/app/components/BlockEditor.tsx:461-476 | Changing type keeps content and formatting; a heading gets a non-zero level, a CTA a caption and link, and a space clears its content and gets level 1. |
| BlockEditor.ChangeTypeIdempotent | google-docs-to-mailchimp/src/app/components/BlockEditor.tsx:461-476 | Changing to the same type twice equals changing once. |
| BlockEditor.ChangeBlockType | google-docs-to-mailchimp/src/app/components/BlockEditor.tsx:461-476 | Changing one block's type leaves every other block and the title alone. |
| BlockEditor.EditCtaText | google-docs-to-mailchimp/src/app/components/BlockEditor.tsx:585-588 | Editing a CTA's text sets both its content and its button text and keeps its link and kind. |
| BlockEditor.EditKeepsParsedShape | google-docs-to-mailchimp/src/app/components/BlockEditor.tsx:585-588 | Editing the text of a parsed CTA gives the CTA the parsers would build for the new text. |

## Left out

- Text.Lower: maps only the ASCII letters `A`–`Z`. JavaScript's `toLowerCase` uses the full Unicode case mapping, so for non-ASCII text the case-insensitive searches built on it (`ContainsCI`, `AtCI`, the `i`-flag matchers) are stated only for ASCII case.
- CommentLinks.Store: keeps keys in insertion order. `Object.keys`, which enhancedCTAConversion and the route use to walk the table, lists integer-like keys first in ascending order. A `__proto__` key would not become an own property. Neither effect is modelled.
- Numbers.CanonicalNumber: covers plain decimal text only. Not modelled: the exponent forms JavaScript prints below 1e-6 and at or above 1e21, and the rounding of literals with more than about 17 significant digits to a binary double.
- ImageTags.RewriteImageSafe, ImageTags.MatchedTagCorrected, ImageTags.UnopenedTagAsWritten, ImageTags.SrcStepOffSearch: stated only for tags and URLs without `$`. `String.replace` expands `$` patterns in its replacement, and `Scan.Substitute` models that. Still, the style, `alt` and `src` results are proved only for `$`-free text.
- ImageLinks.ColonDirectiveLinksImage, ImageLinks.ColonDirectiveAsWritten, ImageLinks.MarkerPass, ImageLinks.FirstPass: stated for one directive in a document whose other text holds no `[` and no `!` (`Quiet`), with a URL and tag attributes that hold neither (`PlainParts`). How several directives or markers in one document interact is not stated.
- ImageTags.ConvertImageIn, ImageTags.UnopenedTagAsWrittenIn, ImageTags.MatchedTagCorrectedIn: stated for a tag with one `src=` (`SingleSrc`) in a document with no other `<img` in any case. With two `src=`, the greedy `[^>]+` tries the later one first, and an unclosed quote there can carry the match past the tag.
- SimpleParser.RewriteLinkIn, SimpleParser.CleanPassIn, SimpleParser.StylePassIn: stated for one anchor in the exported shape `<a href="URL">text</a>` between words that hold no double quote and no `<` (`PlainAround`). Paragraphs with several anchors or with other tags are not covered.
- SectionSpacing.ParaPairStyled, SectionSpacing.ParaListStyled, SectionSpacing.ListParaStyled: stated only for `$`-free insertions. The route's own inserted styles contain no `$`.
- SpaceDirective.TailReplaced: stated only for a `$`-free template. The template is the document's own text before `[space]`, and a `$` in it would be expanded by the inner `replace`. `SpaceDirective.SecondPassInert` shows that this pass never fires in any case.
- Markdown.HeadingRoundTrip, Markdown.ListRoundTrip, Markdown.ImageRoundTrip, Markdown.CtaRoundTrip, Markdown.ParagraphRoundTrip: stated only for text and URLs free of the characters the line patterns read (the conditions are in their rows). Text holding `]`, `*`, a newline or a leading marker character does not read back as it was written.
- ElementRules.AppendDeclNotIdempotent, ElementRules.ImageLinkStyleKeeps, ElementRules.ImageLinkStyleIdempotent, ElementRules.TextLinkStyleKeeps, ElementRules.TextLinkStyleIdempotent, ElementRules.BlockStyleNotIdempotent, ElementRules.RouteImageStyleKeeps, ElementRules.RouteImageStyleIdempotent: stated only for a style that is empty or does not start with `;`. The leading `;\s*` clean-up removes one `;` per pass, so a style starting with `;;` changes again on a second pass. These lemmas say nothing about such a style.
- ElementRules.SpanRuleStable: stated only when the weight strip leaves no `font-weight`. A style such as `font-font-weight:1;weight:2` has a new `font-weight` appear once the first is cut out.
- SimpleParser.SimpleImageUrlStable: stated only for a URL without size parameters. Stripping `?w?w=1=2` leaves `?w=2`, so a second rewrite changes such a URL again.
- Markdown.ElementRoundTrip, Markdown.BlocksRoundTrip, Markdown.MarkdownRoundTrip: stated only for `Portable` elements. These are elements in the shape the editor builds, with one-line trimmed text free of the markup characters the line patterns look for. A spacer reads back without its level or text (`Canon`). Tables do not round-trip.
- DocsParser.ParseHtmlToElements: its own `ensures` states only the title. The element-level promises are in `DocsParser.ParsedElementsShape` and `DocsParser.PostProcessCounts`.
- Markdown.MarkdownToDocument: its own `ensures` states only the title. The element-level promise is `Markdown.BlocksRoundTrip`.
- The network is a parameter or absent: `fetch` of the published document (googleDocsParser.ts:57-75, converter.ts:13-38), the route's downloads, the image proxy route and the parse-document and generate-html routes. The model starts from the fetched HTML text or the parsed DOM.
- The clock is not modelled. `parseHtmlToElements` stamps its result's `metadata` with `createdTime` and `modifiedTime` from `new Date()`, plus the fixed author `Unknown` (googleDocsParser.ts:89-93). The model's document carries no metadata.
- The cheerio DOM is not modelled as a parser. A node is given as a record of its tag, text, inner HTML, style and children, taken from the document as cheerio would report them.
- WHATWG `URL` parsing is a parameter (`lookupQ`, which answers `searchParams.get("q")`). Percent-decoding and URL normalisation are not modelled.
- The React user interface is not part of this model: rendering, scrolling, clipboard access and `console` logging. The block editor's state updates are modelled as pure functions on the block list.
- Binary floating point is not modelled. A font size read with `parseFloat` is kept as its decimal text (`Numbers`). The generator's line height is text it copies into CSS.
- enhanceBoldText, enhanceMarkdownStyles, extractGoogleDocsComments, sanitizeHtmlForMailchimp, preserveStylesForMailchimp, processGoogleDocsLinks, improveImageHandling and convertCTAToButton (converter.ts) belong to the older conversion path and are not part of this model.
- Behaviour a reader may not expect; the model follows the code:
  - The page-break rule matches `[4-9]\d+px` (route.ts:539-540), so 100–399px margins do not trigger it (`SectionSpacing.LargeMarginThreshold`).
  - Block styling is not idempotent: a second pass adds its styles again.
  - The comment pattern that captures a bare URL stores the URL itself as the key.
  - `extractDocumentId` takes the first `/document/d/` that is followed by an id character.
  - The image rewrite captures the last `src` but replaces the first.
  - The width fix adds `w=600` again on a second pass (`ImageTags.WidthAddedTwice`).
  - Three rules behave as written, and the model states what they do: `</p><pre>` is broken (`SectionSpacing.PreBlockBroken`); upper-case `</P><P>` pairs are matched but left unstyled (`SectionSpacing.UpperParaPairUnstyled`); a background colour is also read as the text colour (`ParserRules.BackgroundReadAsColour`).

## Findings

| source | as written | input that shows it | evidently intended | confidence | as-written member | corrected member |
|---|---|---|---|---|---|---|
| google-docs-to-mailchimp/src/app/utils/converter.ts:661-692 | `[^-->]` is a character class holding the range `-`..`>`, which contains `.`, `/`, `:` and the digits | `[img-link:https://a.com]<img src="x">`: the marker's URL holds `.` and `/`, so neither marker pattern matches, the image stays unlinked and the marker stays in the output | read the URL up to the closing `-->` | not executed | ImageLinks.ColonDirectiveAsWritten | ImageLinks.ColonDirectiveLinksImage |
| google-docs-to-mailchimp/src/app/utils/converter.ts:175-184 | the tag is matched with the `i` flag, but style and `alt` are inserted with a case-sensitive `replace("<img", …)` | `<IMG SRC="a">`: only the `src` is rewritten; no style and no `alt` are added | insert after the opening whatever its case | not executed | ImageTags.UnopenedTagAsWritten | ImageTags.MatchedTagCorrected |
| google-docs-to-mailchimp/src/app/utils/googleDocsParser.ts:202 | `parseList` calls `$(li)`, but `$` is not in scope there | any document with `<ul><li>x</li></ul>`: a ReferenceError, rethrown at lines 71-73, so the whole parse fails | wrap the item with the loaded document's `$` | not executed | DocsParser.OneItemListThrows | DocsParser.ParseHtmlToElements |
