/**
 `convertSpaceToMargin`: every `[space]` directive (any letter case) becomes a fixed 15px
 spacer `div`. A second pass meant to split a text element around a `[space]` runs after
 the first and can never match, because the first pass leaves no `[space]` behind.
 */
module SpaceDirective {
  import opened Base
  import opened Text
  import opened Scan

  /** The spacer, written in pieces short enough for the verifier to read character by character. */
  const SpaceDiv := "<" + "div style=\"margin: 15px 0; " + "height: 15px; line-height: " + "15px;\">&nbsp;</div>"

  /** `/\[space\]/gi` at `p`. */
  function SpaceAt(s: string, p: nat): Option<Hit> {
    if AtCI(s, p, "[space]") then Some(Hit(p + 7, [])) else None
  }

  /** The first pass: every `[space]` replaced by the spacer. */
  function SpacePass(html: string): string {
    ReplaceAll(html, SpaceAt, (s: string, at: nat, matched: string, g: seq<string>) => SpaceDiv)
  }

  // ------------------------------------------------------------------ the element-splitting pass

  predicate IsTagDigit(c: char) { '1' <= c <= '6' }

  /** The tag alternation `(p|div|span|h[1-6])` at `q`, lower-cased, or `None`. */
  function TagNameAt(s: string, q: nat): (r: Option<string>)
    ensures r.Some? ==> AtCI(s, q, r.value) && r.value != []
  {
    if AtCI(s, q, "p") then Some("p")
    else if AtCI(s, q, "div") then Some("div")
    else if AtCI(s, q, "span") then Some("span")
    else if AtCI(s, q, "h") && q + 1 < |s| && IsTagDigit(s[q + 1]) then
      assert Lower(s[q..q + 2]) == "h" + [s[q + 1]];
      Some("h" + [s[q + 1]])
    else None
  }

  /** The last case-insensitive occurrence of `lit` starting in `[lo, x]` and ending by `hi`. */
  function LastOccurrenceCI(s: string, lo: nat, x: nat, hi: nat, lit: string): (r: Option<nat>)
    decreases x
    ensures r.Some? ==> lo <= r.value <= x && r.value + |lit| <= hi && AtCI(s, r.value, lit)
  {
    if x < lo then None
    else if x + |lit| <= hi && AtCI(s, x, lit) then Some(x)
    else if x == lo then None
    else LastOccurrenceCI(s, lo, x - 1, hi, lit)
  }

  /**
   `<(p|div|span|h[1-6])[^>]*>([^<]*)\[space\]([^<]*)<\/\1>` with the `i` flag: a text element
   whose text, up to the next `<`, holds `[space]` (the greedy group 2 runs to the last one) and
   whose next tag closes the same element.
   */
  function SpaceInElement(s: string, p: nat): Option<Hit> {
    if p < |s| && s[p] == '<' then
      match TagNameAt(s, p + 1)
      case None => None
      case Some(tag) =>
        var g := FindChar(s, p + 1 + |tag|, IsCloseAngleChar);
        if g < |s| then
          var t := FindChar(s, g + 1, IsOpenAngleChar);
          match LastOccurrenceCI(s, g + 1, t, t, "[space]")
          case None => None
          case Some(x) =>
            if AtCI(s, t, "</" + tag + ">") then
              Some(Hit(t + |tag| + 3, [s[p + 1..p + 1 + |tag|], s[g + 1..x], s[x + 7..t]]))
            else None
        else None
    else None
  }

  predicate IsCloseAngleChar(c: char) { c == '>' }
  predicate IsOpenAngleChar(c: char) { c == '<' }

  /**
   `/\[space\].*$/` (no flags) at `p`: a `[space]` in this exact case, followed by no line
   terminator up to the end of the text, matched through to the end.
   */
  function SpaceTailAt(s: string, p: nat): Option<Hit> {
    if OccursAt(s, "[space]", p) && forall k | p + 7 <= k < |s| :: !IsLineTerminator(s[k]) then Some(Hit(|s|, []))
    else None
  }

  /**
   The second pass's replacement callback. When the trimmed text before `[space]` is not blank,
   the matched text goes through a further `replace` that swaps its first line-final `[space]`
   tail for the trimmed text and a closing tag, with `$` patterns of that text expanded: the
   opening tag keeps its attributes and the untrimmed text before `[space]` stays in front of
   the trimmed copy. The spacer follows, then the trimmed text after `[space]` in a new element
   of the tag as captured (when not blank).
   */
  function SplitReplacement(matched: string, g: seq<string>): string {
    var tag := Group(g, 1);
    var before := Trim(Group(g, 2));
    var after := Trim(Group(g, 3));
    (if before != [] then ReplaceFirstWith(matched, SpaceTailAt, before + "</" + tag + ">") else [])
    + SpaceDiv
    + NewElement(tag, after)
  }

  /** A new element of `tag` holding `text`, or nothing when `text` is blank. */
  function NewElement(tag: string, text: string): string {
    if text != [] then "<" + tag + ">" + text + "</" + tag + ">" else []
  }

  /**
   What the callback would keep in front of the spacer: for a match `pre + "[space]" + post`
   with no `[` in `pre` and `post` on one line, everything before `[space]` (the opening tag
   with its attributes and the untrimmed text), the trimmed text again, and the closing tag.
   */
  lemma SplitRepeatsBefore(pre: string, post: string, g: seq<string>)
    requires Lacks(pre, '[')
    requires forall k | 0 <= k < |post| :: !IsLineTerminator(post[k])
    requires Trim(Group(g, 2)) != [] && Lacks(Trim(Group(g, 2)) + "</" + Group(g, 1) + ">", '$')
    ensures SplitReplacement(pre + "[space]" + post, g)
      == pre + (Trim(Group(g, 2)) + "</" + Group(g, 1) + ">") + SpaceDiv + NewElement(Group(g, 1), Trim(Group(g, 3)))
  {
    var kept := Trim(Group(g, 2)) + "</" + Group(g, 1) + ">";
    var m := pre + "[space]" + post;
    assert SplitReplacement(m, g) == ReplaceFirstWith(m, SpaceTailAt, kept) + SpaceDiv + NewElement(Group(g, 1), Trim(Group(g, 3)));
    TailReplaced(pre, post, kept);
  }

  /** The inner `replace` swaps the `[space]` tail of the match for `tmpl`. */
  lemma TailReplaced(pre: string, post: string, tmpl: string)
    requires Lacks(pre, '[') && Lacks(tmpl, '$')
    requires forall k | 0 <= k < |post| :: !IsLineTerminator(post[k])
    ensures ReplaceFirstWith(pre + "[space]" + post, SpaceTailAt, tmpl) == pre + tmpl
  {
    var m := pre + "[space]" + post;
    forall j | 0 <= j < |pre| ensures !ValidHit(m, j, SpaceTailAt(m, j)) {
      assert m[j] == pre[j];
    }
    assert m[|pre|..|pre| + 7] == "[space]";
    forall k | |pre| + 7 <= k < |m| ensures !IsLineTerminator(m[k]) {
      assert m[k] == post[k - |pre| - 7];
    }
    assert ValidHit(m, |pre|, SpaceTailAt(m, |pre|));
    FirstMatchIs(m, SpaceTailAt, 0, |pre|);
    var h := SpaceTailAt(m, |pre|).value;
    assert h == Hit(|m|, []);
    SubstituteLiteral(tmpl, m[|pre|..h.end], m[..|pre|], m[h.end..], h.groups);
    assert m[..|pre|] == pre && m[h.end..] == [];
  }

  /** `convertSpaceToMargin`. */
  function ConvertSpaceToMargin(html: string): string {
    var first := SpacePass(html);
    ReplaceAll(first, SpaceInElement, (s: string, at: nat, matched: string, g: seq<string>) => SplitReplacement(matched, g))
  }

  // ------------------------------------------------------------------ properties

  /** The output of a global replace whose every match becomes the same text `rep`. */
  function ConstOut(s: string, i: nat, m: Matcher, rep: string): string {
    Render(s, ScanFrom(s, i, m), (s: string, at: nat, matched: string, g: seq<string>) => rep)
  }

  lemma ConstOutStep(s: string, i: nat, m: Matcher, rep: string)
    requires i < |s|
    ensures ValidHit(s, i, m(s, i)) ==> ConstOut(s, i, m, rep) == rep + ConstOut(s, m(s, i).value.end, m, rep)
    ensures !ValidHit(s, i, m(s, i)) ==> ConstOut(s, i, m, rep) == [s[i]] + ConstOut(s, i + 1, m, rep)
  {
    var r := (s: string, at: nat, matched: string, g: seq<string>) => rep;
    var ps := ScanFrom(s, i, m);
    assert ps[1..] == ScanFrom(s, if ValidHit(s, i, m(s, i)) then m(s, i).value.end else i + 1, m);
  }

  /**
   A literal whose characters never match the replacement's first character can only be read at
   the front of the output where it was read in the input, over characters no match started at.
   */
  lemma {:induction false} PlainFront(s: string, i: nat, m: Matcher, rep: string, lit: string)
    requires i <= |s| && rep != []
    requires forall k :: 0 <= k < |lit| ==> lit[k] != LowerChar(rep[0])
    requires AtCI(ConstOut(s, i, m, rep), 0, lit)
    ensures AtCI(s, i, lit)
    decreases |lit|
  {
    var out := ConstOut(s, i, m, rep);
    if lit != [] {
      if i == |s| {
        assert false;
      }
      ConstOutStep(s, i, m, rep);
      AtCIChar(out, 0, lit, 0);
      if ValidHit(s, i, m(s, i)) {
        assert false;
      }
      var rest := ConstOut(s, i + 1, m, rep);
      AtCIBehindChar(s[i], rest, lit);
      PlainFront(s, i + 1, m, rep, lit[1..]);
      AtCIJoin(s, i, lit);
    }
  }

  /** An occurrence after one leading character is an occurrence of the literal's tail. */
  lemma AtCIBehindChar(c: char, rest: string, lit: string)
    requires lit != [] && AtCI([c] + rest, 0, lit)
    ensures AtCI(rest, 0, lit[1..])
  {
    var out := [c] + rest;
    AtCIPart(out, 0, lit, 1, |lit|);
    assert out[1..1 + |lit[1..]|] == rest[..|lit[1..]|];
  }

  /** An occurrence past a prefix is an occurrence in what follows it. */
  lemma AtCIPastPrefix(head: string, rest: string, x: int, lit: string)
    requires AtCI(head + rest, x, lit) && x >= |head|
    ensures AtCI(rest, x - |head|, lit)
  {
    assert (head + rest)[x..x + |lit|] == rest[x - |head|..x - |head| + |lit|];
  }

  /** A case-insensitive occurrence is its first character followed by an occurrence of the rest. */
  lemma AtCIJoin(s: string, i: nat, lit: string)
    requires lit != [] && i < |s| && LowerChar(s[i]) == lit[0] && AtCI(s, i + 1, lit[1..])
    ensures AtCI(s, i, lit)
  {
    var w := s[i..i + |lit|];
    assert w == [s[i]] + s[i + 1..i + 1 + |lit[1..]|];
    assert Lower(w) == [LowerChar(s[i])] + Lower(s[i + 1..i + 1 + |lit[1..]|]);
    assert lit == [lit[0]] + lit[1..];
  }

  /**
   When the pattern fires wherever `lit` occurs, and the replacement never offers `lit`'s first
   character, the output of the replace holds no `lit` at all.
   */
  lemma {:induction false} NoOccurrenceLeft(s: string, i: nat, m: Matcher, rep: string, lit: string)
    requires i <= |s| && rep != [] && lit != []
    requires forall k :: 0 <= k < |lit| ==> lit[k] != LowerChar(rep[0])
    requires forall k :: 0 <= k < |rep| ==> LowerChar(rep[k]) != lit[0]
    requires forall j :: i <= j < |s| && AtCI(s, j, lit) ==> ValidHit(s, j, m(s, j))
    ensures !ContainsCI(ConstOut(s, i, m, rep), lit)
    decreases |s| - i
  {
    var out := ConstOut(s, i, m, rep);
    if i < |s| {
      ConstOutStep(s, i, m, rep);
      var hit := ValidHit(s, i, m(s, i));
      var next := if hit then m(s, i).value.end else i + 1;
      var head := if hit then rep else [s[i]];
      var rest := ConstOut(s, next, m, rep);
      assert out == head + rest;
      NoOccurrenceLeft(s, next, m, rep, lit);
      forall x | 0 <= x <= |out| ensures !AtCI(out, x, lit) {
        if AtCI(out, x, lit) {
          OccurrenceOutside(s, i, m, rep, lit, head, rest, x);
        }
      }
    } else {
      assert out == [];
    }
  }

  /** The cases of `NoOccurrenceLeft`'s step: an occurrence in `head + rest` would be one in `rest`. */
  lemma OccurrenceOutside(s: string, i: nat, m: Matcher, rep: string, lit: string, head: string, rest: string, x: nat)
    requires i < |s| && rep != [] && lit != []
    requires forall k :: 0 <= k < |lit| ==> lit[k] != LowerChar(rep[0])
    requires forall k :: 0 <= k < |rep| ==> LowerChar(rep[k]) != lit[0]
    requires AtCI(s, i, lit) ==> ValidHit(s, i, m(s, i))
    requires head == (if ValidHit(s, i, m(s, i)) then rep else [s[i]])
    requires !ValidHit(s, i, m(s, i)) ==> rest == ConstOut(s, i + 1, m, rep)
    requires AtCI(head + rest, x, lit)
    ensures x >= |head| && AtCI(rest, x - |head|, lit)
  {
    var out := head + rest;
    AtCIChar(out, x, lit, 0);
    if x < |head| {
      if ValidHit(s, i, m(s, i)) {
        assert false;
      } else {
        assert x == 0;
        AtCIBehindChar(s[i], rest, lit);
        PlainFront(s, i + 1, m, rep, lit[1..]);
        AtCIJoin(s, i, lit);
        assert false;
      }
    }
    AtCIPastPrefix(head, rest, x, lit);
  }

  lemma SpaceDivFacts()
    ensures SpaceDiv != [] && LowerChar(SpaceDiv[0]) == '<'
    ensures forall k :: 0 <= k < |SpaceDiv| ==> LowerChar(SpaceDiv[k]) != '['
  {
    var a := "div style=\"margin: 15px 0; ";
    var b := "height: 15px; line-height: ";
    var c := "15px;\">&nbsp;</div>";
    assert Lacks("<", '[') && Lacks(a, '[') && Lacks(b, '[') && Lacks(c, '[');
    LacksAppend("<", a, '[');
    LacksAppend("<" + a, b, '[');
    LacksAppend("<" + a + b, c, '[');
  }

  /** After the first pass no `[space]`, in any case, is left. */
  lemma NoSpaceLeft(html: string)
    ensures !ContainsCI(SpacePass(html), "[space]")
  {
    SpaceDivFacts();
    NoOccurrenceLeft(html, 0, SpaceAt, SpaceDiv, "[space]");
  }

  /** Every match of the element-splitting pattern holds a `[space]`. */
  lemma SplitNeedsSpace(s: string, p: nat)
    requires ValidHit(s, p, SpaceInElement(s, p))
    ensures ContainsCI(s, "[space]")
  {
    var tag := TagNameAt(s, p + 1).value;
    var g := FindChar(s, p + 1 + |tag|, IsCloseAngleChar);
    var t := FindChar(s, g + 1, IsOpenAngleChar);
    var x := LastOccurrenceCI(s, g + 1, t, t, "[space]").value;
    ContainsCIAt(s, x, "[space]");
  }

  /** The second pass never fires: the conversion is the first pass alone. */
  lemma SecondPassInert(html: string)
    ensures ConvertSpaceToMargin(html) == SpacePass(html)
  {
    var first := SpacePass(html);
    NoSpaceLeft(html);
    forall j | 0 <= j < |first| ensures !ValidHit(first, j, SpaceInElement(first, j)) {
      if ValidHit(first, j, SpaceInElement(first, j)) {
        SplitNeedsSpace(first, j);
        assert false;
      }
    }
    ReplaceAllWithoutMatches(first, SpaceInElement, (s: string, at: nat, matched: string, g: seq<string>) => SplitReplacement(matched, g));
  }

  /** HTML without `[space]` comes through unchanged. */
  lemma NoDirectiveUnchanged(html: string)
    requires !ContainsCI(html, "[space]")
    ensures ConvertSpaceToMargin(html) == html
  {
    SecondPassInert(html);
    forall j | 0 <= j < |html| ensures !ValidHit(html, j, SpaceAt(html, j)) {
      if ValidHit(html, j, SpaceAt(html, j)) {
        ContainsCIAt(html, j, "[space]");
      }
    }
    ReplaceAllWithoutMatches(html, SpaceAt, (s: string, at: nat, matched: string, g: seq<string>) => SpaceDiv);
  }
}
