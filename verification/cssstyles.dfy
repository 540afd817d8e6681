/**
 The generator's inline styles: a style object built from base declarations, overridden
 by the element's formatting, completed with the font family and printed as
 `kebab-name: value` pairs joined by `"; "`.
 */
module CssStyles {
  import opened Base
  import opened Text
  import opened Document

  // ------------------------------------------------------------------ kebabCase

  predicate IsLowerOrDigit(c: char) { IsLowerLetter(c) || IsDigit(c) }

  /**
   `str.replace(/([a-z0-9])([A-Z])/g, "$1-$2")`: scanning left to right, a lower-case letter
   or digit followed by a capital gets a hyphen between them, and the scan resumes after
   the capital.
   */
  function HyphenateHumps(s: string): string
    decreases |s|
  {
    if |s| < 2 then s
    else if IsLowerOrDigit(s[0]) && IsUpper(s[1]) then [s[0], '-', s[1]] + HyphenateHumps(s[2..])
    else [s[0]] + HyphenateHumps(s[1..])
  }

  /** `kebabCase`: the hyphenation, then `toLowerCase`. */
  function KebabCase(s: string): (r: string)
    ensures forall i :: 0 <= i < |r| ==> !IsUpper(r[i])
  {
    Lower(HyphenateHumps(s))
  }

  predicate NoUpper(w: string) {
    forall i :: 0 <= i < |w| ==> !IsUpper(w[i])
  }

  /** The leading word of a camel-case name: no capitals, ending in a lower-case letter or digit. */
  predicate LowerWord(w: string) {
    w != [] && NoUpper(w) && IsLowerOrDigit(w[|w| - 1])
  }

  /** A later word: one capital, then a lower word. */
  predicate Hump(h: string) {
    |h| >= 2 && IsUpper(h[0]) && LowerWord(h[1..])
  }

  function Concat(hs: seq<string>): string {
    if hs == [] then [] else hs[0] + Concat(hs[1..])
  }

  /** Each word preceded by a hyphen. */
  function Hyphened(hs: seq<string>): string {
    if hs == [] then [] else "-" + hs[0] + Hyphened(hs[1..])
  }

  /** Characters that cannot end a hump leave the hyphenation of what follows alone. */
  lemma {:induction false} HyphenateNoUpperPrefix(x: string, y: string)
    requires NoUpper(x) && (y == [] || !IsUpper(y[0]))
    ensures HyphenateHumps(x + y) == x + HyphenateHumps(y)
    decreases |x|
  {
    if x == [] {
      assert x + y == y;
    } else {
      var s := x + y;
      SecondNotUpper(x, y);
      HyphenateFirstKept(s);
      assert s[1..] == x[1..] + y;
      HyphenateNoUpperPrefix(x[1..], y);
      assert x + HyphenateHumps(y) == [x[0]] + (x[1..] + HyphenateHumps(y));
    }
  }

  lemma SecondNotUpper(x: string, y: string)
    requires x != [] && NoUpper(x) && (y == [] || !IsUpper(y[0]))
    ensures (x + y)[0] == x[0] && (|x + y| < 2 || !IsUpper((x + y)[1]))
  {
    if |x| >= 2 {
      assert (x + y)[1] == x[1];
    } else if y != [] {
      assert (x + y)[1] == y[0];
    }
  }

  /** A character not followed by a capital is copied as it is. */
  lemma HyphenateFirstKept(s: string)
    requires s != [] && (|s| < 2 || !IsUpper(s[1]))
    ensures HyphenateHumps(s) == [s[0]] + HyphenateHumps(s[1..])
  {
    if |s| < 2 {
      assert s == [s[0]] && s[1..] == [];
    }
  }

  lemma HumpBoundary(c: char, u: char, rest: string)
    requires IsLowerOrDigit(c) && IsUpper(u)
    ensures HyphenateHumps([c, u] + rest) == [c, '-', u] + HyphenateHumps(rest)
  {
    var s := [c, u] + rest;
    assert s[0] == c && s[1] == u && s[2..] == rest;
  }

  /** A camel-case name: its words, joined by hyphens (before lower-casing). */
  lemma {:induction false} HyphenateCamel(head: string, humps: seq<string>)
    requires LowerWord(head)
    requires forall k :: 0 <= k < |humps| ==> Hump(humps[k])
    ensures HyphenateHumps(head + Concat(humps)) == head + Hyphened(humps)
    decreases |humps|
  {
    if humps == [] {
      HyphenateNoUpperPrefix(head, []);
      assert head + [] == head;
    } else {
      var h := humps[0];
      assert Hump(h);
      HyphenateCamel(h[1..], humps[1..]);
      CamelStep(head, h, Concat(humps[1..]), Hyphened(humps[1..]));
    }
  }

  /** One hump after a lower word: a hyphen goes in front of its capital. */
  lemma CamelStep(head: string, h: string, rest: string, done: string)
    requires LowerWord(head) && Hump(h)
    requires HyphenateHumps(h[1..] + rest) == h[1..] + done
    ensures HyphenateHumps(head + (h + rest)) == head + ("-" + h + done)
  {
    var x := head[..|head| - 1];
    var c := head[|head| - 1];
    assert NoUpper(x) by {
      forall i | 0 <= i < |x| ensures !IsUpper(x[i]) {
        assert x[i] == head[i];
      }
    }
    var tail := [c, h[0]] + (h[1..] + rest);
    CamelSplit(head, h, rest);
    HyphenateNoUpperPrefix(x, tail);
    HumpBoundary(c, h[0], h[1..] + rest);
    CamelJoin(head, h, done);
  }

  /** The input around the boundary: the head but its last character, then that character and the capital. */
  lemma CamelSplit(head: string, h: string, rest: string)
    requires head != [] && h != []
    ensures head + (h + rest) == head[..|head| - 1] + ([head[|head| - 1], h[0]] + (h[1..] + rest))
  {
    var x := head[..|head| - 1];
    var c := head[|head| - 1];
    assert h == [h[0]] + h[1..];
    assert head == x + [c];
    Regroup(x, [c], [h[0]], h[1..], rest);
  }

  lemma CamelJoin(head: string, h: string, done: string)
    requires head != [] && h != []
    ensures head[..|head| - 1] + ([head[|head| - 1], '-', h[0]] + (h[1..] + done)) == head + ("-" + h + done)
  {
    var x := head[..|head| - 1];
    var c := head[|head| - 1];
    assert head == x + [c];
    Regroup(x, [c], "-" + [h[0]], h[1..], done);
    assert ("-" + [h[0]]) + h[1..] == "-" + h;
  }

  lemma Regroup(x: string, a: string, b: string, c: string, d: string)
    ensures (x + a) + ((b + c) + d) == x + ((a + b) + (c + d))
  {
  }

  /** `kebabCase` of a camel-case property name is its words in lower case, joined by hyphens. */
  lemma KebabCaseCamel(head: string, humps: seq<string>)
    requires LowerWord(head)
    requires forall k :: 0 <= k < |humps| ==> Hump(humps[k])
    ensures KebabCase(head + Concat(humps)) == Lower(head + Hyphened(humps))
  {
    HyphenateCamel(head, humps);
  }

  /** A name without capitals is its own kebab case. */
  lemma KebabCaseLower(s: string)
    requires NoUpper(s)
    ensures KebabCase(s) == s
  {
    HyphenateNoUpperPrefix(s, []);
    assert s + [] == s;
    LowerFixed(s);
  }

  /** A two-word property such as `backgroundColor` becomes `background-color`. */
  lemma KebabTwoWords(head: string, hump: string)
    requires LowerWord(head) && Hump(hump)
    ensures KebabCase(head + hump) == head + "-" + Lower(hump)
  {
    var humps: seq<string> := [hump];
    assert humps[1..] == [];
    assert Concat(humps) == hump;
    assert Hyphened(humps) == "-" + hump;
    KebabCaseCamel(head, humps);
    assert head + Hyphened(humps) == (head + "-") + hump;
    LowerAppend(head + "-", hump);
    LowerAppend(head, "-");
    LowerFixed("-");
    LowerFixed(head);
  }

  // ------------------------------------------------------------------ the style object

  /** A style object: property names (camel case) and values, in insertion order. */
  type StyleEntries = seq<(string, string)>

  function Keys(m: StyleEntries): seq<string> {
    if m == [] then [] else [m[0].0] + Keys(m[1..])
  }

  predicate Distinct(ks: seq<string>) {
    forall i, j :: 0 <= i < j < |ks| ==> ks[i] != ks[j]
  }

  /** `styles[k]`, absent when the key was never set. */
  function Lookup(m: StyleEntries, k: string): Option<string> {
    if m == [] then None
    else if m[0].0 == k then Some(m[0].1)
    else Lookup(m[1..], k)
  }

  /**
   `styles[k] = v`: an existing property keeps its place and takes the new value; a new one
   goes at the end.
   */
  function Assign(m: StyleEntries, k: string, v: string): StyleEntries {
    if m == [] then [(k, v)]
    else if m[0].0 == k then [(k, v)] + m[1..]
    else [m[0]] + Assign(m[1..], k, v)
  }

  /** After `styles[k] = v`, reading `k` gives `v` and every other property reads as before. */
  lemma {:induction false} AssignLookup(m: StyleEntries, k: string, v: string, k2: string)
    ensures Lookup(Assign(m, k, v), k2) == if k2 == k then Some(v) else Lookup(m, k2)
    decreases |m|
  {
    if m != [] && m[0].0 != k {
      AssignLookup(m[1..], k, v, k2);
      assert ([m[0]] + Assign(m[1..], k, v))[1..] == Assign(m[1..], k, v);
    } else if m != [] {
      assert ([(k, v)] + m[1..])[1..] == m[1..];
    }
  }

  /** Assignment keeps the existing property order and appends only a new key. */
  lemma {:induction false} AssignKeys(m: StyleEntries, k: string, v: string)
    ensures Keys(Assign(m, k, v)) == if k in Keys(m) then Keys(m) else Keys(m) + [k]
    decreases |m|
  {
    if m == [] {
    } else if m[0].0 == k {
      assert ([(k, v)] + m[1..])[1..] == m[1..];
    } else {
      AssignKeys(m[1..], k, v);
      var r := [m[0]] + Assign(m[1..], k, v);
      assert r[1..] == Assign(m[1..], k, v);
      assert Keys(m) == [m[0].0] + Keys(m[1..]);
      assert k in Keys(m) <==> k in Keys(m[1..]);
      assert [m[0].0] + (Keys(m[1..]) + [k]) == [m[0].0] + Keys(m[1..]) + [k];
    }
  }

  lemma AssignKeepsDistinct(m: StyleEntries, k: string, v: string)
    requires Distinct(Keys(m))
    ensures Distinct(Keys(Assign(m, k, v)))
  {
    AssignKeys(m, k, v);
  }

  /** `if (c) styles[k] = v`. */
  function AssignIf(c: bool, m: StyleEntries, k: string, v: string): StyleEntries {
    if c then Assign(m, k, v) else m
  }

  lemma AssignIfLookup(c: bool, m: StyleEntries, k: string, v: string, k2: string)
    ensures Lookup(AssignIf(c, m, k, v), k2) == if c && k2 == k then Some(v) else Lookup(m, k2)
  {
    if c {
      AssignLookup(m, k, v, k2);
    }
  }

  /**
   The formatting fields in the order `generateInlineStyles` applies them: bold, italic,
   underline, font size, colour, background colour, alignment.
   */
  function Formatted(f: Formatting, base: StyleEntries): StyleEntries {
    var s1 := AssignIf(f.bold, base, "fontWeight", "bold !important");
    var s2 := AssignIf(f.italic, s1, "fontStyle", "italic");
    var s3 := AssignIf(f.underline, s2, "textDecoration", "underline");
    var s4 := AssignIf(NumberTruthy(f.fontSize), s3, "fontSize", f.fontSize.OrElse([]) + "px");
    var s5 := AssignIf(Truthy(f.color), s4, "color", f.color.OrElse([]));
    var s6 := AssignIf(Truthy(f.backgroundColor), s5, "backgroundColor", f.backgroundColor.OrElse([]));
    AssignIf(Truthy(f.alignment), s6, "textAlign", f.alignment.OrElse([]))
  }

  /** `generateInlineStyles`' object: the formatted base, then the font family if none is set. */
  function StyleObject(f: Formatting, base: StyleEntries, family: string): StyleEntries {
    var s := Formatted(f, base);
    AssignIf(!Truthy(Lookup(s, "fontFamily")), s, "fontFamily", family)
  }

  function Declaration(e: (string, string)): string {
    KebabCase(e.0) + ": " + e.1
  }

  /** `Object.entries(styles).map(([k, v]) => `${kebabCase(k)}: ${v}`).join("; ")`. */
  function StyleText(m: StyleEntries): string {
    Join(seq(|m|, i requires 0 <= i < |m| => Declaration(m[i])), "; ")
  }

  function InlineStyles(f: Formatting, base: StyleEntries, family: string): string {
    StyleText(StyleObject(f, base, family))
  }

  /** The value a formatting field imposes on a property, if any. */
  function Override(f: Formatting, key: string): Option<string> {
    if key == "fontWeight" && f.bold then Some("bold !important")
    else if key == "fontStyle" && f.italic then Some("italic")
    else if key == "textDecoration" && f.underline then Some("underline")
    else if key == "fontSize" && NumberTruthy(f.fontSize) then Some(f.fontSize.value + "px")
    else if key == "color" && Truthy(f.color) then f.color
    else if key == "backgroundColor" && Truthy(f.backgroundColor) then f.backgroundColor
    else if key == "textAlign" && Truthy(f.alignment) then f.alignment
    else None
  }

  /** Formatting overrides the base by key: each property reads its formatting value if any, else the base's. */
  lemma FormattedLookup(f: Formatting, base: StyleEntries, key: string)
    ensures Lookup(Formatted(f, base), key) == if Override(f, key).Some? then Override(f, key) else Lookup(base, key)
  {
    var s1 := AssignIf(f.bold, base, "fontWeight", "bold !important");
    AssignIfLookup(f.bold, base, "fontWeight", "bold !important", key);
    var s2 := AssignIf(f.italic, s1, "fontStyle", "italic");
    AssignIfLookup(f.italic, s1, "fontStyle", "italic", key);
    var s3 := AssignIf(f.underline, s2, "textDecoration", "underline");
    AssignIfLookup(f.underline, s2, "textDecoration", "underline", key);
    var s4 := AssignIf(NumberTruthy(f.fontSize), s3, "fontSize", f.fontSize.OrElse([]) + "px");
    AssignIfLookup(NumberTruthy(f.fontSize), s3, "fontSize", f.fontSize.OrElse([]) + "px", key);
    var s5 := AssignIf(Truthy(f.color), s4, "color", f.color.OrElse([]));
    AssignIfLookup(Truthy(f.color), s4, "color", f.color.OrElse([]), key);
    var s6 := AssignIf(Truthy(f.backgroundColor), s5, "backgroundColor", f.backgroundColor.OrElse([]));
    AssignIfLookup(Truthy(f.backgroundColor), s5, "backgroundColor", f.backgroundColor.OrElse([]), key);
    AssignIfLookup(Truthy(f.alignment), s6, "textAlign", f.alignment.OrElse([]), key);
  }

  /**
   Every property of the finished style object reads its formatting value if the element
   sets one, else the base value; the font family is the base's if set, else the default.
   */
  lemma StyleObjectLookup(f: Formatting, base: StyleEntries, family: string, key: string)
    ensures var r := StyleObject(f, base, family);
      key != "fontFamily" ==>
        Lookup(r, key) == if Override(f, key).Some? then Override(f, key) else Lookup(base, key)
    ensures var r := StyleObject(f, base, family);
      Lookup(r, "fontFamily") == if Truthy(Lookup(base, "fontFamily")) then Lookup(base, "fontFamily") else Some(family)
  {
    var s := Formatted(f, base);
    FormattedLookup(f, base, key);
    FormattedLookup(f, base, "fontFamily");
    AssignIfLookup(!Truthy(Lookup(s, "fontFamily")), s, "fontFamily", family, key);
    AssignIfLookup(!Truthy(Lookup(s, "fontFamily")), s, "fontFamily", family, "fontFamily");
  }

  predicate IsPrefix(a: seq<string>, b: seq<string>) {
    |a| <= |b| && b[..|a|] == a
  }

  lemma AssignIfExtends(c: bool, m: StyleEntries, k: string, v: string)
    requires Distinct(Keys(m))
    ensures Distinct(Keys(AssignIf(c, m, k, v)))
    ensures IsPrefix(Keys(m), Keys(AssignIf(c, m, k, v)))
  {
    if c {
      AssignKeepsDistinct(m, k, v);
      AssignKeys(m, k, v);
    }
  }

  lemma IsPrefixTrans(a: seq<string>, b: seq<string>, c: seq<string>)
    requires IsPrefix(a, b) && IsPrefix(b, c)
    ensures IsPrefix(a, c)
  {
    assert c[..|a|] == c[..|b|][..|a|];
  }

  lemma FormattedShape(f: Formatting, base: StyleEntries)
    requires Distinct(Keys(base))
    ensures Distinct(Keys(Formatted(f, base))) && IsPrefix(Keys(base), Keys(Formatted(f, base)))
  {
    var s1 := AssignIf(f.bold, base, "fontWeight", "bold !important");
    AssignIfExtends(f.bold, base, "fontWeight", "bold !important");
    var s2 := AssignIf(f.italic, s1, "fontStyle", "italic");
    AssignIfExtends(f.italic, s1, "fontStyle", "italic");
    IsPrefixTrans(Keys(base), Keys(s1), Keys(s2));
    var s3 := AssignIf(f.underline, s2, "textDecoration", "underline");
    AssignIfExtends(f.underline, s2, "textDecoration", "underline");
    IsPrefixTrans(Keys(base), Keys(s2), Keys(s3));
    var s4 := AssignIf(NumberTruthy(f.fontSize), s3, "fontSize", f.fontSize.OrElse([]) + "px");
    AssignIfExtends(NumberTruthy(f.fontSize), s3, "fontSize", f.fontSize.OrElse([]) + "px");
    IsPrefixTrans(Keys(base), Keys(s3), Keys(s4));
    var s5 := AssignIf(Truthy(f.color), s4, "color", f.color.OrElse([]));
    AssignIfExtends(Truthy(f.color), s4, "color", f.color.OrElse([]));
    IsPrefixTrans(Keys(base), Keys(s4), Keys(s5));
    var s6 := AssignIf(Truthy(f.backgroundColor), s5, "backgroundColor", f.backgroundColor.OrElse([]));
    AssignIfExtends(Truthy(f.backgroundColor), s5, "backgroundColor", f.backgroundColor.OrElse([]));
    IsPrefixTrans(Keys(base), Keys(s5), Keys(s6));
    AssignIfExtends(Truthy(f.alignment), s6, "textAlign", f.alignment.OrElse([]));
    IsPrefixTrans(Keys(base), Keys(s6), Keys(Formatted(f, base)));
  }

  lemma {:induction false} LookupSomeIn(m: StyleEntries, k: string)
    ensures Lookup(m, k).Some? <==> k in Keys(m)
    decreases |m|
  {
    if m != [] {
      LookupSomeIn(m[1..], k);
    }
  }

  lemma {:induction false} KeysIndex(m: StyleEntries)
    ensures |Keys(m)| == |m|
    ensures forall i :: 0 <= i < |m| ==> Keys(m)[i] == m[i].0
    decreases |m|
  {
    if m != [] {
      KeysIndex(m[1..]);
      assert forall i :: 1 <= i < |m| ==> m[1..][i - 1] == m[i];
    }
  }

  /** With distinct property names, each entry's own name reads its own value. */
  lemma {:induction false} LookupAt(m: StyleEntries, i: nat)
    requires Distinct(Keys(m)) && i < |m|
    ensures Lookup(m, m[i].0) == Some(m[i].1)
    decreases |m|
  {
    KeysIndex(m);
    if i > 0 {
      KeysIndex(m[1..]);
      assert m[0].0 != m[i].0 by {
        assert Keys(m)[0] != Keys(m)[i];
      }
      assert Distinct(Keys(m[1..])) by {
        forall a, b | 0 <= a < b < |m| - 1 ensures Keys(m[1..])[a] != Keys(m[1..])[b] {
          assert Keys(m[1..])[a] == Keys(m)[a + 1] && Keys(m[1..])[b] == Keys(m)[b + 1];
        }
      }
      LookupAt(m[1..], i - 1);
      assert m[1..][i - 1] == m[i];
    }
  }

  /**
   The style object keeps the base declarations first and in order, never repeats a
   property, and always has a font family.
   */
  lemma StyleObjectShape(f: Formatting, base: StyleEntries, family: string)
    requires Distinct(Keys(base))
    ensures var r := StyleObject(f, base, family);
      Distinct(Keys(r)) && IsPrefix(Keys(base), Keys(r)) && "fontFamily" in Keys(r)
  {
    var s := Formatted(f, base);
    FormattedShape(f, base);
    var c := !Truthy(Lookup(s, "fontFamily"));
    AssignIfExtends(c, s, "fontFamily", family);
    IsPrefixTrans(Keys(base), Keys(s), Keys(AssignIf(c, s, "fontFamily", family)));
    AssignIfLookup(c, s, "fontFamily", family, "fontFamily");
    LookupSomeIn(AssignIf(c, s, "fontFamily", family), "fontFamily");
  }
}
