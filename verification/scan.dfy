/**
 The machinery shared by every hand-written regular expression of the converter.

 A `Matcher` answers one question about a pattern: does its leftmost-first (backtracking)
 match starting exactly at index `i` exist, and where does it end? A global
 `String.prototype.replace` or an `exec` loop then tries the indices in increasing order,
 jumping past each match: `ScanFrom` records that walk as a partition of the input into
 unmatched characters and matched pieces.
 */
module Scan {
  import opened Base
  import opened Text

  /** A match found at some start index: its end (exclusive) and its capture groups, group 1 first. */
  datatype Hit = Hit(end: nat, groups: seq<string>)

  type Matcher = (string, nat) -> Option<Hit>

  /** A replacement callback: the whole input, the match start, the matched text and the groups. */
  type Replacer = (string, nat, string, seq<string>) -> string

  /** Capture group `n` (1-based) of a match, `""` when the pattern has fewer groups. */
  function Group(groups: seq<string>, n: nat): string {
    if 1 <= n <= |groups| then groups[n - 1] else []
  }

  /** One step of a global scan: a character no match starts at, or a match. */
  datatype Piece = Plain(c: char) | Matched(start: nat, text: string, groups: seq<string>)

  predicate ValidHit(s: string, i: nat, h: Option<Hit>) {
    h.Some? && i < h.value.end <= |s|
  }

  function ScanFrom(s: string, i: nat, m: Matcher): seq<Piece>
    decreases |s| - i
  {
    if i >= |s| then []
    else if ValidHit(s, i, m(s, i)) then
      [Matched(i, s[i..m(s, i).value.end], m(s, i).value.groups)] + ScanFrom(s, m(s, i).value.end, m)
    else [Plain(s[i])] + ScanFrom(s, i + 1, m)
  }

  function PieceText(p: Piece): string {
    match p
    case Plain(c) => [c]
    case Matched(_, t, _) => t
  }

  function Texts(ps: seq<Piece>): string {
    if ps == [] then [] else PieceText(ps[0]) + Texts(ps[1..])
  }

  lemma TextsAppend(a: seq<Piece>, b: seq<Piece>)
    ensures Texts(a + b) == Texts(a) + Texts(b)
  {
    if a != [] {
      assert (a + b)[1..] == a[1..] + b;
      TextsAppend(a[1..], b);
    } else {
      assert a + b == b;
    }
  }

  lemma TextsCons(p: Piece, rest: seq<Piece>)
    ensures Texts([p] + rest) == PieceText(p) + Texts(rest)
  {
    assert ([p] + rest)[1..] == rest;
  }

  /** The scan partitions the input: its pieces spell the scanned suffix back. */
  lemma {:induction false} ScanCovers(s: string, i: nat, m: Matcher)
    requires i <= |s|
    ensures Texts(ScanFrom(s, i, m)) == s[i..]
    decreases |s| - i
  {
    if i < |s| {
      if ValidHit(s, i, m(s, i)) {
        var e := m(s, i).value.end;
        ScanCovers(s, e, m);
        ScanMatchedStep(s, i, m);
      } else {
        ScanCovers(s, i + 1, m);
        ScanPlainStep(s, i, m);
      }
    }
  }

  lemma ScanMatchedStep(s: string, i: nat, m: Matcher)
    requires i < |s| && ValidHit(s, i, m(s, i))
    ensures Texts(ScanFrom(s, i, m)) == s[i..m(s, i).value.end] + Texts(ScanFrom(s, m(s, i).value.end, m))
  {
    var e := m(s, i).value.end;
    TextsCons(Matched(i, s[i..e], m(s, i).value.groups), ScanFrom(s, e, m));
  }

  lemma ScanPlainStep(s: string, i: nat, m: Matcher)
    requires i < |s| && !ValidHit(s, i, m(s, i))
    ensures Texts(ScanFrom(s, i, m)) == [s[i]] + Texts(ScanFrom(s, i + 1, m))
  {
    TextsCons(Plain(s[i]), ScanFrom(s, i + 1, m));
  }

  /** Every matched piece is the matcher's own answer at its start, and no match starts at a plain character. */
  predicate Faithful(s: string, m: Matcher, ps: seq<Piece>, from: nat) {
    forall k :: 0 <= k < |ps| ==>
      match ps[k]
      case Plain(_) => true
      case Matched(st, t, g) =>
        from <= st && ValidHit(s, st, m(s, st)) && t == s[st..m(s, st).value.end] && g == m(s, st).value.groups
  }

  lemma {:induction false} ScanFaithful(s: string, i: nat, m: Matcher)
    ensures Faithful(s, m, ScanFrom(s, i, m), i)
    decreases |s| - i
  {
    if i < |s| {
      if ValidHit(s, i, m(s, i)) {
        ScanFaithful(s, m(s, i).value.end, m);
      } else {
        ScanFaithful(s, i + 1, m);
      }
    }
  }

  function Render(s: string, ps: seq<Piece>, r: Replacer): string {
    if ps == [] then []
    else
      var head := match ps[0]
        case Plain(c) => [c]
        case Matched(st, t, g) => r(s, st, t, g);
      head + Render(s, ps[1..], r)
  }

  /** `s.replace(re, r)` for a global `re`: every match, left to right and non-overlapping, replaced. */
  function ReplaceAll(s: string, m: Matcher, r: Replacer): string {
    Render(s, ScanFrom(s, 0, m), r)
  }

  /** A scan that is one match renders as that match's replacement. */
  lemma RenderSingle(s: string, p: Piece, r: Replacer)
    requires p.Matched?
    ensures Render(s, [p], r) == r(s, p.start, p.text, p.groups)
  {
    assert [p][1..] == [];
  }

  /** A scan that found no match spells the input unchanged. */
  lemma {:induction false} RenderPlain(s: string, ps: seq<Piece>, r: Replacer)
    requires forall k :: 0 <= k < |ps| ==> ps[k].Plain?
    ensures Render(s, ps, r) == Texts(ps)
  {
    if ps != [] {
      RenderPlain(s, ps[1..], r);
    }
  }

  lemma {:induction false} ScanWithoutMatches(s: string, i: nat, m: Matcher)
    requires forall j :: i <= j < |s| ==> !ValidHit(s, j, m(s, j))
    ensures forall k :: 0 <= k < |ScanFrom(s, i, m)| ==> ScanFrom(s, i, m)[k].Plain?
    decreases |s| - i
  {
    if i < |s| {
      ScanWithoutMatches(s, i + 1, m);
    }
  }

  /** A pattern that matches nowhere leaves the input unchanged. */
  lemma ReplaceAllWithoutMatches(s: string, m: Matcher, r: Replacer)
    requires forall j :: 0 <= j < |s| ==> !ValidHit(s, j, m(s, j))
    ensures ReplaceAll(s, m, r) == s
  {
    ScanWithoutMatches(s, 0, m);
    RenderPlain(s, ScanFrom(s, 0, m), r);
    ScanCovers(s, 0, m);
  }

  /** A match at the very front and none after it: only that match is replaced. */
  lemma ReplaceAllLeading(s: string, m: Matcher, r: Replacer)
    requires ValidHit(s, 0, m(s, 0))
    requires forall j :: m(s, 0).value.end <= j < |s| ==> !ValidHit(s, j, m(s, j))
    ensures ReplaceAll(s, m, r) == r(s, 0, s[..m(s, 0).value.end], m(s, 0).value.groups) + s[m(s, 0).value.end..]
  {
    var e := m(s, 0).value.end;
    ScanWithoutMatches(s, e, m);
    RenderPlain(s, ScanFrom(s, e, m), r);
    ScanCovers(s, e, m);
    var ps := ScanFrom(s, 0, m);
    assert ps[1..] == ScanFrom(s, e, m);
    assert s[0..e] == s[..e];
  }

  /** Where a non-global search (`s.match(re)`, `re.exec(s)`) finds its match. */
  function FirstMatchFrom(s: string, i: nat, m: Matcher): (r: Option<nat>)
    decreases |s| - i
    ensures r.Some? ==> i <= r.value < |s| && ValidHit(s, r.value, m(s, r.value))
    ensures r.Some? ==> forall j :: i <= j < r.value ==> !ValidHit(s, j, m(s, j))
    ensures r.None? ==> forall j :: i <= j < |s| ==> !ValidHit(s, j, m(s, j))
  {
    if i >= |s| then None
    else if ValidHit(s, i, m(s, i)) then Some(i)
    else FirstMatchFrom(s, i + 1, m)
  }

  lemma FirstMatchAtStart(s: string, m: Matcher)
    requires ValidHit(s, 0, m(s, 0))
    ensures FirstMatchFrom(s, 0, m) == Some(0)
  {
  }

  /** The groups of the first match, as `s.match(re)` returns them, or `None` for `null`. */
  function FirstGroups(s: string, m: Matcher): Option<seq<string>> {
    match FirstMatchFrom(s, 0, m)
    case Some(i) => Some(m(s, i).value.groups)
    case None => None
  }

  /** `s.replace(re, r)` for a non-global `re`: only the first match is replaced. */
  function ReplaceFirstMatch(s: string, m: Matcher, r: Replacer): string {
    match FirstMatchFrom(s, 0, m)
    case Some(i) =>
      var e := m(s, i).value.end;
      s[..i] + r(s, i, s[i..e], m(s, i).value.groups) + s[e..]
    case None => s
  }

  // ------------------------------------------------------- replacement templates

  /**
   GetSubstitution: how `replace` expands a replacement STRING: `$$`, `$&`, `` $` ``, `$'`,
   and `$n`/`$nn` for a capture group (a two-digit index beyond the groups falls back to one
   digit; an index with no group stays literal).
   */
  function Substitute(tmpl: string, matched: string, before: string, after: string, groups: seq<string>): string
    decreases |tmpl|
  {
    if tmpl == [] then []
    else if tmpl[0] != '$' || |tmpl| == 1 then [tmpl[0]] + Substitute(tmpl[1..], matched, before, after, groups)
    else
      var c := tmpl[1];
      if c == '$' then "$" + Substitute(tmpl[2..], matched, before, after, groups)
      else if c == '&' then matched + Substitute(tmpl[2..], matched, before, after, groups)
      else if c == '`' then before + Substitute(tmpl[2..], matched, before, after, groups)
      else if c == '\'' then after + Substitute(tmpl[2..], matched, before, after, groups)
      else if IsDigit(c) then
        var one := c as int - '0' as int;
        var two := if |tmpl| >= 3 && IsDigit(tmpl[2]) then one * 10 + (tmpl[2] as int - '0' as int) else -1;
        if two >= 0 && two <= |groups| && 1 <= two then
          groups[two - 1] + Substitute(tmpl[3..], matched, before, after, groups)
        else if two >= 0 && two <= |groups| then
          tmpl[..3] + Substitute(tmpl[3..], matched, before, after, groups)
        else if 1 <= one <= |groups| then
          groups[one - 1] + Substitute(tmpl[2..], matched, before, after, groups)
        else tmpl[..2] + Substitute(tmpl[2..], matched, before, after, groups)
      else [tmpl[0]] + Substitute(tmpl[1..], matched, before, after, groups)
  }

  /** A replacement string without `$` is inserted verbatim. */
  lemma {:induction false} SubstituteLiteral(tmpl: string, matched: string, before: string, after: string, groups: seq<string>)
    requires forall i :: 0 <= i < |tmpl| ==> tmpl[i] != '$'
    ensures Substitute(tmpl, matched, before, after, groups) == tmpl
    decreases |tmpl|
  {
    if tmpl != [] {
      SubstituteLiteral(tmpl[1..], matched, before, after, groups);
    }
  }

  /** The first match of `m` replaced by the replacement STRING `tmpl`, with `$` patterns expanded. */
  function ReplaceFirstWith(s: string, m: Matcher, tmpl: string): string {
    match FirstMatchFrom(s, 0, m)
    case Some(i) =>
      var e := m(s, i).value.end;
      s[..i] + Substitute(tmpl, s[i..e], s[..i], s[e..], m(s, i).value.groups) + s[e..]
    case None => s
  }

  /** `s.replace(p, tmpl)` with a string pattern: the first occurrence, `$` patterns expanded (no groups). */
  function ReplaceFirstLiteral(s: string, p: string, tmpl: string): string {
    match IndexOf(s, p)
    case Some(i) => s[..i] + Substitute(tmpl, p, s[..i], s[i + |p|..], []) + s[i + |p|..]
    case None => s
  }

  /** A `$`-free head of a replacement string is copied as it is. */
  lemma {:induction false} SubstituteLiteralPrefix(a: string, b: string, matched: string, before: string, after: string, groups: seq<string>)
    requires Lacks(a, '$')
    ensures Substitute(a + b, matched, before, after, groups) == a + Substitute(b, matched, before, after, groups)
    decreases |a|
  {
    if a != [] {
      assert (a + b)[0] == a[0] != '$';
      assert (a + b)[1..] == a[1..] + b;
      SubstituteLiteralPrefix(a[1..], b, matched, before, after, groups);
      assert a == [a[0]] + a[1..];
    } else {
      assert a + b == b;
    }
  }

  /** A first-match replacement leaves alone a prefix no match starts in. */
  lemma ReplaceFirstWithKeepsPrefix(s: string, m: Matcher, tmpl: string, k: nat)
    requires k <= |s|
    requires forall j :: 0 <= j < k ==> !ValidHit(s, j, m(s, j))
    ensures |ReplaceFirstWith(s, m, tmpl)| >= k && ReplaceFirstWith(s, m, tmpl)[..k] == s[..k]
  {
    match FirstMatchFrom(s, 0, m)
    case Some(i) =>
      assert i >= k;
      var e := m(s, i).value.end;
      var r := ReplaceFirstWith(s, m, tmpl);
      assert r == s[..i] + Substitute(tmpl, s[i..e], s[..i], s[e..], m(s, i).value.groups) + s[e..];
      assert r[..k] == s[..i][..k];
    case None =>
  }

  /** A `$`-free replacement string replaces the first match verbatim. */
  lemma ReplaceFirstWithVerbatim(s: string, m: Matcher, tmpl: string, i: nat)
    requires Lacks(tmpl, '$') && FirstMatchFrom(s, 0, m) == Some(i)
    ensures ReplaceFirstWith(s, m, tmpl) == s[..i] + tmpl + s[m(s, i).value.end..]
  {
    var e := m(s, i).value.end;
    SubstituteLiteral(tmpl, s[i..e], s[..i], s[e..], m(s, i).value.groups);
  }

  /** An input that is one whole match is replaced as a whole. */
  lemma ReplaceAllWhole(s: string, m: Matcher, r: Replacer, g: seq<string>)
    requires s != [] && m(s, 0) == Some(Hit(|s|, g))
    ensures ReplaceAll(s, m, r) == r(s, 0, s, g)
  {
    ReplaceAllLeading(s, m, r);
    assert s[..|s|] == s && s[|s|..] == [];
  }

  /** The first match from `i` is the first index at which the matcher fires. */
  lemma {:induction false} FirstMatchIs(s: string, m: Matcher, i: nat, k: nat)
    requires i <= k && ValidHit(s, k, m(s, k))
    requires forall j :: i <= j < k ==> !ValidHit(s, j, m(s, j))
    ensures FirstMatchFrom(s, i, m) == Some(k)
    decreases k - i
  {
    if i < k {
      FirstMatchIs(s, m, i + 1, k);
    }
  }
  /**
   One match of the whole piece `t` between `pre` and `post`, with no other match starting in
   `pre` or in `post`: the replace rewrites `t` alone and keeps both sides.
   */
  /** `m` finds no match in `pre + t + post` except, perhaps, one starting inside `t`. */
  predicate NoMatchOutside(pre: string, t: string, post: string, m: Matcher) {
    forall j :: 0 <= j < |pre + t + post| && (j < |pre| || |pre| + |t| <= j) ==> m(pre + t + post, j).None?
  }

  /** `ReplaceAllAround` for a matcher that finds nothing at all outside `t`. */
  lemma ReplaceAllAroundNone(pre: string, t: string, post: string, m: Matcher, r: Replacer, g: seq<string>)
    requires t != [] && m(pre + t + post, |pre|) == Some(Hit(|pre| + |t|, g))
    requires NoMatchOutside(pre, t, post, m)
    ensures ReplaceAll(pre + t + post, m, r) == pre + r(pre + t + post, |pre|, t, g) + post
  {
    ReplaceAllAround(pre, t, post, m, r, g);
  }

  lemma ReplaceAllAround(pre: string, t: string, post: string, m: Matcher, r: Replacer, g: seq<string>)
    requires t != [] && m(pre + t + post, |pre|) == Some(Hit(|pre| + |t|, g))
    requires forall j :: 0 <= j < |pre| ==> !ValidHit(pre + t + post, j, m(pre + t + post, j))
    requires forall j :: |pre| + |t| <= j < |pre + t + post| ==> !ValidHit(pre + t + post, j, m(pre + t + post, j))
    ensures ReplaceAll(pre + t + post, m, r) == pre + r(pre + t + post, |pre|, t, g) + post
  {
    var s := pre + t + post;
    ReplaceAllOnly(s, m, r, |pre|);
    assert s[..|pre|] == pre && s[|pre|..|pre| + |t|] == t && s[|pre| + |t|..] == post;
  }

  /** A replacement string without `$` patterns: every match becomes the same text. */
  function Fixed(c: string): Replacer {
    (s, i, t, g) => c
  }

  lemma {:induction false} RenderFixedShows(s: string, i: nat, m: Matcher, c: string, j: nat)
    requires i <= j < |s| && ValidHit(s, j, m(s, j))
    ensures Contains(Render(s, ScanFrom(s, i, m), Fixed(c)), c)
    decreases |s| - i
  {
    var ps := ScanFrom(s, i, m);
    if ValidHit(s, i, m(s, i)) {
      var rest := ScanFrom(s, m(s, i).value.end, m);
      assert ps[1..] == rest;
      assert Render(s, ps, Fixed(c)) == c + Render(s, rest, Fixed(c));
      assert OccursAt(Render(s, ps, Fixed(c)), c, 0);
    } else {
      var rest := ScanFrom(s, i + 1, m);
      assert ps[1..] == rest;
      RenderFixedShows(s, i + 1, m, c, j);
      var tail := Render(s, rest, Fixed(c));
      assert Render(s, ps, Fixed(c)) == [s[i]] + tail;
      var k :| 0 <= k <= |tail| && OccursAt(tail, c, k);
      assert ([s[i]] + tail)[k + 1..k + 1 + |c|] == tail[k..k + |c|];
      assert OccursAt([s[i]] + tail, c, k + 1);
    }
  }

  /** A global replace by a fixed string that finds any match shows that string. */
  lemma ReplaceAllFixedShows(s: string, m: Matcher, c: string, j: nat)
    requires j < |s| && ValidHit(s, j, m(s, j))
    ensures Contains(ReplaceAll(s, m, Fixed(c)), c)
  {
    RenderFixedShows(s, 0, m, c, j);
  }

  lemma {:induction false} RenderUpToTrailing(s: string, i: nat, m: Matcher, r: Replacer, k: nat)
    requires i <= k < |s| && ValidHit(s, k, m(s, k)) && m(s, k).value.end == |s|
    requires forall j :: i <= j < k ==> !ValidHit(s, j, m(s, j))
    ensures Render(s, ScanFrom(s, i, m), r) == s[i..k] + r(s, k, s[k..], m(s, k).value.groups)
    decreases k - i
  {
    var ps := ScanFrom(s, i, m);
    if i == k {
      assert ScanFrom(s, |s|, m) == [];
      assert s[k..m(s, k).value.end] == s[k..];
      assert ps == [Matched(k, s[k..], m(s, k).value.groups)];
      RenderSingle(s, ps[0], r);
    } else {
      RenderUpToTrailing(s, i + 1, m, r, k);
      assert ps[1..] == ScanFrom(s, i + 1, m);
      assert s[i..k] == [s[i]] + s[i + 1..k];
    }
  }

  /** The only match runs to the end of the input: everything before it is kept. */
  lemma ReplaceAllTrailing(s: string, m: Matcher, r: Replacer, k: nat)
    requires k < |s| && ValidHit(s, k, m(s, k)) && m(s, k).value.end == |s|
    requires forall j :: 0 <= j < k ==> !ValidHit(s, j, m(s, j))
    ensures ReplaceAll(s, m, r) == s[..k] + r(s, k, s[k..], m(s, k).value.groups)
  {
    RenderUpToTrailing(s, 0, m, r, k);
    assert s[0..k] == s[..k];
  }

  /** A replacer that gives every match back as it is makes the whole replace the identity. */
  lemma {:induction false} RenderKeeps(s: string, i: nat, m: Matcher, r: Replacer)
    requires i <= |s|
    requires forall st, t, g :: r(s, st, t, g) == t
    ensures Render(s, ScanFrom(s, i, m), r) == s[i..]
    decreases |s| - i
  {
    if i < |s| {
      var ps := ScanFrom(s, i, m);
      if ValidHit(s, i, m(s, i)) {
        var e := m(s, i).value.end;
        RenderKeeps(s, e, m, r);
        assert ps[1..] == ScanFrom(s, e, m);
        assert s[i..] == s[i..e] + s[e..];
      } else {
        RenderKeeps(s, i + 1, m, r);
        assert ps[1..] == ScanFrom(s, i + 1, m);
        assert s[i..] == [s[i]] + s[i + 1..];
      }
    }
  }

  lemma ReplaceAllKeeps(s: string, m: Matcher, r: Replacer)
    requires forall st, t, g :: r(s, st, t, g) == t
    ensures ReplaceAll(s, m, r) == s
  {
    RenderKeeps(s, 0, m, r);
  }

  /** How many of the pieces are matches. */
  function MatchCount(ps: seq<Piece>): nat {
    if ps == [] then 0 else (if ps[0].Matched? then 1 else 0) + MatchCount(ps[1..])
  }

  /** A replacer that puts `d` in front of every match lengthens the text by `|d|` per match. */
  lemma {:induction false} RenderPrefixedLength(s: string, ps: seq<Piece>, r: Replacer, d: string)
    requires forall st, t, g :: r(s, st, t, g) == d + t
    ensures |Render(s, ps, r)| == |Texts(ps)| + |d| * MatchCount(ps)
  {
    if ps != [] {
      RenderPrefixedLength(s, ps[1..], r, d);
      PrefixedStep(s, ps, r, d);
      var n := MatchCount(ps[1..]);
      if ps[0].Matched? {
        MulStep(|d|, n);
        assert |d| * MatchCount(ps) == |d| + |d| * n;
      } else {
        assert |d| * MatchCount(ps) == |d| * n;
      }
    }
  }

  /** One piece of a prefixing render: `|d|` more than the piece's text for a match, its character otherwise. */
  lemma PrefixedStep(s: string, ps: seq<Piece>, r: Replacer, d: string)
    requires ps != [] && forall st, t, g :: r(s, st, t, g) == d + t
    ensures |Render(s, ps, r)| == |PieceText(ps[0])| + (if ps[0].Matched? then |d| else 0) + |Render(s, ps[1..], r)|
    ensures |Texts(ps)| == |PieceText(ps[0])| + |Texts(ps[1..])|
    ensures MatchCount(ps) == (if ps[0].Matched? then 1 else 0) + MatchCount(ps[1..])
  {
  }

  lemma MulStep(a: nat, n: nat)
    ensures a * (n + 1) == a + a * n
  {
  }

  /** A global replace that prefixes every match with `d`: one copy of `d` per match, nothing else added. */
  lemma ReplaceAllPrefixedLength(s: string, m: Matcher, r: Replacer, d: string)
    requires forall st, t, g :: r(s, st, t, g) == d + t
    ensures |ReplaceAll(s, m, r)| == |s| + |d| * MatchCount(ScanFrom(s, 0, m))
  {
    RenderPrefixedLength(s, ScanFrom(s, 0, m), r, d);
    ScanCovers(s, 0, m);
  }

  /** Replacing the first occurrence, at `k`, by a `$`-free template keeps both sides of it. */
  lemma ReplaceFirstLiteralAt(s: string, p: string, tmpl: string, k: nat)
    requires OccursAt(s, p, k) && Lacks(tmpl, '$')
    requires forall j :: 0 <= j < k ==> !OccursAt(s, p, j)
    ensures ReplaceFirstLiteral(s, p, tmpl) == s[..k] + tmpl + s[k + |p|..]
  {
    IndexOfIs(s, p, k);
    SubstituteLiteral(tmpl, p, s[..k], s[k + |p|..], []);
  }

  /** Replacing the first occurrence of a `$`-free `p` by `p` itself changes nothing. */
  lemma ReplaceFirstLiteralSame(s: string, p: string)
    requires Lacks(p, '$')
    ensures ReplaceFirstLiteral(s, p, p) == s
  {
    match IndexOf(s, p)
    case Some(i) =>
      SubstituteLiteral(p, p, s[..i], s[i + |p|..], []);
      assert s[i..i + |p|] == p;
      assert s == s[..i] + s[i..i + |p|] + s[i + |p|..];
    case None =>
  }

  /** `$1` in front of a replacement string, with exactly one group: the group, then the rest expanded. */
  lemma SubstituteGroupOne(rest: string, matched: string, before: string, after: string, groups: seq<string>)
    requires |groups| == 1
    ensures Substitute("$1" + rest, matched, before, after, groups) == groups[0] + Substitute(rest, matched, before, after, groups)
  {
    var tmpl := "$1" + rest;
    assert tmpl[0] == '$' && tmpl[1] == '1' && tmpl[2..] == rest;
  }
  /** The scan from the end of a match on, when no further match starts: it spells the rest back. */
  lemma RenderRestPlain(s: string, e: nat, m: Matcher, r: Replacer)
    requires e <= |s|
    requires forall j :: e <= j < |s| ==> !ValidHit(s, j, m(s, j))
    ensures Render(s, ScanFrom(s, e, m), r) == s[e..]
  {
    ScanWithoutMatches(s, e, m);
    RenderPlain(s, ScanFrom(s, e, m), r);
    ScanCovers(s, e, m);
  }

  lemma {:induction false} RenderUpToOnly(s: string, i: nat, m: Matcher, r: Replacer, k: nat)
    requires i <= k < |s| && ValidHit(s, k, m(s, k))
    requires forall j :: i <= j < k ==> !ValidHit(s, j, m(s, j))
    requires forall j :: m(s, k).value.end <= j < |s| ==> !ValidHit(s, j, m(s, j))
    ensures Render(s, ScanFrom(s, i, m), r)
      == s[i..k] + r(s, k, s[k..m(s, k).value.end], m(s, k).value.groups) + s[m(s, k).value.end..]
    decreases k - i
  {
    var ps := ScanFrom(s, i, m);
    if i == k {
      var e := m(s, k).value.end;
      assert ps[1..] == ScanFrom(s, e, m);
      RenderRestPlain(s, e, m, r);
    } else {
      RenderUpToOnly(s, i + 1, m, r, k);
      assert ps[1..] == ScanFrom(s, i + 1, m);
      assert s[i..k] == [s[i]] + s[i + 1..k];
    }
  }

  /** Exactly one match, at `k`: the replace changes that match and keeps both sides of it. */
  lemma ReplaceAllOnly(s: string, m: Matcher, r: Replacer, k: nat)
    requires k < |s| && ValidHit(s, k, m(s, k))
    requires forall j :: 0 <= j < k ==> !ValidHit(s, j, m(s, j))
    requires forall j :: m(s, k).value.end <= j < |s| ==> !ValidHit(s, j, m(s, j))
    ensures ReplaceAll(s, m, r)
      == s[..k] + r(s, k, s[k..m(s, k).value.end], m(s, k).value.groups) + s[m(s, k).value.end..]
  {
    RenderUpToOnly(s, 0, m, r, k);
    assert s[0..k] == s[..k];
  }
}
