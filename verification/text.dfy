/**
 JavaScript string primitives as the converter uses them: the `\s` class and `trim`,
 `toLowerCase`, `includes`, `startsWith`, `indexOf`, first-occurrence `replace` with a
 string pattern, `join`, `split` and `repeat`, and decimal rendering of numbers.
 */
module Text {
  import opened Base

  /** JavaScript WhiteSpace or LineTerminator: what `\s` matches and what `trim` removes. */
  predicate IsSpace(c: char) {
    || c == ' ' || c == '\t' || c == '\n' || c == '\r' || c == '\U{000B}' || c == '\U{000C}'
    || c == '\U{00A0}' || c == '\U{1680}' || ('\U{2000}' <= c <= '\U{200A}')
    || c == '\U{2028}' || c == '\U{2029}' || c == '\U{202F}' || c == '\U{205F}'
    || c == '\U{3000}' || c == '\U{FEFF}'
  }

  /** The characters a regular-expression `.` does not match. */
  predicate IsLineTerminator(c: char) {
    c == '\n' || c == '\r' || c == '\U{2028}' || c == '\U{2029}'
  }

  predicate IsDigit(c: char) { '0' <= c <= '9' }
  predicate NotDigit(c: char) { !IsDigit(c) }
  predicate IsUpper(c: char) { 'A' <= c <= 'Z' }
  predicate IsLowerLetter(c: char) { 'a' <= c <= 'z' }
  predicate IsHexDigit(c: char) { IsDigit(c) || 'a' <= c <= 'f' || 'A' <= c <= 'F' }

  function LowerChar(c: char): char {
    if IsUpper(c) then (c as int + 32) as char else c
  }

  /** `toLowerCase`, restricted to the ASCII letters. */
  function Lower(s: string): (r: string)
    ensures |r| == |s|
    ensures forall i :: 0 <= i < |s| ==> r[i] == LowerChar(s[i])
  {
    seq(|s|, i requires 0 <= i < |s| => LowerChar(s[i]))
  }

  lemma LowerAppend(a: string, b: string)
    ensures Lower(a + b) == Lower(a) + Lower(b)
  {
  }

  // ---------------------------------------------------------------- trimming

  function TrimStart(s: string): (r: string)
    ensures |r| <= |s| && r == s[|s| - |r|..]
    ensures r == [] || !IsSpace(r[0])
  {
    if s != [] && IsSpace(s[0]) then TrimStart(s[1..]) else s
  }

  function TrimEnd(s: string): (r: string)
    ensures r <= s
    ensures r == [] || !IsSpace(r[|r| - 1])
  {
    if s != [] && IsSpace(s[|s| - 1]) then TrimEnd(s[..|s| - 1]) else s
  }

  /** What `TrimEnd` removes is whitespace. */
  lemma {:induction false} TrimEndDropsSpace(s: string)
    ensures forall i :: |TrimEnd(s)| <= i < |s| ==> IsSpace(s[i])
    decreases |s|
  {
    if s != [] && IsSpace(s[|s| - 1]) {
      TrimEndDropsSpace(s[..|s| - 1]);
    }
  }

  /** `String.prototype.trim`. */
  function Trim(s: string): (r: string)
    ensures r == [] || (!IsSpace(r[0]) && !IsSpace(r[|r| - 1]))
  {
    TrimEnd(TrimStart(s))
  }

  /** A string with no whitespace at either end is its own trim. */
  predicate IsTrimmed(s: string) {
    s == [] || (!IsSpace(s[0]) && !IsSpace(s[|s| - 1]))
  }

  lemma TrimOfTrimmed(s: string)
    requires IsTrimmed(s)
    ensures Trim(s) == s
  {
  }

  lemma TrimIsTrimmed(s: string)
    ensures IsTrimmed(Trim(s))
  {
  }

  /** Whitespace added around a string disappears under `trim`. */
  lemma TrimPadded(pre: string, s: string, post: string)
    requires forall i :: 0 <= i < |pre| ==> IsSpace(pre[i])
    requires forall i :: 0 <= i < |post| ==> IsSpace(post[i])
    requires IsTrimmed(s)
    ensures Trim(pre + s + post) == s
  {
    assert pre + s + post == pre + (s + post);
    TrimStartPadded(pre, s + post);
    if s == [] {
      assert s + post == post;
      AllSpaceTrimsEmpty(post);
    } else {
      assert (s + post)[0] == s[0];
      assert TrimStart(s + post) == s + post;
      TrimEndPadded(s, post);
    }
  }

  lemma TrimStartPadded(pre: string, s: string)
    requires forall i :: 0 <= i < |pre| ==> IsSpace(pre[i])
    ensures TrimStart(pre + s) == TrimStart(s)
  {
    if pre != [] {
      var x := pre + s;
      assert x[0] == pre[0] && IsSpace(x[0]);
      assert x[1..] == pre[1..] + s;
      TrimStartPadded(pre[1..], s);
    } else {
      assert pre + s == s;
    }
  }

  lemma TrimEndPadded(s: string, post: string)
    requires forall i :: 0 <= i < |post| ==> IsSpace(post[i])
    requires s == [] || !IsSpace(s[|s| - 1])
    ensures TrimEnd(s + post) == s
  {
    if post != [] {
      assert (s + post)[..|s + post| - 1] == s + post[..|post| - 1];
      TrimEndPadded(s, post[..|post| - 1]);
    } else {
      assert s + post == s;
    }
  }

  /** Trailing whitespace does not change a trim. */
  lemma TrimDropsTrailingSpace(a: string, sp: string)
    requires forall i :: 0 <= i < |sp| ==> IsSpace(sp[i])
    ensures Trim(a + sp) == Trim(a)
  {
    TrimStartAppend(a, sp);
    if TrimStart(a) == [] {
      AllSpaceTrimsEmpty(sp);
    } else {
      TrimEndAppendSpaces(TrimStart(a), sp);
    }
  }

  lemma {:induction false} TrimStartAppend(a: string, b: string)
    ensures TrimStart(a) != [] ==> TrimStart(a + b) == TrimStart(a) + b
    ensures TrimStart(a) == [] ==> TrimStart(a + b) == TrimStart(b)
  {
    if a == [] {
      assert a + b == b;
    } else {
      assert (a + b)[0] == a[0];
      assert (a + b)[1..] == a[1..] + b;
      if IsSpace(a[0]) {
        TrimStartAppend(a[1..], b);
      }
    }
  }

  lemma {:induction false} TrimEndAppendSpaces(x: string, sp: string)
    requires forall i :: 0 <= i < |sp| ==> IsSpace(sp[i])
    ensures TrimEnd(x + sp) == TrimEnd(x)
    decreases |sp|
  {
    if sp == [] {
      assert x + sp == x;
    } else {
      assert (x + sp)[..|x + sp| - 1] == x + sp[..|sp| - 1];
      TrimEndAppendSpaces(x, sp[..|sp| - 1]);
    }
  }

  /** `trim` keeps a first character that is not whitespace. */
  lemma TrimKeepsFirst(s: string)
    requires s != [] && !IsSpace(s[0])
    ensures Trim(s) != [] && Trim(s)[0] == s[0]
  {
    TrimEndKeepsFirst(s);
  }

  lemma {:induction false} TrimEndKeepsFirst(s: string)
    requires s != [] && !IsSpace(s[0])
    ensures TrimEnd(s) != [] && TrimEnd(s)[0] == s[0]
    decreases |s|
  {
    if IsSpace(s[|s| - 1]) {
      TrimEndKeepsFirst(s[..|s| - 1]);
    }
  }

  lemma AllSpaceTrimsEmpty(s: string)
    requires forall i :: 0 <= i < |s| ==> IsSpace(s[i])
    ensures TrimStart(s) == [] && Trim(s) == []
  {
    if s != [] {
      AllSpaceTrimsEmpty(s[1..]);
    }
  }

  // ---------------------------------------------------------------- searching

  predicate OccursAt(s: string, p: string, i: int) {
    0 <= i && i + |p| <= |s| && s[i..i + |p|] == p
  }

  /** `s.includes(p)`. */
  predicate Contains(s: string, p: string) {
    exists i | 0 <= i <= |s| :: OccursAt(s, p, i)
  }

  /** `p` occurs at `i`, ignoring ASCII case; `lit` is written in lower case. */
  predicate AtCI(s: string, i: int, lit: string) {
    0 <= i && i + |lit| <= |s| && Lower(s[i..i + |lit|]) == lit
  }

  /** A case-insensitive search for a lower-case literal, as a regular expression with the `i` flag does. */
  predicate ContainsCI(s: string, lit: string) {
    exists i | 0 <= i <= |s| :: AtCI(s, i, lit)
  }

  /** A literal without upper-case letters is its own lower case. */
  lemma LowerFixed(lit: string)
    requires forall k :: 0 <= k < |lit| ==> !IsUpper(lit[k])
    ensures Lower(lit) == lit
  {
  }

  /** An exact occurrence of a lower-case literal is a case-insensitive one. */
  lemma OccursAtCI(s: string, i: int, lit: string)
    requires OccursAt(s, lit, i) && forall k :: 0 <= k < |lit| ==> !IsUpper(lit[k])
    ensures AtCI(s, i, lit)
  {
    LowerFixed(lit);
    assert s[i..i + |lit|] == lit;
  }

  /** A literal longer than what is left cannot occur. */
  lemma AtCITooLong(s: string, i: int, lit: string)
    requires i + |lit| > |s|
    ensures !AtCI(s, i, lit)
  {
  }

  /** A case-insensitive occurrence contains the occurrences of its parts. */
  lemma AtCIPart(s: string, i: int, lit: string, a: nat, b: nat)
    requires AtCI(s, i, lit) && a <= b <= |lit|
    ensures AtCI(s, i + a, lit[a..b])
  {
    var w := s[i..i + |lit|];
    assert forall k :: 0 <= k < b - a ==> s[i + a..i + b][k] == w[a..b][k];
    assert s[i + a..i + b] == w[a..b];
    assert forall k :: 0 <= k < b - a ==> Lower(w[a..b])[k] == Lower(w)[a + k];
  }

  /** A case-insensitive occurrence of `lit` holds one of any literal spelled inside it. */
  lemma AtCISub(s: string, i: int, lit: string, a: nat, sub: string)
    requires AtCI(s, i, lit) && a + |sub| <= |lit|
    requires forall k :: 0 <= k < |sub| ==> lit[a + k] == sub[k]
    ensures AtCI(s, i + a, sub)
  {
    AtCIPart(s, i, lit, a, a + |sub|);
    assert lit[a..a + |sub|] == sub;
  }

  lemma ContainsCIAt(s: string, i: int, lit: string)
    requires AtCI(s, i, lit)
    ensures ContainsCI(s, lit)
  {
  }

  /** Only a letter has another case: a character that lowers to a non-letter is that character. */
  lemma LowerCharPunct(c: char, x: char)
    requires !IsLowerLetter(x) && LowerChar(c) == x
    ensures c == x
  {
  }

  /** Each character of a case-insensitive occurrence lower-cases to the literal's character. */
  lemma AtCIChar(s: string, i: int, lit: string, k: nat)
    requires AtCI(s, i, lit) && k < |lit|
    ensures LowerChar(s[i + k]) == lit[k]
  {
    assert s[i..i + |lit|][k] == s[i + k];
  }

  predicate Lacks(s: string, c: char) {
    forall i :: 0 <= i < |s| ==> s[i] != c
  }

  lemma LacksAppend(a: string, b: string, c: char)
    requires Lacks(a, c) && Lacks(b, c)
    ensures Lacks(a + b, c)
  {
    forall i | 0 <= i < |a + b|
      ensures (a + b)[i] != c
    {
      if i < |a| {
        assert (a + b)[i] == a[i];
      } else {
        assert (a + b)[i] == b[i - |a|];
      }
    }
  }

  /** A string of which no character equals `c` contains no literal holding `c`. */
  lemma LacksJoin3(a: string, b: string, d: string, c: char)
    requires Lacks(a, c) && Lacks(b, c) && Lacks(d, c)
    ensures Lacks(a + b + d, c)
  {
    LacksAppend(a, b, c);
    LacksAppend(a + b, d, c);
  }

  lemma LacksSlice(s: string, c: char, a: nat, b: nat)
    requires Lacks(s, c) && a <= b <= |s|
    ensures Lacks(s[a..b], c)
  {
    assert forall i :: 0 <= i < b - a ==> s[a..b][i] == s[a + i];
  }

  lemma NoCharNoOccurrence(s: string, p: string, k: nat)
    requires k < |p|
    requires forall i :: 0 <= i < |s| ==> s[i] != p[k]
    ensures !Contains(s, p)
  {
    if Contains(s, p) {
      var i :| 0 <= i <= |s| && OccursAt(s, p, i);
      OccursAtChar(s, p, i, k);
      assert false;
    }
  }

  lemma OccursAtChar(s: string, p: string, i: int, k: nat)
    requires OccursAt(s, p, i) && k < |p|
    ensures s[i + k] == p[k]
  {
    assert s[i..i + |p|][k] == s[i + k];
  }

  /** One mismatching character rules an occurrence out. */
  lemma NotOccursAt(s: string, p: string, i: nat, k: nat)
    requires k < |p| && i + k < |s| && s[i + k] != p[k]
    ensures !OccursAt(s, p, i)
  {
    if OccursAt(s, p, i) {
      OccursAtChar(s, p, i, k);
    }
  }

  /** An occurrence of `a + b` holds an occurrence of `b` right after `a`. */
  lemma OccursAtSuffix(s: string, a: string, b: string, i: int)
    requires OccursAt(s, a + b, i)
    ensures OccursAt(s, b, i + |a|)
  {
    assert s[i + |a|..i + |a| + |b|] == s[i..i + |a + b|][|a|..];
  }

  /** Appending keeps an occurrence. */
  lemma ContainsAppend(a: string, b: string, p: string)
    requires Contains(a, p)
    ensures Contains(a + b, p)
  {
    var i :| 0 <= i <= |a| && OccursAt(a, p, i);
    assert (a + b)[i..i + |p|] == a[i..i + |p|];
    assert OccursAt(a + b, p, i);
  }

  predicate IsSemicolon(c: char) { c == ';' }

  /** `replace(/^;\s*\/, "")`: one leading semicolon and the whitespace after it. */
  function DropLeadingSemicolon(x: string): (r: string)
    ensures |r| <= |x| && r == x[|x| - |r|..]
    ensures forall i :: 0 <= i < |x| - |r| ==> IsSemicolon(x[i]) || IsSpace(x[i])
  {
    if x != [] && x[0] == ';' then x[SkipSpace(x, 1)..] else x
  }

  /** `replace(/;\s*$/, "")`: a last semicolon followed by nothing but whitespace. */
  function DropTrailingSemicolon(x: string): (r: string)
    ensures r <= x
    ensures forall i :: |r| <= i < |x| ==> IsSemicolon(x[i]) || IsSpace(x[i])
  {
    var t := TrimEnd(x);
    TrimEndDropsSpace(x);
    if t != [] && t[|t| - 1] == ';' then t[..|t| - 1] else x
  }

  /** The leading-semicolon trim keeps every occurrence of a word that starts visibly. */
  lemma ContainsDropLeading(x: string, p: string)
    requires Contains(x, p) && p != [] && !IsSemicolon(p[0]) && !IsSpace(p[0])
    ensures Contains(DropLeadingSemicolon(x), p)
  {
    var r := DropLeadingSemicolon(x);
    var d := |x| - |r|;
    var i :| 0 <= i <= |x| && OccursAt(x, p, i);
    OccursAtChar(x, p, i, 0);
    assert i >= d;
    OccursInSuffix(x, d, p, i);
  }

  /** An occurrence past `d` is an occurrence in the suffix from `d`. */
  lemma OccursInSuffix(x: string, d: nat, p: string, i: nat)
    requires d <= i && OccursAt(x, p, i)
    ensures OccursAt(x[d..], p, i - d)
  {
    assert x[d..][i - d..i - d + |p|] == x[i..i + |p|];
  }

  /** An occurrence in a suffix is an occurrence in the whole. */
  lemma ContainsInSuffix(x: string, k: nat, p: string)
    requires k <= |x| && Contains(x[k..], p)
    ensures Contains(x, p)
  {
    var i :| 0 <= i <= |x[k..]| && OccursAt(x[k..], p, i);
    ContainsAfter(x[..k], x[k..], p, i);
    assert x[..k] + x[k..] == x;
  }

  /** A string holds its own prefix. */
  lemma ContainsPrefix(p: string, rest: string)
    ensures Contains(p + rest, p)
  {
    assert (p + rest)[0..|p|] == p;
    assert OccursAt(p + rest, p, 0);
  }

  /** Prepending keeps an occurrence. */
  lemma ContainsAfter(a: string, b: string, p: string, i: nat)
    requires OccursAt(b, p, i)
    ensures Contains(a + b, p)
  {
    assert (a + b)[|a| + i..|a| + i + |p|] == b[i..i + |p|];
    assert OccursAt(a + b, p, |a| + i);
  }

  /** Appending a piece that starts with a character `p` lacks, and does not hold `p`, creates no occurrence of `p`. */
  lemma AppendNoNewOccurrence(x: string, t: string, p: string)
    requires !Contains(x, p) && !Contains(t, p)
    requires t != [] && Lacks(p, t[0])
    ensures !Contains(x + t, p)
  {
    var y := x + t;
    forall i | 0 <= i <= |y|
      ensures !OccursAt(y, p, i)
    {
      if i + |p| <= |y| {
        if i + |p| <= |x| {
          assert y[i..i + |p|] == x[i..i + |p|];
          assert !OccursAt(x, p, i);
        } else if i >= |x| {
          assert y[i..i + |p|] == t[i - |x|..i - |x| + |p|];
          assert !OccursAt(t, p, i - |x|);
        } else {
          assert y[i..i + |p|][|x| - i] == t[0];
          assert p[|x| - i] != t[0];
        }
      }
    }
  }

  /** The first occurrence of `p` at or after `from`: `s.indexOf(p, from)`. */
  function IndexOfFrom(s: string, p: string, from: nat): (r: Option<nat>)
    decreases |s| - from
    ensures r.Some? ==> from <= r.value && OccursAt(s, p, r.value)
    ensures r.Some? ==> forall j :: from <= j < r.value ==> !OccursAt(s, p, j)
    ensures r.None? ==> forall j :: from <= j ==> !OccursAt(s, p, j)
  {
    if from + |p| > |s| then None
    else if OccursAt(s, p, from) then Some(from)
    else IndexOfFrom(s, p, from + 1)
  }

  function IndexOf(s: string, p: string): Option<nat> {
    IndexOfFrom(s, p, 0)
  }

  /** The first occurrence pinned down by a witness with no occurrence before it. */
  lemma IndexOfIs(s: string, p: string, k: nat)
    requires OccursAt(s, p, k)
    requires forall j :: 0 <= j < k ==> !OccursAt(s, p, j)
    ensures IndexOf(s, p) == Some(k)
  {
  }

  lemma IndexOfContains(s: string, p: string)
    ensures IndexOf(s, p).Some? <==> Contains(s, p)
  {
    if Contains(s, p) {
      var i :| 0 <= i <= |s| && OccursAt(s, p, i);
    }
  }

  /** The first index at or after `from` where `lit` occurs ignoring ASCII case, as `search(/lit/i)` finds it. */
  function IndexOfCIFrom(s: string, lit: string, from: nat): (r: Option<nat>)
    decreases |s| - from
    ensures r.Some? ==> from <= r.value && AtCI(s, r.value, lit)
    ensures r.Some? ==> forall j :: from <= j < r.value ==> !AtCI(s, j, lit)
    ensures r.None? ==> forall j :: from <= j ==> !AtCI(s, j, lit)
  {
    if from + |lit| > |s| then None
    else if AtCI(s, from, lit) then Some(from)
    else IndexOfCIFrom(s, lit, from + 1)
  }

  /** `s.replace(p, rep)` with a string pattern: only the first occurrence is replaced. */
  function ReplaceFirst(s: string, p: string, rep: string): string {
    match IndexOf(s, p)
    case Some(i) => s[..i] + rep + s[i + |p|..]
    case None => s
  }

  /** The first index at or after `from` whose character satisfies `stop`, or `|s|`. */
  function FindChar(s: string, from: nat, stop: char -> bool): (r: nat)
    requires from <= |s|
    decreases |s| - from
    ensures from <= r <= |s|
    ensures r < |s| ==> stop(s[r])
    ensures forall j :: from <= j < r ==> !stop(s[j])
  {
    if from == |s| || stop(s[from]) then from else FindChar(s, from + 1, stop)
  }

  /** `https?:\/\/` under the `i` flag: 8, 7, or 0 for none. */
  function SchemeLenCI(s: string, q: int): (r: nat)
    ensures r > 0 ==> 0 <= q && q + r <= |s|
  {
    if AtCI(s, q, "https://") then 8 else if AtCI(s, q, "http://") then 7 else 0
  }

  /** A search stopped by the first character of an appended piece ends where it ended before. */
  lemma {:induction false} FindCharExtend(x: string, t: string, from: nat, stop: char -> bool)
    requires from <= |x| && t != [] && stop(t[0])
    ensures FindChar(x + t, from, stop) == FindChar(x, from, stop)
    decreases |x| - from
  {
    if from < |x| {
      assert (x + t)[from] == x[from];
      if !stop(x[from]) {
        FindCharExtend(x, t, from + 1, stop);
      }
    } else {
      assert (x + t)[from] == t[0];
    }
  }

  /** The search stops at the first `stop` character: a witness pins its result down. */
  lemma FindCharIs(s: string, from: nat, stop: char -> bool, k: nat)
    requires from <= k <= |s|
    requires k < |s| ==> stop(s[k])
    requires forall j :: from <= j < k ==> !stop(s[j])
    ensures FindChar(s, from, stop) == k
  {
  }

  // ---------------------------------------------------------------- reading inside a window

  /** `t` occurs in `s` at `p`: what is read inside `t` is read the same inside `s`. */
  predicate Window(s: string, p: nat, t: string) {
    p + |t| <= |s| && s[p..p + |t|] == t
  }

  /** The empty text is a left unit of concatenation. */
  lemma EmptyPrefix(x: string)
    ensures [] + x == x
  {
  }

  /** The empty text is a right unit of concatenation. */
  lemma EmptySuffix(x: string)
    ensures x + [] == x
  {
  }

  /** Concatenation is associative. */
  lemma Assoc(a: string, b: string, c: string)
    ensures a + b + c == a + (b + c)
  {
  }

  /** A five-part join with its inner groups flattened. */
  lemma Flatten(a: string, b: string, c: string, d: string, e: string)
    ensures a + (b + c) + (d + e) == a + b + c + d + e
  {
  }

  /** Moving the boundary of a four-part join. */
  lemma Regroup(a: string, b: string, c: string, d: string)
    ensures a + (b + c) + d == a + b + (c + d)
  {
  }

  /** Moving both boundaries of a five-part join. */
  lemma Regroup5(a: string, b: string, c: string, d: string, e: string)
    ensures a + (b + c + d) + e == (a + b) + c + (d + e)
  {
  }

  /** The middle of a three-part join is a window at the length of the first part. */
  lemma WindowOf(pre: string, t: string, post: string)
    ensures Window(pre + t + post, |pre|, t)
  {
    assert (pre + t + post)[|pre|..|pre| + |t|] == t;
  }

  /** The texts on both sides of a window, read back as slices. */
  lemma WindowSides(pre: string, t: string, post: string)
    ensures (pre + t + post)[..|pre|] == pre && (pre + t + post)[|pre| + |t|..] == post
  {
    assert (pre + t + post)[|pre| + |t|..] == post;
  }

  lemma WindowChar(s: string, p: nat, t: string, j: nat)
    requires Window(s, p, t) && j < |t|
    ensures s[p + j] == t[j]
  {
    assert s[p..p + |t|][j] == s[p + j];
  }

  lemma WindowAtCI(s: string, p: nat, t: string, i: nat, lit: string)
    requires Window(s, p, t) && AtCI(t, i, lit)
    ensures AtCI(s, p + i, lit)
  {
    var a := s[p + i..p + i + |lit|];
    var b := t[i..i + |lit|];
    forall k | 0 <= k < |lit| ensures a[k] == b[k] {
      WindowChar(s, p, t, i + k);
    }
    assert a == b;
  }

  lemma WindowAtCIStart(s: string, p: nat, t: string, lit: string)
    requires Window(s, p, t) && AtCI(t, 0, lit)
    ensures AtCI(s, p, lit)
  {
    WindowAtCI(s, p, t, 0, lit);
  }

  /** A search that stops inside `t` stops at the same place inside `s`. */
  lemma WindowFindChar(s: string, p: nat, t: string, from: nat, stop: char -> bool)
    requires Window(s, p, t) && from <= |t| && FindChar(t, from, stop) < |t|
    ensures FindChar(s, p + from, stop) == p + FindChar(t, from, stop)
  {
    var k := FindChar(t, from, stop);
    forall j | p + from <= j < p + k ensures !stop(s[j]) {
      WindowChar(s, p, t, j - p);
    }
    WindowChar(s, p, t, k);
    FindCharIs(s, p + from, stop, p + k);
  }

  lemma WindowSlice(s: string, p: nat, t: string, i: nat, j: nat)
    requires Window(s, p, t) && i <= j <= |t|
    ensures s[p + i..p + j] == t[i..j]
  {
    forall k | 0 <= k < j - i ensures s[p + i..p + j][k] == t[i..j][k] {
      WindowChar(s, p, t, i + k);
    }
  }

  /** Inside `t`, an occurrence in `s` and one in `t` are the same thing, ignoring case or not. */
  lemma WindowAtCIIff(s: string, p: nat, t: string, i: nat, lit: string)
    requires Window(s, p, t) && i + |lit| <= |t|
    ensures AtCI(s, p + i, lit) == AtCI(t, i, lit)
    ensures OccursAt(s, lit, p + i) == OccursAt(t, lit, i)
  {
    WindowSlice(s, p, t, i, i + |lit|);
  }

  /** The scheme read at `q` inside `t` is read the same inside `s`. */
  lemma WindowSchemeLen(s: string, p: nat, t: string, q: nat)
    requires Window(s, p, t) && q + 8 <= |t|
    ensures SchemeLenCI(s, p + q) == SchemeLenCI(t, q)
  {
    WindowAtCIIff(s, p, t, q, "https://");
    WindowAtCIIff(s, p, t, q, "http://");
  }

  /** The first occurrence at or after `from` pinned down by a witness. */
  lemma IndexOfFromIs(s: string, lit: string, from: nat, k: nat)
    requires from <= k && OccursAt(s, lit, k)
    requires forall j :: from <= j < k ==> !OccursAt(s, lit, j)
    ensures IndexOfFrom(s, lit, from) == Some(k)
  {
  }

  /** A search for `lit` that succeeds inside `t` succeeds at the same place inside `s`. */
  lemma WindowIndexOfFrom(s: string, p: nat, t: string, lit: string, from: nat, v: nat)
    requires Window(s, p, t) && IndexOfFrom(t, lit, from) == Some(v)
    ensures IndexOfFrom(s, lit, p + from) == Some(p + v)
  {
    WindowAtCIIff(s, p, t, v, lit);
    WindowNoEarlier(s, p, t, lit, from, v);
    IndexOfFromIs(s, lit, p + from, p + v);
  }

  /** Positions of `t` where `lit` does not occur are positions of `s` where it does not occur. */
  lemma WindowNoEarlier(s: string, p: nat, t: string, lit: string, from: nat, v: nat)
    requires Window(s, p, t) && v + |lit| <= |t|
    requires forall j :: from <= j < v ==> !OccursAt(t, lit, j)
    ensures forall j :: p + from <= j < p + v ==> !OccursAt(s, lit, j)
  {
    forall j | p + from <= j < p + v
      ensures !OccursAt(s, lit, j)
    {
      WindowAtCIIff(s, p, t, j - p, lit);
    }
  }

  /** Index after the whitespace run starting at `from`: where a greedy `\s*` stops. */
  function SkipSpace(s: string, from: nat): (r: nat)
    requires from <= |s|
    ensures from <= r <= |s|
    ensures r < |s| ==> !IsSpace(s[r])
    ensures forall j :: from <= j < r ==> IsSpace(s[j])
  {
    FindChar(s, from, c => !IsSpace(c))
  }

  lemma SkipSpaceExtend(x: string, t: string, from: nat)
    requires from <= |x| && t != [] && !IsSpace(t[0])
    ensures SkipSpace(x + t, from) == SkipSpace(x, from)
  {
    FindCharExtend(x, t, from, c => !IsSpace(c));
  }

  lemma WindowSkipSpace(s: string, p: nat, t: string, from: nat)
    requires Window(s, p, t) && from <= |t| && SkipSpace(t, from) < |t|
    ensures SkipSpace(s, p + from) == p + SkipSpace(t, from)
  {
    WindowFindChar(s, p, t, from, c => !IsSpace(c));
  }

  /** A run of whitespace, as `\s*` reads it. */
  predicate AllSpace(s: string) {
    forall k :: 0 <= k < |s| ==> IsSpace(s[k])
  }

  /** A greedy `\s*` after `x` stops right after the spaces. */
  lemma SpacesThen(x: string, sp: string, y: string)
    requires AllSpace(sp) && y != [] && !IsSpace(y[0])
    ensures SkipSpace(x + sp + y, |x|) == |x| + |sp|
  {
    var s := x + sp + y;
    forall j | |x| <= j < |x| + |sp|
      ensures IsSpace(s[j])
    {
      assert s[j] == sp[j - |x|];
    }
    assert s[|x| + |sp|] == y[0];
    FindCharIs(s, |x|, c => !IsSpace(c), |x| + |sp|);
  }

  /** Deletes every character satisfying `drop`: a global replace of a character class by "". */
  function RemoveChars(s: string, drop: char -> bool): (r: string)
    ensures |r| <= |s|
    ensures forall i :: 0 <= i < |r| ==> !drop(r[i])
  {
    if s == [] then []
    else if drop(s[0]) then RemoveChars(s[1..], drop)
    else [s[0]] + RemoveChars(s[1..], drop)
  }

  // ---------------------------------------------------------------- joining

  /** `parts.join(sep)`. */
  function Join(parts: seq<string>, sep: string): string {
    if parts == [] then []
    else if |parts| == 1 then parts[0]
    else parts[0] + sep + Join(parts[1..], sep)
  }

  /** `c.repeat(n)`. */
  function Repeat(c: char, n: nat): (r: string)
    ensures |r| == n
    ensures forall i :: 0 <= i < n ==> r[i] == c
  {
    seq(n, i => c)
  }

  /** `s.split(sep)` for a one-character separator. */
  function Split(s: string, sep: char): (r: seq<string>)
    ensures |r| >= 1
  {
    if s == [] then [[]]
    else
      var rest := Split(s[1..], sep);
      if s[0] == sep then [[]] + rest else [[s[0]] + rest[0]] + rest[1..]
  }

  /** No part of a split holds the separator. */
  lemma {:induction false} SplitPartsLackSep(s: string, sep: char)
    ensures forall k :: 0 <= k < |Split(s, sep)| ==> Lacks(Split(s, sep)[k], sep)
    decreases |s|
  {
    if s != [] {
      SplitPartsLackSep(s[1..], sep);
      var rest := Split(s[1..], sep);
      if s[0] != sep {
        assert Lacks([s[0]] + rest[0], sep) by {
          LacksAppend([s[0]], rest[0], sep);
        }
      }
    }
  }

  // ---------------------------------------------------------------- numbers

  function DigitChar(d: nat): char
    requires d < 10
  {
    ('0' as int + d) as char
  }

  /** The decimal rendering of a natural number, as JavaScript prints an integral number. */
  function NatToString(n: nat): (r: string)
    ensures |r| >= 1
    ensures forall i :: 0 <= i < |r| ==> IsDigit(r[i])
  {
    if n < 10 then [DigitChar(n)] else NatToString(n / 10) + [DigitChar(n % 10)]
  }

  function IntToString(i: int): string {
    if i < 0 then "-" + NatToString(-i) else NatToString(i)
  }

  /** The value of a non-empty run of decimal digits. */
  function DigitsValue(s: string): nat
    requires forall i :: 0 <= i < |s| ==> IsDigit(s[i])
  {
    if s == [] then 0
    else
      assert IsDigit(s[|s| - 1]);
      DigitsValue(s[..|s| - 1]) * 10 + (s[|s| - 1] as int - '0' as int)
  }

  /** Reading a rendered number back gives the number. */
  lemma {:induction false} NatToStringRoundTrip(n: nat)
    ensures DigitsValue(NatToString(n)) == n
  {
    if n >= 10 {
      var s := NatToString(n / 10) + [DigitChar(n % 10)];
      assert s[..|s| - 1] == NatToString(n / 10);
      NatToStringRoundTrip(n / 10);
    }
  }
}
