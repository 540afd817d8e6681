/**
 `extractLinksFromComments`: the comment-link table built from the exported HTML. Five
 patterns are run one after the other over the whole HTML, each match in turn recording a
 key and a URL in a JavaScript object, so a later match overwrites an earlier one with the
 same key and a new key is appended to the iteration order.
 */
module CommentLinks {
  import opened Base
  import opened Text
  import opened Scan
  import opened CtaText

  // ------------------------------------------------------------------ the table as an object

  function Keys(table: CommentTable): (r: seq<string>)
    ensures |r| == |table| && forall i :: 0 <= i < |table| ==> r[i] == table[i].0
  {
    if table == [] then [] else [table[0].0] + Keys(table[1..])
  }

  /** `links[key]`: the value stored under `key`, if any. */
  function Lookup(table: CommentTable, key: string): (r: Option<string>)
    ensures r.None? <==> key !in Keys(table)
  {
    if table == [] then None
    else if table[0].0 == key then Some(table[0].1)
    else
      assert Keys(table) == [table[0].0] + Keys(table[1..]);
      Lookup(table[1..], key)
  }

  /** No key appears twice, as in an object. */
  predicate UniqueKeys(table: CommentTable) {
    forall i, j :: 0 <= i < j < |table| ==> table[i].0 != table[j].0
  }

  /**
   `links[key] = url`: an existing key keeps its place and takes the new value; a new key
   goes to the end.
   */
  function Store(table: CommentTable, key: string, url: string): (r: CommentTable)
    ensures Keys(r) == if key in Keys(table) then Keys(table) else Keys(table) + [key]
    ensures forall i :: 0 <= i < |r| ==> r[i] == (key, url) || r[i] in table
  {
    if table == [] then [(key, url)]
    else if table[0].0 == key then
      var r := [(key, url)] + table[1..];
      assert Keys(r) == [key] + Keys(table[1..]);
      assert Keys(table) == [key] + Keys(table[1..]);
      r
    else
      var rest := Store(table[1..], key, url);
      var r := [table[0]] + rest;
      assert Keys(r) == [table[0].0] + Keys(rest);
      assert Keys(table) == [table[0].0] + Keys(table[1..]);
      assert forall i :: 1 <= i < |r| ==> r[i] == rest[i - 1];
      r
  }

  /** After `links[key] = url`, `key` reads `url` and every other key reads what it did. */
  lemma {:induction false} StoreLookup(table: CommentTable, key: string, url: string, k: string)
    ensures Lookup(Store(table, key, url), k) == if k == key then Some(url) else Lookup(table, k)
    decreases |table|
  {
    if table != [] && table[0].0 != key {
      StoreLookup(table[1..], key, url, k);
      assert Store(table, key, url)[1..] == Store(table[1..], key, url);
    }
  }

  /** Storing keeps the keys unique: an existing key is overwritten in place. */
  lemma StoreKeepsUnique(table: CommentTable, key: string, url: string)
    requires UniqueKeys(table)
    ensures UniqueKeys(Store(table, key, url))
  {
    var r := Store(table, key, url);
    var ks := Keys(r);
    forall i, j | 0 <= i < j < |r| ensures r[i].0 != r[j].0 {
      assert r[i].0 == ks[i] && r[j].0 == ks[j];
      if key !in Keys(table) && j == |table| {
        assert ks[j] == key;
        assert ks[i] == Keys(table)[i];
      } else {
        assert ks[i] == Keys(table)[i] && ks[j] == Keys(table)[j];
      }
    }
  }

  // ------------------------------------------------------------------ recording one match

  predicate IsAngle(c: char) { c == '<' || c == '>' }

  /** The characters `[:\-,<>]` dropped from a key derived from a one-group match. */
  predicate IsKeyPunct(c: char) { c == ':' || c == '-' || c == ',' || c == '<' || c == '>' }

  /** `(https?:\/\/[^\s]+)` (case-sensitive) at `p`. */
  function UrlRunAt(s: string, p: nat): Option<Hit> {
    if UrlStartAt(s, p) then Some(Hit(UrlEnd(s, p), [s[p..UrlEnd(s, p)]])) else None
  }

  /**
   What one match records: with a second group, key = group 1 trimmed without `<` and `>`
   and URL = group 2 trimmed, both required non-empty; with only group 1 holding `http`, the
   first URL in it is the value and the rest of the group, stripped of `: - , < >` and
   trimmed, the key.
   */
  function StoreOf(groups: seq<string>): (r: Option<(string, string)>)
    ensures r.Some? ==> GoodEntry(r.value)
  {
    var g1 := Group(groups, 1);
    var g2 := Group(groups, 2);
    if g2 != [] then
      var key := RemoveChars(Trim(g1), IsAngle);
      var url := Trim(g2);
      if key != [] && url != [] then Some((key, url)) else None
    else if g1 != [] && Contains(g1, "http") then OneGroupStore(g1)
    else None
  }

  /**
   The one-group case: the first URL inside the group is stored under the rest of the group,
   stripped of `: - , < >` and trimmed; the key holds none of those characters.
   */
  function OneGroupStore(g1: string): (r: Option<(string, string)>)
    ensures r.Some? ==> GoodEntry(r.value) && IsTrimmed(r.value.0)
    ensures r.Some? ==> forall i :: 0 <= i < |r.value.0| ==> !IsKeyPunct(r.value.0[i])
    ensures r.Some? ==> OccursAt(r.value.1, "http", 0) && Contains(g1, r.value.1)
  {
    match FirstMatchFrom(g1, 0, UrlRunAt)
    case Some(q) =>
      var url := g1[q..UrlEnd(g1, q)];
      UrlRunFacts(g1, q);
      var stripped := RemoveChars(Trim(ReplaceFirst(g1, url, [])), IsKeyPunct);
      TrimKeepsAbsent(stripped, IsKeyPunct);
      TrimIsTrimmed(stripped);
      var key := Trim(stripped);
      if key != [] then Some((key, url)) else None
    case None => None
  }

  /** The URL run at a URL start begins with `http` and sits in the string at that start. */
  lemma UrlRunFacts(s: string, q: nat)
    requires UrlStartAt(s, q)
    ensures OccursAt(s[q..UrlEnd(s, q)], "http", 0) && OccursAt(s, s[q..UrlEnd(s, q)], q)
  {
    var url := s[q..UrlEnd(s, q)];
    if OccursAt(s, "https://", q) {
      assert s[q..q + 4] == s[q..q + 8][..4];
    } else {
      assert s[q..q + 4] == s[q..q + 7][..4];
    }
    assert url[..4] == s[q..q + 4];
  }

  /** What one match stores, if anything: a key and its URL. */
  type Entry = Option<(string, string)>

  /** One `links[key] = url`, or nothing. */
  function Apply(table: CommentTable, e: Entry): CommentTable {
    match e
    case Some(kv) => Store(table, kv.0, kv.1)
    case None => table
  }

  /** The entries of a sequence of matches, applied in order. */
  function ApplyAll(table: CommentTable, es: seq<Entry>): CommentTable
    decreases |es|
  {
    if es == [] then table else ApplyAll(Apply(table, es[0]), es[1..])
  }

  function Entries(matches: seq<seq<string>>): (r: seq<Entry>)
    ensures |r| == |matches| && forall i :: 0 <= i < |matches| ==> r[i] == StoreOf(matches[i])
  {
    seq(|matches|, i requires 0 <= i < |matches| => StoreOf(matches[i]))
  }

  /** The groups of every match of a scan, in order. */
  function MatchGroups(ps: seq<Piece>): (r: seq<seq<string>>)
    ensures |r| <= |ps|
  {
    if ps == [] then []
    else if ps[0].Matched? then [ps[0].groups] + MatchGroups(ps[1..])
    else MatchGroups(ps[1..])
  }

  // ------------------------------------------------------------------ the five patterns

  predicate IsColon(c: char) { c == ':' }
  predicate NotColon(c: char) { c != ':' }
  predicate IsDoubleQuote(c: char) { c == '"' }
  predicate SpaceOrClose(c: char) { IsSpace(c) || c == '>' }
  predicate LabelStop(c: char) { c == ':' || c == '\n' || c == '\r' }

  /**
   The end of the `[^\s>]+` run of pattern 1 once `\s*-->` has to follow: the greedy run
   gives characters back until `-->` (after optional whitespace) comes next.
   */
  function ArrowEnd(s: string, lo: nat, v: nat): (r: Option<nat>)
    requires v <= |s|
    decreases v
    ensures r.Some? ==> lo < r.value <= v && OccursAt(s, "-->", SkipSpace(s, r.value))
  {
    if v <= lo then None
    else if OccursAt(s, "-->", SkipSpace(s, v)) then Some(v)
    else ArrowEnd(s, lo, v - 1)
  }

  /** Pattern 1, `<!--\s*([^:]+):\s*(https?:\/\/[^\s>]+)\s*-->`. */
  function ArrowComment(s: string, p: nat): Option<Hit> {
    if OccursAt(s, "<!--", p) then
      match GroupStart(s, p + 4, SkipSpace(s, p + 4), NotColon)
      case None => None
      case Some(k) =>
        var e := FindChar(s, k, IsColon);
        if e < |s| then
          var q := SkipSpace(s, e + 1);
          var n := SchemeLenCI(s, q);
          if n > 0 then
            match ArrowEnd(s, q + n, FindChar(s, q + n, SpaceOrClose))
            case Some(v) => Some(Hit(SkipSpace(s, v) + 3, [s[k..e], s[q..v]]))
            case None => None
          else None
        else None
    else None
  }

  /** A URL head (scheme and one more non-space) lies inside `s[a..c]`. */
  predicate UrlInside(s: string, a: nat, c: nat) {
    c <= |s| && exists q | a <= q < c :: SchemeLenCI(s, q) > 0 && q + SchemeLenCI(s, q) < c && !IsSpace(s[q + SchemeLenCI(s, q)])
  }

  /** Pattern 2, `data-comment="([^"]*(?:https?:\/\/[^\s"]+)[^"]*?)"`: the whole quoted value, if it holds a URL. */
  function DataComment(s: string, p: nat): Option<Hit> {
    if AtCI(s, p, "data-comment=\"") then
      var c := FindChar(s, p + 14, IsDoubleQuote);
      if c < |s| && UrlInside(s, p + 14, c) then Some(Hit(c + 1, [s[p + 14..c]])) else None
    else None
  }

  /** Pattern 3, `\[([^\]]+)\]\((https?:\/\/[^)]+)\)` under the `i` flag. */
  function BracketLink(s: string, p: nat): Option<Hit> {
    if p < |s| && s[p] == '[' then
      var k := FindChar(s, p + 1, IsCloseBracket);
      if k > p + 1 && k + 1 < |s| && s[k + 1] == '(' then
        var n := SchemeLenCI(s, k + 2);
        if n > 0 then
          var e := FindChar(s, k + 2 + n, IsCloseParen);
          if e > k + 2 + n && e < |s| then Some(Hit(e + 1, [s[p + 1..k], s[k + 2..e]])) else None
        else None
      else None
    else None
  }

  /** Pattern 4, `href="(https?:\/\/[^"]+)"[^>]*>([^<]+)<`: group 1 is the URL, group 2 the link text. */
  function HrefText(s: string, p: nat): Option<Hit> {
    if AtCI(s, p, "href=\"") then
      var n := SchemeLenCI(s, p + 6);
      if n > 0 then
        var c := FindChar(s, p + 6 + n, IsDoubleQuote);
        if c > p + 6 + n && c < |s| then
          var g := FindChar(s, c + 1, IsCloseAngle);
          if g < |s| then
            var e := FindChar(s, g + 1, IsOpenAngle);
            if e > g + 1 && e < |s| then Some(Hit(e + 1, [s[p + 6..c], s[g + 1..e]])) else None
          else None
        else None
      else None
    else None
  }

  /** Pattern 5, `([^:\n\r]+):\s*(https?:\/\/[^\s\n\r]+)`. */
  function LabelColonUrl(s: string, p: nat): Option<Hit> {
    if p < |s| then
      var e := FindChar(s, p, LabelStop);
      if e > p && e < |s| && s[e] == ':' then
        var q := SkipSpace(s, e + 1);
        var n := SchemeLenCI(s, q);
        if n > 0 then
          var u := FindChar(s, q + n, IsSpace);
          if u > q + n then Some(Hit(u, [s[p..e], s[q..u]])) else None
        else None
      else None
    else None
  }

  /** Every match of the five patterns, pattern by pattern and left to right within each. */
  function AllMatches(html: string): seq<seq<string>> {
    MatchGroups(ScanFrom(html, 0, ArrowComment)) + MatchGroups(ScanFrom(html, 0, DataComment))
    + MatchGroups(ScanFrom(html, 0, BracketLink)) + MatchGroups(ScanFrom(html, 0, HrefText))
    + MatchGroups(ScanFrom(html, 0, LabelColonUrl))
  }

  /** `extractLinksFromComments`: the five patterns' matches recorded pattern after pattern. */
  function ExtractLinksFromComments(html: string): CommentTable {
    var t1 := ApplyAll([], Entries(MatchGroups(ScanFrom(html, 0, ArrowComment))));
    var t2 := ApplyAll(t1, Entries(MatchGroups(ScanFrom(html, 0, DataComment))));
    var t3 := ApplyAll(t2, Entries(MatchGroups(ScanFrom(html, 0, BracketLink))));
    var t4 := ApplyAll(t3, Entries(MatchGroups(ScanFrom(html, 0, HrefText))));
    ApplyAll(t4, Entries(MatchGroups(ScanFrom(html, 0, LabelColonUrl))))
  }

  // ------------------------------------------------------------------ properties

  /** Trimming never brings back a character that was removed. */
  lemma TrimKeepsAbsent(s: string, drop: char -> bool)
    requires forall i :: 0 <= i < |s| ==> !drop(s[i])
    ensures forall i :: 0 <= i < |Trim(s)| ==> !drop(Trim(s)[i])
  {
    var x := TrimStart(s);
    forall i | 0 <= i < |Trim(s)| ensures !drop(Trim(s)[i]) {
      assert Trim(s)[i] == x[i] == s[|s| - |x| + i];
    }
  }

  /** A well-formed entry: a non-empty key without `<` or `>`, and a non-empty URL. */
  predicate GoodEntry(kv: (string, string)) {
    kv.0 != [] && kv.1 != [] && forall j :: 0 <= j < |kv.0| ==> !IsAngle(kv.0[j])
  }

  /** Keys unique and every entry good. */
  predicate WellFormed(table: CommentTable) {
    UniqueKeys(table) && forall i :: 0 <= i < |table| ==> GoodEntry(table[i])
  }

  lemma StoreWellFormed(table: CommentTable, key: string, url: string)
    requires WellFormed(table) && GoodEntry((key, url))
    ensures WellFormed(Store(table, key, url))
  {
    StoreKeepsUnique(table, key, url);
  }

  /** Applying good entries keeps a table well formed. */
  lemma {:induction false} ApplyAllWellFormed(table: CommentTable, es: seq<Entry>)
    requires WellFormed(table)
    requires forall i :: 0 <= i < |es| ==> es[i].Some? ==> GoodEntry(es[i].value)
    ensures WellFormed(ApplyAll(table, es))
    decreases |es|
  {
    if es != [] {
      if es[0].Some? {
        StoreWellFormed(table, es[0].value.0, es[0].value.1);
      }
      assert forall i :: 0 <= i < |es[1..]| ==> es[1..][i] == es[i + 1];
      ApplyAllWellFormed(Apply(table, es[0]), es[1..]);
    }
  }

  /** Whatever a match stores is a good entry. */
  lemma EntriesGood(matches: seq<seq<string>>)
    ensures forall i :: 0 <= i < |Entries(matches)| ==> Entries(matches)[i].Some? ==> GoodEntry(Entries(matches)[i].value)
  {
  }

  lemma {:induction false} ApplyAllAppend(table: CommentTable, a: seq<Entry>, b: seq<Entry>)
    ensures ApplyAll(table, a + b) == ApplyAll(ApplyAll(table, a), b)
    decreases |a|
  {
    if a == [] {
      assert a + b == b;
    } else {
      assert (a + b)[0] == a[0] && (a + b)[1..] == a[1..] + b;
      ApplyAllAppend(Apply(table, a[0]), a[1..], b);
    }
  }

  lemma EntriesAppend(a: seq<seq<string>>, b: seq<seq<string>>)
    ensures Entries(a + b) == Entries(a) + Entries(b)
  {
    assert forall i :: 0 <= i < |a + b| ==> Entries(a + b)[i] == (Entries(a) + Entries(b))[i];
  }

  /** The five passes are one recording of every match, in pattern order. */
  lemma ExtractRecordsAll(html: string)
    ensures ExtractLinksFromComments(html) == ApplyAll([], Entries(AllMatches(html)))
  {
    var m1 := MatchGroups(ScanFrom(html, 0, ArrowComment));
    var m2 := MatchGroups(ScanFrom(html, 0, DataComment));
    var m3 := MatchGroups(ScanFrom(html, 0, BracketLink));
    var m4 := MatchGroups(ScanFrom(html, 0, HrefText));
    var m5 := MatchGroups(ScanFrom(html, 0, LabelColonUrl));
    EntriesAppend(m1 + m2 + m3 + m4, m5);
    EntriesAppend(m1 + m2 + m3, m4);
    EntriesAppend(m1 + m2, m3);
    EntriesAppend(m1, m2);
    ApplyAllAppend([], Entries(m1 + m2 + m3 + m4), Entries(m5));
    ApplyAllAppend([], Entries(m1 + m2 + m3), Entries(m4));
    ApplyAllAppend([], Entries(m1 + m2), Entries(m3));
    ApplyAllAppend([], Entries(m1), Entries(m2));
  }

  /** The table of any HTML has unique, non-empty keys without `<` or `>`, and non-empty URLs. */
  lemma ExtractedWellFormed(html: string)
    ensures WellFormed(ExtractLinksFromComments(html))
  {
    ExtractRecordsAll(html);
    EntriesGood(AllMatches(html));
    ApplyAllWellFormed([], Entries(AllMatches(html)));
  }

  /** An entry that stores `key`. */
  predicate Sets(e: Entry, key: string) {
    e.Some? && e.value.0 == key
  }

  /** Entries that never store `key` leave its value as it was. */
  lemma {:induction false} UntouchedKey(table: CommentTable, es: seq<Entry>, key: string)
    requires forall i :: 0 <= i < |es| ==> !Sets(es[i], key)
    ensures Lookup(ApplyAll(table, es), key) == Lookup(table, key)
    decreases |es|
  {
    if es != [] {
      if es[0].Some? {
        StoreLookup(table, es[0].value.0, es[0].value.1, key);
      }
      assert forall i :: 0 <= i < |es[1..]| ==> es[1..][i] == es[i + 1];
      UntouchedKey(Apply(table, es[0]), es[1..], key);
    }
  }

  /**
   Later matches overwrite earlier ones: the value under a key is the URL of the last entry
   that stores that key.
   */
  lemma {:induction false} LastRecordWins(table: CommentTable, es: seq<Entry>, key: string, i: nat)
    requires i < |es| && Sets(es[i], key)
    requires forall j :: i < j < |es| ==> !Sets(es[j], key)
    ensures Lookup(ApplyAll(table, es), key) == Some(es[i].value.1)
    decreases |es|
  {
    var rest := es[1..];
    assert forall j :: 0 <= j < |rest| ==> rest[j] == es[j + 1];
    if i == 0 {
      StoreLookup(table, key, es[0].value.1, key);
      UntouchedKey(Apply(table, es[0]), rest, key);
    } else {
      LastRecordWins(Apply(table, es[0]), rest, key, i - 1);
    }
  }

  /** A two-group match with a non-empty key and URL stores them, the key stripped of `<` and `>`. */
  lemma TwoGroupRecord(g1: string, g2: string)
    requires Trim(g2) != []
    ensures StoreOf([g1, g2]).Some? <==> RemoveChars(Trim(g1), IsAngle) != []
    ensures StoreOf([g1, g2]).Some? ==> StoreOf([g1, g2]).value == (RemoveChars(Trim(g1), IsAngle), Trim(g2))
  {
    assert Group([g1, g2], 2) == g2;
  }

}
