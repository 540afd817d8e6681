/**
 The mail-size rewrite of a Google-hosted image URL, shared by the simple parser's image
 rule and the generator's image block: every `[&?]w=\d+` is removed, then every
 `[&?]h=\d+`, and `w=800&h=600` is appended after `?` (or `&` when a query remains).
 */
module MailImageUrl {
  import opened Base
  import opened Text
  import opened Scan

  const GoogleImageHost := "googleusercontent.com"
  const MailSize := "w=800&h=600"

  predicate IsQuerySeparator(c: char) { c == '&' || c == '?' }

  /** Where a size parameter `[&?]L=\d+` for the letter `L` can start: its first four characters fit. */
  predicate SizeParamStart(s: string, p: int, letter: char) {
    0 <= p && p + 3 < |s| && IsQuerySeparator(s[p]) && s[p + 1] == letter && s[p + 2] == '='
    && IsDigit(s[p + 3])
  }

  /** `[&?]L=\d+` at `p`, the digit run taken greedily. */
  function SizeParamAt(letter: char, s: string, p: nat): (r: Option<Hit>)
    ensures r.Some? <==> SizeParamStart(s, p, letter)
    ensures r.Some? ==> p + 4 <= r.value.end <= |s| && (r.value.end < |s| ==> !IsDigit(s[r.value.end]))
  {
    if SizeParamStart(s, p, letter) then Some(Hit(FindChar(s, p + 3, NotDigit), [])) else None
  }

  function WidthParamAt(s: string, p: nat): Option<Hit> { SizeParamAt('w', s, p) }
  function HeightParamAt(s: string, p: nat): Option<Hit> { SizeParamAt('h', s, p) }

  /** `url.replace(/[&?]w=\d+/g, "").replace(/[&?]h=\d+/g, "")`. */
  function StripSize(url: string): string {
    ReplaceAll(ReplaceAll(url, WidthParamAt, Fixed([])), HeightParamAt, Fixed([]))
  }

  /**
   The size rewrite itself, applied once the caller has seen the Google host: the stripped URL,
   one separator (`&` exactly when a query string survived the stripping), then the mail size,
   so the result always carries a query string.
   */
  function SizeForMail(url: string): (r: string)
    ensures var a := StripSize(url);
      |r| == |a| + 1 + |MailSize| && r[..|a|] == a && r[|a| + 1..] == MailSize
      && IsQuerySeparator(r[|a|]) && (r[|a|] == '&' <==> Contains(a, "?"))
    ensures Contains(r, "?")
  {
    var a := StripSize(url);
    var r := a + (if Contains(a, "?") then "&" else "?") + MailSize;
    assert r[..|a|] == a && r[|a| + 1..] == MailSize;
    QueryKept(a);
    r
  }

  lemma QueryKept(a: string)
    ensures Contains(a + (if Contains(a, "?") then "&" else "?") + MailSize, "?")
  {
    var r := a + (if Contains(a, "?") then "&" else "?") + MailSize;
    if Contains(a, "?") {
      ContainsAppend(a, "&" + MailSize, "?");
      assert r == a + ("&" + MailSize);
    } else {
      assert OccursAt(r, "?", |a|) by { assert r[|a|..|a| + 1] == "?"; }
    }
  }

  /** The rewrite as the generator guards it: only URLs that mention the Google image host. */
  function OptimizeForMail(url: string): (r: string)
    ensures !Contains(url, GoogleImageHost) ==> r == url
    ensures Contains(url, GoogleImageHost) ==> r == SizeForMail(url)
  {
    if Contains(url, GoogleImageHost) then SizeForMail(url) else url
  }

  /** A URL with no size parameter of either kind anywhere. */
  predicate Unsized(a: string) {
    forall p :: 0 <= p < |a| ==> !SizeParamStart(a, p, 'w') && !SizeParamStart(a, p, 'h')
  }

  lemma StripUnsized(a: string)
    requires Unsized(a)
    ensures StripSize(a) == a
  {
    ReplaceAllWithoutMatches(a, WidthParamAt, Fixed([]));
    ReplaceAllWithoutMatches(a, HeightParamAt, Fixed([]));
  }

  /** An URL without size parameters just gets the mail size appended. */
  lemma SizeForMailUnsized(a: string)
    requires Unsized(a)
    ensures SizeForMail(a) == a + [if Contains(a, "?") then '&' else '?'] + MailSize
  {
    StripUnsized(a);
  }

  /** A parameter start in the tail of a concatenation is one of the tail. */
  lemma StartInTail(x: string, y: string, j: int, letter: char)
    requires 0 <= j && SizeParamStart(x + y, |x| + j, letter)
    ensures SizeParamStart(y, j, letter)
  {
    var s := x + y;
    assert s[|x| + j] == y[j] && s[|x| + j + 1] == y[j + 1];
    assert s[|x| + j + 2] == y[j + 2] && s[|x| + j + 3] == y[j + 3];
  }

  /**
   Nothing in `a` starts a size parameter that reaches into a suffix beginning with a
   separator, since the three characters after a parameter's separator are a letter, `=` and
   a digit.
   */
  lemma NoStartBeforeSeparator(a: string, t: string, letter: char)
    requires Unsized(a) && letter in "wh"
    requires t != [] && IsQuerySeparator(t[0])
    ensures forall p :: 0 <= p < |a| ==> !SizeParamStart(a + t, p, letter)
  {
    var s := a + t;
    assert s[|a|] == t[0];
    forall p | 0 <= p < |a| ensures !SizeParamStart(s, p, letter) {
      if p + 3 < |a| {
        assert s[p] == a[p] && s[p + 1] == a[p + 1] && s[p + 2] == a[p + 2] && s[p + 3] == a[p + 3];
        assert !SizeParamStart(a, p, letter);
      } else {
        assert p + 1 == |a| || p + 2 == |a| || p + 3 == |a|;
      }
    }
  }

  lemma DigitsRunToEnd(s: string, from: nat)
    requires from <= |s| && forall k :: from <= k < |s| ==> IsDigit(s[k])
    ensures FindChar(s, from, NotDigit) == |s|
  {
    FindCharIs(s, from, NotDigit, |s|);
  }

  /** Stripping `a + "&h=600"` for an unsized `a` removes exactly the height. */
  lemma StripHeightTail(a: string)
    requires Unsized(a)
    ensures ReplaceAll(a + "&h=600", HeightParamAt, Fixed([])) == a
  {
    var s := a + "&h=600";
    NoStartBeforeSeparator(a, "&h=600", 'h');
    assert SizeParamStart(s, |a|, 'h') by {
      assert s[|a|..] == "&h=600";
    }
    assert s[|a|..] == "&h=600";
    DigitsRunToEnd(s, |a| + 3);
    ReplaceAllTrailing(s, HeightParamAt, Fixed([]), |a|);
    assert s[..|a|] == a;
  }

  /** Stripping widths from `a + sep + "w=800&h=600"` removes exactly the width. */
  lemma StripWidthTail(a: string, sep: char)
    requires Unsized(a) && IsQuerySeparator(sep)
    ensures ReplaceAll(a + [sep] + MailSize, WidthParamAt, Fixed([])) == a + "&h=600"
  {
    var b := "&h=600";
    forall p | 0 <= p < |b| ensures !SizeParamStart(b, p, 'w') {
      if p + 1 < |b| { assert b[p + 1] != 'w'; }
    }
    assert [sep] + MailSize == [sep] + "w=" + "800" + b;
    assert a + [sep] + MailSize == a + [sep] + "w=" + "800" + b;
    StripOneWidth(a, sep, "800", b);
  }

  /**
   Rewriting a rewritten URL changes nothing, provided the original carried no size
   parameter: the appended `w=800&h=600` is stripped and appended again with the same
   separator.
   */
  lemma SizeForMailIdempotent(a: string)
    requires Unsized(a)
    ensures SizeForMail(SizeForMail(a)) == SizeForMail(a)
  {
    SizeForMailUnsized(a);
    var sep := if Contains(a, "?") then '&' else '?';
    var once := a + [sep] + MailSize;
    StripWidthTail(a, sep);
    StripHeightTail(a);
    assert StripSize(once) == a;
  }

  /** A width parameter written into the middle of a URL is matched whole. */
  lemma MiddleWidthHit(a: string, sep: char, digits: string, b: string)
    requires IsQuerySeparator(sep)
    requires digits != [] && forall k :: 0 <= k < |digits| ==> IsDigit(digits[k])
    requires b == [] || IsQuerySeparator(b[0])
    ensures WidthParamAt(a + [sep] + "w=" + digits + b, |a|) == Some(Hit(|a| + 3 + |digits|, []))
  {
    var s := a + [sep] + "w=" + digits + b;
    var n := |a|;
    var e := n + 3 + |digits|;
    assert s[n] == sep && s[n + 1] == 'w' && s[n + 2] == '=' && s[n + 3] == digits[0];
    forall k | n + 3 <= k < e ensures !NotDigit(s[k]) {
      assert s[k] == digits[k - n - 3];
    }
    if b != [] {
      assert s[e] == b[0];
    }
    FindCharIs(s, n + 3, NotDigit, e);
  }

  /** A size parameter run from the middle of a URL: the two sides are joined. */
  lemma StripOneWidth(a: string, sep: char, digits: string, b: string)
    requires Unsized(a) && IsQuerySeparator(sep)
    requires forall p :: 0 <= p < |b| ==> !SizeParamStart(b, p, 'w')
    requires digits != [] && forall k :: 0 <= k < |digits| ==> IsDigit(digits[k])
    requires b == [] || IsQuerySeparator(b[0])
    ensures ReplaceAll(a + [sep] + "w=" + digits + b, WidthParamAt, Fixed([])) == a + b
  {
    var mid := [sep] + "w=" + digits;
    var s := a + [sep] + "w=" + digits + b;
    assert s == a + (mid + b) && s == (a + mid) + b;
    var n := |a|;
    var e := n + |mid|;
    NoStartBeforeSeparator(a, mid + b, 'w');
    MiddleWidthHit(a, sep, digits, b);
    forall j | e <= j < |s| ensures !ValidHit(s, j, WidthParamAt(s, j)) {
      if SizeParamStart(s, j, 'w') {
        StartInTail(a + mid, b, j - e, 'w');
      }
    }
    ReplaceAllOnly(s, WidthParamAt, Fixed([]), n);
    assert s[..n] == a && s[e..] == b;
  }
}
