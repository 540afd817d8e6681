/**
 The font size both parsers read: `parseFloat` of a decimal literal `\d+(?:\.\d+)?`, later printed
 back by a template literal. The number is modelled by the text JavaScript prints for it: the
 whole part without leading zeros, then the fraction without trailing zeros, and no `.` when the
 fraction is gone. `14.0` becomes `14`, `007.50` becomes `7.5`, and `0.0` becomes the falsy `0`.
 */
module Numbers {
  import opened Text

  /** A run of digits with at most one inner `.`, both sides non-empty: `\d+(?:\.\d+)?`. */
  predicate IsDecimal(v: string) {
    DecimalPoint(v, WholeEnd(v))
  }

  /** `v` is digits up to `d`, then either nothing or a `.` and more digits. */
  predicate DecimalPoint(v: string, d: int) {
    0 < d <= |v| && (forall k :: 0 <= k < d ==> IsDigit(v[k]))
    && (d == |v| || (v[d] == '.' && d + 1 < |v| && forall k :: d < k < |v| ==> IsDigit(v[k])))
  }

  predicate AllDigits(s: string) {
    forall k :: 0 <= k < |s| ==> IsDigit(s[k])
  }

  predicate AllZeros(s: string) {
    forall k :: 0 <= k < |s| ==> s[k] == '0'
  }

  /** Where the leading digit run ends: the whole part of a decimal literal. */
  function WholeEnd(v: string): nat {
    FindChar(v, 0, NotDigit)
  }

  /** A literal split by a point at `d` is a decimal literal, and `d` is where its whole part ends. */
  lemma DecimalAt(v: string, d: int)
    requires DecimalPoint(v, d)
    ensures IsDecimal(v) && WholeEnd(v) == d
  {
    FindCharIs(v, 0, NotDigit, d);
  }

  function Whole(v: string): string
    requires IsDecimal(v)
  {
    v[..WholeEnd(v)]
  }

  /** The digits after the point; empty for a whole number. */
  function Fraction(v: string): string
    requires IsDecimal(v)
  {
    var d := WholeEnd(v);
    if d == |v| then [] else v[d + 1..]
  }

  /** The whole number a run of digits spells. */
  function DigitsValue(ds: string): nat
    requires AllDigits(ds)
    decreases |ds|
  {
    if ds == [] then 0 else DigitsValue(ds[..|ds| - 1]) * 10 + (ds[|ds| - 1] as int - '0' as int)
  }

  /** The leading zeros of a digit run dropped, keeping the last digit when all are zeros. */
  function DropLeadingZeros(ds: string): (r: string)
    requires ds != [] && AllDigits(ds)
    decreases |ds|
    ensures r != [] && AllDigits(r)
    ensures r[0] == '0' ==> r == "0"
  {
    if |ds| > 1 && ds[0] == '0' then
      assert AllDigits(ds[1..]) by { assert forall k :: 0 <= k < |ds| - 1 ==> ds[1..][k] == ds[k + 1]; }
      DropLeadingZeros(ds[1..])
    else
      ds
  }

  /** The trailing zeros of a digit run dropped. */
  function DropTrailingZeros(fs: string): (r: string)
    requires AllDigits(fs)
    decreases |fs|
    ensures AllDigits(r)
    ensures r == [] || r[|r| - 1] != '0'
  {
    if fs != [] && fs[|fs| - 1] == '0' then
      assert AllDigits(fs[..|fs| - 1]) by { assert forall k :: 0 <= k < |fs| - 1 ==> fs[..|fs| - 1][k] == fs[k]; }
      DropTrailingZeros(fs[..|fs| - 1])
    else
      fs
  }

  /** What the leading zeros drop is a run of zeros in front of what they keep. */
  lemma {:induction false} LeadingZerosSplit(ds: string)
    requires ds != [] && AllDigits(ds)
    decreases |ds|
    ensures var r := DropLeadingZeros(ds);
      |r| <= |ds| && ds == ds[..|ds| - |r|] + r && AllZeros(ds[..|ds| - |r|])
  {
    if |ds| > 1 && ds[0] == '0' {
      var t := ds[1..];
      assert AllDigits(t) by { assert forall k :: 0 <= k < |t| ==> t[k] == ds[k + 1]; }
      var r := DropLeadingZeros(t);
      assert DropLeadingZeros(ds) == r;
      LeadingZerosSplit(t);
      var z := t[..|t| - |r|];
      ZeroCons(ds[0], z);
      ConsSplit(ds, z, r);
    } else {
      assert ds[..0] == [];
    }
  }

  lemma ZeroCons(c: char, z: string)
    requires c == '0' && AllZeros(z)
    ensures AllZeros([c] + z)
  {
    assert forall k :: 0 < k < |z| + 1 ==> ([c] + z)[k] == z[k - 1];
  }

  lemma ConsSplit(ds: string, z: string, r: string)
    requires ds != [] && ds[1..] == z + r
    ensures ds[..|ds| - |r|] == [ds[0]] + z && ds == ds[..|ds| - |r|] + r
  {
    assert ds == [ds[0]] + ds[1..];
  }

  /**
   `${parseFloat(v)}` for a decimal literal `v`: the whole part without leading zeros, then the
   fraction without trailing zeros after a `.`, or nothing when the fraction is all zeros.
   */
  function CanonicalNumber(v: string): (r: string)
    requires IsDecimal(v)
    ensures IsCanonical(r)
  {
    var f := DropTrailingZeros(Fraction(v));
    var w := DropLeadingZeros(Whole(v));
    PartsOf(w, f);
    if f == [] then w else w + "." + f
  }

  /** The printed form of a number: no leading zero unless it is the only whole digit, no trailing fraction zero. */
  predicate IsCanonical(v: string) {
    IsDecimal(v) && (Whole(v)[0] == '0' ==> Whole(v) == "0")
    && (Fraction(v) == [] || Fraction(v)[|Fraction(v)| - 1] != '0')
  }

  /** A number printed back is zero exactly when it prints as `0`. */
  predicate IsZero(v: string) {
    IsDecimal(v) && AllZeros(Whole(v)) && AllZeros(Fraction(v))
  }

  // ------------------------------------------------------------------ properties

  /** The whole and fraction parts of `w` or `w.f` built from digit runs. */
  lemma PartsOf(w: string, f: string)
    requires w != [] && AllDigits(w) && AllDigits(f)
    ensures var v := if f == [] then w else w + "." + f;
      IsDecimal(v) && Whole(v) == w && Fraction(v) == f
  {
    var v := if f == [] then w else w + "." + f;
    assert v[..|w|] == w;
    if f != [] {
      assert v[|w|] == '.' && v[|w| + 1..] == f;
    }
    assert DecimalPoint(v, |w|);
    DecimalAt(v, |w|);
  }

  /**
   The printed number has the value read: the whole part spells the same number, and the
   fraction is the one read less trailing zeros.
   */
  lemma CanonicalKeepsValue(v: string)
    requires IsDecimal(v)
    ensures var r := CanonicalNumber(v);
      IsDecimal(r) && DigitsValue(Whole(r)) == DigitsValue(Whole(v))
      && |Fraction(r)| <= |Fraction(v)| && Fraction(v) == Fraction(r) + Fraction(v)[|Fraction(r)|..]
      && AllZeros(Fraction(v)[|Fraction(r)|..])
  {
    CanonicalParts(v);
    LeadingZerosValue(Whole(v));
    TrailingZerosSplit(Fraction(v));
  }

  lemma {:induction false} TrailingZerosSplit(fs: string)
    requires AllDigits(fs)
    decreases |fs|
    ensures var f := DropTrailingZeros(fs); |f| <= |fs| && fs == f + fs[|f|..] && AllZeros(fs[|f|..])
  {
    if fs != [] && fs[|fs| - 1] == '0' {
      var t := fs[..|fs| - 1];
      assert AllDigits(t) by { assert forall k :: 0 <= k < |t| ==> t[k] == fs[k]; }
      TrailingZerosSplit(t);
      var f := DropTrailingZeros(t);
      assert fs == t + [fs[|fs| - 1]];
      assert fs[|f|..] == t[|f|..] + [fs[|fs| - 1]];
    } else {
      assert fs[|fs|..] == [];
    }
  }


  /** The parts of the printed number are the parts read, trimmed of zeros. */
  lemma CanonicalParts(v: string)
    requires IsDecimal(v)
    ensures Whole(CanonicalNumber(v)) == DropLeadingZeros(Whole(v))
    ensures Fraction(CanonicalNumber(v)) == DropTrailingZeros(Fraction(v))
  {
    PartsOf(DropLeadingZeros(Whole(v)), DropTrailingZeros(Fraction(v)));
  }

  lemma LeadingZerosValue(ds: string)
    requires ds != [] && AllDigits(ds)
    ensures DigitsValue(DropLeadingZeros(ds)) == DigitsValue(ds)
  {
    var w := DropLeadingZeros(ds);
    LeadingZerosSplit(ds);
    ZerosPrefixValue(ds[..|ds| - |w|], w);
  }

  /** A fraction of zeros only loses all of them. */
  lemma TrailingZerosGone(fs: string)
    requires AllDigits(fs) && AllZeros(fs)
    ensures DropTrailingZeros(fs) == []
  {
    TrailingZerosSplit(fs);
  }

  /** Printing a printed number changes nothing. */
  lemma CanonicalIdempotent(v: string)
    requires IsDecimal(v)
    ensures CanonicalNumber(CanonicalNumber(v)) == CanonicalNumber(v)
  {
    CanonicalFixed(CanonicalNumber(v));
  }

  /** A number already in printed form prints as itself. */
  lemma CanonicalFixed(v: string)
    requires IsCanonical(v)
    ensures CanonicalNumber(v) == v
  {
    LeadingKept(Whole(v));
    TrailingKept(Fraction(v));
    JoinParts(v);
  }

  /** A decimal literal is its whole part, then `.` and its fraction when there is one. */
  lemma JoinParts(v: string)
    requires IsDecimal(v)
    ensures v == if Fraction(v) == [] then Whole(v) else Whole(v) + "." + Fraction(v)
  {
    var d := WholeEnd(v);
    if d < |v| {
      assert v == v[..d] + [v[d]] + v[d + 1..];
    }
  }

  lemma LeadingKept(w: string)
    requires w != [] && AllDigits(w) && (w[0] == '0' ==> w == "0")
    ensures DropLeadingZeros(w) == w
  {
  }

  lemma TrailingKept(f: string)
    requires AllDigits(f) && (f == [] || f[|f| - 1] != '0')
    ensures DropTrailingZeros(f) == f
  {
  }

  /** The number read is zero exactly when it prints as `0`, the one falsy size. */
  lemma ZeroPrintsAsZero(v: string)
    requires IsDecimal(v)
    ensures CanonicalNumber(v) == "0" <==> IsZero(v)
  {
    var r := CanonicalNumber(v);
    CanonicalParts(v);
    ZeroShape(r);
    LeadingZerosZero(Whole(v));
    TrailingZerosEmpty(Fraction(v));
  }

  /** A decimal literal is `0` exactly when its whole part is `0` and it has no fraction. */
  lemma ZeroShape(r: string)
    requires IsDecimal(r)
    ensures r == "0" <==> Whole(r) == "0" && Fraction(r) == []
  {
    JoinParts(r);
    if r == "0" {
      DecimalAt(r, 1);
    }
  }

  /** The leading zeros leave `0` exactly when the run is all zeros. */
  lemma {:induction false} LeadingZerosZero(ds: string)
    requires ds != [] && AllDigits(ds)
    ensures DropLeadingZeros(ds) == "0" <==> AllZeros(ds)
    decreases |ds|
  {
    if |ds| > 1 && ds[0] == '0' {
      var t := ds[1..];
      assert AllDigits(t);
      LeadingZerosZero(t);
      assert AllZeros(ds) <==> AllZeros(t) by {
        assert forall k :: 0 <= k < |t| ==> t[k] == ds[k + 1];
      }
    } else if |ds| == 1 {
      assert AllZeros(ds) <==> ds[0] == '0';
      assert ds == [ds[0]];
    } else {
      assert ds[0] != '0';
    }
  }

  /** The trailing zeros leave nothing exactly when the run is all zeros. */
  lemma TrailingZerosEmpty(fs: string)
    requires AllDigits(fs)
    ensures DropTrailingZeros(fs) == [] <==> AllZeros(fs)
  {
    var f := DropTrailingZeros(fs);
    if AllZeros(fs) {
      TrailingZerosGone(fs);
    }
    TrailingZerosSplit(fs);
  }

  /** `14.0` prints as `14`. */
  lemma WholeExample()
    ensures IsDecimal("14.0") && CanonicalNumber("14.0") == "14"
  {
    assert DecimalPoint("14.0", 2);
    DecimalAt("14.0", 2);
    assert Whole("14.0") == "14" && Fraction("14.0") == "0";
  }

  /** `007.50` prints as `7.5`. */
  lemma FractionExample()
    ensures IsDecimal("007.50") && CanonicalNumber("007.50") == "7.5"
  {
    var v := "007.50";
    assert DecimalPoint(v, 3);
    DecimalAt(v, 3);
    assert Whole(v) == "007" && Fraction(v) == "50";
    assert DropTrailingZeros("50") == "5" by { assert "50"[..1] == "5"; }
    assert DropLeadingZeros("007") == "7" by { assert "007"[1..] == "07" && "07"[1..] == "7"; }
    assert "7" + "." + "5" == "7.5";
  }

  /** Leading zeros add nothing to the number a digit run spells. */
  lemma {:induction false} ZerosPrefixValue(z: string, w: string)
    requires AllZeros(z) && AllDigits(w)
    ensures AllDigits(z + w) && DigitsValue(z + w) == DigitsValue(w)
    decreases |w|
  {
    var s := z + w;
    assert AllDigits(s) by {
      forall k | 0 <= k < |s|
        ensures IsDigit(s[k])
      {
        if k < |z| { assert s[k] == z[k]; } else { assert s[k] == w[k - |z|]; }
      }
    }
    if w == [] {
      assert s == z;
      ZerosValue(z);
    } else {
      var w' := w[..|w| - 1];
      assert s[..|s| - 1] == z + w';
      assert s[|s| - 1] == w[|w| - 1];
      ZerosPrefixValue(z, w');
    }
  }

  /** A run of zeros spells zero. */
  lemma {:induction false} ZerosValue(z: string)
    requires AllZeros(z)
    ensures AllDigits(z) && DigitsValue(z) == 0
    decreases |z|
  {
    if z != [] {
      assert AllZeros(z[..|z| - 1]);
      ZerosValue(z[..|z| - 1]);
    }
  }
}
