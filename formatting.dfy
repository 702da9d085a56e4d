/** The string step at the end of `formatResult` in engine.js: trailing zeros
    of a fraction are dropped, and so is a point left with only zeros after it.
    The rounding and the conversion of the number to text before it are IEEE
    behaviour and not part of this model. */
module Formatting {
  import opened Text
  import opened Numbers

  /** The start of the run of '0' characters that ends at index `j` of `s`. */
  function ZerosBefore(s: string, j: nat): (i: nat)
    requires j <= |s|
    ensures i <= j && forall k :: i <= k < j ==> s[k] == '0'
    ensures i > 0 ==> s[i - 1] != '0'
    decreases j
  {
    if j > 0 && s[j - 1] == '0' then ZerosBefore(s, j - 1) else j
  }

  /** The number of '0' characters at the end of `s`. */
  function TrailingZeros(s: string): (z: nat)
    ensures z <= |s| && forall k :: |s| - z <= k < |s| ==> s[k] == '0'
    ensures z < |s| ==> s[|s| - z - 1] != '0'
  {
    |s| - ZerosBefore(s, |s|)
  }

  /** `s` ends in a fraction: a point with only digits after it, which start
      at `FractionStart(s)`. */
  predicate HasFraction(s: string) {
    var j := DigitsBefore(s, |s|);
    j > 0 && s[j - 1] == '.'
  }

  function FractionStart(s: string): (j: nat)
    ensures j <= |s|
  {
    DigitsBefore(s, |s|)
  }

  /** `replace(/(\.\d*?[1-9])0+$/, "$1")`: the zeros after the last non-zero
      digit of a fraction go. */
  function TrimZeros(s: string): string {
    var z := TrailingZeros(s);
    if HasFraction(s) && 0 < z < |s| - FractionStart(s) then s[..|s| - z] else s
  }

  /** `replace(/\.0+$/, "")`: a point followed by zeros only goes with them. */
  function TrimPoint(s: string): string {
    var z := TrailingZeros(s);
    if HasFraction(s) && 0 < z && z == |s| - FractionStart(s) then s[..FractionStart(s) - 1] else s
  }

  /** The trimming step of `formatResult`, applied to text with a point and no exponent. */
  function TrimFraction(text: string): string {
    if '.' in text && 'e' !in text then TrimPoint(TrimZeros(text)) else text
  }

  // ---------------------------------------------------------------------
  // What the trimming does

  /** The run of zeros ending inside `f`, counted in `x + f`. */
  lemma {:induction false} ZerosBeforeAppend(x: string, f: string, j: nat)
    requires x != [] && x[|x| - 1] != '0' && j <= |f|
    ensures ZerosBefore(x + f, |x| + j) == |x| + ZerosBefore(f, j)
    decreases j
  {
    var t := x + f;
    if j > 0 {
      assert t[|x| + j - 1] == f[j - 1];
      if f[j - 1] == '0' {
        ZerosBeforeAppend(x, f, j - 1);
      }
    } else {
      assert t[|x| - 1] == x[|x| - 1];
    }
  }

  /** Digits after a point form the fraction. */
  lemma FractionAt(x: string, f: string)
    requires x != [] && x[|x| - 1] == '.' && AllDigits(f)
    ensures HasFraction(x + f) && FractionStart(x + f) == |x|
  {
    var s := x + f;
    var i := DigitsBefore(s, |s|);
    assert s[|x| - 1] == '.';
  }

  /** The zeros ending text with a point are those ending its fraction. */
  lemma TrailingZerosOfPoint(x: string, f: string)
    requires x != [] && x[|x| - 1] == '.' && AllDigits(f)
    ensures TrailingZeros(x + f) == TrailingZeros(f)
  {
    ZerosBeforeAppend(x, f, |f|);
  }

  lemma NoExponent(x: string, f: string)
    requires 'e' !in x && AllDigits(f)
    ensures 'e' !in x + f
  {
    var t := x + f;
    forall k | 0 <= k < |t| ensures t[k] != 'e' {
      if k >= |x| {
        assert t[k] == f[k - |x|];
      }
    }
  }

  lemma PrefixOfAppend(x: string, f: string, n: nat)
    requires n <= |f|
    ensures (x + f)[..|x| + n] == x + f[..n]
  {
  }

  /** The zeros ending a fraction with another digit go; otherwise
      `TrimZeros` changes nothing. */
  lemma TrimZerosOfPoint(x: string, f: string)
    requires x != [] && x[|x| - 1] == '.' && AllDigits(f)
    ensures var z := TrailingZeros(f);
      TrimZeros(x + f) == if 0 < z < |f| then x + f[..|f| - z] else x + f
  {
    var t := x + f;
    var z := TrailingZeros(f);
    FractionAt(x, f);
    TrailingZerosOfPoint(x, f);
    assert |t| - FractionStart(t) == |f|;
    if 0 < z < |f| {
      PrefixOfAppend(x, f, |f| - z);
    }
  }

  /** A fraction of zeros only goes with its point; otherwise `TrimPoint`
      changes nothing. */
  lemma TrimPointOfPoint(x: string, f: string)
    requires x != [] && x[|x| - 1] == '.' && AllDigits(f)
    ensures var z := TrailingZeros(f);
      TrimPoint(x + f) == if 0 < z == |f| then x[..|x| - 1] else x + f
  {
    var t := x + f;
    FractionAt(x, f);
    TrailingZerosOfPoint(x, f);
    assert t[..|x| - 1] == x[..|x| - 1];
  }

  /** Text with a point and no exponent is trimmed. */
  lemma TrimFractionApplies(x: string, f: string)
    requires x != [] && x[|x| - 1] == '.' && 'e' !in x && AllDigits(f)
    ensures TrimFraction(x + f) == TrimPoint(TrimZeros(x + f))
  {
    var t := x + f;
    assert t[|x| - 1] == '.';
    NoExponent(x, f);
  }

  /** The digits before the zeros ending a fraction: digits again, and not
      ending in '0'. */
  lemma FractionHead(f: string, z: nat)
    requires AllDigits(f) && z == TrailingZeros(f) && z < |f|
    ensures AllDigits(f[..|f| - z]) && TrailingZeros(f[..|f| - z]) == 0
  {
    DigitsPrefix(f, |f| - z);
    var g := f[..|f| - z];
    assert f[|f| - z - 1] != '0';
    assert g[|g| - 1] == f[|f| - z - 1];
  }

  lemma DigitsPrefix(f: string, n: nat)
    requires AllDigits(f) && n <= |f|
    ensures AllDigits(f[..n])
  {
    var g := f[..n];
    forall k | 0 <= k < |g| ensures IsDigit(g[k]) {
      assert g[k] == f[k];
    }
  }

  /** On text ending in a point and the digits `f`: nothing changes when `f`
      does not end in '0'; the zeros ending `f` go when `f` has another digit;
      and the point goes with them when `f` is only zeros. */
  lemma TrimFractionOfPoint(x: string, f: string)
    requires x != [] && x[|x| - 1] == '.' && 'e' !in x && AllDigits(f)
    ensures var z := TrailingZeros(f);
      TrimFraction(x + f) ==
        if z == 0 then x + f
        else if z < |f| then x + f[..|f| - z]
        else x[..|x| - 1]
  {
    var z := TrailingZeros(f);
    TrimFractionApplies(x, f);
    TrimZerosOfPoint(x, f);
    if 0 < z < |f| {
      var f' := f[..|f| - z];
      FractionHead(f, z);
      TrimPointOfPoint(x, f');
    } else {
      TrimPointOfPoint(x, f);
    }
  }

  /** In decimal text every character after the point is a digit, there is
      no other point, and there is no exponent. */
  lemma DecimalPoint(t: string, p: nat)
    requires IsDecimalText(t) && p < |t| && t[p] == '.'
    ensures forall k :: p < k < |t| ==> IsDigit(t[k])
    ensures forall k :: 0 <= k < |t| && k != p ==> t[k] != '.'
    ensures 'e' !in t
  {
    var u := Unsigned(t);
    var sgn := if HasSign(t) then 1 else 0;
    assert u == t[sgn..];
    assert u[p - sgn] == '.';
    forall k | 0 <= k < |t| && k != p ensures t[k] != '.' && t[k] != 'e' && (k > p ==> IsDigit(t[k])) {
      if k >= sgn {
        assert u[k - sgn] == t[k];
        if k < p {
          assert 0 <= k - sgn < p - sgn < |u|;
        }
      }
    }
  }

  /** Decimal text split after its point: the part up to the point holds no
      other point and no exponent, and digits follow. */
  lemma PointSplit(t: string, p: nat) returns (x: string, f: string)
    requires IsDecimalText(t) && p < |t| && t[p] == '.'
    ensures t == x + f && x != [] && x[|x| - 1] == '.'
    ensures 'e' !in x && AllDigits(f) && '.' !in x[..|x| - 1]
  {
    DecimalPoint(t, p);
    x := t[..p + 1];
    f := t[p + 1..];
    assert AllDigits(f) by {
      forall k | 0 <= k < |f| ensures IsDigit(f[k]) {
        assert f[k] == t[p + 1 + k];
      }
    }
    assert x[..|x| - 1] == t[..p];
    assert '.' !in t[..p] by {
      forall k | 0 <= k < p ensures t[..p][k] != '.' {
        assert t[..p][k] == t[k];
      }
    }
  }

  /** The trimmed form of decimal text trims to itself. */
  lemma TrimFractionIdempotent(text: string)
    requires IsDecimalText(text)
    ensures TrimFraction(TrimFraction(text)) == TrimFraction(text)
  {
    if '.' in text {
      var p :| 0 <= p < |text| && text[p] == '.';
      var x, f := PointSplit(text, p);
      TrimFractionOfPoint(x, f);
      var z := TrailingZeros(f);
      if 0 < z < |f| {
        FractionHead(f, z);
        TrimFractionOfPoint(x, f[..|f| - z]);
      }
    }
  }

  // ---------------------------------------------------------------------
  // The value is kept

  lemma ScaleFraction(a: real, b: real)
    requires b > 0.0
    ensures (10.0 * a) / (10.0 * b) == a / b
  {
  }

  /** One zero at the end of a fraction does not change its value. */
  lemma FractionZero(w: string, f: string)
    requires AllDigits(w) && AllDigits(f)
    ensures AllDigits(f + "0") && DecimalValue(w, f + "0") == DecimalValue(w, f)
  {
    var g := f + "0";
    assert g[..|g| - 1] == f;
    assert DigitsValue(g) == 10 * DigitsValue(f);
    assert Pow10(|g|) == 10 * Pow10(|f|);
    ScaleFraction(DigitsValue(f) as real, Pow10(|f|) as real);
  }

  /** Zeros at the end of a fraction do not change its value. */
  lemma {:induction false} FractionZeros(w: string, f: string, z: nat)
    requires AllDigits(w) && AllDigits(f) && z <= |f|
    requires forall k :: |f| - z <= k < |f| ==> f[k] == '0'
    ensures DecimalValue(w, f[..|f| - z]) == DecimalValue(w, f)
    decreases z
  {
    if z == 0 {
      assert f[..|f|] == f;
    } else {
      var f' := f[..|f| - 1];
      assert f' + "0" == f;
      assert f'[..|f'| - (z - 1)] == f[..|f| - z];
      FractionZeros(w, f', z - 1);
      FractionZero(w, f');
    }
  }

  /** Inside decimal text, a character past the sign position that is not
      the point is a digit. */
  lemma DigitInDecimal(t: string, k: nat)
    requires IsDecimalText(t) && k < |t| && t[k] != '.'
    requires k > 0 || t[k] != '-'
    ensures IsDigit(t[k])
  {
    if !IsDigit(t[k]) {
      NotDecimalAt(t, k);
    }
  }

  /** Decimal text with a digit before its point is a sign, digits, the
      point and digits. */
  lemma DecimalSplit(t: string, p: nat) returns (sign: string, w: string, f: string)
    requires IsDecimalText(t) && 0 < p < |t| && t[p] == '.' && IsDigit(t[p - 1])
    ensures sign == "" || sign == "-"
    ensures AllDigits(w) && w != [] && AllDigits(f)
    ensures t == sign + w + "." + f
  {
    DecimalPoint(t, p);
    sign := if HasSign(t) then "-" else "";
    w := t[|sign|..p];
    f := t[p + 1..];
    assert AllDigits(w) by {
      forall k | 0 <= k < |w| ensures IsDigit(w[k]) {
        assert w[k] == t[|sign| + k];
        DigitInDecimal(t, |sign| + k);
      }
    }
    assert AllDigits(f) by {
      forall k | 0 <= k < |f| ensures IsDigit(f[k]) {
        assert f[k] == t[p + 1 + k];
      }
    }
    assert t[..|sign|] == sign;
    assert t == t[..|sign|] + w + [t[p]] + f;
  }

  /** Dropping the zeros that end a fraction with another digit keeps the value. */
  lemma KeepsValueTrimmed(sign: string, w: string, f: string, z: nat)
    requires sign == "" || sign == "-"
    requires AllDigits(w) && w != [] && AllDigits(f)
    requires z == TrailingZeros(f) && 0 < z < |f|
    ensures ParseFloat(sign + w + "." + f[..|f| - z]) == ParseFloat(sign + w + "." + f)
  {
    FractionHead(f, z);
    ParsePointed(sign, w, f);
    ParsePointed(sign, w, f[..|f| - z]);
    FractionZeros(w, f, z);
  }

  /** Dropping a point with only zeros after it keeps the value. */
  lemma KeepsValueWhole(sign: string, w: string, f: string)
    requires sign == "" || sign == "-"
    requires AllDigits(w) && w != [] && AllDigits(f)
    requires TrailingZeros(f) == |f|
    ensures ParseFloat(sign + w) == ParseFloat(sign + w + "." + f)
  {
    ParsePointed(sign, w, f);
    ParseWhole(sign, w);
    FractionZeros(w, f, |f|);
    assert f[..0] == "";
  }

  /** On decimal text with a digit before its point, trimming keeps the value
      `parseFloat` reads. */
  lemma TrimFractionKeepsValue(t: string, p: nat)
    requires IsDecimalText(t) && 0 < p < |t| && t[p] == '.' && IsDigit(t[p - 1])
    ensures ParseFloat(TrimFraction(t)) == ParseFloat(t)
  {
    var sign, w, f := DecimalSplit(t, p);
    var x := sign + w + ".";
    assert t == x + f;
    assert 'e' !in x by {
      DecimalPoint(t, p);
      forall k | 0 <= k < |x| ensures x[k] != 'e' {
        assert x[k] == t[k];
      }
    }
    TrimFractionOfPoint(x, f);
    var z := TrailingZeros(f);
    if 0 < z < |f| {
      assert x + f[..|f| - z] == sign + w + "." + f[..|f| - z];
      KeepsValueTrimmed(sign, w, f, z);
    } else if 0 < z {
      assert x[..|x| - 1] == sign + w;
      KeepsValueWhole(sign, w, f);
    }
  }
}
