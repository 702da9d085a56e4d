/** Numbers as the engine sees them: exact reals standing for finite IEEE
    doubles, plus one value for everything non-finite (NaN and the infinities). */
module Numbers {
  import opened Text

  datatype Num = Finite(r: real) | NonFinite

  function DigitValue(c: char): nat
    requires IsDigit(c)
  {
    c as int - '0' as int
  }

  /** The value of a run of decimal digits, most significant first. */
  function DigitsValue(ds: string): nat
    requires AllDigits(ds)
    decreases |ds|
  {
    if ds == [] then 0 else DigitsValue(ds[..|ds| - 1]) * 10 + DigitValue(ds[|ds| - 1])
  }

  function Pow10(n: nat): (p: nat)
    ensures p >= 1
  {
    if n == 0 then 1 else 10 * Pow10(n - 1)
  }

  /** `parseFloat` on the text the engine hands it: it reads the longest prefix
      of the shape `-?\d*(\.\d*)?` and gives no number (NaN) when that prefix
      holds no digit, as for "", "-", "." and "-.". */
  function ParseFloat(t: string): Option<real> {
    var u := Unsigned(t);
    var i := DigitsAfter(u);
    var hasPoint := i < |u| && u[i] == '.';
    var f := if hasPoint then DigitsAfter(u[i + 1..]) else 0;
    if i == 0 && f == 0 then None
    else Some(Signed(if HasSign(t) then "-" else "", DecimalValue(u[..i], if hasPoint then u[i + 1..][..f] else "")))
  }

  /** The value of the digits `w`, a point and the digits `f`. */
  function DecimalValue(w: string, f: string): real
    requires AllDigits(w) && AllDigits(f)
  {
    DigitsValue(w) as real + DigitsValue(f) as real / Pow10(|f|) as real
  }

  /** `v`, negated when `sign` is "-". */
  function Signed(sign: string, v: real): real {
    if sign == "-" then -v else v
  }

  /** The number `parseFloat` yields: NaN where no number was read. */
  function ToNum(o: Option<real>): Num {
    match o
    case Some(x) => Finite(x)
    case None => NonFinite
  }

  /** One binary operation of the evaluator on doubles, with exact real
      arithmetic for finite operands; any non-finite operand gives a non-finite
      result, and so does a division by zero (which the evaluator checks first). */
  function Apply(op: OpChar, a: Num, b: Num): (c: Num)
    ensures c.Finite? <==> a.Finite? && b.Finite? && !(op == '/' && b.r == 0.0)
  {
    if a.NonFinite? || b.NonFinite? then NonFinite
    else if op == '+' then Finite(a.r + b.r)
    else if op == '-' then Finite(a.r - b.r)
    else if op == '*' then Finite(a.r * b.r)
    else if b.r != 0.0 then Finite(a.r / b.r)
    else NonFinite
  }

  /** An optional sign in front of text that does not start with '-'. */
  lemma SignParts(sign: string, u: string)
    requires sign == "" || sign == "-"
    requires u != [] && u[0] != '-'
    ensures HasSign(sign + u) <==> sign == "-"
    ensures Unsigned(sign + u) == u
  {
    var t := sign + u;
    if sign == "-" {
      assert t[0] == '-' && t[1..] == u;
    } else {
      assert t == u;
    }
  }

  /** `parseFloat` once the sign, the digits before the point and the
      fraction digits have been found. */
  lemma ParseParts(t: string, sign: string, u: string, w: string, f: string, pointed: bool)
    requires sign == "" || sign == "-"
    requires AllDigits(w) && w != [] && AllDigits(f)
    requires HasSign(t) <==> sign == "-"
    requires Unsigned(t) == u
    requires DigitsAfter(u) == |w| && u[..|w|] == w
    requires pointed ==> |w| < |u| && u[|w|] == '.' && DigitsAfter(u[|w| + 1..]) == |f| && u[|w| + 1..][..|f|] == f
    requires !pointed ==> |w| == |u| && f == ""
    ensures ParseFloat(t) == Some(Signed(sign, DecimalValue(w, f)))
  {
  }

  /** An optional sign and digits read as the value of the digits. */
  lemma ParseWhole(sign: string, w: string)
    requires sign == "" || sign == "-"
    requires AllDigits(w) && w != []
    ensures ParseFloat(sign + w) == Some(Signed(sign, DecimalValue(w, "")))
  {
    SignParts(sign, w);
    assert DigitsAfter(w) == |w|;
    assert w[..|w|] == w;
    ParseParts(sign + w, sign, w, w, "", false);
  }

  /** An optional sign, digits, a point and digits read as the whole part plus
      the fraction. */
  lemma ParsePointed(sign: string, w: string, f: string)
    requires sign == "" || sign == "-"
    requires AllDigits(w) && w != [] && AllDigits(f)
    ensures ParseFloat(sign + w + "." + f) == Some(Signed(sign, DecimalValue(w, f)))
  {
    var u := w + "." + f;
    assert sign + w + "." + f == sign + u;
    assert u[0] == w[0];
    SignParts(sign, u);
    PointedParts(w, f);
    ParseParts(sign + u, sign, u, w, f, true);
  }

  lemma PointedParts(w: string, f: string)
    requires AllDigits(w) && w != [] && AllDigits(f)
    ensures var u := w + "." + f;
      && DigitsAfter(u) == |w| && u[|w|] == '.'
      && u[..|w|] == w && u[|w| + 1..] == f
      && DigitsAfter(u[|w| + 1..]) == |f| && u[|w| + 1..][..|f|] == f
  {
    var u := w + "." + f;
    assert u[|w|] == '.';
    assert u[..|w|] == w;
    assert u[|w| + 1..] == f;
    assert DigitsAfter(f) == |f|;
    assert f[..|f|] == f;
  }
}
