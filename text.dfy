/** Characters and the shape of decimal text, shared by the tokenizer, the
    editing helpers and the formatter. */
module Text {

  datatype Option<+T> = None | Some(value: T)

  /** The four operator keys, `+ - * /`. */
  predicate IsOperator(c: char) {
    c == '+' || c == '-' || c == '*' || c == '/'
  }

  type OpChar = c: char | IsOperator(c) witness '+'

  /** `\d` of a JavaScript regular expression: ASCII digits only. */
  predicate IsDigit(c: char) {
    '0' <= c <= '9'
  }

  /** The characters the tokenizer acts on; it skips every other character. */
  predicate IsLexical(c: char) {
    IsDigit(c) || c == '.' || IsOperator(c)
  }

  predicate AllDigits(s: string) {
    forall k :: 0 <= k < |s| ==> IsDigit(s[k])
  }

  predicate AllLexical(s: string) {
    forall k :: 0 <= k < |s| ==> IsLexical(s[k])
  }

  /** `t` starts with a minus sign. */
  predicate HasSign(t: string) {
    |t| > 0 && t[0] == '-'
  }

  /** The text after an optional leading minus sign. */
  function Unsigned(t: string): (u: string)
    ensures |t| > 0 && t[0] == '-' ==> u == t[1..]
    ensures (|t| == 0 || t[0] != '-') ==> u == t
  {
    if |t| > 0 && t[0] == '-' then t[1..] else t
  }

  /** `t` matches the regular expression `-?\d*\.?\d*` as a whole: an optional
      minus sign, then digits with at most one decimal point among them. */
  predicate IsDecimalText(t: string) {
    var u := Unsigned(t);
    && (forall k :: 0 <= k < |u| ==> IsDigit(u[k]) || u[k] == '.')
    && (forall k, m :: 0 <= k < m < |u| ==> !(u[k] == '.' && u[m] == '.'))
  }

  /** The numerals the tokenizer emits: decimal text other than "" and "-". */
  predicate IsNumeralText(t: string) {
    IsDecimalText(t) && t != "" && t != "-"
  }

  /** The start of the run of digits that ends at index `j` of `s`. */
  function DigitsBefore(s: string, j: nat): (i: nat)
    requires j <= |s|
    ensures i <= j && forall k :: i <= k < j ==> IsDigit(s[k])
    ensures i > 0 ==> !IsDigit(s[i - 1])
    decreases j
  {
    if j > 0 && IsDigit(s[j - 1]) then DigitsBefore(s, j - 1) else j
  }

  /** The length of the run of digits at the front of `s`. */
  function DigitsAfter(s: string): (n: nat)
    ensures n <= |s| && forall k :: 0 <= k < n ==> IsDigit(s[k])
    ensures n < |s| ==> !IsDigit(s[n])
  {
    if s == [] || !IsDigit(s[0]) then 0 else 1 + DigitsAfter(s[1..])
  }

  // Facts about decimal text used by several modules.

  /** Any character outside digits and '.' past the sign position rules out decimal text. */
  lemma NotDecimalAt(t: string, k: nat)
    requires k < |t| && !IsDigit(t[k]) && t[k] != '.'
    requires k > 0 || t[k] != '-'
    ensures !IsDecimalText(t)
  {
    var u := Unsigned(t);
    var j := if |t| > 0 && t[0] == '-' then k - 1 else k;
    assert u[j] == t[k];
  }

  /** Two decimal points rule out decimal text. */
  lemma NotDecimalTwoDots(t: string, k: nat, m: nat)
    requires k < m < |t| && t[k] == '.' && t[m] == '.'
    ensures !IsDecimalText(t)
  {
    var u := Unsigned(t);
    if |t| > 0 && t[0] == '-' {
      assert u[k - 1] == '.' && u[m - 1] == '.';
    } else {
      assert u[k] == '.' && u[m] == '.';
    }
  }

  /** Appending a digit, or a point to text without one, keeps decimal text. */
  lemma DecimalAppend(t: string, c: char)
    requires IsDecimalText(t)
    requires IsDigit(c) || (c == '.' && '.' !in t)
    ensures IsDecimalText(t + [c])
  {
    var u := Unsigned(t);
    assert Unsigned(t + [c]) == u + [c];
    if c == '.' {
      forall k | 0 <= k < |u| ensures u[k] != '.' {
        if |t| > 0 && t[0] == '-' {
          assert u[k] == t[k + 1];
        } else {
          assert u[k] == t[k];
        }
      }
    }
  }

  /** A prefix of decimal text is decimal text, and what ends it is a digit,
      a point (if the prefix has none) or a leading minus. */
  lemma DecimalSnoc(t: string, c: char)
    requires IsDecimalText(t + [c])
    ensures IsDecimalText(t)
    ensures IsDigit(c) || (c == '.' && '.' !in t) || (c == '-' && t == "")
  {
    var w := t + [c];
    var u := Unsigned(t);
    var v := Unsigned(w);
    if t == [] {
      if c != '-' {
        assert v == [c] && v[0] == c;
      }
    } else {
      assert w[0] == t[0];
      assert v == u + [c];
      assert v[|u|] == c;
      forall k | 0 <= k < |u| ensures IsDigit(u[k]) || u[k] == '.' {
        assert u[k] == v[k];
      }
      forall k, m | 0 <= k < m < |u| ensures !(u[k] == '.' && u[m] == '.') {
        assert u[k] == v[k] && u[m] == v[m];
      }
      if c == '.' && '.' in t {
        var i :| 0 <= i < |t| && t[i] == '.';
        assert w[i] == '.' && w[|t|] == '.';
        NotDecimalTwoDots(w, i, |t|);
      }
    }
  }
}
