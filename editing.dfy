/** The string-editing helpers of engine.js: the preview without trailing
    operators, the last number of the expression, the trailing binary
    operator, replacing the last number, inserting a value with implicit
    multiplication, and applying a unary function to the last number. */
module Editing {
  import opened Text
  import opened Numbers
  import opened Tokenizer

  // ---------------------------------------------------------------------
  // getPreviewExpression

  /** `s` without its trailing run of operators: the longest prefix that is
      empty or ends in something other than an operator, with only operators
      after it. */
  function Preview(s: string): (p: string)
    ensures |p| <= |s| && p == s[..|p|]
    ensures p == "" || !IsOperator(p[|p| - 1])
    ensures forall k :: |p| <= k < |s| ==> IsOperator(s[k])
    decreases |s|
  {
    if s != [] && IsOperator(s[|s| - 1]) then Preview(s[..|s| - 1]) else s
  }

  /** The loop of `getPreviewExpression`, with its early exit on a lone operator. */
  method GetPreviewExpression(expr: string) returns (preview: string)
    ensures preview == Preview(expr)
  {
    preview := expr;
    while |preview| > 0 && IsOperator(preview[|preview| - 1])
      invariant Preview(preview) == Preview(expr)
      decreases |preview|
    {
      if |preview| == 1 {
        preview := "";
        break;
      }
      preview := preview[..|preview| - 1];
    }
  }

  /** The three properties of Preview pin it down. */
  lemma PreviewUnique(s: string, p: string)
    requires |p| <= |s| && p == s[..|p|]
    requires p == "" || !IsOperator(p[|p| - 1])
    requires forall k :: |p| <= k < |s| ==> IsOperator(s[k])
    ensures Preview(s) == p
  {
  }

  /** Stripping trailing operators a second time changes nothing. */
  lemma PreviewIdempotent(s: string)
    ensures Preview(Preview(s)) == Preview(s)
  {
    var p := Preview(s);
    assert p[..|p|] == p;
    PreviewUnique(p, p);
  }

  // ---------------------------------------------------------------------
  // getLastNumber

  /** Where the match of `-?\d*\.?\d*` anchored at the end begins: before the
      trailing digits, then before a '.' and the digits ahead of it if the
      character there is a '.', then before a '-' if there is one. */
  function LastNumberStart(s: string): (i: nat)
    ensures i <= |s|
  {
    var j := DigitsBefore(s, |s|);
    var k := if j > 0 && s[j - 1] == '.' then DigitsBefore(s, j - 1) else j;
    if k > 0 && s[k - 1] == '-' then k - 1 else k
  }

  /** `getLastNumber`: the suffix the regular expression matches (possibly empty). */
  function LastNumber(s: string): string {
    s[LastNumberStart(s)..]
  }

  /** Digits with at most one point, at position `q`, are decimal text. */
  lemma DigitsWithPoint(u: string, q: int)
    requires forall m :: 0 <= m < |u| ==> IsDigit(u[m]) || (m == q && u[m] == '.')
    ensures IsDecimalText(u) && !HasSign(u)
  {
    assert Unsigned(u) == u;
  }

  /** The last number is decimal text. */
  lemma LastNumberIsDecimal(s: string)
    ensures IsDecimalText(LastNumber(s))
  {
    var j := DigitsBefore(s, |s|);
    var dot := j > 0 && s[j - 1] == '.';
    var k := if dot then DigitsBefore(s, j - 1) else j;
    var u := s[k..];
    var q := if dot then j - 1 - k else -1;
    forall m | 0 <= m < |u| ensures IsDigit(u[m]) || (m == q && u[m] == '.') {
      assert u[m] == s[k + m];
    }
    DigitsWithPoint(u, q);
    var i := LastNumberStart(s);
    if i < k {
      assert s[i..] == "-" + u;
      assert Unsigned("-" + u) == u;
    }
  }

  /** No suffix longer than the last number is decimal text. */
  lemma LastNumberIsLongest(s: string, m: nat)
    requires m < LastNumberStart(s)
    ensures !IsDecimalText(s[m..])
  {
    var j := DigitsBefore(s, |s|);
    var dot := j > 0 && s[j - 1] == '.';
    var k := if dot then DigitsBefore(s, j - 1) else j;
    var i := LastNumberStart(s);
    var t := s[m..];
    if i < k {
      assert t[i - m] == s[i];
      NotDecimalAt(t, i - m);
    } else if dot && s[k - 1] == '.' {
      assert t[k - 1 - m] == s[k - 1] && t[j - 1 - m] == s[j - 1];
      NotDecimalTwoDots(t, k - 1 - m, j - 1 - m);
    } else {
      assert t[k - 1 - m] == s[k - 1];
      NotDecimalAt(t, k - 1 - m);
    }
  }

  /** The regular expression matches from the leftmost position it can, so
      the last number is the longest suffix that is decimal text. */
  lemma LastNumberIsLongestMatch(s: string)
    ensures IsDecimalText(LastNumber(s))
    ensures forall m :: 0 <= m < LastNumberStart(s) ==> !IsDecimalText(s[m..])
  {
    LastNumberIsDecimal(s);
    forall m | 0 <= m < LastNumberStart(s) ensures !IsDecimalText(s[m..]) {
      LastNumberIsLongest(s, m);
    }
  }

  /** Any position from which the rest is decimal text, with none before it,
      is where the last number starts. */
  lemma LastNumberStartUnique(s: string, i: nat)
    requires i <= |s| && IsDecimalText(s[i..])
    requires forall m :: 0 <= m < i ==> !IsDecimalText(s[m..])
    ensures LastNumberStart(s) == i
  {
    LastNumberIsLongestMatch(s);
  }

  /** Where `tokenize` succeeds on lexical input and ends in a numeral `x`:
      the text before `x` is empty or ends in the operator token before it
      (a binary '-' following something other than an operator), and the last
      number starts at `x`, or one character earlier when that character is a
      binary '-' and `x` has no sign of its own. */
  lemma LastNumeralPosition(s: string, ts: seq<Token>)
    requires Tokenize(s) == Some(ts) && AllLexical(s)
    requires ts != [] && ts[|ts| - 1].Numeral?
    ensures var x := ts[|ts| - 1].text;
      var n := |s| - |x|;
      && IsNumeralText(x) && |x| <= |s| && s[n..] == x
      && Scan(Start, s[..n]) == Some(Scanner(ts[..|ts| - 1], "", true))
      && (n == 0 <==> |ts| == 1)
      && (n > 0 ==> IsOperator(s[n - 1]) && ts[|ts| - 2] == Operator(s[n - 1]))
      && (n > 0 && s[n - 1] == '-' ==> n > 1 && !IsOperator(s[n - 2]))
      && LastNumberStart(s) == (if n > 0 && s[n - 1] == '-' && !HasSign(x) then n - 1 else n)
  {
    var x := ts[|ts| - 1].text;
    var init := ts[..|ts| - 1];
    TokenizeShape(s, ts);
    assert ts[|ts| - 1] == Numeral(x);
    LastNumeralSplit(s, ts);
    var n := |s| - |x|;
    var p := s[..n];
    assert Tokenize(p) == Some(init);
    assert AllLexical(p) by {
      forall k | 0 <= k < |p| ensures IsLexical(p[k]) {
        assert p[k] == s[k];
      }
    }
    if p != [] {
      var c := p[|p| - 1];
      assert c == s[n - 1];
      if IsDigit(c) || c == '.' {
        TokenizeEndsInNumeral(p, init);
        assert false;
      }
      TokenizeEndsInOperator(p, init);
      assert ts[|ts| - 2] == init[|init| - 1];
      if c == '-' {
        assert p[|p| - 2] == s[n - 2];
      }
    } else {
      assert |init| == 0;
    }
    LastNumberBeforeOperator(s, x, n);
  }

  /** Where the text ends in numeral text `x` standing after an operator (or
      at the very start), the last number starts at `x`, or one character
      earlier for a binary '-' before an unsigned `x`. */
  lemma LastNumberBeforeOperator(s: string, x: string, n: nat)
    requires n <= |s| && s[n..] == x && IsNumeralText(x)
    requires n > 0 ==> IsOperator(s[n - 1])
    requires n > 0 && s[n - 1] == '-' ==> n > 1 && !IsOperator(s[n - 2])
    ensures LastNumberStart(s) == (if n > 0 && s[n - 1] == '-' && !HasSign(x) then n - 1 else n)
  {
    if n > 0 {
      var c := s[n - 1];
      var start := if c == '-' && !HasSign(x) then n - 1 else n;
      if start == n - 1 {
        assert Unsigned(s[n - 1..]) == x by {
          assert s[n - 1..][1..] == x;
        }
        assert Unsigned(x) == x;
      }
      forall m | 0 <= m < start ensures !IsDecimalText(s[m..]) {
        var t := s[m..];
        assert t[n - 1 - m] == c;
        if m < n - 1 {
          NotDecimalAt(t, n - 1 - m);
        } else if c != '-' {
          NotDecimalAt(t, 0);
        } else {
          assert t[1] == x[0] == '-';
          NotDecimalAt(t, 1);
        }
      }
      LastNumberStartUnique(s, start);
    } else {
      LastNumberStartUnique(s, 0);
    }
  }

  /** On a successfully tokenized lexical expression ending in a numeral, the
      last number is that numeral, except that a binary '-' before an unsigned
      numeral is taken along with it: "5-3" gives "-3". */
  lemma LastNumberOfTokens(s: string, ts: seq<Token>)
    requires Tokenize(s) == Some(ts) && AllLexical(s)
    requires ts != [] && ts[|ts| - 1].Numeral?
    ensures var x := ts[|ts| - 1].text;
      LastNumber(s) ==
        if |ts| > 1 && ts[|ts| - 2] == Operator('-') && !HasSign(x) then "-" + x else x
  {
    LastNumeralPosition(s, ts);
    var x := ts[|ts| - 1].text;
    var n := |s| - |x|;
    if n > 0 && s[n - 1] == '-' && !HasSign(x) {
      assert s[n - 1..] == "-" + x;
    }
  }

  // ---------------------------------------------------------------------
  // getTrailingBinaryOperator

  /** The last character when it is an operator that is not a sign: a '-'
      alone or after another operator is a sign. */
  function TrailingBinaryOperator(s: string): Option<OpChar> {
    if s == [] || !IsOperator(s[|s| - 1]) then None
    else if s[|s| - 1] == '-' && (|s| == 1 || IsOperator(s[|s| - 2])) then None
    else Some(s[|s| - 1])
  }

  /** On lexical input that `tokenize` accepts, the trailing binary operator
      is exactly the last token when that token is an operator. */
  lemma TrailingOperatorIsLastToken(s: string, ts: seq<Token>)
    requires Tokenize(s) == Some(ts) && AllLexical(s)
    ensures TrailingBinaryOperator(s) ==
      if ts != [] && ts[|ts| - 1].Operator? then Some(ts[|ts| - 1].op) else None
  {
    if s == [] {
      assert Scan(Start, s) == Some(Start);
    } else if IsOperator(s[|s| - 1]) {
      TokenizeEndsInOperator(s, ts);
    } else {
      assert IsLexical(s[|s| - 1]);
      TokenizeEndsInNumeral(s, ts);
    }
  }

  // ---------------------------------------------------------------------
  // replaceLastNumber

  /** `replaceLastNumber`: the text before the last number followed by the
      replacement, or the replacement alone when the last number is empty. */
  function ReplaceLastNumber(s: string, replacement: string): string {
    if LastNumber(s) == "" then replacement
    else s[..LastNumberStart(s)] + replacement
  }

  /** Putting the last number back where it was gives the expression back. */
  lemma ReplaceLastNumberRoundTrip(s: string)
    requires LastNumber(s) != ""
    ensures ReplaceLastNumber(s, LastNumber(s)) == s
  {
    assert s[..LastNumberStart(s)] + s[LastNumberStart(s)..] == s;
  }

  /** Replacing with numeral text after an empty buffer: the text before it
      scans to `init`, so the whole tokenizes to `init` and the replacement. */
  lemma ReplaceAfterOperator(p: string, init: seq<Token>, replacement: string)
    requires Scan(Start, p) == Some(Scanner(init, "", true))
    requires IsNumeralText(replacement)
    ensures Tokenize(p + replacement) == Some(init + [Numeral(replacement)])
  {
    ScanAppend(Start, p, replacement);
    ScanDecimal(init, replacement);
  }

  /** On a tokenized lexical expression ending in a numeral that is not an
      unsigned operand of a binary '-', replacing the last number with numeral
      text replaces the last token and nothing else. */
  lemma ReplaceLastNumberTokens(s: string, ts: seq<Token>, replacement: string)
    requires Tokenize(s) == Some(ts) && AllLexical(s)
    requires ts != [] && ts[|ts| - 1].Numeral?
    requires !(|ts| > 1 && ts[|ts| - 2] == Operator('-') && !HasSign(ts[|ts| - 1].text))
    requires IsNumeralText(replacement)
    ensures Tokenize(ReplaceLastNumber(s, replacement)) == Some(ts[..|ts| - 1] + [Numeral(replacement)])
  {
    LastNumeralPosition(s, ts);
    var x := ts[|ts| - 1].text;
    var n := |s| - |x|;
    assert LastNumberStart(s) == n;
    ReplaceAfterOperator(s[..n], ts[..|ts| - 1], replacement);
  }

  // ---------------------------------------------------------------------
  // insertValue

  /** `insertValue` with the value already as text: the text alone into an
      empty expression, after a '*' when the expression ends in a digit or
      '.', and appended otherwise. */
  function InsertValue(s: string, text: string): string {
    if s == "" then text
    else if IsDigit(s[|s| - 1]) || s[|s| - 1] == '.' then s + "*" + text
    else s + text
  }

  /** Inserting numeral text into a tokenized lexical expression adds it as
      the last token, preceded by an implicit '*' when the expression ended in
      a numeral. */
  lemma InsertValueTokens(s: string, ts: seq<Token>, text: string)
    requires Tokenize(s) == Some(ts) && AllLexical(s)
    requires IsNumeralText(text)
    ensures Tokenize(InsertValue(s, text)) ==
      if ts != [] && ts[|ts| - 1].Numeral? then Some(ts + [Operator('*'), Numeral(text)])
      else Some(ts + [Numeral(text)])
  {
    if s == [] {
      assert Scan(Start, s) == Some(Start);
      assert InsertValue(s, text) == [] + text;
      ReplaceAfterOperator([], [], text);
    } else if IsOperator(s[|s| - 1]) {
      TokenizeEndsInOperator(s, ts);
      ReplaceAfterOperator(s, ts, text);
    } else {
      assert IsLexical(s[|s| - 1]);
      ScanEndsInNumeral(s);
      var st := Scan(Start, s).value;
      assert ts == st.tokens + [Numeral(st.number)];
      ScanSnoc(Start, s, '*');
      var st' := Scanner(ts + [Operator('*')], "", true);
      assert st.tokens + [Numeral(st.number), Operator('*')] == st'.tokens;
      assert Scan(Start, s + "*") == Some(st');
      ReplaceAfterOperator(s + "*", ts + [Operator('*')], text);
      assert ts + [Operator('*')] + [Numeral(text)] == ts + [Operator('*'), Numeral(text)];
    }
  }

  // ---------------------------------------------------------------------
  // applyUnaryToExpression

  /** `{error:"invalid"}` or the new expression with the new value. */
  datatype UnaryResult = UnaryInvalid | Applied(expression: string, value: real)

  /** A last number the unary functions can use: not "", "-" or ".". */
  predicate HasNumber(last: string) {
    last != "" && last != "-" && last != "."
  }

  /** `applyUnaryToExpression`: the transform of the last number (0 where
      there is none), invalid when that is not finite, otherwise formatted and
      put in place of the last number, or in place of the whole expression
      where there was none. */
  function ApplyUnaryToExpression(s: string, transform: Num -> Num, format: real -> string): UnaryResult {
    var last := LastNumber(s);
    var base := if HasNumber(last) then ToNum(ParseFloat(last)) else Finite(0.0);
    var next := transform(base);
    if next.NonFinite? then UnaryInvalid
    else
      var formatted := format(next.r);
      Applied(if HasNumber(last) then ReplaceLastNumber(s, formatted) else formatted, next.r)
  }

  /** Without a usable last number the transform sees 0 and its formatted
      value replaces the whole expression. */
  lemma ApplyUnaryWithoutNumber(s: string, transform: Num -> Num, format: real -> string)
    requires !HasNumber(LastNumber(s))
    ensures ApplyUnaryToExpression(s, transform, format) ==
      if transform(Finite(0.0)).NonFinite? then UnaryInvalid
      else Applied(format(transform(Finite(0.0)).r), transform(Finite(0.0)).r)
  {
  }

  /** On a tokenized lexical expression ending in a numeral that is not an
      unsigned operand of a binary '-', the transform sees that numeral's
      value and, when the formatted result is numeral text, the new
      expression tokenizes to the old tokens with the last one replaced. */
  lemma ApplyUnaryTokens(s: string, ts: seq<Token>, transform: Num -> Num, format: real -> string)
    requires Tokenize(s) == Some(ts) && AllLexical(s)
    requires ts != [] && ts[|ts| - 1].Numeral? && ts[|ts| - 1].text != "."
    requires !(|ts| > 1 && ts[|ts| - 2] == Operator('-') && !HasSign(ts[|ts| - 1].text))
    ensures var next := transform(ToNum(ParseFloat(ts[|ts| - 1].text)));
      var r := ApplyUnaryToExpression(s, transform, format);
      && (r.UnaryInvalid? <==> next.NonFinite?)
      && (r.Applied? ==> r.value == next.r)
      && (r.Applied? && IsNumeralText(format(next.r)) ==>
            Tokenize(r.expression) == Some(ts[..|ts| - 1] + [Numeral(format(next.r))]))
  {
    LastNumberOfTokens(s, ts);
    TokenizeShape(s, ts);
    assert ts[|ts| - 1] == ts[(|ts| - 1)];
    var next := transform(ToNum(ParseFloat(ts[|ts| - 1].text)));
    if next.Finite? && IsNumeralText(format(next.r)) {
      ReplaceLastNumberTokens(s, ts, format(next.r));
    }
  }

  // ---------------------------------------------------------------------
  // The operand of the last token

  /** Where the operand that the last token stands for begins: the last
      number without a leading '-' that follows something other than an
      operator, since such a '-' is the binary operator. */
  function OperandStart(s: string): (i: nat)
    ensures i <= |s|
  {
    var n := LastNumberStart(s);
    if n < |s| && s[n] == '-' && n > 0 && !IsOperator(s[n - 1]) then n + 1 else n
  }

  function LastOperand(s: string): string {
    s[OperandStart(s)..]
  }

  /** On a tokenized lexical expression ending in a numeral, the last operand
      is exactly that numeral. */
  lemma LastOperandOfTokens(s: string, ts: seq<Token>)
    requires Tokenize(s) == Some(ts) && AllLexical(s)
    requires ts != [] && ts[|ts| - 1].Numeral?
    ensures LastOperand(s) == ts[|ts| - 1].text
  {
    LastNumeralPosition(s, ts);
  }

  /** The text before the last operand followed by the replacement. */
  function ReplaceOperand(s: string, replacement: string): string {
    s[..OperandStart(s)] + replacement
  }

  /** Replacing the last operand with numeral text replaces the last token
      and nothing else, whatever operator precedes it. */
  lemma ReplaceOperandTokens(s: string, ts: seq<Token>, replacement: string)
    requires Tokenize(s) == Some(ts) && AllLexical(s)
    requires ts != [] && ts[|ts| - 1].Numeral?
    requires IsNumeralText(replacement)
    ensures Tokenize(ReplaceOperand(s, replacement)) == Some(ts[..|ts| - 1] + [Numeral(replacement)])
  {
    LastNumeralPosition(s, ts);
    var n := |s| - |ts[|ts| - 1].text|;
    assert OperandStart(s) == n;
    ReplaceAfterOperator(s[..n], ts[..|ts| - 1], replacement);
  }

  /** `applyUnaryToExpression` acting on the last operand instead of the last
      regular-expression match. */
  function ApplyUnaryToOperand(s: string, transform: Num -> Num, format: real -> string): UnaryResult {
    var last := LastOperand(s);
    var base := if HasNumber(last) then ToNum(ParseFloat(last)) else Finite(0.0);
    var next := transform(base);
    if next.NonFinite? then UnaryInvalid
    else
      var formatted := format(next.r);
      Applied(if HasNumber(last) then ReplaceOperand(s, formatted) else formatted, next.r)
  }

  /** On any tokenized lexical expression ending in a numeral other than ".",
      the transform sees that numeral's value and, when the formatted result
      is numeral text, the new expression tokenizes to the old tokens with the
      last one replaced. */
  lemma ApplyUnaryToOperandTokens(s: string, ts: seq<Token>, transform: Num -> Num, format: real -> string)
    requires Tokenize(s) == Some(ts) && AllLexical(s)
    requires ts != [] && ts[|ts| - 1].Numeral? && ts[|ts| - 1].text != "."
    ensures var next := transform(ToNum(ParseFloat(ts[|ts| - 1].text)));
      var r := ApplyUnaryToOperand(s, transform, format);
      && (r.UnaryInvalid? <==> next.NonFinite?)
      && (r.Applied? ==> r.value == next.r)
      && (r.Applied? && IsNumeralText(format(next.r)) ==>
            Tokenize(r.expression) == Some(ts[..|ts| - 1] + [Numeral(format(next.r))]))
  {
    LastOperandOfTokens(s, ts);
    TokenizeShape(s, ts);
    assert ts[|ts| - 1] == ts[(|ts| - 1)];
    var next := transform(ToNum(ParseFloat(ts[|ts| - 1].text)));
    if next.Finite? && IsNumeralText(format(next.r)) {
      ReplaceOperandTokens(s, ts, format(next.r));
    }
  }
}
