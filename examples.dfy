/** Worked examples of the engine on concrete input. */
module Examples {
  import opened Text
  import opened Numbers
  import opened Tokenizer
  import opened Evaluator
  import opened Precedence
  import opened Editing
  import opened Formatting
  import opened Calculator

  /** A single digit parses to its value. */
  lemma ParseDigit(c: char)
    requires IsDigit(c)
    ensures ParseFloat([c]) == Some(DigitValue(c) as real)
  {
    assert DigitsAfter([c]) == 1;
    assert [c][..1] == [c];
    assert DigitsValue([c]) == DigitValue(c) by {
      assert [c][..0] == [];
    }
  }

  lemma TokenizePrecedenceExample() ensures Tokenize("5+3*2") == Some([Numeral("5"), Operator('+'), Numeral("3"), Operator('*'), Numeral("2")]) {
    var s := "5+3*2";
    var ts := [Numeral("5"), Operator('+'), Numeral("3"), Operator('*'), Numeral("2")];
    assert s[1..] == "+3*2" && s[2..] == "3*2" && s[3..] == "*2" && s[4..] == "2";
    var st1 := Scanner([], "5", false);
    var st2 := Scanner([Numeral("5"), Operator('+')], "", true);
    var st3 := Scanner([Numeral("5"), Operator('+')], "3", false);
    var st4 := Scanner([Numeral("5"), Operator('+'), Numeral("3"), Operator('*')], "", true);
    var st5 := Scanner([Numeral("5"), Operator('+'), Numeral("3"), Operator('*')], "2", false);
    assert "" + ['5'] == "5" && "" + ['3'] == "3" && "" + ['2'] == "2";
    assert Step(Start, '5') == Some(st1);
    assert st1.tokens + [Numeral(st1.number), Operator('+')] == st2.tokens;
    assert Step(st1, '+') == Some(st2);
    assert Step(st2, '3') == Some(st3);
    assert st3.tokens + [Numeral(st3.number), Operator('*')] == st4.tokens;
    assert Step(st3, '*') == Some(st4);
    assert Step(st4, '2') == Some(st5);
    assert "2"[1..] == "" && "*2"[1..] == "2" && "3*2"[1..] == "*2" && "+3*2"[1..] == "3*2";
    assert Scan(st5, "") == Some(st5);
    assert Scan(st4, "2") == Some(st5);
    assert Scan(st3, "*2") == Some(st5);
    assert Scan(st2, "3*2") == Some(st5);
    assert Scan(st1, "+3*2") == Some(st5);
    assert Scan(Start, s) == Some(st5);
    assert st5.tokens + [Numeral(st5.number)] == ts;
    assert Tokenize(s) == Some(ts);
  }
  lemma ParsePrecedenceExample(ts: seq<Token>)
    requires ts == [Numeral("5"), Operator('+'), Numeral("3"), Operator('*'), Numeral("2")]
    requires WellFormed(ts)
    ensures ParseAst(ts) == Bin('+', Lit("5"), Bin('*', Lit("3"), Lit("2")))
  {
    var r1 := ts[1..];
    var r2 := [Operator('*'), Numeral("2")];
    assert r1[2..] == r2;
    assert r2[2..] == [];
    assert ParseRest(Sum(Lit("5"), '+'), Bin('*', Lit("3"), Lit("2")), []) == Bin('+', Lit("5"), Bin('*', Lit("3"), Lit("2")));
    assert ParseRest(Sum(Lit("5"), '+'), Lit("3"), r2) == ParseRest(Sum(Lit("5"), '+'), Bin('*', Lit("3"), Lit("2")), []);
    assert ParseRest(NoSum, Lit("5"), r1) == ParseRest(Sum(Lit("5"), '+'), Lit("3"), r2);
  }
  lemma ValuePrecedenceExample() ensures EvalAst(Bin('+', Lit("5"), Bin('*', Lit("3"), Lit("2")))) == Val(Finite(11.0)) {
    ParseDigit('5'); ParseDigit('3'); ParseDigit('2');
    assert EvalAst(Lit("3")) == Val(Finite(3.0));
    assert EvalAst(Lit("2")) == Val(Finite(2.0));
    assert EvalAst(Lit("5")) == Val(Finite(5.0));
    assert EvalAst(Bin('*', Lit("3"), Lit("2"))) == Val(Finite(6.0));
  }
  /** Multiplication binds tighter than addition: "5+3*2" is 11. */
  lemma EvaluatePrecedenceExample(s: string)
    requires s == "5+3*2"
    ensures Evaluate(s) == Success(11.0)
  {
    var ts := [Numeral("5"), Operator('+'), Numeral("3"), Operator('*'), Numeral("2")];
    TokenizePrecedenceExample();
    EvaluateTokens(s, ts);
    ParsePrecedenceExample(ts);
    ValuePrecedenceExample();
  }

  lemma TokenizeDivideExample()
    ensures Tokenize("9/0") == Some([Numeral("9"), Operator('/'), Numeral("0")])
  {
    var s := "9/0";
    var st1 := Scanner([], "9", false);
    var st2 := Scanner([Numeral("9"), Operator('/')], "", true);
    var st3 := Scanner([Numeral("9"), Operator('/')], "0", false);
    assert "" + ['9'] == "9" && "" + ['0'] == "0";
    assert Step(Start, '9') == Some(st1);
    assert st1.tokens + [Numeral(st1.number), Operator('/')] == st2.tokens;
    assert Step(st1, '/') == Some(st2);
    assert Step(st2, '0') == Some(st3);
    assert s[1..] == "/0" && "/0"[1..] == "0" && "0"[1..] == "";
    assert Scan(st3, "") == Some(st3);
    assert Scan(st2, "0") == Some(st3);
    assert Scan(st1, "/0") == Some(st3);
    assert Scan(Start, s) == Some(st3);
    assert st3.tokens + [Numeral(st3.number)] == [Numeral("9"), Operator('/'), Numeral("0")];
  }

  /** "9/0" is a division by exactly zero. */
  lemma EvaluateDivideByZeroExample(s: string)
    requires s == "9/0"
    ensures Evaluate(s) == DivByZero
  {
    var ts := [Numeral("9"), Operator('/'), Numeral("0")];
    TokenizeDivideExample();
    EvaluateTokens(s, ts);
    assert ts[1..][2..] == [];
    assert ParseAst(ts) == Bin('/', Lit("9"), Lit("0"));
    ParseDigit('0');
    assert EvalAst(Lit("0")) == Val(Finite(0.0));
  }

  /** A leading operator other than '-' has no left operand: "+5" is invalid. */
  lemma EvaluateLeadingPlusExample()
    ensures Evaluate("+5") == Invalid
  {
    assert Step(Start, '+') == None;
  }

  /** Squaring, as the unary key applies it. */
  function Square(n: Num): (m: Num)
    ensures m.Finite? <==> n.Finite?
  {
    if n.Finite? then Finite(n.r * n.r) else NonFinite
  }

  lemma LastNumberDigitExample()
    ensures LastNumberStart("4") == 0
  {
    var s := "4";
    assert DigitsBefore(s, 0) == 0;
    assert DigitsBefore(s, 1) == 0;
  }

  /** "4" squared is "16", for a formatter that writes 16 as "16". */
  lemma UnarySquareExample(format: real -> string)
    requires format(16.0) == "16"
    ensures ApplyUnaryToExpression("4", Square, format) == Applied("16", 16.0)
  {
    LastNumberDigitExample();
    assert LastNumber("4") == "4";
    ParseDigit('4');
  }

  /** The last number of "5-3" takes the binary minus along: "-3". */
  lemma LastNumberAfterMinusExample()
    ensures LastNumberStart("5-3") == 1
    ensures LastNumber("5-3") == "-3"
  {
    var s := "5-3";
    assert DigitsBefore(s, 2) == 2;
    assert DigitsBefore(s, 3) == 2;
    assert s[1..] == "-3";
  }

  /** "5-3" is the numeral 5, the operator '-' and the numeral 3: the '-'
      follows a digit, so it is binary. */
  lemma TokenizeMinusExample()
    ensures Tokenize("5-3") == Some([Numeral("5"), Operator('-'), Numeral("3")])
  {
    var ts := [Numeral("5"), Operator('-'), Numeral("3")];
    assert Unsigned("5") == "5" && Unsigned("3") == "3";
    assert Alternating(ts);
    var init := [Numeral("5"), Operator('-')];
    assert [] + init == init && init + [Numeral("3")] == ts;
    SpellingPush([], "5", '-');
    SpellingSnoc(init, Numeral("3"));
    assert "" + "5" + ['-'] + "3" == "5-3";
    SpellingTokenizes(ts);
  }

  /** As written, squaring "5-3" squares "-3" and overwrites the minus. */
  lemma SquareLastNumberExample(format: real -> string)
    requires format(9.0) == "9"
    ensures ApplyUnaryToExpression("5-3", Square, format) == Applied("59", 9.0)
  {
    LastNumberAfterMinusExample();
    var s := "5-3";
    assert ParseFloat("-3") == Some(-3.0) by {
      assert "-3"[1..] == "3";
      ParseDigit('3');
    }
    assert s[..1] + "9" == "59";
  }

  /** Squaring the operand of "5-3" keeps the operator. */
  lemma SquareOperandExample(format: real -> string)
    requires format(9.0) == "9"
    ensures ApplyUnaryToOperand("5-3", Square, format) == Applied("5-9", 9.0)
  {
    var s := "5-3";
    assert OperandStart(s) == 2;
    assert LastOperand(s) == "3";
    ParseDigit('3');
    assert s[..2] + "9" == "5-9";
  }

  /** Squaring after a subtraction: `applyUnaryToExpression` squares "-3"
      and overwrites the minus, turning "5-3" into "59", where squaring the
      operand gives "5-9". */
  lemma SquareAfterSubtraction(format: real -> string)
    requires format(9.0) == "9"
    ensures Tokenize("5-3") == Some([Numeral("5"), Operator('-'), Numeral("3")])
    ensures ApplyUnaryToExpression("5-3", Square, format) == Applied("59", 9.0)
    ensures ApplyUnaryToOperand("5-3", Square, format) == Applied("5-9", 9.0)
  {
    TokenizeMinusExample();
    SquareLastNumberExample(format);
    SquareOperandExample(format);
  }

  lemma TokenizeLeadingMinusExample()
    ensures Tokenize("-5+2") == Some([Numeral("-5"), Operator('+'), Numeral("2")])
  {
    var s := "-5+2";
    var st1 := Scanner([], "-", false);
    var st2 := Scanner([], "-5", false);
    var st3 := Scanner([Numeral("-5"), Operator('+')], "", true);
    var st4 := Scanner([Numeral("-5"), Operator('+')], "2", false);
    assert "-" + ['5'] == "-5" && "" + ['2'] == "2";
    assert Step(Start, '-') == Some(st1);
    assert Step(st1, '5') == Some(st2);
    assert st2.tokens + [Numeral(st2.number), Operator('+')] == st3.tokens;
    assert Step(st2, '+') == Some(st3);
    assert Step(st3, '2') == Some(st4);
    assert s[1..] == "5+2" && "5+2"[1..] == "+2" && "+2"[1..] == "2" && "2"[1..] == "";
    assert Scan(st4, "") == Some(st4);
    assert Scan(st3, "2") == Some(st4);
    assert Scan(st2, "+2") == Some(st4);
    assert Scan(st1, "5+2") == Some(st4);
    assert Scan(Start, s) == Some(st4);
    assert st4.tokens + [Numeral(st4.number)] == [Numeral("-5"), Operator('+'), Numeral("2")];
  }

  lemma ParseNegativeExample()
    ensures ParseFloat("-5") == Some(-5.0)
  {
    ParseWhole("-", "5");
    assert DigitsValue("5") == 5 by {
      assert "5"[..0] == "";
    }
  }

  lemma ValueLeadingMinusExample()
    ensures EvalAst(Bin('+', Lit("-5"), Lit("2"))) == Val(Finite(-3.0))
  {
    ParseNegativeExample();
    ParseDigit('2');
    assert EvalAst(Lit("-5")) == Val(Finite(-5.0));
    assert EvalAst(Lit("2")) == Val(Finite(2.0));
  }

  /** A leading '-' is the sign of the first numeral: "-5+2" is -3. */
  lemma EvaluateLeadingMinusExample(s: string)
    requires s == "-5+2"
    ensures Evaluate(s) == Success(-3.0)
  {
    var ts := [Numeral("-5"), Operator('+'), Numeral("2")];
    TokenizeLeadingMinusExample();
    EvaluateTokens(s, ts);
    assert ts[1..][2..] == [];
    assert ParseAst(ts) == Bin('+', Lit("-5"), Lit("2"));
    ValueLeadingMinusExample();
  }

  /** Zeros ending a fraction go: "4.50000" becomes "4.5". */
  lemma TrimZerosExample()
    ensures TrimFraction("4.50000") == "4.5"
  {
    var x := "4.";
    var f := "50000";
    assert x + f == "4.50000";
    assert TrailingZeros(f) == 4 by {
      assert ZerosBefore(f, 1) == 1;
      assert ZerosBefore(f, 5) == 1;
    }
    TrimFractionOfPoint(x, f);
    assert x + f[..1] == "4.5";
  }

  /** A point with only zeros after it goes with them: "10.00" becomes "10". */
  lemma TrimPointExample()
    ensures TrimFraction("10.00") == "10"
  {
    var x := "10.";
    var f := "00";
    assert x + f == "10.00";
    assert TrailingZeros(f) == 2 by {
      assert ZerosBefore(f, 2) == 0;
    }
    TrimFractionOfPoint(x, f);
    assert x[..2] == "10";
  }

  /** A digit after a "0" operand is appended: "5+0" then 3 gives "5+03". */
  lemma DigitAfterZeroOperandExample()
    ensures DigitKey(State("5+0", false, false), '3').expression == "5+03"
  {
    assert "5+0" + ['3'] == "5+03";
  }

  /** "=" on "9/0" shows the error and clears the expression. */
  lemma EqualsDivideByZeroExample(format: real -> string)
    ensures EqualsKey(State("9/0", false, false), format) == State("", true, false)
  {
    var s := "9/0";
    assert Preview(s) == s by {
      PreviewUnique(s, s);
    }
    EvaluateDivideByZeroExample(s);
  }

  /** '-' then '+' leaves "+" (the '+' replaces the sign), and a digit
      gives "+5". */
  lemma KeysLeadingPlusExample()
    ensures DigitKey(OperatorKey(OperatorKey(Initial, '-'), '+'), '5') == State("+5", false, false)
  {
    assert OperatorKey(Initial, '-') == State("-", false, false);
    assert "-"[..0] + ['+'] == "+";
    assert OperatorKey(State("-", false, false), '+') == State("+", false, false);
    assert "+" + ['5'] == "+5";
  }

  /** "=" on the invalid expression "+5" changes nothing. */
  lemma EqualsLeadingPlusExample(format: real -> string)
    ensures var st := DigitKey(OperatorKey(OperatorKey(Initial, '-'), '+'), '5');
      st == State("+5", false, false) && EqualsKey(st, format) == st
  {
    KeysLeadingPlusExample();
    var st := State("+5", false, false);
    assert Preview(st.expression) == "+5";
    EvaluateLeadingPlusExample();
    assert EqualsKey(st, format) == st;
  }
}
