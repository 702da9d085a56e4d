/** The tokenizer of engine.js: a left-to-right scan that keeps a numeral
    buffer and a flag telling whether the previous token was an operator. */
module Tokenizer {
  import opened Text

  /** A token: a numeral, kept as its text, or one of the four operators. */
  datatype Token = Numeral(text: string) | Operator(op: OpChar)

  /** The scan state: the tokens pushed so far, the numeral buffer, and whether
      the previous token was an operator (true at the start, so that a leading
      '-' is read as a sign). */
  datatype Scanner = Scanner(tokens: seq<Token>, number: string, prevOperator: bool)

  const Start := Scanner([], "", true)

  /** One character of the scan; None is the early `return null`. */
  function Step(st: Scanner, c: char): Option<Scanner> {
    if IsDigit(c) then
      Some(st.(number := st.number + [c], prevOperator := false))
    else if c == '.' then
      if '.' in st.number then None
      else Some(st.(number := st.number + [c], prevOperator := false))
    else if IsOperator(c) then
      if c == '-' && st.prevOperator then
        Some(st.(number := if st.number == "" then "-" else st.number + "-", prevOperator := false))
      else if st.number == "" || st.number == "-" then None
      else Some(Scanner(st.tokens + [Numeral(st.number), Operator(c)], "", true))
    else
      Some(st)
  }

  /** The scan of `s` from state `st`. */
  function Scan(st: Scanner, s: string): Option<Scanner>
    decreases |s|
  {
    if s == [] then Some(st)
    else
      match Step(st, s[0])
      case None => None
      case Some(next) => Scan(next, s[1..])
  }

  /** The end of input: a bare "-" fails, any other non-empty buffer is pushed. */
  function Finish(st: Scanner): Option<seq<Token>> {
    if st.number == "-" then None
    else if st.number != "" then Some(st.tokens + [Numeral(st.number)])
    else Some(st.tokens)
  }

  /** `tokenize`: the token sequence of `s`, or None for `null`. */
  function Tokenize(s: string): Option<seq<Token>> {
    match Scan(Start, s)
    case None => None
    case Some(st) => Finish(st)
  }

  /** The loop of `tokenize` as the source runs it. */
  method TokenizeExpression(expr: string) returns (r: Option<seq<Token>>)
    ensures r == Tokenize(expr)
  {
    var tokens: seq<Token> := [];
    var number := "";
    var prevOperator := true;
    for i := 0 to |expr|
      invariant Scan(Start, expr) == Scan(Scanner(tokens, number, prevOperator), expr[i..])
    {
      assert expr[i..][1..] == expr[i + 1..];
      ghost var before := Scanner(tokens, number, prevOperator);
      var c := expr[i];
      if IsDigit(c) {
        number := number + [c];
        prevOperator := false;
      } else if c == '.' {
        if '.' in number {
          return None;
        }
        number := number + [c];
        prevOperator := false;
      } else if IsOperator(c) {
        if c == '-' && prevOperator {
          number := if number == "" then "-" else number + "-";
          prevOperator := false;
        } else {
          if number == "" || number == "-" {
            return None;
          }
          tokens := tokens + [Numeral(number), Operator(c)];
          number := "";
          prevOperator := true;
        }
      }
      assert Step(before, c) == Some(Scanner(tokens, number, prevOperator));
    }
    if number == "-" {
      return None;
    }
    if number != "" {
      tokens := tokens + [Numeral(number)];
    }
    r := Some(tokens);
  }

  // ---------------------------------------------------------------------
  // Scanning in pieces

  lemma {:induction false} ScanAppend(st: Scanner, a: string, b: string)
    ensures Scan(st, a + b) ==
      match Scan(st, a)
      case None => None
      case Some(mid) => Scan(mid, b)
    decreases |a|
  {
    if a == [] {
      assert a + b == b;
    } else {
      assert (a + b)[0] == a[0];
      assert (a + b)[1..] == a[1..] + b;
      match Step(st, a[0])
      case None =>
        assert Scan(st, a + b) == None;
        assert Scan(st, a) == None;
      case Some(next) =>
        assert Scan(st, a + b) == Scan(next, a[1..] + b);
        assert Scan(st, a) == Scan(next, a[1..]);
        ScanAppend(next, a[1..], b);
    }
  }

  /** Scanning one more character is one more step. */
  lemma ScanSnoc(st: Scanner, a: string, c: char)
    ensures Scan(st, a + [c]) ==
      match Scan(st, a)
      case None => None
      case Some(mid) => Step(mid, c)
  {
    ScanAppend(st, a, [c]);
    match Scan(st, a)
    case None =>
    case Some(mid) =>
      match Step(mid, c)
      case None =>
      case Some(next) => assert [c][1..] == [];
  }

  // ---------------------------------------------------------------------
  // The shape of the tokens

  /** Numerals at even positions and operators at odd ones. */
  predicate Alternating(ts: seq<Token>) {
    forall k :: 0 <= k < |ts| ==>
      if k % 2 == 0 then ts[k].Numeral? && IsNumeralText(ts[k].text) else ts[k].Operator?
  }

  /** What every state reached from Start satisfies. */
  predicate Coherent(st: Scanner) {
    && |st.tokens| % 2 == 0
    && Alternating(st.tokens)
    && IsDecimalText(st.number)
    && (st.prevOperator <==> st.number == "")
  }

  lemma StepCoherent(st: Scanner, c: char)
    requires Coherent(st) && Step(st, c).Some?
    ensures Coherent(Step(st, c).value)
  {
    if IsDigit(c) || c == '.' {
      DecimalAppend(st.number, c);
    } else if IsOperator(c) && !(c == '-' && st.prevOperator) {
      var ts := st.tokens + [Numeral(st.number), Operator(c)];
      assert ts[|st.tokens|] == Numeral(st.number);
      assert Alternating(ts);
    } else if IsOperator(c) {
      var u := Unsigned("-");
      assert u == [];
    }
  }

  lemma {:induction false} ScanCoherent(st: Scanner, s: string)
    requires Coherent(st) && Scan(st, s).Some?
    ensures Coherent(Scan(st, s).value)
    decreases |s|
  {
    if s != [] {
      StepCoherent(st, s[0]);
      ScanCoherent(Step(st, s[0]).value, s[1..]);
    }
  }

  lemma StartCoherent()
    ensures Coherent(Start)
  {
    assert Unsigned("") == "";
  }

  /** A successful `tokenize` starts with a numeral and alternates numerals and
      operators, so no two operators are adjacent; each numeral is an optional
      '-' followed by digits with at most one '.', and is never "" or "-". */
  lemma TokenizeShape(s: string, ts: seq<Token>)
    requires Tokenize(s) == Some(ts)
    ensures Alternating(ts)
    ensures ts != [] ==> ts[0].Numeral?
  {
    StartCoherent();
    ScanCoherent(Start, s);
    var st := Scan(Start, s).value;
    if st.number != "" {
      assert ts[|st.tokens|] == Numeral(st.number);
    }
  }

  // ---------------------------------------------------------------------
  // Nothing lexical is lost

  /** The text of a token. */
  function TokenText(t: Token): string {
    match t
    case Numeral(x) => x
    case Operator(c) => [c]
  }

  /** The tokens written back to back. */
  function Spelling(ts: seq<Token>): string
    decreases |ts|
  {
    if ts == [] then "" else Spelling(ts[..|ts| - 1]) + TokenText(ts[|ts| - 1])
  }

  /** `s` with every character the tokenizer skips removed. */
  function Lexical(s: string): (r: string)
    decreases |s|
  {
    if s == [] then "" else (if IsLexical(s[0]) then [s[0]] else "") + Lexical(s[1..])
  }

  lemma SpellingSnoc(ts: seq<Token>, t: Token)
    ensures Spelling(ts + [t]) == Spelling(ts) + TokenText(t)
  {
    assert (ts + [t])[..|ts|] == ts;
  }

  /** Pushing the buffer and an operator spells them after the tokens. */
  lemma SpellingPush(ts: seq<Token>, x: string, c: OpChar)
    ensures Spelling(ts + [Numeral(x), Operator(c)]) == Spelling(ts) + x + [c]
  {
    SpellingSnoc(ts, Numeral(x));
    SpellingSnoc(ts + [Numeral(x)], Operator(c));
    assert ts + [Numeral(x), Operator(c)] == ts + [Numeral(x)] + [Operator(c)];
  }

  /** One step moves exactly the character it reads (if lexical) into the tokens or the buffer. */
  lemma StepSpelling(st: Scanner, c: char)
    requires Step(st, c).Some?
    ensures var next := Step(st, c).value;
      Spelling(next.tokens) + next.number == Spelling(st.tokens) + st.number + (if IsLexical(c) then [c] else "")
  {
    var next := Step(st, c).value;
    if !IsLexical(c) {
      assert next == st;
    } else if IsOperator(c) && !(c == '-' && st.prevOperator) {
      assert next == Scanner(st.tokens + [Numeral(st.number), Operator(c)], "", true);
      SpellingPush(st.tokens, st.number, c);
    } else {
      assert next.tokens == st.tokens && next.number == st.number + [c];
    }
  }

  lemma {:induction false} ScanSpelling(st: Scanner, s: string)
    requires Scan(st, s).Some?
    ensures var end := Scan(st, s).value;
      Spelling(end.tokens) + end.number == Spelling(st.tokens) + st.number + Lexical(s)
    decreases |s|
  {
    if s != [] {
      var next := Step(st, s[0]).value;
      StepSpelling(st, s[0]);
      ScanSpelling(next, s[1..]);
    }
  }

  /** Writing the tokens of a successful `tokenize` back to back gives the
      input without the characters the scan skips. */
  lemma TokenizeSpelling(s: string, ts: seq<Token>)
    requires Tokenize(s) == Some(ts)
    ensures Spelling(ts) == Lexical(s)
  {
    ScanSpelling(Start, s);
    var st := Scan(Start, s).value;
    assert Spelling(st.tokens) + st.number == Lexical(s);
    if st.number != "" {
      SpellingSnoc(st.tokens, Numeral(st.number));
    } else {
      assert Spelling(st.tokens) + st.number == Spelling(st.tokens);
    }
  }

  // ---------------------------------------------------------------------
  // Exactly the alternating token sequences are accepted

  /** Skipped characters change nothing: the scan of `s` is the scan of its
      lexical characters. */
  lemma {:induction false} ScanLexical(st: Scanner, s: string)
    ensures Scan(st, s) == Scan(st, Lexical(s))
    decreases |s|
  {
    if s != [] {
      var c := s[0];
      if IsLexical(c) {
        var l := Lexical(s);
        assert l == [c] + Lexical(s[1..]);
        assert l[0] == c && l[1..] == Lexical(s[1..]);
        match Step(st, c)
        case None =>
        case Some(next) => ScanLexical(next, s[1..]);
      } else {
        assert Step(st, c) == Some(st);
        assert Lexical(s) == Lexical(s[1..]);
        ScanLexical(st, s[1..]);
      }
    }
  }

  /** `tokenize` ignores every character other than digits, '.' and operators. */
  lemma TokenizeLexical(s: string)
    ensures Tokenize(s) == Tokenize(Lexical(s))
  {
    ScanLexical(Start, s);
  }

  lemma AlternatingPrefix(ts: seq<Token>, n: nat)
    requires Alternating(ts) && n <= |ts|
    ensures Alternating(ts[..n])
  {
    assert forall k :: 0 <= k < n ==> ts[..n][k] == ts[k];
  }

  /** Numeral-operator pairs written back to back scan to those pairs, with
      an empty buffer after the last operator. */
  lemma {:induction false} ScanSpelled(ts: seq<Token>)
    requires Alternating(ts) && |ts| % 2 == 0
    ensures Scan(Start, Spelling(ts)) == Some(Scanner(ts, "", true))
    decreases |ts|
  {
    if ts != [] {
      var init := ts[..|ts| - 2];
      var x := ts[|ts| - 2].text;
      var c := ts[|ts| - 1].op;
      assert ts == init + [Numeral(x), Operator(c)];
      AlternatingPrefix(ts, |ts| - 2);
      ScanSpelled(init);
      SpellingPush(init, x, c);
      assert Spelling(ts) == Spelling(init) + (x + [c]);
      ScanAppend(Start, Spelling(init), x + [c]);
      ScanDecimal(init, x);
      ScanSnoc(Scanner(init, "", true), x, c);
    }
  }

  /** Alternating tokens written back to back tokenize to themselves. */
  lemma SpellingTokenizes(ts: seq<Token>)
    requires Alternating(ts)
    ensures Tokenize(Spelling(ts)) == Some(ts)
  {
    if |ts| % 2 == 0 {
      ScanSpelled(ts);
    } else {
      var init := ts[..|ts| - 1];
      var x := ts[|ts| - 1].text;
      assert ts == init + [Numeral(x)];
      AlternatingPrefix(ts, |ts| - 1);
      ScanSpelled(init);
      SpellingSnoc(init, Numeral(x));
      ScanAppend(Start, Spelling(init), x);
      ScanDecimal(init, x);
    }
  }

  /** `tokenize` accepts `s` with result `ts` exactly when `ts` alternates
      numerals and operators and spells the lexical characters of `s`: so it
      rejects a second '.' in a number, an operator with no numeral before
      it, and a sign with no digits after it. */
  lemma TokenizeExactly(s: string, ts: seq<Token>)
    ensures Tokenize(s) == Some(ts) <==> Alternating(ts) && Spelling(ts) == Lexical(s)
  {
    if Tokenize(s) == Some(ts) {
      TokenizeShape(s, ts);
      TokenizeSpelling(s, ts);
    }
    if Alternating(ts) && Spelling(ts) == Lexical(s) {
      TokenizeLexical(s);
      SpellingTokenizes(ts);
    }
  }

  // ---------------------------------------------------------------------
  // Unary minus

  /** After an operator character (or at the very start) the scan has either
      just pushed that operator or holds the sign "-" in its buffer. */
  lemma AfterOperator(a: string)
    requires a == [] || IsOperator(a[|a| - 1])
    requires Scan(Start, a).Some?
    ensures Scan(Start, a).value.prevOperator || Scan(Start, a).value.number == "-"
  {
    if a != [] {
      var a' := a[..|a| - 1];
      assert a == a' + [a[|a| - 1]];
      ScanSnoc(Start, a', a[|a| - 1]);
      StartCoherent();
      ScanCoherent(Start, a');
    }
  }

  /** After an operator (or at the very start) a '-' is a sign, and a second
      '-' then meets the buffer "-" and fails: "5*--3" is rejected. */
  lemma DoubleMinusRejected(a: string, b: string)
    requires a == [] || IsOperator(a[|a| - 1])
    ensures Tokenize(a + "--" + b) == None
  {
    assert a + "--" + b == a + ("--" + b);
    ScanAppend(Start, a, "--" + b);
    assert ("--" + b)[1..][1..] == b;
    match Scan(Start, a)
    case None =>
    case Some(mid) =>
      StartCoherent();
      ScanCoherent(Start, a);
      AfterOperator(a);
  }

  /** A sign with nothing after it fails at the end of the input: "5*-" and
      "-" are rejected. */
  lemma TrailingSignRejected(a: string)
    requires a == [] || IsOperator(a[|a| - 1])
    ensures Tokenize(a + "-") == None
  {
    ScanSnoc(Start, a, '-');
    match Scan(Start, a)
    case None =>
    case Some(mid) =>
      StartCoherent();
      ScanCoherent(Start, a);
      AfterOperator(a);
  }

  /** A second '.' in one number fails: "1.2.3" is rejected. */
  lemma ExampleSecondPoint()
    ensures Tokenize("1.2.3") == None
  {
    var s := "1.2.3";
    var st := Scanner([], "1.2", false);
    assert s == "1.2" + ".3";
    ScanAppend(Start, "1.2", ".3");
    assert Scan(Start, "1.2") == Some(st) by {
      DecimalAppend("", '1');
      DecimalAppend("1", '.');
      DecimalAppend("1.", '2');
      ScanDecimal([], "1.2");
    }
    assert Step(st, '.') == None;
  }

  /** A binary operator needs a numeral before it: "5*+3" is rejected. */
  lemma ExampleOperatorAfterOperator()
    ensures Tokenize("5*+3") == None
  {
    var s := "5*+3";
    var st1 := Scanner([], "5", false);
    var st2 := Scanner([Numeral("5"), Operator('*')], "", true);
    assert "" + ['5'] == "5";
    assert Step(Start, '5') == Some(st1);
    assert st1.tokens + [Numeral(st1.number), Operator('*')] == st2.tokens;
    assert Step(st1, '*') == Some(st2);
    assert Step(st2, '+') == None;
    assert s[1..] == "*+3" && "*+3"[1..] == "+3";
    assert Scan(st2, "+3") == None;
    assert Scan(st1, "*+3") == None;
  }

  lemma ExampleDoubleMinus()
    ensures Tokenize("5*--3") == None
  {
    assert "5*--3" == "5*" + "--" + "3";
    DoubleMinusRejected("5*", "3");
  }

  // ---------------------------------------------------------------------
  // The end of the input

  /** From an empty buffer after an operator, decimal text goes into the
      buffer whole. */
  lemma {:induction false} ScanDecimal(tokens: seq<Token>, t: string)
    requires IsDecimalText(t)
    ensures Scan(Scanner(tokens, "", true), t) == Some(Scanner(tokens, t, t == ""))
    decreases |t|
  {
    if t != [] {
      var t' := t[..|t| - 1];
      var c := t[|t| - 1];
      assert t == t' + [c];
      DecimalSnoc(t', c);
      ScanDecimal(tokens, t');
      ScanSnoc(Scanner(tokens, "", true), t', c);
      if c == '-' {
        assert t == "-";
      }
    }
  }

  /** The buffer of `st` is the tail of `s`, and the rest of `s` scans to the
      tokens of `st` with an empty buffer. */
  predicate BufferSplit(s: string, st: Scanner) {
    && |st.number| <= |s|
    && s[|s| - |st.number|..] == st.number
    && Scan(Start, s[..|s| - |st.number|]) == Some(Scanner(st.tokens, "", true))
  }

  /** Cutting a string before its last character, or after it. */
  lemma SnocSlices(a: string, c: char, k: nat)
    requires k <= |a|
    ensures (a + [c])[k..] == a[k..] + [c] && (a + [c])[..k] == a[..k]
    ensures (a + [c])[..|a|] == a && (a + [c])[|a|..] == [c] && (a + [c])[..|a| + 1] == a + [c]
  {
  }

  /** One more lexical character keeps the buffer a tail of the input. */
  lemma BufferStep(a: string, c: char)
    requires IsLexical(c) && Scan(Start, a).Some? && Scan(Start, a + [c]).Some?
    requires BufferSplit(a, Scan(Start, a).value)
    ensures BufferSplit(a + [c], Scan(Start, a + [c]).value)
  {
    ScanSnoc(Start, a, c);
    var mid := Scan(Start, a).value;
    var st := Scan(Start, a + [c]).value;
    StartCoherent();
    ScanCoherent(Start, a);
    var k := |a| - |mid.number|;
    SnocSlices(a, c, k);
    if IsDigit(c) || c == '.' {
      assert st.tokens == mid.tokens && st.number == mid.number + [c];
    } else if c == '-' && mid.prevOperator {
      assert st.tokens == mid.tokens && st.number == "-" && mid.number == "";
    } else {
      assert st.number == "" && st.prevOperator;
    }
  }

  /** On lexical input the buffer is the tail of the input read since the
      last push, and the input before that tail scans to an empty buffer. */
  lemma {:induction false} BufferIsSuffix(s: string)
    requires AllLexical(s) && Scan(Start, s).Some?
    ensures var st := Scan(Start, s).value;
      && |st.number| <= |s|
      && s[|s| - |st.number|..] == st.number
      && Scan(Start, s[..|s| - |st.number|]) == Some(Scanner(st.tokens, "", true))
    decreases |s|
  {
    if s == [] {
      assert s[..0] == [];
    } else {
      var a := s[..|s| - 1];
      var c := s[|s| - 1];
      assert s == a + [c];
      assert AllLexical(a) by {
        forall k | 0 <= k < |a| ensures IsLexical(a[k]) {
          assert a[k] == s[k];
        }
      }
      ScanSnoc(Start, a, c);
      BufferIsSuffix(a);
      BufferStep(a, c);
    }
  }

  /** A successful scan whose input ends in a digit or '.' ends with that
      character in a non-empty buffer. */
  lemma ScanEndsInNumeral(s: string)
    requires s != [] && (IsDigit(s[|s| - 1]) || s[|s| - 1] == '.')
    requires Scan(Start, s).Some?
    ensures var st := Scan(Start, s).value;
      st.number != "" && st.number[|st.number| - 1] == s[|s| - 1] && !st.prevOperator
  {
    var s' := s[..|s| - 1];
    assert s == s' + [s[|s| - 1]];
    ScanSnoc(Start, s', s[|s| - 1]);
  }

  /** A successful `tokenize` of lexical input ending in an operator ends with
      that operator as a token and an empty buffer; a final '-' is then
      preceded by a character that is not an operator. */
  lemma TokenizeEndsInOperator(s: string, ts: seq<Token>)
    requires Tokenize(s) == Some(ts) && AllLexical(s)
    requires s != [] && IsOperator(s[|s| - 1])
    ensures Scan(Start, s) == Some(Scanner(ts, "", true))
    ensures ts != [] && ts[|ts| - 1] == Operator(s[|s| - 1])
    ensures s[|s| - 1] == '-' ==> |s| > 1 && !IsOperator(s[|s| - 2])
  {
    var a := s[..|s| - 1];
    var c := s[|s| - 1];
    assert s == a + [c];
    ScanSnoc(Start, a, c);
    var mid := Scan(Start, a).value;
    StartCoherent();
    ScanCoherent(Start, a);
    if c == '-' && mid.prevOperator {
      assert false;
    }
    if c == '-' && (a == [] || IsOperator(a[|a| - 1])) {
      AfterOperator(a);
      assert false;
    }
    if c == '-' {
      assert a[|a| - 1] == s[|s| - 2];
    }
  }

  /** A successful `tokenize` of lexical input ending in a digit or '.' ends
      with a numeral. */
  lemma TokenizeEndsInNumeral(s: string, ts: seq<Token>)
    requires Tokenize(s) == Some(ts)
    requires s != [] && (IsDigit(s[|s| - 1]) || s[|s| - 1] == '.')
    ensures ts != [] && ts[|ts| - 1].Numeral?
  {
    ScanEndsInNumeral(s);
  }

  /** Where a successful `tokenize` ends in a numeral, the input is the text
      before that numeral followed by the numeral itself, and the text before
      scans to the other tokens with an empty buffer. */
  lemma LastNumeralSplit(s: string, ts: seq<Token>)
    requires Tokenize(s) == Some(ts) && AllLexical(s)
    requires ts != [] && ts[|ts| - 1].Numeral?
    ensures var x := ts[|ts| - 1].text;
      && |x| <= |s|
      && s[|s| - |x|..] == x
      && Scan(Start, s[..|s| - |x|]) == Some(Scanner(ts[..|ts| - 1], "", true))
  {
    var st := Scan(Start, s).value;
    BufferIsSuffix(s);
    StartCoherent();
    ScanCoherent(Start, s);
    if st.number == "" {
      assert false;
    }
    assert ts == st.tokens + [Numeral(st.number)];
    assert ts[..|ts| - 1] == st.tokens;
  }
}
