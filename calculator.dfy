/** The keystroke handlers of script.js: the calculator's state is the text
    typed so far (`expression`), whether an error is showing (`errorState`)
    and whether the expression holds a result just computed by "="
    (`justEvaluated`). Each handler is a transition on that state; the
    display updates it triggers are not modelled. */
module Calculator {
  import opened Text
  import opened Numbers
  import opened Tokenizer
  import opened Evaluator
  import opened Precedence
  import opened Editing

  datatype State = State(expression: string, errorState: bool, justEvaluated: bool)

  /** An error is shown on an empty expression. */
  predicate Consistent(st: State) {
    st.errorState ==> st.expression == ""
  }

  /** The state at page load, and the state `resetAll` restores. */
  const Initial := State("", false, false)

  /** `resetAll`. */
  function Cleared(st: State): (n: State)
    ensures Consistent(n) && !n.errorState && !n.justEvaluated && n.expression == ""
  {
    Initial
  }

  /** `showError`: the expression is cleared and the error shown; whether a
      result was just computed is left as it was. */
  function Errored(st: State): (n: State)
    ensures Consistent(n) && n.errorState && n.justEvaluated == st.justEvaluated
  {
    State("", true, st.justEvaluated)
  }

  /** The state once a shown error has been cleared, as each key but "="
      and delete does first. */
  function Recovered(st: State): (n: State)
    ensures !n.errorState
    ensures Consistent(st) ==> n.expression == st.expression
  {
    if st.errorState then Cleared(st) else st
  }

  /** `handleDigit`. */
  function DigitKey(st: State, d: char): (n: State)
    requires IsDigit(d)
    ensures Consistent(n) && !n.errorState && !n.justEvaluated
    ensures |n.expression| > 0 && n.expression[|n.expression| - 1] == d
  {
    var s := Recovered(st);
    if s.justEvaluated then State([d], false, false)
    else if s.expression == "0" then State([d], s.errorState, s.justEvaluated)
    else State(s.expression + [d], s.errorState, s.justEvaluated)
  }

  /** `handleDecimal`. */
  function DecimalKey(st: State): (n: State)
    ensures Consistent(n) && !n.errorState && !n.justEvaluated
    ensures n.expression != "" && '.' in LastNumber(n.expression)
  {
    var s := Recovered(st);
    if s.justEvaluated then
      EndsInPoint("", "0.");
      State("0.", false, false)
    else if s.expression == "" || IsOperator(s.expression[|s.expression| - 1]) then
      EndsInPoint(s.expression, "0.");
      State(s.expression + "0.", s.errorState, s.justEvaluated)
    else if '.' in LastNumber(s.expression) then s
    else
      EndsInPoint(s.expression, ".");
      State(s.expression + ".", s.errorState, s.justEvaluated)
  }

  /** Text ending in a point has a point in its last number. */
  lemma EndsInPoint(e: string, tail: string)
    requires tail != [] && tail[|tail| - 1] == '.'
    ensures '.' in LastNumber(e + tail)
  {
    var s := e + tail;
    assert s[|s| - 1] == '.';
    var i := LastNumberStart(s);
    assert i < |s|;
    assert LastNumber(s)[|s| - 1 - i] == '.';
  }

  /** The key press is ignored: only '-' may start an expression. */
  predicate OperatorIgnored(st: State, op: OpChar) {
    Recovered(st).expression == "" && op != '-'
  }

  /** `handleOperator`. */
  function OperatorKey(st: State, op: OpChar): (n: State)
    ensures Consistent(n) && !n.errorState
    ensures OperatorIgnored(st, op) ==> n == Recovered(st)
    ensures !OperatorIgnored(st, op) ==>
      && !n.justEvaluated
      && |n.expression| > 0 && n.expression[|n.expression| - 1] == op
  {
    var s := Recovered(st);
    if s.expression == "" && op != '-' then s
    else
      var e := s.expression;
      if e != "" && IsOperator(e[|e| - 1]) then
        if op == '-' && e[|e| - 1] != '-' then State(e + [op], s.errorState, false)
        else State(e[..|e| - 1] + [op], s.errorState, false)
      else State(e + [op], s.errorState, false)
  }

  /** `handleEquals`, with `format` standing for `formatResult`. */
  function EqualsKey(st: State, format: real -> string): (n: State)
    ensures Consistent(st) ==> Consistent(n)
    ensures n == st || n == State("", true, st.justEvaluated) || (n.justEvaluated && !n.errorState)
    ensures st.errorState ==> n == st
    ensures !st.errorState && (Preview(st.expression) == "" || Preview(st.expression) == "-") ==> n == st
    ensures !st.errorState && Preview(st.expression) != "" && Preview(st.expression) != "-" ==>
      match Evaluate(Preview(st.expression))
      case Invalid => n == st
      case DivByZero => n == State("", true, st.justEvaluated)
      case Success(v) => n == State(format(v), false, true)
  {
    if st.errorState then st
    else
      var preview := Preview(st.expression);
      if preview == "" || preview == "-" then st
      else
        match Evaluate(preview)
        case Invalid => st
        case DivByZero => Errored(st)
        case Success(v) => State(format(v), st.errorState, true)
  }

  /** `handleDelete`. */
  function DeleteKey(st: State): (n: State)
    ensures Consistent(st) ==> Consistent(n)
    ensures !n.errorState
    ensures st.errorState ==> n == Initial
    ensures !st.errorState && st.expression == "" ==> n == st
    ensures !st.errorState && st.expression != "" ==>
      !n.justEvaluated && n.expression + [st.expression[|st.expression| - 1]] == st.expression
  {
    if st.errorState then Cleared(st)
    else if st.expression == "" then st
    else State(st.expression[..|st.expression| - 1], st.errorState, false)
  }

  // ---------------------------------------------------------------------
  // What the keys promise

  /** A digit replaces a result just computed and a lone "0", and is
      appended to anything else, so "5+0" then 3 gives "5+03". */
  lemma DigitReplacesOrAppends(st: State, d: char)
    requires Consistent(st) && IsDigit(d)
    ensures DigitKey(st, d).expression ==
      if st.justEvaluated || st.expression == "0" then [d]
      else st.expression + [d]
  {
  }

  /** Deleting right after typing a digit gives back the expression typed
      before it, unless the digit replaced a result or a lone "0". */
  lemma DeleteUndoesDigit(st: State, d: char)
    requires Consistent(st) && IsDigit(d)
    requires !st.justEvaluated && st.expression != "0"
    ensures DeleteKey(DigitKey(st, d)) == State(st.expression, false, false)
  {
    var e := st.expression + [d];
    assert e[..|e| - 1] == st.expression;
  }

  /** Pressing "." twice does what pressing it once does: the second press
      finds a point in the last number. */
  lemma DecimalIdempotent(st: State)
    ensures DecimalKey(DecimalKey(st)) == DecimalKey(st)
  {
  }

  /** The decimal key starts "0." afresh after a result, appends "0." where
      no number is being typed, appends "." to a number without a point, and
      leaves a number that already has one unchanged. */
  lemma DecimalCases(st: State)
    requires Consistent(st)
    ensures var e := st.expression;
      DecimalKey(st).expression ==
        if st.justEvaluated then "0."
        else if e == "" || IsOperator(e[|e| - 1]) then e + "0."
        else if '.' in LastNumber(e) then e
        else e + "."
  {
  }

  /** An operator key grows the expression by one character exactly when
      the expression did not end in an operator, or when a '-' follows
      another operator; otherwise it replaces the last character. */
  lemma OperatorGrowsOrReplaces(st: State, op: OpChar)
    requires Consistent(st) && !OperatorIgnored(st, op)
    ensures var e := st.expression;
      var n := OperatorKey(st, op).expression;
      var grows := e == "" || !IsOperator(e[|e| - 1]) || (op == '-' && e[|e| - 1] != '-');
      && (grows ==> n == e + [op])
      && (!grows ==> |n| == |e| && n[..|e| - 1] == e[..|e| - 1])
  {
  }

  /** Pressing the same operator twice does what pressing it once does. */
  lemma OperatorIdempotent(st: State, op: OpChar)
    ensures OperatorKey(OperatorKey(st, op), op) == OperatorKey(st, op)
  {
    var n := OperatorKey(st, op);
    if !OperatorIgnored(st, op) {
      var e := n.expression;
      assert e[..|e| - 1] + [op] == e;
    }
  }

  /** Deleting right after an operator that was appended gives back the
      expression before it. */
  lemma DeleteUndoesOperator(st: State, op: OpChar)
    requires Consistent(st)
    ensures var n := OperatorKey(st, op);
      |n.expression| == |st.expression| + 1 ==> DeleteKey(n).expression == st.expression
  {
    var n := OperatorKey(st, op);
    if |n.expression| == |st.expression| + 1 {
      var e := n.expression;
      assert e == st.expression + [op];
      assert e[..|e| - 1] == st.expression;
    }
  }

  /** After a binary operator key the operator is the one highlighted as the
      pending binary operator. */
  lemma OperatorHighlighted(st: State, op: OpChar)
    requires Consistent(st) && op != '-' && !OperatorIgnored(st, op)
    ensures TrailingBinaryOperator(OperatorKey(st, op).expression) == Some(op)
  {
  }

  /** "=" evaluates the expression without its trailing operators: it shows
      an error exactly when some '/' there is followed by a numeral worth
      zero, and otherwise leaves the formatted value, computed with the usual
      precedence, as a result just evaluated. */
  lemma EqualsEvaluatesPreview(st: State, format: real -> string, ts: seq<Token>)
    requires Consistent(st) && !st.errorState
    requires Tokenize(Preview(st.expression)) == Some(ts) && ts != [] && ts[|ts| - 1].Numeral?
    ensures WellFormed(ts)
    ensures EqualsKey(st, format).errorState <==>
      exists i :: 0 < i < |ts| - 1 && ts[i] == Operator('/') && IsZeroNumeral(ts[i + 1])
    ensures match EvalAst(ParseAst(ts))
      case Val(Finite(v)) => EqualsKey(st, format) == State(format(v), false, true)
      case Val(NonFinite) => EqualsKey(st, format) == st
      case Aborted => EqualsKey(st, format) == State("", true, st.justEvaluated)
  {
    var preview := Preview(st.expression);
    assert preview != "" by {
      assert Scan(Start, "") == Some(Start);
    }
    EvaluateTokens(preview, ts);
    DivByZeroIffZeroDivisor(ts);
  }

  /** Every key keeps an error shown only on an empty expression. */
  lemma KeysKeepConsistent(st: State, d: char, op: OpChar, format: real -> string)
    requires Consistent(st) && IsDigit(d)
    ensures Consistent(Initial)
    ensures Consistent(Cleared(st)) && Consistent(Errored(st))
    ensures Consistent(DigitKey(st, d)) && Consistent(DecimalKey(st))
    ensures Consistent(OperatorKey(st, op)) && Consistent(EqualsKey(st, format))
    ensures Consistent(DeleteKey(st))
  {
  }

  // ---------------------------------------------------------------------
  // The handlers on the module-level variables

  class Calculator {
    var expression: string
    var errorState: bool
    var justEvaluated: bool
    /** `formatResult` on finite values. */
    const format: real -> string

    function Snapshot(): State
      reads this
    {
      State(expression, errorState, justEvaluated)
    }

    ghost predicate Valid()
      reads this
    {
      Consistent(Snapshot())
    }

    constructor (format: real -> string)
      ensures Valid() && Snapshot() == Initial && this.format == format
    {
      this.format := format;
      expression := "";
      errorState := false;
      justEvaluated := false;
    }

    method ResetAll()
      modifies this
      ensures Valid() && Snapshot() == Cleared(old(Snapshot()))
    {
      errorState := false;
      expression := "";
      justEvaluated := false;
    }

    method ShowError()
      modifies this
      ensures Valid() && Snapshot() == Errored(old(Snapshot()))
    {
      errorState := true;
      expression := "";
    }

    method HandleDigit(digit: char)
      requires Valid() && IsDigit(digit)
      modifies this
      ensures Valid() && Snapshot() == DigitKey(old(Snapshot()), digit)
    {
      if errorState {
        ResetAll();
      }
      if justEvaluated {
        expression := [digit];
        justEvaluated := false;
        return;
      }
      if expression == "0" {
        expression := [digit];
      } else {
        expression := expression + [digit];
      }
    }

    method HandleDecimal()
      requires Valid()
      modifies this
      ensures Valid() && Snapshot() == DecimalKey(old(Snapshot()))
    {
      if errorState {
        ResetAll();
      }
      if justEvaluated {
        expression := "0.";
        justEvaluated := false;
        return;
      }
      if expression == "" || IsOperator(expression[|expression| - 1]) {
        expression := expression + "0.";
        return;
      }
      var lastNumber := LastNumber(expression);
      if '.' in lastNumber {
        return;
      }
      expression := expression + ".";
    }

    method HandleOperator(operator: OpChar)
      requires Valid()
      modifies this
      ensures Valid() && Snapshot() == OperatorKey(old(Snapshot()), operator)
    {
      if errorState {
        ResetAll();
      }
      if expression == "" && operator != '-' {
        return;
      }
      if justEvaluated {
        justEvaluated := false;
      }
      if expression != "" && IsOperator(expression[|expression| - 1]) {
        if operator == '-' && expression[|expression| - 1] != '-' {
          expression := expression + [operator];
        } else {
          expression := expression[..|expression| - 1] + [operator];
        }
      } else {
        expression := expression + [operator];
      }
    }

    method HandleEquals()
      requires Valid()
      modifies this
      ensures Valid() && Snapshot() == EqualsKey(old(Snapshot()), format)
    {
      if errorState {
        return;
      }
      var previewExpr := GetPreviewExpression(expression);
      if previewExpr == "" || previewExpr == "-" {
        return;
      }
      var evaluation := EvaluateExpression(previewExpr);
      match evaluation
      case Invalid =>
      case DivByZero =>
        ShowError();
      case Success(v) =>
        expression := format(v);
        justEvaluated := true;
    }

    method HandleDelete()
      requires Valid()
      modifies this
      ensures Valid() && Snapshot() == DeleteKey(old(Snapshot()))
    {
      if errorState {
        ResetAll();
        return;
      }
      if expression == "" {
        return;
      }
      expression := expression[..|expression| - 1];
      justEvaluated := false;
    }
  }
}
