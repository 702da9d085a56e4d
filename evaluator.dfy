/** `evaluateExpression` of engine.js: shunting-yard conversion of the tokens to
    postfix order, then reduction of the postfix sequence on a value stack. */
module Evaluator {
  import opened Text
  import opened Numbers
  import opened Tokenizer

  /** The three outcomes: `{valid:false}`, `{valid:true, error:"divide-by-zero"}`
      and `{valid:true, value}`. */
  datatype Outcome = Invalid | DivByZero | Success(value: real)

  /** The precedence table: `+` and `-` at 1, `*` and `/` at 2. */
  function Precedence(op: OpChar): nat {
    if op == '*' || op == '/' then 2 else 1
  }

  /** The inner loop: pop operators off the top of `ops` (its last element) onto
      `output` while their precedence is at least that of the incoming `op`. */
  function PopWhile(output: seq<Token>, ops: seq<OpChar>, op: OpChar): (seq<Token>, seq<OpChar>)
    decreases |ops|
  {
    if ops != [] && Precedence(ops[|ops| - 1]) >= Precedence(op) then
      PopWhile(output + [Operator(ops[|ops| - 1])], ops[..|ops| - 1], op)
    else
      (output, ops)
  }

  /** The final loop: move the remaining operators to `output`, top first. */
  function Drain(output: seq<Token>, ops: seq<OpChar>): seq<Token>
    decreases |ops|
  {
    if ops == [] then output
    else Drain(output + [Operator(ops[|ops| - 1])], ops[..|ops| - 1])
  }

  /** The shunting-yard pass over `ts` from the state (`output`, `ops`). */
  function Shunt(ts: seq<Token>, output: seq<Token>, ops: seq<OpChar>): seq<Token>
    decreases |ts|
  {
    if ts == [] then Drain(output, ops)
    else
      match ts[0]
      case Numeral(_) => Shunt(ts[1..], output + [ts[0]], ops)
      case Operator(c) =>
        var (output', ops') := PopWhile(output, ops, c);
        Shunt(ts[1..], output', ops' + [c])
  }

  function ToPostfix(ts: seq<Token>): seq<Token> {
    Shunt(ts, [], [])
  }

  /** The reduction of the postfix sequence `post` from value stack `stack`
      (top at the end): a numeral pushes its parsed value; an operator needs two
      values, stops the whole evaluation on a division by exactly zero, and
      otherwise pushes its result; at the end exactly one finite value must remain. */
  function Reduce(post: seq<Token>, stack: seq<Num>): Outcome
    decreases |post|
  {
    if post == [] then
      if |stack| == 1 && stack[0].Finite? then Success(stack[0].r) else Invalid
    else
      match post[0]
      case Numeral(t) => Reduce(post[1..], stack + [ToNum(ParseFloat(t))])
      case Operator(c) =>
        if |stack| < 2 then Invalid
        else
          var b := stack[|stack| - 1];
          var a := stack[|stack| - 2];
          if c == '/' && b == Finite(0.0) then DivByZero
          else Reduce(post[1..], stack[..|stack| - 2] + [Apply(c, a, b)])
  }

  /** `evaluateExpression` on the text `expr`. */
  function Evaluate(expr: string): Outcome {
    match Tokenize(expr)
    case None => Invalid
    case Some(ts) =>
      if ts == [] || ts[|ts| - 1].Operator? then Invalid
      else Reduce(ToPostfix(ts), [])
  }

  /** The loops of `evaluateExpression` as the source runs them. */
  method EvaluateExpression(expr: string) returns (o: Outcome)
    ensures o == Evaluate(expr)
  {
    var r := TokenizeExpression(expr);
    if r.None? || |r.value| == 0 {
      return Invalid;
    }
    var tokens := r.value;
    if tokens[|tokens| - 1].Operator? {
      return Invalid;
    }

    var output: seq<Token> := [];
    var ops: seq<OpChar> := [];
    for i := 0 to |tokens|
      invariant Shunt(tokens, [], []) == Shunt(tokens[i..], output, ops)
    {
      assert tokens[i..][1..] == tokens[i + 1..];
      match tokens[i]
      case Numeral(_) =>
        output := output + [tokens[i]];
      case Operator(c) =>
        ghost var popped := PopWhile(output, ops, c);
        while ops != [] && Precedence(ops[|ops| - 1]) >= Precedence(c)
          invariant PopWhile(output, ops, c) == popped
          decreases |ops|
        {
          output := output + [Operator(ops[|ops| - 1])];
          ops := ops[..|ops| - 1];
        }
        ops := ops + [c];
    }
    ghost var drained := Drain(output, ops);
    while ops != []
      invariant Drain(output, ops) == drained
      decreases |ops|
    {
      output := output + [Operator(ops[|ops| - 1])];
      ops := ops[..|ops| - 1];
    }

    var stack: seq<Num> := [];
    for i := 0 to |output|
      invariant Reduce(output, []) == Reduce(output[i..], stack)
    {
      assert output[i..][1..] == output[i + 1..];
      match output[i]
      case Numeral(t) =>
        stack := stack + [ToNum(ParseFloat(t))];
      case Operator(c) =>
        if |stack| < 2 {
          return Invalid;
        }
        var b := stack[|stack| - 1];
        var a := stack[|stack| - 2];
        stack := stack[..|stack| - 2];
        if c == '/' && b == Finite(0.0) {
          return DivByZero;
        }
        stack := stack + [Apply(c, a, b)];
    }
    if |stack| != 1 || stack[0].NonFinite? {
      return Invalid;
    }
    return Success(stack[0].r);
  }
}
