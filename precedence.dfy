/** A reference for `evaluateExpression`: the expression tree that standard
    precedence and left associativity give a token sequence, its evaluation,
    and the proofs that the shunting-yard pass emits that tree in post-order and
    that the stack reduction evaluates it. */
module Precedence {
  import opened Text
  import opened Numbers
  import opened Tokenizer
  import opened Evaluator

  datatype Expr = Lit(text: string) | Bin(op: OpChar, left: Expr, right: Expr)

  /** A token sequence the evaluator accepts for reduction: numerals and
      operators alternating, starting and ending with a numeral. */
  predicate WellFormed(ts: seq<Token>) {
    |ts| % 2 == 1 && Alternating(ts)
  }

  /** Operator-numeral pairs, as they follow the first numeral. */
  predicate Pairs(rest: seq<Token>) {
    |rest| % 2 == 0 && forall k :: 0 <= k < |rest| ==> (rest[k].Operator? <==> k % 2 == 0)
  }

  // ---------------------------------------------------------------------
  // The reference parse

  /** The parse so far: the finished additive part and its pending `+`/`-`. */
  datatype Pending = NoSum | Sum(e: Expr, op: OpChar)

  function Combine(sum: Pending, term: Expr): Expr {
    match sum
    case NoSum => term
    case Sum(e, a) => Bin(a, e, term)
  }

  /** Left to right: `*` and `/` extend the current term, `+` and `-` close it. */
  function ParseRest(sum: Pending, term: Expr, rest: seq<Token>): Expr
    decreases |rest|
  {
    if |rest| < 2 || !rest[0].Operator? || !rest[1].Numeral? then Combine(sum, term)
    else if Precedence(rest[0].op) == 2 then
      ParseRest(sum, Bin(rest[0].op, term, Lit(rest[1].text)), rest[2..])
    else
      ParseRest(Sum(Combine(sum, term), rest[0].op), Lit(rest[1].text), rest[2..])
  }

  function ParseAst(ts: seq<Token>): Expr
    requires WellFormed(ts)
  {
    ParseRest(NoSum, Lit(ts[0].text), ts[1..])
  }

  /** The tokens of a tree, left to right. */
  function Yield(e: Expr): seq<Token> {
    match e
    case Lit(t) => [Numeral(t)]
    case Bin(op, l, r) => Yield(l) + [Operator(op)] + Yield(r)
  }

  /** Standard precedence with left associativity: a left operand binds at
      least as tightly as its operator, a right operand strictly tighter. */
  predicate Ordered(e: Expr) {
    match e
    case Lit(_) => true
    case Bin(op, l, r) =>
      && Ordered(l) && Ordered(r)
      && (l.Bin? ==> Precedence(l.op) >= Precedence(op))
      && (r.Bin? ==> Precedence(r.op) > Precedence(op))
  }

  function PostOrder(e: Expr): seq<Token> {
    match e
    case Lit(t) => [Numeral(t)]
    case Bin(op, l, r) => PostOrder(l) + PostOrder(r) + [Operator(op)]
  }

  /** The value of a tree; Aborted is a division by exactly zero, found
      operands first, left before right. */
  datatype Value = Aborted | Val(n: Num)

  function EvalAst(e: Expr): Value {
    match e
    case Lit(t) => Val(ToNum(ParseFloat(t)))
    case Bin(op, l, r) =>
      match EvalAst(l)
      case Aborted => Aborted
      case Val(a) =>
        match EvalAst(r)
        case Aborted => Aborted
        case Val(b) => if op == '/' && b == Finite(0.0) then Aborted else Val(Apply(op, a, b))
  }

  function OutcomeOf(v: Value): Outcome {
    match v
    case Aborted => DivByZero
    case Val(NonFinite) => Invalid
    case Val(Finite(x)) => Success(x)
  }

  // ---------------------------------------------------------------------
  // The parse is the precedence tree of the tokens

  function SumYield(sum: Pending): seq<Token> {
    match sum
    case NoSum => []
    case Sum(e, a) => Yield(e) + [Operator(a)]
  }

  /** Pairs start with an operator and a numeral, and more pairs follow. */
  lemma PairsTail(rest: seq<Token>)
    requires Pairs(rest) && rest != []
    ensures rest[0].Operator? && rest[1].Numeral? && Pairs(rest[2..])
    ensures rest == [rest[0], Numeral(rest[1].text)] + rest[2..]
  {
    forall k | 0 <= k < |rest[2..]| ensures (rest[2..][k].Operator? <==> k % 2 == 0) {
      assert rest[2..][k] == rest[k + 2];
    }
  }

  /** One step of the parse over an operator-numeral pair. */
  lemma ParsePair(sum: Pending, term: Expr, op: OpChar, x: string, tail: seq<Token>)
    ensures ParseRest(sum, term, [Operator(op), Numeral(x)] + tail) ==
      if Precedence(op) == 2 then ParseRest(sum, Bin(op, term, Lit(x)), tail)
      else ParseRest(Sum(Combine(sum, term), op), Lit(x), tail)
  {
    var rest := [Operator(op), Numeral(x)] + tail;
    assert rest[0] == Operator(op) && rest[1] == Numeral(x);
    assert rest[2..] == tail;
  }

  lemma YieldCombine(sum: Pending, term: Expr)
    ensures Yield(Combine(sum, term)) == SumYield(sum) + Yield(term)
  {
    match sum
    case NoSum =>
      assert [] + Yield(term) == Yield(term);
    case Sum(e, a) =>
  }

  /** A `*` or `/` pair: the tokens of the extended term are those of the
      term followed by the pair. */
  lemma YieldTightStep(sum: Pending, term: Expr, op: OpChar, x: string, tail: seq<Token>)
    requires Precedence(op) == 2
    requires Yield(ParseRest(sum, Bin(op, term, Lit(x)), tail)) == SumYield(sum) + Yield(Bin(op, term, Lit(x))) + tail
    ensures Yield(ParseRest(sum, term, [Operator(op), Numeral(x)] + tail))
         == SumYield(sum) + Yield(term) + ([Operator(op), Numeral(x)] + tail)
  {
    ParsePair(sum, term, op, x, tail);
  }

  /** A `+` or `-` pair: the closed sum and its operator are followed by the
      new term. */
  lemma YieldLooseStep(sum: Pending, term: Expr, op: OpChar, x: string, tail: seq<Token>)
    requires Precedence(op) == 1
    requires Yield(ParseRest(Sum(Combine(sum, term), op), Lit(x), tail))
          == SumYield(Sum(Combine(sum, term), op)) + Yield(Lit(x)) + tail
    ensures Yield(ParseRest(sum, term, [Operator(op), Numeral(x)] + tail))
         == SumYield(sum) + Yield(term) + ([Operator(op), Numeral(x)] + tail)
  {
    ParsePair(sum, term, op, x, tail);
    YieldCombine(sum, term);
  }

  lemma {:induction false} ParseRestYield(sum: Pending, term: Expr, rest: seq<Token>)
    requires Pairs(rest)
    ensures Yield(ParseRest(sum, term, rest)) == SumYield(sum) + Yield(term) + rest
    decreases |rest|
  {
    if rest == [] {
      assert SumYield(sum) + Yield(term) + rest == SumYield(sum) + Yield(term);
    } else {
      PairsTail(rest);
      var op, x, tail := rest[0].op, rest[1].text, rest[2..];
      assert rest == [Operator(op), Numeral(x)] + tail;
      if Precedence(op) == 2 {
        ParseRestYield(sum, Bin(op, term, Lit(x)), tail);
        YieldTightStep(sum, term, op, x, tail);
      } else {
        ParseRestYield(Sum(Combine(sum, term), op), Lit(x), tail);
        YieldLooseStep(sum, term, op, x, tail);
      }
    }
  }

  lemma WellFormedPairs(ts: seq<Token>)
    requires WellFormed(ts)
    ensures ts[0].Numeral? && Pairs(ts[1..])
  {
    forall k | 0 <= k < |ts[1..]| ensures (ts[1..][k].Operator? <==> k % 2 == 0) {
      assert ts[1..][k] == ts[k + 1];
    }
  }

  /** The tree holds exactly the tokens, in order. */
  lemma ParseAstYield(ts: seq<Token>)
    requires WellFormed(ts)
    ensures Yield(ParseAst(ts)) == ts
  {
    WellFormedPairs(ts);
    ParseRestYield(NoSum, Lit(ts[0].text), ts[1..]);
    assert [ts[0]] + ts[1..] == ts;
  }

  /** A term in progress: a chain of `*` and `/` with numerals on the right. */
  predicate IsTerm(term: Expr) {
    Ordered(term) && (term.Bin? ==> Precedence(term.op) == 2)
  }

  predicate IsSum(sum: Pending) {
    sum.Sum? ==> Ordered(sum.e) && Precedence(sum.op) == 1
  }

  lemma {:induction false} ParseRestOrdered(sum: Pending, term: Expr, rest: seq<Token>)
    requires IsSum(sum) && IsTerm(term)
    ensures Ordered(ParseRest(sum, term, rest))
    decreases |rest|
  {
    if |rest| < 2 || !rest[0].Operator? || !rest[1].Numeral? {
    } else if Precedence(rest[0].op) == 2 {
      ParseRestOrdered(sum, Bin(rest[0].op, term, Lit(rest[1].text)), rest[2..]);
    } else {
      ParseRestOrdered(Sum(Combine(sum, term), rest[0].op), Lit(rest[1].text), rest[2..]);
    }
  }

  /** The tree groups by standard precedence and associates to the left. */
  lemma ParseAstOrdered(ts: seq<Token>)
    requires WellFormed(ts)
    ensures Ordered(ParseAst(ts))
  {
    ParseRestOrdered(NoSum, Lit(ts[0].text), ts[1..]);
  }

  /** Every operator in an ordered tree binds at least as tightly as its root. */
  lemma {:induction false} OrderedRootIsLoosest(e: Expr, k: nat)
    requires Ordered(e) && e.Bin? && k < |Yield(e)| && Yield(e)[k].Operator?
    ensures Precedence(Yield(e)[k].op) >= Precedence(e.op)
    decreases e
  {
    var y := Yield(e);
    var nl := |Yield(e.left)|;
    if k < nl {
      assert y[k] == Yield(e.left)[k];
      if e.left.Bin? {
        OrderedRootIsLoosest(e.left, k);
      }
    } else if k > nl {
      assert y[k] == Yield(e.right)[k - nl - 1];
      if e.right.Bin? {
        OrderedRootIsLoosest(e.right, k - nl - 1);
      }
    }
  }

  /** There is only one ordered tree with a given yield: the precedence tree
      is unique, so ParseAst is it. */
  lemma {:induction false} OrderedUnique(e1: Expr, e2: Expr)
    requires Ordered(e1) && Ordered(e2) && Yield(e1) == Yield(e2)
    ensures e1 == e2
    decreases e1
  {
    var y := Yield(e1);
    if e1.Lit? || e2.Lit? {
      // a numeral yields one token, an operation at least three
    } else {
      var p1 := |Yield(e1.left)|;
      var p2 := |Yield(e2.left)|;
      assert y[p1] == Operator(e1.op);
      assert y[p2] == Operator(e2.op);
      if p1 < p2 {
        // e2's root sits in e1's right operand, e1's root in e2's left operand
        RightBindsTighter(e1, p2);
        LeftBindsAsTight(e2, p1);
        assert false;
      } else if p2 < p1 {
        RightBindsTighter(e2, p1);
        LeftBindsAsTight(e1, p2);
        assert false;
      }
      assert Yield(e1.left) == y[..p1] && Yield(e2.left) == y[..p1];
      assert Yield(e1.right) == y[p1 + 1..] && Yield(e2.right) == y[p1 + 1..];
      OrderedUnique(e1.left, e2.left);
      OrderedUnique(e1.right, e2.right);
    }
  }

  lemma RightBindsTighter(e: Expr, k: nat)
    requires Ordered(e) && e.Bin? && |Yield(e.left)| < k < |Yield(e)| && Yield(e)[k].Operator?
    ensures Precedence(Yield(e)[k].op) > Precedence(e.op)
  {
    var nl := |Yield(e.left)|;
    assert Yield(e)[k] == Yield(e.right)[k - nl - 1];
    if e.right.Bin? {
      OrderedRootIsLoosest(e.right, k - nl - 1);
    }
  }

  lemma LeftBindsAsTight(e: Expr, k: nat)
    requires Ordered(e) && e.Bin? && k < |Yield(e.left)| && Yield(e)[k].Operator?
    ensures Precedence(Yield(e)[k].op) >= Precedence(e.op)
  {
    OrderedRootIsLoosest(e, k);
  }

  /** ParseAst is the one tree that holds the tokens in order and respects
      precedence and left associativity. */
  lemma ParseAstIsThePrecedenceTree(ts: seq<Token>, e: Expr)
    requires WellFormed(ts) && Ordered(e) && Yield(e) == ts
    ensures ParseAst(ts) == e
  {
    ParseAstYield(ts);
    ParseAstOrdered(ts);
    OrderedUnique(ParseAst(ts), e);
  }

  // ---------------------------------------------------------------------
  // Shunting-yard emits the tree in post-order

  function SumOutput(sum: Pending): seq<Token> {
    match sum
    case NoSum => []
    case Sum(e, _) => PostOrder(e)
  }

  function SumOps(sum: Pending): seq<OpChar> {
    match sum
    case NoSum => []
    case Sum(_, a) => [a]
  }

  function TermOutput(term: Expr): seq<Token> {
    match term
    case Lit(t) => [Numeral(t)]
    case Bin(_, l, r) => PostOrder(l) + PostOrder(r)
  }

  function TermOps(term: Expr): seq<OpChar> {
    match term
    case Lit(_) => []
    case Bin(m, _, _) => [m]
  }

  /** Draining the operator stack of a parse state completes its post-order. */
  lemma DrainState(sum: Pending, term: Expr)
    ensures Drain(SumOutput(sum) + TermOutput(term), SumOps(sum) + TermOps(term))
         == PostOrder(Combine(sum, term))
  {
    var out := SumOutput(sum) + TermOutput(term);
    match sum {
      case NoSum =>
        match term {
          case Lit(_) =>
          case Bin(m, l, r) =>
            assert [m][..0] == [];
        }
      case Sum(e, a) =>
        match term {
          case Lit(_) =>
            assert [a][..0] == [];
          case Bin(m, l, r) =>
            assert ([a] + [m])[..1] == [a];
            assert [a][..0] == [];
            assert Drain(out, [a] + [m]) == Drain(out + [Operator(m)], [a]);
        }
    }
  }

  /** A `*` or `/` pops the pending term operator (if any) and stops at the `+`/`-` below it. */
  lemma PopForTermOperator(sum: Pending, term: Expr, op: OpChar)
    requires IsSum(sum) && IsTerm(term) && Precedence(op) == 2
    ensures PopWhile(SumOutput(sum) + TermOutput(term), SumOps(sum) + TermOps(term), op)
         == (SumOutput(sum) + PostOrder(term), SumOps(sum))
  {
    var out := SumOutput(sum) + TermOutput(term);
    if term.Bin? {
      assert (SumOps(sum) + [term.op])[..|SumOps(sum)|] == SumOps(sum);
      assert out + [Operator(term.op)] == SumOutput(sum) + PostOrder(term);
    } else {
      assert SumOps(sum) + TermOps(term) == SumOps(sum);
    }
  }

  /** One pop of the inner loop. */
  lemma PopOnce(out: seq<Token>, ops: seq<OpChar>, op: OpChar)
    requires ops != [] && Precedence(ops[|ops| - 1]) >= Precedence(op)
    ensures PopWhile(out, ops, op) == PopWhile(out + [Operator(ops[|ops| - 1])], ops[..|ops| - 1], op)
  {
  }

  /** A `+` or `-` pops every operator: what is output is the whole parse so far. */
  lemma PopForSumOperator(sum: Pending, term: Expr, op: OpChar)
    requires IsSum(sum) && IsTerm(term) && Precedence(op) == 1
    ensures PopWhile(SumOutput(sum) + TermOutput(term), SumOps(sum) + TermOps(term), op)
         == (PostOrder(Combine(sum, term)), [])
  {
    match sum {
      case NoSum =>
        assert [] + TermOutput(term) == TermOutput(term);
        assert [] + TermOps(term) == TermOps(term);
        PopTermForSum(term, op);
      case Sum(e, a) => PopSumForSum(e, a, term, op);
    }
  }

  lemma PopTermForSum(term: Expr, op: OpChar)
    requires IsTerm(term) && Precedence(op) == 1
    ensures PopWhile(TermOutput(term), TermOps(term), op) == (PostOrder(term), [])
  {
    if term.Bin? {
      PopOnce(TermOutput(term), [term.op], op);
      assert [term.op][..0] == [];
    }
  }

  lemma PopSumForSum(e: Expr, a: OpChar, term: Expr, op: OpChar)
    requires Precedence(a) == 1 && IsTerm(term) && Precedence(op) == 1
    ensures PopWhile(PostOrder(e) + TermOutput(term), [a] + TermOps(term), op)
         == (PostOrder(Bin(a, e, term)), [])
  {
    var out := PostOrder(e) + TermOutput(term);
    if term.Bin? {
      var m := term.op;
      PopOnce(out, [a, m], op);
      assert [a] + [m] == [a, m] && [a, m][..1] == [a];
      PopOnce(out + [Operator(m)], [a], op);
      assert [a][..0] == [];
      assert out + [Operator(m)] + [Operator(a)] == PostOrder(e) + PostOrder(term) + [Operator(a)];
    } else {
      assert [a] + TermOps(term) == [a];
      PopOnce(out, [a], op);
      assert [a][..0] == [];
    }
  }

  lemma {:induction false} ShuntParse(sum: Pending, term: Expr, rest: seq<Token>)
    requires IsSum(sum) && IsTerm(term) && Pairs(rest)
    ensures Shunt(rest, SumOutput(sum) + TermOutput(term), SumOps(sum) + TermOps(term))
         == PostOrder(ParseRest(sum, term, rest))
    decreases |rest|
  {
    var out := SumOutput(sum) + TermOutput(term);
    var ops := SumOps(sum) + TermOps(term);
    if rest == [] {
      DrainState(sum, term);
    } else {
      assert rest[0].Operator? && rest[1].Numeral?;
      var op := rest[0].op;
      var n := rest[1];
      assert rest[1..][0] == n && rest[1..][1..] == rest[2..];
      assert Pairs(rest[2..]) by {
        forall k | 0 <= k < |rest[2..]| ensures (rest[2..][k].Operator? <==> k % 2 == 0) {
          assert rest[2..][k] == rest[k + 2];
        }
      }
      var popped := PopWhile(out, ops, op);
      assert Shunt(rest, out, ops) == Shunt(rest[2..], popped.0 + [n], popped.1 + [op]);
      if Precedence(op) == 2 {
        PopForTermOperator(sum, term, op);
        var term' := Bin(op, term, Lit(n.text));
        assert TermOutput(term') == PostOrder(term) + [n];
        assert SumOutput(sum) + PostOrder(term) + [n] == SumOutput(sum) + TermOutput(term');
        ShuntParse(sum, term', rest[2..]);
      } else {
        PopForSumOperator(sum, term, op);
        var sum' := Sum(Combine(sum, term), op);
        assert SumOps(sum') + TermOps(Lit(n.text)) == [] + [op];
        assert SumOutput(sum') + TermOutput(Lit(n.text)) == PostOrder(Combine(sum, term)) + [n];
        ShuntParse(sum', Lit(n.text), rest[2..]);
      }
    }
  }

  /** The shunting-yard pass on well-formed tokens emits the precedence tree in post-order. */
  lemma ShuntingYardIsPostOrder(ts: seq<Token>)
    requires WellFormed(ts)
    ensures ToPostfix(ts) == PostOrder(ParseAst(ts))
  {
    WellFormedPairs(ts);
    assert ts != [] && ts[0].Numeral?;
    assert Shunt(ts, [], []) == Shunt(ts[1..], [] + [ts[0]], []);
    assert [] + [ts[0]] == [Numeral(ts[0].text)];
    ShuntParse(NoSum, Lit(ts[0].text), ts[1..]);
  }

  // ---------------------------------------------------------------------
  // The stack reduction evaluates the tree

  /** Reducing a tree's post-order pushes its value, or stops on its division
      by zero; in particular an operator never finds fewer than two values. */
  lemma {:induction false} ReducePostOrder(e: Expr, rest: seq<Token>, stack: seq<Num>)
    ensures Reduce(PostOrder(e) + rest, stack) ==
      match EvalAst(e)
      case Aborted => DivByZero
      case Val(v) => Reduce(rest, stack + [v])
    decreases e
  {
    match e
    case Lit(t) =>
      assert ([Numeral(t)] + rest)[1..] == rest;
    case Bin(op, l, r) =>
      var tail := PostOrder(r) + ([Operator(op)] + rest);
      assert PostOrder(e) + rest == PostOrder(l) + tail;
      ReducePostOrder(l, tail, stack);
      match EvalAst(l)
      case Aborted =>
      case Val(a) =>
        ReducePostOrder(r, [Operator(op)] + rest, stack + [a]);
        match EvalAst(r)
        case Aborted =>
        case Val(b) =>
          var s2 := stack + [a] + [b];
          assert s2[|s2| - 1] == b && s2[|s2| - 2] == a && s2[..|s2| - 2] == stack;
          assert ([Operator(op)] + rest)[1..] == rest;
  }

  // ---------------------------------------------------------------------
  // evaluateExpression against the reference

  /** A successful `tokenize` that ends in a numeral is well formed. */
  lemma TokensWellFormed(s: string, ts: seq<Token>)
    requires Tokenize(s) == Some(ts) && ts != [] && ts[|ts| - 1].Numeral?
    ensures WellFormed(ts)
  {
    TokenizeShape(s, ts);
    assert (|ts| - 1) % 2 == 0;
  }

  /** `evaluateExpression` is invalid when `tokenize` fails, gives no tokens or
      ends in an operator; otherwise it is the value of the precedence tree:
      divide-by-zero on a division by exactly zero, invalid when the value is
      not finite, and success with that value otherwise. The reduction's
      stack-size check never fires. */
  lemma EvaluateByPrecedence(s: string)
    ensures Evaluate(s) ==
      match Tokenize(s)
      case None => Invalid
      case Some(ts) =>
        if ts == [] || ts[|ts| - 1].Operator? then Invalid
        else if WellFormed(ts) then OutcomeOf(EvalAst(ParseAst(ts)))
        else Invalid
  {
    match Tokenize(s)
    case None =>
    case Some(ts) =>
      if ts != [] && ts[|ts| - 1].Numeral? {
        TokensWellFormed(s, ts);
        ShuntingYardIsPostOrder(ts);
        ReducePostOrder(ParseAst(ts), [], []);
        assert PostOrder(ParseAst(ts)) + [] == PostOrder(ParseAst(ts));
      }
  }

  /** The same, for a token sequence already known to end in a numeral. */
  lemma EvaluateTokens(s: string, ts: seq<Token>)
    requires Tokenize(s) == Some(ts) && ts != [] && ts[|ts| - 1].Numeral?
    ensures WellFormed(ts)
    ensures Evaluate(s) == OutcomeOf(EvalAst(ParseAst(ts)))
  {
    TokensWellFormed(s, ts);
    EvaluateByPrecedence(s);
  }

  // ---------------------------------------------------------------------
  // Division by zero

  predicate IsZeroNumeral(t: Token) {
    t.Numeral? && ParseFloat(t.text) == Some(0.0)
  }

  /** Some `/` among the pairs is followed by a numeral worth exactly zero. */
  predicate ZeroDivisorIn(rest: seq<Token>)
    decreases |rest|
  {
    if |rest| < 2 then false
    else (rest[0] == Operator('/') && IsZeroNumeral(rest[1])) || ZeroDivisorIn(rest[2..])
  }

  function SumAborts(sum: Pending): bool {
    sum.Sum? && EvalAst(sum.e) == Aborted
  }

  lemma {:induction false} ParseRestAborts(sum: Pending, term: Expr, rest: seq<Token>)
    requires IsSum(sum) && IsTerm(term) && Pairs(rest)
    ensures EvalAst(ParseRest(sum, term, rest)) == Aborted
        <==> SumAborts(sum) || EvalAst(term) == Aborted || ZeroDivisorIn(rest)
    decreases |rest|
  {
    if rest != [] {
      assert rest[0].Operator? && rest[1].Numeral?;
      assert Pairs(rest[2..]) by {
        forall k | 0 <= k < |rest[2..]| ensures (rest[2..][k].Operator? <==> k % 2 == 0) {
          assert rest[2..][k] == rest[k + 2];
        }
      }
      var n := Lit(rest[1].text);
      if Precedence(rest[0].op) == 2 {
        ParseRestAborts(sum, Bin(rest[0].op, term, n), rest[2..]);
      } else {
        ParseRestAborts(Sum(Combine(sum, term), rest[0].op), n, rest[2..]);
      }
    }
  }

  lemma {:induction false} ZeroDivisorAt(rest: seq<Token>)
    requires Pairs(rest)
    ensures ZeroDivisorIn(rest) <==>
      exists i :: 0 <= i < |rest| - 1 && rest[i] == Operator('/') && IsZeroNumeral(rest[i + 1])
    decreases |rest|
  {
    if rest != [] {
      var tail := rest[2..];
      assert Pairs(tail) by {
        forall k | 0 <= k < |tail| ensures (tail[k].Operator? <==> k % 2 == 0) {
          assert tail[k] == rest[k + 2];
        }
      }
      ZeroDivisorAt(tail);
      if ZeroDivisorIn(tail) {
        var j :| 0 <= j < |tail| - 1 && tail[j] == Operator('/') && IsZeroNumeral(tail[j + 1]);
        assert rest[j + 2] == tail[j] && rest[j + 3] == tail[j + 1];
      }
      if exists i :: 0 <= i < |rest| - 1 && rest[i] == Operator('/') && IsZeroNumeral(rest[i + 1]) {
        var i :| 0 <= i < |rest| - 1 && rest[i] == Operator('/') && IsZeroNumeral(rest[i + 1]);
        if i >= 2 {
          assert tail[i - 2] == rest[i] && tail[i - 1] == rest[i + 1];
        } else {
          assert i == 0;
        }
      }
    }
  }

  /** On well-formed tokens the evaluation is divide-by-zero exactly when some
      `/` is followed by a numeral whose value is exactly zero. */
  lemma DivByZeroIffZeroDivisor(ts: seq<Token>)
    requires WellFormed(ts)
    ensures EvalAst(ParseAst(ts)) == Aborted <==>
      exists i :: 0 < i < |ts| - 1 && ts[i] == Operator('/') && IsZeroNumeral(ts[i + 1])
  {
    WellFormedPairs(ts);
    ParseRestAborts(NoSum, Lit(ts[0].text), ts[1..]);
    ZeroDivisorAt(ts[1..]);
    var rest := ts[1..];
    if exists i :: 0 <= i < |rest| - 1 && rest[i] == Operator('/') && IsZeroNumeral(rest[i + 1]) {
      var i :| 0 <= i < |rest| - 1 && rest[i] == Operator('/') && IsZeroNumeral(rest[i + 1]);
      assert ts[i + 1] == rest[i] && ts[i + 2] == rest[i + 1];
    }
    if exists i :: 0 < i < |ts| - 1 && ts[i] == Operator('/') && IsZeroNumeral(ts[i + 1]) {
      var i :| 0 < i < |ts| - 1 && ts[i] == Operator('/') && IsZeroNumeral(ts[i + 1]);
      assert rest[i - 1] == ts[i] && rest[i] == ts[i + 1];
    }
  }

  // ---------------------------------------------------------------------
  // A single numeral

  /** An expression that is one numeral evaluates to its parsed value, or is
      invalid when that value is NaN. */
  lemma SingleNumeral(s: string, t: string)
    requires Tokenize(s) == Some([Numeral(t)])
    ensures Evaluate(s) == match ParseFloat(t) case Some(v) => Success(v) case None => Invalid
  {
    EvaluateByPrecedence(s);
    TokensWellFormed(s, [Numeral(t)]);
    assert ParseAst([Numeral(t)]) == Lit(t);
  }
}
