/** Evaluation of a postfix (reverse Polish) expression given as a list of
    tokens, as `evaluate` in postfix_evaluator.py does it: decimal tokens are
    pushed on a stack, every other token pops two entries and pushes
    `second-from-top op top`, and the result is the top of the stack.

    The source hands each operator to Python's `eval`; this model admits the
    three integer operators `+`, `-` and `*`, for which that evaluation is
    exact integer arithmetic, and reports any other operator token as
    unsupported. */
module Postfix {

  datatype Error = StackUnderflow | UnsupportedToken(token: string)

  datatype Result<T> = Ok(value: T) | Err(error: Error)

  datatype BinOp = Add | Sub | Mul

  // ---------------------------------------------------------------------
  // Tokens
  // ---------------------------------------------------------------------

  predicate IsDigit(c: char) { '0' <= c <= '9' }

  /** `str.isdigit()` on a token: non-empty and made of decimal digits only. */
  predicate IsNumber(tok: string)
  {
    |tok| > 0 && forall i :: 0 <= i < |tok| ==> IsDigit(tok[i])
  }

  function DigitValue(c: char): (d: nat)
    requires IsDigit(c)
    ensures d < 10
  {
    (c as int) - ('0' as int)
  }

  function DigitChar(d: nat): (c: char)
    requires d < 10
    ensures IsDigit(c) && DigitValue(c) == d
  {
    ('0' as int + d) as char
  }

  /** The number a string of decimal digits denotes. */
  function NumberValue(tok: string): nat
    requires forall i :: 0 <= i < |tok| ==> IsDigit(tok[i])
  {
    if tok == [] then 0
    else NumberValue(tok[..|tok| - 1]) * 10 + DigitValue(tok[|tok| - 1])
  }

  /** The decimal spelling of a natural number (no leading zeros). */
  function Decimal(n: nat): (s: string)
    ensures IsNumber(s)
  {
    if n < 10 then [DigitChar(n)] else Decimal(n / 10) + [DigitChar(n % 10)]
  }

  lemma {:induction false} DecimalRoundTrip(n: nat)
    ensures NumberValue(Decimal(n)) == n
  {
    if n >= 10 {
      var s := Decimal(n);
      assert s[..|s| - 1] == Decimal(n / 10);
      DecimalRoundTrip(n / 10);
    }
  }

  function OpToken(op: BinOp): string
  {
    match op
    case Add => "+"
    case Sub => "-"
    case Mul => "*"
  }

  /** The operators this model admits; `None` for every other token. */
  function ParseOp(tok: string): (r: Option<BinOp>)
    ensures r.Some? ==> OpToken(r.value) == tok
    ensures forall op :: OpToken(op) == tok ==> r == Some(op)
  {
    if tok == "+" then Some(Add)
    else if tok == "-" then Some(Sub)
    else if tok == "*" then Some(Mul)
    else None
  }

  datatype Option<T> = None | Some(value: T)

  /** `eval(val2 + op + val1)` for the admitted operators: the entry that was
      deeper on the stack is the left operand. */
  function Apply(op: BinOp, left: int, right: int): int
  {
    match op
    case Add => left + right
    case Sub => left - right
    case Mul => left * right
  }

  // ---------------------------------------------------------------------
  // Specification: the stack machine as a fold over the tokens
  // ---------------------------------------------------------------------

  /** One token applied to a stack whose top is its last element. An operator
      pops before it is interpreted, so a short stack is reported as an
      underflow even when the token is not an admitted operator. */
  function Step(stack: seq<int>, tok: string): Result<seq<int>>
  {
    if IsNumber(tok) then Ok(stack + [NumberValue(tok)])
    else if |stack| < 2 then Err(StackUnderflow)
    else match ParseOp(tok)
      case None => Err(UnsupportedToken(tok))
      case Some(op) =>
        Ok(stack[..|stack| - 2] + [Apply(op, stack[|stack| - 2], stack[|stack| - 1])])
  }

  /** All tokens applied in order, stopping at the first error. */
  function Run(stack: seq<int>, tokens: seq<string>): Result<seq<int>>
    decreases tokens
  {
    if tokens == [] then Ok(stack)
    else match Step(stack, tokens[0])
      case Err(e) => Err(e)
      case Ok(next) => Run(next, tokens[1..])
  }

  /** The value of the whole token list: the top of the final stack; entries
      left below it are ignored, and an empty final stack is an underflow. */
  function Eval(tokens: seq<string>): Result<int>
  {
    match Run([], tokens)
    case Err(e) => Err(e)
    case Ok(stack) => if stack == [] then Err(StackUnderflow) else Ok(stack[|stack| - 1])
  }

  // ---------------------------------------------------------------------
  // The evaluator
  // ---------------------------------------------------------------------

  method Evaluate(tokens: seq<string>) returns (r: Result<int>)
    ensures r == Eval(tokens)
  {
    var ops: seq<int> := [];
    for i := 0 to |tokens|
      invariant Run([], tokens) == Run(ops, tokens[i..])
    {
      assert tokens[i..][1..] == tokens[i + 1..];
      var tok := tokens[i];
      if IsNumber(tok) {
        ops := ops + [NumberValue(tok)];
      } else {
        if |ops| == 0 {
          return Err(StackUnderflow);
        }
        var val1 := ops[|ops| - 1];
        var rest := ops[..|ops| - 1];
        if |rest| == 0 {
          return Err(StackUnderflow);
        }
        var val2 := rest[|rest| - 1];
        assert rest[..|rest| - 1] == ops[..|ops| - 2];
        rest := rest[..|rest| - 1];
        var op := ParseOp(tok);
        if op.None? {
          return Err(UnsupportedToken(tok));
        }
        ops := rest + [Apply(op.value, val2, val1)];
      }
    }
    if ops == [] {
      return Err(StackUnderflow);
    }
    r := Ok(ops[|ops| - 1]);
  }

  // ---------------------------------------------------------------------
  // Properties
  // ---------------------------------------------------------------------

  /** A number token adds one entry, an admitted operator removes one. */
  function Delta(tok: string): int
  {
    if IsNumber(tok) then 1 else -1
  }

  /** The net growth of the stack over a token list. */
  function Depth(tokens: seq<string>): int
  {
    if tokens == [] then 0 else Delta(tokens[0]) + Depth(tokens[1..])
  }

  predicate Admitted(tok: string)
  {
    IsNumber(tok) || ParseOp(tok).Some?
  }

  /** Every non-empty prefix leaves at least one entry on a stack that
      started with `base` entries. */
  predicate NeverShort(base: nat, tokens: seq<string>)
  {
    forall k :: 1 <= k <= |tokens| ==> base + Depth(tokens[..k]) >= 1
  }

  /** A well-formed postfix expression: admitted tokens only, every non-empty
      prefix has more operands than operators, and there is exactly one more
      operand than operators in all. */
  predicate WellFormed(tokens: seq<string>)
  {
    (forall k :: 0 <= k < |tokens| ==> Admitted(tokens[k]))
    && NeverShort(0, tokens)
    && Depth(tokens) == 1
  }

  lemma PrefixSplit(tokens: seq<string>, k: nat)
    requires 1 <= k <= |tokens|
    ensures tokens[..k][0] == tokens[0] && tokens[..k][1..] == tokens[1..][..k - 1]
  {
  }

  /** A successful run changes the stack height by exactly the depth of the
      token list. */
  lemma {:induction false} RunHeight(stack: seq<int>, tokens: seq<string>)
    requires Run(stack, tokens).Ok?
    ensures |Run(stack, tokens).value| == |stack| + Depth(tokens)
    decreases tokens
  {
    if tokens != [] {
      var next := Step(stack, tokens[0]).value;
      RunHeight(next, tokens[1..]);
    }
  }

  /** The run over admitted tokens succeeds exactly when no prefix leaves the
      stack empty, that is, when every operator finds two entries. */
  lemma {:induction false} RunOkIff(stack: seq<int>, tokens: seq<string>)
    requires forall k :: 0 <= k < |tokens| ==> Admitted(tokens[k])
    ensures Run(stack, tokens).Ok? <==> NeverShort(|stack|, tokens)
    decreases tokens
  {
    if tokens != [] {
      var tok := tokens[0];
      assert forall k :: 1 <= k <= |tokens| ==>
        Depth(tokens[..k]) == Delta(tok) + Depth(tokens[1..][..k - 1]) by {
        forall k | 1 <= k <= |tokens|
          ensures Depth(tokens[..k]) == Delta(tok) + Depth(tokens[1..][..k - 1])
        {
          PrefixSplit(tokens, k);
        }
      }
      assert Depth(tokens[..1]) == Delta(tok) by { PrefixSplit(tokens, 1); }
      if IsNumber(tok) || |stack| >= 2 {
        var next := Step(stack, tok).value;
        assert |next| == |stack| + Delta(tok);
        RunOkIff(next, tokens[1..]);
        assert NeverShort(|next|, tokens[1..]) <==> NeverShort(|stack|, tokens) by {
          if NeverShort(|next|, tokens[1..]) {
            forall k | 1 <= k <= |tokens| ensures |stack| + Depth(tokens[..k]) >= 1 {
              if k > 1 {
                assert |next| + Depth(tokens[1..][..k - 1]) >= 1;
              }
            }
          }
          if NeverShort(|stack|, tokens) {
            forall k | 1 <= k <= |tokens[1..]| ensures |next| + Depth(tokens[1..][..k]) >= 1 {
              assert |stack| + Depth(tokens[..k + 1]) >= 1;
            }
          }
        }
      } else {
        assert |stack| + Depth(tokens[..1]) < 1;
      }
    }
  }

  /** A well-formed expression always evaluates, and leaves exactly one entry
      on the stack. */
  lemma WellFormedEvaluates(tokens: seq<string>)
    requires WellFormed(tokens)
    ensures Run([], tokens).Ok? && |Run([], tokens).value| == 1
    ensures Eval(tokens).Ok?
  {
    RunOkIff([], tokens);
    RunHeight([], tokens);
  }

  /** Running two token lists in sequence is running their concatenation. */
  lemma {:induction false} RunAppend(stack: seq<int>, a: seq<string>, b: seq<string>)
    ensures Run(stack, a + b) == match Run(stack, a)
      case Err(e) => Err(e)
      case Ok(mid) => Run(mid, b)
    decreases a
  {
    if a != [] {
      assert (a + b)[0] == a[0] && (a + b)[1..] == a[1..] + b;
      match Step(stack, a[0])
      case Err(e) =>
        assert Run(stack, a) == Err(e);
      case Ok(next) =>
        RunAppend(next, a[1..], b);
        assert Run(stack, a) == Run(next, a[1..]);
    } else {
      assert a + b == b;
    }
  }

  // ---------------------------------------------------------------------
  // Partner: expression trees and their postfix spelling
  // ---------------------------------------------------------------------

  datatype Expr = Lit(n: nat) | Bin(op: BinOp, left: Expr, right: Expr)

  function Value(e: Expr): int
  {
    match e
    case Lit(n) => n
    case Bin(op, l, r) => Apply(op, Value(l), Value(r))
  }

  function ToPostfix(e: Expr): seq<string>
  {
    match e
    case Lit(n) => [Decimal(n)]
    case Bin(op, l, r) => ToPostfix(l) + ToPostfix(r) + [OpToken(op)]
  }

  /** The postfix spelling of an expression pushes exactly its value. */
  lemma {:induction false} PostfixPushesValue(stack: seq<int>, e: Expr)
    ensures Run(stack, ToPostfix(e)) == Ok(stack + [Value(e)])
    decreases e
  {
    match e
    case Lit(n) =>
      DecimalRoundTrip(n);
      assert ToPostfix(e)[1..] == [];
    case Bin(op, l, r) =>
      PostfixPushesValue(stack, l);
      PostfixPushesValue(stack + [Value(l)], r);
      RunAppend(stack, ToPostfix(l), ToPostfix(r));
      RunAppend(stack, ToPostfix(l) + ToPostfix(r), [OpToken(op)]);
      var s2 := stack + [Value(l)] + [Value(r)];
      assert s2[..|s2| - 2] == stack;
      assert [OpToken(op)][1..] == [];
  }

  /** Round trip: evaluating the postfix spelling of an expression gives the
      expression's value. */
  lemma EvalToPostfix(e: Expr)
    ensures Eval(ToPostfix(e)) == Ok(Value(e))
  {
    PostfixPushesValue([], e);
  }

  /** The example of postfix_evaluator.py: (5 + 3) * (8 - 2). */
  lemma ExampleFortyEight()
    ensures Eval(["5", "3", "+", "8", "2", "-", "*"]) == Ok(48)
  {
    var e := Bin(Mul, Bin(Add, Lit(5), Lit(3)), Bin(Sub, Lit(8), Lit(2)));
    EvalToPostfix(e);
    assert ToPostfix(e) == ["5", "3", "+", "8", "2", "-", "*"];
  }

  /** Entries left below the top are ignored. */
  lemma ExtraEntriesIgnored()
    ensures Eval(["1", "2"]) == Ok(2)
  {
    DecimalRoundTrip(1);
    DecimalRoundTrip(2);
    assert Decimal(1) == "1" && Decimal(2) == "2";
  }

  /** An operator with fewer than two entries, and an empty list, underflow. */
  lemma UnderflowExamples()
    ensures Eval(["+"]) == Err(StackUnderflow)
    ensures Eval(["7", "-"]) == Err(StackUnderflow)
    ensures Eval([]) == Err(StackUnderflow)
  {
  }
}
