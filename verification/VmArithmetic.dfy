/** What the integer operations of the evaluator (vm.rs) compute, and what `let rec` can compute with them. */
module VmArithmetic {
  import opened Machine
  import Modulo
  import Ast
  import opened Ir
  import opened Vm

  lemma Quotient(x: nat, y: nat)
    requires y > 0
    ensures x == y * (x / y) + x % y && 0 <= x % y < y
  {
  }

  lemma SignedRemainder(a: int, b: int, p: int, r: int)
    requires b != 0 && Abs(a) == Abs(b) * p + r && 0 <= r < Abs(b)
    ensures a - b * (if (a < 0) == (b < 0) then p else -p) == if a < 0 then -r else r
  {
    var m := b * p;
    assert b * (-p) == -m;
    assert Abs(b) * p == if b < 0 then -m else m;
  }

  lemma TruncRemainder(a: int, b: int)
    requires b != 0
    ensures a - b * TruncDiv(a, b) == if a < 0 then -(Abs(a) % Abs(b)) else Abs(a) % Abs(b)
  {
    Quotient(Abs(a), Abs(b));
    SignedRemainder(a, b, Abs(a) / Abs(b), Abs(a) % Abs(b));
  }

  lemma ZeroMod(y: nat)
    requires y > 0
    ensures 0 % y == 0
  {
  }

  /** What division leaves is smaller than the divisor and has the sign of the dividend. */
  lemma RemainderSmall(a: int, b: int, rem: int)
    requires b != 0 && rem == if a < 0 then -(Abs(a) % Abs(b)) else Abs(a) % Abs(b)
    ensures Abs(rem) < Abs(b) && (a >= 0 ==> rem >= 0) && (a <= 0 ==> rem <= 0)
  {
    Quotient(Abs(a), Abs(b));
    if a == 0 { ZeroMod(Abs(b)); }
  }

  lemma DivComputes(a: i64, b: i64)
    requires b != 0 && !(a == -TWO_63 && b == -1)
    ensures Compute(Ast.Div, a, b) == Number(TruncDiv(a, b))
  {
    QuotientInRange(a, b);
  }

  /** Division truncates toward zero. */
  lemma DivisionTruncates(a: i64, b: i64, q: i64)
    requires Compute(Ast.Div, a, b) == Number(q)
    ensures b != 0 && Abs(a - b * q) < Abs(b) && (a >= 0 ==> a - b * q >= 0) && (a <= 0 ==> a - b * q <= 0)
  {
    DivComputes(a, b);
    TruncRemainder(a, b);
    RemainderSmall(a, b, a - b * q);
  }

  /** Subtraction undoes addition, wrap-around included. */
  lemma SubtractionUndoes(a: i64, b: i64)
    ensures Compute(Ast.Add, a, b).Number?
    ensures Compute(Ast.Sub, Compute(Ast.Add, a, b).n, b) == Number(a)
    ensures -TWO_63 <= a + b < TWO_63 ==> Compute(Ast.Add, a, b) == Number(a + b)
  {
  }

  // ---- Unbounded recursion through a recursive name ----

  /** match eq x 0 { Left ( _ ) => 0 , Right ( _ ) => add x ( f sub x 1 ) } */
  function SumBody(): IrNode {
    Match(Bin(Ast.Eq, Var("x"), IntLiteral(0)),
          "_", IntLiteral(0),
          "_", Bin(Ast.Add, Var("x"), App(Var("f"), Bin(Ast.Sub, Var("x"), IntLiteral(1)))))
  }

  function Triangle(n: nat): nat { if n == 0 then 0 else n + Triangle(n - 1) }

  lemma WrapAdds(a: int, b: int)
    ensures Wrap64(a + Wrap64(b)) == Wrap64(a + b)
  {
    var q := (b + TWO_63) / 0x1_0000_0000_0000_0000;
    assert Wrap64(b) == b - 0x1_0000_0000_0000_0000 * q;
    Modulo.AddMultiple(a + Wrap64(b) + TWO_63, TWO_64, q);
  }

  function Sum(env: Env): Value { Closure("x", SumBody(), env, Some("f")) }

  lemma Compares(fuel: nat, env: Env, n: i64, polls: Polls, polled: nat)
    requires fuel >= 2 && "x" in env && env["x"] == IntV(n)
    ensures Evaluate(fuel, env, Bin(Ast.Eq, Var("x"), IntLiteral(0)), polls, polled)
         == Done(if n == 0 then LeftV(IntV(0)) else RightV(IntV(0)), polled)
    ensures n > 0 ==> Evaluate(fuel, env, Bin(Ast.Sub, Var("x"), IntLiteral(1)), polls, polled) == Done(IntV(n - 1), polled)
  {
    assert Evaluate(fuel - 1, env, Var("x"), polls, polled) == Done(IntV(n), polled);
    assert Evaluate(fuel - 1, env, IntLiteral(0), polls, polled) == Done(IntV(0), polled);
    assert Evaluate(fuel - 1, env, IntLiteral(1), polls, polled) == Done(IntV(1), polled);
  }

  lemma Recurses(fuel: nat, env: Env, f: Value, n: i64, polls: Polls, polled: nat, rest: Outcome)
    requires fuel >= 4 && n > 0 && f.Closure? && "x" in env && env["x"] == IntV(n) && "f" in env && env["f"] == f
    requires Evaluate(fuel - 2, CallEnv(f, IntV(n - 1)), f.body, polls, polled) == rest
    ensures Evaluate(fuel - 1, env, App(Var("f"), Bin(Ast.Sub, Var("x"), IntLiteral(1))), polls, polled) == rest
  {
    Compares(fuel - 2, env, n, polls, polled);
    assert Evaluate(fuel - 2, env, Var("f"), polls, polled) == Done(f, polled);
  }

  /** One call with a positive argument, given what the inner call answers. */
  lemma Unrolls(fuel: nat, env: Env, f: Value, n: i64, total: i64, polls: Polls, polled: nat)
    requires fuel >= 6 && n > 0 && f.Closure? && "x" in env && env["x"] == IntV(n) && "f" in env && env["f"] == f
    requires Evaluate(fuel - 3, CallEnv(f, IntV(n - 1)), f.body, polls, polled) == Done(IntV(total), polled)
    ensures Evaluate(fuel, env, SumBody(), polls, polled) == Done(IntV(Wrap64(n + total)), polled)
  {
    Compares(fuel - 1, env, n, polls, polled);
    var inner := env["_" := IntV(0)];
    Recurses(fuel - 1, inner, f, n, polls, polled, Done(IntV(total), polled));
    assert Evaluate(fuel - 2, inner, Var("x"), polls, polled) == Done(IntV(n), polled);
    EvaluateHead(fuel, env, SumBody(), polls, polled);
    assert Continues(SumBody(), RightV(IntV(0)));
    EvaluateTwo(fuel - 1, inner, SumBody().rBody, polls, polled);
  }

  lemma Bottom(fuel: nat, env: Env, polls: Polls, polled: nat)
    requires fuel >= 3 && "x" in env && env["x"] == IntV(0)
    ensures Evaluate(fuel, env, SumBody(), polls, polled) == Done(IntV(0), polled)
  {
    Compares(fuel - 1, env, 0, polls, polled);
    EvaluateHead(fuel, env, SumBody(), polls, polled);
  }

  /** The recursive name reaches the closure at every depth: however large n is, calling the closure
      sums 1 to n, modulo 2^64. */
  lemma {:induction false} RecursionSums(captured: Env, n: i64, polls: Polls, polled: nat)
    requires n >= 0
    ensures Evaluate(3 * n + 3, CallEnv(Sum(captured), IntV(n)), SumBody(), polls, polled)
         == Done(IntV(Wrap64(Triangle(n))), polled)
    decreases n
  {
    var f := Sum(captured);
    var env := CallEnv(f, IntV(n));
    if n == 0 {
      Bottom(3, env, polls, polled);
    } else {
      RecursionSums(captured, n - 1, polls, polled);
      Unrolls(3 * n + 3, env, f, n, Wrap64(Triangle(n - 1)), polls, polled);
      WrapAdds(n, Triangle(n - 1));
    }
  }

  /** let rec f = \x. ... in f n, from any environment. */
  lemma RecursiveProgramSums(env: Env, n: i64, polls: Polls, polled: nat)
    requires n >= 0
    ensures Evaluate(3 * n + 5, env, LetRec("f", Lambda("x", SumBody()), App(Var("f"), IntLiteral(n))), polls, polled)
         == Done(IntV(Wrap64(Triangle(n))), polled)
  {
    var fuel := 3 * n + 5;
    var f, call := Sum(env), App(Var("f"), IntLiteral(n));
    RecursionSums(env, n, polls, polled);
    assert Evaluate(fuel - 1, env, Lambda("x", SumBody()), polls, polled)
        == Done(Closure("x", SumBody(), env, None), polled);
    assert Evaluate(fuel - 2, env["f" := f], Var("f"), polls, polled) == Done(f, polled);
    assert Evaluate(fuel - 2, env["f" := f], IntLiteral(n), polls, polled) == Done(IntV(n), polled);
    EvaluateHead(fuel, env, LetRec("f", Lambda("x", SumBody()), call), polls, polled);
    assert Continues(LetRec("f", Lambda("x", SumBody()), call), Closure("x", SumBody(), env, None));
    EvaluateTwo(fuel - 1, env["f" := f], call, polls, polled);
  }
}
