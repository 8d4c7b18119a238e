/** The surface syntax produced by the parser (ast.rs). The nine binary operators, which the
    source spells as nine constructors of the same shape, share the constructor Bin. */
module Ast {
  import opened Machine

  datatype Type =
    | TInt
    | TFloat
    | TAny
    | TFunc(arg: Type, res: Type)
    | TPair(fst: Type, snd: Type)
    | TEither(left: Type, right: Type)

  datatype BinOp = Add | Sub | Mul | Div | Eq | Gt | Lt | Ge | Le

  /** A float literal is opaque: it is identified with its source text. */
  datatype Float = Float(text: string)

  datatype Expr =
    | IntLiteral(n: i64)
    | FloatLiteral(f: Float)
    | Var(name: string)
    | Bin(op: BinOp, l: Expr, r: Expr)
    | Lambda(param: string, paramType: Type, body: Expr)
    | App(func: Expr, arg: Expr, tailPosition: bool)
    | Pair(fst: Expr, snd: Expr)
    | Unpack(a: string, b: string, pair: Expr, body: Expr)
    | Left(inner: Expr)
    | Right(inner: Expr)
    | Match(expr: Expr, lVar: string, lBody: Expr, rVar: string, rBody: Expr)
    | Let(bound: string, val: Expr, body: Expr)
    | LetRec(bound: string, val: Expr, body: Expr)
}

/** The erased intermediate representation (ir.rs). */
module Ir {
  import opened Machine
  import Ast

  datatype IrNode =
    | IntLiteral(n: i64)
    | FloatLiteral(f: Ast.Float)
    | Var(name: string)
    | Bin(op: Ast.BinOp, l: IrNode, r: IrNode)
    | Lambda(param: string, body: IrNode)
    | App(func: IrNode, arg: IrNode)
    | Pair(fst: IrNode, snd: IrNode)
    | Unpack(a: string, b: string, pair: IrNode, body: IrNode)
    | Left(inner: IrNode)
    | Right(inner: IrNode)
    | Match(expr: IrNode, lVar: string, lBody: IrNode, rVar: string, rBody: IrNode)
    | Let(bound: string, val: IrNode, body: IrNode)
    | LetRec(bound: string, val: IrNode, body: IrNode)

  function EraseProofs(e: Ast.Expr): IrNode {
    match e
    case IntLiteral(n) => IntLiteral(n)
    case FloatLiteral(f) => FloatLiteral(f)
    case Var(x) => Var(x)
    case Bin(op, l, r) => Bin(op, EraseProofs(l), EraseProofs(r))
    case Lambda(x, _, b) => Lambda(x, EraseProofs(b))
    case App(f, a, _) => App(EraseProofs(f), EraseProofs(a))
    case Pair(l, r) => Pair(EraseProofs(l), EraseProofs(r))
    case Unpack(a, b, p, body) => Unpack(a, b, EraseProofs(p), EraseProofs(body))
    case Left(v) => Left(EraseProofs(v))
    case Right(v) => Right(EraseProofs(v))
    case Match(s, x, lb, y, rb) => Match(EraseProofs(s), x, EraseProofs(lb), y, EraseProofs(rb))
    case Let(x, v, b) => Let(x, EraseProofs(v), EraseProofs(b))
    case LetRec(x, v, b) => LetRec(x, EraseProofs(v), EraseProofs(b))
  }

  /** The two expressions are the same tree once parameter types and tail flags are ignored. */
  predicate DifferOnlyInProofs(d: Ast.Expr, e: Ast.Expr) {
    match d
    case IntLiteral(n) => e.IntLiteral? && e.n == n
    case FloatLiteral(f) => e.FloatLiteral? && e.f == f
    case Var(x) => e.Var? && e.name == x
    case Bin(op, l, r) => e.Bin? && e.op == op && DifferOnlyInProofs(l, e.l) && DifferOnlyInProofs(r, e.r)
    case Lambda(x, _, b) => e.Lambda? && e.param == x && DifferOnlyInProofs(b, e.body)
    case App(f, a, _) => e.App? && DifferOnlyInProofs(f, e.func) && DifferOnlyInProofs(a, e.arg)
    case Pair(l, r) => e.Pair? && DifferOnlyInProofs(l, e.fst) && DifferOnlyInProofs(r, e.snd)
    case Unpack(a, b, p, t) =>
      e.Unpack? && e.a == a && e.b == b && DifferOnlyInProofs(p, e.pair) && DifferOnlyInProofs(t, e.body)
    case Left(v) => e.Left? && DifferOnlyInProofs(v, e.inner)
    case Right(v) => e.Right? && DifferOnlyInProofs(v, e.inner)
    case Match(s, x, b, y, c) =>
      && e.Match? && e.lVar == x && e.rVar == y
      && DifferOnlyInProofs(s, e.expr) && DifferOnlyInProofs(b, e.lBody) && DifferOnlyInProofs(c, e.rBody)
    case Let(x, v, b) => e.Let? && e.bound == x && DifferOnlyInProofs(v, e.val) && DifferOnlyInProofs(b, e.body)
    case LetRec(x, v, b) => e.LetRec? && e.bound == x && DifferOnlyInProofs(v, e.val) && DifferOnlyInProofs(b, e.body)
  }

  /** Erasure forgets the annotations and nothing else. */
  lemma {:induction false} ErasureForgetsOnlyProofs(d: Ast.Expr, e: Ast.Expr)
    ensures EraseProofs(d) == EraseProofs(e) <==> DifferOnlyInProofs(d, e)
    decreases d, 1
  {
    if d.Unpack? || d.Match? || d.Let? || d.LetRec? {
      BindersForget(d, e);
    } else if d.Bin? || d.Pair? || d.App? {
      TwoForget(d, e);
    } else if d.Lambda? && e.Lambda? {
      ErasureForgetsOnlyProofs(d.body, e.body);
    } else if (d.Left? && e.Left?) || (d.Right? && e.Right?) {
      ErasureForgetsOnlyProofs(d.inner, e.inner);
    }
  }

  lemma {:induction false} TwoForget(d: Ast.Expr, e: Ast.Expr)
    requires d.Bin? || d.Pair? || d.App?
    ensures EraseProofs(d) == EraseProofs(e) <==> DifferOnlyInProofs(d, e)
    decreases d, 0
  {
    if d.Bin? && e.Bin? {
      ErasureForgetsOnlyProofs(d.l, e.l);
      ErasureForgetsOnlyProofs(d.r, e.r);
    } else if d.Pair? && e.Pair? {
      ErasureForgetsOnlyProofs(d.fst, e.fst);
      ErasureForgetsOnlyProofs(d.snd, e.snd);
    } else if d.App? && e.App? {
      ErasureForgetsOnlyProofs(d.func, e.func);
      ErasureForgetsOnlyProofs(d.arg, e.arg);
    }
  }

  lemma {:induction false} BindersForget(d: Ast.Expr, e: Ast.Expr)
    requires d.Unpack? || d.Match? || d.Let? || d.LetRec?
    ensures EraseProofs(d) == EraseProofs(e) <==> DifferOnlyInProofs(d, e)
    decreases d, 0
  {
    if d.Unpack? && e.Unpack? {
      ErasureForgetsOnlyProofs(d.pair, e.pair);
      ErasureForgetsOnlyProofs(d.body, e.body);
    } else if d.Match? && e.Match? {
      ErasureForgetsOnlyProofs(d.expr, e.expr);
      ErasureForgetsOnlyProofs(d.lBody, e.lBody);
      ErasureForgetsOnlyProofs(d.rBody, e.rBody);
    } else if (d.Let? && e.Let?) || (d.LetRec? && e.LetRec?) {
      ErasureForgetsOnlyProofs(d.val, e.val);
      ErasureForgetsOnlyProofs(d.body, e.body);
    }
  }
}
