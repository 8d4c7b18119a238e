/** The environment/closure evaluator (vm.rs). The only outside effect, the POLL hook, reads an
    explicit stream: the k-th poll returns polls(k), and every outcome carries the number of
    polls made so far. Fuel bounds the depth of the recursion and nothing else. */
module Vm {
  import opened Machine
  import Ast
  import opened Ir

  type Polls = nat -> i32

  type Env = map<string, Value>

  datatype Value =
    | IntV(n: i64)
    | FloatV(f: Ast.Float)
    | PairV(fst: Value, snd: Value)
    | LeftV(inner: Value)
    | RightV(inner: Value)
    | Closure(param: string, body: IrNode, env: Env, recName: Option<string>)

  datatype Error =
    | Unbound(name: string)
    | MathRequiresInt
    | CompareRequiresInt(op: Ast.BinOp)
    | DivByZero
    | AppOnNonClosure
    | MatchNotEither
    | UnpackNotPair

  /** Halted is the Rust panic on i64::MIN / -1, after which the core stops. */
  datatype Outcome =
    | Done(value: Value, polled: nat)
    | Fault(error: Error, polled: nat)
    | Halted(polled: nat)
    | OutOfFuel
  {
    predicate IsFailure() { !Done? }
    function PropagateFailure(): Outcome requires !Done? { this }
    function Extract(): (Value, nat) requires Done? { (value, polled) }
  }

  const POLL: string := "POLL"

  /** What a binary operation does with two integers. */
  datatype Answer = Number(n: i64) | Truth(holds: bool) | ByZero | Overflow

  function Compute(op: Ast.BinOp, a: i64, b: i64): Answer {
    match op
    case Add => Number(Wrap64(a + b))
    case Sub => Number(Wrap64(a - b))
    case Mul => Number(Wrap64(a * b))
    case Div =>
      if b == 0 then ByZero
      else if b == -1 && a == -TWO_63 then Overflow
      else QuotientInRange(a, b); Number(TruncDiv(a, b))
    case Eq => Truth(a == b)
    case Gt => Truth(a > b)
    case Lt => Truth(a < b)
    case Ge => Truth(a >= b)
    case Le => Truth(a <= b)
  }

  predicate IsArith(op: Ast.BinOp) { op.Add? || op.Sub? || op.Mul? || op.Div? }

  /** Comparisons answer Left(0) for true and Right(0) for false. */
  function Combine(op: Ast.BinOp, a: Value, b: Value, polled: nat): Outcome {
    if a.IntV? && b.IntV? then
      match Compute(op, a.n, b.n)
      case Number(n) => Done(IntV(n), polled)
      case Truth(holds) => Done(if holds then LeftV(IntV(0)) else RightV(IntV(0)), polled)
      case ByZero => Fault(DivByZero, polled)
      case Overflow => Halted(polled)
    else Fault(if IsArith(op) then MathRequiresInt else CompareRequiresInt(op), polled)
  }

  /** The environment a closure's body runs in: the parameter first, then the closure itself
      under its recursive name, which therefore wins when the two names coincide. */
  function CallEnv(f: Value, arg: Value): Env
    requires f.Closure?
  {
    var withArg := f.env[f.param := arg];
    if f.recName.Some? then withArg[f.recName.value := f] else withArg
  }

  /** LetRec tags a closure with the bound name, replacing any name it already carries. */
  function Tag(v: Value, name: string): Value {
    if v.Closure? then v.(recName := Some(name)) else v
  }

  function Evaluate(fuel: nat, env: Env, node: IrNode, polls: Polls, polled: nat): Outcome
    decreases fuel, 1
  {
    if fuel == 0 then OutOfFuel else
    match node
    case IntLiteral(n) => Done(IntV(n), polled)
    case FloatLiteral(f) => Done(FloatV(f), polled)
    case Var(x) =>
      if x == POLL then Done(IntV(polls(polled)), polled + 1)
      else if x in env then Done(env[x], polled)
      else Fault(Unbound(x), polled)
    case Bin(op, l, r) =>
      var (a, k) :- Below(fuel, env, l, polls, polled);
      var (b, k') :- Below(fuel, env, r, polls, k);
      Combine(op, a, b, k')
    case Pair(l, r) =>
      var (a, k) :- Below(fuel, env, l, polls, polled);
      var (b, k') :- Below(fuel, env, r, polls, k);
      Done(PairV(a, b), k')
    case Left(e) =>
      var (v, k) :- Below(fuel, env, e, polls, polled);
      Done(LeftV(v), k)
    case Right(e) =>
      var (v, k) :- Below(fuel, env, e, polls, polled);
      Done(RightV(v), k)
    case Lambda(x, body) => Done(Closure(x, body, env, None), polled)
    case App(func, arg) =>
      var (f, k) :- Below(fuel, env, func, polls, polled);
      var (a, k') :- Below(fuel, env, arg, polls, k);
      if f.Closure? then Below(fuel, CallEnv(f, a), f.body, polls, k')
      else Fault(AppOnNonClosure, k')
    case Match(scrutinee, x, lBody, y, rBody) =>
      var (s, k) :- Below(fuel, env, scrutinee, polls, polled);
      if s.LeftV? then Below(fuel, env[x := s.inner], lBody, polls, k)
      else if s.RightV? then Below(fuel, env[y := s.inner], rBody, polls, k)
      else Fault(MatchNotEither, k)
    case Let(x, val, body) =>
      var (v, k) :- Below(fuel, env, val, polls, polled);
      Below(fuel, env[x := v], body, polls, k)
    case LetRec(x, val, body) =>
      var (v, k) :- Below(fuel, env, val, polls, polled);
      Below(fuel, env[x := Tag(v, x)], body, polls, k)
    case Unpack(a, b, pair, body) =>
      var (p, k) :- Below(fuel, env, pair, polls, polled);
      if p.PairV? then Below(fuel, env[a := p.fst][b := p.snd], body, polls, k)
      else Fault(UnpackNotPair, k)
  }

  /** A recursive call. */
  function Below(fuel: nat, env: Env, node: IrNode, polls: Polls, polled: nat): Outcome
    requires fuel > 0
    decreases fuel, 0
  {
    Evaluate(fuel - 1, env, node, polls, polled)
  }

  // The forms that evaluate two subterms in order.

  predicate HasTwo(node: IrNode) { node.Bin? || node.Pair? || node.App? }

  function First(node: IrNode): IrNode
    requires HasTwo(node)
  {
    if node.Bin? then node.l else if node.Pair? then node.fst else node.func
  }

  function Second(node: IrNode): IrNode
    requires HasTwo(node)
  {
    if node.Bin? then node.r else if node.Pair? then node.snd else node.arg
  }

  /** What such a form does with the two values. */
  function Join(fuel: nat, node: IrNode, a: Value, b: Value, polls: Polls, polled: nat): Outcome
    requires HasTwo(node)
  {
    if node.Bin? then Combine(node.op, a, b, polled)
    else if node.Pair? then Done(PairV(a, b), polled)
    else if a.Closure? then Evaluate(fuel, CallEnv(a, b), a.body, polls, polled)
    else Fault(AppOnNonClosure, polled)
  }

  function AfterFirst(fuel: nat, env: Env, node: IrNode, a: Value, polls: Polls, polled: nat): Outcome
    requires HasTwo(node)
  {
    var o := Evaluate(fuel, env, Second(node), polls, polled);
    if !o.Done? then o else Join(fuel, node, a, o.value, polls, o.polled)
  }

  lemma EvaluateTwo(fuel: nat, env: Env, node: IrNode, polls: Polls, polled: nat)
    requires fuel > 0 && HasTwo(node)
    ensures var o1 := Evaluate(fuel - 1, env, First(node), polls, polled);
            Evaluate(fuel, env, node, polls, polled) ==
            if !o1.Done? then o1 else AfterFirst(fuel - 1, env, node, o1.value, polls, o1.polled)
  {
  }

  // The forms that evaluate one subterm and then, perhaps, a body under an extended environment.

  predicate HasHead(node: IrNode) {
    node.Left? || node.Right? || node.Match? || node.Let? || node.LetRec? || node.Unpack?
  }

  function Head(node: IrNode): IrNode
    requires HasHead(node)
  {
    match node
    case Left(e) => e
    case Right(e) => e
    case Match(s, _, _, _, _) => s
    case Let(_, v, _) => v
    case LetRec(_, v, _) => v
    case Unpack(_, _, p, _) => p
  }

  predicate Continues(node: IrNode, v: Value)
    requires HasHead(node)
  {
    node.Let? || node.LetRec? || (node.Match? && (v.LeftV? || v.RightV?)) || (node.Unpack? && v.PairV?)
  }

  function ContBody(node: IrNode, v: Value): IrNode
    requires HasHead(node) && Continues(node, v)
  {
    if node.Match? then (if v.LeftV? then node.lBody else node.rBody) else node.body
  }

  function ContEnv(node: IrNode, env: Env, v: Value): Env
    requires HasHead(node) && Continues(node, v)
  {
    match node
    case Match(_, x, _, y, _) => if v.LeftV? then env[x := v.inner] else env[y := v.inner]
    case Let(x, _, _) => env[x := v]
    case LetRec(x, _, _) => env[x := Tag(v, x)]
    case Unpack(a, b, _, _) => env[a := v.fst][b := v.snd]
  }

  /** What such a form answers when it does not go on to a body. */
  function Stop(node: IrNode, v: Value, polled: nat): Outcome
    requires HasHead(node) && !Continues(node, v)
  {
    match node
    case Left(_) => Done(LeftV(v), polled)
    case Right(_) => Done(RightV(v), polled)
    case Match(_, _, _, _, _) => Fault(MatchNotEither, polled)
    case Unpack(_, _, _, _) => Fault(UnpackNotPair, polled)
  }

  /** What such a form does with the value of its head. */
  function Rest(fuel: nat, env: Env, node: IrNode, v: Value, polls: Polls, polled: nat): Outcome
    requires HasHead(node)
  {
    if Continues(node, v) then Evaluate(fuel, ContEnv(node, env, v), ContBody(node, v), polls, polled)
    else Stop(node, v, polled)
  }

  lemma EvaluateHead(fuel: nat, env: Env, node: IrNode, polls: Polls, polled: nat)
    requires fuel > 0 && HasHead(node)
    ensures var o := Evaluate(fuel - 1, env, Head(node), polls, polled);
            Evaluate(fuel, env, node, polls, polled) ==
            if !o.Done? then o else Rest(fuel - 1, env, node, o.value, polls, o.polled)
  {
  }

  /** A run that finished finishes the same way with more fuel. */
  lemma {:induction false} MoreFuelSameOutcome(fuel: nat, more: nat, env: Env, node: IrNode, polls: Polls, polled: nat)
    requires fuel <= more
    requires !Evaluate(fuel, env, node, polls, polled).OutOfFuel?
    ensures Evaluate(more, env, node, polls, polled) == Evaluate(fuel, env, node, polls, polled)
    decreases fuel, 1
  {
    if HasTwo(node) {
      MoreFuelTwo(fuel, more, env, node, polls, polled);
    } else if HasHead(node) {
      MoreFuelHead(fuel, more, env, node, polls, polled);
    }
  }

  lemma {:induction false} MoreFuelHead(fuel: nat, more: nat, env: Env, node: IrNode, polls: Polls, polled: nat)
    requires fuel <= more && HasHead(node)
    requires !Evaluate(fuel, env, node, polls, polled).OutOfFuel?
    ensures Evaluate(more, env, node, polls, polled) == Evaluate(fuel, env, node, polls, polled)
    decreases fuel, 0
  {
    EvaluateHead(fuel, env, node, polls, polled);
    EvaluateHead(more, env, node, polls, polled);
    MoreFuelSameOutcome(fuel - 1, more - 1, env, Head(node), polls, polled);
    var o := Evaluate(fuel - 1, env, Head(node), polls, polled);
    if o.Done? && Continues(node, o.value) {
      MoreFuelSameOutcome(fuel - 1, more - 1, ContEnv(node, env, o.value), ContBody(node, o.value), polls, o.polled);
    }
  }

  lemma {:induction false} MoreFuelTwo(fuel: nat, more: nat, env: Env, node: IrNode, polls: Polls, polled: nat)
    requires fuel <= more && HasTwo(node)
    requires !Evaluate(fuel, env, node, polls, polled).OutOfFuel?
    ensures Evaluate(more, env, node, polls, polled) == Evaluate(fuel, env, node, polls, polled)
    decreases fuel, 0
  {
    EvaluateTwo(fuel, env, node, polls, polled);
    EvaluateTwo(more, env, node, polls, polled);
    MoreFuelSameOutcome(fuel - 1, more - 1, env, First(node), polls, polled);
    var o1 := Evaluate(fuel - 1, env, First(node), polls, polled);
    if o1.Done? {
      MoreFuelSameOutcome(fuel - 1, more - 1, env, Second(node), polls, o1.polled);
      var o2 := Evaluate(fuel - 1, env, Second(node), polls, o1.polled);
      if node.App? && o2.Done? && o1.value.Closure? {
        MoreFuelSameOutcome(fuel - 1, more - 1, CallEnv(o1.value, o2.value), o1.value.body, polls, o2.polled);
      }
    }
  }
}
