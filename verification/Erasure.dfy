/** A big-step meaning for the surface syntax itself, annotations ignored, and the proof that
    running the erased program (ir.rs, then vm.rs) computes exactly that meaning. */
module Erasure {
  import opened Machine
  import Ast
  import Ir
  import Vm

  type Env = map<string, Value>

  /** Runtime values of the surface language: a closure keeps its annotated body. */
  datatype Value =
    | IntS(n: i64)
    | FloatS(f: Ast.Float)
    | PairS(fst: Value, snd: Value)
    | LeftS(inner: Value)
    | RightS(inner: Value)
    | FunS(param: string, body: Ast.Expr, env: Env, recName: Option<string>)

  datatype Outcome =
    | Done(value: Value, polled: nat)
    | Fault(error: Vm.Error, polled: nat)
    | Halted(polled: nat)
    | OutOfFuel
  {
    predicate IsFailure() { !Done? }
    function PropagateFailure(): Outcome requires !Done? { this }
    function Extract(): (Value, nat) requires Done? { (value, polled) }
  }

  function Combine(op: Ast.BinOp, a: Value, b: Value, polled: nat): Outcome {
    if !(a.IntS? && b.IntS?) then
      Fault(if Vm.IsArith(op) then Vm.MathRequiresInt else Vm.CompareRequiresInt(op), polled)
    else
      match Vm.Compute(op, a.n, b.n)
      case Number(n) => Done(IntS(n), polled)
      case Truth(true) => Done(LeftS(IntS(0)), polled)
      case Truth(false) => Done(RightS(IntS(0)), polled)
      case ByZero => Fault(Vm.DivByZero, polled)
      case Overflow => Halted(polled)
  }

  function Means(fuel: nat, env: Env, e: Ast.Expr, polls: Vm.Polls, polled: nat): Outcome
    decreases fuel, 1
  {
    if fuel == 0 then OutOfFuel else
    match e
    case IntLiteral(n) => Done(IntS(n), polled)
    case FloatLiteral(f) => Done(FloatS(f), polled)
    case Var(x) =>
      if x == Vm.POLL then Done(IntS(polls(polled)), polled + 1)
      else if x in env then Done(env[x], polled)
      else Fault(Vm.Unbound(x), polled)
    case Bin(op, l, r) =>
      var (a, k) :- MeansBelow(fuel, env, l, polls, polled);
      var (b, k') :- MeansBelow(fuel, env, r, polls, k);
      Combine(op, a, b, k')
    case Lambda(x, _, body) => Done(FunS(x, body, env, None), polled)
    case App(func, arg, _) =>
      var (f, k) :- MeansBelow(fuel, env, func, polls, polled);
      var (a, k') :- MeansBelow(fuel, env, arg, polls, k);
      if !f.FunS? then Fault(Vm.AppOnNonClosure, k')
      else if f.recName.Some? then
        MeansBelow(fuel, f.env[f.param := a][f.recName.value := f], f.body, polls, k')
      else MeansBelow(fuel, f.env[f.param := a], f.body, polls, k')
    case Pair(l, r) =>
      var (a, k) :- MeansBelow(fuel, env, l, polls, polled);
      var (b, k') :- MeansBelow(fuel, env, r, polls, k);
      Done(PairS(a, b), k')
    case Unpack(a, b, pair, body) =>
      var (p, k) :- MeansBelow(fuel, env, pair, polls, polled);
      if !p.PairS? then Fault(Vm.UnpackNotPair, k)
      else MeansBelow(fuel, env[a := p.fst][b := p.snd], body, polls, k)
    case Left(inner) =>
      var (v, k) :- MeansBelow(fuel, env, inner, polls, polled);
      Done(LeftS(v), k)
    case Right(inner) =>
      var (v, k) :- MeansBelow(fuel, env, inner, polls, polled);
      Done(RightS(v), k)
    case Match(scrutinee, x, lBody, y, rBody) =>
      var (s, k) :- MeansBelow(fuel, env, scrutinee, polls, polled);
      if s.LeftS? then MeansBelow(fuel, env[x := s.inner], lBody, polls, k)
      else if s.RightS? then MeansBelow(fuel, env[y := s.inner], rBody, polls, k)
      else Fault(Vm.MatchNotEither, k)
    case Let(x, val, body) =>
      var (v, k) :- MeansBelow(fuel, env, val, polls, polled);
      MeansBelow(fuel, env[x := v], body, polls, k)
    case LetRec(x, val, body) =>
      var (v, k) :- MeansBelow(fuel, env, val, polls, polled);
      var f := if v.FunS? then v.(recName := Some(x)) else v;
      MeansBelow(fuel, env[x := f], body, polls, k)
  }

  /** A recursive call. */
  function MeansBelow(fuel: nat, env: Env, e: Ast.Expr, polls: Vm.Polls, polled: nat): Outcome
    requires fuel > 0
    decreases fuel, 0
  {
    Means(fuel - 1, env, e, polls, polled)
  }

  // ---- Erasure of values, environments and outcomes ----

  function EraseValue(v: Value): Vm.Value
    decreases v
  {
    match v
    case IntS(n) => Vm.IntV(n)
    case FloatS(f) => Vm.FloatV(f)
    case PairS(a, b) => Vm.PairV(EraseValue(a), EraseValue(b))
    case LeftS(a) => Vm.LeftV(EraseValue(a))
    case RightS(a) => Vm.RightV(EraseValue(a))
    case FunS(x, body, env, rec) =>
      Vm.Closure(x, Ir.EraseProofs(body), map y | y in env :: EraseValue(env[y]), rec)
  }

  function EraseEnv(env: Env): Vm.Env {
    map y | y in env :: EraseValue(env[y])
  }

  function EraseOutcome(o: Outcome): Vm.Outcome {
    match o
    case Done(v, k) => Vm.Done(EraseValue(v), k)
    case Fault(e, k) => Vm.Fault(e, k)
    case Halted(k) => Vm.Halted(k)
    case OutOfFuel => Vm.OutOfFuel
  }

  lemma EraseBinding(env: Env, x: string, v: Value)
    ensures EraseEnv(env[x := v]) == EraseEnv(env)[x := EraseValue(v)]
  {
  }

  lemma EraseClosure(x: string, body: Ast.Expr, env: Env, rec: Option<string>)
    ensures EraseValue(FunS(x, body, env, rec)) == Vm.Closure(x, Ir.EraseProofs(body), EraseEnv(env), rec)
  {
  }

  function CallEnv(f: Value, a: Value): Env
    requires f.FunS?
  {
    if f.recName.Some? then f.env[f.param := a][f.recName.value := f] else f.env[f.param := a]
  }

  lemma EraseCallEnv(f: Value, a: Value)
    requires f.FunS?
    ensures EraseEnv(CallEnv(f, a)) == Vm.CallEnv(EraseValue(f), EraseValue(a))
  {
    EraseClosure(f.param, f.body, f.env, f.recName);
    EraseBinding(f.env, f.param, a);
    if f.recName.Some? { EraseBinding(f.env[f.param := a], f.recName.value, f); }
  }

  // ---- The theorem ----

  predicate HasHead(e: Ast.Expr) {
    e.Left? || e.Right? || e.Match? || e.Let? || e.LetRec? || e.Unpack?
  }

  function Head(e: Ast.Expr): Ast.Expr
    requires HasHead(e)
  {
    match e
    case Left(v) => v
    case Right(v) => v
    case Match(s, _, _, _, _) => s
    case Let(_, v, _) => v
    case LetRec(_, v, _) => v
    case Unpack(_, _, p, _) => p
  }

  predicate Continues(e: Ast.Expr, v: Value)
    requires HasHead(e)
  {
    e.Let? || e.LetRec? || (e.Match? && (v.LeftS? || v.RightS?)) || (e.Unpack? && v.PairS?)
  }

  function ContBody(e: Ast.Expr, v: Value): Ast.Expr
    requires HasHead(e) && Continues(e, v)
  {
    if e.Match? then (if v.LeftS? then e.lBody else e.rBody) else e.body
  }

  function ContEnv(e: Ast.Expr, env: Env, v: Value): Env
    requires HasHead(e) && Continues(e, v)
  {
    match e
    case Match(_, x, _, y, _) => if v.LeftS? then env[x := v.inner] else env[y := v.inner]
    case Let(x, _, _) => env[x := v]
    case LetRec(x, _, _) => env[x := if v.FunS? then v.(recName := Some(x)) else v]
    case Unpack(a, b, _, _) => env[a := v.fst][b := v.snd]
  }

  lemma EraseContinuation(e: Ast.Expr, env: Env, v: Value)
    requires HasHead(e) && Continues(e, v)
    ensures Vm.HasHead(Ir.EraseProofs(e)) && Vm.Continues(Ir.EraseProofs(e), EraseValue(v))
    ensures Vm.ContBody(Ir.EraseProofs(e), EraseValue(v)) == Ir.EraseProofs(ContBody(e, v))
    ensures Vm.ContEnv(Ir.EraseProofs(e), EraseEnv(env), EraseValue(v)) == EraseEnv(ContEnv(e, env, v))
  {
    match e {
      case Match(_, x, _, y, _) => EraseBinding(env, if v.LeftS? then x else y, v.inner);
      case Let(x, _, _) => EraseBinding(env, x, v);
      case LetRec(x, _, _) =>
        if v.FunS? {
          EraseClosure(v.param, v.body, v.env, v.recName);
          EraseClosure(v.param, v.body, v.env, Some(x));
        }
        EraseBinding(env, x, if v.FunS? then v.(recName := Some(x)) else v);
      case Unpack(a, b, _, _) =>
        EraseBinding(env, a, v.fst);
        EraseBinding(env[a := v.fst], b, v.snd);
    }
  }

  // The forms that evaluate two subterms in order.

  predicate HasTwo(e: Ast.Expr) { e.Bin? || e.Pair? || e.App? }

  function First(e: Ast.Expr): Ast.Expr
    requires HasTwo(e)
  {
    if e.Bin? then e.l else if e.Pair? then e.fst else e.func
  }

  function Second(e: Ast.Expr): Ast.Expr
    requires HasTwo(e)
  {
    if e.Bin? then e.r else if e.Pair? then e.snd else e.arg
  }

  function Join(fuel: nat, e: Ast.Expr, a: Value, b: Value, polls: Vm.Polls, polled: nat): Outcome
    requires HasTwo(e)
  {
    if e.Bin? then Combine(e.op, a, b, polled)
    else if e.Pair? then Done(PairS(a, b), polled)
    else if a.FunS? then Means(fuel, CallEnv(a, b), a.body, polls, polled)
    else Fault(Vm.AppOnNonClosure, polled)
  }

  function AfterFirst(fuel: nat, env: Env, e: Ast.Expr, a: Value, polls: Vm.Polls, polled: nat): Outcome
    requires HasTwo(e)
  {
    var o := Means(fuel, env, Second(e), polls, polled);
    if !o.Done? then o else Join(fuel, e, a, o.value, polls, o.polled)
  }

  lemma MeansTwo(fuel: nat, env: Env, e: Ast.Expr, polls: Vm.Polls, polled: nat)
    requires fuel > 0 && HasTwo(e)
    ensures var o1 := Means(fuel - 1, env, First(e), polls, polled);
            Means(fuel, env, e, polls, polled) ==
            if !o1.Done? then o1 else AfterFirst(fuel - 1, env, e, o1.value, polls, o1.polled)
  {
  }

  lemma EraseTwo(e: Ast.Expr)
    requires HasTwo(e)
    ensures var node := Ir.EraseProofs(e);
            && Vm.HasTwo(node)
            && Vm.First(node) == Ir.EraseProofs(First(e)) && Vm.Second(node) == Ir.EraseProofs(Second(e))
  {
  }

  lemma EraseCombine(op: Ast.BinOp, a: Value, b: Value, polled: nat)
    ensures EraseOutcome(Combine(op, a, b, polled)) == Vm.Combine(op, EraseValue(a), EraseValue(b), polled)
  {
  }

  /** For every fuel, environment and POLL stream, the erased program does what the source means,
      faults, halts and polls included. */
  lemma {:induction false} ErasurePreservesMeaning(fuel: nat, env: Env, e: Ast.Expr, polls: Vm.Polls, polled: nat)
    ensures Vm.Evaluate(fuel, EraseEnv(env), Ir.EraseProofs(e), polls, polled)
         == EraseOutcome(Means(fuel, env, e, polls, polled))
    decreases fuel, 1
  {
    if fuel == 0 || e.IntLiteral? || e.FloatLiteral? || e.Var? {
    } else if e.Lambda? {
      EraseClosure(e.param, e.body, env, None);
    } else if HasTwo(e) {
      PreservedTwo(fuel, env, e, polls, polled);
    } else {
      PreservedHead(fuel, env, e, polls, polled);
    }
  }

  lemma {:induction false} PreservedCall(fuel: nat, f: Value, a: Value, polls: Vm.Polls, polled: nat)
    requires f.FunS?
    ensures var g := EraseValue(f);
            && g.Closure? && g.body == Ir.EraseProofs(f.body)
            && Vm.Evaluate(fuel, Vm.CallEnv(g, EraseValue(a)), g.body, polls, polled)
            == EraseOutcome(Means(fuel, CallEnv(f, a), f.body, polls, polled))
    decreases fuel, 2
  {
    EraseClosure(f.param, f.body, f.env, f.recName);
    EraseCallEnv(f, a);
    ErasurePreservesMeaning(fuel, CallEnv(f, a), f.body, polls, polled);
  }

  lemma {:induction false} PreservedJoin(fuel: nat, e: Ast.Expr, a: Value, b: Value, polls: Vm.Polls, polled: nat)
    requires HasTwo(e)
    ensures Vm.HasTwo(Ir.EraseProofs(e))
    ensures Vm.Join(fuel, Ir.EraseProofs(e), EraseValue(a), EraseValue(b), polls, polled)
         == EraseOutcome(Join(fuel, e, a, b, polls, polled))
    decreases fuel, 3
  {
    if e.Bin? { EraseCombine(e.op, a, b, polled); }
    if e.App? && a.FunS? { PreservedCall(fuel, a, b, polls, polled); }
  }

  lemma {:induction false} PreservedSecond(fuel: nat, env: Env, e: Ast.Expr, a: Value, polls: Vm.Polls, polled: nat)
    requires HasTwo(e)
    ensures Vm.HasTwo(Ir.EraseProofs(e))
    ensures Vm.AfterFirst(fuel, EraseEnv(env), Ir.EraseProofs(e), EraseValue(a), polls, polled)
         == EraseOutcome(AfterFirst(fuel, env, e, a, polls, polled))
    decreases fuel, 4
  {
    EraseTwo(e);
    ErasurePreservesMeaning(fuel, env, Second(e), polls, polled);
    var o := Means(fuel, env, Second(e), polls, polled);
    if o.Done? { PreservedJoin(fuel, e, a, o.value, polls, o.polled); }
  }

  lemma {:induction false} PreservedTwo(fuel: nat, env: Env, e: Ast.Expr, polls: Vm.Polls, polled: nat)
    requires fuel > 0 && HasTwo(e)
    ensures Vm.Evaluate(fuel, EraseEnv(env), Ir.EraseProofs(e), polls, polled)
         == EraseOutcome(Means(fuel, env, e, polls, polled))
    decreases fuel, 0
  {
    EraseTwo(e);
    Vm.EvaluateTwo(fuel, EraseEnv(env), Ir.EraseProofs(e), polls, polled);
    MeansTwo(fuel, env, e, polls, polled);
    ErasurePreservesMeaning(fuel - 1, env, First(e), polls, polled);
    var o1 := Means(fuel - 1, env, First(e), polls, polled);
    if o1.Done? { PreservedSecond(fuel - 1, env, e, o1.value, polls, o1.polled); }
  }

  function Stop(e: Ast.Expr, v: Value, polled: nat): Outcome
    requires HasHead(e) && !Continues(e, v)
  {
    match e
    case Left(_) => Done(LeftS(v), polled)
    case Right(_) => Done(RightS(v), polled)
    case Match(_, _, _, _, _) => Fault(Vm.MatchNotEither, polled)
    case Unpack(_, _, _, _) => Fault(Vm.UnpackNotPair, polled)
  }

  function Rest(fuel: nat, env: Env, e: Ast.Expr, v: Value, polls: Vm.Polls, polled: nat): Outcome
    requires HasHead(e)
  {
    if Continues(e, v) then Means(fuel, ContEnv(e, env, v), ContBody(e, v), polls, polled) else Stop(e, v, polled)
  }

  lemma MeansHead(fuel: nat, env: Env, e: Ast.Expr, polls: Vm.Polls, polled: nat)
    requires fuel > 0 && HasHead(e)
    ensures var o := Means(fuel - 1, env, Head(e), polls, polled);
            Means(fuel, env, e, polls, polled) ==
            if !o.Done? then o else Rest(fuel - 1, env, e, o.value, polls, o.polled)
  {
  }

  lemma EraseStop(e: Ast.Expr, v: Value, polled: nat)
    requires HasHead(e) && !Continues(e, v)
    ensures Vm.HasHead(Ir.EraseProofs(e)) && !Vm.Continues(Ir.EraseProofs(e), EraseValue(v))
    ensures Vm.Stop(Ir.EraseProofs(e), EraseValue(v), polled) == EraseOutcome(Stop(e, v, polled))
  {
  }

  lemma EraseHead(e: Ast.Expr)
    requires HasHead(e)
    ensures Vm.HasHead(Ir.EraseProofs(e)) && Vm.Head(Ir.EraseProofs(e)) == Ir.EraseProofs(Head(e))
  {
  }

  lemma {:induction false} PreservedRest(fuel: nat, env: Env, e: Ast.Expr, v: Value, polls: Vm.Polls, polled: nat)
    requires HasHead(e)
    ensures Vm.HasHead(Ir.EraseProofs(e))
    ensures Vm.Rest(fuel, EraseEnv(env), Ir.EraseProofs(e), EraseValue(v), polls, polled)
         == EraseOutcome(Rest(fuel, env, e, v, polls, polled))
    decreases fuel, 2
  {
    if Continues(e, v) {
      EraseContinuation(e, env, v);
      ErasurePreservesMeaning(fuel, ContEnv(e, env, v), ContBody(e, v), polls, polled);
    } else {
      EraseStop(e, v, polled);
    }
  }

  lemma {:induction false} PreservedHead(fuel: nat, env: Env, e: Ast.Expr, polls: Vm.Polls, polled: nat)
    requires fuel > 0 && HasHead(e)
    ensures Vm.Evaluate(fuel, EraseEnv(env), Ir.EraseProofs(e), polls, polled)
         == EraseOutcome(Means(fuel, env, e, polls, polled))
    decreases fuel, 0
  {
    EraseHead(e);
    ErasurePreservesMeaning(fuel - 1, env, Head(e), polls, polled);
    MeansHead(fuel, env, e, polls, polled);
    Vm.EvaluateHead(fuel, EraseEnv(env), Ir.EraseProofs(e), polls, polled);
    var o := Means(fuel - 1, env, Head(e), polls, polled);
    if o.Done? { PreservedRest(fuel - 1, env, e, o.value, polls, o.polled); }
  }

  /** Annotations are invisible at run time. */
  lemma AnnotationsInvisible(fuel: nat, d: Ast.Expr, e: Ast.Expr, env: Env, polls: Vm.Polls, polled: nat)
    requires Ir.DifferOnlyInProofs(d, e)
    ensures EraseOutcome(Means(fuel, env, d, polls, polled)) == EraseOutcome(Means(fuel, env, e, polls, polled))
  {
    Ir.ErasureForgetsOnlyProofs(d, e);
    ErasurePreservesMeaning(fuel, env, d, polls, polled);
    ErasurePreservesMeaning(fuel, env, e, polls, polled);
  }
}
