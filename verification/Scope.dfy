/** Free variables and scope safety of the evaluator.

    `let rec` evaluates its right-hand side before the name is bound and then overwrites whatever
    recursive name the resulting closure carried. Two disciplines are therefore kept apart:

      strict = true    every `let rec` right-hand side is a lambda; the name counts as bound in it
      strict = false   any program; the name counts as free in the right-hand side, and the
                       recursive name of a closure is not relied upon

    Every theorem below holds in both. BoundRecNameIsNotEnough shows that the usual notion of a
    free variable (the strict one) is not enough without the lambda restriction. */
module Scope {
  import opened Machine
  import Ast
  import opened Ir
  import opened Vm

  /** Every `let rec` right-hand side is a lambda. */
  predicate RecOnlyLambdas(node: IrNode) {
    match node
    case IntLiteral(_) => true
    case FloatLiteral(_) => true
    case Var(_) => true
    case Bin(_, l, r) => RecOnlyLambdas(l) && RecOnlyLambdas(r)
    case Lambda(_, b) => RecOnlyLambdas(b)
    case App(f, a) => RecOnlyLambdas(f) && RecOnlyLambdas(a)
    case Pair(l, r) => RecOnlyLambdas(l) && RecOnlyLambdas(r)
    case Unpack(_, _, p, b) => RecOnlyLambdas(p) && RecOnlyLambdas(b)
    case Left(v) => RecOnlyLambdas(v)
    case Right(v) => RecOnlyLambdas(v)
    case Match(s, _, l, _, r) => RecOnlyLambdas(s) && RecOnlyLambdas(l) && RecOnlyLambdas(r)
    case Let(_, v, b) => RecOnlyLambdas(v) && RecOnlyLambdas(b)
    case LetRec(_, v, b) => v.Lambda? && RecOnlyLambdas(v) && RecOnlyLambdas(b)
  }

  /** The free variables of a term; POLL is never one, since the hook shadows every binding. */
  function FreeVars(strict: bool, node: IrNode): set<string> {
    match node
    case IntLiteral(_) => {}
    case FloatLiteral(_) => {}
    case Var(x) => if x == POLL then {} else {x}
    case Bin(_, l, r) => FreeVars(strict, l) + FreeVars(strict, r)
    case Lambda(x, b) => FreeVars(strict, b) - {x}
    case App(f, a) => FreeVars(strict, f) + FreeVars(strict, a)
    case Pair(l, r) => FreeVars(strict, l) + FreeVars(strict, r)
    case Unpack(a, b, p, body) => FreeVars(strict, p) + (FreeVars(strict, body) - {a, b})
    case Left(v) => FreeVars(strict, v)
    case Right(v) => FreeVars(strict, v)
    case Match(s, x, l, y, r) =>
      FreeVars(strict, s) + (FreeVars(strict, l) - {x}) + (FreeVars(strict, r) - {y})
    case Let(x, v, b) => FreeVars(strict, v) + (FreeVars(strict, b) - {x})
    case LetRec(x, v, b) =>
      (if strict then FreeVars(strict, v) - {x} else FreeVars(strict, v)) + (FreeVars(strict, b) - {x})
  }

  /** The names a closure's body takes from its captured environment. */
  function Captured(strict: bool, param: string, body: IrNode, recName: Option<string>): set<string> {
    FreeVars(strict, body) - {param} - (if strict && recName.Some? then {recName.value} else {})
  }

  predicate Admissible(strict: bool, node: IrNode) { strict ==> RecOnlyLambdas(node) }

  // ---- Evaluation depends only on the free variables ----

  /** Equal data, and closures that differ at most in captured bindings their body cannot see. */
  ghost predicate Related(strict: bool, v: Value, w: Value)
    decreases v
  {
    match v
    case IntV(n) => w == v
    case FloatV(f) => w == v
    case PairV(a, b) => w.PairV? && Related(strict, a, w.fst) && Related(strict, b, w.snd)
    case LeftV(a) => w.LeftV? && Related(strict, a, w.inner)
    case RightV(a) => w.RightV? && Related(strict, a, w.inner)
    case Closure(x, body, env, rec) =>
      && w.Closure? && w.param == x && w.body == body && w.recName == rec
      && Admissible(strict, body)
      && forall y :: y in Captured(strict, x, body, rec) ==>
           (y in env <==> y in w.env) && (y in env ==> Related(strict, env[y], w.env[y]))
  }

  ghost predicate Agree(strict: bool, names: set<string>, e1: Env, e2: Env) {
    forall y :: y in names ==> (y in e1 <==> y in e2) && (y in e1 ==> Related(strict, e1[y], e2[y]))
  }

  /** Same verdict, same error, same number of polls, related values. */
  ghost predicate SameOutcome(strict: bool, o1: Outcome, o2: Outcome) {
    match o1
    case Done(v, k) => o2.Done? && o2.polled == k && Related(strict, v, o2.value)
    case _ => o2 == o1
  }

  lemma CallEnvsAgree(strict: bool, f: Value, g: Value, a: Value, b: Value)
    requires f.Closure? && Related(strict, f, g) && Related(strict, a, b)
    ensures Agree(strict, FreeVars(strict, f.body), CallEnv(f, a), CallEnv(g, b))
  {
    forall y | y in FreeVars(strict, f.body)
      ensures (y in CallEnv(f, a) <==> y in CallEnv(g, b))
      ensures y in CallEnv(f, a) ==> Related(strict, CallEnv(f, a)[y], CallEnv(g, b)[y])
    {
      if y != f.param && f.recName != Some(y) {
        assert y in Captured(strict, f.param, f.body, f.recName);
      }
    }
  }

  /** Tagging keeps closures related: under the strict discipline the right-hand side was a
      lambda, whose fresh closure carried no name yet. */
  lemma TagsRelated(strict: bool, v: Value, w: Value, x: string)
    requires !strict && Related(strict, v, w)
    ensures Related(strict, Tag(v, x), Tag(w, x))
  {
    if v.Closure? {
      assert Captured(strict, v.param, v.body, v.recName) == Captured(strict, v.param, v.body, Some(x));
    }
  }

  lemma SubtermsInside(strict: bool, node: IrNode, v: Value)
    requires Admissible(strict, node) && HasHead(node) && !(strict && node.LetRec?)
    ensures FreeVars(strict, Head(node)) <= FreeVars(strict, node) && Admissible(strict, Head(node))
    ensures Continues(node, v) ==> Admissible(strict, ContBody(node, v))
  {
  }

  lemma ContinuesAlike(strict: bool, node: IrNode, v: Value, w: Value)
    requires HasHead(node) && Continues(node, v) && Related(strict, v, w)
    ensures Continues(node, w) && ContBody(node, w) == ContBody(node, v)
  {
  }

  lemma ContEnvsAgree(strict: bool, node: IrNode, e1: Env, e2: Env, v: Value, w: Value)
    requires HasHead(node) && Continues(node, v) && Related(strict, v, w) && !(strict && node.LetRec?)
    requires Agree(strict, FreeVars(strict, node), e1, e2)
    ensures Continues(node, w) && ContBody(node, w) == ContBody(node, v)
    ensures Agree(strict, FreeVars(strict, ContBody(node, v)), ContEnv(node, e1, v), ContEnv(node, e2, w))
  {
    ContinuesAlike(strict, node, v, w);
    if node.LetRec? { TagsRelated(strict, v, w, node.bound); }
  }

  /** Two environments that agree on the free variables of a term give the same outcome: for
      every fuel and every POLL stream. */
  lemma {:induction false} DependsOnlyOnFreeVars(
      strict: bool, fuel: nat, e1: Env, e2: Env, node: IrNode, polls: Polls, polled: nat)
    requires Admissible(strict, node)
    requires Agree(strict, FreeVars(strict, node), e1, e2)
    ensures SameOutcome(strict, Evaluate(fuel, e1, node, polls, polled), Evaluate(fuel, e2, node, polls, polled))
    decreases fuel, 1
  {
    if fuel == 0 || node.IntLiteral? || node.FloatLiteral? || node.Var? {
    } else if node.Lambda? {
    } else if HasTwo(node) {
      DependsTwo(strict, fuel, e1, e2, node, polls, polled);
    } else if strict && node.LetRec? {
      DependsStrictRec(fuel, e1, e2, node, polls, polled);
    } else {
      DependsHead(strict, fuel, e1, e2, node, polls, polled);
    }
  }

  lemma TwoInside(strict: bool, node: IrNode)
    requires HasTwo(node) && Admissible(strict, node)
    ensures Admissible(strict, First(node)) && Admissible(strict, Second(node))
    ensures FreeVars(strict, node) == FreeVars(strict, First(node)) + FreeVars(strict, Second(node))
  {
  }

  lemma {:induction false} DependsTwo(
      strict: bool, fuel: nat, e1: Env, e2: Env, node: IrNode, polls: Polls, polled: nat)
    requires fuel > 0 && HasTwo(node) && Admissible(strict, node)
    requires Agree(strict, FreeVars(strict, node), e1, e2)
    ensures SameOutcome(strict, Evaluate(fuel, e1, node, polls, polled), Evaluate(fuel, e2, node, polls, polled))
    decreases fuel, 0
  {
    EvaluateTwo(fuel, e1, node, polls, polled);
    EvaluateTwo(fuel, e2, node, polls, polled);
    TwoInside(strict, node);
    DependsOnlyOnFreeVars(strict, fuel - 1, e1, e2, First(node), polls, polled);
    var o := Evaluate(fuel - 1, e1, First(node), polls, polled);
    var p := Evaluate(fuel - 1, e2, First(node), polls, polled);
    if o.Done? { DependsSecond(strict, fuel - 1, e1, e2, node, o.value, p.value, polls, o.polled); }
  }

  lemma {:induction false} DependsSecond(
      strict: bool, fuel: nat, e1: Env, e2: Env, node: IrNode, a: Value, c: Value, polls: Polls, polled: nat)
    requires HasTwo(node) && Admissible(strict, node)
    requires Agree(strict, FreeVars(strict, node), e1, e2) && Related(strict, a, c)
    ensures SameOutcome(strict, AfterFirst(fuel, e1, node, a, polls, polled), AfterFirst(fuel, e2, node, c, polls, polled))
    decreases fuel, 4
  {
    TwoInside(strict, node);
    DependsOnlyOnFreeVars(strict, fuel, e1, e2, Second(node), polls, polled);
    var o := Evaluate(fuel, e1, Second(node), polls, polled);
    var p := Evaluate(fuel, e2, Second(node), polls, polled);
    if o.Done? { DependsJoin(strict, fuel, node, a, c, o.value, p.value, polls, o.polled); }
  }

  lemma CombineAgrees(strict: bool, op: Ast.BinOp, a: Value, b: Value, c: Value, d: Value, polled: nat)
    requires Related(strict, a, c) && Related(strict, b, d)
    ensures SameOutcome(strict, Combine(op, a, b, polled), Combine(op, c, d, polled))
  {
  }

  lemma {:induction false} DependsCall(
      strict: bool, fuel: nat, f: Value, g: Value, a: Value, b: Value, polls: Polls, polled: nat)
    requires f.Closure? && Related(strict, f, g) && Related(strict, a, b)
    ensures SameOutcome(strict, Evaluate(fuel, CallEnv(f, a), f.body, polls, polled),
                        Evaluate(fuel, CallEnv(g, b), f.body, polls, polled))
    decreases fuel, 2
  {
    CallEnvsAgree(strict, f, g, a, b);
    DependsOnlyOnFreeVars(strict, fuel, CallEnv(f, a), CallEnv(g, b), f.body, polls, polled);
  }

  lemma {:induction false} DependsJoin(
      strict: bool, fuel: nat, node: IrNode, a: Value, c: Value, b: Value, d: Value, polls: Polls, polled: nat)
    requires HasTwo(node) && Related(strict, a, c) && Related(strict, b, d)
    ensures SameOutcome(strict, Join(fuel, node, a, b, polls, polled), Join(fuel, node, c, d, polls, polled))
    decreases fuel, 3
  {
    if node.Bin? { CombineAgrees(strict, node.op, a, b, c, d, polled); }
    if node.App? && a.Closure? { DependsCall(strict, fuel, a, c, b, d, polls, polled); }
  }

  lemma StrictRec(node: IrNode)
    requires node.LetRec? && RecOnlyLambdas(node)
    ensures node.val.Lambda? && RecOnlyLambdas(node.val.body) && RecOnlyLambdas(node.body)
    ensures FreeVars(true, node)
         == Captured(true, node.val.param, node.val.body, Some(node.bound)) + (FreeVars(true, node.body) - {node.bound})
  {
    assert RecOnlyLambdas(node.val);
    assert FreeVars(true, node.val) == FreeVars(true, node.val.body) - {node.val.param};
  }

  lemma LambdaCloses(fuel: nat, env: Env, node: IrNode, polls: Polls, polled: nat)
    requires node.Lambda?
    ensures Evaluate(fuel, env, node, polls, polled)
         == if fuel == 0 then OutOfFuel else Done(Closure(node.param, node.body, env, None), polled)
  {
  }

  /** The right-hand side is a lambda: its closure is built on the spot, in any environment. */
  lemma {:induction false} DependsStrictRec(fuel: nat, e1: Env, e2: Env, node: IrNode, polls: Polls, polled: nat)
    requires fuel > 0 && node.LetRec? && RecOnlyLambdas(node)
    requires Agree(true, FreeVars(true, node), e1, e2)
    ensures SameOutcome(true, Evaluate(fuel, e1, node, polls, polled), Evaluate(fuel, e2, node, polls, polled))
    decreases fuel, 0
  {
    EvaluateHead(fuel, e1, node, polls, polled);
    EvaluateHead(fuel, e2, node, polls, polled);
    StrictRec(node);
    LambdaCloses(fuel - 1, e1, node.val, polls, polled);
    LambdaCloses(fuel - 1, e2, node.val, polls, polled);
    if fuel >= 2 {
      var f1 := Closure(node.val.param, node.val.body, e1, Some(node.bound));
      var f2 := Closure(node.val.param, node.val.body, e2, Some(node.bound));
      assert Related(true, f1, f2);
      DependsOnlyOnFreeVars(true, fuel - 1, e1[node.bound := f1], e2[node.bound := f2], node.body, polls, polled);
    }
  }

  lemma {:induction false} DependsHead(
      strict: bool, fuel: nat, e1: Env, e2: Env, node: IrNode, polls: Polls, polled: nat)
    requires fuel > 0 && HasHead(node) && !(strict && node.LetRec?) && Admissible(strict, node)
    requires Agree(strict, FreeVars(strict, node), e1, e2)
    ensures SameOutcome(strict, Evaluate(fuel, e1, node, polls, polled), Evaluate(fuel, e2, node, polls, polled))
    decreases fuel, 0
  {
    var o := Evaluate(fuel - 1, e1, Head(node), polls, polled);
    var p := Evaluate(fuel - 1, e2, Head(node), polls, polled);
    EvaluateHead(fuel, e1, node, polls, polled);
    EvaluateHead(fuel, e2, node, polls, polled);
    SubtermsInside(strict, node, if o.Done? then o.value else IntV(0));
    DependsOnlyOnFreeVars(strict, fuel - 1, e1, e2, Head(node), polls, polled);
    if o.Done? { DependsRest(strict, fuel - 1, e1, e2, node, o.value, p.value, polls, o.polled); }
  }

  lemma {:induction false} DependsRest(
      strict: bool, fuel: nat, e1: Env, e2: Env, node: IrNode, v: Value, w: Value, polls: Polls, polled: nat)
    requires HasHead(node) && !(strict && node.LetRec?) && Admissible(strict, node)
    requires Agree(strict, FreeVars(strict, node), e1, e2) && Related(strict, v, w)
    ensures SameOutcome(strict, Rest(fuel, e1, node, v, polls, polled), Rest(fuel, e2, node, w, polls, polled))
    decreases fuel, 2
  {
    SubtermsInside(strict, node, v);
    if Continues(node, v) {
      ContEnvsAgree(strict, node, e1, e2, v, w);
      DependsOnlyOnFreeVars(strict, fuel, ContEnv(node, e1, v), ContEnv(node, e2, w), ContBody(node, v), polls, polled);
    }
  }

  ghost predicate AdmissibleValue(strict: bool, v: Value)
    decreases v
  {
    match v
    case IntV(_) => true
    case FloatV(_) => true
    case PairV(a, b) => AdmissibleValue(strict, a) && AdmissibleValue(strict, b)
    case LeftV(a) => AdmissibleValue(strict, a)
    case RightV(a) => AdmissibleValue(strict, a)
    case Closure(_, body, env, _) =>
      Admissible(strict, body) && forall y :: y in env ==> AdmissibleValue(strict, env[y])
  }

  lemma {:induction false} RelatedReflexive(strict: bool, v: Value)
    requires AdmissibleValue(strict, v)
    ensures Related(strict, v, v)
    decreases v
  {
    match v {
      case PairV(a, b) => RelatedReflexive(strict, a); RelatedReflexive(strict, b);
      case LeftV(a) => RelatedReflexive(strict, a);
      case RightV(a) => RelatedReflexive(strict, a);
      case Closure(x, body, env, rec) =>
        forall y | y in env ensures Related(strict, env[y], env[y]) { RelatedReflexive(strict, env[y]); }
      case _ =>
    }
  }

  /** Data without closures: related means equal. */
  predicate Ground(v: Value) {
    match v
    case PairV(a, b) => Ground(a) && Ground(b)
    case LeftV(a) => Ground(a)
    case RightV(a) => Ground(a)
    case Closure(_, _, _, _) => false
    case _ => true
  }

  lemma {:induction false} RelatedGroundEqual(strict: bool, v: Value, w: Value)
    requires Related(strict, v, w) && Ground(v)
    ensures v == w
  {
    match v {
      case PairV(a, b) => RelatedGroundEqual(strict, a, w.fst); RelatedGroundEqual(strict, b, w.snd);
      case LeftV(a) => RelatedGroundEqual(strict, a, w.inner);
      case RightV(a) => RelatedGroundEqual(strict, a, w.inner);
      case _ =>
    }
  }

  lemma {:induction false} AlwaysAdmissible(v: Value)
    ensures AdmissibleValue(false, v)
    decreases v
  {
    match v {
      case PairV(a, b) => AlwaysAdmissible(a); AlwaysAdmissible(b);
      case LeftV(a) => AlwaysAdmissible(a);
      case RightV(a) => AlwaysAdmissible(a);
      case Closure(_, _, env, _) =>
        forall y | y in env ensures AdmissibleValue(false, env[y]) { AlwaysAdmissible(env[y]); }
      case _ =>
    }
  }

  /** A binding for a name that is not free is invisible: any program, any environment. */
  lemma UnusedBindingInvisible(
      fuel: nat, env: Env, x: string, v: Value, node: IrNode, polls: Polls, polled: nat)
    requires x !in FreeVars(false, node)
    ensures var o := Evaluate(fuel, env, node, polls, polled);
            var p := Evaluate(fuel, env[x := v], node, polls, polled);
            SameOutcome(false, o, p) && (o.Done? && Ground(o.value) ==> p == o)
  {
    forall y | y in env ensures Related(false, env[y], env[y]) {
      AlwaysAdmissible(env[y]);
      RelatedReflexive(false, env[y]);
    }
    DependsOnlyOnFreeVars(false, fuel, env, env[x := v], node, polls, polled);
    var o := Evaluate(fuel, env, node, polls, polled);
    if o.Done? && Ground(o.value) {
      RelatedGroundEqual(false, o.value, Evaluate(fuel, env[x := v], node, polls, polled).value);
    }
  }

  // ---- Scope safety ----

  /** Every name a closure can look up is bound, all the way down. */
  ghost predicate WellScoped(strict: bool, v: Value)
    decreases v
  {
    match v
    case IntV(_) => true
    case FloatV(_) => true
    case PairV(a, b) => WellScoped(strict, a) && WellScoped(strict, b)
    case LeftV(a) => WellScoped(strict, a)
    case RightV(a) => WellScoped(strict, a)
    case Closure(x, body, env, rec) =>
      && Captured(strict, x, body, rec) <= env.Keys && Admissible(strict, body)
      && forall y :: y in env ==> WellScoped(strict, env[y])
  }

  ghost predicate WellScopedEnv(strict: bool, env: Env) {
    forall y :: y in env ==> WellScoped(strict, env[y])
  }

  ghost predicate Safe(strict: bool, o: Outcome) {
    && !(o.Fault? && o.error.Unbound?)
    && (o.Done? ==> WellScoped(strict, o.value))
  }

  lemma CallEnvInScope(strict: bool, f: Value, a: Value)
    requires f.Closure? && WellScoped(strict, f) && WellScoped(strict, a)
    ensures WellScopedEnv(strict, CallEnv(f, a)) && FreeVars(strict, f.body) <= CallEnv(f, a).Keys
  {
    forall y | y in FreeVars(strict, f.body) ensures y in CallEnv(f, a) {
      if y != f.param && f.recName != Some(y) {
        assert y in Captured(strict, f.param, f.body, f.recName);
      }
    }
  }

  lemma {:induction false} ScopeSafety(
      strict: bool, fuel: nat, env: Env, node: IrNode, polls: Polls, polled: nat)
    requires Admissible(strict, node) && WellScopedEnv(strict, env)
    requires FreeVars(strict, node) <= env.Keys
    ensures Safe(strict, Evaluate(fuel, env, node, polls, polled))
    decreases fuel, 1
  {
    if fuel == 0 || node.IntLiteral? || node.FloatLiteral? || node.Var? {
    } else if node.Lambda? {
    } else if HasTwo(node) {
      SafeTwo(strict, fuel, env, node, polls, polled);
    } else if strict && node.LetRec? {
      StrictRec(node);
      LambdaCloses(fuel - 1, env, node.val, polls, polled);
      if fuel >= 2 {
        var f := Closure(node.val.param, node.val.body, env, Some(node.bound));
        assert WellScoped(strict, f);
        ScopeSafety(strict, fuel - 1, env[node.bound := f], node.body, polls, polled);
      }
    } else {
      SafeHead(strict, fuel, env, node, polls, polled);
    }
  }

  lemma {:induction false} SafeTwo(strict: bool, fuel: nat, env: Env, node: IrNode, polls: Polls, polled: nat)
    requires fuel > 0 && HasTwo(node) && Admissible(strict, node) && WellScopedEnv(strict, env)
    requires FreeVars(strict, node) <= env.Keys
    ensures Safe(strict, Evaluate(fuel, env, node, polls, polled))
    decreases fuel, 0
  {
    EvaluateTwo(fuel, env, node, polls, polled);
    TwoInside(strict, node);
    ScopeSafety(strict, fuel - 1, env, First(node), polls, polled);
    var o1 := Evaluate(fuel - 1, env, First(node), polls, polled);
    if o1.Done? {
      ScopeSafety(strict, fuel - 1, env, Second(node), polls, o1.polled);
      var o2 := Evaluate(fuel - 1, env, Second(node), polls, o1.polled);
      if o2.Done? { SafeJoin(strict, fuel - 1, node, o1.value, o2.value, polls, o2.polled); }
    }
  }

  lemma {:induction false} SafeJoin(
      strict: bool, fuel: nat, node: IrNode, a: Value, b: Value, polls: Polls, polled: nat)
    requires HasTwo(node) && WellScoped(strict, a) && WellScoped(strict, b)
    ensures Safe(strict, Join(fuel, node, a, b, polls, polled))
    decreases fuel, 2
  {
    if node.App? && a.Closure? {
      CallEnvInScope(strict, a, b);
      ScopeSafety(strict, fuel, CallEnv(a, b), a.body, polls, polled);
    }
  }

  lemma {:induction false} SafeHead(strict: bool, fuel: nat, env: Env, node: IrNode, polls: Polls, polled: nat)
    requires fuel > 0 && HasHead(node) && !(strict && node.LetRec?)
    requires Admissible(strict, node) && WellScopedEnv(strict, env) && FreeVars(strict, node) <= env.Keys
    ensures Safe(strict, Evaluate(fuel, env, node, polls, polled))
    decreases fuel, 0
  {
    var o := Evaluate(fuel - 1, env, Head(node), polls, polled);
    EvaluateHead(fuel, env, node, polls, polled);
    SubtermsInside(strict, node, if o.Done? then o.value else IntV(0));
    ScopeSafety(strict, fuel - 1, env, Head(node), polls, polled);
    if o.Done? { SafeRest(strict, fuel - 1, env, node, o.value, polls, o.polled); }
  }

  lemma ContEnvInScope(strict: bool, node: IrNode, env: Env, v: Value)
    requires HasHead(node) && Continues(node, v) && WellScoped(strict, v) && !(strict && node.LetRec?)
    requires WellScopedEnv(strict, env) && FreeVars(strict, node) <= env.Keys
    ensures WellScopedEnv(strict, ContEnv(node, env, v))
    ensures FreeVars(strict, ContBody(node, v)) <= ContEnv(node, env, v).Keys
  {
    if node.LetRec? { assert WellScoped(strict, Tag(v, node.bound)); }
  }

  lemma {:induction false} SafeRest(
      strict: bool, fuel: nat, env: Env, node: IrNode, v: Value, polls: Polls, polled: nat)
    requires HasHead(node) && !(strict && node.LetRec?) && WellScoped(strict, v)
    requires Admissible(strict, node) && WellScopedEnv(strict, env) && FreeVars(strict, node) <= env.Keys
    ensures Safe(strict, Rest(fuel, env, node, v, polls, polled))
    decreases fuel, 2
  {
    SubtermsInside(strict, node, v);
    if Continues(node, v) {
      ContEnvInScope(strict, node, env, v);
      ScopeSafety(strict, fuel, ContEnv(node, env, v), ContBody(node, v), polls, polled);
    }
  }

  /** The environment every contract starts in (lib.rs). */
  function Seeded(): Env {
    map["SYS_COMPUTE" := IntV(1000), "SYS_CREDITS" := IntV(500)]
  }

  /** A contract whose free variables are the two system names (and POLL) never meets an
      unbound variable, however long it runs and whatever it polls. */
  lemma ContractNeverUnbound(strict: bool, fuel: nat, contract: IrNode, polls: Polls)
    requires Admissible(strict, contract)
    requires FreeVars(strict, contract) <= {"SYS_COMPUTE", "SYS_CREDITS"}
    ensures Safe(strict, Evaluate(fuel, Seeded(), contract, polls, 0))
  {
    ScopeSafety(strict, fuel, Seeded(), contract, polls, 0);
  }

  // ---- Why the lambda restriction is there ----

  /** let rec f = \x. f x in let rec g = f in g 1 */
  function Renamed(): IrNode {
    LetRec("f", Lambda("x", App(Var("f"), Var("x"))),
           LetRec("g", Var("f"), App(Var("g"), IntLiteral(1))))
  }

  /** Renaming the closure to g drops the name f: its body looks f up in the environment the whole
      term was started in. */
  lemma RenamedRuns(env: Env, polls: Polls)
    ensures var body := App(Var("f"), Var("x"));
            var g := Closure("x", body, env, Some("g"));
            Evaluate(10, env, Renamed(), polls, 0) == Evaluate(7, CallEnv(g, IntV(1)), body, polls, 0)
  {
    var body := App(Var("f"), Var("x"));
    var f := Closure("x", body, env, Some("f"));
    var g := f.(recName := Some("g"));
    var e1 := env["f" := f];
    var e2 := e1["g" := g];
    var inner := App(Var("g"), IntLiteral(1));
    assert Evaluate(7, e2, Var("g"), polls, 0) == Done(g, 0);
    assert Evaluate(7, e2, IntLiteral(1), polls, 0) == Done(IntV(1), 0);
    assert Evaluate(8, e2, inner, polls, 0) == Evaluate(7, CallEnv(g, IntV(1)), body, polls, 0);
    assert Evaluate(8, e1, Var("f"), polls, 0) == Done(f, 0);
    EvaluateHead(9, e1, LetRec("g", Var("f"), inner), polls, 0);
    assert Evaluate(9, env, Lambda("x", body), polls, 0) == Done(Closure("x", body, env, None), 0);
    EvaluateHead(10, env, Renamed(), polls, 0);
  }

  /** \y. y */
  function Identity(): Value { Closure("y", Var("y"), map[], None) }

  lemma RenamedInner(strict: bool)
    ensures FreeVars(strict, Lambda("x", App(Var("f"), Var("x")))) == {"f"}
    ensures FreeVars(strict, LetRec("g", Var("f"), App(Var("g"), IntLiteral(1)))) == {"f"}
  {
    assert FreeVars(strict, App(Var("f"), Var("x"))) == {"f", "x"};
    assert FreeVars(strict, App(Var("g"), IntLiteral(1))) == {"g"};
  }

  lemma RenamedScope()
    ensures FreeVars(true, Renamed()) == {} && !RecOnlyLambdas(Renamed())
    ensures FreeVars(false, Renamed()) == {"f"}
  {
    forall strict: bool { RenamedInner(strict); }
  }

  lemma MissingF(env: Env, polls: Polls)
    requires "f" !in env
    ensures Evaluate(7, env, App(Var("f"), Var("x")), polls, 0) == Fault(Unbound("f"), 0)
  {
    assert Evaluate(6, env, Var("f"), polls, 0) == Fault(Unbound("f"), 0);
  }

  lemma RenamedAlone(env: Env, polls: Polls)
    requires "f" !in env
    ensures Evaluate(10, env, Renamed(), polls, 0) == Fault(Unbound("f"), 0)
  {
    RenamedRuns(env, polls);
    MissingF(CallEnv(Closure("x", App(Var("f"), Var("x")), env, Some("g")), IntV(1)), polls);
  }

  lemma FoundF(env: Env, polls: Polls)
    requires "f" in env && env["f"] == Identity() && "x" in env && env["x"] == IntV(1)
    ensures Evaluate(7, env, App(Var("f"), Var("x")), polls, 0) == Done(IntV(1), 0)
  {
    assert Evaluate(6, env, Var("f"), polls, 0) == Done(Identity(), 0);
    assert Evaluate(6, env, Var("x"), polls, 0) == Done(IntV(1), 0);
    assert Evaluate(6, CallEnv(Identity(), IntV(1)), Var("y"), polls, 0) == Done(IntV(1), 0);
  }

  lemma RenamedWithF(env: Env, polls: Polls)
    requires "f" in env && env["f"] == Identity()
    ensures Evaluate(10, env, Renamed(), polls, 0) == Done(IntV(1), 0)
  {
    RenamedRuns(env, polls);
    FoundF(CallEnv(Closure("x", App(Var("f"), Var("x")), env, Some("g")), IntV(1)), polls);
  }

  /** The term is closed in the usual sense, yet what it answers depends on an f in the environment, and
      without one it faults. The non-strict notion reports f as free. */
  lemma BoundRecNameIsNotEnough(env: Env, polls: Polls)
    requires "f" !in env
    ensures FreeVars(true, Renamed()) == {} && !RecOnlyLambdas(Renamed())
    ensures FreeVars(false, Renamed()) == {"f"}
    ensures Evaluate(10, env, Renamed(), polls, 0) == Fault(Unbound("f"), 0)
    ensures Evaluate(10, env["f" := Identity()], Renamed(), polls, 0) == Done(IntV(1), 0)
  {
    RenamedScope();
    RenamedAlone(env, polls);
    RenamedWithF(env["f" := Identity()], polls);
  }
}
