/**
 Evaluation of an expression under variable bindings: a post-order fold that
 applies the scalar operation of each node to its operands' values. The one
 failure is a Variable leaf whose name has no binding. Operands are evaluated
 left first; since the order in the engine is not fixed, the contracts only
 claim that the reported name is unbound and occurs in the tree.
 */
module Evaluation {
  import opened Scalars
  import opened Results
  import opened Expressions

  /** `evaluate(bindings)`. */
  function Evaluate<T>(e: Expr<T>, m: map<string, T>, ops: Arith<T>): (r: Result<T, Error>)
    ensures r.Failure? <==> !(Vars(e) <= m.Keys)
    ensures r.Failure? ==> r.error.UndefinedVariable? && r.error.name in Vars(e) && r.error.name !in m
  {
    match e
    case Const(c) => Success(c)
    case Var(n) => if n in m then Success(m[n]) else Failure(UndefinedVariable(n))
    case Add(a, b) => var x :- Evaluate(a, m, ops); var y :- Evaluate(b, m, ops); Success(ops.add(x, y))
    case Sub(a, b) => var x :- Evaluate(a, m, ops); var y :- Evaluate(b, m, ops); Success(ops.sub(x, y))
    case Mul(a, b) => var x :- Evaluate(a, m, ops); var y :- Evaluate(b, m, ops); Success(ops.mul(x, y))
    case Div(a, b) => var x :- Evaluate(a, m, ops); var y :- Evaluate(b, m, ops); Success(ops.div(x, y))
    case Pow(a, b) => var x :- Evaluate(a, m, ops); var y :- Evaluate(b, m, ops); Success(ops.pow(x, y))
    case Sin(a) => var x :- Evaluate(a, m, ops); Success(ops.sin(x))
    case Cos(a) => var x :- Evaluate(a, m, ops); Success(ops.cos(x))
    case Exp(a) => var x :- Evaluate(a, m, ops); Success(ops.exp(x))
    case Log(a) => var x :- Evaluate(a, m, ops); Success(ops.log(x))
    case Neg(a) => var x :- Evaluate(a, m, ops); Success(ops.neg(x))
  }

  /** `evaluate()` with no argument: empty bindings. */
  function EvaluateClosed<T>(e: Expr<T>, ops: Arith<T>): (r: Result<T, Error>)
    ensures r.Success? <==> IsConstant(e)
  {
    Evaluate(e, map[], ops)
  }

  /** The default-constructed expression evaluates to the scalar zero,
      whatever the bindings. */
  lemma ZeroEvaluatesToZero<T>(m: map<string, T>, ops: Arith<T>)
    ensures Evaluate(Zero(ops), m, ops) == Success(ops.zero)
  {
  }

  /** The denotation of `e` under a total environment: the value the fold
      computes once every variable has one. */
  function Value<T>(e: Expr<T>, env: string -> T, ops: Arith<T>): T
  {
    match e
    case Const(c) => c
    case Var(n) => env(n)
    case Add(a, b) => ops.add(Value(a, env, ops), Value(b, env, ops))
    case Sub(a, b) => ops.sub(Value(a, env, ops), Value(b, env, ops))
    case Mul(a, b) => ops.mul(Value(a, env, ops), Value(b, env, ops))
    case Div(a, b) => ops.div(Value(a, env, ops), Value(b, env, ops))
    case Pow(a, b) => ops.pow(Value(a, env, ops), Value(b, env, ops))
    case Sin(a) => ops.sin(Value(a, env, ops))
    case Cos(a) => ops.cos(Value(a, env, ops))
    case Exp(a) => ops.exp(Value(a, env, ops))
    case Log(a) => ops.log(Value(a, env, ops))
    case Neg(a) => ops.neg(Value(a, env, ops))
  }

  /** `m1` and `m2` bind the same names of `names` to the same values. */
  ghost predicate AgreeOn<T>(m1: map<string, T>, m2: map<string, T>, names: set<string>)
  {
    forall n :: n in names ==> (n in m1 <==> n in m2) && (n in m1 ==> m1[n] == m2[n])
  }

  /** When every variable of `e` is bound, evaluation succeeds with the
      denotation of `e` under any environment extending the bindings. */
  lemma {:induction false} EvaluateIsValue<T>(e: Expr<T>, m: map<string, T>, env: string -> T, ops: Arith<T>)
    requires forall n :: n in Vars(e) ==> n in m && env(n) == m[n]
    ensures Evaluate(e, m, ops) == Success(Value(e, env, ops))
  {
    match e
    case Const(_) =>
    case Var(_) =>
    case Add(a, b) => EvaluateIsValue(a, m, env, ops); EvaluateIsValue(b, m, env, ops);
    case Sub(a, b) => EvaluateIsValue(a, m, env, ops); EvaluateIsValue(b, m, env, ops);
    case Mul(a, b) => EvaluateIsValue(a, m, env, ops); EvaluateIsValue(b, m, env, ops);
    case Div(a, b) => EvaluateIsValue(a, m, env, ops); EvaluateIsValue(b, m, env, ops);
    case Pow(a, b) => EvaluateIsValue(a, m, env, ops); EvaluateIsValue(b, m, env, ops);
    case Sin(a) => EvaluateIsValue(a, m, env, ops);
    case Cos(a) => EvaluateIsValue(a, m, env, ops);
    case Exp(a) => EvaluateIsValue(a, m, env, ops);
    case Log(a) => EvaluateIsValue(a, m, env, ops);
    case Neg(a) => EvaluateIsValue(a, m, env, ops);
  }

  /** Bindings of names that do not occur in `e` do not matter: two binding
      tables that agree on the variables of `e` give the same outcome,
      value or error alike. */
  lemma {:induction false} EvaluateDependsOnlyOnVars<T>(e: Expr<T>, m1: map<string, T>, m2: map<string, T>, ops: Arith<T>)
    requires AgreeOn(m1, m2, Vars(e))
    ensures Evaluate(e, m1, ops) == Evaluate(e, m2, ops)
  {
    match e
    case Const(_) =>
    case Var(_) =>
    case Add(a, b) => EvaluateDependsOnlyOnVars(a, m1, m2, ops); EvaluateDependsOnlyOnVars(b, m1, m2, ops);
    case Sub(a, b) => EvaluateDependsOnlyOnVars(a, m1, m2, ops); EvaluateDependsOnlyOnVars(b, m1, m2, ops);
    case Mul(a, b) => EvaluateDependsOnlyOnVars(a, m1, m2, ops); EvaluateDependsOnlyOnVars(b, m1, m2, ops);
    case Div(a, b) => EvaluateDependsOnlyOnVars(a, m1, m2, ops); EvaluateDependsOnlyOnVars(b, m1, m2, ops);
    case Pow(a, b) => EvaluateDependsOnlyOnVars(a, m1, m2, ops); EvaluateDependsOnlyOnVars(b, m1, m2, ops);
    case Sin(a) => EvaluateDependsOnlyOnVars(a, m1, m2, ops);
    case Cos(a) => EvaluateDependsOnlyOnVars(a, m1, m2, ops);
    case Exp(a) => EvaluateDependsOnlyOnVars(a, m1, m2, ops);
    case Log(a) => EvaluateDependsOnlyOnVars(a, m1, m2, ops);
    case Neg(a) => EvaluateDependsOnlyOnVars(a, m1, m2, ops);
  }

  /** Adding bindings for names absent from `e` changes nothing. */
  lemma ExtraBindingsIgnored<T>(e: Expr<T>, m: map<string, T>, extra: map<string, T>, ops: Arith<T>)
    requires extra.Keys !! Vars(e)
    ensures Evaluate(e, m + extra, ops) == Evaluate(e, m, ops)
  {
    EvaluateDependsOnlyOnVars(e, m + extra, m, ops);
  }
}
