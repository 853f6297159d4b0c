/**
 Symbolic differentiation with respect to one variable name. Each node kind
 has its fixed calculus rule; the result is never simplified, so it keeps
 literal multiplications by zero and one. The one failure is a power whose
 exponent is not constant.
 */
module Differentiation {
  import opened Scalars
  import opened Results
  import opened Expressions
  import opened Evaluation

  /** Every Power node of `e` has a constant exponent, checked the way the
      differentiator meets them: the exponent of a power is tested with
      `isConstant` and only the base is descended into. */
  predicate AllExponentsConstant<T>(e: Expr<T>)
  {
    match e
    case Const(_) => true
    case Var(_) => true
    case Add(a, b) => AllExponentsConstant(a) && AllExponentsConstant(b)
    case Sub(a, b) => AllExponentsConstant(a) && AllExponentsConstant(b)
    case Mul(a, b) => AllExponentsConstant(a) && AllExponentsConstant(b)
    case Div(a, b) => AllExponentsConstant(a) && AllExponentsConstant(b)
    case Pow(a, b) => IsConstant(b) && AllExponentsConstant(a)
    case Sin(a) => AllExponentsConstant(a)
    case Cos(a) => AllExponentsConstant(a)
    case Exp(a) => AllExponentsConstant(a)
    case Log(a) => AllExponentsConstant(a)
    case Neg(a) => AllExponentsConstant(a)
  }

  /** Some subtree of `e` is a power whose exponent mentions a variable. */
  ghost predicate HasVariableExponent<T>(e: Expr<T>)
  {
    exists s :: s in Subterms(e) && s.Pow? && Vars(s.right) != {}
  }

  /** The recursive check and the subtree characterisation agree. */
  lemma {:induction false} AllExponentsConstantIff<T>(e: Expr<T>)
    ensures AllExponentsConstant(e) <==> !HasVariableExponent(e)
  {
    match e
    case Const(_) =>
    case Var(_) =>
    case Add(a, b) => AllExponentsConstantIff(a); AllExponentsConstantIff(b);
    case Sub(a, b) => AllExponentsConstantIff(a); AllExponentsConstantIff(b);
    case Mul(a, b) => AllExponentsConstantIff(a); AllExponentsConstantIff(b);
    case Div(a, b) => AllExponentsConstantIff(a); AllExponentsConstantIff(b);
    case Pow(a, b) =>
      AllExponentsConstantIff(a);
      if IsConstant(b) {
        forall s | s in Subterms(b) ensures !(s.Pow? && Vars(s.right) != {}) {
          SubtermVars(b, s);
          if s.Pow? {
            SubtermVars(s, s.right);
          }
        }
      } else {
        assert e in Subterms(e);
      }
    case Sin(a) => AllExponentsConstantIff(a);
    case Cos(a) => AllExponentsConstantIff(a);
    case Exp(a) => AllExponentsConstantIff(a);
    case Log(a) => AllExponentsConstantIff(a);
    case Neg(a) => AllExponentsConstantIff(a);
  }

  /** `derivative(x)`. Succeeds exactly when every power has a constant
      exponent; the only error is the non-constant exponent. */
  function Derivative<T>(e: Expr<T>, x: string, ops: Arith<T>): (r: Result<Expr<T>, Error>)
    ensures r.Success? <==> AllExponentsConstant(e)
    ensures r.Failure? ==> r.error == NonConstantExponent
  {
    match e
    case Const(_) => Success(Const(ops.zero))
    case Var(n) => Success(Const(if n == x then ops.one else ops.zero))
    case Add(u, v) =>
      var du :- Derivative(u, x, ops);
      var dv :- Derivative(v, x, ops);
      Success(Add(du, dv))
    case Sub(u, v) =>
      var du :- Derivative(u, x, ops);
      var dv :- Derivative(v, x, ops);
      Success(Sub(du, dv))
    case Mul(u, v) =>
      // (uv)' = u'v + uv'
      var du :- Derivative(u, x, ops);
      var dv :- Derivative(v, x, ops);
      Success(Add(Mul(du, v), Mul(u, dv)))
    case Div(u, v) =>
      // (u/v)' = (u'v - uv') / v^2
      var du :- Derivative(u, x, ops);
      var dv :- Derivative(v, x, ops);
      Success(Div(Sub(Mul(du, v), Mul(u, dv)), Pow(v, Const(ops.two))))
    case Pow(u, v) =>
      // (u^n)' = n * u^(n-1) * u', only for a constant exponent n
      if IsConstant(v) then
        var n := EvaluateClosed(v, ops).value;
        var du :- Derivative(u, x, ops);
        Success(Mul(Mul(Const(n), Pow(u, Const(ops.sub(n, ops.one)))), du))
      else
        Failure(NonConstantExponent)
    case Sin(u) =>
      var du :- Derivative(u, x, ops);
      Success(Mul(Cos(u), du))
    case Cos(u) =>
      var du :- Derivative(u, x, ops);
      Success(Mul(Neg(Sin(u)), du))
    case Exp(u) =>
      var du :- Derivative(u, x, ops);
      Success(Mul(Exp(u), du))
    case Log(u) =>
      var du :- Derivative(u, x, ops);
      Success(Div(du, u))
    case Neg(u) =>
      var du :- Derivative(u, x, ops);
      Success(Neg(du))
  }

  /** Differentiation fails exactly when some power in the tree has an
      exponent that mentions a variable, whichever variable that is and
      whatever the differentiation variable is. */
  lemma DerivativeFailsIff<T>(e: Expr<T>, x: string, ops: Arith<T>)
    ensures Derivative(e, x, ops).Failure? <==> HasVariableExponent(e)
  {
    AllExponentsConstantIff(e);
  }

  /** The leaf rules and the linear rules: a constant gives zero, a
      variable gives one exactly when it is the differentiation variable,
      and sums and differences differentiate operand-wise, failing when an
      operand does. */
  lemma LeafAndLinearRules<T>(e: Expr<T>, x: string, ops: Arith<T>)
    ensures e.Const? ==> Derivative(e, x, ops) == Success(Const(ops.zero))
    ensures e.Var? && e.name == x ==> Derivative(e, x, ops) == Success(Const(ops.one))
    ensures e.Var? && e.name != x ==> Derivative(e, x, ops) == Success(Const(ops.zero))
    ensures (e.Add? || e.Sub?) ==>
      var dl := Derivative(e.left, x, ops);
      var dr := Derivative(e.right, x, ops);
      if dl.Success? && dr.Success? then
        Derivative(e, x, ops) == Success(if e.Add? then Add(dl.value, dr.value) else Sub(dl.value, dr.value))
      else
        Derivative(e, x, ops).Failure?
  {
  }

  /** The product and quotient rules: `(uv)' = u'v + uv'` and
      `(u/v)' = (u'v - uv') / v^2`, failing when an operand's derivative
      does. */
  lemma ProductAndQuotientRules<T>(u: Expr<T>, v: Expr<T>, x: string, ops: Arith<T>)
    ensures
      var du, dv := Derivative(u, x, ops), Derivative(v, x, ops);
      if du.Success? && dv.Success? then
        && Derivative(Mul(u, v), x, ops) == Success(Add(Mul(du.value, v), Mul(u, dv.value)))
        && Derivative(Div(u, v), x, ops)
             == Success(Div(Sub(Mul(du.value, v), Mul(u, dv.value)), Pow(v, Const(ops.two))))
      else
        Derivative(Mul(u, v), x, ops).Failure? && Derivative(Div(u, v), x, ops).Failure?
  {
  }

  /** The chain rules for the one-operand kinds: `sin(u)' = cos(u) u'`,
      `cos(u)' = -(sin(u)) u'`, `exp(u)' = exp(u) u'`, `log(u)' = u' / u`
      and `(-u)' = -(u')`, each failing when `u'` does. */
  lemma ChainRules<T>(u: Expr<T>, x: string, ops: Arith<T>)
    ensures
      var du := Derivative(u, x, ops);
      if du.Success? then
        && Derivative(Sin(u), x, ops) == Success(Mul(Cos(u), du.value))
        && Derivative(Cos(u), x, ops) == Success(Mul(Neg(Sin(u)), du.value))
        && Derivative(Exp(u), x, ops) == Success(Mul(Exp(u), du.value))
        && Derivative(Log(u), x, ops) == Success(Div(du.value, u))
        && Derivative(Neg(u), x, ops) == Success(Neg(du.value))
      else
        && Derivative(Sin(u), x, ops).Failure?
        && Derivative(Cos(u), x, ops).Failure?
        && Derivative(Exp(u), x, ops).Failure?
        && Derivative(Log(u), x, ops).Failure?
        && Derivative(Neg(u), x, ops).Failure?
  {
    if Derivative(u, x, ops).Success? {
      var du := Derivative(u, x, ops).value;
      assert Derivative(Sin(u), x, ops) == Success(Mul(Cos(u), du));
      assert Derivative(Cos(u), x, ops) == Success(Mul(Neg(Sin(u)), du));
      assert Derivative(Exp(u), x, ops) == Success(Mul(Exp(u), du));
      assert Derivative(Log(u), x, ops) == Success(Div(du, u));
    }
  }

  /** Differentiation introduces no variable the tree did not already
      have: the rules only copy operands and add constant leaves. */
  lemma {:induction false} DerivativeVars<T>(e: Expr<T>, x: string, ops: Arith<T>)
    requires Derivative(e, x, ops).Success?
    ensures Vars(Derivative(e, x, ops).value) <= Vars(e)
  {
    match e
    case Const(_) =>
    case Var(_) =>
    case Add(u, v) => DerivativeVars(u, x, ops); DerivativeVars(v, x, ops);
    case Sub(u, v) => DerivativeVars(u, x, ops); DerivativeVars(v, x, ops);
    case Mul(u, v) => DerivativeVars(u, x, ops); DerivativeVars(v, x, ops);
    case Div(u, v) =>
      DerivativeVars(u, x, ops); DerivativeVars(v, x, ops);
      var du, dv := Derivative(u, x, ops).value, Derivative(v, x, ops).value;
      assert Derivative(e, x, ops).value == Div(Sub(Mul(du, v), Mul(u, dv)), Pow(v, Const(ops.two)));
      assert Vars(Sub(Mul(du, v), Mul(u, dv))) <= Vars(e);
      assert Vars(Pow(v, Const(ops.two))) == Vars(v);
    case Pow(u, v) =>
      DerivativeVars(u, x, ops);
      var n := EvaluateClosed(v, ops).value;
      var lowered := Pow(u, Const(ops.sub(n, ops.one)));
      assert Vars(lowered) == Vars(u);
      assert Vars(Mul(Const(n), lowered)) == Vars(u);
    case Sin(u) => DerivativeVars(u, x, ops);
    case Cos(u) =>
      DerivativeVars(u, x, ops);
      assert Vars(Neg(Sin(u))) == Vars(u);
    case Exp(u) => DerivativeVars(u, x, ops);
    case Log(u) => DerivativeVars(u, x, ops);
    case Neg(u) => DerivativeVars(u, x, ops);
  }

  /** A differentiable tree has a differentiable derivative, so an
      expression may be differentiated again (second derivatives). */
  lemma {:induction false} DerivativeDifferentiable<T>(e: Expr<T>, x: string, ops: Arith<T>)
    requires Derivative(e, x, ops).Success?
    ensures AllExponentsConstant(Derivative(e, x, ops).value)
  {
    match e
    case Const(_) =>
    case Var(_) =>
    case Add(u, v) => DerivativeDifferentiable(u, x, ops); DerivativeDifferentiable(v, x, ops);
    case Sub(u, v) => DerivativeDifferentiable(u, x, ops); DerivativeDifferentiable(v, x, ops);
    case Mul(u, v) => DerivativeDifferentiable(u, x, ops); DerivativeDifferentiable(v, x, ops);
    case Div(u, v) => DerivativeDifferentiable(u, x, ops); DerivativeDifferentiable(v, x, ops);
    case Pow(u, v) => DerivativeDifferentiable(u, x, ops);
    case Sin(u) => DerivativeDifferentiable(u, x, ops);
    case Cos(u) => DerivativeDifferentiable(u, x, ops);
    case Exp(u) => DerivativeDifferentiable(u, x, ops);
    case Log(u) => DerivativeDifferentiable(u, x, ops);
    case Neg(u) => DerivativeDifferentiable(u, x, ops);
  }

  /** Every power in a constant tree has a constant exponent. */
  lemma {:induction false} ConstantHasConstantExponents<T>(e: Expr<T>)
    requires IsConstant(e)
    ensures AllExponentsConstant(e)
  {
    match e
    case Const(_) =>
    case Var(_) =>
    case Add(u, v) => ConstantHasConstantExponents(u); ConstantHasConstantExponents(v);
    case Sub(u, v) => ConstantHasConstantExponents(u); ConstantHasConstantExponents(v);
    case Mul(u, v) => ConstantHasConstantExponents(u); ConstantHasConstantExponents(v);
    case Div(u, v) => ConstantHasConstantExponents(u); ConstantHasConstantExponents(v);
    case Pow(u, v) => ConstantHasConstantExponents(u);
    case Sin(u) => ConstantHasConstantExponents(u);
    case Cos(u) => ConstantHasConstantExponents(u);
    case Exp(u) => ConstantHasConstantExponents(u);
    case Log(u) => ConstantHasConstantExponents(u);
    case Neg(u) => ConstantHasConstantExponents(u);
  }

  /** The derivative of a constant tree exists and is itself constant. */
  lemma DerivativeOfConstant<T>(e: Expr<T>, x: string, ops: Arith<T>)
    requires IsConstant(e)
    ensures Derivative(e, x, ops).Success?
    ensures IsConstant(Derivative(e, x, ops).value)
  {
    ConstantHasConstantExponents(e);
    DerivativeVars(e, x, ops);
  }

  /** The constant-power rule for any constant exponent `v`, not only a
      scalar leaf: the power is differentiable exactly when its base is, and
      the derivative uses `n`, the value `v` has under every environment. */
  lemma PowerRule<T>(u: Expr<T>, v: Expr<T>, x: string, env: string -> T, ops: Arith<T>)
    requires IsConstant(v)
    ensures Derivative(Pow(u, v), x, ops).Success? <==> Derivative(u, x, ops).Success?
    ensures Derivative(u, x, ops).Success? ==>
      var n := Value(v, env, ops);
      Derivative(Pow(u, v), x, ops).value
        == Mul(Mul(Const(n), Pow(u, Const(ops.sub(n, ops.one)))), Derivative(u, x, ops).value)
  {
    EvaluateIsValue(v, map[], env, ops);
  }

  /** A power with a scalar exponent is differentiable exactly when its base
      is, and then follows the constant-power rule with that scalar. */
  lemma PowScalarDerivative<T>(u: Expr<T>, n: T, x: string, ops: Arith<T>)
    ensures Derivative(PowScalar(u, n), x, ops).Success? <==> Derivative(u, x, ops).Success?
    ensures Derivative(u, x, ops).Success? ==>
      Derivative(PowScalar(u, n), x, ops).value
        == Mul(Mul(Const(n), Pow(u, Const(ops.sub(n, ops.one)))), Derivative(u, x, ops).value)
  {
  }
}
