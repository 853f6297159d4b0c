/**
 The two sample expressions of the demonstration program, `x^2 + sin(x)`
 over reals and `exp(z) + z^2` over complex numbers, worked through the
 model for an arbitrary scalar domain, together with the two failure
 examples: an unbound variable and a variable exponent.
 */
module Demo {
  import opened Scalars
  import opened Results
  import opened Expressions
  import opened Evaluation
  import opened Differentiation
  import opened Rendering

  /** `pow(x, 2.0) + sin(x)`. */
  function SampleF<T>(ops: Arith<T>): Expr<T>
  {
    Add(PowScalar(Var("x"), ops.two), Sin(Var("x")))
  }

  /** `exp(z) + pow(z, two)` where `two` is the complex literal 2 + 0i. */
  function SampleG<T>(two: T): Expr<T>
  {
    Add(Exp(Var("z")), PowScalar(Var("z"), two))
  }

  /** The derivative of f that the demonstration prints and evaluates. */
  function SampleFDerivative<T>(ops: Arith<T>): Expr<T>
  {
    Add(Mul(Mul(Const(ops.two), Pow(Var("x"), Const(ops.sub(ops.two, ops.one)))), Const(ops.one)),
        Mul(Cos(Var("x")), Const(ops.one)))
  }

  /** f renders fully parenthesised, with the power in function form. */
  lemma SampleFRendering<T>(ops: Arith<T>)
    ensures ToString(SampleF(ops), ops) == "(pow(x, " + ops.show(ops.two) + ") + sin(x))"
  {
    var x := Var("x");
    assert ToString(x, ops) == "x";
    assert ToString(PowScalar(x, ops.two), ops) == "pow(" + "x" + ", " + ops.show(ops.two) + ")";
    assert ToString(Sin(x), ops) == "sin(" + "x" + ")";
  }

  /** f differentiates by the power rule and the sine rule. */
  lemma SampleFDifferentiation<T>(ops: Arith<T>)
    ensures Derivative(SampleF(ops), "x", ops) == Success(SampleFDerivative(ops))
  {
    var x := Var("x");
    assert Derivative(x, "x", ops) == Success(Const(ops.one));
    assert EvaluateClosed(Const(ops.two), ops) == Success(ops.two);
    assert Derivative(PowScalar(x, ops.two), "x", ops)
      == Success(Mul(Mul(Const(ops.two), Pow(x, Const(ops.sub(ops.two, ops.one)))), Const(ops.one)));
    assert Derivative(Sin(x), "x", ops) == Success(Mul(Cos(x), Const(ops.one)));
  }

  /** f evaluates at a bound point to `v^2 + sin(v)`. */
  lemma SampleFEvaluation<T>(ops: Arith<T>, v: T)
    ensures Evaluate(SampleF(ops), map["x" := v], ops) == Success(ops.add(ops.pow(v, ops.two), ops.sin(v)))
  {
    var x, m := Var("x"), map["x" := v];
    assert Evaluate(x, m, ops) == Success(v);
    assert Evaluate(PowScalar(x, ops.two), m, ops) == Success(ops.pow(v, ops.two));
    assert Evaluate(Sin(x), m, ops) == Success(ops.sin(v));
  }

  /** The derivative of f evaluates at a bound point to the unsimplified
      `2 * v^(2-1) * 1 + cos(v) * 1`. */
  lemma SampleFDerivativeEvaluation<T>(ops: Arith<T>, v: T)
    ensures Evaluate(SampleFDerivative(ops), map["x" := v], ops) == Success(
      ops.add(ops.mul(ops.mul(ops.two, ops.pow(v, ops.sub(ops.two, ops.one))), ops.one),
              ops.mul(ops.cos(v), ops.one)))
  {
    var x, m := Var("x"), map["x" := v];
    var n1 := ops.sub(ops.two, ops.one);
    assert Evaluate(x, m, ops) == Success(v);
    assert Evaluate(Pow(x, Const(n1)), m, ops) == Success(ops.pow(v, n1));
    assert Evaluate(Mul(Const(ops.two), Pow(x, Const(n1))), m, ops) == Success(ops.mul(ops.two, ops.pow(v, n1)));
    assert Evaluate(Mul(Cos(x), Const(ops.one)), m, ops) == Success(ops.mul(ops.cos(v), ops.one));
  }

  /** g differentiates by the exponential and power rules and evaluates at
      a bound point. */
  lemma SampleGWorkedThrough<T>(ops: Arith<T>, two: T, w: T)
    ensures Derivative(SampleG(two), "z", ops) == Success(
      Add(Mul(Exp(Var("z")), Const(ops.one)),
          Mul(Mul(Const(two), Pow(Var("z"), Const(ops.sub(two, ops.one)))), Const(ops.one))))
    ensures Evaluate(SampleG(two), map["z" := w], ops) == Success(ops.add(ops.exp(w), ops.pow(w, two)))
  {
    var z, m := Var("z"), map["z" := w];
    assert Derivative(z, "z", ops) == Success(Const(ops.one));
    assert Derivative(Exp(z), "z", ops) == Success(Mul(Exp(z), Const(ops.one)));
    assert EvaluateClosed(Const(two), ops) == Success(two);
    assert Derivative(PowScalar(z, two), "z", ops)
      == Success(Mul(Mul(Const(two), Pow(z, Const(ops.sub(two, ops.one)))), Const(ops.one)));
    assert Evaluate(z, m, ops) == Success(w);
    assert Evaluate(Exp(z), m, ops) == Success(ops.exp(w));
    assert Evaluate(PowScalar(z, two), m, ops) == Success(ops.pow(w, two));
  }

  /** The derivative of g evaluates at a bound point to the unsimplified
      `exp(w) * 1 + 2 * w^(2-1) * 1`. */
  lemma SampleGDerivativeEvaluation<T>(ops: Arith<T>, two: T, w: T)
    ensures Evaluate(Add(Mul(Exp(Var("z")), Const(ops.one)),
                         Mul(Mul(Const(two), Pow(Var("z"), Const(ops.sub(two, ops.one)))), Const(ops.one))),
                     map["z" := w], ops)
      == Success(ops.add(ops.mul(ops.exp(w), ops.one),
                         ops.mul(ops.mul(two, ops.pow(w, ops.sub(two, ops.one))), ops.one)))
  {
    var z, m := Var("z"), map["z" := w];
    var n1 := ops.sub(two, ops.one);
    var left, power := Mul(Exp(z), Const(ops.one)), Mul(Const(two), Pow(z, Const(n1)));
    assert Evaluate(z, m, ops) == Success(w);
    assert Evaluate(Exp(z), m, ops) == Success(ops.exp(w));
    assert Evaluate(left, m, ops) == Success(ops.mul(ops.exp(w), ops.one));
    assert Evaluate(Pow(z, Const(n1)), m, ops) == Success(ops.pow(w, n1));
    assert Evaluate(power, m, ops) == Success(ops.mul(two, ops.pow(w, n1)));
    assert Evaluate(Mul(power, Const(ops.one)), m, ops) == Success(ops.mul(ops.mul(two, ops.pow(w, n1)), ops.one));
  }

  /** Evaluating f with `y` bound but not `x` reports `x` as undefined. */
  lemma SampleFUnbound<T>(ops: Arith<T>, v: T)
    ensures Evaluate(SampleF(ops), map["y" := v], ops) == Failure(UndefinedVariable("x"))
  {
  }

  /** `x^x` and `x^y` both have no derivative with respect to `x`. */
  lemma VariableExponentsFail<T>(ops: Arith<T>)
    ensures Derivative(Pow(Var("x"), Var("x")), "x", ops) == Failure(NonConstantExponent)
    ensures Derivative(Pow(Var("x"), Var("y")), "x", ops) == Failure(NonConstantExponent)
  {
  }
}
