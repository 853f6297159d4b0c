/**
 Substitution of a tree for a variable: every Variable leaf with the given
 name is replaced by the replacement tree, which is inserted as it is and
 never searched again. All other leaves stay; every other node is rebuilt
 over its substituted operands, which only matters for sharing, not for the
 tree's value.
 */
module Substitution {
  import opened Scalars
  import opened Expressions
  import opened Evaluation

  /** `substitute(x, r)`. */
  function Substitute<T>(e: Expr<T>, x: string, r: Expr<T>): (s: Expr<T>)
    ensures x !in Vars(e) ==> s == e
    ensures Vars(s) == (Vars(e) - {x}) + (if x in Vars(e) then Vars(r) else {})
  {
    match e
    case Const(_) => e
    case Var(n) => if n == x then r else e
    case Add(a, b) => Add(Substitute(a, x, r), Substitute(b, x, r))
    case Sub(a, b) => Sub(Substitute(a, x, r), Substitute(b, x, r))
    case Mul(a, b) => Mul(Substitute(a, x, r), Substitute(b, x, r))
    case Div(a, b) => Div(Substitute(a, x, r), Substitute(b, x, r))
    case Pow(a, b) => Pow(Substitute(a, x, r), Substitute(b, x, r))
    case Sin(a) => Sin(Substitute(a, x, r))
    case Cos(a) => Cos(Substitute(a, x, r))
    case Exp(a) => Exp(Substitute(a, x, r))
    case Log(a) => Log(Substitute(a, x, r))
    case Neg(a) => Neg(Substitute(a, x, r))
  }

  /** Substituting into the variable itself yields the replacement. */
  lemma SubstituteVariable<T>(x: string, r: Expr<T>)
    ensures Substitute(Var(x), x, r) == r
  {
  }

  /** The replacement is not searched again, so putting a variable back in
      its own place changes nothing. */
  lemma {:induction false} SubstituteSelf<T>(e: Expr<T>, x: string)
    ensures Substitute(e, x, Var(x)) == e
  {
    match e
    case Const(_) =>
    case Var(_) =>
    case Add(a, b) => SubstituteSelf(a, x); SubstituteSelf(b, x);
    case Sub(a, b) => SubstituteSelf(a, x); SubstituteSelf(b, x);
    case Mul(a, b) => SubstituteSelf(a, x); SubstituteSelf(b, x);
    case Div(a, b) => SubstituteSelf(a, x); SubstituteSelf(b, x);
    case Pow(a, b) => SubstituteSelf(a, x); SubstituteSelf(b, x);
    case Sin(a) => SubstituteSelf(a, x);
    case Cos(a) => SubstituteSelf(a, x);
    case Exp(a) => SubstituteSelf(a, x);
    case Log(a) => SubstituteSelf(a, x);
    case Neg(a) => SubstituteSelf(a, x);
  }

  /** Substituting a constant and then evaluating is evaluating with that
      constant bound to the variable, errors included. */
  lemma {:induction false} SubstituteConstantThenEvaluate<T>(e: Expr<T>, x: string, c: T, m: map<string, T>, ops: Arith<T>)
    ensures Evaluate(Substitute(e, x, Const(c)), m, ops) == Evaluate(e, m[x := c], ops)
  {
    match e
    case Const(_) =>
    case Var(_) =>
    case Add(a, b) => SubstituteConstantThenEvaluate(a, x, c, m, ops); SubstituteConstantThenEvaluate(b, x, c, m, ops);
    case Sub(a, b) => SubstituteConstantThenEvaluate(a, x, c, m, ops); SubstituteConstantThenEvaluate(b, x, c, m, ops);
    case Mul(a, b) => SubstituteConstantThenEvaluate(a, x, c, m, ops); SubstituteConstantThenEvaluate(b, x, c, m, ops);
    case Div(a, b) => SubstituteConstantThenEvaluate(a, x, c, m, ops); SubstituteConstantThenEvaluate(b, x, c, m, ops);
    case Pow(a, b) => SubstituteConstantThenEvaluate(a, x, c, m, ops); SubstituteConstantThenEvaluate(b, x, c, m, ops);
    case Sin(a) => SubstituteConstantThenEvaluate(a, x, c, m, ops);
    case Cos(a) => SubstituteConstantThenEvaluate(a, x, c, m, ops);
    case Exp(a) => SubstituteConstantThenEvaluate(a, x, c, m, ops);
    case Log(a) => SubstituteConstantThenEvaluate(a, x, c, m, ops);
    case Neg(a) => SubstituteConstantThenEvaluate(a, x, c, m, ops);
  }

  /** Substituting a name that does not occur evaluates like the original
      under every binding table. */
  lemma SubstituteAbsentEvaluates<T>(e: Expr<T>, x: string, r: Expr<T>, m: map<string, T>, ops: Arith<T>)
    requires x !in Vars(e)
    ensures Evaluate(Substitute(e, x, r), m, ops) == Evaluate(e, m, ops)
  {
  }
}
