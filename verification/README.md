# Symbolic expression engine — a Dafny model

This project models the expression engine of a small C++ symbolic-algebra
library. An expression is an immutable tree over a scalar type (the library
instantiates it for `double` and `complex<double>`). The tree has twelve node
kinds: constant and variable leaves; `sin`, `cos`, `exp`, `log` and negation
with one operand; and `+`, `-`, `*`, `/` and `pow` with two. The engine
evaluates a tree under variable bindings, differentiates it symbolically with
respect to one variable, substitutes a tree for a variable, renders it as
fully parenthesised text, and answers `isConstant` / `isVariable` queries.

Layout, one module per file:

- `scalars.dfy` (`Scalars`): the scalar domain as a type parameter `T` with a
  record `Arith<T>` of operations (`zero`, `one`, `two`, the arithmetic and
  transcendental functions, and the textual form `show`). The model never
  looks inside them, so every result holds for real, complex or any other
  scalars.
- `results.dfy` (`Results`): the `Result` type that replaces the engine's
  exceptions.
- `expressions.dfy` (`Expressions`): the tree `Expr<T>` and its builders.
  The constructors are the builders. `Zero` is the default expression and
  `PowScalar` is `pow` with a scalar exponent. The module also holds the
  error kinds (`UndefinedVariable(name)`, `NonConstantExponent`), the
  variable set `Vars`, and `isConstant` / `isVariable`.
- `evaluation.dfy` (`Evaluation`): `evaluate`, with and without bindings.
  It also has a reference denotation `Value`.
- `differentiation.dfy` (`Differentiation`): `derivative` and its failure
  condition.
- `substitution.dfy` (`Substitution`): `substitute`.
- `rendering.dfy` (`Rendering`): `toString` and a parenthesis scanner used to
  state balance.
- `demo.dfy` (`Demo`): the two sample expressions of the demonstration
  program, worked through the model.

Modelling decisions:

- Evaluation evaluates the left operand first. C++ leaves the order of the
  two operand evaluations unspecified. So when several variables are unbound,
  the contracts only promise that the reported name occurs in the tree and
  is unbound. They do not say which one is reported.
- `substitute` (src/expression.cpp:242-251) rebuilds every internal node,
  because a recursive call never returns null. The model does the same;
  sharing cannot be observed, only the tree's structure.
- `derivative` checks `isConstant` on a power's exponent before it
  differentiates the base. Every failure is the same `NonConstantExponent`,
  so that order cannot be observed.

## Model

| member | source | states |
|---|---|---|
| Expressions.Zero | src/expression.cpp:41-42 | the default expression is the constant leaf holding the scalar zero, so it is constant and not a variable |
| Evaluation.ZeroEvaluatesToZero | src/expression.cpp:41-42 | the default expression evaluates to the scalar zero under any bindings |
| Expressions.PowScalar | expression.hpp:195-198 | `pow` with a scalar exponent builds a power over the base with a constant exponent and has the base's variables |
| Expressions.IsConstant | src/expression.cpp:295-317 | `isConstant` holds exactly when the tree has no variables |
| Expressions.IsConstantIffNoVariableLeaf | src/expression.cpp:295-317 | `isConstant` holds exactly when no subtree is a Variable leaf |
| Expressions.IsVariable | src/expression.cpp:319-322 | `isVariable()` checks the root only: every Variable root passes, and when it holds the tree is not constant and its only variable is the root's name; no compound root passes |
| Expressions.IsVariableNamed | src/expression.cpp:324-327 | `isVariable(n)` checks the root only: the Variable leaf named `n` passes, and when it holds, `isVariable()` holds and `n` is the tree's only variable; no compound root passes |
| Expressions.VariableChecks | src/expression.cpp:319-327 | `isVariable(n)` implies `isVariable()` and that the tree is not constant; `isVariable()` holds exactly when `isVariable(n)` holds for some name |
| Evaluation.Evaluate | src/expression.cpp:107-144 | evaluation fails exactly when some variable of the tree is unbound, and then reports `UndefinedVariable` with a name that occurs and is unbound |
| Evaluation.EvaluateClosed | expression.hpp:77 | evaluation with no bindings succeeds exactly for constant trees |
| Evaluation.EvaluateIsValue | src/expression.cpp:117-141 | with every variable bound, evaluation succeeds with the post-order fold of the scalar operations over the tree |
| Evaluation.EvaluateDependsOnlyOnVars | src/expression.cpp:112-116 | two binding tables that agree on the tree's variables give the same outcome, value or error |
| Evaluation.ExtraBindingsIgnored | src/expression.cpp:112-116 | adding bindings for names absent from the tree changes nothing |
| Differentiation.Derivative | src/expression.cpp:152-233 | differentiation succeeds exactly when every power's exponent is constant; its only error is `NonConstantExponent` |
| Differentiation.AllExponentsConstantIff | src/expression.cpp:186-200 | the differentiator's exponent check holds exactly when no subtree is a power whose exponent contains a variable |
| Differentiation.DerivativeFailsIff | src/expression.cpp:186-200 | differentiation fails exactly when some power's exponent contains a variable, whatever that variable and the differentiation variable are |
| Differentiation.LeafAndLinearRules | src/expression.cpp:156-166 | a constant differentiates to 0; a variable to 1 if it is the differentiation variable, else 0; sums and differences differentiate operand-wise and fail when an operand does |
| Differentiation.ProductAndQuotientRules | src/expression.cpp:167-185 | `(uv)' = u'v + uv'` and `(u/v)' = (u'v - uv') / pow(v, 2)`, unsimplified, failing when an operand's derivative fails |
| Differentiation.ChainRules | src/expression.cpp:202-230 | `sin(u)' = cos(u) u'`, `cos(u)' = -(sin(u)) u'`, `exp(u)' = exp(u) u'`, `log(u)' = u' / u`, `(-u)' = -(u')`, each failing when `u'` fails |
| Differentiation.DerivativeVars | src/expression.cpp:156-230 | every variable of a derivative already occurs in the original tree |
| Differentiation.DerivativeDifferentiable | src/expression.cpp:167-230 | a derivative has only constant exponents, so it can be differentiated again |
| Differentiation.DerivativeOfConstant | src/expression.cpp:156-233 | the derivative of a constant tree exists and is constant |
| Differentiation.PowerRule | src/expression.cpp:186-199 | a power whose exponent is any constant tree is differentiable exactly when its base is, and then gives `n * u^(n-1) * du` with `n` the exponent's value |
| Differentiation.PowScalarDerivative | src/expression.cpp:186-199 | a power with a scalar exponent `n` is differentiable exactly when its base is, and then gives `n * u^(n-1) * du` |
| Substitution.Substitute | src/expression.cpp:236-252 | substituting a name that does not occur returns the tree unchanged; the result's variables are the original's minus the name, plus the replacement's when the name occurred |
| Substitution.SubstituteVariable | src/expression.cpp:238-240 | substituting into the variable itself yields the replacement |
| Substitution.SubstituteSelf | src/expression.cpp:236-252 | the replacement is not searched again: substituting a variable by itself is the identity |
| Substitution.SubstituteConstantThenEvaluate | src/expression.cpp:236-252 | substituting a constant and evaluating equals evaluating with that constant bound to the name, errors included |
| Substitution.SubstituteAbsentEvaluates | src/expression.cpp:236-252 | substituting an absent name evaluates like the original under every binding table |
| Rendering.ToString | src/expression.cpp:255-292 | `toString` follows the source's token table: a constant is its text, a variable its name, a binary node is its opener (`(` or `pow(`), left operand, separator (` + `, ` - `, ` * `, ` / `, `, `), right operand and `)`, a unary node is its opener (`sin(`, `cos(`, `exp(`, `log(`, `-(`), operand and `)` |
| Rendering.ToStringBalanced | src/expression.cpp:255-292 | the rendering's parentheses are balanced whenever variable names and constants' text are |
| Rendering.RenderedForm | src/expression.cpp:255-292 | a variable renders as its name and a constant as its text; every other node renders as its opener (`(`, `pow(`, `sin(`, `cos(`, `exp(`, `log(`, `-(`) followed by a balanced body and the matching `)` |
| Demo.SampleFRendering | src/eval.cpp:8-11 | `pow(x, 2) + sin(x)` renders as `(pow(x, 2) + sin(x))` |
| Demo.SampleFDifferentiation | src/eval.cpp:13-14 | its derivative is `2 * x^(2-1) * 1 + cos(x) * 1`, unsimplified |
| Demo.SampleFEvaluation | src/eval.cpp:16-17 | the expression evaluates at a bound `x = v` to `v^2 + sin(v)` |
| Demo.SampleFDerivativeEvaluation | src/eval.cpp:16-18 | its derivative evaluates at a bound `x = v` to `2 * v^(2-1) * 1 + cos(v) * 1` |
| Demo.SampleGWorkedThrough | src/eval.cpp:20-29 | `exp(z) + pow(z, 2)` differentiates to `exp(z) * 1 + 2 * z^(2-1) * 1` and evaluates at a bound `z` |
| Demo.SampleGDerivativeEvaluation | src/eval.cpp:25-30 | g's derivative evaluates at a bound `z = w` to `exp(w) * 1 + 2 * w^(2-1) * 1` |
| Demo.SampleFUnbound | src/expression.cpp:112-116 | evaluating `x^2 + sin(x)` with only `y` bound reports `x` as undefined |
| Demo.VariableExponentsFail | src/expression.cpp:186-200 | `x^x` and `x^y` have no derivative with respect to `x` |

## Left out

- Numeric meaning of the scalar: `double` and `complex<double>` arithmetic, `std::pow`, `sin`, `cos`, `exp` and `log`, division by zero, NaN and infinity. They are floating point, so the operations stay uninterpreted in `Arith<T>`.
- Text of a constant: `stringstream` formatting of a float or complex value is library behaviour and is modelled by the uninterpreted `show`.
- `shared_ptr` ownership, reference counts and structural sharing: sharing cannot be observed for immutable values, and null children become the arity of each constructor.
- The fall-through defaults after each `switch` (src/expression.cpp:143, 232, 291, 316): no other node kinds exist, so they cannot be reached.
- `simplify` is declared in the headers but never defined.
- The text of the exception messages, and which unbound name is reported when several are missing.
- Console output of the demonstration program: its expressions are covered by the `Demo` lemmas.
- include/expression.hpp repeats the declarations and free-function wrappers of expression.hpp and adds no behaviour.
- Recursion depth: the C++ recursion can exhaust the call stack on very deep trees, which the model does not bound.
