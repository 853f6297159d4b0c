/**
 The expression tree: an immutable tree over a scalar type `T`, with the
 twelve node kinds of the engine. A leaf is a constant or a named variable;
 `Sin`, `Cos`, `Exp`, `Log` and `Neg` have one operand; `Add`, `Sub`, `Mul`,
 `Div` and `Pow` have two. The constructors are the engine's builders
 (`+ - * /`, unary minus, `sin cos exp log pow`), which each put one new node
 over existing trees. The arity invariant of a node is the shape of its
 constructor, so a missing or extra child cannot be written down.
 */
module Expressions {
  import opened Scalars

  datatype Expr<T> =
    | Const(value: T)
    | Var(name: string)
    | Add(left: Expr<T>, right: Expr<T>)
    | Sub(left: Expr<T>, right: Expr<T>)
    | Mul(left: Expr<T>, right: Expr<T>)
    | Div(left: Expr<T>, right: Expr<T>)
    | Pow(left: Expr<T>, right: Expr<T>)
    | Sin(arg: Expr<T>)
    | Cos(arg: Expr<T>)
    | Exp(arg: Expr<T>)
    | Log(arg: Expr<T>)
    | Neg(arg: Expr<T>)
  {
    predicate IsLeaf() {
      Const? || Var?
    }

    predicate IsUnary() {
      Sin? || Cos? || Exp? || Log? || Neg?
    }

    predicate IsBinary() {
      Add? || Sub? || Mul? || Div? || Pow?
    }
  }

  /** The two ways an operation of the engine can fail. */
  datatype Error =
    | UndefinedVariable(name: string)  // evaluation met an unbound variable
    | NonConstantExponent              // differentiation met `u^v` with `v` not constant

  /** The default-constructed expression: the constant zero. */
  function Zero<T>(ops: Arith<T>): (e: Expr<T>)
    ensures IsConstant(e) && !IsVariable(e)
    ensures e.Const? && e.value == ops.zero
  {
    Const(ops.zero)
  }

  /** `pow` with a scalar exponent: the exponent becomes a constant leaf. */
  function PowScalar<T>(base: Expr<T>, n: T): (e: Expr<T>)
    ensures e.Pow? && e.left == base && IsConstant(e.right)
    ensures Vars(e) == Vars(base)
  {
    Pow(base, Const(n))
  }

  /** The names of all Variable leaves of `e`: the reference against which
      the engine's recursive checks are stated. */
  function Vars<T>(e: Expr<T>): set<string>
  {
    match e
    case Const(_) => {}
    case Var(n) => {n}
    case Add(a, b) => Vars(a) + Vars(b)
    case Sub(a, b) => Vars(a) + Vars(b)
    case Mul(a, b) => Vars(a) + Vars(b)
    case Div(a, b) => Vars(a) + Vars(b)
    case Pow(a, b) => Vars(a) + Vars(b)
    case Sin(a) => Vars(a)
    case Cos(a) => Vars(a)
    case Exp(a) => Vars(a)
    case Log(a) => Vars(a)
    case Neg(a) => Vars(a)
  }

  /** Every subtree of `e`, `e` included. */
  ghost function Subterms<T>(e: Expr<T>): set<Expr<T>>
  {
    match e
    case Const(_) => {e}
    case Var(_) => {e}
    case Add(a, b) => {e} + Subterms(a) + Subterms(b)
    case Sub(a, b) => {e} + Subterms(a) + Subterms(b)
    case Mul(a, b) => {e} + Subterms(a) + Subterms(b)
    case Div(a, b) => {e} + Subterms(a) + Subterms(b)
    case Pow(a, b) => {e} + Subterms(a) + Subterms(b)
    case Sin(a) => {e} + Subterms(a)
    case Cos(a) => {e} + Subterms(a)
    case Exp(a) => {e} + Subterms(a)
    case Log(a) => {e} + Subterms(a)
    case Neg(a) => {e} + Subterms(a)
  }

  /** The engine's `isConstant`: a recursive check that no Variable leaf
      occurs, following the arity of each node kind. */
  predicate IsConstant<T>(e: Expr<T>)
    ensures IsConstant(e) <==> Vars(e) == {}
  {
    match e
    case Const(_) => true
    case Var(_) => false
    case Add(a, b) => IsConstant(a) && IsConstant(b)
    case Sub(a, b) => IsConstant(a) && IsConstant(b)
    case Mul(a, b) => IsConstant(a) && IsConstant(b)
    case Div(a, b) => IsConstant(a) && IsConstant(b)
    case Pow(a, b) => IsConstant(a) && IsConstant(b)
    case Sin(a) => IsConstant(a)
    case Cos(a) => IsConstant(a)
    case Exp(a) => IsConstant(a)
    case Log(a) => IsConstant(a)
    case Neg(a) => IsConstant(a)
  }

  /** The engine's `isVariable()`: a check of the root only. A variable
      root makes the tree non-constant with exactly that one variable; a
      compound root never passes, whatever variables lie below it. */
  predicate IsVariable<T>(e: Expr<T>)
    ensures IsVariable(e) ==> e.Var? && !IsConstant(e) && Vars(e) == {e.name}
    ensures e.Var? ==> IsVariable(e)
    ensures !e.IsLeaf() ==> !IsVariable(e)
  {
    e.Var?
  }

  /** The engine's `isVariable(name)`: the root is that variable. It
      implies `isVariable()`, and the tree's only variable is `name`. */
  predicate IsVariableNamed<T>(e: Expr<T>, name: string)
    ensures IsVariableNamed(e, name) ==> IsVariable(e) && Vars(e) == {name}
    ensures e == Var(name) ==> IsVariableNamed(e, name)
    ensures !e.IsLeaf() ==> !IsVariableNamed(e, name)
  {
    e.Var? && e.name == name
  }

  /** The two checks agree: `isVariable(n)` implies `isVariable()` and so
      that the tree is not constant, and `isVariable()` holds exactly when
      `isVariable(n)` holds for some name. */
  lemma VariableChecks<T>(e: Expr<T>, n: string)
    ensures IsVariableNamed(e, n) ==> IsVariable(e) && !IsConstant(e)
    ensures IsVariable(e) <==> exists m :: IsVariableNamed(e, m)
  {
    if IsVariable(e) {
      assert IsVariableNamed(e, e.name);
    }
  }

  /** A subtree's variables are variables of the whole tree. */
  lemma {:induction false} SubtermVars<T>(e: Expr<T>, s: Expr<T>)
    requires s in Subterms(e)
    ensures Vars(s) <= Vars(e)
  {
    if s != e {
      match e
      case Const(_) =>
      case Var(_) =>
      case Add(a, b) => if s in Subterms(a) { SubtermVars(a, s); } else { SubtermVars(b, s); }
      case Sub(a, b) => if s in Subterms(a) { SubtermVars(a, s); } else { SubtermVars(b, s); }
      case Mul(a, b) => if s in Subterms(a) { SubtermVars(a, s); } else { SubtermVars(b, s); }
      case Div(a, b) => if s in Subterms(a) { SubtermVars(a, s); } else { SubtermVars(b, s); }
      case Pow(a, b) => if s in Subterms(a) { SubtermVars(a, s); } else { SubtermVars(b, s); }
      case Sin(a) => SubtermVars(a, s);
      case Cos(a) => SubtermVars(a, s);
      case Exp(a) => SubtermVars(a, s);
      case Log(a) => SubtermVars(a, s);
      case Neg(a) => SubtermVars(a, s);
    }
  }

  /** `isConstant` holds exactly when no subtree is a Variable leaf. */
  lemma {:induction false} IsConstantIffNoVariableLeaf<T>(e: Expr<T>)
    ensures IsConstant(e) <==> forall s :: s in Subterms(e) ==> !s.Var?
  {
    if IsConstant(e) {
      forall s | s in Subterms(e) ensures !s.Var? {
        SubtermVars(e, s);
      }
    } else {
      var n :| n in Vars(e);
      var s := VariableLeafOf(e, n);
    }
  }

  /** A witness: the Variable leaf named `n` inside `e`. */
  lemma {:induction false} VariableLeafOf<T>(e: Expr<T>, n: string) returns (s: Expr<T>)
    requires n in Vars(e)
    ensures s in Subterms(e) && s == Var(n)
  {
    match e
    case Const(_) =>
    case Var(_) => s := e;
    case Add(a, b) => if n in Vars(a) { s := VariableLeafOf(a, n); } else { s := VariableLeafOf(b, n); }
    case Sub(a, b) => if n in Vars(a) { s := VariableLeafOf(a, n); } else { s := VariableLeafOf(b, n); }
    case Mul(a, b) => if n in Vars(a) { s := VariableLeafOf(a, n); } else { s := VariableLeafOf(b, n); }
    case Div(a, b) => if n in Vars(a) { s := VariableLeafOf(a, n); } else { s := VariableLeafOf(b, n); }
    case Pow(a, b) => if n in Vars(a) { s := VariableLeafOf(a, n); } else { s := VariableLeafOf(b, n); }
    case Sin(a) => s := VariableLeafOf(a, n);
    case Cos(a) => s := VariableLeafOf(a, n);
    case Exp(a) => s := VariableLeafOf(a, n);
    case Log(a) => s := VariableLeafOf(a, n);
    case Neg(a) => s := VariableLeafOf(a, n);
  }
}
