/**
 The scalar domain an expression is built over. The engine is generic in its
 scalar type (real or complex numbers); nothing in it depends on what the
 arithmetic actually computes. The scalar is therefore a type parameter `T`
 together with an `Arith<T>` record of operations that the model never
 inspects: every property proved about the engine holds for every choice of
 these operations.
 */
module Scalars {

  /** The scalar operations the engine uses. `zero`, `one` and `two` are the
      literals `T(0)`, `T(1)` and `T(2)`; `show` is the textual form a
      constant is rendered with. */
  datatype Arith<!T> = Arith(
    zero: T,
    one: T,
    two: T,
    add: (T, T) -> T,
    sub: (T, T) -> T,
    mul: (T, T) -> T,
    div: (T, T) -> T,
    pow: (T, T) -> T,
    sin: T -> T,
    cos: T -> T,
    exp: T -> T,
    log: T -> T,
    neg: T -> T,
    show: T -> string
  )
}
