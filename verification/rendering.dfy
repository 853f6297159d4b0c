/**
 Rendering an expression as text: constants through the scalar's own
 textual form, variables as their name, the four arithmetic operators fully
 parenthesised and infix, and every other node in function form, so the
 output never depends on operator precedence.
 */
module Rendering {
  import opened Scalars
  import opened Expressions

  /** `toString()`. Its contract restates the rendering as the token
      table `Opener` / `Separator`: a leaf is its own text, a binary node is
      its opener, left operand, separator, right operand and `)`, and a
      unary node is its opener, operand and `)`. */
  function ToString<T>(e: Expr<T>, ops: Arith<T>): (r: string)
    ensures e.Const? ==> r == ops.show(e.value)
    ensures e.Var? ==> r == e.name
    ensures e.IsBinary() ==> r == Opener(e) + ToString(e.left, ops) + Separator(e) + ToString(e.right, ops) + ")"
    ensures e.IsUnary() ==> r == Opener(e) + ToString(e.arg, ops) + ")"
  {
    match e
    case Const(c) => ops.show(c)
    case Var(n) => n
    case Add(a, b) => "(" + ToString(a, ops) + " + " + ToString(b, ops) + ")"
    case Sub(a, b) => "(" + ToString(a, ops) + " - " + ToString(b, ops) + ")"
    case Mul(a, b) => "(" + ToString(a, ops) + " * " + ToString(b, ops) + ")"
    case Div(a, b) => "(" + ToString(a, ops) + " / " + ToString(b, ops) + ")"
    case Pow(a, b) => "pow(" + ToString(a, ops) + ", " + ToString(b, ops) + ")"
    case Sin(a) => "sin(" + ToString(a, ops) + ")"
    case Cos(a) => "cos(" + ToString(a, ops) + ")"
    case Exp(a) => "exp(" + ToString(a, ops) + ")"
    case Log(a) => "log(" + ToString(a, ops) + ")"
    case Neg(a) => "-(" + ToString(a, ops) + ")"
  }

  /** Reads `s` left to right from nesting depth `depth`: the depth at the
      end, or -1 if a closing parenthesis has no opening one. */
  function Scan(s: string, depth: nat): (d: int)
    ensures d >= -1
  {
    if |s| == 0 then depth
    else if s[0] == '(' then Scan(s[1..], depth + 1)
    else if s[0] == ')' then (if depth == 0 then -1 else Scan(s[1..], depth - 1))
    else Scan(s[1..], depth)
  }

  /** Every closing parenthesis closes an earlier opening one, and all are
      closed. */
  predicate Balanced(s: string)
  {
    Scan(s, 0) == 0
  }

  /** Every variable name and every constant's text in `e` is balanced. */
  predicate LeavesBalanced<T>(e: Expr<T>, ops: Arith<T>)
  {
    match e
    case Const(c) => Balanced(ops.show(c))
    case Var(n) => Balanced(n)
    case Add(a, b) => LeavesBalanced(a, ops) && LeavesBalanced(b, ops)
    case Sub(a, b) => LeavesBalanced(a, ops) && LeavesBalanced(b, ops)
    case Mul(a, b) => LeavesBalanced(a, ops) && LeavesBalanced(b, ops)
    case Div(a, b) => LeavesBalanced(a, ops) && LeavesBalanced(b, ops)
    case Pow(a, b) => LeavesBalanced(a, ops) && LeavesBalanced(b, ops)
    case Sin(a) => LeavesBalanced(a, ops)
    case Cos(a) => LeavesBalanced(a, ops)
    case Exp(a) => LeavesBalanced(a, ops)
    case Log(a) => LeavesBalanced(a, ops)
    case Neg(a) => LeavesBalanced(a, ops)
  }

  /** Scanning a concatenation scans the first part, then the second from
      where the first left off. */
  lemma {:induction false} ScanConcat(a: string, b: string, depth: nat)
    ensures Scan(a + b, depth) == (if Scan(a, depth) < 0 then -1 else Scan(b, Scan(a, depth)))
  {
    if |a| > 0 {
      assert (a + b)[0] == a[0];
      assert (a + b)[1..] == a[1..] + b;
      if a[0] == '(' {
        ScanConcat(a[1..], b, depth + 1);
      } else if a[0] == ')' {
        if depth > 0 {
          ScanConcat(a[1..], b, depth - 1);
        }
      } else {
        ScanConcat(a[1..], b, depth);
      }
    } else {
      assert a + b == b;
    }
  }

  /** Starting one level deeper ends one level deeper, unless the scan
      failed. */
  lemma {:induction false} ScanDeeper(s: string, depth: nat)
    requires Scan(s, depth) >= 0
    ensures Scan(s, depth + 1) == Scan(s, depth) + 1
  {
    if |s| > 0 {
      if s[0] == '(' {
        ScanDeeper(s[1..], depth + 1);
      } else if s[0] == ')' {
        ScanDeeper(s[1..], depth - 1);
      } else {
        ScanDeeper(s[1..], depth);
      }
    }
  }

  lemma BalancedConcat(a: string, b: string)
    requires Balanced(a) && Balanced(b)
    ensures Balanced(a + b)
  {
    ScanConcat(a, b, 0);
  }

  /** `head(body)` is balanced when `head` and `body` are. */
  lemma BalancedCall(head: string, body: string)
    requires Balanced(head) && Balanced(body)
    ensures Balanced(head + "(" + body + ")")
  {
    var wrapped := "(" + body + ")";
    assert wrapped[0] == '(' && wrapped[1..] == body + ")";
    ScanConcat(body, ")", 1);
    ScanDeeper(body, 0);
    assert Scan(")", 1) == Scan("", 0) == 0;
    assert Scan(wrapped, 0) == Scan(body + ")", 1) == 0;
    BalancedConcat(head, wrapped);
    assert head + wrapped == head + "(" + body + ")";
  }

  /** `opener body)` is balanced when `opener` is a balanced head word
      followed by `(`, and `body` is balanced. */
  lemma BalancedOpened(opener: string, body: string)
    requires |opener| > 0 && opener[|opener| - 1] == '('
    requires Balanced(opener[..|opener| - 1]) && Balanced(body)
    ensures Balanced(opener + body + ")")
  {
    var head := opener[..|opener| - 1];
    assert opener == head + "(";
    BalancedCall(head, body);
  }

  /** `opener l sep r)` is balanced when its parts are. */
  lemma BalancedInfixCall(opener: string, l: string, sep: string, r: string)
    requires |opener| > 0 && opener[|opener| - 1] == '('
    requires Balanced(opener[..|opener| - 1])
    requires Balanced(l) && Balanced(sep) && Balanced(r)
    ensures Balanced(opener + l + sep + r + ")")
  {
    BalancedConcat(l, sep);
    BalancedConcat(l + sep, r);
    BalancedOpened(opener, l + sep + r);
    assert opener + (l + sep + r) + ")" == opener + l + sep + r + ")";
  }

  /** Parentheses in the rendering are balanced whenever the variable names
      and the constants' text are. */
  lemma {:induction false} ToStringBalanced<T>(e: Expr<T>, ops: Arith<T>)
    requires LeavesBalanced(e, ops)
    ensures Balanced(ToString(e, ops))
  {
    if e.IsBinary() {
      ToStringBalanced(e.left, ops);
      ToStringBalanced(e.right, ops);
      OpenerHead(e);
      ScanPlain(Separator(e), 0);
      BalancedInfixCall(Opener(e), ToString(e.left, ops), Separator(e), ToString(e.right, ops));
    } else if e.IsUnary() {
      ToStringBalanced(e.arg, ops);
      OpenerHead(e);
      BalancedOpened(Opener(e), ToString(e.arg, ops));
    }
  }

  /** The text a non-leaf node's rendering opens with: a parenthesis for
      the four infix operators, else the function's name and its
      parenthesis. */
  function Opener<T>(e: Expr<T>): (o: string)
    requires !e.IsLeaf()
    ensures |o| > 0 && o[|o| - 1] == '('
  {
    match e
    case Pow(_, _) => "pow("
    case Sin(_) => "sin("
    case Cos(_) => "cos("
    case Exp(_) => "exp("
    case Log(_) => "log("
    case Neg(_) => "-("
    case _ => "("
  }

  /** Text without parentheses is balanced from any depth. */
  lemma {:induction false} ScanPlain(s: string, depth: nat)
    requires forall i :: 0 <= i < |s| ==> s[i] != '(' && s[i] != ')'
    ensures Scan(s, depth) == depth
  {
    if |s| > 0 {
      ScanPlain(s[1..], depth);
    }
  }

  /** The word before an opener's parenthesis is balanced. */
  lemma OpenerHead<T>(e: Expr<T>)
    requires !e.IsLeaf()
    ensures Balanced(Opener(e)[..|Opener(e)| - 1])
  {
    var o := Opener(e);
    ScanPlain(o[..|o| - 1], 0);
  }

  /** The text between the two operands of a binary node. */
  function Separator<T>(e: Expr<T>): (sep: string)
    requires e.IsBinary()
    ensures forall i :: 0 <= i < |sep| ==> sep[i] != '(' && sep[i] != ')'
  {
    match e
    case Add(_, _) => " + "
    case Sub(_, _) => " - "
    case Mul(_, _) => " * "
    case Div(_, _) => " / "
    case Pow(_, _) => ", "
  }

  /** `s` is `opener`, then a balanced body, then the closing parenthesis
      that matches the one `opener` ends with. */
  predicate IsCall(s: string, opener: string)
  {
    && |s| >= |opener| + 1
    && s[..|opener|] == opener
    && s[|s| - 1] == ')'
    && Balanced(s[|opener|..|s| - 1])
  }

  lemma CallShape(opener: string, body: string)
    requires Balanced(body)
    ensures IsCall(opener + body + ")", opener)
  {
    var s := opener + body + ")";
    assert s[..|opener|] == opener;
    assert s[|opener|..|s| - 1] == body;
  }

  /** `opener l op r)` with balanced parts has the call shape. */
  lemma InfixShape(opener: string, l: string, op: string, r: string)
    requires Balanced(l) && Balanced(op) && Balanced(r)
    ensures IsCall(opener + l + op + r + ")", opener)
  {
    BalancedConcat(l, op);
    BalancedConcat(l + op, r);
    CallShape(opener, l + op + r);
    assert opener + (l + op + r) + ")" == opener + l + op + r + ")";
  }

  /** Leaves render as their own text; every other node renders as its
      opener and a balanced body closed by the parenthesis matching the
      opener's, so the node's parentheses enclose its whole rendering. */
  lemma RenderedForm<T>(e: Expr<T>, ops: Arith<T>)
    requires LeavesBalanced(e, ops)
    ensures e.Var? ==> ToString(e, ops) == e.name
    ensures e.Const? ==> ToString(e, ops) == ops.show(e.value)
    ensures !e.IsLeaf() ==> IsCall(ToString(e, ops), Opener(e))
  {
    if e.IsBinary() {
      ToStringBalanced(e.left, ops);
      ToStringBalanced(e.right, ops);
      ScanPlain(Separator(e), 0);
      InfixShape(Opener(e), ToString(e.left, ops), Separator(e), ToString(e.right, ops));
    } else if e.IsUnary() {
      ToStringBalanced(e.arg, ops);
      CallShape(Opener(e), ToString(e.arg, ops));
    }
  }
}
