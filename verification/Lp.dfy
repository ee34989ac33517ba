/** Expressions of linear programs, and what they evaluate to. Truth values are 1 and 0. */
module Lp {
  datatype Part = Text(text: string) | Number(number: int)

  datatype Op = Plus | Times | Minus | Div | Lt | LtEq | Gt | GtEq | Equal

  datatype Expr =
    | Const(value: real)
    | Var(parts: seq<Part>)
    | Or(disjuncts: seq<Expr>)
    | And(conjuncts: seq<Expr>)
    | Eq(left: Expr, right: Expr)
    | NotEq(left: Expr, right: Expr)
    | Arith(op: Op, operands: seq<Expr>)
  {
    function Arguments(): (args: seq<Expr>)
      ensures forall i | 0 <= i < |args| :: args[i] < this
    {
      match this
      case Const(_) => []
      case Var(_) => []
      case Or(es) => es
      case And(es) => es
      case Eq(l, r) => [l, r]
      case NotEq(l, r) => [l, r]
      case Arith(_, es) => es
    }

    /** The operator applied to other arguments; one conjunct or disjunct stands for itself. */
    function With(args: seq<Expr>): Expr
      requires |args| == |Arguments()|
    {
      match this
      case Const(_) => this
      case Var(_) => this
      case Or(_) => if |args| == 1 then args[0] else Or(args)
      case And(_) => if |args| == 1 then args[0] else And(args)
      case Eq(_, _) => Eq(args[0], args[1])
      case NotEq(_, _) => NotEq(args[0], args[1])
      case Arith(o, _) => Arith(o, args)
    }

    predicate IsAtomic() {
      Const? || Var?
    }
  }

  type Env = seq<Part> -> real

  function Truth(b: bool): real {
    if b then 1.0 else 0.0
  }

  function Sum(values: seq<real>): real {
    if values == [] then 0.0 else Sum(values[..|values| - 1]) + values[|values| - 1]
  }

  function Product(values: seq<real>): real {
    if values == [] then 1.0 else Product(values[..|values| - 1]) * values[|values| - 1]
  }

  function Apply(op: Op, v: seq<real>): real {
    match op
    case Plus => Sum(v)
    case Times => Product(v)
    case Minus => if v == [] then 0.0 else v[0] - Sum(v[1..])
    case Div => if |v| == 2 && v[1] != 0.0 then v[0] / v[1] else 0.0
    case Lt => Truth(|v| == 2 && v[0] < v[1])
    case LtEq => Truth(|v| == 2 && v[0] <= v[1])
    case Gt => Truth(|v| == 2 && v[0] > v[1])
    case GtEq => Truth(|v| == 2 && v[0] >= v[1])
    case Equal => Truth(|v| == 2 && v[0] == v[1])
  }

  /** The value of an operator, from those of its arguments. */
  function Combine(e: Expr, v: seq<real>): real
    requires !e.IsAtomic() && |v| == |e.Arguments()|
  {
    match e
    case Or(_) => Truth(1.0 in v)
    case And(_) => Truth(forall i | 0 <= i < |v| :: v[i] == 1.0)
    case Eq(_, _) => Truth(v[0] == v[1])
    case NotEq(_, _) => Truth(v[0] != v[1])
    case Arith(op, _) => Apply(op, v)
  }

  function Value(e: Expr, env: Env): real
    decreases e, 1
  {
    match e
    case Const(c) => c
    case Var(parts) => env(parts)
    case _ => Combine(e, ArgumentValues(e, env))
  }

  function ArgumentValues(e: Expr, env: Env): (v: seq<real>)
    ensures |v| == |e.Arguments()|
    decreases e, 0
  {
    seq(|e.Arguments()|, i requires 0 <= i < |e.Arguments()| => Value(e.Arguments()[i], env))
  }

  /** An operator's value depends only on the values of its arguments. */
  lemma SameArguments(e: Expr, args: seq<Expr>, env: Env, env': Env)
    requires !e.IsAtomic() && |args| == |e.Arguments()|
    requires (e.Or? || e.And?) ==> |args| != 1
    requires forall i | 0 <= i < |args| :: Value(args[i], env') == Value(e.Arguments()[i], env)
    ensures Value(e.With(args), env') == Value(e, env)
  {
    var e' := e.With(args);
    assert e'.Arguments() == args;
    assert ArgumentValues(e', env') == ArgumentValues(e, env);
    assert Combine(e', ArgumentValues(e, env)) == Combine(e, ArgumentValues(e, env));
  }

  predicate Holds(e: Expr, env: Env) {
    Value(e, env) == 1.0
  }
}
