/** From flat equations to linear constraints: no conjunctions, no disjunctions, no indicators. */
module LpIndicator {
  import opened Syntax
  import opened Lp

  type Bounds = map<seq<Part>, real>

  const MIN_THRESHOLD: real := 0.00001

  // ---------------------------------------------------------------------------
  // And, or

  /** A conjunction becomes a product and a disjunction a sum; their own arguments stay as they are. */
  function RemoveAndOr(e: Expr): Expr
    decreases e
  {
    match e
    case Const(_) => e
    case Var(_) => e
    case And(es) => Arith(Times, es)
    case Or(es) => Arith(Plus, es)
    case _ => e.With(seq(|e.Arguments()|, i requires 0 <= i < |e.Arguments()| => RemoveAndOr(e.Arguments()[i])))
  }

  predicate AllBoolean(v: seq<real>) {
    forall i | 0 <= i < |v| :: v[i] == 0.0 || v[i] == 1.0
  }

  predicate AllOnes(v: seq<real>) {
    forall i | 0 <= i < |v| :: v[i] == 1.0
  }

  lemma {:induction false} ProductIsAnd(v: seq<real>)
    requires AllBoolean(v)
    ensures Product(v) == Truth(AllOnes(v))
    decreases |v|
  {
    if v != [] {
      ProductIsAnd(v[..|v| - 1]);
      assert AllOnes(v) <==> AllOnes(v[..|v| - 1]) && v[|v| - 1] == 1.0;
    }
  }

  function CountOnes(v: seq<real>): nat {
    if v == [] then 0 else CountOnes(v[..|v| - 1]) + if v[|v| - 1] == 1.0 then 1 else 0
  }

  lemma {:induction false} SumCountsOnes(v: seq<real>)
    requires AllBoolean(v)
    ensures Sum(v) == CountOnes(v) as real
    ensures 1.0 in v <==> CountOnes(v) > 0
    decreases |v|
  {
    if v != [] {
      var w := v[..|v| - 1];
      SumCountsOnes(w);
      assert 1.0 in v <==> 1.0 in w || v[|v| - 1] == 1.0;
    }
  }

  /** A product of indicators is their conjunction; a sum is their disjunction exactly if at most one is true. */
  lemma RemovedAndOrValue(e: Expr, env: Env)
    requires (e.And? || e.Or?) && AllBoolean(ArgumentValues(e, env))
    ensures e.And? ==> Value(RemoveAndOr(e), env) == Value(e, env)
    ensures e.Or? ==> (Value(RemoveAndOr(e), env) == Value(e, env) <==> CountOnes(ArgumentValues(e, env)) <= 1)
  {
    var v := ArgumentValues(e, env);
    assert ArgumentValues(RemoveAndOr(e), env) == v;
    ProductIsAnd(v);
    SumCountsOnes(v);
  }

  /** A sum of two indicators that are both true is not their disjunction. */
  lemma TwoTrueDisjuncts(x: seq<Part>, y: seq<Part>, env: Env)
    requires env(x) == 1.0 && env(y) == 1.0
    ensures var e := Or([Var(x), Var(y)]);
            AllBoolean(ArgumentValues(e, env)) && Value(e, env) == 1.0 && Value(RemoveAndOr(e), env) == 2.0
  {
    var e := Or([Var(x), Var(y)]);
    var v := ArgumentValues(e, env);
    assert v == [1.0, 1.0];
    assert ArgumentValues(RemoveAndOr(e), env) == v;
    RemovedAndOrValue(e, env);
    SumCountsOnes(v);
    assert v[..1] == [1.0] && v[..1][..0] == [];
    assert CountOnes(v) == CountOnes(v[..1]) + 1 && CountOnes(v[..1]) == 1;
    assert Value(RemoveAndOr(e), env) == Sum(v);
  }

  /** The indicators an expression joins are 0 or 1, and of those that are alternatives at most one is 1. */
  predicate IsExclusive(e: Expr, env: Env)
    decreases e
  {
    match e
    case Const(_) => true
    case Var(_) => true
    case And(_) => AllBoolean(ArgumentValues(e, env))
    case Or(_) => AllBoolean(ArgumentValues(e, env)) && CountOnes(ArgumentValues(e, env)) <= 1
    case _ => forall i | 0 <= i < |e.Arguments()| :: IsExclusive(e.Arguments()[i], env)
  }

  lemma {:induction false} RemoveAndOrKeepsValue(e: Expr, env: Env)
    requires IsExclusive(e, env)
    ensures Value(RemoveAndOr(e), env) == Value(e, env)
    decreases e
  {
    if e.And? || e.Or? {
      RemovedAndOrValue(e, env);
    } else if !e.IsAtomic() {
      var args := seq(|e.Arguments()|, i requires 0 <= i < |e.Arguments()| => RemoveAndOr(e.Arguments()[i]));
      forall i | 0 <= i < |args|
        ensures Value(args[i], env) == Value(e.Arguments()[i], env)
      {
        RemoveAndOrKeepsValue(e.Arguments()[i], env);
      }
      SameArguments(e, args, env, env);
    }
  }

  // ---------------------------------------------------------------------------
  // Comparisons as A < 0

  predicate IsBoolArith(e: Expr) {
    e.Arith? && e.op in {Lt, LtEq, Gt, GtEq, Equal}
  }

  function Difference(a: Expr, b: Expr): Expr {
    Arith(Minus, [a, b])
  }

  /** The left side A of an equivalent A < 0; None for operators that are not inequalities. */
  function ArithToLtZero(e: Expr): Option<Expr>
    requires e.Arith?
  {
    if |e.operands| < 2 then None
    else
      var lhs, rhs := e.operands[0], e.operands[1];
      match e.op
      case Lt => Some(Difference(lhs, rhs))
      case LtEq => Some(Difference(Difference(lhs, rhs), Const(MIN_THRESHOLD)))
      case Gt => Some(Difference(rhs, lhs))
      case GtEq => Some(Difference(Difference(rhs, lhs), Const(MIN_THRESHOLD)))
      case _ => None
  }

  predicate IsInteger(x: real) {
    x == x.Floor as real
  }

  lemma DifferenceValue(a: Expr, b: Expr, env: Env)
    ensures Value(Difference(a, b), env) == Value(a, env) - Value(b, env)
  {
    var v := ArgumentValues(Difference(a, b), env);
    assert v == [Value(a, env), Value(b, env)] && v[1..] == [v[1]] && v[1..][..0] == [];
    assert Sum(v[1..]) == v[1];
  }

  /** By how much an inequality misses: it holds if this is negative, or for the lenient ones at most 0. */
  function Excess(e: Expr, env: Env): real
    requires e.Arith? && |e.operands| == 2
  {
    var a, b := Value(e.operands[0], env), Value(e.operands[1], env);
    if e.op == Gt || e.op == GtEq then b - a else a - b
  }

  /** The inequality is strict, or does not miss by less than the threshold. */
  predicate OutsideGap(e: Expr, env: Env)
    requires e.Arith? && |e.operands| == 2
  {
    e.op == LtEq || e.op == GtEq ==> !(0.0 < Excess(e, env) < 0.00001)
  }

  predicate OnIntegers(e: Expr, env: Env) {
    e.Arith? && |e.operands| == 2 && IsInteger(Value(e.operands[0], env)) && IsInteger(Value(e.operands[1], env))
  }

  lemma IntegersAreOutsideGap(e: Expr, env: Env)
    requires OnIntegers(e, env)
    ensures OutsideGap(e, env)
  {
    var a, b := Value(e.operands[0], env), Value(e.operands[1], env);
    assert a > b ==> a.Floor >= b.Floor + 1;
    assert b > a ==> b.Floor >= a.Floor + 1;
  }

  lemma NormalFormValue(e: Expr, env: Env)
    requires e.Arith? && |e.operands| == 2 && ArithToLtZero(e).Some?
    ensures Value(ArithToLtZero(e).value, env) ==
              Excess(e, env) - if e.op == LtEq || e.op == GtEq then MIN_THRESHOLD else 0.0
    ensures Holds(e, env) <==> if e.op == LtEq || e.op == GtEq then Excess(e, env) <= 0.0 else Excess(e, env) < 0.0
    ensures Value(e, env) == 0.0 || Value(e, env) == 1.0
  {
    var lhs, rhs := e.operands[0], e.operands[1];
    assert ArgumentValues(e, env) == [Value(lhs, env), Value(rhs, env)];
    DifferenceValue(lhs, rhs, env);
    DifferenceValue(rhs, lhs, env);
    DifferenceValue(Difference(lhs, rhs), Const(MIN_THRESHOLD), env);
    DifferenceValue(Difference(rhs, lhs), Const(MIN_THRESHOLD), env);
  }

  /** The normal form is equivalent exactly outside the gap that the threshold leaves. */
  lemma LtZeroIsEquivalent(e: Expr, env: Env)
    requires e.Arith? && |e.operands| == 2 && ArithToLtZero(e).Some?
    ensures (Holds(e, env) <==> Value(ArithToLtZero(e).value, env) < 0.0) <==> OutsideGap(e, env)
  {
    hide Value, Holds, ArithToLtZero;
    NormalFormValue(e, env);
  }

  /** Inside the gap the threshold turns a false inequality into a true one. */
  lemma ThresholdIsVisible(env: Env)
    ensures var e := Arith(LtEq, [Const(0.000005), Const(0.0)]);
            !OutsideGap(e, env) && ArithToLtZero(e).Some? && !Holds(e, env) && Value(ArithToLtZero(e).value, env) < 0.0
  {
    NormalFormValue(Arith(LtEq, [Const(0.000005), Const(0.0)]), env);
  }

  // ---------------------------------------------------------------------------
  // Upper bounds

  /** A bound for sums, products and differences; None where the original raises. */
  function UpperBound(e: Expr, bounds: Bounds): Option<real>
    decreases e, 2
  {
    match e
    case Const(c) => Some(c)
    case Var(p) => if p in bounds then Some(bounds[p]) else None
    case Arith(op, es) =>
      (match op
       case Times => if AllBounded(e, bounds) then Some(Product(UpperBounds(e, bounds))) else None
       case Plus => if AllBounded(e, bounds) then Some(Sum(UpperBounds(e, bounds))) else None
       case Minus => if es == [] then None else UpperBound(es[0], bounds)
       case _ => None)
    case _ => None
  }

  /**
   The part is the expression itself, or one whose bound is asked for on the way; of a difference only the
   first is.
   */
  predicate Consults(e: Expr, part: Expr)
    decreases e
  {
    || e == part
    || (e.Arith? && (e.op == Times || e.op == Plus)
        && exists i :: 0 <= i < |e.operands| && Consults(e.operands[i], part))
    || (e.Arith? && e.op == Minus && e.operands != [] && Consults(e.operands[0], part))
  }

  /** A variable without a bound, an empty difference, or what is no sum, product or difference. */
  predicate HasNoBound(part: Expr, bounds: Bounds) {
    match part
    case Const(_) => false
    case Var(p) => p !in bounds
    case Arith(op, es) => op !in {Times, Plus, Minus} || (op == Minus && es == [])
    case _ => true
  }

  /** There is no bound if and only if some part that is asked for its bound has none. */
  lemma {:induction false} BoundIsMissing(e: Expr, bounds: Bounds)
    ensures UpperBound(e, bounds).None? <==> exists part :: Consults(e, part) && HasNoBound(part, bounds)
    decreases e
  {
    if e.Arith? && (e.op == Times || e.op == Plus) {
      forall i | 0 <= i < |e.operands|
        ensures UpperBound(e.operands[i], bounds).None? <==>
                  exists part :: Consults(e.operands[i], part) && HasNoBound(part, bounds)
      {
        BoundIsMissing(e.operands[i], bounds);
      }
      if UpperBound(e, bounds).None? {
        assert !AllBounded(e, bounds) && e.Arguments() == e.operands;
        var i :| 0 <= i < |e.Arguments()| && UpperBound(e.Arguments()[i], bounds).None?;
        var part :| Consults(e.operands[i], part) && HasNoBound(part, bounds);
        assert Consults(e, part);
      }
      if part :| Consults(e, part) && HasNoBound(part, bounds) {
        assert !HasNoBound(e, bounds);
        var i :| 0 <= i < |e.operands| && Consults(e.operands[i], part);
        assert UpperBound(e.Arguments()[i], bounds).None?;
      }
    } else if e.Arith? && e.op == Minus && e.operands != [] {
      BoundIsMissing(e.operands[0], bounds);
      if part :| Consults(e.operands[0], part) && HasNoBound(part, bounds) {
        assert Consults(e, part);
      }
    } else {
      assert Consults(e, e);
    }
  }

  predicate AllBounded(e: Expr, bounds: Bounds)
    decreases e, 0
  {
    forall i | 0 <= i < |e.Arguments()| :: UpperBound(e.Arguments()[i], bounds).Some?
  }

  function UpperBounds(e: Expr, bounds: Bounds): (u: seq<real>)
    requires AllBounded(e, bounds)
    ensures |u| == |e.Arguments()|
    decreases e, 1
  {
    seq(|e.Arguments()|, i requires 0 <= i < |e.Arguments()| => UpperBound(e.Arguments()[i], bounds).value)
  }

  /** Variables keep their bounds, and what is multiplied or subtracted is not negative. */
  predicate WithinBounds(e: Expr, bounds: Bounds, env: Env)
    decreases e
  {
    match e
    case Const(_) => true
    case Var(p) => p in bounds && env(p) <= bounds[p]
    case Arith(op, es) =>
      (match op
       case Times =>
         forall i | 0 <= i < |es| :: WithinBounds(es[i], bounds, env) && Value(es[i], env) >= 0.0
       case Plus => forall i | 0 <= i < |es| :: WithinBounds(es[i], bounds, env)
       case Minus =>
         && es != [] && WithinBounds(es[0], bounds, env)
         && forall i | 1 <= i < |es| :: Value(es[i], env) >= 0.0
       case _ => false)
    case _ => false
  }

  lemma {:induction false} SumIsMonotone(v: seq<real>, u: seq<real>)
    requires |v| == |u| && forall i | 0 <= i < |v| :: v[i] <= u[i]
    ensures Sum(v) <= Sum(u)
    decreases |v|
  {
    if v != [] {
      SumIsMonotone(v[..|v| - 1], u[..|u| - 1]);
    }
  }

  lemma {:induction false} ProductIsMonotone(v: seq<real>, u: seq<real>)
    requires |v| == |u| && forall i | 0 <= i < |v| :: 0.0 <= v[i] <= u[i]
    ensures 0.0 <= Product(v) <= Product(u)
    decreases |v|
  {
    if v != [] {
      var n := |v| - 1;
      ProductIsMonotone(v[..n], u[..n]);
      MultiplyBounds(Product(v[..n]), v[n], Product(u[..n]), u[n]);
    }
  }

  lemma MultiplyBounds(a: real, b: real, c: real, d: real)
    requires 0.0 <= a <= c && 0.0 <= b <= d
    ensures 0.0 <= a * b <= c * d
  {
    assert (c - a) * b >= 0.0 && c * (d - b) >= 0.0;
  }

  lemma {:induction false} SumOfNonNegative(v: seq<real>)
    requires forall i | 0 <= i < |v| :: v[i] >= 0.0
    ensures Sum(v) >= 0.0
    decreases |v|
  {
    if v != [] {
      SumOfNonNegative(v[..|v| - 1]);
    }
  }

  /** Wherever its side conditions hold, the bound is there and bounds the value. */
  lemma {:induction false} UpperBoundIsSound(e: Expr, bounds: Bounds, env: Env)
    requires WithinBounds(e, bounds, env)
    ensures UpperBound(e, bounds).Some? && Value(e, env) <= UpperBound(e, bounds).value
    decreases e
  {
    if e.Arith? {
      var v := ArgumentValues(e, env);
      if e.op == Minus {
        UpperBoundIsSound(e.operands[0], bounds, env);
        SumOfNonNegative(v[1..]);
      } else {
        forall i | 0 <= i < |e.operands|
          ensures UpperBound(e.Arguments()[i], bounds).Some? && v[i] <= UpperBound(e.Arguments()[i], bounds).value
        {
          UpperBoundIsSound(e.operands[i], bounds, env);
        }
        var u := UpperBounds(e, bounds);
        SumIsMonotone(v, u);
        if e.op == Times {
          ProductIsMonotone(v, u);
        }
      }
    }
  }

  /** A subtrahend that is negative takes the value above the bound: 0 - -1 is bounded by 0. */
  lemma BoundIsExceeded(bounds: Bounds, env: Env)
    ensures var e := Difference(Const(0.0), Const(-1.0));
            UpperBound(e, bounds) == Some(0.0) && Value(e, env) == 1.0
  {
    DifferenceValue(Const(0.0), Const(-1.0), env);
  }

  /** The assignment keeps to the bounds. */
  ghost predicate KeepsBounds(bounds: Bounds, env: Env) {
    forall p | p in bounds :: env(p) <= bounds[p]
  }

  predicate Mentions(e: Expr, p: seq<Part>)
    decreases e
  {
    if e.IsAtomic() then e == Var(p) else exists i | 0 <= i < |e.Arguments()| :: Mentions(e.Arguments()[i], p)
  }

  function With(env: Env, p: seq<Part>, value: real): Env {
    q => if q == p then value else env(q)
  }

  lemma {:induction false} ValueIgnores(e: Expr, env: Env, p: seq<Part>, value: real)
    requires !Mentions(e, p)
    ensures Value(e, With(env, p, value)) == Value(e, env)
    decreases e
  {
    if !e.IsAtomic() {
      forall i | 0 <= i < |e.Arguments()|
        ensures Value(e.Arguments()[i], With(env, p, value)) == Value(e.Arguments()[i], env)
      {
        ValueIgnores(e.Arguments()[i], env, p, value);
      }
      assert ArgumentValues(e, With(env, p, value)) == ArgumentValues(e, env);
    }
  }

  /**
   The bound of a variable less an expression without it holds for all assignments within the bounds
   exactly if for none of them the expression is negative.
   */
  lemma DifferenceBoundIsExact(p: seq<Part>, b: Expr, bounds: Bounds)
    requires p in bounds && !Mentions(b, p)
    ensures UpperBound(Difference(Var(p), b), bounds) == Some(bounds[p])
    ensures (forall env: Env | KeepsBounds(bounds, env) :: Value(Difference(Var(p), b), env) <= bounds[p]) <==>
              forall env: Env | KeepsBounds(bounds, env) :: Value(b, env) >= 0.0
  {
    var e := Difference(Var(p), b);
    forall env: Env | KeepsBounds(bounds, env)
      ensures Value(b, env) >= 0.0 ==> Value(e, env) <= bounds[p]
    {
      DifferenceValue(Var(p), b, env);
    }
    forall env: Env | KeepsBounds(bounds, env) && Value(b, env) < 0.0
      ensures exists env': Env :: KeepsBounds(bounds, env') && Value(e, env') > bounds[p]
    {
      var env' := With(env, p, bounds[p]);
      ValueIgnores(b, env, p, bounds[p]);
      DifferenceValue(Var(p), b, env');
      assert KeepsBounds(bounds, env');
    }
  }

  // ---------------------------------------------------------------------------
  // Indicators

  /** The variable and the inequality of an equation between the two, whichever side they are on. */
  function IndicatorOf(e: Expr): Option<(Expr, Expr)> {
    if !e.Eq? then None
    else if e.left.Var? && e.right.Arith? then (if IsBoolArith(e.right) then Some((e.left, e.right)) else None)
    else if e.right.Var? && e.left.Arith? then (if IsBoolArith(e.left) then Some((e.right, e.left)) else None)
    else None
  }

  function LowerConstraint(x: Expr, y: Expr, upper: real): Expr {
    Arith(LtEq, [Arith(Times, [Const(-1.0), x]), Arith(Times, [y, Const(upper)])])
  }

  function UpperConstraint(x: Expr, y: Expr, upper: real): Expr {
    Arith(Lt, [x, Arith(Times, [Difference(Const(1.0), y), Const(upper)])])
  }

  /** The expression itself if it equates no variable with an inequality; None where the original raises. */
  function IndicatorToPureLp(e: Expr, bounds: Bounds): Option<seq<Expr>> {
    match IndicatorOf(e)
    case None => Some([e])
    case Some((y, arith)) =>
      match ArithToLtZero(arith)
      case None => None
      case Some(x) =>
        match UpperBound(x, bounds)
        case None => None
        case Some(u) => Some([LowerConstraint(x, y, u + 1.0), UpperConstraint(x, y, u + 1.0)])
  }

  /** Too few operands, an equality, or no bound for the side that is to be the smaller one. */
  ghost predicate IsUnbounded(arith: Expr, bounds: Bounds)
    requires arith.Arith?
  {
    || |arith.operands| < 2 || arith.op == Equal
    || exists part :: HasNoBound(part, bounds)
                      && Consults(if arith.op in {Lt, LtEq} then arith.operands[0] else arith.operands[1], part)
  }

  /** An equation between a variable and such an inequality. */
  ghost predicate CannotBeTranslated(e: Expr, bounds: Bounds) {
    && e.Eq?
    && exists y, arith ::
         && (e == Eq(y, arith) || e == Eq(arith, y))
         && y.Var? && arith.Arith? && arith.op in {Lt, LtEq, Gt, GtEq, Equal} && IsUnbounded(arith, bounds)
  }

  lemma TranslationFails(e: Expr, bounds: Bounds)
    ensures IndicatorToPureLp(e, bounds).None? <==> CannotBeTranslated(e, bounds)
  {
    if e.Eq? {
      SidesTranslated(e.left, e.right, e, bounds);
      SidesTranslated(e.right, e.left, e, bounds);
    }
  }

  lemma BoundOfDifference(a: Expr, b: Expr, bounds: Bounds)
    ensures UpperBound(Difference(a, b), bounds) == UpperBound(a, bounds)
  {}

  lemma SidesTranslated(y: Expr, arith: Expr, e: Expr, bounds: Bounds)
    requires e == Eq(y, arith) || e == Eq(arith, y)
    ensures y.Var? && IsBoolArith(arith) ==> (IndicatorToPureLp(e, bounds).None? <==> IsUnbounded(arith, bounds))
  {
    hide Consults, UpperBound, HasNoBound;
    if y.Var? && IsBoolArith(arith) && |arith.operands| >= 2 {
      var a, b := arith.operands[0], arith.operands[1];
      BoundIsMissing(a, bounds);
      BoundIsMissing(b, bounds);
      BoundOfDifference(a, b, bounds);
      BoundOfDifference(b, a, bounds);
      BoundOfDifference(Difference(a, b), Const(MIN_THRESHOLD), bounds);
      BoundOfDifference(Difference(b, a), Const(MIN_THRESHOLD), bounds);
    }
  }

  ghost predicate AllHold(es: seq<Expr>, env: Env) {
    forall i | 0 <= i < |es| :: Holds(es[i], env)
  }

  lemma TimesValue(a: Expr, b: Expr, env: Env)
    ensures Value(Arith(Times, [a, b]), env) == Value(a, env) * Value(b, env)
  {
    var v := ArgumentValues(Arith(Times, [a, b]), env);
    assert v == [Value(a, env), Value(b, env)] && v[..1] == [v[0]] && v[..1][..0] == [];
    assert Product(v[..1]) == v[0];
  }

  lemma ComparisonHolds(a: Expr, b: Expr, env: Env)
    ensures Holds(Arith(LtEq, [a, b]), env) <==> Value(a, env) <= Value(b, env)
    ensures Holds(Arith(Lt, [a, b]), env) <==> Value(a, env) < Value(b, env)
  {
    assert ArgumentValues(Arith(LtEq, [a, b]), env) == [Value(a, env), Value(b, env)];
    assert ArgumentValues(Arith(Lt, [a, b]), env) == [Value(a, env), Value(b, env)];
  }

  lemma ConstantValue(c: real, env: Env)
    ensures Value(Const(c), env) == c
  {}

  lemma ScaledValue(a: Expr, c: real, env: Env)
    ensures Value(Arith(Times, [a, Const(c)]), env) == Value(a, env) * c
    ensures Value(Arith(Times, [Const(c), a]), env) == c * Value(a, env)
  {
    TimesValue(a, Const(c), env);
    TimesValue(Const(c), a, env);
  }

  lemma LowerConstraintHolds(x: Expr, y: Expr, upper: real, env: Env)
    ensures Holds(LowerConstraint(x, y, upper), env) <==> -1.0 * Value(x, env) <= Value(y, env) * upper
  {
    hide Value, Holds;
    ScaledValue(x, -1.0, env);
    ScaledValue(y, upper, env);
    ComparisonHolds(Arith(Times, [Const(-1.0), x]), Arith(Times, [y, Const(upper)]), env);
  }

  lemma UpperConstraintHolds(x: Expr, y: Expr, upper: real, env: Env)
    ensures Holds(UpperConstraint(x, y, upper), env) <==>
              Value(x, env) < Value(Difference(Const(1.0), y), env) * upper
  {
    hide Value, Holds;
    ScaledValue(Difference(Const(1.0), y), upper, env);
    ComparisonHolds(x, Arith(Times, [Difference(Const(1.0), y), Const(upper)]), env);
  }

  /** For an indicator that is 0 or 1, and a quantity within the bound, the constraints say that it indicates. */
  lemma IndicatorIsExact(x: Expr, y: Expr, upper: real, env: Env)
    requires Value(y, env) == 0.0 || Value(y, env) == 1.0
    requires -upper <= Value(x, env) < upper
    ensures AllHold([LowerConstraint(x, y, upper), UpperConstraint(x, y, upper)], env) <==>
              (Value(y, env) == 1.0 <==> Value(x, env) < 0.0)
  {
    hide Value, Holds, LowerConstraint, UpperConstraint, Difference;
    var es := [LowerConstraint(x, y, upper), UpperConstraint(x, y, upper)];
    LowerConstraintHolds(x, y, upper, env);
    UpperConstraintHolds(x, y, upper, env);
    DifferenceValue(Const(1.0), y, env);
    ConstantValue(1.0, env);
    assert AllHold(es, env) <==> Holds(es[0], env) && Holds(es[1], env);
  }

  /** An indicator is 0 or 1, and what it indicates keeps to its bounds. */
  predicate IsBounded(e: Expr, bounds: Bounds, env: Env) {
    match IndicatorOf(e)
    case None => true
    case Some((y, arith)) =>
      && |arith.operands| == 2
      && (Value(y, env) == 0.0 || Value(y, env) == 1.0)
      && match ArithToLtZero(arith)
         case None => false
         case Some(x) =>
           && WithinBounds(x, bounds, env)
           && (UpperBound(x, bounds).Some? ==> -(UpperBound(x, bounds).value + 1.0) <= Value(x, env))
  }

  /** No indicated inequality misses by less than the threshold. */
  predicate IsVisible(e: Expr, env: Env) {
    match IndicatorOf(e)
    case None => true
    case Some((_, arith)) => |arith.operands| == 2 && OutsideGap(arith, env)
  }

  lemma EquationHolds(e: Expr, env: Env)
    requires e.Eq?
    ensures Holds(e, env) <==> Value(e.left, env) == Value(e.right, env)
  {
    assert ArgumentValues(e, env) == [Value(e.left, env), Value(e.right, env)];
  }

  /** Within bounds the constraints stand for the equation exactly if the inequality is outside the gap. */
  lemma TranslationIsExact(e: Expr, bounds: Bounds, env: Env)
    requires IsBounded(e, bounds, env)
    ensures IndicatorToPureLp(e, bounds).Some?
    ensures (AllHold(IndicatorToPureLp(e, bounds).value, env) <==> Holds(e, env)) <==> IsVisible(e, env)
  {
    hide Value, Holds, ArithToLtZero, OutsideGap, WithinBounds, AllHold, UpperBound;
    match IndicatorOf(e)
    case None =>
      assert AllHold([e], env) <==> Holds(e, env) by {
        OneHolds(e, env);
      }
    case Some((y, arith)) =>
      var x := ArithToLtZero(arith).value;
      UpperBoundIsSound(x, bounds, env);
      NormalFormValue(arith, env);
      LtZeroIsEquivalent(arith, env);
      IndicatorIsExact(x, y, UpperBound(x, bounds).value + 1.0, env);
      EquationHolds(e, env);
      TruthValue(arith, env);
  }

  /**
   What the two constraints say, in numbers: by how much the inequality misses, less the threshold for the lenient
   ones, against the bound of the side that is to be the smaller one, and 1 more.
   */
  lemma ConstraintsSay(e: Expr, y: Expr, arith: Expr, bounds: Bounds, env: Env)
    requires (e == Eq(y, arith) || e == Eq(arith, y)) && y.Var? && arith.Arith? && |arith.operands| == 2
    requires arith.op in {Lt, LtEq, Gt, GtEq} && IndicatorToPureLp(e, bounds).Some?
    ensures var a, b := arith.operands[0], arith.operands[1];
            var less := if arith.op in {Lt, LtEq} then a else b;
            var v := (if arith.op in {Lt, LtEq} then Value(a, env) - Value(b, env) else Value(b, env) - Value(a, env))
                     - (if arith.op in {LtEq, GtEq} then 0.00001 else 0.0);
            && UpperBound(less, bounds).Some?
            && var u := UpperBound(less, bounds).value + 1.0;
               (AllHold(IndicatorToPureLp(e, bounds).value, env) <==> Indicates(v, Value(y, env), u))
  {
    hide Value, Holds, AllHold, UpperBound, LowerConstraint, UpperConstraint, ArithToLtZero, Indicates;
    SmallerSide(arith, bounds, env);
    assert IndicatorOf(e) == Some((y, arith));
    var x := ArithToLtZero(arith).value;
    PairSays(x, y, UpperBound(x, bounds).value + 1.0, env);
  }

  lemma SmallerSide(arith: Expr, bounds: Bounds, env: Env)
    requires arith.Arith? && |arith.operands| == 2 && arith.op in {Lt, LtEq, Gt, GtEq}
    ensures var a, b := arith.operands[0], arith.operands[1];
            var less := if arith.op in {Lt, LtEq} then a else b;
            var v := (if arith.op in {Lt, LtEq} then Value(a, env) - Value(b, env) else Value(b, env) - Value(a, env))
                     - (if arith.op in {LtEq, GtEq} then 0.00001 else 0.0);
            && ArithToLtZero(arith).Some?
            && Value(ArithToLtZero(arith).value, env) == v
            && UpperBound(ArithToLtZero(arith).value, bounds) == UpperBound(less, bounds)
  {
    hide Value, Holds, UpperBound;
    var a, b := arith.operands[0], arith.operands[1];
    BoundOfDifference(a, b, bounds);
    BoundOfDifference(b, a, bounds);
    BoundOfDifference(Difference(a, b), Const(MIN_THRESHOLD), bounds);
    BoundOfDifference(Difference(b, a), Const(MIN_THRESHOLD), bounds);
    NormalFormValue(arith, env);
  }

  /** -v <= y * u and v < (1 - y) * u. */
  predicate Indicates(v: real, y: real, u: real) {
    -v <= y * u && v < (1.0 - y) * u
  }

  lemma PairSays(x: Expr, y: Expr, u: real, env: Env)
    ensures AllHold([LowerConstraint(x, y, u), UpperConstraint(x, y, u)], env) <==>
              Indicates(Value(x, env), Value(y, env), u)
  {
    hide *;
    LowerConstraintHolds(x, y, u, env);
    UpperConstraintHolds(x, y, u, env);
    OneMinus(y, env);
    TwoHold(LowerConstraint(x, y, u), UpperConstraint(x, y, u), env);
    Numbers(Holds(LowerConstraint(x, y, u), env), Holds(UpperConstraint(x, y, u), env), Value(x, env), Value(y, env),
            Value(Difference(Const(1.0), y), env), u);
  }

  lemma Numbers(lower: bool, upper: bool, v: real, y: real, d: real, u: real)
    requires d == 1.0 - y && (lower <==> -1.0 * v <= y * u) && (upper <==> v < d * u)
    ensures lower && upper <==> Indicates(v, y, u)
  {}

  lemma OneMinus(y: Expr, env: Env)
    ensures Value(Difference(Const(1.0), y), env) == 1.0 - Value(y, env)
  {
    DifferenceValue(Const(1.0), y, env);
    ConstantValue(1.0, env);
  }

  lemma TwoHold(a: Expr, b: Expr, env: Env)
    ensures AllHold([a, b], env) <==> Holds(a, env) && Holds(b, env)
  {
    assert [a, b][0] == a && [a, b][1] == b;
  }

  lemma OneHolds(e: Expr, env: Env)
    ensures AllHold([e], env) <==> Holds(e, env)
  {
    assert [e][0] == e;
  }

  lemma TruthValue(e: Expr, env: Env)
    ensures Holds(e, env) <==> Value(e, env) == 1.0
  {}
}
