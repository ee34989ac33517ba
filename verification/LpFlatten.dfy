/** Flattening: every nested operator gets a fresh variable and an equation that defines it. */
module LpFlatten {
  import opened Syntax
  import opened Lp
  import opened LpIndicator

  function Internal(k: nat): seq<Part> {
    [Text("internal"), Number(k)]
  }

  /** The variables of an expression. */
  function Vars(e: Expr): set<seq<Part>>
    decreases e
  {
    if e.Var? then {e.parts}
    else set i, p | 0 <= i < |e.Arguments()| && p in Vars(e.Arguments()[i]) :: p
  }

  /** No fresh variable from number k on occurs. */
  ghost predicate Below(e: Expr, k: nat) {
    forall k' | k' >= k :: Internal(k') !in Vars(e)
  }

  /** There are at least two conjuncts or disjuncts wherever there are any, as the constructors see to. */
  predicate WellFormed(e: Expr)
    decreases e
  {
    && (e.And? || e.Or? ==> |e.Arguments()| != 1)
    && forall i | 0 <= i < |e.Arguments()| :: WellFormed(e.Arguments()[i])
  }

  predicate Agree(vars: set<seq<Part>>, env: Env, env': Env) {
    forall p | p in vars :: env(p) == env'(p)
  }

  lemma {:induction false} ValueByVars(e: Expr, env: Env, env': Env)
    requires Agree(Vars(e), env, env')
    ensures Value(e, env) == Value(e, env')
    decreases e
  {
    if !e.IsAtomic() {
      forall i | 0 <= i < |e.Arguments()|
        ensures Value(e.Arguments()[i], env) == Value(e.Arguments()[i], env')
      {
        ValueByVars(e.Arguments()[i], env, env');
      }
      assert ArgumentValues(e, env) == ArgumentValues(e, env');
    }
  }

  // ---------------------------------------------------------------------------
  // Supporting equations

  /** The equation defines the k-th fresh variable from earlier ones. */
  ghost predicate IsDefinition(c: Expr, k: nat) {
    c.Eq? && c.left == Var(Internal(k)) && Below(c.right, k)
  }

  ghost predicate Solves(support: seq<Expr>, env: Env) {
    forall i | 0 <= i < |support| :: Holds(support[i], env)
  }

  /** Each fresh variable from lo to hi has one definition, and there are no other equations. */
  ghost predicate Defines(support: seq<Expr>, lo: nat, hi: nat)
    ensures Defines(support, lo, hi) ==> lo <= hi
  {
    && lo <= hi
    && (forall k | lo <= k < hi :: HasDefinition(support, k))
    && (forall i | 0 <= i < |support| :: IsDefinitionIn(support[i], lo, hi))
    && (forall i, j | 0 <= i < j < |support| :: support[i].left != support[j].left)
  }

  ghost predicate HasDefinition(support: seq<Expr>, k: nat) {
    exists i :: 0 <= i < |support| && IsDefinition(support[i], k)
  }

  ghost predicate IsDefinitionIn(c: Expr, lo: nat, hi: nat)
    ensures IsDefinitionIn(c, lo, hi) ==> c.Eq?
  {
    exists k :: lo <= k < hi && IsDefinition(c, k)
  }

  lemma DefinesNothing(lo: nat)
    ensures Defines([], lo, lo)
  {}

  lemma DefinesAppend(s1: seq<Expr>, lo: nat, mid: nat, s2: seq<Expr>, hi: nat)
    requires Defines(s1, lo, mid) && Defines(s2, mid, hi)
    ensures Defines(s1 + s2, lo, hi) && Defines(s2 + s1, lo, hi)
  {
    hide IsDefinition, HasDefinition, IsDefinitionIn;
    forall k | lo <= k < hi
      ensures HasDefinition(s1 + s2, k) && HasDefinition(s2 + s1, k)
    {
      HasDefinitionAppend(s1, s2, k);
      HasDefinitionAppend(s2, s1, k);
    }
    forall c
      ensures IsDefinitionIn(c, lo, mid) || IsDefinitionIn(c, mid, hi) ==> IsDefinitionIn(c, lo, hi)
    {
      WiderRange(c, lo, mid, hi);
    }
    forall i, j | 0 <= i < |s1| && 0 <= j < |s2|
      ensures s1[i].left != s2[j].left
    {
      DisjointRanges(s1[i], lo, mid, s2[j], hi);
    }
  }

  lemma HasDefinitionAppend(s1: seq<Expr>, s2: seq<Expr>, k: nat)
    ensures HasDefinition(s1 + s2, k) <==> HasDefinition(s1, k) || HasDefinition(s2, k)
  {
    hide IsDefinition;
    var s := s1 + s2;
    if i :| 0 <= i < |s1| && IsDefinition(s1[i], k) {
      assert s[i] == s1[i];
    }
    if i :| 0 <= i < |s2| && IsDefinition(s2[i], k) {
      assert s[|s1| + i] == s2[i];
    }
  }

  lemma WiderRange(c: Expr, lo: nat, mid: nat, hi: nat)
    requires lo <= mid <= hi
    ensures IsDefinitionIn(c, lo, mid) || IsDefinitionIn(c, mid, hi) ==> IsDefinitionIn(c, lo, hi)
  {
    hide IsDefinition;
  }

  lemma DisjointRanges(c: Expr, lo: nat, mid: nat, c': Expr, hi: nat)
    requires IsDefinitionIn(c, lo, mid) && IsDefinitionIn(c', mid, hi)
    ensures c.left != c'.left
  {
    var k :| lo <= k < mid && IsDefinition(c, k);
    var k' :| mid <= k' < hi && IsDefinition(c', k');
    if Internal(k) == Internal(k') {
      InternalIsInjective(k, k');
    }
  }

  lemma DefinesOne(k: nat, e: Expr)
    requires Below(e, k)
    ensures Defines([Eq(Var(Internal(k)), e)], k, k + 1)
  {
    var support := [Eq(Var(Internal(k)), e)];
    assert IsDefinition(support[0], k);
    assert HasDefinition(support, k);
  }

  lemma SolvesAppend(s1: seq<Expr>, s2: seq<Expr>, env: Env)
    ensures Solves(s1 + s2, env) <==> Solves(s1, env) && Solves(s2, env)
  {
    var s := s1 + s2;
    if Solves(s, env) {
      assert forall i | 0 <= i < |s1| :: s[i] == s1[i];
      assert forall i | 0 <= i < |s2| :: s[|s1| + i] == s2[i];
    }
  }

  // ---------------------------------------------------------------------------
  // Every assignment extends uniquely to the fresh variables

  ghost function Definition(support: seq<Expr>, lo: nat, hi: nat, k: nat): (c: Expr)
    requires Defines(support, lo, hi) && lo <= k < hi
    ensures c in support && IsDefinition(c, k)
  {
    assert HasDefinition(support, k);
    var i :| 0 <= i < |support| && IsDefinition(support[i], k);
    support[i]
  }

  /** The assignment with the fresh variables below k given the values of their definitions. */
  ghost function Extension(support: seq<Expr>, lo: nat, hi: nat, k: nat, env: Env): Env
    requires Defines(support, lo, hi) && lo <= k <= hi
    decreases k
  {
    if k == lo then env
    else
      var before := Extension(support, lo, hi, k - 1, env);
      var value := Value(Definition(support, lo, hi, k - 1).right, before);
      (p: seq<Part>) => if p == Internal(k - 1) then value else before(p)
  }

  lemma {:induction false} ExtensionKeeps(support: seq<Expr>, lo: nat, hi: nat, j: nat, k: nat, env: Env, p: seq<Part>)
    requires Defines(support, lo, hi) && lo <= j <= k <= hi
    requires forall m | j <= m < k :: p != Internal(m)
    ensures Extension(support, lo, hi, k, env)(p) == Extension(support, lo, hi, j, env)(p)
    decreases k
  {
    hide Defines;
    if j < k {
      ExtensionKeeps(support, lo, hi, j, k - 1, env, p);
    }
  }

  lemma InternalIsInjective(k: nat, k': nat)
    requires Internal(k) == Internal(k')
    ensures k == k'
  {
    assert Internal(k)[1] == Internal(k')[1];
  }

  lemma ExtensionSolves(support: seq<Expr>, lo: nat, hi: nat, env: Env)
    requires Defines(support, lo, hi)
    ensures Solves(support, Extension(support, lo, hi, hi, env))
  {
    hide Defines, Holds;
    forall i | 0 <= i < |support|
      ensures Holds(support[i], Extension(support, lo, hi, hi, env))
    {
      var k := DefinedVariable(support, lo, hi, i);
      ExtensionSolvesAt(support, lo, hi, k, env);
    }
  }

  lemma DefinedVariable(support: seq<Expr>, lo: nat, hi: nat, i: nat) returns (k: nat)
    requires Defines(support, lo, hi) && i < |support|
    ensures lo <= k < hi && Definition(support, lo, hi, k) == support[i]
  {
    assert IsDefinitionIn(support[i], lo, hi);
    k :| lo <= k < hi && IsDefinition(support[i], k);
  }

  lemma ExtensionSolvesAt(support: seq<Expr>, lo: nat, hi: nat, k: nat, env: Env)
    requires Defines(support, lo, hi) && lo <= k < hi
    ensures Holds(Definition(support, lo, hi, k), Extension(support, lo, hi, hi, env))
  {
    hide Defines, Value;
    var full, before := Extension(support, lo, hi, hi, env), Extension(support, lo, hi, k, env);
    var c := Definition(support, lo, hi, k);
    forall p | p in Vars(c.right)
      ensures full(p) == before(p)
    {
      ExtensionKeeps(support, lo, hi, k, hi, env, p);
    }
    ValueByVars(c.right, before, full);
    forall m | k + 1 <= m < hi
      ensures Internal(k) != Internal(m)
    {
      if Internal(k) == Internal(m) {
        InternalIsInjective(k, m);
      }
    }
    ExtensionKeeps(support, lo, hi, k + 1, hi, env, Internal(k));
    EqHolds(c, full);
    ValueOfVar(Internal(k), full);
  }

  lemma ValueOfVar(p: seq<Part>, env: Env)
    ensures Value(Var(p), env) == env(p)
  {}

  lemma EqHolds(c: Expr, env: Env)
    requires c.Eq?
    ensures Holds(c, env) <==> Value(c.left, env) == Value(c.right, env)
  {
    assert ArgumentValues(c, env) == [Value(c.left, env), Value(c.right, env)];
  }

  /** Solutions that agree on all other variables agree on the fresh ones. */
  lemma {:induction false} SolutionsAgree(support: seq<Expr>, lo: nat, hi: nat, env: Env, env': Env, k: nat)
    requires Defines(support, lo, hi) && lo <= k < hi
    requires Solves(support, env) && Solves(support, env')
    requires forall p: seq<Part> | (forall m | lo <= m < hi :: p != Internal(m)) :: env(p) == env'(p)
    ensures env(Internal(k)) == env'(Internal(k))
    decreases k
  {
    var c := Definition(support, lo, hi, k);
    forall p | p in Vars(c.right)
      ensures env(p) == env'(p)
    {
      if m :| lo <= m < hi && p == Internal(m) {
        SolutionsAgree(support, lo, hi, env, env', m);
      }
    }
    ValueByVars(c.right, env, env');
    EqHolds(c, env);
    EqHolds(c, env');
  }

  /** Every assignment extends in exactly one way to the fresh variables so that all equations hold. */
  lemma ExtendsUniquely(support: seq<Expr>, lo: nat, hi: nat, env: Env)
    requires Defines(support, lo, hi)
    ensures exists env' :: Solves(support, env') && AgreeElsewhere(env, env', lo, hi)
    ensures forall env1, env2, p |
              && Solves(support, env1) && AgreeElsewhere(env, env1, lo, hi)
              && Solves(support, env2) && AgreeElsewhere(env, env2, lo, hi) ::
              env1(p) == env2(p)
  {
    var full := Extension(support, lo, hi, hi, env);
    ExtensionSolves(support, lo, hi, env);
    forall p: seq<Part> | forall m | lo <= m < hi :: p != Internal(m)
      ensures full(p) == env(p)
    {
      ExtensionKeeps(support, lo, hi, lo, hi, env, p);
    }
    assert AgreeElsewhere(env, full, lo, hi);
    forall env1, env2, p |
      && Solves(support, env1) && AgreeElsewhere(env, env1, lo, hi)
      && Solves(support, env2) && AgreeElsewhere(env, env2, lo, hi)
      ensures env1(p) == env2(p)
    {
      if m :| lo <= m < hi && p == Internal(m) {
        SolutionsAgree(support, lo, hi, env1, env2, m);
      }
    }
  }

  ghost predicate AgreeElsewhere(env: Env, env': Env, lo: nat, hi: nat) {
    forall p: seq<Part> | (forall m | lo <= m < hi :: p != Internal(m)) :: env(p) == env'(p)
  }

  // ---------------------------------------------------------------------------
  // Flattening

  /** The new expression has the value of the old one wherever the equations hold. */
  ghost predicate SameValue(e: Expr, e': Expr, support: seq<Expr>) {
    forall env: Env | Solves(support, env) :: Value(e', env) == Value(e, env)
  }

  /** An operator whose arguments are variables and constants, or less. */
  predicate IsFlat(e: Expr) {
    forall i | 0 <= i < |e.Arguments()| :: e.Arguments()[i].IsAtomic()
  }

  /** No equation, or inequation, below the top. */
  predicate NoNestedEquations(e: Expr)
    decreases e
  {
    !e.Eq? && !e.NotEq? && forall i | 0 <= i < |e.Arguments()| :: NoNestedEquations(e.Arguments()[i])
  }

  predicate PlainArguments(e: Expr) {
    forall i | 0 <= i < |e.Arguments()| :: NoNestedEquations(e.Arguments()[i])
  }

  predicate AllArgumentsFlat(e: Expr) {
    forall i | 0 <= i < |e.Arguments()| :: IsFlat(e.Arguments()[i])
  }

  ghost predicate AllFlat(support: seq<Expr>) {
    forall i | 0 <= i < |support| :: support[i].Eq? && IsFlat(support[i].right)
  }

  class LpLang {
    var freshVarCounter: nat

    constructor ()
      ensures freshVarCounter == 0
    {
      freshVarCounter := 0;
    }

    method FreshVar() returns (v: Expr)
      modifies this
      ensures v == Var(Internal(old(freshVarCounter))) && freshVarCounter == old(freshVarCounter) + 1
      ensures v == Var([Text("internal"), Number(old(freshVarCounter))])
    {
      v := Var(Internal(freshVarCounter));
      freshVarCounter := freshVarCounter + 1;
    }

    method CreateIntermediate(e: Expr) returns (v: Expr, support: seq<Expr>)
      requires Below(e, freshVarCounter)
      modifies this
      ensures v == Var(Internal(old(freshVarCounter))) && support == [Eq(v, e)]
      ensures freshVarCounter == old(freshVarCounter) + 1
      ensures Defines(support, old(freshVarCounter), freshVarCounter)
      ensures SameValue(e, v, support)
    {
      DefinesOne(freshVarCounter, e);
      v := FreshVar();
      support := [Eq(v, e)];
      forall env: Env | Solves(support, env)
        ensures Value(v, env) == Value(e, env)
      {
        assert Holds(support[0], env);
        EqHolds(support[0], env);
      }
    }

    /**
     Replaces nested operators by fresh variables, and the expression itself as well if it is
     to become an indicator.
     */
    method Flatten(e: Expr, indicator: bool) returns (flat: Expr, support: seq<Expr>)
      requires WellFormed(e) && Below(e, freshVarCounter)
      modifies this
      ensures Defines(support, old(freshVarCounter), freshVarCounter)
      ensures Below(flat, freshVarCounter) && SameValue(e, flat, support)
      ensures indicator || e.IsAtomic() ==> flat.IsAtomic()
      ensures NoNestedEquations(e) ==> IsFlat(flat) && AllFlat(support)
      ensures PlainArguments(e) && !indicator ==> AllFlat(support) && AllArgumentsFlat(flat)
      decreases e
    {
      hide Defines, Below, Value;
      if e.IsAtomic() {
        DefinesNothing(freshVarCounter);
        return e, [];
      }
      var args, extras := [], [];
      var newIndicator := !e.Eq? && !e.NotEq?;
      ghost var lo := freshVarCounter;
      DefinesNothing(lo);
      for i := 0 to |e.Arguments()|
        invariant |args| == i && lo <= freshVarCounter && Defines(extras, lo, freshVarCounter)
        invariant forall j | 0 <= j < i ::
                    Below(args[j], freshVarCounter) && SameValue(e.Arguments()[j], args[j], extras)
        invariant newIndicator ==> forall j | 0 <= j < i :: args[j].IsAtomic()
        invariant PlainArguments(e) ==> AllFlat(extras) && forall j | 0 <= j < i :: IsFlat(args[j])
      {
        ArgumentBelow(e, lo, i, freshVarCounter);
        ghost var mid := freshVarCounter;
        var arg, extra := Flatten(e.Arguments()[i], newIndicator);
        DefinesAppend(extras, lo, mid, extra, freshVarCounter);
        ArgumentsStay(e, args, extras, extra, mid, freshVarCounter);
        MoreSupport(e.Arguments()[i], arg, extra, extras);
        args, extras := args + [arg], extras + extra;
      }
      var built := e.With(args);
      WithBelow(e, args, freshVarCounter);
      WithSameValue(e, args, extras);
      if indicator {
        ghost var mid := freshVarCounter;
        var v, own := CreateIntermediate(built);
        DefinesAppend(extras, lo, mid, own, freshVarCounter);
        IndicatorSameValue(e, built, v, own, extras);
        FreshBelow(mid);
        return v, own + extras;
      }
      return built, extras;
    }

    /**
     Rewrites an expression to linear constraints: flattens it, then translates each equation.
     None where the original raises.
     */
    method PureLp(e: Expr, bounds: Bounds) returns (result: Option<seq<Expr>>, ghost flats: seq<Expr>)
      requires WellFormed(e) && Below(e, freshVarCounter)
      modifies this
      ensures flats != []
      ensures Defines(flats[..|flats| - 1], old(freshVarCounter), freshVarCounter)
      ensures SameValue(e, flats[|flats| - 1], flats[..|flats| - 1])
      ensures forall env: Env | AllSuitable(flats, bounds, env) ::
                result.Some? && (Solves(result.value, env) <==> Solves(flats, env))
      ensures result.None? <==>
                exists i :: 0 <= i < |flats| && CannotBeTranslated(RemoveAndOr(flats[i]), bounds)
    {
      hide Defines, Solves, SameValue, AllSuitable, Suitable, CannotBeTranslated, IndicatorToPureLp, RemoveAndOr;
      var flat, support := Flatten(e, false);
      var all := support + [flat];
      flats := all;
      assert flats[..|flats| - 1] == support;
      var constraints: seq<Expr> := [];
      NothingToSolve(bounds);
      ghost var hi := freshVarCounter;
      for i := 0 to |all|
        invariant freshVarCounter == hi
        invariant forall env: Env | AllSuitable(all[..i], bounds, env) ::
                    Solves(constraints, env) <==> Solves(all[..i], env)
        invariant forall j | 0 <= j < i :: !CannotBeTranslated(RemoveAndOr(all[j]), bounds)
      {
        assert all[..i + 1] == all[..i] + [all[i]];
        var more := IndicatorToPureLp(RemoveAndOr(all[i]), bounds);
        SuitableStep(all, i, bounds, constraints, more);
        TranslationFails(RemoveAndOr(all[i]), bounds);
        if more == None {
          assert all[..|all|] == all;
          return None, flats;
        }
        constraints := constraints + more.value;
      }
      assert all[..|all|] == all;
      result := Some(constraints);
    }
  }

  /** At this assignment the constraint can be relied on to be translated exactly. */
  ghost predicate Suitable(c: Expr, bounds: Bounds, env: Env) {
    IsExclusive(c, env) && IsBounded(RemoveAndOr(c), bounds, env) && IsVisible(RemoveAndOr(c), env)
  }

  ghost predicate AllSuitable(cs: seq<Expr>, bounds: Bounds, env: Env) {
    forall i | 0 <= i < |cs| :: Suitable(cs[i], bounds, env)
  }

  lemma NothingToSolve(bounds: Bounds)
    ensures forall env: Env :: Solves([], env)
  {}

  lemma SuitablePrefix(cs: seq<Expr>, i: nat, bounds: Bounds, env: Env)
    requires i < |cs|
    ensures AllSuitable(cs[..i + 1], bounds, env) <==> AllSuitable(cs[..i], bounds, env) && Suitable(cs[i], bounds, env)
    ensures AllSuitable(cs, bounds, env) ==> Suitable(cs[i], bounds, env)
  {
    hide Suitable;
    var p, q := cs[..i + 1], cs[..i];
    assert forall j | 0 <= j < i :: p[j] == q[j];
    assert p[i] == cs[i];
  }

  /** Translating one more constraint, exactly where it is suitable. */
  lemma SuitableStep(cs: seq<Expr>, i: nat, bounds: Bounds, done: seq<Expr>, more: Option<seq<Expr>>)
    requires i < |cs| && more == IndicatorToPureLp(RemoveAndOr(cs[i]), bounds)
    requires forall env: Env | AllSuitable(cs[..i], bounds, env) :: Solves(done, env) <==> Solves(cs[..i], env)
    ensures more.Some? ==> forall env: Env | AllSuitable(cs[..i + 1], bounds, env) ::
              Solves(done + more.value, env) <==> Solves(cs[..i + 1], env)
    ensures more.None? ==> forall env: Env :: !AllSuitable(cs, bounds, env)
  {
    hide AllSuitable, Solves, IndicatorToPureLp, RemoveAndOr, IsExclusive, IsBounded, IsVisible, Value;
    assert cs[..i + 1] == cs[..i] + [cs[i]];
    forall env: Env
      ensures more.None? ==> !AllSuitable(cs, bounds, env)
      ensures more.Some? && AllSuitable(cs[..i + 1], bounds, env) ==>
                (Solves(done + more.value, env) <==> Solves(cs[..i + 1], env))
    {
      SuitablePrefix(cs, i, bounds, env);
      if Suitable(cs[i], bounds, env) {
        RemoveAndOrKeepsValue(cs[i], env);
        TranslationIsExact(RemoveAndOr(cs[i]), bounds, env);
        SolvesAppend(done, more.value, env);
        SolvesAppend(cs[..i], [cs[i]], env);
        SolvesOne(cs[i], more.value, env);
      }
    }
  }

  lemma SolvesOne(c: Expr, cs: seq<Expr>, env: Env)
    ensures Solves([c], env) <==> Holds(c, env)
    ensures Solves(cs, env) <==> AllHold(cs, env)
  {
    assert [c][0] == c;
  }

  lemma FreshBelow(k: nat)
    ensures Below(Var(Internal(k)), k + 1)
  {
    forall k' | k' >= k + 1
      ensures Internal(k') != Internal(k)
    {
      if Internal(k') == Internal(k) {
        InternalIsInjective(k, k');
      }
    }
  }

  lemma ArgumentBelow(e: Expr, lo: nat, i: nat, k: nat)
    requires Below(e, lo) && lo <= k && i < |e.Arguments()|
    ensures Below(e.Arguments()[i], k)
  {}

  lemma MoreSupport(e: Expr, e': Expr, support: seq<Expr>, more: seq<Expr>)
    requires SameValue(e, e', support)
    ensures SameValue(e, e', more + support) && SameValue(e, e', support + more)
  {
    hide Value, Solves;
    forall env: Env
      ensures Solves(more + support, env) ==> Solves(support, env)
      ensures Solves(support + more, env) ==> Solves(support, env)
    {
      SolvesAppend(more, support, env);
      SolvesAppend(support, more, env);
    }
  }

  lemma ArgumentsStay(e: Expr, args: seq<Expr>, extras: seq<Expr>, extra: seq<Expr>, mid: nat, hi: nat)
    requires |args| <= |e.Arguments()| && mid <= hi
    requires forall j | 0 <= j < |args| :: Below(args[j], mid) && SameValue(e.Arguments()[j], args[j], extras)
    ensures forall j | 0 <= j < |args| :: Below(args[j], hi) && SameValue(e.Arguments()[j], args[j], extras + extra)
  {
    hide SameValue;
    forall j | 0 <= j < |args|
      ensures SameValue(e.Arguments()[j], args[j], extras + extra)
    {
      MoreSupport(e.Arguments()[j], args[j], extras, extra);
    }
  }

  lemma WithBelow(e: Expr, args: seq<Expr>, k: nat)
    requires !e.IsAtomic() && |args| == |e.Arguments()| && forall j | 0 <= j < |args| :: Below(args[j], k)
    requires (e.And? || e.Or?) ==> |args| != 1
    ensures Below(e.With(args), k)
  {
    assert e.With(args).Arguments() == args;
  }

  lemma WithSameValue(e: Expr, args: seq<Expr>, support: seq<Expr>)
    requires !e.IsAtomic() && |args| == |e.Arguments()|
    requires (e.And? || e.Or?) ==> |args| != 1
    requires forall j | 0 <= j < |args| :: SameValue(e.Arguments()[j], args[j], support)
    ensures SameValue(e, e.With(args), support)
  {
    hide Solves, Value;
    forall env: Env | Solves(support, env)
      ensures Value(e.With(args), env) == Value(e, env)
    {
      forall j | 0 <= j < |args|
        ensures Value(args[j], env) == Value(e.Arguments()[j], env)
      {
        assert SameValue(e.Arguments()[j], args[j], support);
      }
      SameArguments(e, args, env, env);
    }
  }

  lemma IndicatorSameValue(e: Expr, built: Expr, v: Expr, own: seq<Expr>, extras: seq<Expr>)
    requires SameValue(e, built, extras) && SameValue(built, v, own)
    ensures SameValue(e, v, own + extras)
  {
    hide Solves, Value;
    forall env: Env | Solves(own + extras, env)
      ensures Value(v, env) == Value(e, env)
    {
      SolvesAppend(own, extras, env);
    }
  }

  /**
   Flattening preserves meaning: every assignment extends, uniquely, to one in which all supporting
   equations hold, and there the new expression has the value that the old one had.
   */
  lemma FlatteningPreservesMeaning(e: Expr, flat: Expr, support: seq<Expr>, lo: nat, hi: nat, env: Env)
    requires Below(e, lo) && Defines(support, lo, hi) && SameValue(e, flat, support)
    ensures exists env' :: Solves(support, env') && AgreeElsewhere(env, env', lo, hi)
              && Value(flat, env') == Value(e, env)
    ensures forall env1, env2, p |
              && Solves(support, env1) && AgreeElsewhere(env, env1, lo, hi)
              && Solves(support, env2) && AgreeElsewhere(env, env2, lo, hi) ::
              env1(p) == env2(p)
  {
    hide Solves, Value, Defines;
    ExtendsUniquely(support, lo, hi, env);
    var env' :| Solves(support, env') && AgreeElsewhere(env, env', lo, hi);
    assert Agree(Vars(e), env, env');
    ValueByVars(e, env, env');
  }
}
