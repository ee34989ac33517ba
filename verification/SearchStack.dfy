/**
 Why the search never evaluates a negated literal or a builtin with unbound variables,
 and why it terminates.
 */
module SearchStack {
  import opened Syntax
  import opened Unify
  import opened Semantics
  import opened Safety
  import opened SearchSpec

  // ---------------------------------------------------------------------------
  // Safety of the stack

  ghost predicate VarsGround(s: Store, id: nat, vars: set<string>)
    requires Acyclic(s)
  {
    forall x | x in vars :: Ground(s, id, x)
  }

  /** What is already proved is ground, and what is left needs only what is ground or will be by then. */
  ghost predicate FrameSafe(p: Program, f: Frame, s: Store)
    requires Acyclic(s)
  {
    && f.index < |f.literals|
    && VarsGround(s, f.binding, BodyVars(f.literals[..f.index]))
    && (forall j | f.index <= j < |f.literals| ::
          && WellFormedLiteral(p, f.literals[j])
          && VarsGround(s, f.binding, Needs(p, f.literals[j]) - BodyVars(f.literals[..j])))
  }

  /** The variable is ground, or shares its root with a variable of the called body. */
  ghost predicate Supplied(s: Store, id: nat, x: string, callee: Frame)
    requires Acyclic(s)
  {
    || Ground(s, id, x)
    || exists y :: y in BodyVars(callee.literals) && Root(s, Node(id, x)) == Root(s, Node(callee.binding, y))
  }

  ghost predicate Linked(f: Frame, callee: Frame, s: Store)
    requires Acyclic(s) && f.index < |f.literals|
  {
    forall x | x in f.literals[f.index].VariableNames() :: Supplied(s, f.binding, x, callee)
  }

  ghost predicate SafeStack(p: Program, frames: seq<Frame>, s: Store)
    requires Acyclic(s)
  {
    && (forall k | 0 <= k < |frames| :: FrameSafe(p, frames[k], s))
    && (forall k | 0 < k < |frames| :: Linked(frames[k], frames[k - 1], s))
  }

  ghost predicate CurrentGround(frames: seq<Frame>, s: Store)
    requires Acyclic(s)
  {
    frames != [] && frames[0].index < |frames[0].literals| ==>
      VarsGround(s, frames[0].binding, frames[0].literals[frames[0].index].VariableNames())
  }

  /** Once the whole stack is proved, all these variables are ground. */
  ghost predicate WillBeGround(frames: seq<Frame>, variables: seq<string>, id: nat, s: Store)
    requires Acyclic(s)
  {
    if frames == [] then forall x | x in variables :: Ground(s, id, x)
    else
      var last := frames[|frames| - 1];
      last.binding == id && forall x | x in variables :: x in BodyVars(last.literals) || Ground(s, id, x)
  }

  lemma GroundExtends(s: Store, s': Store, id: nat, x: string)
    requires Acyclic(s) && Acyclic(s') && Extends(s, s') && Ground(s, id, x)
    ensures Ground(s', id, x)
  {
    RootInExtension(s, s', Node(id, x));
  }

  lemma VarsGroundExtends(s: Store, s': Store, id: nat, vars: set<string>)
    requires Acyclic(s) && Acyclic(s') && Extends(s, s') && VarsGround(s, id, vars)
    ensures VarsGround(s', id, vars)
  {
    hide Acyclic, Extends, Ground;
    forall x | x in vars
      ensures Ground(s', id, x)
    {
      GroundExtends(s, s', id, x);
    }
  }

  lemma SuppliedExtends(s: Store, s': Store, id: nat, x: string, callee: Frame)
    requires Acyclic(s) && Acyclic(s') && Extends(s, s') && Supplied(s, id, x, callee)
    ensures Supplied(s', id, x, callee)
  {
    hide Acyclic, Extends;
    RootInExtension(s, s', Node(id, x));
    if !Ground(s, id, x) {
      var y :| y in BodyVars(callee.literals) && Root(s, Node(id, x)) == Root(s, Node(callee.binding, y));
      RootInExtension(s, s', Node(callee.binding, y));
    }
  }

  /** Further bindings do not make a stack unsafe. */
  lemma SafeStackExtends(p: Program, frames: seq<Frame>, s: Store, s': Store)
    requires Acyclic(s) && Acyclic(s') && Extends(s, s') && SafeStack(p, frames, s)
    ensures SafeStack(p, frames, s')
  {
    hide Acyclic, Extends, VarsGround, Supplied;
    forall k | 0 <= k < |frames|
      ensures FrameSafe(p, frames[k], s')
    {
      var f := frames[k];
      VarsGroundExtends(s, s', f.binding, BodyVars(f.literals[..f.index]));
      forall j | f.index <= j < |f.literals|
        ensures VarsGround(s', f.binding, Needs(p, f.literals[j]) - BodyVars(f.literals[..j]))
      {
        VarsGroundExtends(s, s', f.binding, Needs(p, f.literals[j]) - BodyVars(f.literals[..j]));
      }
    }
    forall k | 0 < k < |frames|
      ensures Linked(frames[k], frames[k - 1], s')
    {
      var f := frames[k];
      forall x | x in f.literals[f.index].VariableNames()
        ensures Supplied(s', f.binding, x, frames[k - 1])
      {
        assert Linked(f, frames[k - 1], s);
        SuppliedExtends(s, s', f.binding, x, frames[k - 1]);
      }
    }
  }

  lemma WillBeGroundExtends(frames: seq<Frame>, variables: seq<string>, id: nat, s: Store, s': Store)
    requires Acyclic(s) && Acyclic(s') && Extends(s, s') && WillBeGround(frames, variables, id, s)
    ensures WillBeGround(frames, variables, id, s')
  {
    hide Acyclic, Extends;
    forall x | Ground(s, id, x)
      ensures Ground(s', id, x)
    {
      GroundExtends(s, s', id, x);
    }
  }

  /** A literal's needs are ground when its turn comes. */
  lemma CurrentNeedsGround(p: Program, f: Frame, s: Store)
    requires Acyclic(s) && FrameSafe(p, f, s)
    ensures VarsGround(s, f.binding, Needs(p, f.literals[f.index]))
  {}

  lemma BodyVarsSnoc(literals: seq<Literal>, i: nat)
    requires i < |literals|
    ensures BodyVars(literals[..i + 1]) == BodyVars(literals[..i]) + literals[i].VariableNames()
  {
    assert literals[..i + 1] == literals[..i] + [literals[i]];
  }

  function Advance(frames: seq<Frame>): seq<Frame>
    requires frames != []
  {
    frames[0 := frames[0].(index := frames[0].index + 1)]
  }

  /** Moving on to the next literal of the top frame. */
  lemma SafeToAdvance(p: Program, frames: seq<Frame>, s: Store)
    requires Acyclic(s) && SafeStack(p, frames, s) && CurrentGround(frames, s)
    requires frames != [] && frames[0].index + 1 < |frames[0].literals|
    ensures SafeStack(p, Advance(frames), s)
    ensures forall variables, id :: WillBeGround(frames, variables, id, s) ==>
              WillBeGround(Advance(frames), variables, id, s)
  {
    hide Acyclic;
    var f, frames' := frames[0], Advance(frames);
    BodyVarsSnoc(f.literals, f.index);
    forall k | 0 < k < |frames'|
      ensures Linked(frames'[k], frames'[k - 1], s)
    {
      assert Linked(frames[k], frames[k - 1], s);
      forall x | x in frames[k].literals[frames[k].index].VariableNames()
        ensures Supplied(s, frames[k].binding, x, frames'[k - 1])
      {
        assert Supplied(s, frames[k].binding, x, frames[k - 1]);
      }
    }
  }

  lemma SafeStackTail(p: Program, frames: seq<Frame>, s: Store)
    requires Acyclic(s) && SafeStack(p, frames, s) && frames != []
    ensures SafeStack(p, frames[1..], s)
    ensures FrameSafe(p, frames[0], s)
    ensures |frames| > 1 ==> FrameSafe(p, frames[1], s) && Linked(frames[1], frames[0], s)
  {
    hide Acyclic, VarsGround, Supplied;
    var rest := frames[1..];
    forall k | 0 < k < |rest|
      ensures FrameSafe(p, rest[k], s) && Linked(rest[k], rest[k - 1], s)
    {
      assert rest[k] == frames[k + 1] && rest[k - 1] == frames[k];
      assert Linked(frames[k + 1], frames[k + 1 - 1], s);
    }
  }

  /** Returning from a body that is fully proved: the literal that called it is ground. */
  lemma SafeToReturn(p: Program, frames: seq<Frame>, variables: seq<string>, id: nat, s: Store)
    requires Acyclic(s) && SafeStack(p, frames, s) && CurrentGround(frames, s)
    requires frames != [] && frames[0].index + 1 == |frames[0].literals|
    ensures SafeStack(p, frames[1..], s) && CurrentGround(frames[1..], s)
    ensures WillBeGround(frames, variables, id, s) ==> WillBeGround(frames[1..], variables, id, s)
  {
    hide Acyclic, SafeStack;
    SafeStackTail(p, frames, s);
    var f := frames[0];
    BodyVarsSnoc(f.literals, f.index);
    assert f.literals[..f.index + 1] == f.literals;
  }

  lemma ArgumentVariable(lit: Literal, i: nat)
    requires i < |lit.arguments|
    ensures lit.arguments[i].Variable? ==> lit.arguments[i].name in lit.VariableNames()
  {}

  /** Proving a literal by a rule with a body, after unifying the rule's head with the literal. */
  lemma SafeToCall(p: Program, frames: seq<Frame>, rule: Rule, id: nat, theory: string, s: Store, s': Store)
    requires Acyclic(s) && Acyclic(s') && SafeStack(p, frames, s) && SafeRule(p, rule) && rule.body != []
    requires frames != [] && frames[0].index < |frames[0].literals|
    requires var lit := frames[0].literals[frames[0].index];
             && |rule.head.arguments| == |lit.arguments|
             && Unified(s, s', rule.head.arguments, id, lit.arguments, frames[0].binding)
    ensures SafeStack(p, [Frame(rule.body, 0, id, theory)] + frames, s')
  {
    hide Acyclic, Unified;
    var callee := Frame(rule.body, 0, id, theory);
    var f := frames[0];
    var lit := f.literals[f.index];
    UnifiedExtends(s, s', rule.head.arguments, id, lit.arguments, f.binding);
    SafeStackExtends(p, frames, s, s');
    assert FrameSafe(p, callee, s');
    forall x | x in lit.VariableNames()
      ensures Supplied(s', f.binding, x, callee)
    {
      var i :| 0 <= i < |lit.arguments| && lit.arguments[i] == Variable(x);
      UnifiedRoots(s, s', rule.head.arguments, id, lit.arguments, f.binding, i);
      ArgumentVariable(rule.head, i);
    }
    var frames' := [callee] + frames;
    forall k | 0 < k < |frames'|
      ensures Linked(frames'[k], frames'[k - 1], s')
    {
      assert k > 1 ==> Linked(frames[k - 1], frames[k - 2], s');
    }
  }

  /** A fact has no variables, so what unifies with it becomes ground. */
  lemma GroundByFact(p: Program, frames: seq<Frame>, rule: Rule, id: nat, s: Store, s': Store)
    requires Acyclic(s) && Acyclic(s') && SafeRule(p, rule) && rule.body == []
    requires frames != [] && frames[0].index < |frames[0].literals|
    requires var lit := frames[0].literals[frames[0].index];
             && |rule.head.arguments| == |lit.arguments|
             && Unified(s, s', rule.head.arguments, id, lit.arguments, frames[0].binding)
    ensures CurrentGround(frames, s')
  {
    hide Acyclic, Unified;
    var lit := frames[0].literals[frames[0].index];
    assert rule.head.VariableNames() == {};
    forall x | x in lit.VariableNames()
      ensures Ground(s', frames[0].binding, x)
    {
      var i :| 0 <= i < |lit.arguments| && lit.arguments[i] == Variable(x);
      UnifiedRoots(s, s', rule.head.arguments, id, lit.arguments, frames[0].binding, i);
      ArgumentVariable(rule.head, i);
    }
  }

  // ---------------------------------------------------------------------------
  // Termination: the literals still to be proved, weighed by all their possible proofs

  ghost function LitWeight(p: Program, theory: string, lit: Literal): nat
    requires Nonrecursive(p)
    decreases LitRank(p, theory, lit), 2, 0
  {
    (if lit.negated then 1 else 0) + 1 +
    if IsSpecial(p, lit) then 0
    else
      var pred := Resolve(theory, lit.table);
      RulesWeight(p, pred, Rules(p, pred.theory, pred.table))
  }

  ghost function RulesWeight(p: Program, pred: Pred, rules: seq<Rule>): nat
    requires Nonrecursive(p)
    requires forall rule | rule in rules :: rule in Rules(p, pred.theory, pred.table)
    decreases p.rank(pred) + 1, 1, |rules|
  {
    if rules == [] then 0
    else
      assert rules[0] in rules;
      (if HeadPred(pred.theory, rules[0].head.table) == pred
       then BodyWeight(p, pred.theory, rules[0].body, p.rank(pred)) else 0)
      + RulesWeight(p, pred, rules[1..])
  }

  ghost function BodyWeight(p: Program, theory: string, body: seq<Literal>, bound: nat): nat
    requires Nonrecursive(p)
    requires forall i | 0 <= i < |body| :: LitRank(p, theory, body[i]) <= bound
    decreases bound, 3, |body|
  {
    if body == [] then 0
    else LitWeight(p, theory, body[0]) + BodyWeight(p, theory, body[1..], bound)
  }

  ghost function Weight(p: Program, theory: string, literals: seq<Literal>): nat
    requires Nonrecursive(p)
  {
    if literals == [] then 0 else LitWeight(p, theory, literals[0]) + Weight(p, theory, literals[1..])
  }

  lemma {:induction false} BodyWeightIsWeight(p: Program, theory: string, body: seq<Literal>, bound: nat)
    requires Nonrecursive(p)
    requires forall i | 0 <= i < |body| :: LitRank(p, theory, body[i]) <= bound
    ensures BodyWeight(p, theory, body, bound) == Weight(p, theory, body)
    decreases |body|
  {
    if body != [] {
      BodyWeightIsWeight(p, theory, body[1..], bound);
    }
  }

  lemma {:induction false} RuleWeighsLess(p: Program, pred: Pred, rules: seq<Rule>, rule: Rule)
    requires Nonrecursive(p) && rule in rules && HeadPred(pred.theory, rule.head.table) == pred
    requires forall r | r in rules :: r in Rules(p, pred.theory, pred.table)
    ensures Weight(p, pred.theory, rule.body) <= RulesWeight(p, pred, rules)
    decreases |rules|
  {
    if rules[0] == rule {
      BodyWeightIsWeight(p, pred.theory, rule.body, p.rank(pred));
    } else {
      RuleWeighsLess(p, pred, rules[1..], rule);
    }
  }

  /** The body of a rule weighs less than the literal it proves. */
  lemma BodyWeighsLess(p: Program, theory: string, lit: Literal, rule: Rule)
    requires Nonrecursive(p) && !lit.negated && !IsSpecial(p, lit)
    requires var pred := Resolve(theory, lit.table);
             rule in Rules(p, pred.theory, pred.table) && HeadPred(pred.theory, rule.head.table) == pred
    ensures Weight(p, Host(theory, lit.table), rule.body) < LitWeight(p, theory, lit)
  {
    var pred := Resolve(theory, lit.table);
    RuleWeighsLess(p, pred, Rules(p, pred.theory, pred.table), rule);
  }

  ghost function AfterWeight(p: Program, frames: seq<Frame>): nat
    requires Nonrecursive(p)
    decreases |frames|
  {
    if frames == [] then 0
    else RemainingWeight(p, frames[0]) + AfterWeight(p, frames[1..])
  }

  ghost function RemainingWeight(p: Program, f: Frame): nat
    requires Nonrecursive(p)
  {
    if f.index < |f.literals| then Weight(p, f.theory, f.literals[f.index + 1..]) else 0
  }

  lemma AdvanceWeight(p: Program, frames: seq<Frame>)
    requires Nonrecursive(p) && frames != [] && frames[0].index + 1 < |frames[0].literals|
    ensures var f := frames[0];
            AfterWeight(p, frames) == LitWeight(p, f.theory, f.literals[f.index + 1]) + AfterWeight(p, Advance(frames))
  {
    var f := frames[0];
    assert Advance(frames)[1..] == frames[1..];
    assert f.literals[f.index + 1..][1..] == f.literals[f.index + 2..];
  }

  lemma CallWeight(p: Program, frames: seq<Frame>, body: seq<Literal>, id: nat, theory: string)
    requires Nonrecursive(p) && body != []
    ensures LitWeight(p, theory, body[0]) + AfterWeight(p, [Frame(body, 0, id, theory)] + frames) ==
            Weight(p, theory, body) + AfterWeight(p, frames)
  {
    assert ([Frame(body, 0, id, theory)] + frames)[1..] == frames;
  }

  /** The solutions do not change when the search moves on to the next literal. */
  lemma AdvanceSolutions(p: Program, frames: seq<Frame>, s: Store)
    requires Nonrecursive(p) && frames != [] && frames[0].index + 1 < |frames[0].literals|
    ensures var f := frames[0];
            FinishSolutions(p, frames, s) ==
            EvalSolutions(p, f.theory, f.literals[f.index + 1], Advance(frames), s)
  {
    var f, frames' := frames[0], Advance(frames);
    assert frames'[1..] == frames[1..];
    var rest := f.literals[f.index + 1..];
    assert rest[1..] == f.literals[f.index + 2..];
    forall sigma: Grounding
      ensures AfterTrue(p, frames, sigma) <==>
              LitTrue(p, f.theory, f.literals[f.index + 1], Reading(sigma, f.binding)) && AfterTrue(p, frames', sigma)
    {
      AllTrueSplit(p, f.theory, rest, Reading(sigma, f.binding));
    }
  }

  /** ... nor when it returns to the literals after the one that called a fully proved body. */
  lemma ReturnSolutions(p: Program, frames: seq<Frame>, s: Store)
    requires Nonrecursive(p) && frames != [] && frames[0].index + 1 == |frames[0].literals|
    ensures FinishSolutions(p, frames, s) == FinishSolutions(p, frames[1..], s)
  {
    forall sigma: Grounding
      ensures AfterTrue(p, frames, sigma) <==> AfterTrue(p, frames[1..], sigma)
    {
      assert frames[0].literals[frames[0].index + 1..] == [];
    }
  }
}
