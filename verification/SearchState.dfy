/**
 The mutable state of the search, and what each of its steps does to the solutions.
 */
module SearchState {
  import opened Syntax
  import opened Unify
  import opened Semantics
  import opened Safety
  import opened SearchSpec
  import opened SearchStack

  /** Search state: the literals being proved in one unifier, and where to return to. */
  class TopDownContext {
    const literals: seq<Literal>
    var literalIndex: nat
    const binding: BiUnifier
    const previous: TopDownContext?
    const theory: string
    const depth: nat

    constructor (literals: seq<Literal>, literalIndex: nat, binding: BiUnifier, previous: TopDownContext?,
                 theory: string, depth: nat)
      ensures this.literals == literals && this.literalIndex == literalIndex && this.binding == binding
      ensures this.previous == previous && this.theory == theory && this.depth == depth
    {
      this.literals, this.literalIndex, this.binding := literals, literalIndex, binding;
      this.previous, this.theory, this.depth := previous, theory, depth;
    }
  }

  /** The original caller: the variables it wants bindings for, and what has been found. */
  class TopDownCaller {
    const variables: seq<string>
    const binding: BiUnifier
    const findAll: bool
    var results: seq<Answer>

    constructor (variables: seq<string>, binding: BiUnifier, findAll: bool)
      ensures this.variables == variables && this.binding == binding && this.findAll == findAll
      ensures results == []
    {
      this.variables, this.binding, this.findAll, this.results := variables, binding, findAll, [];
    }
  }

  /** The contexts from `context` on, as values. */
  ghost predicate Stacked(context: TopDownContext?, chain: seq<TopDownContext>, frames: seq<Frame>)
    reads chain
    decreases |chain|
  {
    && |chain| == |frames|
    && (context == null <==> chain == [])
    && (context != null ==>
          && context == chain[0] && context !in chain[1..]
          && frames[0] == Frame(context.literals, context.literalIndex, context.binding.id, context.theory)
          && Stacked(context.previous, chain[1..], frames[1..]))
  }

  ghost predicate HasCurrent(frames: seq<Frame>) {
    frames != [] && frames[0].index < |frames[0].literals|
  }

  /** The literal whose turn it is. */
  ghost function Current(frames: seq<Frame>): Literal
    requires HasCurrent(frames)
  {
    frames[0].literals[frames[0].index]
  }

  ghost predicate Ready(p: Program, m: Memory, context: TopDownContext?, caller: TopDownCaller,
                        chain: seq<TopDownContext>, frames: seq<Frame>)
    reads chain
  {
    && Nonrecursive(p) && SafeProgram(p)
    && m.Valid()
    && Stacked(context, chain, frames)
    && (forall c | c in chain :: m.Registered(c.binding))
    && m.Registered(caller.binding)
    && Acyclic(m.store)
    && SafeStack(p, frames, m.store)
    && (forall f | f in frames :: f.index < |f.literals|)
  }

  /** Nothing has changed since the given memory and results, but for the answers appended to the results. */
  ghost predicate Restored(before: Memory, results: seq<Answer>, context: TopDownContext?, caller: TopDownCaller,
                           registry: Registry, chain: seq<TopDownContext>, frames: seq<Frame>, answers: seq<Answer>)
    reads registry, registry.units, chain, caller
  {
    && registry.Valid()
    && Kept(before, registry.Snapshot()) && registry.store == before.store
    && Stacked(context, chain, frames)
    && caller.results == results + answers
  }

  /** Unifiers created since are new objects. */
  twostate predicate OnlyNew(registry: Registry)
    reads registry, registry.units
  {
    fresh(registry.Objects() - old(registry.Objects()))
  }

  /** What the search must have delivered from a given set of solutions. */
  ghost predicate Delivers(solutions: iset<Grounding>, caller: TopDownCaller, frames: seq<Frame>, s: Store,
                           found: bool, answers: seq<Answer>)
    requires Acyclic(s)
  {
    && Answers(solutions, caller.variables, caller.binding.id, caller.findAll, found, answers)
    && (WillBeGround(frames, caller.variables, caller.binding.id, s) ==> AllGround(answers, caller.variables))
  }

  // ---------------------------------------------------------------------------
  // Reading terms

  ghost predicate IsPlugged(plugged: Term, root: Image) {
    match plugged
    case ObjectConstant(c) => root == Const(c)
    case Variable(x) => root.Var? && root.node.name == x
  }

  ghost predicate IsFlattened(answer: Answer, variables: seq<string>, id: nat, s: Store)
    requires Acyclic(s)
  {
    && answer.Keys == (set x | x in variables)
    && forall x | x in variables :: IsPlugged(answer[x], Root(s, Node(id, x)))
  }

  lemma FlattenedAnswer(p: Program, caller: TopDownCaller, s: Store, answer: Answer)
    requires Nonrecursive(p) && Acyclic(s)
    requires IsFlattened(answer, caller.variables, caller.binding.id, s)
    ensures Delivers(FinishSolutions(p, [], s), caller, [], s, true, [answer])
  {
    hide Acyclic, Satisfies;
    var sols := FinishSolutions(p, [], s);
    forall sigma | sigma in sols
      ensures Matches(answer, caller.variables, caller.binding.id, sigma)
    {
      forall x | x in caller.variables && answer[x].ObjectConstant?
        ensures answer[x].value == sigma(Node(caller.binding.id, x))
      {
        SolutionAtRoot(s, sigma, Node(caller.binding.id, x));
      }
    }
    var sigma := SolutionExists(s);
    assert sigma in sols;
    assert [answer][0] in [answer];
  }

  // ---------------------------------------------------------------------------
  // What the special literals contribute

  lemma ValuesOfGround(s: Store, id: nat, terms: seq<Term>, sigma: Grounding, sigma': Grounding)
    requires Acyclic(s) && Solves(s, sigma) && Solves(s, sigma') && VarsGround(s, id, TermVars(terms))
    ensures Values(terms, Reading(sigma, id)) == Values(terms, Reading(sigma', id))
  {
    hide Acyclic, Satisfies;
    forall i | 0 <= i < |terms|
      ensures TermValue(terms[i], Reading(sigma, id)) == TermValue(terms[i], Reading(sigma', id))
    {
      if terms[i].Variable? {
        assert terms[i].name in TermVars(terms);
        assert Ground(s, id, terms[i].name);
        SolutionAtRoot(s, sigma, Node(id, terms[i].name));
        SolutionAtRoot(s, sigma', Node(id, terms[i].name));
      }
    }
  }

  /** The frame in which the complement of a negated literal is tried. */
  ghost function NegationFrame(lit: Literal, id: nat, theory: string): Frame {
    Frame([lit.Complement()], 0, id, theory)
  }

  lemma NegationIsSafe(p: Program, frames: seq<Frame>, theory: string, s: Store)
    requires Acyclic(s) && SafeStack(p, frames, s) && frames != [] && frames[0].index < |frames[0].literals|
    requires frames[0].literals[frames[0].index].negated
    ensures var lit := frames[0].literals[frames[0].index];
            && SafeStack(p, [NegationFrame(lit, frames[0].binding, theory)], s)
            && VarsGround(s, frames[0].binding, lit.VariableNames())
            && CurrentGround(frames, s)
  {
    hide Acyclic;
    assert FrameSafe(p, frames[0], s);
    CurrentNeedsGround(p, frames[0], s);
  }

  /** With its variables ground, a negated literal is true in all solutions or in none. */
  lemma NegationSolutions(p: Program, theory: string, lit: Literal, frames: seq<Frame>, s: Store,
                          variables: seq<string>, id: nat, found: bool, answers: seq<Answer>)
    requires Nonrecursive(p) && Acyclic(s) && lit.negated && frames != []
    requires VarsGround(s, frames[0].binding, lit.VariableNames())
    requires Answers(EvalSolutions(p, theory, lit.Complement(), [NegationFrame(lit, frames[0].binding, theory)], s),
                     variables, id, false, found, answers)
    ensures |answers| > 0 ==> EvalSolutions(p, theory, lit, frames, s) == iset{}
    ensures |answers| == 0 ==> EvalSolutions(p, theory, lit, frames, s) == FinishSolutions(p, frames, s)
  {
    hide Acyclic, Satisfies, Matches, VarsGround;
    var frame := NegationFrame(lit, frames[0].binding, theory);
    var tried := EvalSolutions(p, theory, lit.Complement(), [frame], s);
    assert frame.literals[1..] == [] && [frame][1..] == [];
    forall sigma, sigma' | Solves(s, sigma) && Solves(s, sigma')
      ensures LitTrue(p, theory, lit, Reading(sigma, frames[0].binding)) ==
              LitTrue(p, theory, lit, Reading(sigma', frames[0].binding))
    {
      ValuesOfGround(s, frames[0].binding, lit.arguments, sigma, sigma');
      LitTrueByValues(p, theory, lit, Reading(sigma, frames[0].binding), Reading(sigma', frames[0].binding));
    }
    forall sigma | Solves(s, sigma)
      ensures sigma in tried <==> !LitTrue(p, theory, lit, Reading(sigma, frames[0].binding))
    {
      ComplementIsOpposite(p, theory, lit, Reading(sigma, frames[0].binding));
      assert AfterTrue(p, [frame][1..], sigma) && AfterTrue(p, [frame], sigma);
    }
    if |answers| > 0 {
      assert answers[0] in answers;
      var sigma :| sigma in tried;
    }
  }

  /** The same, for what the search for the complement has delivered. */
  lemma NegationDelivers(p: Program, theory: string, lit: Literal, frames: seq<Frame>, s: Store,
                         tried: TopDownCaller, found: bool, answers: seq<Answer>)
    requires Nonrecursive(p) && Acyclic(s) && lit.negated && frames != []
    requires VarsGround(s, frames[0].binding, lit.VariableNames()) && !tried.findAll
    requires var frame := NegationFrame(lit, frames[0].binding, theory);
             Delivers(EvalSolutions(p, theory, lit.Complement(), [frame], s), tried, [frame], s, found, answers)
    ensures |answers| > 0 ==> EvalSolutions(p, theory, lit, frames, s) == iset{}
    ensures |answers| == 0 ==> EvalSolutions(p, theory, lit, frames, s) == FinishSolutions(p, frames, s)
  {
    hide Acyclic, Answers, AllGround;
    NegationSolutions(p, theory, lit, frames, s, tried.variables, tried.binding.id, found, answers);
  }

  lemma PluggedIsGround(plugged: seq<Term>, terms: seq<Term>, id: nat, s: Store)
    requires Acyclic(s) && |plugged| == |terms| && VarsGround(s, id, TermVars(terms))
    requires forall i | 0 <= i < |terms| :: IsPlugged(plugged[i], RootOf(s, terms[i], id))
    ensures forall i | 0 <= i < |terms| :: plugged[i].ObjectConstant?
  {
    hide Acyclic;
    forall i | 0 <= i < |terms|
      ensures plugged[i].ObjectConstant?
    {
      if terms[i].Variable? {
        assert terms[i].name in TermVars(terms);
        assert Ground(s, id, terms[i].name);
      }
    }
  }

  /** The complement weighs less than the negated literal. */
  lemma NegationWeight(p: Program, theory: string, lit: Literal, id: nat, frames: seq<Frame>)
    requires Nonrecursive(p) && lit.negated
    ensures LitWeight(p, theory, lit.Complement()) + AfterWeight(p, [NegationFrame(lit, id, theory)]) <
            LitWeight(p, theory, lit) + AfterWeight(p, frames)
  {
    var frame := NegationFrame(lit, id, theory);
    assert frame.literals[1..] == [] && [frame][1..] == [];
  }

  lemma ComplementIsOpposite(p: Program, theory: string, lit: Literal, nu: Valuation)
    requires Nonrecursive(p)
    ensures LitTrue(p, theory, lit.Complement(), nu) == !LitTrue(p, theory, lit, nu)
  {}

  lemma LitTrueSpecial(p: Program, theory: string, lit: Literal, nu: Valuation)
    requires Nonrecursive(p) && !lit.negated && IsSpecial(p, lit)
    ensures LitTrue(p, theory, lit, nu) <==>
              IsTrueTable(lit) || (!IsFalseTable(lit) && BuiltinTrue(p, lit, nu))
  {}

  lemma ConstantTableSolutions(p: Program, theory: string, lit: Literal, frames: seq<Frame>, s: Store)
    requires Nonrecursive(p) && !lit.negated && frames != []
    ensures IsTrueTable(lit) ==> EvalSolutions(p, theory, lit, frames, s) == FinishSolutions(p, frames, s)
    ensures IsFalseTable(lit) ==> EvalSolutions(p, theory, lit, frames, s) == iset{}
  {
    if IsTrueTable(lit) || IsFalseTable(lit) {
      forall sigma: Grounding {
        LitTrueSpecial(p, theory, lit, Reading(sigma, frames[0].binding));
      }
    }
  }

  lemma ConstantTableIsGround(p: Program, frames: seq<Frame>, s: Store)
    requires Acyclic(s) && SafeStack(p, frames, s) && HasCurrent(frames)
    requires IsTrueTable(Current(frames))
    ensures CurrentGround(frames, s)
  {
    hide Acyclic;
    assert FrameSafe(p, frames[0], s);
    assert WellFormedLiteral(p, frames[0].literals[frames[0].index]);
  }

  /** The terms a builtin's outputs are unified with. */
  function ResultTerms(outputs: seq<Constant>): seq<Term> {
    seq(|outputs|, i requires 0 <= i < |outputs| => ObjectConstant(outputs[i]))
  }

  /** A builtin is called on the values its inputs have in every solution. */
  lemma BuiltinInputValues(p: Program, lit: Literal, id: nat, s: Store, args: seq<Constant>, sigma: Grounding)
    requires Acyclic(s) && Solves(s, sigma) && IsBuiltin(p, lit)
    requires |args| == p.builtins[lit.table.table].numInputs <= |lit.arguments|
    requires forall i | 0 <= i < |args| :: RootOf(s, lit.arguments[i], id) == Const(args[i])
    ensures Values(lit.arguments, Reading(sigma, id))[..|args|] == args
  {
    hide Acyclic, Satisfies;
    forall i | 0 <= i < |args|
      ensures Values(lit.arguments, Reading(sigma, id))[i] == args[i]
    {
      if lit.arguments[i].Variable? {
        SolutionAtRoot(s, sigma, Node(id, lit.arguments[i].name));
      }
    }
  }

  lemma BuiltinSolutions(p: Program, theory: string, lit: Literal, frames: seq<Frame>, s: Store, args: seq<Constant>)
    requires Nonrecursive(p) && Acyclic(s) && frames != []
    requires IsBuiltin(p, lit) && !IsTrueTable(lit) && !IsFalseTable(lit) && !lit.negated
    requires |args| == p.builtins[lit.table.table].numInputs <= |lit.arguments|
    requires forall i | 0 <= i < |args| :: RootOf(s, lit.arguments[i], frames[0].binding) == Const(args[i])
    ensures var b := p.builtins[lit.table.table];
            forall sigma: Grounding ::
              sigma in EvalSolutions(p, theory, lit, frames, s) <==>
                && sigma in FinishSolutions(p, frames, s)
                && b.code(args).Some?
                && (b.numInputs < b.arity ==>
                      b.code(args).value == Values(lit.arguments, Reading(sigma, frames[0].binding))[b.numInputs..])
  {
    hide Acyclic, Satisfies;
    var b := p.builtins[lit.table.table];
    forall sigma: Grounding
      ensures sigma in EvalSolutions(p, theory, lit, frames, s) <==>
                && sigma in FinishSolutions(p, frames, s)
                && b.code(args).Some?
                && (b.numInputs < b.arity ==>
                      b.code(args).value == Values(lit.arguments, Reading(sigma, frames[0].binding))[b.numInputs..])
    {
      if Solves(s, sigma) {
        BuiltinInputValues(p, lit, frames[0].binding, s, args, sigma);
        LitTrueSpecial(p, theory, lit, Reading(sigma, frames[0].binding));
      }
    }
  }

  lemma ResultTermValues(outputs: seq<Constant>, nu: Valuation)
    ensures Values(ResultTerms(outputs), nu) == outputs
  {}

  lemma ValuesOfSuffix(terms: seq<Term>, n: nat, nu: Valuation)
    requires n <= |terms|
    ensures Values(terms, nu)[n..] == Values(terms[n..], nu)
  {}

  /** Unifying the outputs leaves exactly the solutions in which the builtin is true. */
  lemma BuiltinOutputSolutions(p: Program, theory: string, lit: Literal, frames: seq<Frame>, s: Store, s': Store,
                               args: seq<Constant>, id: nat)
    requires Nonrecursive(p) && Acyclic(s) && frames != []
    requires IsBuiltin(p, lit) && !IsTrueTable(lit) && !IsFalseTable(lit) && !lit.negated
    requires var b := p.builtins[lit.table.table];
             && |args| == b.numInputs <= |lit.arguments| && b.numInputs < b.arity
             && b.code(args).Some?
             && |b.code(args).value| == |lit.arguments[b.numInputs..]|
             && Unified(s, s', ResultTerms(b.code(args).value), id, lit.arguments[b.numInputs..], frames[0].binding)
    requires forall i | 0 <= i < |args| :: RootOf(s, lit.arguments[i], frames[0].binding) == Const(args[i])
    ensures EvalSolutions(p, theory, lit, frames, s) == FinishSolutions(p, frames, s')
  {
    hide Acyclic, Satisfies, Unified;
    var b := p.builtins[lit.table.table];
    var outputs := b.code(args).value;
    BuiltinSolutions(p, theory, lit, frames, s, args);
    forall sigma: Grounding
      ensures sigma in EvalSolutions(p, theory, lit, frames, s) <==> sigma in FinishSolutions(p, frames, s')
    {
      UnifiedSolutions(s, s', ResultTerms(outputs), id, lit.arguments[b.numInputs..], frames[0].binding, sigma);
      ResultTermValues(outputs, Reading(sigma, id));
      ValuesOfSuffix(lit.arguments, b.numInputs, Reading(sigma, frames[0].binding));
    }
  }

  lemma BuiltinOutputsClash(p: Program, theory: string, lit: Literal, frames: seq<Frame>, s: Store,
                            args: seq<Constant>, id: nat)
    requires Nonrecursive(p) && Acyclic(s) && frames != []
    requires IsBuiltin(p, lit) && !IsTrueTable(lit) && !IsFalseTable(lit) && !lit.negated
    requires var b := p.builtins[lit.table.table];
             && |args| == b.numInputs <= |lit.arguments| && b.numInputs < b.arity
             && b.code(args).Some?
             && !Unifiable(s, ResultTerms(b.code(args).value), id, lit.arguments[b.numInputs..], frames[0].binding)
    requires forall i | 0 <= i < |args| :: RootOf(s, lit.arguments[i], frames[0].binding) == Const(args[i])
    ensures EvalSolutions(p, theory, lit, frames, s) == iset{}
  {
    hide Acyclic, Satisfies, Unifiable;
    var b := p.builtins[lit.table.table];
    var outputs := b.code(args).value;
    BuiltinSolutions(p, theory, lit, frames, s, args);
    forall sigma | Solves(s, sigma)
      ensures sigma !in EvalSolutions(p, theory, lit, frames, s)
    {
      NotUnifiableHasNoSolution(s, ResultTerms(outputs), id, lit.arguments[b.numInputs..], frames[0].binding, sigma);
      ResultTermValues(outputs, Reading(sigma, id));
      ValuesOfSuffix(lit.arguments, b.numInputs, Reading(sigma, frames[0].binding));
    }
  }

  /** Inputs were ground, outputs have been unified with constants. */
  lemma GroundByBuiltin(p: Program, frames: seq<Frame>, s: Store, s': Store, outputs: seq<Constant>, id: nat)
    requires Acyclic(s) && Acyclic(s') && SafeStack(p, frames, s)
    requires frames != [] && frames[0].index < |frames[0].literals|
    requires var lit := frames[0].literals[frames[0].index];
             && IsBuiltin(p, lit) && !lit.negated
             && p.builtins[lit.table.table].numInputs <= |lit.arguments|
             && var n := p.builtins[lit.table.table].numInputs;
             && |outputs| == |lit.arguments[n..]|
             && Unified(s, s', ResultTerms(outputs), id, lit.arguments[n..], frames[0].binding)
    ensures CurrentGround(frames, s')
  {
    hide Acyclic, Unified;
    var f := frames[0];
    var lit := f.literals[f.index];
    var n := p.builtins[lit.table.table].numInputs;
    UnifiedExtends(s, s', ResultTerms(outputs), id, lit.arguments[n..], f.binding);
    CurrentNeedsGround(p, f, s);
    forall x | x in lit.VariableNames()
      ensures Ground(s', f.binding, x)
    {
      var i :| 0 <= i < |lit.arguments| && lit.arguments[i] == Variable(x);
      if i < n {
        assert lit.arguments[..n][i] == Variable(x);
        GroundExtends(s, s', f.binding, x);
      } else {
        assert lit.arguments[n..][i - n] == Variable(x);
        UnifiedRoots(s, s', ResultTerms(outputs), id, lit.arguments[n..], f.binding, i - n);
      }
    }
  }

  /** A builtin without outputs has only inputs, which are ground. */
  lemma GroundByTest(p: Program, frames: seq<Frame>, s: Store)
    requires Acyclic(s) && SafeStack(p, frames, s)
    requires frames != [] && frames[0].index < |frames[0].literals|
    requires var lit := frames[0].literals[frames[0].index];
             && IsBuiltin(p, lit) && !lit.negated
             && p.builtins[lit.table.table].arity <= p.builtins[lit.table.table].numInputs <= |lit.arguments|
    ensures CurrentGround(frames, s)
  {
    hide Acyclic;
    var f := frames[0];
    var lit := f.literals[f.index];
    CurrentNeedsGround(p, f, s);
    var n := p.builtins[lit.table.table].numInputs;
    assert lit.arguments[..n] == lit.arguments;
  }

  lemma DeliversNothing(solutions: iset<Grounding>, caller: TopDownCaller, frames: seq<Frame>, s: Store)
    requires Acyclic(s) && solutions == iset{}
    ensures Delivers(solutions, caller, frames, s, false, [])
  {
    NoAnswers(solutions, caller.variables, caller.binding.id, caller.findAll);
  }

  /** What was delivered after some bindings counts as delivered for the state before them. */
  lemma DeliversBefore(solutions: iset<Grounding>, caller: TopDownCaller, frames: seq<Frame>, s: Store, s': Store,
                       found: bool, answers: seq<Answer>)
    requires Acyclic(s) && Acyclic(s') && Extends(s, s')
    requires Delivers(solutions, caller, frames, s', found, answers)
    ensures Delivers(solutions, caller, frames, s, found, answers)
  {
    hide Acyclic, Answers, Extends, AllGround;
    if WillBeGround(frames, caller.variables, caller.binding.id, s) {
      WillBeGroundExtends(frames, caller.variables, caller.binding.id, s, s');
    }
  }

  /** The bottom of the stack decides which variables get bound, so a call on top of it does not matter. */
  lemma DeliversUnderCall(solutions: iset<Grounding>, caller: TopDownCaller, callee: Frame, frames: seq<Frame>,
                          s: Store,
                          found: bool, answers: seq<Answer>)
    requires Acyclic(s) && frames != []
    requires Delivers(solutions, caller, [callee] + frames, s, found, answers)
    ensures Delivers(solutions, caller, frames, s, found, answers)
  {
    hide Acyclic, Answers, AllGround;
    var frames' := [callee] + frames;
    assert frames'[|frames'| - 1] == frames[|frames| - 1];
  }

  predicate MayMatch(rule: Rule, plugged: seq<Term>) {
    rule.body == [] ==>
      forall i | 0 <= i < |plugged| && plugged[i].ObjectConstant? ::
        i < |rule.head.arguments| && rule.head.arguments[i] == plugged[i]
  }

  /** The rules to try: all those with a body, and the facts that agree with the constants of the literal. */
  function HeadIndex(rules: seq<Rule>, plugged: seq<Term>): (candidates: seq<Rule>)
    ensures forall rule :: rule in candidates <==> rule in rules && MayMatch(rule, plugged)
  {
    if rules == [] then []
    else
      assert rules == [rules[0]] + rules[1..];
      (if MayMatch(rules[0], plugged) then [rules[0]] else []) + HeadIndex(rules[1..], plugged)
  }

  /** The facts that the index leaves out prove nothing. */
  lemma OmittedProvesNothing(p: Program, pred: Pred, rule: Rule, lit: Literal, frames: seq<Frame>, s: Store,
                             plugged: seq<Term>)
    requires Nonrecursive(p) && Acyclic(s) && frames != [] && SafeRule(p, rule)
    requires |plugged| == |lit.arguments|
    requires forall i | 0 <= i < |plugged| :: IsPlugged(plugged[i], RootOf(s, lit.arguments[i], frames[0].binding))
    requires !MayMatch(rule, plugged)
    ensures RuleSolutions(p, pred, rule, lit, frames, s) == iset{}
  {
    hide Acyclic, Satisfies, Root;
    assert rule.head.VariableNames() == {};
    var i :| 0 <= i < |plugged| && plugged[i].ObjectConstant? &&
             !(i < |rule.head.arguments| && rule.head.arguments[i] == plugged[i]);
    var id := frames[0].binding;
    forall sigma | sigma in RuleSolutions(p, pred, rule, lit, frames, s)
      ensures false
    {
      var nu :| Derives(p, pred, rule, nu, Values(lit.arguments, Reading(sigma, id)));
      var v := Values(rule.head.arguments, nu);
      assert v == Values(lit.arguments, Reading(sigma, id));
      assert i < |rule.head.arguments| by {
        assert |v| == |rule.head.arguments|;
      }
      if lit.arguments[i].Variable? {
        SolutionAtRoot(s, sigma, Node(id, lit.arguments[i].name));
      }
      assert v[i] == plugged[i].value;
      ArgumentVariable(rule.head, i);
    }
  }

  // ---------------------------------------------------------------------------
  // Steps of the search

  /** What the search for the next literal delivers is what was wanted from finishing the current one. */
  lemma AdvanceDelivers(p: Program, caller: TopDownCaller, frames: seq<Frame>, s: Store,
                        found: bool, answers: seq<Answer>)
    requires Nonrecursive(p) && Acyclic(s) && SafeStack(p, frames, s) && CurrentGround(frames, s)
    requires frames != [] && frames[0].index + 1 < |frames[0].literals|
    requires var f := frames[0];
             Delivers(EvalSolutions(p, f.theory, f.literals[f.index + 1], Advance(frames), s), caller,
                 Advance(frames), s,
                      found, answers)
    ensures Delivers(FinishSolutions(p, frames, s), caller, frames, s, found, answers)
  {
    hide Acyclic, SafeStack, CurrentGround, Answers, WillBeGround, AllGround;
    AdvanceSolutions(p, frames, s);
    SafeToAdvance(p, frames, s);
  }

  lemma ReturnDelivers(p: Program, caller: TopDownCaller, frames: seq<Frame>, s: Store,
                       found: bool, answers: seq<Answer>)
    requires Nonrecursive(p) && Acyclic(s) && SafeStack(p, frames, s) && CurrentGround(frames, s)
    requires frames != [] && frames[0].index + 1 == |frames[0].literals|
    requires Delivers(FinishSolutions(p, frames[1..], s), caller, frames[1..], s, found, answers)
    ensures Delivers(FinishSolutions(p, frames, s), caller, frames, s, found, answers)
  {
    hide Acyclic, SafeStack, CurrentGround, Answers, WillBeGround, AllGround;
    ReturnSolutions(p, frames, s);
    SafeToReturn(p, frames, caller.variables, caller.binding.id, s);
  }

  lemma TopFrame(context: TopDownContext, chain: seq<TopDownContext>, frames: seq<Frame>)
    requires Stacked(context, chain, frames)
    ensures frames != [] && chain != [] && context in chain
    ensures frames[0] == Frame(context.literals, context.literalIndex, context.binding.id, context.theory)
  {}

  lemma StackedNothing()
    ensures Stacked(null, [], [])
  {}

  lemma StackedPush(newContext: TopDownContext, chain: seq<TopDownContext>, frames: seq<Frame>)
    requires Stacked(newContext.previous, chain, frames) && newContext !in chain
    ensures var frame := Frame(newContext.literals, newContext.literalIndex, newContext.binding.id, newContext.theory);
            Stacked(newContext, [newContext] + chain, [frame] + frames)
  {
    var frame := Frame(newContext.literals, newContext.literalIndex, newContext.binding.id, newContext.theory);
    assert ([newContext] + chain)[1..] == chain && ([frame] + frames)[1..] == frames;
  }

  lemma StackedPop(newContext: TopDownContext, chain: seq<TopDownContext>, frame: Frame, frames: seq<Frame>)
    requires Stacked(newContext, [newContext] + chain, [frame] + frames)
    ensures Stacked(newContext.previous, chain, frames)
  {
    assert ([newContext] + chain)[1..] == chain && ([frame] + frames)[1..] == frames;
  }

  lemma ReadyTail(p: Program, m: Memory, context: TopDownContext, caller: TopDownCaller,
                  chain: seq<TopDownContext>, frames: seq<Frame>)
    requires Ready(p, m, context, caller, chain, frames) && SafeStack(p, frames[1..], m.store)
    ensures Ready(p, m, context.previous, caller, chain[1..], frames[1..])
  {
    hide Memory.Valid, Acyclic, SafeStack, SafeProgram, Nonrecursive;
  }

  lemma ReadyStill(p: Program, m: Memory, m': Memory, context: TopDownContext?, caller: TopDownCaller,
                   chain: seq<TopDownContext>, frames: seq<Frame>)
    requires Ready(p, m, context, caller, chain, frames) && Kept(m, m')
    ensures Ready(p, m', context, caller, chain, frames)
  {
    hide Memory.Valid, Acyclic, SafeStack, SafeProgram, Nonrecursive;
    KeptIsValid(m, m');
  }

  lemma RestoredSince(m0: Memory, m1: Memory, results: seq<Answer>, context: TopDownContext?, caller: TopDownCaller,
                      registry: Registry, chain: seq<TopDownContext>, frames: seq<Frame>, answers: seq<Answer>)
    requires Kept(m0, m1) && Restored(m1, results, context, caller, registry, chain, frames, answers)
    ensures Restored(m0, results, context, caller, registry, chain, frames, answers)
  {
    hide Memory.Valid, Kept, Stacked;
    KeptIsTransitive(m0, m1, registry.Snapshot());
  }

  ghost predicate AtBuiltin(p: Program, frames: seq<Frame>) {
    && HasCurrent(frames)
    && var lit := Current(frames);
       IsBuiltin(p, lit) && !IsTrueTable(lit) && !IsFalseTable(lit) && !lit.negated
  }

  lemma BuiltinIsSafe(p: Program, frames: seq<Frame>, s: Store)
    requires Acyclic(s) && SafeStack(p, frames, s) && AtBuiltin(p, frames)
    ensures var lit := Current(frames);
            var n := p.builtins[lit.table.table].numInputs;
            n <= |lit.arguments| && VarsGround(s, frames[0].binding, TermVars(lit.arguments[..n]))
  {
    hide Acyclic;
    assert FrameSafe(p, frames[0], s);
    CurrentNeedsGround(p, frames[0], s);
  }

  lemma PluggedInputsAreGround(plugged: seq<Term>, terms: seq<Term>, n: nat, id: nat, s: Store)
    requires Acyclic(s) && |plugged| == |terms| && n <= |terms| && VarsGround(s, id, TermVars(terms[..n]))
    requires forall i | 0 <= i < |terms| :: IsPlugged(plugged[i], RootOf(s, terms[i], id))
    ensures forall i | 0 <= i < n ::
              plugged[i].ObjectConstant? && RootOf(s, terms[i], id) == Const(plugged[i].value)
  {
    hide Acyclic;
    PluggedIsGround(plugged[..n], terms[..n], id, s);
    assert forall i | 0 <= i < n :: plugged[..n][i] == plugged[i];
  }

  lemma BuiltinFails(p: Program, theory: string, frames: seq<Frame>, s: Store, args: seq<Constant>)
    requires Nonrecursive(p) && Acyclic(s) && AtBuiltin(p, frames)
    requires var lit := Current(frames);
             && |args| == p.builtins[lit.table.table].numInputs <= |lit.arguments|
             && p.builtins[lit.table.table].code(args).None?
    requires forall i | 0 <= i < |args| :: RootOf(s, Current(frames).arguments[i], frames[0].binding) == Const(args[i])
    ensures EvalSolutions(p, theory, Current(frames), frames, s) == iset{}
  {
    hide Acyclic, Satisfies;
    BuiltinSolutions(p, theory, Current(frames), frames, s, args);
  }

  lemma BuiltinTestSolutions(p: Program, theory: string, frames: seq<Frame>, s: Store, args: seq<Constant>)
    requires Nonrecursive(p) && Acyclic(s) && AtBuiltin(p, frames)
    requires var lit := Current(frames);
             && p.builtins[lit.table.table].arity <= |args|
             && |args| == p.builtins[lit.table.table].numInputs <= |lit.arguments|
             && p.builtins[lit.table.table].code(args).Some?
    requires forall i | 0 <= i < |args| :: RootOf(s, Current(frames).arguments[i], frames[0].binding) == Const(args[i])
    ensures EvalSolutions(p, theory, Current(frames), frames, s) == FinishSolutions(p, frames, s)
  {
    hide Acyclic, Satisfies;
    BuiltinSolutions(p, theory, Current(frames), frames, s, args);
  }

  /** The current literal is a builtin with outputs, and these are its outputs. */
  ghost predicate BuiltinCalled(p: Program, frames: seq<Frame>, s: Store, args: seq<Constant>, outputs: seq<Constant>)
    requires Acyclic(s)
  {
    && AtBuiltin(p, frames)
    && var lit := Current(frames);
       var b := p.builtins[lit.table.table];
       && |args| == b.numInputs <= |lit.arguments| && b.numInputs < b.arity
       && b.code(args) == Some(outputs)
       && forall i | 0 <= i < |args| :: RootOf(s, lit.arguments[i], frames[0].binding) == Const(args[i])
  }

  /** The arguments of a builtin that take its outputs. */
  function OutputArguments(p: Program, lit: Literal): seq<Term>
    requires IsBuiltin(p, lit) && p.builtins[lit.table.table].numInputs <= |lit.arguments|
  {
    lit.arguments[p.builtins[lit.table.table].numInputs..]
  }

  lemma OutputsClash(p: Program, theory: string, frames: seq<Frame>, s: Store, args: seq<Constant>,
                     outputs: seq<Constant>, id: nat)
    requires Nonrecursive(p) && Acyclic(s) && BuiltinCalled(p, frames, s, args, outputs)
    requires !Unifiable(s, ResultTerms(outputs), id, OutputArguments(p, Current(frames)), frames[0].binding)
    ensures EvalSolutions(p, theory, Current(frames), frames, s) == iset{}
  {
    hide Acyclic, Unifiable;
    BuiltinOutputsClash(p, theory, Current(frames), frames, s, args, id);
  }

  lemma ReadyWithMore(p: Program, m: Memory, m': Memory, context: TopDownContext?, caller: TopDownCaller,
                      chain: seq<TopDownContext>, frames: seq<Frame>)
    requires Ready(p, m, context, caller, chain, frames)
    requires m'.Valid() && m'.units == m.units && Extends(m.store, m'.store)
    ensures Ready(p, m', context, caller, chain, frames)
  {
    hide Memory.Valid, Acyclic, SafeStack, SafeProgram, Nonrecursive, Extends, Stacked;
    SafeStackExtends(p, frames, m.store, m'.store);
  }

  lemma ReadyAfterOutputs(p: Program, theory: string, m: Memory, m': Memory, context: TopDownContext,
                          caller: TopDownCaller, chain: seq<TopDownContext>, frames: seq<Frame>,
                          args: seq<Constant>, outputs: seq<Constant>, id: nat)
    requires Ready(p, m, context, caller, chain, frames) && BuiltinCalled(p, frames, m.store, args, outputs)
    requires m'.Valid() && m'.units == m.units
    requires var rest := OutputArguments(p, Current(frames));
             && |outputs| == |rest|
             && Unified(m.store, m'.store, ResultTerms(outputs), id, rest, frames[0].binding)
    ensures Ready(p, m', context, caller, chain, frames) && CurrentGround(frames, m'.store)
    ensures EvalSolutions(p, theory, Current(frames), frames, m.store) == FinishSolutions(p, frames, m'.store)
    ensures Extends(m.store, m'.store)
  {
    hide Memory.Valid, Acyclic, SafeStack, SafeProgram, Nonrecursive, Extends, Unified, Stacked;
    var rest := OutputArguments(p, Current(frames));
    UnifiedExtends(m.store, m'.store, ResultTerms(outputs), id, rest, frames[0].binding);
    ReadyWithMore(p, m, m', context, caller, chain, frames);
    GroundByBuiltin(p, frames, m.store, m'.store, outputs, id);
    BuiltinOutputSolutions(p, theory, Current(frames), frames, m.store, m'.store, args, id);
  }

  /** A literal means the same in the theory it names. */
  lemma ModuleSolutions(p: Program, theory: string, lit: Literal, frames: seq<Frame>, s: Store)
    requires Nonrecursive(p) && frames != [] && !IsSpecial(p, lit) && !lit.negated && IsForeign(theory, lit.table)
    ensures var service := lit.table.service.value;
            && EvalSolutions(p, theory, lit, frames, s) == EvalSolutions(p, service, lit, frames, s)
            && LitWeight(p, theory, lit) == LitWeight(p, service, lit)
            && !IsForeign(service, lit.table)
  {
    var service := lit.table.service.value;
    assert Resolve(theory, lit.table) == Resolve(service, lit.table);
    forall sigma: Grounding
      ensures sigma in EvalSolutions(p, theory, lit, frames, s) <==> sigma in EvalSolutions(p, service, lit, frames, s)
    {
      LitTrueByRule(p, theory, lit, Reading(sigma, frames[0].binding));
      LitTrueByRule(p, service, lit, Reading(sigma, frames[0].binding));
    }
  }

  lemma MissingTheory(p: Program, theory: string, lit: Literal, frames: seq<Frame>, s: Store)
    requires Nonrecursive(p) && frames != [] && !IsSpecial(p, lit) && !lit.negated && IsForeign(theory, lit.table)
    requires lit.table.service.value !in p.theories
    ensures EvalSolutions(p, theory, lit, frames, s) == iset{}
  {
    TableSolutions(p, theory, lit, [], frames, s);
  }

  lemma CandidateSolutions(p: Program, theory: string, frames: seq<Frame>, s: Store, plugged: seq<Term>)
    requires Nonrecursive(p) && SafeProgram(p) && Acyclic(s) && HasCurrent(frames)
    requires var lit := Current(frames);
             && !IsSpecial(p, lit) && !lit.negated && !IsForeign(theory, lit.table)
             && |plugged| == |lit.arguments|
             && forall i | 0 <= i < |plugged| :: IsPlugged(plugged[i], RootOf(s, lit.arguments[i], frames[0].binding))
    ensures var lit := Current(frames);
            var candidates := HeadIndex(Rules(p, theory, lit.table.table), plugged);
            EvalSolutions(p, theory, lit, frames, s) ==
            SomeRuleSolutions(p, Resolve(theory, lit.table), candidates, lit, frames, s)
  {
    hide Acyclic, Root, RuleSolutions, EvalSolutions, MayMatch;
    var lit := Current(frames);
    var pred := Resolve(theory, lit.table);
    var candidates := HeadIndex(Rules(p, theory, lit.table.table), plugged);
    forall rule | rule in Rules(p, pred.theory, pred.table)
      ensures rule in candidates || RuleSolutions(p, pred, rule, lit, frames, s) == iset{}
    {
      if !MayMatch(rule, plugged) {
        OmittedProvesNothing(p, pred, rule, lit, frames, s, plugged);
      }
    }
    TableSolutions(p, theory, lit, candidates, frames, s);
  }

  lemma NoCandidates(p: Program, pred: Pred, candidates: seq<Rule>, lit: Literal, caller: TopDownCaller,
                     frames: seq<Frame>, s: Store)
    requires Nonrecursive(p) && Acyclic(s) && frames != []
    ensures Delivers(SomeRuleSolutions(p, pred, candidates[..0], lit, frames, s), caller, frames, s, false, [])
  {
    hide Acyclic;
    DeliversNothing(SomeRuleSolutions(p, pred, candidates[..0], lit, frames, s), caller, frames, s);
  }

  lemma RestoredMore(m0: Memory, m1: Memory, results: seq<Answer>, before: seq<Answer>, context: TopDownContext?,
                     caller: TopDownCaller, registry: Registry, chain: seq<TopDownContext>, frames: seq<Frame>,
                     more: seq<Answer>)
    requires Kept(m0, m1) && Restored(m1, results + before, context, caller, registry, chain, frames, more)
    ensures Restored(m0, results, context, caller, registry, chain, frames, before + more)
  {
    hide Memory.Valid, Kept, Stacked;
    KeptIsTransitive(m0, m1, registry.Snapshot());
    assert results + before + more == results + (before + more);
  }

  /** One more rule tried. */
  lemma NextRuleDelivers(p: Program, pred: Pred, candidates: seq<Rule>, i: nat, lit: Literal, caller: TopDownCaller,
                         frames: seq<Frame>, s: Store, before: seq<Answer>, found: bool, more: seq<Answer>)
    requires Nonrecursive(p) && Acyclic(s) && frames != [] && i < |candidates|
    requires Delivers(SomeRuleSolutions(p, pred, candidates[..i], lit, frames, s), caller, frames, s, false, before)
    requires Delivers(RuleSolutions(p, pred, candidates[i], lit, frames, s), caller, frames, s, found, more)
    ensures Delivers(SomeRuleSolutions(p, pred, candidates[..i + 1], lit, frames, s), caller, frames, s,
                     found && !caller.findAll, before + more)
  {
    hide Acyclic, Sound, Complete, SomeRuleSolutions, RuleSolutions, WillBeGround;
    assert candidates[..i + 1] == candidates[..i] + [candidates[i]];
    SomeRuleSolutionsSnoc(p, pred, candidates[..i], candidates[i], lit, frames, s);
    AnswersUnion(SomeRuleSolutions(p, pred, candidates[..i], lit, frames, s),
                 RuleSolutions(p, pred, candidates[i], lit, frames, s),
                 caller.variables, caller.binding.id, caller.findAll, false, before, found, more);
  }

  /** When one answer is enough, the rules after the one that gave it need not be tried. */
  lemma FoundDelivers(p: Program, pred: Pred, candidates: seq<Rule>, i: nat, lit: Literal, caller: TopDownCaller,
                      frames: seq<Frame>, s: Store, answers: seq<Answer>)
    requires Nonrecursive(p) && Acyclic(s) && frames != [] && i <= |candidates| && !caller.findAll
    requires Delivers(SomeRuleSolutions(p, pred, candidates[..i], lit, frames, s), caller, frames, s, true, answers)
    ensures Delivers(SomeRuleSolutions(p, pred, candidates, lit, frames, s), caller, frames, s, true, answers)
  {
    hide Acyclic, Sound, WillBeGround, AllGround, RuleSolutions;
    var some, all := SomeRuleSolutions(p, pred, candidates[..i], lit, frames, s),
                     SomeRuleSolutions(p, pred, candidates, lit, frames, s);
    forall sigma | sigma in some
      ensures sigma in all
    {
      var j :| 0 <= j < i && sigma in RuleSolutions(p, pred, candidates[..i][j], lit, frames, s);
      assert candidates[j] == candidates[..i][j];
    }
    SoundTransfer(some, all, caller.variables, caller.binding.id, answers);
  }

  /** The current literal is looked up in this theory, which has this rule for its table. */
  ghost predicate AtRule(p: Program, theory: string, rule: Rule, frames: seq<Frame>) {
    && HasCurrent(frames)
    && var lit := Current(frames);
       && !lit.negated && !IsSpecial(p, lit) && !IsForeign(theory, lit.table)
       && rule in Rules(p, theory, lit.table.table)
  }

  /** The head of the rule has been unified with the current literal. */
  ghost predicate HeadUnified(theory: string, rule: Rule, frames: seq<Frame>, s: Store, s': Store, id: nat)
    requires HasCurrent(frames)
  {
    && rule.head.table.Same(Current(frames).table, theory)
    && |rule.head.arguments| == |Current(frames).arguments|
    && Unified(s, s', rule.head.arguments, id, Current(frames).arguments, frames[0].binding)
  }

  lemma FramesBelow(p: Program, m: Memory, context: TopDownContext?, caller: TopDownCaller,
                    chain: seq<TopDownContext>, frames: seq<Frame>)
    requires Ready(p, m, context, caller, chain, frames)
    ensures Below(frames, |m.units|) && caller.binding.id < |m.units|
    decreases |chain|
  {
    hide Memory.Valid, Acyclic, SafeProgram, Nonrecursive;
    if frames != [] {
      SafeStackTail(p, frames, m.store);
      ReadyTail(p, m, context, caller, chain, frames);
      FramesBelow(p, m, context.previous, caller, chain[1..], frames[1..]);
      assert frames == [frames[0]] + frames[1..];
      assert context in chain;
    }
  }

  /** With the memory as it was before the rule's unifier was created. */
  lemma NoMatchDelivers(p: Program, theory: string, rule: Rule, m: Memory, context: TopDownContext,
                        caller: TopDownCaller, chain: seq<TopDownContext>, frames: seq<Frame>)
    requires Ready(p, m, context, caller, chain, frames) && AtRule(p, theory, rule, frames)
    requires var lit := Current(frames);
             || !rule.head.table.Same(lit.table, theory)
             || !Unifiable(m.store, rule.head.arguments, |m.units|, lit.arguments, frames[0].binding)
    ensures Delivers(RuleSolutions(p, Resolve(theory, Current(frames).table), rule, Current(frames), frames, m.store),
                     caller, frames, m.store, false, [])
  {
    hide Memory.Valid, Acyclic, SafeStack, Unifiable, Closed, Stacked, RuleSolutions;
    FramesBelow(p, m, context, caller, chain, frames);
    MemoryIsClosed(m);
    var pred := Resolve(theory, Current(frames).table);
    RuleDoesNotApply(p, pred, rule, Current(frames), frames, m.store, |m.units|);
    DeliversNothing(RuleSolutions(p, pred, rule, Current(frames), frames, m.store), caller, frames, m.store);
  }

  /** The rule's head has been unified with the current literal, so its body can be proved in its unifier. */
  ghost predicate ReadyToProve(p: Program, theory: string, rule: Rule, id: nat, frames: seq<Frame>, s: Store)
    requires Acyclic(s)
  {
    && AtRule(p, theory, rule, frames)
    && HeadPred(theory, rule.head.table) == Resolve(theory, Current(frames).table)
    && (rule.body == [] ==> CurrentGround(frames, s))
    && (rule.body != [] ==> SafeStack(p, [Frame(rule.body, 0, id, theory)] + frames, s))
  }

  lemma ReadyAfterUnifying(p: Program, theory: string, rule: Rule, m: Memory, m': Memory, context: TopDownContext,
                           caller: TopDownCaller, chain: seq<TopDownContext>, frames: seq<Frame>, id: nat)
    requires Ready(p, m, context, caller, chain, frames) && AtRule(p, theory, rule, frames)
    requires m'.Valid() && m'.units == m.units && HeadUnified(theory, rule, frames, m.store, m'.store, id)
    ensures Ready(p, m', context, caller, chain, frames) && ReadyToProve(p, theory, rule, id, frames, m'.store)
  {
    hide Memory.Valid, Acyclic, SafeStack, Unified, Extends, Stacked;
    UnifiedExtends(m.store, m'.store, rule.head.arguments, id, Current(frames).arguments, frames[0].binding);
    ReadyWithMore(p, m, m', context, caller, chain, frames);
    if rule.body == [] {
      GroundByFact(p, frames, rule, id, m.store, m'.store);
    } else {
      SafeToCall(p, frames, rule, id, theory, m.store, m'.store);
    }
  }

  /** The body is proved on top of the stack, and weighs less than the literal it proves. */
  lemma ReadyAfterCall(p: Program, theory: string, rule: Rule, m: Memory, newContext: TopDownContext,
                       caller: TopDownCaller, chain: seq<TopDownContext>, frames: seq<Frame>)
    requires Ready(p, m, newContext.previous, caller, chain, frames) && m.Registered(newContext.binding)
    requires rule.body != [] && ReadyToProve(p, theory, rule, newContext.binding.id, frames, m.store)
    requires Stacked(newContext, [newContext] + chain,
                     [Frame(rule.body, 0, newContext.binding.id, theory)] + frames)
    ensures var callee := Frame(rule.body, 0, newContext.binding.id, theory);
            && Ready(p, m, newContext, caller, [newContext] + chain, [callee] + frames)
            && LitWeight(p, theory, rule.body[0]) + AfterWeight(p, [callee] + frames) <
               LitWeight(p, theory, Current(frames)) + AfterWeight(p, frames)
  {
    hide Memory.Valid, Acyclic, SafeStack, Stacked;
    CallWeight(p, frames, rule.body, newContext.binding.id, theory);
    BodyWeighsLess(p, theory, Current(frames), rule);
  }

  /** What was found from the body, in a unifier created after `before`, is what the rule gives. */
  lemma RuleDelivers(p: Program, theory: string, rule: Rule, before: Memory, s': Store, context: TopDownContext,
                     caller: TopDownCaller, chain: seq<TopDownContext>, frames: seq<Frame>,
                     found: bool, answers: seq<Answer>)
    requires Ready(p, before, context, caller, chain, frames) && AtRule(p, theory, rule, frames) && Acyclic(s')
    requires HeadUnified(theory, rule, frames, before.store, s', |before.units|)
    requires Delivers(BodySolutions(p, rule.body, |before.units|, theory, frames, s'), caller, frames, s', found,
              answers)
    ensures Delivers(RuleSolutions(p, Resolve(theory, Current(frames).table), rule, Current(frames), frames,
              before.store),
                     caller, frames, before.store, found, answers)
  {
    hide Memory.Valid, Acyclic, SafeStack, Unified, Extends, Stacked, Closed, RuleSolutions, BodySolutions, Answers,
         AllGround, WillBeGround;
    var lit := Current(frames);
    var pred := Resolve(theory, lit.table);
    FramesBelow(p, before, context, caller, chain, frames);
    MemoryIsClosed(before);
    UnifiedExtends(before.store, s', rule.head.arguments, |before.units|, lit.arguments, frames[0].binding);
    RuleApplies(p, pred, rule, lit, frames, before.store, s', |before.units|, caller.variables, caller.binding.id,
                caller.findAll, found, answers);
    DeliversBefore(RuleSolutions(p, pred, rule, lit, frames, before.store), caller, frames, before.store, s',
                   found, answers);
  }

  lemma FactDelivers(p: Program, theory: string, rule: Rule, id: nat, s: Store, caller: TopDownCaller,
                     frames: seq<Frame>, found: bool, answers: seq<Answer>)
    requires Nonrecursive(p) && Acyclic(s) && rule.body == []
    requires Delivers(FinishSolutions(p, frames, s), caller, frames, s, found, answers)
    ensures Delivers(BodySolutions(p, rule.body, id, theory, frames, s), caller, frames, s, found, answers)
  {
    hide Acyclic, Delivers;
    BodySolutionsOfFact(p, rule.body, id, theory, frames, s);
  }

  lemma CallDelivers(p: Program, theory: string, rule: Rule, id: nat, s: Store, caller: TopDownCaller,
                     frames: seq<Frame>, found: bool, answers: seq<Answer>)
    requires Nonrecursive(p) && Acyclic(s) && rule.body != [] && frames != []
    requires var callee := Frame(rule.body, 0, id, theory);
             Delivers(EvalSolutions(p, theory, rule.body[0], [callee] + frames, s), caller, [callee] + frames, s,
                      found, answers)
    ensures Delivers(BodySolutions(p, rule.body, id, theory, frames, s), caller, frames, s, found, answers)
  {
    hide Acyclic, Delivers;
    var callee := Frame(rule.body, 0, id, theory);
    BodySolutionsOfCall(p, rule.body, id, theory, frames, s);
    DeliversUnderCall(EvalSolutions(p, theory, rule.body[0], [callee] + frames, s), caller, callee, frames, s,
                      found, answers);
  }
}
