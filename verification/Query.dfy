/** The external interface of top-down evaluation, specified by the program's model alone. */
module Query {
  import opened Syntax
  import opened Unify
  import opened Semantics
  import opened Safety
  import opened SearchSpec
  import opened SearchStack
  import opened SearchState
  import opened TopDown

  /** Evaluating the literals, with some variables bound beforehand, never gets stuck. */
  ghost predicate SafeQuery(p: Program, literals: seq<Literal>, bound: set<string>) {
    forall i | 0 <= i < |literals| ::
      WellFormedLiteral(p, literals[i]) && Needs(p, literals[i]) <= BodyVars(literals[..i]) + bound
  }

  /** The valuation agrees with the given bindings and makes all literals true. */
  ghost predicate Satisfied(p: Program, theory: string, literals: seq<Literal>, binding: map<string, Constant>,
                            nu: Valuation)
    requires Nonrecursive(p)
  {
    && AllTrue(p, theory, literals, nu)
    && forall x | x in binding :: nu(x) == binding[x]
  }

  function Project(variables: seq<string>, nu: Valuation): Answer {
    map x | x in variables :: ObjectConstant(nu(x))
  }

  ghost predicate IsTrueInstance(p: Program, theory: string, variables: seq<string>, literals: seq<Literal>,
                                 binding: map<string, Constant>, answer: Answer)
    requires Nonrecursive(p)
  {
    exists nu: Valuation :: Satisfied(p, theory, literals, binding, nu) && answer == Project(variables, nu)
  }

  /** The store in which one unifier holds the given bindings. */
  ghost function BindingStore(binding: map<string, Constant>): Store {
    imap n: Node | n.unifier == 0 && n.name in binding :: Const(binding[n.name])
  }

  lemma BindingStoreIsAcyclic(binding: map<string, Constant>)
    ensures Acyclic(BindingStore(binding))
    ensures forall x | x in binding :: Ground(BindingStore(binding), 0, x)
  {
    assert Ranked(BindingStore(binding), n => 0);
  }

  method NewBoundUnifier(binding: map<string, Constant>, ghost registry: Registry) returns (u: BiUnifier)
    requires registry.Valid() && registry.units == [] && registry.store == imap[]
    modifies registry
    ensures registry.Valid() && fresh(u) && registry.units == [u] && u.id == 0
    ensures registry.store == BindingStore(binding)
  {
    hide Memory.Valid, Acyclic;
    u := NewBiUnifier(registry);
    var keys := binding.Keys;
    ghost var done: map<string, Constant> := map[];
    assert BindingStore(done) == imap[];
    while keys != {}
      invariant registry.Valid() && registry.units == [u] && u.id == 0
      invariant keys <= binding.Keys
      invariant done == map x | x in binding && x !in keys :: binding[x]
      invariant registry.store == BindingStore(done)
      decreases |keys|
    {
      var x :| x in keys;
      keys := keys - {x};
      ghost var done' := map y | y in binding && y !in keys :: binding[y];
      assert BindingStore(done)[Node(0, x) := Const(binding[x])] == BindingStore(done');
      BindingStoreIsAcyclic(done');
      var _ := u.Add(Variable(x), ObjectConstant(binding[x]), null, registry);
      done := done';
    }
    assert done == binding;
  }

  ghost function QueryFrame(literals: seq<Literal>, theory: string): Frame {
    Frame(literals, 0, 0, theory)
  }

  lemma QueryIsSafe(p: Program, theory: string, literals: seq<Literal>, binding: map<string, Constant>)
    requires literals != [] && SafeQuery(p, literals, binding.Keys)
    ensures Acyclic(BindingStore(binding))
    ensures SafeStack(p, [QueryFrame(literals, theory)], BindingStore(binding))
  {
    hide Acyclic, Ground;
    BindingStoreIsAcyclic(binding);
    assert literals[..0] == [];
  }

  lemma QueryBindsVariables(theory: string, variables: seq<string>, literals: seq<Literal>,
                            binding: map<string, Constant>)
    requires forall x | x in variables :: x in BodyVars(literals) + binding.Keys
    ensures Acyclic(BindingStore(binding))
    ensures literals != [] ==> WillBeGround([QueryFrame(literals, theory)], variables, 0, BindingStore(binding))
    ensures literals == [] ==> WillBeGround([], variables, 0, BindingStore(binding))
  {
    hide Acyclic, Ground;
    BindingStoreIsAcyclic(binding);
  }

  /** All ground assignments under which the query is true. */
  ghost function QuerySolutions(p: Program, theory: string, literals: seq<Literal>, binding: map<string, Constant>)
    : iset<Grounding>
    requires Nonrecursive(p)
  {
    BodySolutions(p, literals, 0, theory, [], BindingStore(binding))
  }

  lemma QuerySolutionsAreSatisfied(p: Program, theory: string, literals: seq<Literal>, binding: map<string, Constant>)
    requires Nonrecursive(p)
    ensures forall sigma: Grounding ::
              sigma in QuerySolutions(p, theory, literals, binding) <==>
                Satisfied(p, theory, literals, binding, Reading(sigma, 0))
  {
    hide LitTrue;
    forall sigma: Grounding
      ensures Solves(BindingStore(binding), sigma) <==> forall x | x in binding :: Reading(sigma, 0)(x) == binding[x]
    {
      var s := BindingStore(binding);
      if Solves(s, sigma) {
        forall x | x in binding
          ensures Reading(sigma, 0)(x) == binding[x]
        {
          assert Node(0, x) in s && Lift(sigma)(Node(0, x)) == Apply(Lift(sigma), s[Node(0, x)]);
        }
      }
      if forall x | x in binding :: Reading(sigma, 0)(x) == binding[x] {
        forall n | n in s
          ensures Lift(sigma)(n) == Apply(Lift(sigma), s[n])
        {
          assert Reading(sigma, 0)(n.name) == binding[n.name];
        }
      }
    }
  }

  lemma MatchingAnswer(answer: Answer, variables: seq<string>, sigma: Grounding)
    requires Matches(answer, variables, 0, sigma)
    requires forall x | x in variables :: x in answer && answer[x].ObjectConstant?
    ensures answer == Project(variables, Reading(sigma, 0))
  {}

  /** Ground answers to a query are exactly its true instances. */
  lemma AnswersAreInstances(p: Program, theory: string, variables: seq<string>, literals: seq<Literal>,
                            binding: map<string, Constant>, findAll: bool, found: bool, answers: seq<Answer>)
    requires Nonrecursive(p) && AllGround(answers, variables)
    requires Answers(QuerySolutions(p, theory, literals, binding), variables, 0, findAll, found, answers)
    ensures forall a | a in answers :: IsTrueInstance(p, theory, variables, literals, binding, a)
    ensures findAll ==>
              forall a | IsTrueInstance(p, theory, variables, literals, binding, a) :: a in answers
    ensures !findAll ==> |answers| <= 1
    ensures answers == [] ==> forall a :: !IsTrueInstance(p, theory, variables, literals, binding, a)
  {
    hide Satisfied, QuerySolutions, Matches;
    var sols := QuerySolutions(p, theory, literals, binding);
    QuerySolutionsAreSatisfied(p, theory, literals, binding);
    forall a | a in answers
      ensures IsTrueInstance(p, theory, variables, literals, binding, a)
    {
      var sigma :| sigma in sols && Matches(a, variables, 0, sigma);
      MatchingAnswer(a, variables, sigma);
    }
    forall a | IsTrueInstance(p, theory, variables, literals, binding, a)
      ensures findAll ==> a in answers
      ensures answers != []
    {
      var nu: Valuation :| Satisfied(p, theory, literals, binding, nu) && a == Project(variables, nu);
      var sigma := SolutionFor(p, theory, variables, literals, binding, nu);
      if findAll {
        assert Complete(sols, variables, 0, answers);
        var b :| b in answers && Matches(b, variables, 0, sigma);
        MatchingAnswer(b, variables, sigma);
      }
    }
  }

  lemma SolutionFor(p: Program, theory: string, variables: seq<string>, literals: seq<Literal>,
                    binding: map<string, Constant>, nu: Valuation) returns (sigma: Grounding)
    requires Nonrecursive(p) && Satisfied(p, theory, literals, binding, nu)
    ensures sigma in QuerySolutions(p, theory, literals, binding)
    ensures Project(variables, Reading(sigma, 0)) == Project(variables, nu)
  {
    hide LitTrue;
    sigma := (n: Node) => nu(n.name);
    QuerySolutionsAreSatisfied(p, theory, literals, binding);
    forall i | 0 <= i < |literals|
      ensures LitTrue(p, theory, literals[i], Reading(sigma, 0))
    {
      var args := literals[i].arguments;
      assert Values(args, Reading(sigma, 0)) == Values(args, nu) by {
        assert forall j | 0 <= j < |args| :: TermValue(args[j], Reading(sigma, 0)) == TermValue(args[j], nu);
      }
      LitTrueByValues(p, theory, literals[i], Reading(sigma, 0), nu);
    }
  }

  /**
   All (or the first) bindings of `variables` that make `literals` true in the model of the
   program, given the bindings passed in.
   */
  method TopDownEvaluation(p: Program, theory: string, variables: seq<string>, literals: seq<Literal>,
                           binding: map<string, Constant>, findAll: bool)
    returns (answers: seq<Answer>)
    requires Nonrecursive(p) && SafeProgram(p) && SafeQuery(p, literals, binding.Keys)
    requires forall x | x in variables :: x in BodyVars(literals) + binding.Keys
    ensures forall a | a in answers :: IsTrueInstance(p, theory, variables, literals, binding, a)
    ensures findAll ==>
              forall a | IsTrueInstance(p, theory, variables, literals, binding, a) :: a in answers
    ensures !findAll ==> |answers| <= 1
    ensures answers == [] ==> forall a :: !IsTrueInstance(p, theory, variables, literals, binding, a)
  {
    hide Memory.Valid, Acyclic, SafeStack, SafeProgram, Nonrecursive, Answers, CurrentGround, AfterTrue, LitTrue,
         Kept, Registry.Snapshot, WillBeGround, AllGround, Satisfied, IsTrueInstance, BodySolutions;
    ghost var registry := new Registry();
    var unifier := NewBoundUnifier(binding, registry);
    ghost var s := registry.store;
    var caller := new TopDownCaller(variables, unifier, findAll);
    QueryBindsVariables(theory, variables, literals, binding);
    var found: bool;
    ghost var a: seq<Answer>;
    if |literals| == 0 {
      BodySolutionsOfFact(p, literals, 0, theory, [], s);
      ReadyForNothing(p, registry.Snapshot(), caller);
      found, a := TopDownFinish(p, null, caller, registry, [], []);
    } else {
      QueryIsSafe(p, theory, literals, binding);
      BodySolutionsOfCall(p, literals, 0, theory, [], s);
      var context := new TopDownContext(literals, 0, unifier, null, theory, 0);
      StackedNothing();
      StackedPush(context, [], []);
      ghost var frames := [QueryFrame(literals, theory)];
      assert [context] + [] == [context] && frames + [] == frames;
      found, a := TopDownEval(p, theory, context, caller, registry, [context], frames);
    }
    answers := caller.results;
    assert answers == a;
    AnswersAreInstances(p, theory, variables, literals, binding, findAll, found, answers);
  }

  lemma ReadyForNothing(p: Program, m: Memory, caller: TopDownCaller)
    requires Nonrecursive(p) && SafeProgram(p) && m.Valid() && m.Registered(caller.binding)
    ensures Ready(p, m, null, caller, [], []) && CurrentGround([], m.store)
  {
    hide Memory.Valid, Acyclic, Nonrecursive, SafeProgram;
  }
}
