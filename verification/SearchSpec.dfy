/**
 What top-down evaluation has to find.

 The state of the search is a store of bindings and a stack of frames. A frame is a list of
 literals read in one unifier; all literals after its index are still to be proved. The
 answers are the ground assignments of all nodes that agree with the store and make
 every remaining literal true.
 */
module SearchSpec {
  import opened Syntax
  import opened Unify
  import opened Semantics

  datatype Frame = Frame(literals: seq<Literal>, index: nat, binding: nat, theory: string)

  // ---------------------------------------------------------------------------
  // Ground assignments

  type Grounding = Node -> Constant

  function Lift(sigma: Grounding): Assignment {
    n => Const(sigma(n))
  }

  function Reading(sigma: Grounding, id: nat): Valuation {
    x => sigma(Node(id, x))
  }

  ghost predicate Solves(s: Store, sigma: Grounding) {
    Satisfies(s, Lift(sigma))
  }

  ghost predicate Agree(sigma: Grounding, sigma': Grounding, bound: nat) {
    forall n: Node | n.unifier < bound :: sigma(n) == sigma'(n)
  }

  /** `sigma`, except that the variables of one unifier are read by `nu`. */
  function Overlay(sigma: Grounding, id: nat, nu: Valuation): Grounding {
    (n: Node) => if n.unifier == id then nu(n.name) else sigma(n)
  }

  ghost predicate Closed(s: Store, bound: nat) {
    forall n | n in s :: n.unifier < bound && (s[n].Var? ==> s[n].node.unifier < bound)
  }

  lemma MemoryIsClosed(m: Memory)
    requires m.Valid()
    ensures Closed(m.store, |m.units|)
  {
    hide Memory.Valid;
    forall n | n in m.store
      ensures n.unifier < |m.units| && (m.store[n].Var? ==> m.store[n].node.unifier < |m.units|)
    {
      m.StoreIsClosed(n);
    }
  }

  lemma AgreeSolves(s: Store, sigma: Grounding, sigma': Grounding, bound: nat)
    requires Closed(s, bound) && Agree(sigma, sigma', bound) && Solves(s, sigma)
    ensures Solves(s, sigma')
  {
    forall n | n in s
      ensures Lift(sigma')(n) == Apply(Lift(sigma'), s[n])
    {
      assert Lift(sigma)(n) == Apply(Lift(sigma), s[n]);
    }
  }

  /** A store that is acyclic has a ground solution. */
  lemma SolutionExists(s: Store) returns (sigma: Grounding)
    requires Acyclic(s)
    ensures Solves(s, sigma)
  {
    sigma := n => match Root(s, n)
                  case Const(c) => c
                  case Var(_) => IntegerConstant(0);
    forall n | n in s
      ensures Lift(sigma)(n) == Apply(Lift(sigma), s[n])
    {}
  }

  lemma SolutionAtRoot(s: Store, sigma: Grounding, n: Node)
    requires Acyclic(s) && Solves(s, sigma) && Root(s, n).Const?
    ensures sigma(n) == Root(s, n).value
  {
    SolutionFactorsThroughRoot(s, Lift(sigma), n);
  }

  lemma UnifiesIffSameValues(sigma: Grounding, terms1: seq<Term>, id1: nat, terms2: seq<Term>, id2: nat)
    requires |terms1| == |terms2|
    ensures Unifies(Lift(sigma), terms1, id1, terms2, id2) <==>
              Values(terms1, Reading(sigma, id1)) == Values(terms2, Reading(sigma, id2))
  {
    var v1, v2 := Values(terms1, Reading(sigma, id1)), Values(terms2, Reading(sigma, id2));
    assert forall i | 0 <= i < |terms1| :: Apply(Lift(sigma), TermImage(terms1[i], id1)) == Const(v1[i]);
    assert forall i | 0 <= i < |terms1| :: Apply(Lift(sigma), TermImage(terms2[i], id2)) == Const(v2[i]);
    if Unifies(Lift(sigma), terms1, id1, terms2, id2) {
      assert forall i | 0 <= i < |terms1| :: v1[i] == v2[i];
    }
  }

  /** Unification read over ground assignments: the solutions that give both lists the same values. */
  lemma UnifiedSolutions(before: Store, after: Store, terms1: seq<Term>, id1: nat, terms2: seq<Term>, id2: nat,
                         sigma: Grounding)
    requires |terms1| == |terms2| && Unified(before, after, terms1, id1, terms2, id2)
    ensures Solves(after, sigma) <==>
              && Solves(before, sigma)
              && Values(terms1, Reading(sigma, id1)) == Values(terms2, Reading(sigma, id2))
  {
    UnifiesIffSameValues(sigma, terms1, id1, terms2, id2);
  }

  lemma NotUnifiableHasNoSolution(s: Store, terms1: seq<Term>, id1: nat, terms2: seq<Term>, id2: nat, sigma: Grounding)
    requires !Unifiable(s, terms1, id1, terms2, id2) && Solves(s, sigma)
    ensures Values(terms1, Reading(sigma, id1)) != Values(terms2, Reading(sigma, id2))
  {
    if Values(terms1, Reading(sigma, id1)) == Values(terms2, Reading(sigma, id2)) {
      assert |terms1| == |terms2|;
      UnifiesIffSameValues(sigma, terms1, id1, terms2, id2);
    }
  }

  // ---------------------------------------------------------------------------
  // Groundness under more bindings

  ghost predicate Extends(s: Store, s': Store) {
    forall theta: Assignment | Satisfies(s', theta) :: Satisfies(s, theta)
  }

  ghost predicate Ground(s: Store, id: nat, x: string)
    requires Acyclic(s)
  {
    Root(s, Node(id, x)).Const?
  }

  lemma RootInExtension(s: Store, s': Store, n: Node)
    requires Acyclic(s) && Acyclic(s') && Extends(s, s')
    ensures Root(s', n) == ImageRoot(s', Root(s, n))
  {
    RootsSatisfy(s');
    SolutionFactorsThroughRoot(s, m => Root(s', m), n);
  }

  lemma UnifiedExtends(before: Store, after: Store, terms1: seq<Term>, id1: nat, terms2: seq<Term>, id2: nat)
    requires |terms1| == |terms2| && Unified(before, after, terms1, id1, terms2, id2)
    ensures Extends(before, after)
  {}

  lemma UnifiedRoots(before: Store, after: Store, terms1: seq<Term>, id1: nat, terms2: seq<Term>, id2: nat, i: nat)
    requires |terms1| == |terms2| && i < |terms1| && Acyclic(after)
    requires Unified(before, after, terms1, id1, terms2, id2)
    ensures RootOf(after, terms1[i], id1) == RootOf(after, terms2[i], id2)
  {
    RootsSatisfy(after);
    var theta: Assignment := n => Root(after, n);
    assert Unifies(theta, terms1, id1, terms2, id2);
    assert Apply(theta, TermImage(terms1[i], id1)) == Apply(theta, TermImage(terms2[i], id2));
  }

  // ---------------------------------------------------------------------------
  // Truth depends only on the values of the arguments

  lemma LitTrueByValues(p: Program, theory: string, lit: Literal, nu: Valuation, nu': Valuation)
    requires Nonrecursive(p) && Values(lit.arguments, nu) == Values(lit.arguments, nu')
    ensures LitTrue(p, theory, lit, nu) == LitTrue(p, theory, lit, nu')
  {}

  lemma ValuesAgree(terms: seq<Term>, sigma: Grounding, sigma': Grounding, id: nat, bound: nat)
    requires Agree(sigma, sigma', bound) && id < bound
    ensures Values(terms, Reading(sigma, id)) == Values(terms, Reading(sigma', id))
  {
    var v, v' := Values(terms, Reading(sigma, id)), Values(terms, Reading(sigma', id));
    forall i | 0 <= i < |terms|
      ensures v[i] == v'[i]
    {
      if terms[i].Variable? {
        assert sigma(Node(id, terms[i].name)) == sigma'(Node(id, terms[i].name));
      }
    }
  }

  lemma AllTrueAgree(p: Program, theory: string, literals: seq<Literal>, sigma: Grounding, sigma': Grounding,
                     id: nat, bound: nat)
    requires Nonrecursive(p) && Agree(sigma, sigma', bound) && id < bound
    ensures AllTrue(p, theory, literals, Reading(sigma, id)) == AllTrue(p, theory, literals, Reading(sigma', id))
  {
    forall i | 0 <= i < |literals|
      ensures LitTrue(p, theory, literals[i], Reading(sigma, id)) ==
              LitTrue(p, theory, literals[i], Reading(sigma', id))
    {
      ValuesAgree(literals[i].arguments, sigma, sigma', id, bound);
      LitTrueByValues(p, theory, literals[i], Reading(sigma, id), Reading(sigma', id));
    }
  }

  // ---------------------------------------------------------------------------
  // What remains to be proved

  ghost predicate AfterTrue(p: Program, frames: seq<Frame>, sigma: Grounding)
    requires Nonrecursive(p)
    decreases |frames|
  {
    frames != [] ==>
      && Remaining(p, frames[0], sigma)
      && AfterTrue(p, frames[1..], sigma)
  }

  /** The literals of a frame after its index are true. */
  ghost predicate Remaining(p: Program, f: Frame, sigma: Grounding)
    requires Nonrecursive(p)
  {
    f.index < |f.literals| ==> AllTrue(p, f.theory, f.literals[f.index + 1..], Reading(sigma, f.binding))
  }

  lemma {:induction false} AfterTrueAgree(p: Program, frames: seq<Frame>, sigma: Grounding, sigma': Grounding,
                                          bound: nat)
    requires Nonrecursive(p) && Agree(sigma, sigma', bound)
    requires forall f | f in frames :: f.binding < bound
    ensures AfterTrue(p, frames, sigma) == AfterTrue(p, frames, sigma')
    decreases |frames|
  {
    if frames != [] {
      var f := frames[0];
      if f.index < |f.literals| {
        AllTrueAgree(p, f.theory, f.literals[f.index + 1..], sigma, sigma', f.binding, bound);
      }
      AfterTrueAgree(p, frames[1..], sigma, sigma', bound);
    }
  }

  /** Solutions once the current literal of the top frame has been proved. */
  ghost function FinishSolutions(p: Program, frames: seq<Frame>, s: Store): iset<Grounding>
    requires Nonrecursive(p)
  {
    iset sigma: Grounding | Solves(s, sigma) && AfterTrue(p, frames, sigma)
  }

  /** Solutions when a literal is still to be proved besides what remains. */
  ghost function EvalSolutions(p: Program, theory: string, lit: Literal, frames: seq<Frame>, s: Store): iset<Grounding>
    requires Nonrecursive(p) && frames != []
  {
    iset sigma: Grounding |
      && Solves(s, sigma)
      && LitTrue(p, theory, lit, Reading(sigma, frames[0].binding))
      && AfterTrue(p, frames, sigma)
  }

  // ---------------------------------------------------------------------------
  // Answers

  type Answer = map<string, Term>

  ghost predicate Matches(answer: Answer, variables: seq<string>, id: nat, sigma: Grounding) {
    && answer.Keys == (set x | x in variables)
    && forall x | x in variables :: answer[x].ObjectConstant? ==> answer[x].value == sigma(Node(id, x))
  }

  ghost predicate Sound(solutions: iset<Grounding>, variables: seq<string>, id: nat, answers: seq<Answer>) {
    forall a | a in answers :: exists sigma :: sigma in solutions && Matches(a, variables, id, sigma)
  }

  ghost predicate Complete(solutions: iset<Grounding>, variables: seq<string>, id: nat, answers: seq<Answer>) {
    forall sigma | sigma in solutions :: exists a :: a in answers && Matches(a, variables, id, sigma)
  }

  /** All answers when all are wanted; otherwise one, and `found`, exactly when there is one. */
  ghost predicate Answers(solutions: iset<Grounding>, variables: seq<string>, id: nat, findAll: bool,
                          found: bool, answers: seq<Answer>)
  {
    && Sound(solutions, variables, id, answers)
    && (findAll ==> Complete(solutions, variables, id, answers))
    && (!findAll ==> |answers| == (if found then 1 else 0))
    && (!findAll && !found ==> solutions == iset{})
  }

  ghost predicate AllGround(answers: seq<Answer>, variables: seq<string>) {
    forall a: Answer, x | a in answers && x in variables :: x in a && a[x].ObjectConstant?
  }

  lemma MatchesAgree(answer: Answer, variables: seq<string>, id: nat, sigma: Grounding, sigma': Grounding, bound: nat)
    requires Agree(sigma, sigma', bound) && id < bound
    ensures Matches(answer, variables, id, sigma) <==> Matches(answer, variables, id, sigma')
  {}

  lemma NoAnswers(solutions: iset<Grounding>, variables: seq<string>, id: nat, findAll: bool)
    requires solutions == iset{}
    ensures Answers(solutions, variables, id, findAll, false, [])
  {}

  lemma SoundUnion(sols1: iset<Grounding>, sols2: iset<Grounding>, variables: seq<string>, id: nat,
                   answers1: seq<Answer>, answers2: seq<Answer>)
    requires Sound(sols1, variables, id, answers1) && Sound(sols2, variables, id, answers2)
    ensures Sound(sols1 + sols2, variables, id, answers1 + answers2)
  {
    hide Matches;
    forall a | a in answers1 + answers2
      ensures exists sigma :: sigma in sols1 + sols2 && Matches(a, variables, id, sigma)
    {
      var sols := if a in answers1 then sols1 else sols2;
      var sigma :| sigma in sols && Matches(a, variables, id, sigma);
      assert sigma in sols1 + sols2;
    }
  }

  lemma CompleteUnion(sols1: iset<Grounding>, sols2: iset<Grounding>, variables: seq<string>, id: nat,
                      answers1: seq<Answer>, answers2: seq<Answer>)
    requires Complete(sols1, variables, id, answers1) && Complete(sols2, variables, id, answers2)
    ensures Complete(sols1 + sols2, variables, id, answers1 + answers2)
  {
    hide Matches;
    forall sigma | sigma in sols1 + sols2
      ensures exists a :: a in answers1 + answers2 && Matches(a, variables, id, sigma)
    {
      var answers := if sigma in sols1 then answers1 else answers2;
      var a :| a in answers && Matches(a, variables, id, sigma);
      assert a in answers1 + answers2;
    }
  }

  lemma AnswersUnion(sols1: iset<Grounding>, sols2: iset<Grounding>, variables: seq<string>, id: nat, findAll: bool,
                     found1: bool, answers1: seq<Answer>, found2: bool, answers2: seq<Answer>)
    requires Answers(sols1, variables, id, findAll, found1, answers1)
    requires Answers(sols2, variables, id, findAll, found2, answers2)
    requires findAll || !found1
    ensures Answers(sols1 + sols2, variables, id, findAll, found2, answers1 + answers2)
  {
    hide Sound, Complete;
    SoundUnion(sols1, sols2, variables, id, answers1, answers2);
    if findAll {
      CompleteUnion(sols1, sols2, variables, id, answers1, answers2);
    }
  }

  /** Some solution looks the same to an answer. */
  ghost predicate Mirrored(sigma: Grounding, sols: iset<Grounding>, bound: nat) {
    exists sigma' :: sigma' in sols && Agree(sigma, sigma', bound)
  }

  lemma SoundTransfer(sols1: iset<Grounding>, sols2: iset<Grounding>, variables: seq<string>, id: nat,
                      answers: seq<Answer>)
    requires Sound(sols1, variables, id, answers) && sols1 <= sols2
    ensures Sound(sols2, variables, id, answers)
  {
    hide Matches;
    forall a | a in answers
      ensures exists sigma :: sigma in sols2 && Matches(a, variables, id, sigma)
    {
      var sigma :| sigma in sols1 && Matches(a, variables, id, sigma);
      assert sigma in sols2;
    }
  }

  lemma CompleteTransfer(sols1: iset<Grounding>, sols2: iset<Grounding>, variables: seq<string>, id: nat,
                         answers: seq<Answer>, bound: nat)
    requires Complete(sols1, variables, id, answers) && id < bound
    requires forall sigma | sigma in sols2 :: Mirrored(sigma, sols1, bound)
    ensures Complete(sols2, variables, id, answers)
  {
    hide Matches, Agree;
    forall sigma | sigma in sols2
      ensures exists a :: a in answers && Matches(a, variables, id, sigma)
    {
      var sigma' :| sigma' in sols1 && Agree(sigma, sigma', bound);
      var a :| a in answers && Matches(a, variables, id, sigma');
      MatchesAgree(a, variables, id, sigma, sigma', bound);
    }
  }

  /** Solutions may be replaced by others that agree with them on everything an answer can see. */
  lemma AnswersTransfer(sols1: iset<Grounding>, sols2: iset<Grounding>, variables: seq<string>, id: nat, findAll: bool,
                        found: bool, answers: seq<Answer>, bound: nat)
    requires Answers(sols1, variables, id, findAll, found, answers)
    requires id < bound && sols1 <= sols2
    requires forall sigma | sigma in sols2 :: Mirrored(sigma, sols1, bound)
    ensures Answers(sols2, variables, id, findAll, found, answers)
  {
    hide Sound, Complete;
    SoundTransfer(sols1, sols2, variables, id, answers);
    if findAll {
      CompleteTransfer(sols1, sols2, variables, id, answers, bound);
    }
  }

  // ---------------------------------------------------------------------------
  // Proving a literal by a rule

  /** Solutions in which this rule proves the literal. */
  ghost function RuleSolutions(p: Program, pred: Pred, rule: Rule, lit: Literal, frames: seq<Frame>, s: Store)
    : iset<Grounding>
    requires Nonrecursive(p) && frames != []
  {
    iset sigma: Grounding |
      && Solves(s, sigma)
      && AfterTrue(p, frames, sigma)
      && exists nu: Valuation ::
           Derives(p, pred, rule, nu, Values(lit.arguments, Reading(sigma, frames[0].binding)))
  }

  /** Solutions of the stack in which the rule's body has to be proved in a unifier of its own. */
  ghost function BodySolutions(p: Program, body: seq<Literal>, id: nat, theory: string, frames: seq<Frame>, s: Store)
    : iset<Grounding>
    requires Nonrecursive(p)
  {
    iset sigma: Grounding |
      && Solves(s, sigma)
      && AllTrue(p, theory, body, Reading(sigma, id))
      && AfterTrue(p, frames, sigma)
  }

  lemma BodySolutionsOfFact(p: Program, body: seq<Literal>, id: nat, theory: string, frames: seq<Frame>, s: Store)
    requires Nonrecursive(p) && body == []
    ensures BodySolutions(p, body, id, theory, frames, s) == FinishSolutions(p, frames, s)
  {}

  lemma AllTrueSplit(p: Program, theory: string, literals: seq<Literal>, nu: Valuation)
    requires Nonrecursive(p) && literals != []
    ensures AllTrue(p, theory, literals, nu) <==>
              LitTrue(p, theory, literals[0], nu) && AllTrue(p, theory, literals[1..], nu)
  {
    if LitTrue(p, theory, literals[0], nu) && AllTrue(p, theory, literals[1..], nu) {
      forall i | 0 <= i < |literals|
        ensures LitTrue(p, theory, literals[i], nu)
      {
        if i > 0 {
          assert literals[i] == literals[1..][i - 1];
        }
      }
    }
  }

  lemma BodySolutionsOfCall(p: Program, body: seq<Literal>, id: nat, theory: string, frames: seq<Frame>, s: Store)
    requires Nonrecursive(p) && body != []
    ensures BodySolutions(p, body, id, theory, frames, s) ==
            EvalSolutions(p, theory, body[0], [Frame(body, 0, id, theory)] + frames, s)
  {
    var frames' := [Frame(body, 0, id, theory)] + frames;
    assert frames'[1..] == frames;
    forall sigma: Grounding
      ensures AllTrue(p, theory, body, Reading(sigma, id)) && AfterTrue(p, frames, sigma) <==>
              LitTrue(p, theory, body[0], Reading(sigma, id)) && AfterTrue(p, frames', sigma)
    {
      AllTrueSplit(p, theory, body, Reading(sigma, id));
    }
  }

  ghost predicate Below(frames: seq<Frame>, bound: nat) {
    forall f | f in frames :: f.binding < bound
  }

  /** A valuation under which the rule proves the literal can be laid over a solution, in the fresh unifier. */
  lemma OverlaySolution(p: Program, pred: Pred, rule: Rule, nu: Valuation, lit: Literal, frames: seq<Frame>, s: Store,
                        id: nat, sigma: Grounding)
    requires Nonrecursive(p) && frames != [] && Closed(s, id) && Below(frames, id)
    requires Solves(s, sigma) && AfterTrue(p, frames, sigma)
    requires Derives(p, pred, rule, nu, Values(lit.arguments, Reading(sigma, frames[0].binding)))
    ensures var sigma' := Overlay(sigma, id, nu);
            && Agree(sigma, sigma', id)
            && Solves(s, sigma') && AfterTrue(p, frames, sigma')
            && AllTrue(p, pred.theory, rule.body, Reading(sigma', id))
            && Values(rule.head.arguments, Reading(sigma', id)) ==
               Values(lit.arguments, Reading(sigma', frames[0].binding))
  {
    var sigma' := Overlay(sigma, id, nu);
    AgreeSolves(s, sigma, sigma', id);
    AfterTrueAgree(p, frames, sigma, sigma', id);
    assert frames[0] in frames;
    ValuesAgree(lit.arguments, sigma, sigma', frames[0].binding, id);
    assert forall terms: seq<Term> :: Values(terms, Reading(sigma', id)) == Values(terms, nu) by {
      forall terms: seq<Term>
        ensures Values(terms, Reading(sigma', id)) == Values(terms, nu)
      {
        assert forall i | 0 <= i < |terms| :: TermValue(terms[i], Reading(sigma', id)) == TermValue(terms[i], nu);
      }
    }
    forall i | 0 <= i < |rule.body|
      ensures LitTrue(p, pred.theory, rule.body[i], Reading(sigma', id))
    {
      LitTrueByValues(p, pred.theory, rule.body[i], Reading(sigma', id), nu);
    }
  }

  /** A rule whose head does not unify with the literal proves it in no solution. */
  lemma RuleDoesNotApply(p: Program, pred: Pred, rule: Rule, lit: Literal, frames: seq<Frame>, s: Store, id: nat)
    requires Nonrecursive(p) && frames != [] && Closed(s, id) && Below(frames, id)
    requires || HeadPred(pred.theory, rule.head.table) != pred
             || !Unifiable(s, rule.head.arguments, id, lit.arguments, frames[0].binding)
    ensures RuleSolutions(p, pred, rule, lit, frames, s) == iset{}
  {
    forall sigma | sigma in RuleSolutions(p, pred, rule, lit, frames, s)
      ensures false
    {
      var nu :| Derives(p, pred, rule, nu, Values(lit.arguments, Reading(sigma, frames[0].binding)));
      OverlaySolution(p, pred, rule, nu, lit, frames, s, id, sigma);
      NotUnifiableHasNoSolution(s, rule.head.arguments, id, lit.arguments, frames[0].binding,
                                Overlay(sigma, id, nu));
    }
  }

  /** Answers found by proving the body after unifying the head are answers for the rule. */
  lemma RuleApplies(p: Program, pred: Pred, rule: Rule, lit: Literal, frames: seq<Frame>, s: Store, s': Store,
                    id: nat, variables: seq<string>, callerId: nat, findAll: bool, found: bool, answers: seq<Answer>)
    requires Nonrecursive(p) && frames != [] && Closed(s, id) && Below(frames, id) && callerId < id
    requires rule in Rules(p, pred.theory, pred.table) && HeadPred(pred.theory, rule.head.table) == pred
    requires |rule.head.arguments| == |lit.arguments|
    requires Unified(s, s', rule.head.arguments, id, lit.arguments, frames[0].binding)
    requires Answers(BodySolutions(p, rule.body, id, pred.theory, frames, s'), variables, callerId, findAll, found,
              answers)
    ensures Answers(RuleSolutions(p, pred, rule, lit, frames, s), variables, callerId, findAll, found, answers)
  {
    var bodySols := BodySolutions(p, rule.body, id, pred.theory, frames, s');
    var ruleSols := RuleSolutions(p, pred, rule, lit, frames, s);
    forall sigma | sigma in bodySols
      ensures sigma in ruleSols
    {
      UnifiedSolutions(s, s', rule.head.arguments, id, lit.arguments, frames[0].binding, sigma);
      assert Derives(p, pred, rule, Reading(sigma, id), Values(lit.arguments, Reading(sigma, frames[0].binding)));
    }
    forall sigma | sigma in ruleSols
      ensures Mirrored(sigma, bodySols, id)
    {
      var nu :| Derives(p, pred, rule, nu, Values(lit.arguments, Reading(sigma, frames[0].binding)));
      OverlaySolution(p, pred, rule, nu, lit, frames, s, id, sigma);
      var sigma' := Overlay(sigma, id, nu);
      UnifiedSolutions(s, s', rule.head.arguments, id, lit.arguments, frames[0].binding, sigma');
      assert sigma' in bodySols;
    }
    AnswersTransfer(bodySols, ruleSols, variables, callerId, findAll, found, answers, id);
  }

  ghost predicate BySomeRule(p: Program, pred: Pred, rules: seq<Rule>, lit: Literal, frames: seq<Frame>, s: Store,
                             sigma: Grounding)
    requires Nonrecursive(p) && frames != []
  {
    exists i :: 0 <= i < |rules| && sigma in RuleSolutions(p, pred, rules[i], lit, frames, s)
  }

  /** Solutions in which one of the given rules proves the literal. */
  ghost function SomeRuleSolutions(p: Program, pred: Pred, rules: seq<Rule>, lit: Literal, frames: seq<Frame>, s: Store)
    : iset<Grounding>
    requires Nonrecursive(p) && frames != []
  {
    iset sigma: Grounding | BySomeRule(p, pred, rules, lit, frames, s, sigma)
  }

  lemma SomeRuleSolutionsSnoc(p: Program, pred: Pred, rules: seq<Rule>, rule: Rule, lit: Literal,
                              frames: seq<Frame>, s: Store)
    requires Nonrecursive(p) && frames != []
    ensures SomeRuleSolutions(p, pred, rules + [rule], lit, frames, s) ==
            SomeRuleSolutions(p, pred, rules, lit, frames, s) + RuleSolutions(p, pred, rule, lit, frames, s)
  {
    var all := rules + [rule];
    forall sigma
      ensures sigma in SomeRuleSolutions(p, pred, all, lit, frames, s) <==>
              || sigma in SomeRuleSolutions(p, pred, rules, lit, frames, s)
              || sigma in RuleSolutions(p, pred, rule, lit, frames, s)
    {
      if sigma in RuleSolutions(p, pred, rule, lit, frames, s) {
        assert all[|rules|] == rule;
      }
      if sigma in SomeRuleSolutions(p, pred, rules, lit, frames, s) {
        var i :| 0 <= i < |rules| && sigma in RuleSolutions(p, pred, rules[i], lit, frames, s);
        assert all[i] == rules[i];
      }
      if sigma in SomeRuleSolutions(p, pred, all, lit, frames, s) {
        var i :| 0 <= i < |all| && sigma in RuleSolutions(p, pred, all[i], lit, frames, s);
        assert i < |rules| ==> all[i] == rules[i];
      }
    }
  }

  lemma LitTrueByRule(p: Program, theory: string, lit: Literal, nu: Valuation)
    requires Nonrecursive(p) && !lit.negated && !IsSpecial(p, lit)
    ensures LitTrue(p, theory, lit, nu) <==>
              exists rule: Rule, nu': Valuation ::
                Derives(p, Resolve(theory, lit.table), rule, nu', Values(lit.arguments, nu))
  {
    HoldsByRule(p, Resolve(theory, lit.table), Values(lit.arguments, nu));
    assert AtomTrue(p, theory, lit, nu) == Holds(p, Resolve(theory, lit.table), Values(lit.arguments, nu));
  }

  /** A literal about a table is true exactly in the solutions in which one of the table's rules proves it. */
  lemma TableSolutions(p: Program, theory: string, lit: Literal, candidates: seq<Rule>, frames: seq<Frame>, s: Store)
    requires Nonrecursive(p) && frames != [] && !lit.negated && !IsSpecial(p, lit)
    requires var pred := Resolve(theory, lit.table);
             forall rule | rule in Rules(p, pred.theory, pred.table) ::
               rule in candidates || RuleSolutions(p, pred, rule, lit, frames, s) == iset{}
    ensures EvalSolutions(p, theory, lit, frames, s) ==
            SomeRuleSolutions(p, Resolve(theory, lit.table), candidates, lit, frames, s)
  {
    var pred := Resolve(theory, lit.table);
    forall sigma: Grounding
      ensures sigma in EvalSolutions(p, theory, lit, frames, s) <==>
              sigma in SomeRuleSolutions(p, pred, candidates, lit, frames, s)
    {
      var values := Values(lit.arguments, Reading(sigma, frames[0].binding));
      LitTrueByRule(p, theory, lit, Reading(sigma, frames[0].binding));
      if sigma in EvalSolutions(p, theory, lit, frames, s) {
        var rule: Rule, nu: Valuation :| Derives(p, pred, rule, nu, values);
        assert sigma in RuleSolutions(p, pred, rule, lit, frames, s);
        var i :| 0 <= i < |candidates| && candidates[i] == rule;
      }
      if sigma in SomeRuleSolutions(p, pred, candidates, lit, frames, s) {
        var i :| 0 <= i < |candidates| && sigma in RuleSolutions(p, pred, candidates[i], lit, frames, s);
      }
    }
  }
}
