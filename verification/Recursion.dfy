/** The check for recursion that guards updates: rules depend on tables without a cycle. */
module Recursion {
  import opened Syntax
  import opened Semantics
  import opened Walks
  import opened DependencyChanges
  import opened DependencyEvents
  import opened Dependencies

  function TagOf(negated: bool): Option<string> {
    Some(if negated then "True" else "False")
  }

  const TAGS: set<string> := {"True", "False"}

  /** The dependencies of one rule, as edges of the graph that is searched for cycles. */
  function RuleEdges(theory: string, rule: Rule): set<Edge> {
    set a | a in RuleNodesEdges(rule, theory).arcs :: Edge(a.source, a.target, TagOf(a.negated))
  }

  /** The dependencies of the rules of all theories, with or without those of rules with a modal in the head. */
  function EdgesOf(p: Program, withModals: bool): set<Edge> {
    set theory, table, rule, e |
      && theory in p.theories && table in p.theories[theory] && rule in p.theories[theory][table]
      && (withModals || rule.head.table.modal.None?) && e in RuleEdges(theory, rule) :: e
  }

  /** The graph that is checked. */
  function ProgramEdges(p: Program): set<Edge> {
    EdgesOf(p, true)
  }

  /** What only tables depend on. */
  function TableEdges(p: Program): set<Edge> {
    EdgesOf(p, false)
  }

  lemma EdgeOfLiteral(p: Program, withModals: bool, theory: string, table: string, rule: Rule, i: nat)
    requires rule in Rules(p, theory, table) && i < |rule.body| && (withModals || rule.head.table.modal.None?)
    ensures Edge(GlobalTablename(rule.head.table, Some(theory)), Name(rule.body[i].table, Some(theory)),
                 TagOf(rule.body[i].negated)) in EdgesOf(p, withModals)
  {
    var head := GlobalTablename(rule.head.table, Some(theory));
    var arc := BodyArc(head, rule.body[i], Some(theory), true);
    assert arc in RuleNodesEdges(rule, theory).arcs;
    assert Edge(arc.source, arc.target, TagOf(arc.negated)) in RuleEdges(theory, rule);
  }

  lemma LiteralOfEdge(p: Program, withModals: bool, e: Edge) returns (theory: string, table: string, rule: Rule, i: nat)
    requires e in EdgesOf(p, withModals)
    ensures rule in Rules(p, theory, table) && i < |rule.body| && (withModals || rule.head.table.modal.None?)
    ensures e.source == GlobalTablename(rule.head.table, Some(theory))
    ensures e.target == Name(rule.body[i].table, Some(theory)) && e.tag == TagOf(rule.body[i].negated)
  {
    theory, table, rule :|
      theory in p.theories && table in p.theories[theory] && rule in p.theories[theory][table]
      && (withModals || rule.head.table.modal.None?) && e in RuleEdges(theory, rule);
    var head := GlobalTablename(rule.head.table, Some(theory));
    var lit :| lit in rule.body && e.target == BodyArc(head, lit, Some(theory), true).target
               && e.source == head && e.tag == TagOf(lit.negated);
    i :| i < |rule.body| && rule.body[i] == lit;
  }

  // ---------------------------------------------------------------------------
  // The graph that updates maintain is the one that is checked

  function PartsOf(listing: seq<(string, Rule)>): seq<Parts> {
    seq(|listing|, i requires 0 <= i < |listing| => RuleNodesEdges(listing[i].1, listing[i].0))
  }

  lemma {:induction false} TotalOfArc(fs: seq<Parts>, a: Arc)
    ensures Total(fs, ArcItem(a)) > 0 <==> exists f :: f in fs && a in f.arcs
    decreases |fs|
  {
    if fs != [] {
      var init, f := fs[..|fs| - 1], fs[|fs| - 1];
      assert fs == init + [f];
      TotalOfArc(init, a);
    }
  }

  /** All edges that the graph finds from their sources. */
  function FoundEdges(s: State): set<Edge> {
    set n, a | n in s.edges && a in s.edges[n] :: Edge(a.source, a.target, TagOf(a.negated))
  }

  /** If the graph counts what the rules of the program contribute, its edges are the dependencies of the program. */
  lemma GraphOfProgram(p: Program, listing: seq<(string, Rule)>, s: State)
    requires forall theory, rule :: (theory, rule) in listing <==> exists table :: rule in Rules(p, theory, table)
    requires Accounts(s, PartsOf(listing))
    ensures FoundEdges(s) == ProgramEdges(p)
  {
    hide Total, RuleNodesEdges;
    forall e | e in FoundEdges(s)
      ensures e in ProgramEdges(p)
    {
      var n, a :| n in s.edges && a in s.edges[n] && e == Edge(a.source, a.target, TagOf(a.negated));
      FoundIsCounted(s, a);
      assert Count(s, ArcItem(a)) == Total(PartsOf(listing), ArcItem(a));
      TotalOfArc(PartsOf(listing), a);
      var i :| 0 <= i < |listing| && a in PartsOf(listing)[i].arcs;
      var (theory, rule) := listing[i];
      assert (theory, rule) in listing;
      var table :| rule in Rules(p, theory, table);
      assert e in RuleEdges(theory, rule);
    }
    forall e | e in ProgramEdges(p)
      ensures e in FoundEdges(s)
    {
      var theory, table, rule :|
        && theory in p.theories && table in p.theories[theory] && rule in p.theories[theory][table]
        && e in RuleEdges(theory, rule);
      assert rule in Rules(p, theory, table);
      var i :| 0 <= i < |listing| && listing[i] == (theory, rule);
      var a :| a in RuleNodesEdges(rule, theory).arcs && e == Edge(a.source, a.target, TagOf(a.negated));
      assert PartsOf(listing)[i] in PartsOf(listing) && a in PartsOf(listing)[i].arcs;
      TotalOfArc(PartsOf(listing), a);
      assert Count(s, ArcItem(a)) == Total(PartsOf(listing), ArcItem(a));
      assert Finds(s, a);
    }
  }

  // ---------------------------------------------------------------------------
  // Without a cycle there are ranks

  /** What is checked of a rule besides safety: only modal heads name a service, and bodies have no modals. */
  predicate PermittedRule(rule: Rule) {
    && (rule.head.table.service.Some? ==> rule.head.table.modal.Some?)
    && forall lit | lit in rule.body :: lit.table.modal.None?
  }

  ghost predicate Permitted(p: Program) {
    forall theory, table, rule | rule in Rules(p, theory, table) :: PermittedRule(rule)
  }

  ghost predicate HasCycle(es: set<Edge>) {
    exists n :: OnCycle(es, n)
  }

  function Endpoints(es: set<Edge>): set<string> {
    (set e | e in es :: e.source) + (set e | e in es :: e.target)
  }

  /** The length of the longest walk from the node, if that is less than the bound. */
  ghost function Height(es: set<Edge>, n: string, bound: nat): (k: nat)
    ensures bound > 0 ==> IsForced(es, TAGS, n, k)
    ensures forall level: nat | IsForced(es, TAGS, n, level) && level <= bound :: level <= k
  {
    assert IsWalk(es, n, n, []) && Labelled([], TAGS) + 1 == 1;
    if bound == 0 || IsForced(es, TAGS, n, bound) then bound else Height(es, n, bound - 1)
  }

  lemma HigherThanTarget(es: set<Edge>, e: Edge)
    requires e in es && e.tag.Some? && e.tag.value in TAGS && !HasCycle(es)
    ensures Height(es, e.source, |Endpoints(es)|) > Height(es, e.target, |Endpoints(es)|)
  {
    var nodes := Endpoints(es);
    assert e.source in nodes;
    var level := Height(es, e.target, |nodes|);
    ForcedByEdge(es, TAGS, e, level);
    if level + 1 > |nodes| {
      TooManyStrata(es, TAGS, nodes, e.source, level + 1);
      var a, w :| IsWalk(es, a, a, w) && Labelled(w, TAGS) > 0;
      assert OnCycle(es, a);
    }
  }

  /** Tables rank by the longest chain of dependencies below them, and modals above all tables. */
  ghost function DependencyRank(es: set<Edge>): Pred -> nat {
    (pred: Pred) => if pred.modal.Some? then |Endpoints(es)| + 1
                    else Height(es, pred.service + ":" + pred.table, |Endpoints(es)|)
  }

  lemma {:induction false} HeightBound(es: set<Edge>, n: string, bound: nat)
    ensures Height(es, n, bound) <= bound
  {
    if bound > 0 {
      HeightBound(es, n, bound - 1);
    }
  }

  lemma LiteralRanksLower(p: Program, withModals: bool, es: set<Edge>, theory: string, table: string, rule: Rule,
                          i: nat)
    requires es == EdgesOf(p, withModals) && !HasCycle(es)
    requires rule in Rules(p, theory, table) && PermittedRule(rule) && i < |rule.body|
    ensures DependencyRank(es)(Resolve(theory, rule.body[i].table)) <
              DependencyRank(es)(HeadPred(theory, rule.head.table))
  {
    hide HasCycle, Height, Endpoints, EdgesOf, Resolve, Name, GlobalTablename, Rules;
    var lit := rule.body[i];
    assert lit in rule.body;
    var source, target := GlobalTablename(rule.head.table, Some(theory)), Name(lit.table, Some(theory));
    HeightBound(es, target, |Endpoints(es)|);
    ResolvedName(theory, lit.table);
    if rule.head.table.modal.None? {
      EdgeOfLiteral(p, withModals, theory, table, rule, i);
      HeadName(theory, rule.head.table);
      HigherThanTarget(es, Edge(source, target, TagOf(lit.negated)));
    }
  }

  /** Permitted rules without a cycle among tables are nonrecursive. */
  lemma AcyclicTablesAreNonrecursive(p: Program, withModals: bool)
    requires Permitted(p) && !HasCycle(EdgesOf(p, withModals))
    ensures Nonrecursive(p.(rank := DependencyRank(EdgesOf(p, withModals))))
  {
    hide HasCycle, EdgesOf, IsSpecial, DependencyRank, Resolve, HeadPred, PermittedRule;
    var es := EdgesOf(p, withModals);
    var q := p.(rank := DependencyRank(es));
    forall theory, table, rule, i | rule in Rules(q, theory, table) && 0 <= i < |rule.body|
      ensures LitRank(q, theory, rule.body[i]) <= q.rank(HeadPred(theory, rule.head.table))
    {
      assert rule in Rules(p, theory, table);
      LiteralRanksLower(p, withModals, es, theory, table, rule, i);
    }
  }

  /** Rules that pass the check are nonrecursive. */
  lemma AcyclicIsNonrecursive(p: Program)
    requires Permitted(p) && !HasCycle(ProgramEdges(p))
    ensures Nonrecursive(p.(rank := DependencyRank(ProgramEdges(p))))
  {
    AcyclicTablesAreNonrecursive(p, true);
  }

  lemma HeadName(theory: string, table: Tablename)
    requires table.service.None?
    ensures GlobalTablename(table, Some(theory)) == HeadPred(theory, table).service + ":" + table.table
  {}

  /** The graph names a table in the body by the service that it is looked up in. */
  lemma ResolvedName(theory: string, table: Tablename)
    requires table.modal.None?
    ensures Name(table, Some(theory)) == Resolve(theory, table).service + ":" + Resolve(theory, table).table
    ensures Resolve(theory, table).modal.None?
  {}

  /** Being a model has nothing to do with ranks. */
  lemma ModelIgnoresRank(p: Program, rank: Pred -> nat, m: Interpretation)
    ensures IsModel(p, m) <==> IsModel(p.(rank := rank), m)
  {
    hide LitTrueIn, HeadProduces;
    var q := p.(rank := rank);
    forall pred, rule: Rule, nu: Valuation, values
      ensures DerivesIn(p, m, pred, rule, nu, values) <==> DerivesIn(q, m, pred, rule, nu, values)
    {
      SameReading(p, q, m, pred, rule, nu, values);
    }
    assert IsModel(p, m) ==> IsModel(q, m);
    assert IsModel(q, m) ==> IsModel(p, m);
  }

  lemma SameReading(p: Program, q: Program, m: Interpretation, pred: Pred, rule: Rule, nu: Valuation,
                    values: seq<Constant>)
    requires p.theories == q.theories && p.builtins == q.builtins
    ensures HeadProduces(p, pred, rule, nu, values) == HeadProduces(q, pred, rule, nu, values)
    ensures forall lit :: LitTrueIn(p, m, pred.theory, lit, nu) == LitTrueIn(q, m, pred.theory, lit, nu)
  {}

  /** Rules that pass the checks have a model, and only one. */
  lemma AcceptedRulesHaveOneModel(p: Program) returns (m: Interpretation)
    requires Permitted(p) && !HasCycle(ProgramEdges(p))
    ensures IsModel(p, m)
    ensures forall m': Interpretation, pred, values | IsModel(p, m') :: m'(pred, values) <==> m(pred, values)
  {
    hide HasCycle, EdgesOf, IsModel, Nonrecursive, Permitted, DependencyRank, Holds;
    var rank := DependencyRank(ProgramEdges(p));
    var q := p.(rank := rank);
    AcyclicIsNonrecursive(p);
    HoldsIsAModel(q);
    m := (pred, values) => Holds(q, pred, values);
    ModelIgnoresRank(p, rank, m);
    forall m': Interpretation, pred, values | IsModel(p, m')
      ensures m'(pred, values) <==> m(pred, values)
    {
      ModelIgnoresRank(p, rank, m');
      ModelIsUnique(q, m', pred, values);
    }
  }

  // ---------------------------------------------------------------------------
  // A cycle is recursion

  /** A table's name as the graph has it behind that of the theory. */
  function OwnTable(table: Tablename): string {
    (if table.service.Some? then table.service.value + ":" else "") + table.table
  }

  /** Names as users write them: no colon in services, no definitions of builtins, no updates of other theories. */
  predicate PlainRule(p: Program, theory: string, rule: Rule) {
    && PermittedRule(rule) && ':' !in theory
    && OwnTable(rule.head.table) !in p.builtins && OwnTable(rule.head.table) !in {"true", "false"}
    && forall lit | lit in rule.body ::
         && ':' !in lit.table.service.GetOr(theory)
         && (lit.table.service.GetOr(theory) != theory ==> !lit.table.IsUpdate())
  }

  ghost predicate PlainProgram(p: Program) {
    forall theory, table, rule | rule in Rules(p, theory, table) :: PlainRule(p, theory, rule)
  }

  lemma {:induction false} NamesAreUnique(a: string, b: string, c: string, d: string)
    requires ':' !in a && ':' !in c && a + ":" + b == c + ":" + d
    ensures a == c && b == d
  {
    var s := a + ":" + b;
    assert s[|a|] == ':' && s[|c|] == ':';
    assert s[..|a|] == a && s[..|c|] == c && s[|a| + 1..] == b && s[|c| + 1..] == d;
  }

  /** The table that a rule of that theory defines. */
  function Defined(theory: string, rule: Rule): Pred {
    HeadPred(theory, rule.head.table)
  }

  /** A rule that defines the table with this name in the graph. */
  ghost predicate Defines(p: Program, theory: string, table: string, rule: Rule, name: string) {
    && rule in Rules(p, theory, table) && rule.head.table.modal.None?
    && name == GlobalTablename(rule.head.table, Some(theory))
  }

  /** From a rule along its dependencies to a rule whose table its body looks up. */
  lemma EdgeDescends(p: Program, e: Edge, theory: string, table: string, rule: Rule, theory': string, table': string,
                     rule': Rule)
    requires Nonrecursive(p) && PlainProgram(p) && e in TableEdges(p)
    requires Defines(p, theory, table, rule, e.source) && Defines(p, theory', table', rule', e.target)
    ensures p.rank(Defined(theory', rule')) < p.rank(Defined(theory, rule))
  {
    hide EdgesOf, Nonrecursive, PlainRule, LitRank, GlobalTablename, Name, Defined, Rules;
    var theory0, table0, rule0, i := LiteralOfEdge(p, false, e);
    assert PlainRule(p, theory, rule) && PlainRule(p, theory', rule') && PlainRule(p, theory0, rule0);
    SameTable(p, theory0, rule0, theory, rule);
    LooksUp(p, theory0, rule0, i, theory', rule');
    NonrecursiveAt(p, theory0, table0, rule0, i);
  }

  /** Rules that the graph gives one name define one table. */
  lemma SameTable(p: Program, theory: string, rule: Rule, theory': string, rule': Rule)
    requires PlainRule(p, theory, rule) && PlainRule(p, theory', rule')
    requires rule.head.table.modal.None? && rule'.head.table.modal.None?
    requires GlobalTablename(rule.head.table, Some(theory)) == GlobalTablename(rule'.head.table, Some(theory'))
    ensures Defined(theory, rule) == HeadPred(theory, rule.head.table) == Defined(theory', rule')
  {
    assert GlobalTablename(rule.head.table, Some(theory)) == theory + ":" + rule.head.table.table;
    assert GlobalTablename(rule'.head.table, Some(theory')) == theory' + ":" + rule'.head.table.table;
    NamesAreUnique(theory, rule.head.table.table, theory', rule'.head.table.table);
  }

  /** A literal that the graph gives the name of a defined table looks that table up. */
  lemma LooksUp(p: Program, theory: string, rule: Rule, i: nat, theory': string, rule': Rule)
    requires PlainRule(p, theory, rule) && PlainRule(p, theory', rule') && i < |rule.body|
    requires rule'.head.table.modal.None?
    requires Name(rule.body[i].table, Some(theory)) == GlobalTablename(rule'.head.table, Some(theory'))
    ensures LitRank(p, theory, rule.body[i]) == p.rank(Defined(theory', rule')) + 1
  {
    var lit := rule.body[i];
    assert lit in rule.body;
    assert Name(lit.table, Some(theory)) == lit.table.service.GetOr(theory) + ":" + lit.table.table;
    assert GlobalTablename(rule'.head.table, Some(theory')) == theory' + ":" + rule'.head.table.table;
    NamesAreUnique(lit.table.service.GetOr(theory), lit.table.table, theory', rule'.head.table.table);
    assert Resolve(theory, lit.table) == Defined(theory', rule');
    assert OwnTable(rule'.head.table) == lit.table.table && !IsSpecial(p, lit);
  }

  lemma NonrecursiveAt(p: Program, theory: string, table: string, rule: Rule, i: nat)
    requires Nonrecursive(p) && rule in Rules(p, theory, table) && i < |rule.body|
    ensures LitRank(p, theory, rule.body[i]) <= p.rank(HeadPred(theory, rule.head.table))
  {}

  lemma {:induction false} WalkDescends(p: Program, a: string, b: string, w: seq<Edge>, theory: string, table: string,
                                        rule: Rule, theory': string, table': string, rule': Rule)
    requires Nonrecursive(p) && PlainProgram(p) && w != [] && IsWalk(TableEdges(p), a, b, w)
    requires Defines(p, theory, table, rule, a) && Defines(p, theory', table', rule', b)
    ensures p.rank(Defined(theory', rule')) < p.rank(Defined(theory, rule))
    decreases |w|
  {
    hide EdgesOf, Nonrecursive, PlainProgram;
    if |w| == 1 {
      assert w[1..] == [];
      EdgeDescends(p, w[0], theory, table, rule, theory', table', rule');
    } else {
      assert w[1..][0] == w[1] && w[1].source == w[0].target;
      var theory0, table0, rule0, _ := LiteralOfEdge(p, false, w[1]);
      EdgeDescends(p, w[0], theory, table, rule, theory0, table0, rule0);
      WalkDescends(p, w[0].target, b, w[1..], theory0, table0, rule0, theory', table', rule');
    }
  }

  /** Whatever the ranks: nonrecursive rules have no cycle among tables. */
  lemma NonrecursiveIsAcyclic(p: Program)
    requires PlainProgram(p) && Nonrecursive(p)
    ensures !HasCycle(TableEdges(p))
  {
    hide EdgesOf, Nonrecursive, PlainProgram;
    if a, w :| w != [] && IsWalk(TableEdges(p), a, a, w) {
      var theory, table, rule, _ := LiteralOfEdge(p, false, w[0]);
      WalkDescends(p, a, a, w, theory, table, rule, theory, table, rule);
    }
  }

  /** Rules are recursive iff there is a cycle among tables: rules with a modal in the head do not count. */
  lemma RecursionIsCycleOfTables(p: Program)
    requires PlainProgram(p)
    ensures !HasCycle(TableEdges(p)) <==> exists rank: Pred -> nat :: Nonrecursive(p.(rank := rank))
  {
    hide HasCycle, Nonrecursive, EdgesOf;
    if !HasCycle(TableEdges(p)) {
      PlainIsPermitted(p);
      AcyclicTablesAreNonrecursive(p, false);
    }
    if rank: Pred -> nat :| Nonrecursive(p.(rank := rank)) {
      SameEdges(p, rank);
      NonrecursiveIsAcyclic(p.(rank := rank));
    }
  }

  lemma PlainIsPermitted(p: Program)
    requires PlainProgram(p)
    ensures Permitted(p)
  {
    forall theory, table, rule | rule in Rules(p, theory, table)
      ensures PermittedRule(rule)
    {
      assert PlainRule(p, theory, rule);
    }
  }

  lemma SameEdges(p: Program, rank: Pred -> nat)
    requires PlainProgram(p)
    ensures TableEdges(p.(rank := rank)) == TableEdges(p) && PlainProgram(p.(rank := rank))
  {
    var q := p.(rank := rank);
    forall theory, table, rule | rule in Rules(q, theory, table)
      ensures PlainRule(q, theory, rule)
    {
      assert rule in Rules(p, theory, table);
      assert PlainRule(p, theory, rule);
    }
  }

  // ---------------------------------------------------------------------------
  // What the check forbids

  /** The rule with its modal erased: its head read as a table of its own theory. */
  function ErasedRule(rule: Rule): Rule {
    rule.(head := rule.head.(table := Tablename(None, OwnTable(rule.head.table), None)))
  }

  function ErasedRules(rules: seq<Rule>): seq<Rule> {
    seq(|rules|, i requires 0 <= i < |rules| => ErasedRule(rules[i]))
  }

  function Erased(p: Program): Program {
    p.(theories := map theory | theory in p.theories ::
                     map table | table in p.theories[theory] :: ErasedRules(p.theories[theory][table]))
  }

  lemma ErasedMembers(p: Program, theory: string, table: string, rule: Rule)
    ensures rule in Rules(Erased(p), theory, table) <==>
              exists r :: r in Rules(p, theory, table) && rule == ErasedRule(r)
  {
    var rules := Rules(p, theory, table);
    if r :| r in rules && rule == ErasedRule(r) {
      var i :| 0 <= i < |rules| && rules[i] == r;
      assert ErasedRules(rules)[i] == rule;
    }
  }

  lemma ErasedRuleIsPlain(p: Program, theory: string, rule: Rule)
    requires PlainRule(p, theory, rule)
    ensures PlainRule(Erased(p), theory, ErasedRule(rule))
    ensures RuleEdges(theory, ErasedRule(rule)) == RuleEdges(theory, rule)
  {
    var r := ErasedRule(rule);
    assert GlobalTablename(r.head.table, Some(theory)) == GlobalTablename(rule.head.table, Some(theory));
    assert OwnTable(r.head.table) == OwnTable(rule.head.table);
  }

  /** Erasing the modals does not change the graph. */
  lemma ErasedEdges(p: Program)
    requires PlainProgram(p)
    ensures PlainProgram(Erased(p)) && TableEdges(Erased(p)) == ProgramEdges(p)
  {
    hide PlainRule, RuleEdges;
    var q := Erased(p);
    forall theory, table, rule | rule in Rules(q, theory, table)
      ensures PlainRule(q, theory, rule)
      ensures forall e | e in RuleEdges(theory, rule) :: e in ProgramEdges(p)
    {
      ErasedMembers(p, theory, table, rule);
      var r :| r in Rules(p, theory, table) && rule == ErasedRule(r);
      ErasedRuleIsPlain(p, theory, r);
    }
    forall theory, table, rule | rule in Rules(p, theory, table)
      ensures forall e | e in RuleEdges(theory, rule) :: e in TableEdges(q)
    {
      assert PlainRule(p, theory, rule);
      ErasedRuleIsPlain(p, theory, rule);
      ErasedMembers(p, theory, table, ErasedRule(rule));
      assert ErasedRule(rule) in Rules(q, theory, table);
    }
    EdgesFromRules(q, false, ProgramEdges(p));
    EdgesFromRules(p, true, TableEdges(q));
  }

  lemma EdgesFromRules(p: Program, withModals: bool, es: set<Edge>)
    requires forall theory, table, rule, e | rule in Rules(p, theory, table) && e in RuleEdges(theory, rule) :: e in es
    ensures EdgesOf(p, withModals) <= es
  {
    forall e | e in EdgesOf(p, withModals)
      ensures e in es
    {
      var theory, table, rule :|
        && theory in p.theories && table in p.theories[theory] && rule in p.theories[theory][table]
        && e in RuleEdges(theory, rule);
      assert rule in Rules(p, theory, table);
    }
  }

  /** The check is exact for the rules with their modals erased: it passes iff some ranks make those nonrecursive. */
  lemma CheckIsExact(p: Program)
    requires PlainProgram(p)
    ensures !HasCycle(ProgramEdges(p)) <==> exists rank: Pred -> nat :: Nonrecursive(Erased(p).(rank := rank))
  {
    hide HasCycle, Nonrecursive, EdgesOf;
    ErasedEdges(p);
    RecursionIsCycleOfTables(Erased(p));
  }

  /** So what it rejects without need are the rules whose cycles all go through a modal. */
  lemma RejectedWithoutNeed(p: Program)
    requires PlainProgram(p)
    ensures (HasCycle(ProgramEdges(p)) && exists rank: Pred -> nat :: Nonrecursive(p.(rank := rank))) <==>
              (HasCycle(ProgramEdges(p)) && !HasCycle(TableEdges(p)))
  {
    hide HasCycle, Nonrecursive, EdgesOf;
    RecursionIsCycleOfTables(p);
  }

  /** Without modals it rejects nothing without need. */
  lemma CheckIsExactForTables(p: Program)
    requires PlainProgram(p)
    requires forall theory, table, rule | rule in Rules(p, theory, table) :: rule.head.table.modal.None?
    ensures !HasCycle(ProgramEdges(p)) <==> exists rank: Pred -> nat :: Nonrecursive(p.(rank := rank))
  {
    hide HasCycle, Nonrecursive, RuleEdges;
    RecursionIsCycleOfTables(p);
    forall e | e in ProgramEdges(p)
      ensures e in TableEdges(p)
    {
      var theory, table, rule :|
        && theory in p.theories && table in p.theories[theory] && rule in p.theories[theory][table]
        && e in RuleEdges(theory, rule);
      assert rule in Rules(p, theory, table);
    }
    assert ProgramEdges(p) == TableEdges(p);
  }

  lemma CycleAt(es: set<Edge>, n: string)
    requires OnCycle(es, n)
    ensures HasCycle(es)
  {}

  /** For a modal in the head the check is too strict: `execute[p(x)] :- p(x)` counts as recursive. */
  lemma ModalLooksRecursive(theory: string) returns (p: Program)
    ensures Permitted(p) && Nonrecursive(p) && HasCycle(ProgramEdges(p))
  {
    hide EdgesOf, HasCycle;
    var head := Literal(Tablename(None, "p", Some("execute")), [Variable("x")], false);
    var lit := Literal(Tablename(None, "p", None), [Variable("x")], false);
    var rule := Rule(head, [lit]);
    p := Program(map[theory := map["p" := [rule]]], map[], (pred: Pred) => if pred.modal.Some? then 1 else 0);
    assert rule in Rules(p, theory, "p");
    EdgeOfLiteral(p, true, theory, "p", rule, 0);
    var node := theory + ":" + "p";
    var e := Edge(node, node, TagOf(false));
    assert GlobalTablename(head.table, Some(theory)) == node == Name(lit.table, Some(theory));
    assert [e][1..] == [];
    assert IsWalk(ProgramEdges(p), node, node, [e]);
    assert OnCycle(ProgramEdges(p), node);
    CycleAt(ProgramEdges(p), node);
  }
}
