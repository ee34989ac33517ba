/** The events that a changed row, or an inserted or deleted rule, gives rise to. */
module Propagation {
  import opened Syntax
  import opened Semantics
  import opened Safety
  import opened Database
  import opened Views
  import opened StoredProgram
  import opened DeltaRules
  import opened Trigger
  import Collections
  import SearchSpec
  import Query

  type Rows = map<string, seq<DBTuple>>

  // ---------------------------------------------------------------------------
  // Evaluating plain literals over the stored rows

  ghost predicate AllStored(data: Rows, literals: seq<Literal>, b: Binding) {
    forall i | 0 <= i < |literals| :: IsStored(data, FactOf(literals[i], b))
  }

  /** The binding covers the variables, extends the given one, and makes every literal a stored row. */
  ghost predicate IsSolution(data: Rows, vars: set<string>, literals: seq<Literal>, given: Binding, b: Binding) {
    b.Keys == vars && Agrees(AsValuation(b), given) && AllStored(data, literals, b)
  }

  function Wrap(b: Binding): SearchSpec.Answer {
    map x | x in b :: ObjectConstant(b[x])
  }

  function Unwrap(a: SearchSpec.Answer): Binding {
    map x | x in a && a[x].ObjectConstant? :: a[x].value
  }

  lemma AllStoredIsTrue(theory: string, data: Rows, literals: seq<Literal>, b: Binding, nu: Valuation)
    requires forall lit | lit in literals :: PlainAtom(lit) && lit.VariableNames() <= b.Keys
    requires Agrees(nu, b)
    ensures Nonrecursive(RowProgram(theory, data))
    ensures AllTrue(RowProgram(theory, data), theory, literals, nu) <==> AllStored(data, literals, b)
  {
    hide LitTrue, IsStored, Nonrecursive, RowProgram;
    RowProgramIsFine(theory, data);
    forall i | 0 <= i < |literals|
      ensures LitTrue(RowProgram(theory, data), theory, literals[i], nu) <==> IsStored(data, FactOf(literals[i], b))
    {
      var lit := literals[i];
      assert lit in literals;
      PlainAtomIsStored(theory, data, lit, nu);
      AgreedValues(lit, b, nu);
    }
  }

  lemma AgreedValues(lit: Literal, b: Binding, nu: Valuation)
    requires lit.VariableNames() <= b.Keys && Agrees(nu, b)
    ensures FactOf(lit, b) == Fact(lit.table.table, Values(lit.arguments, nu))
  {
    forall i | 0 <= i < |lit.arguments|
      ensures TermValue(lit.arguments[i], AsValuation(b)) == TermValue(lit.arguments[i], nu)
    {
      if lit.arguments[i].Variable? {
        assert lit.arguments[i].name in lit.VariableNames();
      }
    }
  }

  lemma InstanceIsSolution(theory: string, data: Rows, variables: seq<string>, vars: set<string>,
                           literals: seq<Literal>, given: Binding, a: SearchSpec.Answer)
    requires forall x :: x in variables <==> x in vars
    requires forall lit | lit in literals :: PlainAtom(lit) && lit.VariableNames() <= vars
    requires given.Keys <= vars
    ensures Nonrecursive(RowProgram(theory, data))
    ensures Query.IsTrueInstance(RowProgram(theory, data), theory, variables, literals, given, a) ==>
              Wrap(Unwrap(a)) == a && IsSolution(data, vars, literals, given, Unwrap(a))
  {
    hide Nonrecursive, RowProgram, AllTrue, AllStored;
    RowProgramIsFine(theory, data);
    var p := RowProgram(theory, data);
    if nu: Valuation :| Query.Satisfied(p, theory, literals, given, nu) && a == Query.Project(variables, nu) {
      var b := Unwrap(a);
      assert b.Keys == vars;
      AllStoredIsTrue(theory, data, literals, b, nu);
    }
  }

  lemma SolutionIsInstance(theory: string, data: Rows, variables: seq<string>, vars: set<string>,
                           literals: seq<Literal>, given: Binding, b: Binding)
    requires forall x :: x in variables <==> x in vars
    requires forall lit | lit in literals :: PlainAtom(lit) && lit.VariableNames() <= vars
    requires given.Keys <= vars && IsSolution(data, vars, literals, given, b)
    ensures Nonrecursive(RowProgram(theory, data))
    ensures Query.IsTrueInstance(RowProgram(theory, data), theory, variables, literals, given, Wrap(b))
    ensures Unwrap(Wrap(b)) == b
  {
    hide Nonrecursive, RowProgram, AllTrue, AllStored;
    RowProgramIsFine(theory, data);
    var nu := AsValuation(b);
    AllStoredIsTrue(theory, data, literals, b, nu);
    assert Query.Satisfied(RowProgram(theory, data), theory, literals, given, nu);
    assert Wrap(b) == Query.Project(variables, nu);
  }

  lemma PlainQueryIsSafe(theory: string, data: Rows, literals: seq<Literal>, bound: set<string>)
    requires forall lit | lit in literals :: PlainAtom(lit)
    ensures Query.SafeQuery(RowProgram(theory, data), literals, bound)
  {
    assert forall i | 0 <= i < |literals| :: literals[i] in literals;
  }

  /** All ways to bind the variables that extend the given binding and make the literals stored rows. */
  method Solutions(theory: string, data: Rows, vars: set<string>, literals: seq<Literal>, given: Binding)
    returns (bindings: seq<Binding>)
    requires forall lit | lit in literals :: PlainAtom(lit) && lit.VariableNames() <= vars
    requires given.Keys <= vars <= BodyVars(literals) + given.Keys
    ensures forall b :: b in bindings <==> IsSolution(data, vars, literals, given, b)
  {
    hide Nonrecursive, SafeProgram, Query.SafeQuery, RowProgram, Query.IsTrueInstance, IsSolution, PlainAtom;
    var variables := Collections.ListOf(vars);
    var p := RowProgram(theory, data);
    RowProgramIsFine(theory, data);
    PlainQueryIsSafe(theory, data, literals, given.Keys);
    var answers := Query.TopDownEvaluation(p, theory, variables, literals, given, true);
    bindings := seq(|answers|, i requires 0 <= i < |answers| => Unwrap(answers[i]));
    forall b
      ensures b in bindings <==> IsSolution(data, vars, literals, given, b)
    {
      if b in bindings {
        var i :| 0 <= i < |bindings| && bindings[i] == b;
        InstanceIsSolution(theory, data, variables, vars, literals, given, answers[i]);
      }
      if IsSolution(data, vars, literals, given, b) {
        SolutionIsInstance(theory, data, variables, vars, literals, given, b);
        var i :| 0 <= i < |answers| && answers[i] == Wrap(b);
        assert bindings[i] == b;
      }
    }
  }

  // ---------------------------------------------------------------------------
  // One event for each row that some binding produces

  /** The proof is that of the rule with one of the bindings, and it proves the fact. */
  ghost predicate FromBindings(bindings: seq<Binding>, head: Literal, rule: Rule, f: Fact, pr: Proof) {
    pr.rule == rule && pr.binding in bindings && FactOf(head, pr.binding) == f
  }

  ghost predicate DistinctFacts(events: seq<Event>) {
    forall i, j | 0 <= i < j < |events| && events[i].AtomEvent? && events[j].AtomEvent? ::
      events[i].change.fact != events[j].change.fact
  }

  /** The events, with one more proof: added to the event of its row, or as an event of its own. */
  function AddProof(events: seq<Event>, f: Fact, pr: Proof, insert: bool): seq<Event> {
    if events == [] then [AtomEvent(Change(f, [pr], insert))]
    else if events[0].AtomEvent? && events[0].change.fact == f then
      [AtomEvent(Change(f, events[0].change.proofs + [pr], insert))] + events[1..]
    else [events[0]] + AddProof(events[1..], f, pr, insert)
  }

  lemma {:induction false} AddProofAdds(events: seq<Event>, f: Fact, pr: Proof, insert: bool)
    requires AllChanges(events, insert) && DistinctFacts(events)
    ensures var events' := AddProof(events, f, pr, insert);
            && AllChanges(events', insert) && DistinctFacts(events')
            && (forall e | e in events' :: e.change.fact == f || e in events)
            && (forall f', pr' :: InEvents(events', f', pr') <==> InEvents(events, f', pr') || (f' == f && pr' == pr))
  {
    var events' := AddProof(events, f, pr, insert);
    if events == [] {
      assert InEvent(events'[0], f, pr);
    } else {
      assert events[0] in events;
      var rest := events[1..];
      if events[0].change.fact != f {
        assert AllChanges(rest, insert) && DistinctFacts(rest);
        AddProofAdds(rest, f, pr, insert);
      }
      assert events'[1..] == if events[0].change.fact == f then rest else AddProof(rest, f, pr, insert);
      forall f', pr'
        ensures InEvents(events', f', pr') <==> InEvents(events, f', pr') || (f' == f && pr' == pr)
      {
        InEventsSplit(events, f', pr');
        InEventsSplit(events', f', pr');
      }
    }
  }

  /** Groups the bindings by the row they produce. */
  method GroupByFact(bindings: seq<Binding>, head: Literal, insert: bool, rule: Rule) returns (events: seq<Event>)
    ensures AllChanges(events, insert) && DistinctFacts(events)
    ensures forall f, pr :: InEvents(events, f, pr) <==> FromBindings(bindings, head, rule, f, pr)
  {
    hide InEvents, DistinctFacts, AllChanges, FactOf;
    events := [];
    NoEvents(insert);
    for i := 0 to |bindings|
      invariant AllChanges(events, insert) && DistinctFacts(events)
      invariant forall f, pr :: InEvents(events, f, pr) <==> FromBindings(bindings[..i], head, rule, f, pr)
    {
      var f := FactOf(head, bindings[i]);
      AddProofAdds(events, f, Proof(bindings[i], rule), insert);
      assert bindings[..i + 1] == bindings[..i] + [bindings[i]];
      events := AddProof(events, f, Proof(bindings[i], rule), insert);
    }
    assert bindings[..|bindings|] == bindings;
  }

  lemma NoEvents(insert: bool)
    ensures AllChanges([], insert) && DistinctFacts([]) && forall f, pr :: !InEvents([], f, pr)
  {}

  /** Events about different rows have no proof of the same row in common. */
  lemma DistinctFactsAreDisjoint(events: seq<Event>)
    requires DistinctFacts(events)
    ensures DisjointProofs(events)
  {}

  // ---------------------------------------------------------------------------
  // One delta rule

  /** The row is the delta rule's trigger, and the rest of the body is present. */
  ghost predicate DeltaProof(present: iset<Fact>, d: DeltaRule, t: Fact, f: Fact, pr: Proof) {
    && pr.rule == d.original && IsProofOf(pr, f)
    && FactOf(d.trigger, pr.binding) == t
    && forall i | 0 <= i < |d.body| :: FactOf(d.body[i], pr.binding) in present
  }

  lemma DeltaProofIsTriggered(present: iset<Fact>, r: Rule, i: nat, t: Fact, f: Fact, pr: Proof)
    requires i < |r.body|
    ensures DeltaProof(present, DeltaOf(r, i), t, f, pr) <==>
              pr.rule == r && IsProofOf(pr, f) && TriggeredAt(present, pr, i, t)
  {
    var d := DeltaOf(r, i);
    if DeltaProof(present, d, t, f, pr) {
      forall j | 0 <= j < |r.body| && j != i
        ensures FactOf(r.body[j], pr.binding) in present
      {
        assert r.body[j] == d.body[if j < i then j else j - 1];
      }
    }
    if pr.rule == r && IsProofOf(pr, f) && TriggeredAt(present, pr, i, t) {
      forall j | 0 <= j < |d.body|
        ensures FactOf(d.body[j], pr.binding) in present
      {
        assert d.body[j] == r.body[if j < i then j else j + 1];
      }
    }
  }

  /** No proof comes from two delta rules. */
  lemma DeltaProofsAreDistinct(present: iset<Fact>, d: DeltaRule, d': DeltaRule, t: Fact, f: Fact, pr: Proof)
    requires IsDeltaOf(d, d.original) && IsDeltaOf(d', d'.original) && d != d' && NoSelfJoin(d.original.body)
    requires DeltaProof(present, d, t, f, pr)
    ensures !DeltaProof(present, d', t, f, pr)
  {
    if DeltaProof(present, d', t, f, pr) {
      var i: nat :| i < |d.original.body| && d == DeltaOf(d.original, i);
      var j: nat :| j < |d'.original.body| && d' == DeltaOf(d'.original, j);
      TriggeredOnce(d.original, pr.binding, i, j);
    }
  }

  /** With the trigger's variables bound as the row demands, evaluating the rest of the body finds all proofs. */
  lemma SolutionsAreProofs(data: Rows, present: iset<Fact>, d: DeltaRule, t: Fact, given: Binding,
                           bindings: seq<Binding>, f: Fact, pr: Proof)
    requires IsDeltaOf(d, d.original) && d.trigger.table.table == t.table
    requires forall f :: f in present <==> IsStored(data, f)
    requires forall nu: Valuation :: Values(d.trigger.arguments, nu) == t.tuple <==> Agrees(nu, given)
    requires forall b :: b in bindings <==> IsSolution(data, RuleVars(d.original), d.body, given, b)
    ensures FromBindings(bindings, d.head, d.original, f, pr) <==> DeltaProof(present, d, t, f, pr)
  {
    hide IsStored;
    assert FactOf(d.trigger, pr.binding) == t <==> Agrees(AsValuation(pr.binding), given);
  }

  lemma NoMatchNoProof(present: iset<Fact>, d: DeltaRule, t: Fact, f: Fact, pr: Proof)
    requires forall nu: Valuation :: Values(d.trigger.arguments, nu) != t.tuple
    ensures !DeltaProof(present, d, t, f, pr)
  {}

  lemma DeltaVariables(d: DeltaRule)
    requires IsDeltaOf(d, d.original) && PlainRule(d.original)
    ensures PlainAtom(d.trigger) && d.trigger.VariableNames() <= RuleVars(d.original)
    ensures forall lit | lit in d.body :: PlainAtom(lit) && lit.VariableNames() <= RuleVars(d.original)
    ensures RuleVars(d.original) <= BodyVars(d.body) + d.trigger.VariableNames()
  {
    var r := d.original;
    var i: nat :| i < |r.body| && d == DeltaOf(r, i);
    assert forall lit :: lit in r.body <==> lit == d.trigger || lit in d.body;
  }

  /** The body's solutions over the rows, when the rule itself comes or goes, are its justified proofs. */
  lemma SolutionsAreJustified(data: Rows, present: iset<Fact>, r: Rule, bindings: seq<Binding>, f: Fact, pr: Proof)
    requires forall f :: f in present <==> IsStored(data, f)
    requires forall b :: b in bindings <==> IsSolution(data, RuleVars(r), r.body, map[], b)
    ensures FromBindings(bindings, r.head, r, f, pr) <==> IsJustified(present, {r}, f, pr)
  {}

  /** Events whose proofs are all a rule's own are about views, and carry proofs. */
  lemma OwnProofsAreValid(setting: Setting, events: seq<Event>, insert: bool)
    requires AllChanges(events, insert)
    requires forall f, pr | InEvents(events, f, pr) :: setting.IsOwnProof(pr, f)
    ensures setting.ValidQueue(events)
  {
    forall e | e in events
      ensures setting.ValidEvent(e)
    {
      var i :| 0 <= i < |events| && events[i] == e;
      forall pr | pr in e.change.proofs
        ensures setting.IsOwnProof(pr, e.change.fact)
      {
        assert InEvent(events[i], e.change.fact, pr);
        assert InEvents(events, e.change.fact, pr);
      }
      var pr := e.change.proofs[0];
      assert pr in ProofSet(e.change.proofs);
      assert setting.IsOwnProof(pr, e.change.fact);
    }
  }
}
