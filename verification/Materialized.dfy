/** A theory that stores the contents of its views, and brings them up to date from a queue of events. */
module Materialized {
  import opened Syntax
  import opened Semantics
  import opened Database
  import opened Views
  import opened StoredProgram
  import opened DeltaRules
  import opened SortedBodies
  import opened EliminatedRules
  import opened Trigger
  import opened Propagation

  class MaterializedViewTheory {
    const name: string
    var queue: seq<Event>
    const database: Database
    const deltaRules: DeltaRuleTheory

    constructor (name: string, below: Order)
      requires IsTotalOrder(below)
      ensures this.name == name && queue == [] && fresh(database) && fresh(deltaRules) && deltaRules.below == below
      ensures database.Valid() && database.View() == imap[]
      ensures deltaRules.Valid() && deltaRules.originals == {}
    {
      this.name, queue := name, [];
      database := new Database();
      deltaRules := new DeltaRuleTheory(below);
    }

    ghost predicate Valid(setting: Setting)
      reads this, database, deltaRules
    {
      && database.Valid() && deltaRules.Valid() && AllSorted(deltaRules.below, setting.rules)
      && Invariant(setting, database.View(), deltaRules.originals, queue)
    }

    /** The rows that are there now. */
    ghost function Present(): iset<Fact>
      reads this, database
    {
      database.View().Keys
    }

    /** Enqueues one event for each row the bindings produce. */
    method ProcessNewBindings(bindings: seq<Binding>, head: Literal, insert: bool, rule: Rule)
      returns (more: seq<Event>)
      modifies this`queue
      ensures queue == old(queue) + more
      ensures AllChanges(more, insert) && DistinctFacts(more)
      ensures forall f, pr :: InEvents(more, f, pr) <==> FromBindings(bindings, head, rule, f, pr)
    {
      more := GroupByFact(bindings, head, insert, rule);
      queue := queue + more;
    }

    /** Enqueues what a changed row and one delta rule give rise to. */
    method PropagateRule(change: Change, d: DeltaRule) returns (more: seq<Event>)
      requires database.Valid()
      requires IsDeltaOf(d, d.original) && PlainRule(d.original) && d.trigger.table.table == change.fact.table
      modifies this`queue
      ensures queue == old(queue) + more
      ensures AllChanges(more, change.insert) && DisjointProofs(more)
      ensures forall f, pr :: InEvents(more, f, pr) <==> DeltaProof(Present(), d, change.fact, f, pr)
    {
      hide PlainRule, IsDeltaOf, InEvents, DeltaProof, AllChanges, DisjointProofs, DistinctFacts, FromBindings,
           IsSolution, Agrees, PlainAtom;
      more := [];
      DeltaVariables(d);
      PlainTable(d.trigger);
      var given := MatchTrigger(d.trigger, change.fact.table, change.fact.tuple, name);
      if given == None {
        forall f, pr
          ensures !DeltaProof(Present(), d, change.fact, f, pr)
        {
          NoMatchNoProof(Present(), d, change.fact, f, pr);
        }
        NoEvents(change.insert);
        DistinctFactsAreDisjoint([]);
        return;
      }
      var bindings := Solutions(name, database.data, RuleVars(d.original), d.body, given.value);
      var insert := if d.trigger.negated then !change.insert else change.insert;
      forall f, pr
        ensures FromBindings(bindings, d.head, d.original, f, pr) <==> DeltaProof(Present(), d, change.fact, f, pr)
      {
        SolutionsAreProofs(database.data, Present(), d, change.fact, given.value, bindings, f, pr);
      }
      more := ProcessNewBindings(bindings, d.head, insert, d.original);
      DistinctFactsAreDisjoint(more);
    }

    /** Enqueues what a changed row and all the delta rules give rise to. */
    method Propagate(ghost setting: Setting, change: Change) returns (more: seq<Event>)
      requires database.Valid() && deltaRules.Valid() && setting.Valid() && deltaRules.originals <= setting.rules
      modifies this`queue
      ensures queue == old(queue) + more
      ensures Propagated(setting, Present(), deltaRules.originals, change, more)
    {
      hide PlainRule, IsDeltaOf, InEvents, DeltaProof, AllChanges, DisjointProofs;
      more := [];
      NoEvents(change.insert);
      DistinctFactsAreDisjoint([]);
      var deltas := deltaRules.RulesWithTrigger(change.fact.table);
      for i := 0 to |deltas|
        invariant queue == old(queue) + more
        invariant AllChanges(more, change.insert) && DisjointProofs(more)
        invariant forall f, pr :: InEvents(more, f, pr) <==> FromDeltas(Present(), deltas[..i], change.fact, f, pr)
      {
        assert deltas[i] in deltas;
        var events := PropagateRule(change, deltas[i]);
        assert deltas[..i + 1] == deltas[..i] + [deltas[i]];
        FromMoreDeltas(Present(), deltas, i, change, more, events);
        more := more + events;
      }
      assert deltas[..|deltas|] == deltas;
      AllDeltasTrigger(setting, Present(), deltaRules.originals, deltas, change, more);
    }

    /** Inserts or deletes a rule and, if that changes anything, enqueues what the rule justifies. */
    method ProcessRule(ghost setting: Setting, e: Event) returns (changed: bool, ghost more: seq<Event>)
      requires database.Valid() && deltaRules.Valid() && AllSorted(deltaRules.below, setting.rules) && e.RuleEvent?
      requires Invariant(setting, database.View(), deltaRules.originals, [e] + queue)
      modifies this`queue, deltaRules
      ensures deltaRules.Valid() && Valid(setting)
      ensures deltaRules.originals == ApplyToRules(old(deltaRules.originals), e)
      ensures changed <==> deltaRules.originals != old(deltaRules.originals)
      ensures queue == old(queue) + more && IsHigher(setting, e, more)
    {
      hide Invariant, Setting.Valid, Evaluated, Setting.IsView, InEvents, IsSolution, PlainAtom, IsJustified,
           FromBindings,
           AllSorted, SortedRule, DeltaRuleTheory.Valid;
      ghost var c := database.View();
      RuleOfEvent(setting, c, deltaRules.originals, queue, e);
      deltaRules.SortedOriginals();
      SortedRuleIsItself(deltaRules.below, setting, deltaRules.originals, e.rule);
      more := [];
      if e.insert {
        changed := deltaRules.Insert(e.rule);
      } else {
        changed := deltaRules.Delete(e.rule);
      }
      assert database.View() == c;
      if !changed {
        assert deltaRules.originals == old(deltaRules.originals);
        RuleNoop(setting, c, deltaRules.originals, [e] + queue);
        assert ([e] + queue)[1..] == queue;
        return;
      }
      var bindings := Solutions(name, database.data, RuleVars(e.rule), e.rule.body, map[]);
      var events := ProcessNewBindings(bindings, e.rule.head, e.insert, e.rule);
      BindingsEvaluate(setting, database.data, Present(), e.rule, e.insert, bindings, events);
      assert ([e] + old(queue))[1..] == old(queue);
      RuleStep(setting, c, old(deltaRules.originals), [e] + old(queue), events);
      EvaluatedIsHigher(setting, Present(), e, events);
      more := events;
    }

    /** Enqueues what the changed row gives rise to, and then changes it. */
    method ProcessChange(ghost setting: Setting, e: Event) returns (changed: bool, ghost more: seq<Event>)
      requires database.Valid() && deltaRules.Valid() && AllSorted(deltaRules.below, setting.rules) && e.AtomEvent?
      requires Invariant(setting, database.View(), deltaRules.originals, [e] + queue)
      modifies this`queue, database
      ensures database.Valid() && Valid(setting)
      ensures database.View() == Apply(old(database.View()), e.change)
      ensures changed <==> !IsNoop(old(database.View()), e.change)
      ensures queue == old(queue) + more && IsHigher(setting, e, more)
    {
      hide Invariant, Setting.Valid, Propagated, Apply, IsNoop;
      InvariantRules(setting, database.View(), deltaRules.originals, [e] + queue);
      var events := Propagate(setting, e.change);
      changed := database.Modify(e.change);
      assert ([e] + old(queue))[1..] == old(queue);
      ChangeStep(setting, old(database.View()), deltaRules.originals, [e] + old(queue), events);
      PropagatedIsHigher(setting, old(Present()), deltaRules.originals, e, events);
      more := events;
    }

    /** Enqueues a change of a base row; or a rule, rewritten so that it has no self-joins. */
    method EnqueueAny(ghost setting: Setting, e: Event) returns (more: seq<Event>)
      requires Valid(setting) && CanBeEnqueued(deltaRules.below, setting, e)
      modifies this`queue
      ensures Valid(setting) && queue == old(queue) + more && IsExpansion(deltaRules.below, e, more)
    {
      hide Invariant, Setting.Valid, Setting.IsView, SelfJoin.AreCopies, SelfJoin.WithoutSelfJoins, Setting.ValidRow,
           AllSorted, SortedRule;
      if e.AtomEvent? {
        EnqueueKeepsInvariant(setting, database.View(), deltaRules.originals, queue, e);
        queue := queue + [e];
        return [e];
      }
      var rules := SelfJoin.EliminateSelfJoins([e.rule]);
      more := [];
      for i := 0 to |rules|
        invariant Valid(setting) && queue == old(queue) + more
        invariant |more| == i && forall j | 0 <= j < i ::
                  more[j] == RuleEvent(SortedRule(deltaRules.below, rules[j]), e.insert)
      {
        assert rules[i] in rules;
        var event := RuleEvent(SortedRule(deltaRules.below, rules[i]), e.insert);
        assert setting.ValidEvent(event);
        EnqueueKeepsInvariant(setting, database.View(), deltaRules.originals, queue, event);
        queue := queue + [event];
        more := more + [event];
      }
      assert EventRules(more) == SortedRules(deltaRules.below, rules);
    }

    /** Enqueues the events and processes them all; `expanded` lists what was enqueued. */
    method Update(ghost setting: Setting, events: seq<Event>) returns (history: seq<Event>, ghost expanded: seq<Event>)
      requires Valid(setting) && queue == []
      requires forall e | e in events :: CanBeEnqueued(deltaRules.below, setting, e)
      modifies this`queue, database, deltaRules
      ensures Valid(setting) && queue == [] && Expands(deltaRules.below, events, expanded)
      ensures deltaRules.originals == RulesAfter(old(deltaRules.originals), expanded)
      ensures forall f: Fact | !setting.IsView(f.table) ::
                f in database.View() <==> f in Future(old(database.View()), expanded)
      ensures forall rules | RuleSet(rules) == deltaRules.originals ::
                EqualsFromScratch(setting, name, database.data, rules)
      ensures database.View() == Future(old(database.View()), history)
      ensures deltaRules.originals == RulesAfter(old(deltaRules.originals), history)
      ensures EachChanges(old(database.View()), old(deltaRules.originals), history)
      ensures forall users | SelfJoin.UserRules(users) && Represents(deltaRules.below, old(deltaRules.originals), users)
                             && IsSafeBatch(deltaRules.below, users, events) ::
                Represents(deltaRules.below, deltaRules.originals, UsersAfter(deltaRules.below, users, events))
    {
      hide Invariant, Setting.Valid, Setting.IsView, EqualsFromScratch, IsExpansion, CanBeEnqueued, AllSorted,
           Represents,
           SelfJoin.UserRules, IsSafeBatch, UsersAfter, DeltaRuleTheory.Valid;
      ghost var below, rules := deltaRules.below, deltaRules.originals;
      deltaRules.SortedOriginals();
      expanded := [];
      for i := 0 to |events|
        invariant Valid(setting) && queue == expanded && Expands(below, events[..i], expanded)
        modifies this`queue
      {
        var more := EnqueueAny(setting, events[i]);
        assert events[..i + 1][..i] == events[..i];
        assert (expanded + more)[..|expanded|] == expanded && (expanded + more)[|expanded|..] == more;
        expanded := expanded + more;
      }
      assert events[..|events|] == events;
      history := ProcessQueue(setting);
      forall users | SelfJoin.UserRules(users) && Represents(below, rules, users) && IsSafeBatch(below, users, events)
        ensures Represents(below, deltaRules.originals, UsersAfter(below, users, events))
      {
        BatchRepresents(below, rules, users, events, expanded);
      }
    }

    method ProcessEvent(ghost setting: Setting, e: Event) returns (changed: bool, ghost more: seq<Event>)
      requires database.Valid() && deltaRules.Valid() && AllSorted(deltaRules.below, setting.rules)
      requires Invariant(setting, database.View(), deltaRules.originals, [e] + queue)
      modifies this`queue, database, deltaRules
      ensures Valid(setting)
      ensures database.View() == ApplyEvent(old(database.View()), e)
      ensures deltaRules.originals == ApplyToRules(old(deltaRules.originals), e)
      ensures changed <==>
                database.View() != old(database.View()) || deltaRules.originals != old(deltaRules.originals)
      ensures queue == old(queue) + more && IsHigher(setting, e, more)
    {
      hide Invariant, IsHigher, IsNoop, Apply;
      NoopChangesNothing(setting, database.View(), deltaRules.originals, queue, e);
      if e.RuleEvent? {
        changed, more := ProcessRule(setting, e);
      } else {
        changed, more := ProcessChange(setting, e);
      }
    }

    /**
     Processes events, first come first served, until none is left.
     The result lists those that changed something.
     */
    method ProcessQueue(ghost setting: Setting) returns (history: seq<Event>)
      requires Valid(setting)
      modifies this`queue, database, deltaRules
      ensures Valid(setting) && queue == []
      ensures deltaRules.originals == RulesAfter(old(deltaRules.originals), old(queue))
      ensures forall f: Fact | !setting.IsView(f.table) ::
                f in database.View() <==> f in Future(old(database.View()), old(queue))
      ensures forall rules | RuleSet(rules) == deltaRules.originals ::
                EqualsFromScratch(setting, name, database.data, rules)
      ensures database.View() == Future(old(database.View()), history)
      ensures deltaRules.originals == RulesAfter(old(deltaRules.originals), history)
      ensures EachChanges(old(database.View()), old(deltaRules.originals), history)
    {
      hide Invariant, Setting.Valid, Future, RulesAfter, Setting.IsView, EqualsFromScratch, ApplyEvent, ApplyToRules,
           Setting.Level;
      history := [];
      ghost var c, rules := database.View(), deltaRules.originals;
      ghost var q := queue;
      ghost var round: nat, left: nat := 0, |queue|;
      NoHistory(c, rules);
      while |queue| > 0
        invariant Valid(setting)
        invariant RulesAfter(deltaRules.originals, queue) == RulesAfter(rules, q)
        invariant SameBaseRows(setting, Future(database.View(), queue), Future(c, q))
        invariant database.View() == Future(c, history) && deltaRules.originals == RulesAfter(rules, history)
        invariant EachChanges(c, rules, history)
        invariant left <= |queue| && InRounds(setting, queue, round, left)
        decreases setting.top + 2 - round, left
      {
        ghost var before, c', rules' := queue, database.View(), deltaRules.originals;
        InvariantRules(setting, c', rules', queue);
        if left == 0 {
          LevelBound(setting, queue[0]);
          round, left := round + 1, |queue|;
        }
        var e := queue[0];
        queue := queue[1..];
        assert [e] + queue == before;
        var changed, more := ProcessEvent(setting, e);
        RunStep(setting, c', rules', before, more);
        HistoryStep(c, rules, history, e);
        RoundStep(setting, before, round, left, more);
        left := left - 1;
        if changed {
          assert (history + [e])[..|history|] == history;
          history := history + [e];
        }
      }
      NoHistory(database.View(), deltaRules.originals);
      forall rules | RuleSet(rules) == deltaRules.originals
        ensures EqualsFromScratch(setting, name, database.data, rules)
      {
        Drained(setting, name, database.data, database.View(), rules);
      }
    }
  }

  function EventRules(events: seq<Event>): seq<Rule>
    requires forall i | 0 <= i < |events| :: events[i].RuleEvent?
  {
    seq(|events|, i requires 0 <= i < |events| => events[i].rule)
  }

  function SortedRules(below: Order, rules: seq<Rule>): seq<Rule> {
    seq(|rules|, i requires 0 <= i < |rules| => SortedRule(below, rules[i]))
  }

  /** A rule of the setting is its own sorted form, so it counts as known only if it is. */
  lemma SortedRuleIsItself(below: Order, setting: Setting, rules: set<Rule>, r: Rule)
    requires IsTotalOrder(below) && AllSorted(below, setting.rules) && AllSorted(below, rules) && r in setting.rules
    ensures SortedRule(below, r) == r
    ensures (exists r' :: r' in rules && SameRule(r', r)) <==> r in rules
  {
    hide IsTotalOrder, SameRule;
    SortKeepsSorted(below, r.body);
    SortedIsKnown(below, rules, r);
  }

  /** A change is enqueued as it is, a rule as the sorted rules that self-join elimination makes of it. */
  ghost predicate IsExpansion(below: Order, e: Event, more: seq<Event>) {
    match e
    case AtomEvent(_) => more == [e]
    case RuleEvent(r, insert) =>
      && (forall i | 0 <= i < |more| :: more[i].RuleEvent? && more[i].insert == insert)
      && exists results :: SelfJoin.IsElimination(results, [r]) && EventRules(more) == SortedRules(below, results)
  }

  ghost predicate Expands(below: Order, events: seq<Event>, expanded: seq<Event>)
    decreases |events|
  {
    if events == [] then expanded == []
    else exists k :: 0 <= k <= |expanded| && Expands(below, events[..|events| - 1], expanded[..k])
                     && IsExpansion(below, events[|events| - 1], expanded[k..])
  }

  /** Changes concern base rows; rules belong, once rewritten, to those the setting allows. */
  ghost predicate CanBeEnqueued(below: Order, setting: Setting, e: Event) {
    match e
    case AtomEvent(ch) => setting.ValidEvent(e) && !setting.IsView(ch.fact.table)
    case RuleEvent(r, _) =>
      && SelfJoin.UnqualifiedRule(r)
      && forall results, r' | SelfJoin.IsElimination(results, [r]) && r' in results ::
           SortedRule(below, r') in setting.rules
  }

  // ---------------------------------------------------------------------------
  // The rules of users

  /** The rules that users have inserted and not deleted. */
  function UsersAfter(below: Order, users: seq<Rule>, events: seq<Event>): seq<Rule>
    decreases |events|
  {
    if events == [] then users
    else
      var mid := UsersAfter(below, users, events[..|events| - 1]);
      match events[|events| - 1]
      case AtomEvent(_) => mid
      case RuleEvent(r, insert) => if insert then mid + [r] else WithoutRule(below, mid, r)
  }

  /** Rules are the users' own, and no deleted rule shares a new table with those that are left. */
  ghost predicate IsSafeBatch(below: Order, users: seq<Rule>, events: seq<Event>)
    decreases |events|
  {
    events == [] ||
    (var init, e := events[..|events| - 1], events[|events| - 1];
     && IsSafeBatch(below, users, init)
     && (e.RuleEvent? ==>
           SelfJoin.UserRule(e.rule) && (e.insert || SharesNoCopy(below, UsersAfter(below, users, init), e.rule))))
  }

  lemma {:induction false} RulesAfterOneKind(rules: set<Rule>, more: seq<Event>, insert: bool)
    requires forall i | 0 <= i < |more| :: more[i].RuleEvent? && more[i].insert == insert
    ensures RulesAfter(rules, more) ==
              if insert then rules + RuleSet(EventRules(more)) else rules - RuleSet(EventRules(more))
    decreases |more|
  {
    if more != [] {
      assert EventRules(more)[1..] == EventRules(more[1..]);
      assert EventRules(more) == [more[0].rule] + EventRules(more[1..]);
      assert RuleSet(EventRules(more)) == {more[0].rule} + RuleSet(EventRules(more[1..]));
      RulesAfterOneKind(ApplyToRules(rules, more[0]), more[1..], insert);
    } else {
      assert RuleSet(EventRules(more)) == {};
    }
  }

  /** What is enqueued for a rule is what the theory keeps for it. */
  lemma ExpansionRepresents(below: Order, r: Rule, results: seq<Rule>)
    requires SelfJoin.IsElimination(results, [r])
    ensures Represents(below, RuleSet(SortedRules(below, results)), [r])
  {
    hide SelfJoin.WithoutSelfJoins, SelfJoin.Extra;
    var sorted := SortedRules(below, results);
    forall x
      ensures x in sorted <==> IsKept(below, [r], x)
    {
      if i :| 0 <= i < |sorted| && sorted[i] == x {
        if i == 0 {
          assert r in [r] && results[0] == SelfJoin.WithoutSelfJoins([r][0]);
        } else {
          assert results[1..][i - 1] == results[i] && results[i] in results[1..];
          var key, k :| 1 <= k <= SelfJoin.Extra([r], key) && results[i] == SelfJoin.CopyRule(key, k);
          CopyIsSorted(below, key, k);
          assert IsCopy([r], x);
        }
      }
      if u :| u in [r] && x == Kept(below, u) {
        assert sorted[0] == x;
      }
      if key, k :| 1 <= k <= SelfJoin.Extra([r], key) && x == SelfJoin.CopyRule(key, k) {
        assert x in results[1..];
        var i :| 0 <= i < |results[1..]| && results[1..][i] == x;
        CopyIsSorted(below, key, k);
        assert sorted[i + 1] == x;
      }
    }
  }

  lemma CopyIsSorted(below: Order, key: SelfJoin.TableArity, k: nat)
    ensures SortedRule(below, SelfJoin.CopyRule(key, k)) == SelfJoin.CopyRule(key, k)
  {
    var body := SelfJoin.CopyRule(key, k).body;
    assert body == [body[0]] && body[1..] == [];
    assert Sort(below, body[1..]) == [];
    assert Sort(below, body) == body;
  }

  lemma UsersStay(below: Order, users: seq<Rule>, r: Rule)
    requires SelfJoin.UserRules(users)
    ensures SelfJoin.UserRules(WithoutRule(below, users, r))
    ensures SelfJoin.UserRule(r) ==> SelfJoin.UserRules(users + [r])
  {
    forall u | u in WithoutRule(below, users, r)
      ensures SelfJoin.UserRule(u)
    {
      WithoutRuleMember(below, users, r, u);
    }
  }

  /** After a safe batch the theory keeps exactly what the rules need that users then have. */
  lemma {:induction false} BatchRepresents(below: Order, rules: set<Rule>, users: seq<Rule>, events: seq<Event>,
                                           expanded: seq<Event>)
    requires IsTotalOrder(below) && SelfJoin.UserRules(users) && Represents(below, rules, users)
    requires IsSafeBatch(below, users, events) && Expands(below, events, expanded)
    ensures SelfJoin.UserRules(UsersAfter(below, users, events))
    ensures Represents(below, RulesAfter(rules, expanded), UsersAfter(below, users, events))
    decreases |events|
  {
    hide IsTotalOrder, SelfJoin.UserRules, Represents, RulesAfter, SharesNoCopy, SelfJoin.UserRule, IsExpansion,
         WithoutRule;
    if events == [] {
      RulesAfterNothing(rules);
    } else {
      var init, e := events[..|events| - 1], events[|events| - 1];
      var k :| 0 <= k <= |expanded| && Expands(below, init, expanded[..k]) && IsExpansion(below, e, expanded[k..]);
      BatchRepresents(below, rules, users, init, expanded[..k]);
      assert expanded == expanded[..k] + expanded[k..];
      RulesAfterAppend(rules, expanded[..k], expanded[k..]);
      EventRepresents(below, RulesAfter(rules, expanded[..k]), UsersAfter(below, users, init), e, expanded[k..]);
      if e.RuleEvent? {
        UsersStay(below, UsersAfter(below, users, init), e.rule);
      }
    }
  }

  lemma RulesAfterNothing(rules: set<Rule>)
    ensures RulesAfter(rules, []) == rules
  {}

  lemma EventRepresents(below: Order, rules: set<Rule>, users: seq<Rule>, e: Event, more: seq<Event>)
    requires IsTotalOrder(below) && SelfJoin.UserRules(users) && Represents(below, rules, users)
              && IsExpansion(below, e, more)
    requires e.RuleEvent? ==> SelfJoin.UserRule(e.rule) && (e.insert || SharesNoCopy(below, users, e.rule))
    ensures Represents(below, RulesAfter(rules, more),
                       match e
                       case AtomEvent(_) => users
                       case RuleEvent(r, insert) => if insert then users + [r] else WithoutRule(below, users, r))
  {
    hide IsTotalOrder, SelfJoin.UserRules, Represents, SharesNoCopy, SelfJoin.UserRule, SelfJoin.IsElimination;
    match e
    case AtomEvent(_) =>
      assert more[1..] == [];
    case RuleEvent(r, insert) =>
      var results :| SelfJoin.IsElimination(results, [r]) && EventRules(more) == SortedRules(below, results);
      ExpansionRepresents(below, r, results);
      RulesAfterOneKind(rules, more, insert);
      var kept := RuleSet(SortedRules(below, results));
      if insert {
        RepresentsInsert(below, rules, users, r, kept);
      } else {
        RepresentsDelete(below, rules, users, r, kept);
      }
  }

  /** Every row is stored exactly when evaluation of the rules over the base rows makes it true. */
  ghost predicate EqualsFromScratch(setting: Setting, theory: string, data: Rows, rules: seq<Rule>) {
    && Nonrecursive(FullProgram(setting, theory, data, rules))
    && forall f: Fact ::
         IsStored(data, f) <==>
           Holds(FullProgram(setting, theory, data, rules), Pred(theory, theory, f.table, None), f.tuple)
  }

  ghost predicate SameBaseRows(setting: Setting, c: Contents, c': Contents) {
    forall f: Fact | !setting.IsView(f.table) :: f in c <==> f in c'
  }

  /** The first events have at least the level `round`, all others a higher one. */
  ghost predicate InRounds(setting: Setting, q: seq<Event>, round: nat, left: nat) {
    forall i | 0 <= i < |q| :: setting.Level(q[i]) >= if i < left then round else round + 1
  }

  lemma RoundStep(setting: Setting, q: seq<Event>, round: nat, left: nat, more: seq<Event>)
    requires q != [] && 0 < left <= |q| && InRounds(setting, q, round, left) && IsHigher(setting, q[0], more)
    ensures InRounds(setting, q[1..] + more, round, left - 1)
  {
    hide Setting.Level;
    var q' := q[1..] + more;
    forall i | 0 <= i < |q'|
      ensures setting.Level(q'[i]) >= if i < left - 1 then round else round + 1
    {
      if i < |q| - 1 {
        assert q'[i] == q[i + 1];
      } else {
        assert q'[i] in more;
      }
    }
  }

  lemma NoHistory(c: Contents, rules: set<Rule>)
    ensures Future(c, []) == c && RulesAfter(rules, []) == rules
  {}

  lemma HistoryStep(c: Contents, rules: set<Rule>, history: seq<Event>, e: Event)
    ensures Future(c, history + [e]) == ApplyEvent(Future(c, history), e)
    ensures RulesAfter(rules, history + [e]) == ApplyToRules(RulesAfter(rules, history), e)
  {
    FutureAppend(c, history, [e]);
    RulesAfterAppend(rules, history, [e]);
    assert [e][1..] == [];
  }

  /** A change is a no-op exactly if it leaves the contents alone. */
  lemma NoopChangesNothing(setting: Setting, c: Contents, rules: set<Rule>, q: seq<Event>, e: Event)
    requires Invariant(setting, c, rules, [e] + q)
    ensures e.AtomEvent? ==> (IsNoop(c, e.change) <==> Apply(c, e.change) == c)
  {
    assert ([e] + q)[0] in [e] + q;
    if e.AtomEvent? && !IsNoop(c, e.change) {
      var ch := e.change;
      if ch.insert {
        assert ch.fact in Apply(c, ch);
      } else if pr :| pr in ProofSet(ch.proofs) {
        assert pr in c[ch.fact];
        assert ch.fact in Apply(c, ch) ==> pr !in Apply(c, ch)[ch.fact];
      } else {
        assert c[ch.fact] - ProofSet(ch.proofs) == {};
      }
    }
  }

  lemma Drained(setting: Setting, theory: string, data: Rows, c: Contents, rules: seq<Rule>)
    requires Invariant(setting, c, RuleSet(rules), []) && c == StoredContents(data)
    ensures EqualsFromScratch(setting, theory, data, rules)
  {
    hide Invariant, Holds, IsStored, Nonrecursive, FullProgram;
    DrainedEqualsFromScratch(setting, theory, data, rules, Fact("", []));
    forall f: Fact
      ensures IsStored(data, f) <==>
                Holds(FullProgram(setting, theory, data, rules), Pred(theory, theory, f.table, None), f.tuple)
    {
      DrainedEqualsFromScratch(setting, theory, data, rules, f);
    }
  }

  /** Every event changed the contents or the rules when it was processed. */
  ghost predicate EachChanges(c: Contents, rules: set<Rule>, history: seq<Event>) {
    history != [] ==>
      var init, e := history[..|history| - 1], history[|history| - 1];
      && EachChanges(c, rules, init)
      && (|| ApplyEvent(Future(c, init), e) != Future(c, init)
          || ApplyToRules(RulesAfter(rules, init), e) != RulesAfter(rules, init))
  }

  /** One step changes neither what base rows there will be nor what rules there will be. */
  lemma RunStep(setting: Setting, c: Contents, rules: set<Rule>, q: seq<Event>, more: seq<Event>)
    requires q != [] && OnlyViews(setting, more)
    ensures RulesAfter(ApplyToRules(rules, q[0]), q[1..] + more) == RulesAfter(rules, q)
    ensures SameBaseRows(setting, Future(ApplyEvent(c, q[0]), q[1..] + more), Future(c, q))
  {
    RulesAfterAppend(ApplyToRules(rules, q[0]), q[1..], more);
    ViewsLeaveRules(setting, RulesAfter(ApplyToRules(rules, q[0]), q[1..]), more);
    FutureAppend(ApplyEvent(c, q[0]), q[1..], more);
    forall f: Fact | !setting.IsView(f.table)
      ensures f in Future(ApplyEvent(c, q[0]), q[1..] + more) <==> f in Future(c, q)
    {
      ViewsLeaveBaseRows(setting, Future(c, q), more, f);
    }
  }

  /** All events concern views, and have a higher level than the one they come from. */
  ghost predicate IsHigher(setting: Setting, e: Event, more: seq<Event>) {
    OnlyViews(setting, more) && forall e' | e' in more :: setting.Level(e') > setting.Level(e)
  }

  lemma InvariantRules(setting: Setting, c: Contents, rules: set<Rule>, q: seq<Event>)
    requires Invariant(setting, c, rules, q)
    ensures setting.Valid() && rules <= setting.rules
  {}

  lemma RuleOfEvent(setting: Setting, c: Contents, rules: set<Rule>, q: seq<Event>, e: Event)
    requires Invariant(setting, c, rules, [e] + q) && e.RuleEvent?
    ensures setting.Valid() && e.rule in setting.rules && NoSelfJoin(e.rule.body)
    ensures RuleVars(e.rule) <= BodyVars(e.rule.body)
    ensures forall lit | lit in e.rule.body :: PlainAtom(lit) && lit.VariableNames() <= RuleVars(e.rule)
  {
    assert ([e] + q)[0] in [e] + q;
    assert PlainRule(e.rule);
  }

  lemma BindingsEvaluate(setting: Setting, data: Rows, present: iset<Fact>, r: Rule, insert: bool,
                         bindings: seq<Binding>, events: seq<Event>)
    requires setting.Valid() && r in setting.rules
    requires forall f :: f in present <==> IsStored(data, f)
    requires forall b :: b in bindings <==> IsSolution(data, RuleVars(r), r.body, map[], b)
    requires AllChanges(events, insert) && DistinctFacts(events)
    requires forall f, pr :: InEvents(events, f, pr) <==> FromBindings(bindings, r.head, r, f, pr)
    ensures Evaluated(setting, present, r, insert, events)
  {
    hide InEvents, DisjointProofs, DistinctFacts, AllChanges, IsStored, FromBindings, Setting.Valid, Setting.ValidQueue;
    forall f, pr
      ensures InEvents(events, f, pr) <==> IsJustified(present, {r}, f, pr)
    {
      SolutionsAreJustified(data, present, r, bindings, f, pr);
    }
    DistinctFactsAreDisjoint(events);
    OwnProofsAreValid(setting, events, insert);
  }

  lemma EvaluatedIsHigher(setting: Setting, present: iset<Fact>, e: Event, more: seq<Event>)
    requires setting.Valid() && e.RuleEvent? && e.rule in setting.rules
    requires Evaluated(setting, present, e.rule, e.insert, more)
    ensures IsHigher(setting, e, more)
  {
    hide Setting.Valid;
    forall e' | e' in more
      ensures setting.Level(e') > setting.Level(e) && e'.AtomEvent? && setting.IsView(e'.change.fact.table)
    {
      EvaluatedLevels(setting, present, e.rule, e.insert, more, e');
    }
  }

  lemma PropagatedIsHigher(setting: Setting, present: iset<Fact>, rules: set<Rule>, e: Event, more: seq<Event>)
    requires setting.Valid() && rules <= setting.rules && e.AtomEvent?
    requires Propagated(setting, present, rules, e.change, more)
    ensures IsHigher(setting, e, more)
  {
    hide Setting.Valid;
    forall e' | e' in more
      ensures setting.Level(e') > setting.Level(e) && e'.AtomEvent? && setting.IsView(e'.change.fact.table)
    {
      PropagatedLevels(setting, present, rules, e.change, more, e');
    }
  }

  lemma PlainTable(lit: Literal)
    requires PlainAtom(lit)
    ensures lit.table == Tablename(None, lit.table.table, None) && !lit.negated
  {}

  /** One of the delta rules gives the proof. */
  ghost predicate FromDeltas(present: iset<Fact>, deltas: seq<DeltaRule>, t: Fact, f: Fact, pr: Proof) {
    exists d :: d in deltas && DeltaProof(present, d, t, f, pr)
  }

  lemma InEventsAppend(q: seq<Event>, more: seq<Event>, f: Fact, pr: Proof)
    ensures InEvents(q + more, f, pr) <==> InEvents(q, f, pr) || InEvents(more, f, pr)
  {
    var all := q + more;
    if i :| 0 <= i < |q| && InEvent(q[i], f, pr) {
      assert InEvent(all[i], f, pr);
    }
    if i :| 0 <= i < |more| && InEvent(more[i], f, pr) {
      assert InEvent(all[|q| + i], f, pr);
    }
  }

  lemma DisjointAppend(q: seq<Event>, more: seq<Event>)
    requires DisjointProofs(q) && DisjointProofs(more)
    requires forall f, pr | InEvents(more, f, pr) :: !InEvents(q, f, pr)
    ensures DisjointProofs(q + more)
  {
    var all := q + more;
    forall i, j, f, pr | 0 <= i < j < |all| && InEvent(all[i], f, pr)
      ensures !InEvent(all[j], f, pr)
    {
      if i < |q| <= j {
        assert InEvent(q[i], f, pr);
        assert !InEvents(more, f, pr);
        assert all[j] == more[j - |q|];
      } else if j < |q| {
        assert InEvent(q[i], f, pr) && !InEvent(q[j], f, pr);
      } else {
        assert InEvent(more[i - |q|], f, pr) && !InEvent(more[j - |q|], f, pr);
      }
    }
  }

  lemma FromMoreDeltas(present: iset<Fact>, deltas: seq<DeltaRule>, i: nat, ch: Change, q: seq<Event>, more: seq<Event>)
    requires i < |deltas| && Distinct(deltas)
    requires forall d | d in deltas :: IsDeltaOf(d, d.original) && PlainRule(d.original)
    requires AllChanges(q, ch.insert) && AllChanges(more, ch.insert) && DisjointProofs(q) && DisjointProofs(more)
    requires forall f, pr :: InEvents(q, f, pr) <==> FromDeltas(present, deltas[..i], ch.fact, f, pr)
    requires forall f, pr :: InEvents(more, f, pr) <==> DeltaProof(present, deltas[i], ch.fact, f, pr)
    ensures AllChanges(q + more, ch.insert) && DisjointProofs(q + more)
    ensures forall f, pr :: InEvents(q + more, f, pr) <==> FromDeltas(present, deltas[..i + 1], ch.fact, f, pr)
  {
    hide InEvents, DeltaProof, DisjointProofs, IsDeltaOf, PlainRule;
    assert deltas[..i + 1] == deltas[..i] + [deltas[i]];
    forall f, pr
      ensures InEvents(q + more, f, pr) <==> FromDeltas(present, deltas[..i + 1], ch.fact, f, pr)
    {
      InEventsAppend(q, more, f, pr);
    }
    forall f, pr | InEvents(more, f, pr)
      ensures !InEvents(q, f, pr)
    {
      forall d | d in deltas[..i]
        ensures !DeltaProof(present, d, ch.fact, f, pr)
      {
        var j :| 0 <= j < i && deltas[j] == d;
        PlainHasNoSelfJoin(deltas[i].original);
        DeltaProofsAreDistinct(present, deltas[i], d, ch.fact, f, pr);
      }
    }
    DisjointAppend(q, more);
  }

  lemma PlainHasNoSelfJoin(r: Rule)
    requires PlainRule(r)
    ensures NoSelfJoin(r.body)
  {}

  lemma AllDeltasTrigger(setting: Setting, present: iset<Fact>, rules: set<Rule>, deltas: seq<DeltaRule>, ch: Change,
                         more: seq<Event>)
    requires setting.Valid() && rules <= setting.rules
    requires forall d :: d in deltas <==>
               d.trigger.table.table == ch.fact.table && d.original in rules && IsDeltaOf(d, d.original)
    requires AllChanges(more, ch.insert) && DisjointProofs(more)
    requires forall f, pr :: InEvents(more, f, pr) <==> FromDeltas(present, deltas, ch.fact, f, pr)
    ensures Propagated(setting, present, rules, ch, more)
  {
    hide InEvents, DisjointProofs, AllChanges, IsProofOf, Setting.Valid, Setting.ValidQueue;
    forall f, pr
      ensures FromDeltas(present, deltas, ch.fact, f, pr) <==> Triggered(present, rules, ch.fact, f, pr)
    {
      if d :| d in deltas && DeltaProof(present, d, ch.fact, f, pr) {
        var i: nat :| i < |d.original.body| && d == DeltaOf(d.original, i);
        DeltaProofIsTriggered(present, d.original, i, ch.fact, f, pr);
      }
      if Triggered(present, rules, ch.fact, f, pr) {
        var i: nat :| TriggeredAt(present, pr, i, ch.fact);
        DeltaProofIsTriggered(present, pr.rule, i, ch.fact, f, pr);
        assert DeltaOf(pr.rule, i) in deltas;
      }
    }
    OwnProofsAreValid(setting, more, ch.insert);
  }
}
