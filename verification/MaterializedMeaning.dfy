/** What a drained materialized theory says about the rules as the user wrote them, self-joins included. */
module MaterializedMeaning {
  import opened Syntax
  import opened Semantics
  import opened Names
  import opened Database
  import opened Views
  import opened StoredProgram
  import opened SelfJoin
  import opened SelfJoinMeaning
  import opened Propagation
  import opened SortedBodies
  import opened EliminatedRules
  import opened Materialized

  // ---------------------------------------------------------------------------
  // Programs with the same rules

  /** Each rule of the one program is in the other, its body perhaps in another order. */
  ghost predicate RulesWithin(p: Program, p': Program) {
    forall theory, table, r | r in Rules(p, theory, table) ::
      exists r' :: r' in Rules(p', theory, table) && SameRule(r, r')
  }

  ghost predicate SameRules(p: Program, p': Program) {
    p.builtins == p'.builtins && RulesWithin(p, p') && RulesWithin(p', p)
  }

  lemma SameMembersSameRules(p: Program, p': Program)
    requires p.builtins == p'.builtins
    requires forall theory, table, r :: r in Rules(p, theory, table) <==> r in Rules(p', theory, table)
    ensures SameRules(p, p')
  {
    forall theory, table, r | r in Rules(p, theory, table)
      ensures r in Rules(p', theory, table) && SameRule(r, r)
    {}
  }

  /** Neither the order of the rules, nor that of their bodies, nor the choice of ranks matters. */
  lemma SameRulesSameModel(p: Program, p': Program, pred: Pred, values: seq<Constant>)
    requires Nonrecursive(p) && Nonrecursive(p') && SameRules(p, p')
    ensures Holds(p, pred, values) <==> Holds(p', pred, values)
  {
    hide Nonrecursive, LitTrueIn, DerivesIn, RulesWithin, Holds;
    HoldsIsAModel(p);
    var m: Interpretation := (pred, values) => Holds(p, pred, values);
    forall pred, values
      ensures m(pred, values) <==> exists rule: Rule, nu: Valuation :: DerivesIn(p', m, pred, rule, nu, values)
    {
      if rule: Rule, nu: Valuation :| DerivesIn(p, m, pred, rule, nu, values) {
        var _ := DerivedInOther(p, p', m, pred, rule, nu, values);
      }
      if rule: Rule, nu: Valuation :| DerivesIn(p', m, pred, rule, nu, values) {
        var _ := DerivedInOther(p', p, m, pred, rule, nu, values);
      }
    }
    ModelIsUnique(p', m, pred, values);
  }

  lemma DerivedInOther(p: Program, p': Program, m: Interpretation, pred: Pred, rule: Rule, nu: Valuation,
                       values: seq<Constant>) returns (rule': Rule)
    requires RulesWithin(p, p') && p.builtins == p'.builtins && DerivesIn(p, m, pred, rule, nu, values)
    ensures DerivesIn(p', m, pred, rule', nu, values)
  {
    hide LitTrueIn, Rules;
    rule' :| rule' in Rules(p', pred.theory, pred.table) && SameRule(rule, rule');
    forall i | 0 <= i < |rule'.body|
      ensures LitTrueIn(p', m, pred.theory, rule'.body[i], nu)
    {
      assert rule'.body[i] in multiset(rule.body);
      var j :| 0 <= j < |rule.body| && rule.body[j] == rule'.body[i];
      SameReading(p, p', m, pred.theory, rule.body[j], nu);
    }
  }

  lemma SameReading(p: Program, p': Program, m: Interpretation, theory: string, lit: Literal, nu: Valuation)
    requires p.builtins == p'.builtins
    ensures LitTrueIn(p, m, theory, lit, nu) <==> LitTrueIn(p', m, theory, lit, nu)
  {}

  lemma SameRulesSameRanks(p: Program, p': Program)
    requires Nonrecursive(p) && SameRules(p, p') && p.rank == p'.rank
    ensures Nonrecursive(p')
  {
    hide Rules, LitRank, HeadPred, SameRule;
    forall theory, table, rule, i | rule in Rules(p', theory, table) && 0 <= i < |rule.body|
      ensures LitRank(p', theory, rule.body[i]) <= p'.rank(HeadPred(theory, rule.head.table))
    {
      var rule0 :| rule0 in Rules(p, theory, table) && SameRule(rule, rule0);
      RankInOther(p, p', theory, rule0, rule, i);
    }
  }

  lemma RankInOther(p: Program, p': Program, theory: string, rule0: Rule, rule: Rule, i: nat)
    requires p.builtins == p'.builtins && p.rank == p'.rank && SameRule(rule, rule0) && i < |rule.body|
    requires forall j | 0 <= j < |rule0.body| ::
               LitRank(p, theory, rule0.body[j]) <= p.rank(HeadPred(theory, rule0.head.table))
    ensures LitRank(p', theory, rule.body[i]) <= p'.rank(HeadPred(theory, rule.head.table))
  {
    hide HeadPred;
    assert rule.body[i] in multiset(rule0.body);
    var j :| 0 <= j < |rule0.body| && rule0.body[j] == rule.body[i];
    assert LitRank(p', theory, rule.body[i]) == LitRank(p, theory, rule0.body[j]);
  }

  // ---------------------------------------------------------------------------
  // Base rows as facts in front of the rules

  ghost predicate IsBaseFact(data: Rows, tables: set<string>, r: Rule) {
    exists t :: t in data && t in tables && r in FactRules(t, data[t])
  }

  lemma ListBaseFacts(data: Rows, tables: set<string>) returns (facts: seq<Rule>)
    ensures forall r :: r in facts <==> IsBaseFact(data, tables, r)
    decreases |tables|
  {
    facts := [];
    if tables != {} {
      var t :| t in tables;
      facts := ListBaseFacts(data, tables - {t});
      assert forall r | IsBaseFact(data, tables, r) ::
          IsBaseFact(data, tables - {t}, r) || (t in data && r in FactRules(t, data[t]));
      if t in data {
        facts := facts + FactRules(t, data[t]);
      }
    }
  }

  lemma BaseFactHead(data: Rows, tables: set<string>, r: Rule)
    requires IsBaseFact(data, tables, r)
    ensures r.body == [] && r.head == Plain(r.head.table.table, r.head.arguments)
    ensures r.head.table.table in data && r.head.table.table in tables
    ensures r in FactRules(r.head.table.table, data[r.head.table.table])
  {
    var t :| t in data && t in tables && r in FactRules(t, data[t]);
    FactRulesHold(t, data[t], r);
  }

  /** Facts and rules in one list give the same program as rows beside rules. */
  lemma FactsInFront(theory: string, data: Rows, tables: set<string>, facts: seq<Rule>, rules: seq<Rule>,
                     rank: Pred -> nat, rank': Pred -> nat)
    requires forall r :: r in facts <==> IsBaseFact(data, tables, r)
    ensures SameRules(ProgramOf(theory, data, tables, rules, rank), SingleTheory(theory, facts + rules, map[], rank'))
  {
    hide FactRules, Rules, IsBaseFact, SameRules;
    var p, p' := ProgramOf(theory, data, tables, rules, rank), SingleTheory(theory, facts + rules, map[], rank');
    forall theory', table, r
      ensures r in Rules(p, theory', table) <==> r in Rules(p', theory', table)
    {
      RulesOfProgram(theory, data, tables, rules, rank, theory', table, r);
      SingleTheoryRules(theory, facts + rules, map[], rank', theory', table, r);
      FactsOfTable(data, tables, table, r);
    }
    SameMembersSameRules(p, p');
  }

  lemma FactsOfTable(data: Rows, tables: set<string>, table: string, r: Rule)
    ensures IsBaseFact(data, tables, r) && r.head.table.table == table <==>
              table in data && table in tables && r in FactRules(table, data[table])
  {
    if IsBaseFact(data, tables, r) {
      BaseFactHead(data, tables, r);
    }
    if table in data && table in tables && r in FactRules(table, data[table]) {
      FactTable(table, data[table], r);
    }
  }

  lemma FactTable(table: string, rows: seq<DBTuple>, r: Rule)
    requires r in FactRules(table, rows)
    ensures r.head.table.table == table
  {}

  lemma {:induction false} FactsNeedNoTables(facts: seq<Rule>, rules: seq<Rule>, key: TableArity)
    requires forall r | r in facts :: r.body == []
    ensures Extra(facts + rules, key) == Extra(rules, key)
    decreases |facts| + |rules|
  {
    var all := facts + rules;
    if rules != [] {
      assert all[..|all| - 1] == facts + rules[..|rules| - 1];
      FactsNeedNoTables(facts, rules[..|rules| - 1], key);
    } else if facts != [] {
      assert all[..|all| - 1] == facts[..|facts| - 1] + rules;
      assert all[|all| - 1] in facts;
      FactsNeedNoTables(facts[..|facts| - 1], rules, key);
    }
  }

  /** Facts pass through elimination unchanged. */
  lemma EliminationWithFacts(results: seq<Rule>, rules: seq<Rule>, facts: seq<Rule>)
    requires IsElimination(results, rules) && forall r | r in facts :: r.body == []
    ensures IsElimination(facts + results, facts + rules)
  {
    hide CopyRule, Extra;
    var all, all' := facts + rules, facts + results;
    forall i | 0 <= i < |all|
      ensures all'[i] == WithoutSelfJoins(all[i])
    {
      if i < |facts| {
        assert all[i] in facts;
        assert WithoutSelfJoins(all[i]).body == [];
      } else {
        assert all'[i] == results[i - |facts|];
      }
    }
    assert all'[|all|..] == results[|rules|..];
    forall key: TableArity
      ensures Extra(all, key) == Extra(rules, key)
    {
      FactsNeedNoTables(facts, rules, key);
    }
  }

  // ---------------------------------------------------------------------------
  // End to end

  ghost function BaseTables(setting: Setting, data: Rows): set<string> {
    set t | t in data && !setting.IsView(t)
  }

  /** The rules of users rewritten, and definitions of the new tables, as a list. */
  lemma SomeElimination(below: Order, rules: set<Rule>, users: seq<Rule>) returns (results: seq<Rule>)
    requires Represents(below, rules, users)
    ensures IsElimination(results, users)
  {
    hide Kept, CopyRule, Extra, WithoutSelfJoins;
    var copies := ListCopies(set x | x in rules && IsCopy(users, x));
    var rewritten := seq(|users|, i requires 0 <= i < |users| => WithoutSelfJoins(users[i]));
    results := rewritten + copies;
    assert results[|users|..] == copies;
    forall x
      ensures x in copies <==> exists key, k :: 1 <= k <= Extra(users, key) && x == CopyRule(key, k)
    {
      assert x in copies <==> IsCopy(users, x);
    }
  }

  lemma ListCopies(rules: set<Rule>) returns (list: seq<Rule>)
    ensures forall x :: x in list <==> x in rules
    ensures forall i, j | 0 <= i < j < |list| :: list[i] != list[j]
    decreases |rules|
  {
    list := [];
    if rules != {} {
      var x :| x in rules;
      list := ListCopies(rules - {x});
      list := list + [x];
    }
  }

  /** The kept rules are those of an elimination, up to the order of bodies. */
  lemma KeptAreEliminated(below: Order, kept: seq<Rule>, users: seq<Rule>, results: seq<Rule>)
    requires IsTotalOrder(below) && Represents(below, RuleSet(kept), users) && IsElimination(results, users)
    ensures forall x | x in kept :: exists y :: y in results && SameRule(x, y)
    ensures forall y | y in results :: exists x :: x in kept && SameRule(x, y)
  {
    hide IsTotalOrder, CopyRule, Extra, WithoutSelfJoins, Sort, SameRule;
    forall x | x in kept
      ensures exists y :: y in results && SameRule(x, y)
    {
      assert x in RuleSet(kept);
      if u :| u in users && x == Kept(below, u) {
        var i :| 0 <= i < |users| && users[i] == u;
        assert results[i] in results;
        SameRuleSorted(below, results[i], results[i]);
        SameIsSymmetric(results[i], x);
      } else {
        var key, k :| 1 <= k <= Extra(users, key) && x == CopyRule(key, k);
        assert x in results[|users|..] && x in results;
        SameIsSymmetric(x, x);
      }
    }
    forall y | y in results
      ensures exists x :: x in kept && SameRule(x, y)
    {
      var i :| 0 <= i < |results| && results[i] == y;
      if i < |users| {
        assert users[i] in users && Kept(below, users[i]) in RuleSet(kept);
        SameRuleSorted(below, y, y);
        SameIsSymmetric(y, Kept(below, users[i]));
      } else {
        assert results[|users|..][i - |users|] == y && y in results[|users|..];
        var key, k :| 1 <= k <= Extra(users, key) && y == CopyRule(key, k);
        assert IsCopy(users, y);
        assert y in RuleSet(kept);
        SameIsSymmetric(y, y);
      }
    }
  }

  lemma SameIsSymmetric(r: Rule, r': Rule)
    ensures SameRule(r, r') <==> SameRule(r', r)
    ensures SameRule(r, r)
  {}

  /**
   A materialized theory that has drained its queue, and that keeps what the rules of its users need,
   stores a row of a user table exactly when the rules as written make it true over the base rows.
   */
  lemma DrainedMeansUserRules(setting: Setting, below: Order, theory: string, data: Rows, kept: seq<Rule>,
                              users: seq<Rule>, rank: Pred -> nat, f: Fact)
    requires IsTotalOrder(below) && Represents(below, RuleSet(kept), users) && UserRules(users)
    requires EqualsFromScratch(setting, theory, data, kept)
    requires forall t | t in BaseTables(setting, data) :: !InNamespace(t)
    requires !InNamespace(f.table)
    requires Nonrecursive(ProgramOf(theory, data, BaseTables(setting, data), users, rank))
    ensures IsStored(data, f) <==>
              Holds(ProgramOf(theory, data, BaseTables(setting, data), users, rank),
                    Pred(theory, theory, f.table, None), f.tuple)
  {
    hide IsTotalOrder, IsElimination, UserRule, IsStored, InNamespace, SameRules, Holds, Nonrecursive, SingleTheory,
         ProgramOf, IsBaseFact, Rewritten, RankAfter, Represents;
    var tables := BaseTables(setting, data);
    var facts := ListBaseFacts(data, tables);
    var pred := Pred(theory, theory, f.table, None);
    var results := SomeElimination(below, RuleSet(kept), users);
    var p0, p := ProgramOf(theory, data, tables, users, rank), SingleTheory(theory, facts + users, map[], rank);
    RankOfPrograms(theory, data, tables, facts, users, rank);
    FactsInFront(theory, data, tables, facts, users, rank, rank);
    SameRulesSameRanks(p0, p);
    SameRulesSameModel(p0, p, pred, f.tuple);
    FactsAreUserRules(data, tables, facts, users);
    EliminationWithFacts(results, users, facts);
    EliminationKeepsMeaning(p, theory, facts + users, facts + results, pred, f.tuple);
    var full, p' := FullProgram(setting, theory, data, kept), Rewritten(p, theory, facts + results);
    KeptAreEliminated(below, kept, users, results);
    FullIsRewritten(setting, theory, data, tables, facts, kept, results, p);
    SameRulesSameModel(full, p', pred, f.tuple);
  }

  /**
   So does an update: after a safe batch the stored rows of user tables are what the rules that users
   then have make true. The premises are what `Update` ensures.
   */
  lemma UpdateMeansUserRules(setting: Setting, below: Order, theory: string, data: Rows, originals: set<Rule>,
                             users: seq<Rule>, events: seq<Event>, rank: Pred -> nat, f: Fact)
    requires IsTotalOrder(below) && UserRules(UsersAfter(below, users, events))
    requires Represents(below, originals, UsersAfter(below, users, events))
    requires forall kept | RuleSet(kept) == originals :: EqualsFromScratch(setting, theory, data, kept)
    requires forall t | t in BaseTables(setting, data) :: !InNamespace(t)
    requires !InNamespace(f.table)
    requires Nonrecursive(ProgramOf(theory, data, BaseTables(setting, data), UsersAfter(below, users, events), rank))
    ensures IsStored(data, f) <==>
              Holds(ProgramOf(theory, data, BaseTables(setting, data), UsersAfter(below, users, events), rank),
                    Pred(theory, theory, f.table, None), f.tuple)
  {
    hide IsTotalOrder, Represents, UserRules, EqualsFromScratch, IsStored, Holds, Nonrecursive, UsersAfter, BaseTables;
    var kept := ListCopies(originals);
    assert RuleSet(kept) == originals;
    DrainedMeansUserRules(setting, below, theory, data, kept, UsersAfter(below, users, events), rank, f);
  }

  lemma RankOfPrograms(theory: string, data: Rows, tables: set<string>, facts: seq<Rule>, rules: seq<Rule>,
                       rank: Pred -> nat)
    ensures ProgramOf(theory, data, tables, rules, rank).rank == rank
    ensures SingleTheory(theory, facts + rules, map[], rank).rank == rank
    ensures SingleTheory(theory, facts + rules, map[], rank).builtins == map[]
  {}

  lemma FactsAreUserRules(data: Rows, tables: set<string>, facts: seq<Rule>, rules: seq<Rule>)
    requires forall r :: r in facts <==> IsBaseFact(data, tables, r)
    requires UserRules(rules) && forall t | t in tables :: !InNamespace(t)
    ensures UserRules(facts + rules) && forall r | r in facts :: r.body == []
  {
    hide InNamespace;
    forall r | r in facts
      ensures r.body == [] && UserRule(r)
    {
      BaseFactHead(data, tables, r);
    }
  }

  lemma FullIsRewritten(setting: Setting, theory: string, data: Rows, tables: set<string>, facts: seq<Rule>,
                        kept: seq<Rule>, results: seq<Rule>, p: Program)
    requires tables == BaseTables(setting, data) && p.builtins == map[]
    requires forall r :: r in facts <==> IsBaseFact(data, tables, r)
    requires forall x | x in kept :: exists y :: y in results && SameRule(x, y)
    requires forall y | y in results :: exists x :: x in kept && SameRule(x, y)
    ensures SameRules(FullProgram(setting, theory, data, kept), Rewritten(p, theory, facts + results))
  {
    hide IsBaseFact, Rules, SameRule, Rewritten, SingleTheory, ProgramOf, FactRules;
    var full, p' := FullProgram(setting, theory, data, kept), Rewritten(p, theory, facts + results);
    RewrittenIsSingle(p, theory, facts + results);
    ProgramBuiltins(theory, data, tables, kept, PredRank(setting.rank));
    forall theory', table, r
      ensures r in Rules(full, theory', table) ==> exists r' :: r' in Rules(p', theory', table) && SameRule(r, r')
      ensures r in Rules(p', theory', table) ==> exists r' :: r' in Rules(full, theory', table) && SameRule(r, r')
    {
      RuleOfBoth(theory, data, tables, facts, kept, results, PredRank(setting.rank), p'.rank, theory', table, r);
    }
  }

  lemma RewrittenIsSingle(p: Program, theory: string, results: seq<Rule>)
    requires p.builtins == map[]
    ensures var p' := Rewritten(p, theory, results);
            p' == SingleTheory(theory, results, map[], p'.rank) && p'.builtins == map[]
  {}

  lemma ProgramBuiltins(theory: string, data: Rows, tables: set<string>, rules: seq<Rule>, rank: Pred -> nat)
    ensures ProgramOf(theory, data, tables, rules, rank).builtins == map[]
  {}

  lemma RuleOfBoth(theory: string, data: Rows, tables: set<string>, facts: seq<Rule>, kept: seq<Rule>,
                   results: seq<Rule>,
                   rank: Pred -> nat, rank': Pred -> nat, theory': string, table: string, r: Rule)
    requires forall r :: r in facts <==> IsBaseFact(data, tables, r)
    requires forall x | x in kept :: exists y :: y in results && SameRule(x, y)
    requires forall y | y in results :: exists x :: x in kept && SameRule(x, y)
    ensures var full, p' := ProgramOf(theory, data, tables, kept, rank),
              SingleTheory(theory, facts + results, map[], rank');
            && (r in Rules(full, theory', table) ==> exists r' :: r' in Rules(p', theory', table) && SameRule(r, r'))
            && (r in Rules(p', theory', table) ==> exists r' :: r' in Rules(full, theory', table) && SameRule(r, r'))
  {
    hide IsBaseFact, Rules, SameRule, SingleTheory, ProgramOf, FactRules;
    var full, p' := ProgramOf(theory, data, tables, kept, rank), SingleTheory(theory, facts + results, map[], rank');
    SameIsSymmetric(r, r);
    RulesOfProgram(theory, data, tables, kept, rank, theory', table, r);
    SingleTheoryRules(theory, facts + results, map[], rank', theory', table, r);
    FactsOfTable(data, tables, table, r);
    if r in Rules(full, theory', table) {
      if r in kept && r.head.table.table == table {
        var y :| y in results && SameRule(r, y);
        SameHead(r, y);
        SingleTheoryRules(theory, facts + results, map[], rank', theory', table, y);
      }
    }
    if r in Rules(p', theory', table) && r !in facts {
      var x :| x in kept && SameRule(x, r);
      SameHead(x, r);
      SameIsSymmetric(x, r);
      RulesOfProgram(theory, data, tables, kept, rank, theory', table, x);
    }
  }

  lemma SameHead(r: Rule, r': Rule)
    requires SameRule(r, r')
    ensures r.head == r'.head
  {}
}
