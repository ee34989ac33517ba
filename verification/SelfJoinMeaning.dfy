/** Eliminating self-joins leaves the meaning of all user tables unchanged. */
module SelfJoinMeaning {
  import opened Syntax
  import opened Semantics
  import opened Names
  import opened StoredProgram
  import opened SelfJoin

  type Builtins = map<string, Builtin>

  /** One theory that consists of the given rules. */
  function SingleTheory(theory: string, rules: seq<Rule>, builtins: Builtins, rank: Pred -> nat): Program {
    Program(map[theory := map t | t in HeadTables(rules) :: RulesFor(t, rules)], builtins, rank)
  }

  lemma SingleTheoryRules(theory: string, rules: seq<Rule>, builtins: Builtins, rank: Pred -> nat,
                          theory': string, table: string, r: Rule)
    ensures r in Rules(SingleTheory(theory, rules, builtins, rank), theory', table) <==>
              theory' == theory && r in rules && r.head.table.table == table
  {}

  predicate NoBuiltinInNamespace(builtins: Builtins) {
    forall name | name in builtins :: !InNamespace(name)
  }

  function TableLiteral(key: TableArity): Literal {
    Plain(key.table, Arguments(key.arity))
  }

  ghost function RankAfter(p: Program, theory: string, pred: Pred): nat {
    if key: TableArity, k :| pred.table == NewName(key, k) then 2 * LitRank(p, theory, TableLiteral(key)) + 1
    else 2 * p.rank(pred) + 2
  }

  /** A new table ranks just above the table it copies. */
  lemma RankOfNewTable(p: Program, theory: string, key: TableArity, k: nat)
    ensures RankAfter(p, theory, Pred(theory, theory, NewName(key, k), None)) ==
              2 * LitRank(p, theory, TableLiteral(key)) + 1
  {
    hide NewTableName;
    forall key': TableArity, k' | NewName(key, k) == NewName(key', k')
      ensures key' == key
    {
      NewTableNameIsInjective(key.table, key.arity, k, key'.table, key'.arity, k');
    }
  }

  lemma RankOfUserTable(p: Program, theory: string, pred: Pred)
    requires !InNamespace(pred.table)
    ensures RankAfter(p, theory, pred) == 2 * p.rank(pred) + 2
  {
    hide NewTableName;
    forall key: TableArity, k
      ensures pred.table != NewName(key, k)
    {
      NewTableNameIsInNamespace(key.table, key.arity, k);
    }
  }

  /** The program after self-join elimination. */
  ghost function Rewritten(p: Program, theory: string, results: seq<Rule>): Program {
    SingleTheory(theory, results, p.builtins, (pred: Pred) => RankAfter(p, theory, pred))
  }

  /** A table's truth at given values, whatever literal it is asked through. */
  ghost predicate TableTrue(p: Program, theory: string, key: TableArity, values: seq<Constant>)
    requires Nonrecursive(p)
  {
    AtomTrue(p, theory, Plain(key.table, ConstantTerms(values)), _ => IntegerConstant(0))
  }

  lemma LiteralTrueByTable(p: Program, theory: string, lit: Literal, nu: Valuation)
    requires Nonrecursive(p) && Unqualified(lit.table)
    ensures LitTrue(p, theory, lit, nu) <==>
              (TableTrue(p, theory, KeyOf(lit), Values(lit.arguments, nu)) != lit.negated)
  {
    var values := Values(lit.arguments, nu);
    ConstantTermValues(values, _ => IntegerConstant(0));
    assert |ConstantTerms(values)| == |lit.arguments|;
  }

  ghost predicate IsCopied(rules: seq<Rule>, pred: Pred, theory: string, key: TableArity, k: nat) {
    1 <= k <= Extra(rules, key) && pred == Pred(theory, theory, NewName(key, k), None)
  }

  ghost predicate TrueAfter(p: Program, theory: string, rules: seq<Rule>, pred: Pred, values: seq<Constant>)
    requires Nonrecursive(p)
  {
    if InNamespace(pred.table) then
      exists key, k ::
        IsCopied(rules, pred, theory, key, k) && |values| == key.arity && TableTrue(p, theory, key, values)
    else
      Holds(p, pred, values)
  }

  /** User tables as before; new tables like those they copy. */
  ghost function ModelAfter(p: Program, theory: string, rules: seq<Rule>): Interpretation
    requires Nonrecursive(p)
  {
    (pred: Pred, values) => TrueAfter(p, theory, rules, pred, values)
  }

  lemma UserLiteralUnchanged(p: Program, p': Program, theory: string, rules: seq<Rule>, lit: Literal, nu: Valuation)
    requires Nonrecursive(p) && p'.builtins == p.builtins
    requires Unqualified(lit.table) && !InNamespace(lit.table.table)
    ensures LitTrueIn(p', ModelAfter(p, theory, rules), theory, lit, nu) <==> LitTrue(p, theory, lit, nu)
  {}

  lemma CopyTrueAfter(p: Program, theory: string, rules: seq<Rule>, key: TableArity, k: nat, values: seq<Constant>)
    requires Nonrecursive(p) && 1 <= k <= Extra(rules, key) && |values| == key.arity
    ensures TrueAfter(p, theory, rules, Pred(theory, theory, NewName(key, k), None), values) <==>
              TableTrue(p, theory, key, values)
  {
    hide NewTableName, TableTrue;
    var pred := Pred(theory, theory, NewName(key, k), None);
    NewTableNameIsInNamespace(key.table, key.arity, k);
    assert IsCopied(rules, pred, theory, key, k);
    forall key', k' | IsCopied(rules, pred, theory, key', k')
      ensures key' == key
    {
      NewTableNameIsInjective(key.table, key.arity, k, key'.table, key'.arity, k');
    }
  }

  lemma RenamedLiteralUnchanged(p: Program, p': Program, theory: string, rules: seq<Rule>, r: Rule, i: nat,
                                nu: Valuation)
    requires Nonrecursive(p) && p'.builtins == p.builtins && NoBuiltinInNamespace(p.builtins)
    requires r in rules && UserRule(r) && i < |r.body|
    ensures LitTrueIn(p', ModelAfter(p, theory, rules), theory, Renamed(r.body, i), nu) <==>
              LitTrue(p, theory, r.body[i], nu)
  {
    hide NewTableName, TableTrue, TrueAfter, LitTrue, InNamespace;
    var lit := r.body[i];
    assert lit in r.body;
    var key, values := KeyOf(lit), Values(lit.arguments, nu);
    var k := Count(r.body[..i], key);
    if k == 0 {
      UserLiteralUnchanged(p, p', theory, rules, lit, nu);
    } else {
      RenamedIsDefined(rules, r, i);
      NewTableNameIsInNamespace(key.table, key.arity, k);
      NamespaceIsNotSpecial(p', Renamed(r.body, i));
      CopyTrueAfter(p, theory, rules, key, k, values);
      LiteralTrueByTable(p, theory, lit, nu);
    }
  }

  lemma NamespaceIsNotSpecial(p: Program, lit: Literal)
    requires InNamespace(lit.table.table) && NoBuiltinInNamespace(p.builtins)
    ensures !IsSpecial(p, lit)
  {
    assert lit.table.table[0] == "___"[0] == '_';
    assert "true"[0] == 't' && "false"[0] == 'f';
  }

  lemma RewrittenRules(results: seq<Rule>, rules: seq<Rule>, r': Rule)
    requires IsElimination(results, rules)
    ensures r' in results <==>
              || (exists r :: r in rules && r' == WithoutSelfJoins(r))
              || (exists key, k :: 1 <= k <= Extra(rules, key) && r' == CopyRule(key, k))
  {
    hide WithoutSelfJoins, CopyRule;
    var copies := results[|rules|..];
    assert results == results[..|rules|] + copies;
    if r :| r in rules && r' == WithoutSelfJoins(r) {
      var i :| 0 <= i < |rules| && rules[i] == r;
      assert results[i] == r';
    }
    if r' in results[..|rules|] {
      var i :| 0 <= i < |rules| && results[i] == r';
      assert rules[i] in rules;
    }
  }

  // ---------------------------------------------------------------------------
  // The rewritten program is nonrecursive

  lemma RankOfLiteralAfter(p: Program, theory: string, results: seq<Rule>, r: Rule, i: nat)
    requires UserRule(r) && i < |r.body| && NoBuiltinInNamespace(p.builtins)
    ensures LitRank(Rewritten(p, theory, results), theory, Renamed(r.body, i)) <= 2 * LitRank(p, theory, r.body[i]) + 2
  {
    hide NewTableName, InNamespace, RankAfter;
    var lit := r.body[i];
    assert lit in r.body;
    var key := KeyOf(lit);
    var k := Count(r.body[..i], key);
    if k == 0 {
      RankOfUserTable(p, theory, Resolve(theory, lit.table));
    } else {
      NewTableNameIsInNamespace(key.table, key.arity, k);
      RankOfNewTable(p, theory, key, k);
    }
  }

  lemma RewrittenIsNonrecursive(p: Program, theory: string, rules: seq<Rule>, results: seq<Rule>)
    requires p == SingleTheory(theory, rules, p.builtins, p.rank) && Nonrecursive(p)
    requires UserRules(rules) && NoBuiltinInNamespace(p.builtins) && IsElimination(results, rules)
    ensures Nonrecursive(Rewritten(p, theory, results))
  {
    hide Rules, IsElimination, RankAfter, UserRule, UserRules, NewTableName, LitRank, Renamed;
    var p' := Rewritten(p, theory, results);
    forall theory', table, r', i | r' in Rules(p', theory', table) && 0 <= i < |r'.body|
      ensures LitRank(p', theory', r'.body[i]) <= p'.rank(HeadPred(theory', r'.head.table))
    {
      SingleTheoryRules(theory, results, p.builtins, (pred: Pred) => RankAfter(p, theory, pred), theory', table, r');
      RewrittenRules(results, rules, r');
      if r :| r in rules && r' == WithoutSelfJoins(r) {
        RankOfRewritten(p, theory, rules, results, r, i);
      } else {
        var key, k :| 1 <= k <= Extra(rules, key) && r' == CopyRule(key, k);
        ExtraIsUsed(rules, key);
        RankOfCopy(p, theory, results, key, k);
      }
    }
  }

  lemma CountIsUsed(body: seq<Literal>, key: TableArity)
    requires Count(body, key) > 0
    ensures exists lit :: lit in body && KeyOf(lit) == key
  {
    if KeyOf(body[|body| - 1]) != key {
      CountIsUsed(body[..|body| - 1], key);
    }
  }

  lemma ExtraIsUsed(rules: seq<Rule>, key: TableArity)
    requires Extra(rules, key) > 0 && UserRules(rules)
    ensures !InNamespace(key.table)
  {
    var r := rules[|rules| - 1];
    if Surplus(r.body, key) > 0 {
      CountIsUsed(r.body, key);
      assert UserRule(r);
    } else {
      ExtraIsUsed(rules[..|rules| - 1], key);
    }
  }

  lemma RankOfRewritten(p: Program, theory: string, rules: seq<Rule>, results: seq<Rule>, r: Rule, i: nat)
    requires p == SingleTheory(theory, rules, p.builtins, p.rank) && Nonrecursive(p)
    requires UserRules(rules) && NoBuiltinInNamespace(p.builtins) && r in rules && i < |r.body|
    ensures LitRank(Rewritten(p, theory, results), theory, Renamed(r.body, i)) <=
              RankAfter(p, theory, HeadPred(theory, r.head.table))
  {
    hide SingleTheory, RankAfter, Renamed;
    RankOfLiteralAfter(p, theory, results, r, i);
    RankOfUserTable(p, theory, HeadPred(theory, r.head.table));
    SingleTheoryRules(theory, rules, p.builtins, p.rank, theory, r.head.table.table, r);
  }

  lemma RankOfCopy(p: Program, theory: string, results: seq<Rule>, key: TableArity, k: nat)
    requires !InNamespace(key.table)
    ensures var r := CopyRule(key, k);
            LitRank(Rewritten(p, theory, results), theory, r.body[0]) <=
              RankAfter(p, theory, HeadPred(theory, r.head.table))
  {
    hide RankAfter, NewTableName;
    RankOfNewTable(p, theory, key, k);
    RankOfUserTable(p, theory, Pred(theory, theory, key.table, None));
  }

  // ---------------------------------------------------------------------------
  // Its model

  lemma ArgumentsAreDistinct(n: nat, i: nat, j: nat)
    requires i < n && j < n && Arguments(n)[i] == Arguments(n)[j]
    ensures i == j
  {
    var x, y := "x" + Decimal(i), "x" + Decimal(j);
    assert x[1..] == Decimal(i) && y[1..] == Decimal(j);
    DecimalIsInjective(i, j);
  }

  /** Distinct variables can take any values. */
  lemma ValuationFor(values: seq<Constant>) returns (nu: Valuation)
    ensures Values(Arguments(|values|), nu) == values
  {
    var args := Arguments(|values|);
    var chosen: string -> Constant := x =>
      if i: nat :| i < |values| && args[i] == Variable(x) then values[i] else IntegerConstant(0);
    forall i | 0 <= i < |values|
      ensures TermValue(args[i], chosen) == values[i]
    {
      forall j: nat | j < |values| && args[j] == args[i]
        ensures j == i
      {
        ArgumentsAreDistinct(|values|, i, j);
      }
    }
    nu := chosen;
  }

  /** A rewritten rule derives what the original rule derived. */
  lemma RewrittenRuleDerives(p: Program, p': Program, theory: string, rules: seq<Rule>, r: Rule, pred: Pred,
                             nu: Valuation, values: seq<Constant>)
    requires Nonrecursive(p) && p'.builtins == p.builtins && NoBuiltinInNamespace(p.builtins)
    requires r in rules && UserRule(r) && pred.theory == theory
    requires r in Rules(p, theory, pred.table) && WithoutSelfJoins(r) in Rules(p', theory, pred.table)
    ensures DerivesIn(p', ModelAfter(p, theory, rules), pred, WithoutSelfJoins(r), nu, values) <==>
              Derives(p, pred, r, nu, values)
  {
    hide LitTrueIn, LitTrue, Renamed, Nonrecursive, TrueAfter;
    forall i | 0 <= i < |r.body|
      ensures LitTrueIn(p', ModelAfter(p, theory, rules), theory, WithoutSelfJoins(r).body[i], nu) <==>
                LitTrue(p, theory, r.body[i], nu)
    {
      RenamedLiteralUnchanged(p, p', theory, rules, r, i, nu);
    }
  }

  /** A copy rule derives what is true of the table it copies. */
  lemma CopyRuleDerives(p: Program, p': Program, theory: string, rules: seq<Rule>, key: TableArity, k: nat,
                        values: seq<Constant>)
    requires Nonrecursive(p) && p'.builtins == p.builtins
    requires !InNamespace(key.table) && CopyRule(key, k) in Rules(p', theory, NewName(key, k))
    ensures var pred := Pred(theory, theory, NewName(key, k), None);
            (exists nu: Valuation ::
               DerivesIn(p', ModelAfter(p, theory, rules), pred, CopyRule(key, k), nu, values)) <==>
              |values| == key.arity && TableTrue(p, theory, key, values)
  {
    hide NewTableName, TableTrue, LitTrueIn, LitTrue, Nonrecursive, Rules, InNamespace, TrueAfter;
    var pred, r, m := Pred(theory, theory, NewName(key, k), None), CopyRule(key, k), ModelAfter(p, theory, rules);
    var lit := Plain(key.table, Arguments(key.arity));
    assert |r.body| == 1 && r.body[0] == lit;
    forall nu: Valuation
      ensures DerivesIn(p', m, pred, r, nu, values) <==>
                Values(Arguments(key.arity), nu) == values && TableTrue(p, theory, key, Values(lit.arguments, nu))
    {
      UserLiteralUnchanged(p, p', theory, rules, lit, nu);
      LiteralTrueByTable(p, theory, lit, nu);
    }
    if |values| == key.arity {
      var nu := ValuationFor(values);
      assert DerivesIn(p', m, pred, r, nu, values) <==> TableTrue(p, theory, key, values);
    }
  }

  lemma UserTableUnchanged(p: Program, theory: string, rules: seq<Rule>, results: seq<Rule>, pred: Pred,
                           values: seq<Constant>)
    requires p == SingleTheory(theory, rules, p.builtins, p.rank) && Nonrecursive(p)
    requires UserRules(rules) && NoBuiltinInNamespace(p.builtins) && IsElimination(results, rules)
    requires !InNamespace(pred.table)
    ensures Holds(p, pred, values) <==>
              exists r': Rule, nu: Valuation ::
                DerivesIn(Rewritten(p, theory, results), ModelAfter(p, theory, rules), pred, r', nu, values)
  {
    hide IsElimination, Nonrecursive, UserRule, WithoutSelfJoins, CopyRule, AllTrue, LitTrueIn, InNamespace, RankAfter;
    var p', m := Rewritten(p, theory, results), ModelAfter(p, theory, rules);
    HoldsByRule(p, pred, values);
    if r: Rule, nu: Valuation :| Derives(p, pred, r, nu, values) {
      SingleTheoryRules(theory, rules, p.builtins, p.rank, pred.theory, pred.table, r);
      UserRuleInBoth(p, theory, rules, results, r, pred);
      RewrittenRuleDerives(p, p', theory, rules, r, pred, nu, values);
      assert DerivesIn(p', m, pred, WithoutSelfJoins(r), nu, values);
    }
    if r': Rule, nu: Valuation :| DerivesIn(p', m, pred, r', nu, values) {
      SingleTheoryRules(theory, results, p.builtins, (pred: Pred) => RankAfter(p, theory, pred),
                        pred.theory, pred.table, r');
      RewrittenRules(results, rules, r');
      var r := OriginalOf(rules, r');
      UserRuleInBoth(p, theory, rules, results, r, pred);
      RewrittenRuleDerives(p, p', theory, rules, r, pred, nu, values);
      assert Derives(p, pred, r, nu, values);
    }
  }

  lemma OriginalOf(rules: seq<Rule>, r': Rule) returns (r: Rule)
    requires !InNamespace(r'.head.table.table)
    requires || (exists r :: r in rules && r' == WithoutSelfJoins(r))
             || (exists key, k :: 1 <= k <= Extra(rules, key) && r' == CopyRule(key, k))
    ensures r in rules && r' == WithoutSelfJoins(r) && r'.head == r.head
  {
    hide NewTableName, InNamespace;
    forall key: TableArity, k: nat
      ensures InNamespace(CopyRule(key, k).head.table.table)
    {
      NewTableNameIsInNamespace(key.table, key.arity, k);
    }
    r :| r in rules && r' == WithoutSelfJoins(r);
  }

  lemma UserRuleInBoth(p: Program, theory: string, rules: seq<Rule>, results: seq<Rule>, r: Rule, pred: Pred)
    requires p == SingleTheory(theory, rules, p.builtins, p.rank)
    requires IsElimination(results, rules) && UserRules(rules)
    requires r in rules && pred.theory == theory && r.head.table.table == pred.table
    ensures UserRule(r) && r in Rules(p, theory, pred.table)
    ensures WithoutSelfJoins(r) in Rules(Rewritten(p, theory, results), theory, pred.table)
  {
    hide IsElimination, RankAfter, UserRule;
    RewrittenRules(results, rules, WithoutSelfJoins(r));
    SingleTheoryRules(theory, rules, p.builtins, p.rank, theory, pred.table, r);
    SingleTheoryRules(theory, results, p.builtins, (pred: Pred) => RankAfter(p, theory, pred), theory, pred.table,
                      WithoutSelfJoins(r));
  }

  lemma NewTableDefined(p: Program, theory: string, rules: seq<Rule>, results: seq<Rule>, pred: Pred,
                        values: seq<Constant>)
    requires p == SingleTheory(theory, rules, p.builtins, p.rank) && Nonrecursive(p)
    requires UserRules(rules) && IsElimination(results, rules) && InNamespace(pred.table)
    ensures TrueAfter(p, theory, rules, pred, values) <==>
              exists r': Rule, nu: Valuation ::
                DerivesIn(Rewritten(p, theory, results), ModelAfter(p, theory, rules), pred, r', nu, values)
  {
    hide IsElimination, Nonrecursive, WithoutSelfJoins, CopyRule, LitTrueIn, TableTrue, NewTableName, InNamespace,
         UserRule, RankAfter;
    var p', m := Rewritten(p, theory, results), ModelAfter(p, theory, rules);
    if key, k :| IsCopied(rules, pred, theory, key, k) && |values| == key.arity && TableTrue(p, theory, key, values) {
      CopyInRules(p, theory, rules, results, key, k);
      CopyRuleDerives(p, p', theory, rules, key, k, values);
    }
    if r': Rule, nu: Valuation :| DerivesIn(p', m, pred, r', nu, values) {
      SingleTheoryRules(theory, results, p.builtins, (pred: Pred) => RankAfter(p, theory, pred),
                        pred.theory, pred.table, r');
      RewrittenRules(results, rules, r');
      UserHeadsStay(rules);
      var key, k :| 1 <= k <= Extra(rules, key) && r' == CopyRule(key, k);
      CopyHead(theory, key, k);
      CopyInRules(p, theory, rules, results, key, k);
      CopyRuleDerives(p, p', theory, rules, key, k, values);
      assert IsCopied(rules, pred, theory, key, k);
    }
  }

  lemma CopyHead(theory: string, key: TableArity, k: nat)
    ensures HeadPred(theory, CopyRule(key, k).head.table) == Pred(theory, theory, NewName(key, k), None)
  {}

  lemma UserHeadsStay(rules: seq<Rule>)
    requires UserRules(rules)
    ensures forall r | r in rules :: !InNamespace(WithoutSelfJoins(r).head.table.table)
  {}

  lemma CopyInRules(p: Program, theory: string, rules: seq<Rule>, results: seq<Rule>, key: TableArity, k: nat)
    requires UserRules(rules) && IsElimination(results, rules) && 1 <= k <= Extra(rules, key)
    ensures !InNamespace(key.table)
    ensures CopyRule(key, k) in Rules(Rewritten(p, theory, results), theory, NewName(key, k))
  {
    hide IsElimination, RankAfter, UserRules, NewTableName, Extra;
    ExtraIsUsed(rules, key);
    RewrittenRules(results, rules, CopyRule(key, k));
    SingleTheoryRules(theory, results, p.builtins, (pred: Pred) => RankAfter(p, theory, pred), theory, NewName(key, k),
                      CopyRule(key, k));
  }

  /** Eliminating self-joins changes no user table, and every new table equals the one it copies. */
  lemma EliminationKeepsMeaning(p: Program, theory: string, rules: seq<Rule>, results: seq<Rule>, pred: Pred,
                                values: seq<Constant>)
    requires p == SingleTheory(theory, rules, p.builtins, p.rank) && Nonrecursive(p)
    requires UserRules(rules) && NoBuiltinInNamespace(p.builtins) && IsElimination(results, rules)
    ensures Nonrecursive(Rewritten(p, theory, results))
    ensures Holds(Rewritten(p, theory, results), pred, values) <==> TrueAfter(p, theory, rules, pred, values)
  {
    hide IsElimination, Nonrecursive, UserRules, NoBuiltinInNamespace, Rewritten, SingleTheory, DerivesIn, Holds;
    RewrittenIsNonrecursive(p, theory, rules, results);
    var p', m := Rewritten(p, theory, results), ModelAfter(p, theory, rules);
    forall pred, values
      ensures m(pred, values) <==> exists r': Rule, nu: Valuation :: DerivesIn(p', m, pred, r', nu, values)
    {
      if InNamespace(pred.table) {
        NewTableDefined(p, theory, rules, results, pred, values);
      } else {
        UserTableUnchanged(p, theory, rules, results, pred, values);
      }
    }
    ModelIsUnique(p', m, pred, values);
  }
}
