/** Stored rows, together with rules, read as a program of one theory. */
module StoredProgram {
  import opened Syntax
  import opened Semantics
  import opened Safety
  import opened Database
  import opened Views

  function ConstantTerms(values: seq<Constant>): seq<Term> {
    seq(|values|, i requires 0 <= i < |values| => ObjectConstant(values[i]))
  }

  function FactRule(f: Fact): Rule {
    Rule(Literal(Tablename(None, f.table, None), ConstantTerms(f.tuple), false), [])
  }

  function FactRules(table: string, rows: seq<DBTuple>): seq<Rule> {
    seq(|rows|, i requires 0 <= i < |rows| => FactRule(Fact(table, rows[i].tuple)))
  }

  function RulesFor(table: string, rules: seq<Rule>): (r: seq<Rule>)
    ensures forall rule :: rule in r <==> rule in rules && rule.head.table.table == table
  {
    if rules == [] then []
    else
      assert rules == [rules[0]] + rules[1..];
      (if rules[0].head.table.table == table then [rules[0]] else []) + RulesFor(table, rules[1..])
  }

  function RuleSet(rules: seq<Rule>): set<Rule> {
    set r | r in rules
  }

  function HeadTables(rules: seq<Rule>): set<string> {
    set r | r in rules :: r.head.table.table
  }

  /** The rows of the tables in `stored`, and the rules. */
  function ProgramOf(theory: string, data: map<string, seq<DBTuple>>, stored: set<string>, rules: seq<Rule>,
                     rank: Pred -> nat): Program
  {
    Program(
      map[theory := map t | t in data.Keys + HeadTables(rules) ::
                      (if t in data && t in stored then FactRules(t, data[t]) else []) + RulesFor(t, rules)],
      map[],
      rank)
  }

  lemma RulesOfProgram(theory: string, data: map<string, seq<DBTuple>>, stored: set<string>, rules: seq<Rule>,
                       rank: Pred -> nat, theory': string, table: string, r: Rule)
    ensures r in Rules(ProgramOf(theory, data, stored, rules, rank), theory', table) <==>
              && theory' == theory
              && (|| (r in rules && r.head.table.table == table)
                  || (table in data && table in stored && r in FactRules(table, data[table])))
  {}

  lemma FactRulesHold(table: string, rows: seq<DBTuple>, r: Rule)
    ensures r in FactRules(table, rows) ==>
              exists i :: 0 <= i < |rows| && r == FactRule(Fact(table, rows[i].tuple))
  {}

  lemma ConstantTermValues(values: seq<Constant>, nu: Valuation)
    ensures Values(ConstantTerms(values), nu) == values && TermVars(ConstantTerms(values)) == {}
  {}

  // ---------------------------------------------------------------------------
  // Rows alone

  /** The program that consists of the stored rows only. */
  function RowProgram(theory: string, data: map<string, seq<DBTuple>>): Program {
    ProgramOf(theory, data, data.Keys, [], _ => 0)
  }

  lemma RowProgramIsFine(theory: string, data: map<string, seq<DBTuple>>)
    ensures Nonrecursive(RowProgram(theory, data)) && SafeProgram(RowProgram(theory, data))
  {
    var p := RowProgram(theory, data);
    forall theory', table, r | r in Rules(p, theory', table)
      ensures r.body == [] && SafeRule(p, r)
    {
      RulesOfProgram(theory, data, data.Keys, [], _ => 0, theory', table, r);
      FactRulesHold(table, data[table], r);
      var i :| 0 <= i < |data[table]| && r == FactRule(Fact(table, data[table][i].tuple));
      ConstantTermValues(data[table][i].tuple, _ => IntegerConstant(0));
    }
  }

  ghost predicate IsStored(data: map<string, seq<DBTuple>>, f: Fact) {
    f.table in data && HasRow(data[f.table], f.tuple)
  }

  lemma StoredRowHolds(theory: string, data: map<string, seq<DBTuple>>, f: Fact)
    ensures Nonrecursive(RowProgram(theory, data))
    ensures Holds(RowProgram(theory, data), Pred(theory, theory, f.table, None), f.tuple) <==> IsStored(data, f)
  {
    RowProgramIsFine(theory, data);
    var p := RowProgram(theory, data);
    var pred := Pred(theory, theory, f.table, None);
    HoldsByRule(p, pred, f.tuple);
    if rule: Rule, nu: Valuation :| Derives(p, pred, rule, nu, f.tuple) {
      RulesOfProgram(theory, data, data.Keys, [], _ => 0, theory, f.table, rule);
      FactRulesHold(f.table, data[f.table], rule);
      var i :| 0 <= i < |data[f.table]| && rule == FactRule(Fact(f.table, data[f.table][i].tuple));
      ConstantTermValues(data[f.table][i].tuple, nu);
      assert data[f.table][i].tuple == f.tuple;
    }
    if IsStored(data, f) {
      var i :| 0 <= i < |data[f.table]| && data[f.table][i].tuple == f.tuple;
      var rule := FactRule(f);
      assert FactRules(f.table, data[f.table])[i] == rule;
      RulesOfProgram(theory, data, data.Keys, [], _ => 0, theory, f.table, rule);
      ConstantTermValues(f.tuple, _ => IntegerConstant(0));
      assert Derives(p, pred, rule, _ => IntegerConstant(0), f.tuple);
    }
  }

  /** A plain literal is true over the rows exactly when the row it denotes is stored. */
  lemma PlainAtomIsStored(theory: string, data: map<string, seq<DBTuple>>, lit: Literal, nu: Valuation)
    requires PlainAtom(lit)
    ensures Nonrecursive(RowProgram(theory, data))
    ensures LitTrue(RowProgram(theory, data), theory, lit, nu) <==>
              IsStored(data, Fact(lit.table.table, Values(lit.arguments, nu)))
  {
    StoredRowHolds(theory, data, Fact(lit.table.table, Values(lit.arguments, nu)));
    var p := RowProgram(theory, data);
    assert !IsSpecial(p, lit);
    assert AtomTrue(p, theory, lit, nu) ==
           Holds(p, Pred(theory, theory, lit.table.table, None), Values(lit.arguments, nu));
  }

  // ---------------------------------------------------------------------------
  // Base rows and rules: what evaluation from scratch starts from

  ghost function StoredContents(data: map<string, seq<DBTuple>>): Contents {
    imap f: Fact | IsStored(data, f) :: RowProofs(data[f.table], f.tuple)
  }

  function TableRank(rank: string -> nat, pred: Pred): nat {
    rank(pred.table) + 1
  }

  function PredRank(rank: string -> nat): Pred -> nat {
    (pred: Pred) => TableRank(rank, pred)
  }

  /** The base rows and the rules of a materialized theory, as a program. */
  ghost function FullProgram(setting: Setting, theory: string, data: map<string, seq<DBTuple>>,
                             rules: seq<Rule>): Program
  {
    ProgramOf(theory, data, (set t | t in data && !setting.IsView(t)), rules, PredRank(setting.rank))
  }

  lemma FullProgramIsNonrecursive(setting: Setting, theory: string, data: map<string, seq<DBTuple>>, rules: seq<Rule>)
    requires setting.Valid() && forall r | r in rules :: r in setting.rules
    ensures Nonrecursive(FullProgram(setting, theory, data, rules))
  {
    var p := FullProgram(setting, theory, data, rules);
    forall theory', table, r, i | r in Rules(p, theory', table) && 0 <= i < |r.body|
      ensures LitRank(p, theory', r.body[i]) <= p.rank(HeadPred(theory', r.head.table))
    {
      RulesOfProgram(theory, data, (set t | t in data && !setting.IsView(t)), rules, PredRank(setting.rank),
                     theory', table, r);
      assert r in rules;
      assert PlainRule(r) && r.body[i] in r.body;
    }
  }

  /** An atom is true in the contents if its row is there. */
  ghost function ContentsModel(theory: string, c: Contents): Interpretation {
    (pred: Pred, values) =>
      pred.service == theory && pred.theory == theory && pred.modal == None && Fact(pred.table, values) in c
  }

  lemma PlainAtomInContents(p: Program, theory: string, c: Contents, lit: Literal, nu: Valuation)
    requires PlainAtom(lit) && p.builtins == map[]
    ensures LitTrueIn(p, ContentsModel(theory, c), theory, lit, nu) <==>
              Fact(lit.table.table, Values(lit.arguments, nu)) in c
  {}

  function Restricted(r: Rule, nu: Valuation): Binding {
    map x | x in RuleVars(r) :: nu(x)
  }

  lemma RestrictedValues(r: Rule, nu: Valuation, lit: Literal)
    requires lit.VariableNames() <= RuleVars(r)
    ensures FactOf(lit, Restricted(r, nu)) == Fact(lit.table.table, Values(lit.arguments, nu))
  {
    forall i | 0 <= i < |lit.arguments|
      ensures TermValue(lit.arguments[i], AsValuation(Restricted(r, nu))) == TermValue(lit.arguments[i], nu)
    {
      if lit.arguments[i].Variable? {
        assert lit.arguments[i].name in lit.VariableNames();
      }
    }
  }

  lemma BodyLiteralVars(r: Rule, i: nat)
    requires i < |r.body|
    ensures r.body[i].VariableNames() <= RuleVars(r)
  {}

  /** A view's row is there exactly when one of the rules derives it from the contents. */
  lemma ViewRowDerived(setting: Setting, p: Program, theory: string, c: Contents, rules: seq<Rule>, f: Fact)
    requires setting.Valid() && setting.IsView(f.table) && p.builtins == map[]
    requires forall r | r in rules :: r in setting.rules
    requires f in c <==> exists pr :: IsJustified(c.Keys, RuleSet(rules), f, pr)
    requires forall r :: r in Rules(p, theory, f.table) <==> r in rules && r.head.table.table == f.table
    ensures f in c <==>
              exists rule: Rule, nu: Valuation ::
                DerivesIn(p, ContentsModel(theory, c), Pred(theory, theory, f.table, None), rule, nu, f.tuple)
  {
    hide Setting.Valid, LitTrueIn;
    var m, pred := ContentsModel(theory, c), Pred(theory, theory, f.table, None);
    if f in c {
      var pr :| IsJustified(c.Keys, RuleSet(rules), f, pr);
      var nu := AsValuation(pr.binding);
      PlainRules(setting, pr.rule);
      forall i | 0 <= i < |pr.rule.body|
        ensures LitTrueIn(p, m, theory, pr.rule.body[i], nu)
      {
        PlainAtomInContents(p, theory, c, pr.rule.body[i], nu);
      }
      assert DerivesIn(p, m, pred, pr.rule, nu, f.tuple);
    }
    if rule: Rule, nu: Valuation :| DerivesIn(p, m, pred, rule, nu, f.tuple) {
      PlainRules(setting, rule);
      var pr := Proof(Restricted(rule, nu), rule);
      RestrictedValues(rule, nu, rule.head);
      forall i | 0 <= i < |rule.body|
        ensures FactOf(rule.body[i], pr.binding) in c.Keys
      {
        BodyLiteralVars(rule, i);
        RestrictedValues(rule, nu, rule.body[i]);
        PlainAtomInContents(p, theory, c, rule.body[i], nu);
      }
      assert IsJustified(c.Keys, RuleSet(rules), f, pr);
    }
  }

  lemma PlainRules(setting: Setting, r: Rule)
    requires setting.Valid() && r in setting.rules
    ensures PlainAtom(r.head) && forall i | 0 <= i < |r.body| :: PlainAtom(r.body[i])
  {
    assert PlainRule(r);
  }

  /** A base row is there exactly when it is one of the program's facts. */
  lemma BaseRowDerived(p: Program, theory: string, data: map<string, seq<DBTuple>>, m: Interpretation, f: Fact)
    requires forall r :: r in Rules(p, theory, f.table) <==> f.table in data && r in FactRules(f.table, data[f.table])
    ensures IsStored(data, f) <==>
              exists rule: Rule, nu: Valuation ::
                DerivesIn(p, m, Pred(theory, theory, f.table, None), rule, nu, f.tuple)
  {
    var pred := Pred(theory, theory, f.table, None);
    if IsStored(data, f) {
      var i :| 0 <= i < |data[f.table]| && data[f.table][i].tuple == f.tuple;
      var rule := FactRule(f);
      assert FactRules(f.table, data[f.table])[i] == rule;
      ConstantTermValues(f.tuple, _ => IntegerConstant(0));
      assert DerivesIn(p, m, pred, rule, _ => IntegerConstant(0), f.tuple);
    }
    if rule: Rule, nu: Valuation :| DerivesIn(p, m, pred, rule, nu, f.tuple) {
      FactRulesHold(f.table, data[f.table], rule);
      var i :| 0 <= i < |data[f.table]| && rule == FactRule(Fact(f.table, data[f.table][i].tuple));
      ConstantTermValues(data[f.table][i].tuple, nu);
    }
  }

  /**
   Once the queue has drained, the database holds exactly what evaluating the rules from
   scratch over the base rows makes true.
   */
  lemma DrainedEqualsFromScratch(setting: Setting, theory: string, data: map<string, seq<DBTuple>>, rules: seq<Rule>,
                                 f: Fact)
    requires Invariant(setting, StoredContents(data), RuleSet(rules), [])
    ensures Nonrecursive(FullProgram(setting, theory, data, rules))
    ensures IsStored(data, f) <==>
              Holds(FullProgram(setting, theory, data, rules), Pred(theory, theory, f.table, None), f.tuple)
  {
    var p, c := FullProgram(setting, theory, data, rules), StoredContents(data);
    assert forall r | r in rules :: r in setting.rules by {
      assert forall r | r in rules :: r in RuleSet(rules);
    }
    FullProgramIsNonrecursive(setting, theory, data, rules);
    ContentsIsModel(setting, theory, data, rules);
    ModelIsUnique(p, ContentsModel(theory, c), Pred(theory, theory, f.table, None), f.tuple);
  }

  lemma ContentsIsModel(setting: Setting, theory: string, data: map<string, seq<DBTuple>>, rules: seq<Rule>)
    requires Invariant(setting, StoredContents(data), RuleSet(rules), [])
    requires forall r | r in rules :: r in setting.rules
    ensures IsModel(FullProgram(setting, theory, data, rules), ContentsModel(theory, StoredContents(data)))
  {
    hide Setting.Valid, LitTrueIn, IsStored;
    var p, c := FullProgram(setting, theory, data, rules), StoredContents(data);
    var m := ContentsModel(theory, c);
    var stored := set t | t in data && !setting.IsView(t);
    forall theory', table, r
      ensures r in Rules(p, theory', table) <==>
                && theory' == theory
                && (|| (r in rules && r.head.table.table == table)
                    || (table in data && table in stored && r in FactRules(table, data[table])))
    {
      RulesOfProgram(theory, data, stored, rules, PredRank(setting.rank), theory', table, r);
    }
    forall pred: Pred, values
      ensures m(pred, values) <==> exists rule: Rule, nu: Valuation :: DerivesIn(p, m, pred, rule, nu, values)
    {
      var f := Fact(pred.table, values);
      if pred == Pred(theory, theory, pred.table, None) {
        if setting.IsView(pred.table) {
          DrainedIsJustified(setting, c, RuleSet(rules), f);
          ViewRowDerived(setting, p, theory, c, rules, f);
        } else {
          NoRulesForBase(setting, rules, pred.table);
          BaseRowDerived(p, theory, data, m, f);
        }
      } else {
        forall rule: Rule, nu: Valuation
          ensures !DerivesIn(p, m, pred, rule, nu, values)
        {
          if DerivesIn(p, m, pred, rule, nu, values) {
            PlainHeads(setting, theory, data, stored, rules, pred.table, rule);
          }
        }
      }
    }
  }

  lemma NoRulesForBase(setting: Setting, rules: seq<Rule>, table: string)
    requires !setting.IsView(table) && forall r | r in rules :: r in setting.rules
    ensures forall r | r in rules :: r.head.table.table != table
  {}

  lemma PlainHeads(setting: Setting, theory: string, data: map<string, seq<DBTuple>>, stored: set<string>,
                   rules: seq<Rule>, table: string, r: Rule)
    requires setting.Valid() && forall r | r in rules :: r in setting.rules
    requires r in rules || (table in data && r in FactRules(table, data[table]))
    ensures HeadPred(theory, r.head.table) == Pred(theory, theory, r.head.table.table, None)
  {
    if r in rules {
      assert PlainRule(r);
    } else {
      FactRulesHold(table, data[table], r);
    }
  }
}
