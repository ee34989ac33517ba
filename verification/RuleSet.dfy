/** All rules of a theory by table: facts in indexed sets, other rules in insertion order. */
module RuleSet {
  import opened Syntax
  import opened FactSet
  import Collections
  import RuleLists
  import SearchState
  import StoredProgram

  /** The rule that stands for a fact. */
  function FactAsRule(table: string, row: Row): Rule {
    Rule(Literal(Tablename(None, table, None), StoredProgram.ConstantTerms(row), false), [])
  }

  function FactsAsRules(table: string, rows: seq<Row>): seq<Rule> {
    seq(|rows|, i requires 0 <= i < |rows| => FactAsRule(table, rows[i]))
  }

  /** The columns in which a literal has constants, with the constants. */
  function BoundArguments(arguments: seq<Term>): (partial: Partial)
    ensures forall p | p in partial :: p.0 < |arguments| && arguments[p.0] == ObjectConstant(p.1)
    ensures forall i | 0 <= i < |arguments| && arguments[i].ObjectConstant? :: (i, arguments[i].value) in partial
  {
    if arguments == [] then []
    else
      var n := |arguments| - 1;
      assert arguments == arguments[..n] + [arguments[n]];
      BoundArguments(arguments[..n]) + match arguments[n]
        case Variable(_) => []
        case ObjectConstant(c) => [(n, c)]
  }

  /** The constants of a literal are in columns that the rows have; the original raises otherwise. */
  predicate ConstantsWithin(arguments: seq<Term>, width: nat) {
    forall i | 0 <= i < |arguments| && arguments[i].ObjectConstant? :: i < width
  }

  /** A row agrees with the constants exactly when its rule may match the literal. */
  lemma FitsMayMatch(table: string, row: Row, arguments: seq<Term>)
    requires ConstantsWithin(arguments, |row|)
    ensures forall p | p in BoundArguments(arguments) :: p.0 < |row|
    ensures Fits(row, BoundArguments(arguments)) <==> SearchState.MayMatch(FactAsRule(table, row), arguments)
  {
    var rule, partial := FactAsRule(table, row), BoundArguments(arguments);
    if SearchState.MayMatch(rule, arguments) {
      forall p | p in partial
        ensures row[p.0] == p.1
      {
        assert rule.head.arguments[p.0] == arguments[p.0];
      }
    }
    if Fits(row, partial) {
      forall i | 0 <= i < |arguments| && arguments[i].ObjectConstant?
        ensures i < |rule.head.arguments| && rule.head.arguments[i] == arguments[i]
      {
        assert (i, arguments[i].value) in partial;
      }
    }
  }

  /** A row that some reading of the literal denotes fits it. */
  lemma MatchingRowFits(row: Row, arguments: seq<Term>, nu: Valuation)
    requires Values(arguments, nu) == row
    ensures forall p | p in BoundArguments(arguments) :: p.0 < |row|
    ensures Fits(row, BoundArguments(arguments))
  {
    forall p | p in BoundArguments(arguments)
      ensures row[p.0] == p.1
    {
      assert Values(arguments, nu)[p.0] == p.1;
    }
  }

  /** The facts a literal can match, found through an index that is created if need be. */
  method MatchingFacts(facts: FactSet, table: string, arguments: seq<Term>) returns (rules: seq<Rule>)
    requires facts.Valid() && ConstantsWithin(arguments, facts.width)
    modifies facts`indicies
    ensures facts.Valid() && facts.Repr() == old(facts.Repr()) && facts.Contents() == old(facts.Contents())
    ensures forall rule :: rule in rules <==>
              rule in FactsAsRules(table, facts.Contents()) && SearchState.MayMatch(rule, arguments)
  {
    hide AllIndexed, AllOfWidth, Fits, SearchState.MayMatch, FactsAsRules, OrderedSet.IsRing, OrderedSet.IsIndex;
    ghost var contents := facts.Contents();
    var partial := BoundArguments(arguments);
    var columns := ColumnsOf(partial);
    ColumnsWithin(partial, facts.width);
    if |columns| > 0 && !facts.HasIndex(columns) {
      facts.CreateIndex(columns);
    }
    var matches := facts.Find(partial);
    var rows := Collections.ListOf(matches);
    rules := FactsAsRules(table, rows);
    FittingRules(table, contents, facts.width, rows, arguments);
  }

  lemma FittingRules(table: string, contents: seq<Row>, width: nat, rows: seq<Row>, arguments: seq<Term>)
    requires ConstantsWithin(arguments, width) && forall row | row in contents :: |row| == width
    requires forall row :: row in rows <==> row in contents && Fits(row, BoundArguments(arguments))
    ensures forall rule :: rule in FactsAsRules(table, rows) <==>
              rule in FactsAsRules(table, contents) && SearchState.MayMatch(rule, arguments)
  {
    hide Fits, SearchState.MayMatch, FactAsRule, FactsAsRules;
    forall rule
      ensures rule in FactsAsRules(table, rows) <==>
                rule in FactsAsRules(table, contents) && SearchState.MayMatch(rule, arguments)
    {
      forall row | row in contents
        ensures row in rows <==> SearchState.MayMatch(FactAsRule(table, row), arguments)
      {
        FitsMayMatch(table, row, arguments);
      }
      FactRuleMember(table, rows, rule);
      FactRuleMember(table, contents, rule);
    }
  }

  lemma ColumnsWithin(partial: Partial, width: nat)
    requires forall p | p in partial :: p.0 < width
    ensures WithinWidth(ColumnsOf(partial), width)
  {
    forall c | c in ColumnsOf(partial)
      ensures c < width
    {
      var i :| 0 <= i < |partial| && ColumnsOf(partial)[i] == c;
      assert partial[i] in partial;
    }
  }

  lemma FactRuleMember(table: string, rows: seq<Row>, rule: Rule)
    ensures rule in FactsAsRules(table, rows) <==> exists row :: row in rows && rule == FactAsRule(table, row)
  {
    if row :| row in rows && rule == FactAsRule(table, row) {
      var i :| 0 <= i < |rows| && rows[i] == row;
      assert FactsAsRules(table, rows)[i] == rule;
    }
  }

  /** A rule as callers hand it in: a fact is a rule with an empty body and a head that is not negated. */
  predicate IsFact(rule: Rule) {
    rule.body == [] && !rule.head.negated
  }

  /** The constants of a ground head. */
  function RowOf(arguments: seq<Term>): Row
    requires forall t | t in arguments :: t.ObjectConstant?
  {
    seq(|arguments|, i requires 0 <= i < |arguments| => assert arguments[i] in arguments; arguments[i].value)
  }

  /** Rules other than facts, each once. */
  ghost predicate IsRuleList(rules: seq<Rule>) {
    rules != [] && RuleLists.AllDifferent(rules) && forall r | r in rules :: !IsFact(r)
  }

  /** A fact that is stored as a row is the same rule again when it is read. */
  lemma FactComesBack(rule: Rule)
    requires IsFact(rule) && IsGround(rule) && rule.head.table == Tablename(None, rule.head.table.table, None)
    ensures FactAsRule(rule.head.table.table, RowOf(rule.head.arguments)) == rule
  {
    var args := rule.head.arguments;
    forall i | 0 <= i < |args|
      ensures StoredProgram.ConstantTerms(RowOf(args))[i] == args[i]
    {
      assert args[i] in args;
    }
  }

  // ---------------------------------------------------------------------------
  // What one table holds

  /** The facts of a table and its other rules. */
  datatype Stored = Stored(facts: seq<Row>, rules: seq<Rule>)
  {
    predicate Has(rule: Rule)
      requires rule.body == [] ==> IsGround(rule)
    {
      if rule.body == [] then RowOf(rule.head.arguments) in facts else RuleLists.Has(rules, rule)
    }

    function With(rule: Rule): Stored
      requires IsFact(rule) ==> IsGround(rule)
    {
      if IsFact(rule) then
        this.(facts := if RowOf(rule.head.arguments) in facts then facts else facts + [RowOf(rule.head.arguments)])
      else
        this.(rules := if RuleLists.Has(rules, rule) then rules else rules + [rule])
    }

    function Without(rule: Rule): Stored
      requires rule.body == [] ==> IsGround(rule)
    {
      if rule.body == [] then this.(facts := OrderedSet.Without(facts, RowOf(rule.head.arguments)))
      else this.(rules := RuleLists.Without(rules, rule))
    }
  }

  /**
   A rule that has been added is found unless it has no body and a negated head: that is looked for among
   the facts.
   */
  lemma AddedIsFound(s: Stored, rule: Rule)
    requires rule.body == [] ==> IsGround(rule)
    ensures s.With(rule).Has(rule) <==> s.Has(rule) || rule.body != [] || !rule.head.negated
  {
    var after := s.With(rule);
    if !IsFact(rule) && !RuleLists.Has(s.rules, rule) {
      assert after.rules[|s.rules|] == rule && SameRule(rule, rule);
    }
  }

  /** Facts are told apart by their arguments alone: once one is stored so is every other with the same arguments. */
  lemma FactsCollide(s: Stored, rule: Rule, other: Rule)
    requires IsFact(rule) && IsFact(other) && IsGround(rule) && rule.head.arguments == other.head.arguments
    ensures s.With(rule).Has(other) && (!s.Has(rule) ==> !s.With(rule).Without(other).Has(rule))
  {
    OrderedSet.WithoutMember(s.With(rule).facts, RowOf(rule.head.arguments), RowOf(rule.head.arguments));
  }

  /** A rule that was not stored and is added and discarded again is gone, with the same exception. */
  lemma AddedIsDiscarded(s: Stored, rule: Rule)
    requires rule.body == [] ==> IsGround(rule)
    requires if IsFact(rule) then !s.Has(rule) else !RuleLists.Has(s.rules, rule)
    ensures s.With(rule).Without(rule) == s <==> rule.body != [] || !rule.head.negated
  {
    if IsFact(rule) {
      var row := RowOf(rule.head.arguments);
      OrderedSet.WithoutAbsent(s.facts, row);
      WithoutLastRow(s.facts, row);
    } else if rule.body != [] {
      WithoutLastRule(s.rules, rule);
    }
  }

  lemma {:induction false} WithoutLastRow(rows: seq<Row>, row: Row)
    requires row !in rows
    ensures OrderedSet.Without(rows + [row], row) == rows
    decreases |rows|
  {
    if rows != [] {
      assert (rows + [row])[1..] == rows[1..] + [row];
      WithoutLastRow(rows[1..], row);
    }
  }

  lemma {:induction false} WithoutLastRule(rules: seq<Rule>, rule: Rule)
    requires !RuleLists.Has(rules, rule)
    ensures RuleLists.Without(rules + [rule], rule) == rules
    decreases |rules|
  {
    if rules != [] {
      assert (rules + [rule])[1..] == rules[1..] + [rule];
      assert !SameRule(rules[0], rule);
      assert forall i | 0 <= i < |rules[1..]| :: rules[1..][i] == rules[i + 1];
      WithoutLastRule(rules[1..], rule);
    }
  }

  lemma FactsAreFacts(table: string, rows: seq<Row>)
    ensures forall rule | rule in FactsAsRules(table, rows) :: IsFact(rule)
  {}

  class RuleSet {
    var rules: map<string, seq<Rule>>
    var facts: map<string, FactSet>
    ghost var repr: set<object>

    constructor ()
      ensures Valid() && fresh(repr) && forall table :: FactsOf(table) == [] && RulesOf(table) == []
    {
      rules, facts := map[], map[];
      repr := {this};
    }

    /** The fact sets share nothing with each other. */
    ghost predicate Valid()
      reads this, repr
    {
      && this in repr
      && (forall t | t in facts ::
            && facts[t] in repr && facts[t].facts in repr && facts[t].Repr() <= repr
            && this !in facts[t].Repr() && facts[t].Valid())
      && (forall t, t' | t in facts && t' in facts && t != t' :: facts[t].Repr() !! facts[t'].Repr())
      && (forall t | t in rules :: IsRuleList(rules[t]))
    }

    ghost function FactsOf(table: string): seq<Row>
      requires Valid()
      reads this, repr
    {
      if table in facts then facts[table].Contents() else []
    }

    function RulesOf(table: string): seq<Rule>
      reads this
    {
      if table in rules then rules[table] else []
    }

    ghost function StoredAt(table: string): Stored
      requires Valid()
      reads this, repr
    {
      Stored(FactsOf(table), RulesOf(table))
    }

    /** Everything stored for the table, as rules. */
    ghost function AllRules(table: string): seq<Rule>
      requires Valid()
      reads this, repr
    {
      FactsAsRules(table, FactsOf(table)) + RulesOf(table)
    }

    /** The rules of the table that may match the literal; the facts among them are found by index. */
    method GetRules(table: string, match_: Option<Literal>) returns (found: seq<Rule>)
      requires Valid()
      requires match_.Some? && !match_.value.negated && table in facts ==>
                 ConstantsWithin(match_.value.arguments, facts[table].width)
      modifies repr
      ensures Valid() && repr == old(repr)
      ensures forall t :: FactsOf(t) == old(FactsOf(t)) && RulesOf(t) == old(RulesOf(t))
      ensures forall rule :: rule in found <==>
                && rule in AllRules(table)
                && (match_.Some? && !match_.value.negated && rule in FactsAsRules(table, FactsOf(table)) ==>
                      SearchState.MayMatch(rule, match_.value.arguments))
    {
      hide FactSet.Valid, FactSet.Contents, SearchState.MayMatch, FactAsRule, RuleLists.AllDifferent, IsFact;
      var factRules: seq<Rule> := [];
      if match_.Some? && !match_.value.negated && table in facts {
        factRules := MatchingFacts(facts[table], table, match_.value.arguments);
      } else if table in facts {
        var rows := facts[table].Iterate();
        factRules := FactsAsRules(table, rows);
      }
      FactsAreFacts(table, FactsOf(table));
      found := factRules + RulesOf(table);
    }

    /** Stores a fact among the facts and any other rule among the rules. */
    method AddRule(table: string, rule: Rule) returns (changed: bool)
      requires Valid() && (IsFact(rule) ==> IsGround(rule) && CanHold(table, |rule.head.arguments|))
      modifies repr
      ensures Valid() && fresh(repr - old(repr))
      ensures forall t | t != table :: FactsOf(t) == old(FactsOf(t)) && RulesOf(t) == old(RulesOf(t))
      ensures IsFact(rule) ==>
                && RulesOf(table) == old(RulesOf(table))
                && (changed <==> RowOf(rule.head.arguments) !in old(FactsOf(table)))
                && FactsOf(table) == old(FactsOf(table)) + if changed then [RowOf(rule.head.arguments)] else []
      ensures !IsFact(rule) ==>
                && FactsOf(table) == old(FactsOf(table))
                && (changed <==> !RuleLists.Has(old(RulesOf(table)), rule))
                && RulesOf(table) == old(RulesOf(table)) + if changed then [rule] else []
      ensures StoredAt(table) == old(StoredAt(table)).With(rule)
    {
      hide FactSet.Valid, FactSet.Contents, FactSet.Repr, IsRuleList;
      if rule.body == [] && !rule.head.negated {
        changed := AddFact(table, RowOf(rule.head.arguments));
      } else {
        changed := !RuleLists.Has(RulesOf(table), rule);
        if changed {
          RuleListGrows(RulesOf(table), rule);
          rules := rules[table := RulesOf(table) + [rule]];
        }
      }
    }

    method AddFact(table: string, row: Row) returns (changed: bool)
      requires Valid() && CanHold(table, |row|)
      modifies repr
      ensures Valid() && fresh(repr - old(repr)) && rules == old(rules)
      ensures forall t | t != table :: FactsOf(t) == old(FactsOf(t))
      ensures changed <==> row !in old(FactsOf(table))
      ensures FactsOf(table) == old(FactsOf(table)) + if changed then [row] else []
    {
      hide FactSet.Valid, FactSet.Contents, FactSet.Repr, OrderedSet.OrderedSet.Repr, IsRuleList;
      if table !in facts {
        AddTable(table, row);
        changed := true;
      } else {
        changed := AddToTable(table, row);
      }
    }

    method AddTable(table: string, row: Row)
      requires Valid() && table !in facts
      modifies repr
      ensures Valid() && fresh(repr - old(repr)) && rules == old(rules)
      ensures facts.Keys == old(facts.Keys) + {table} && FactsOf(table) == [row]
      ensures forall t | t != table :: FactsOf(t) == old(FactsOf(t))
    {
      hide FactSet.Valid, FactSet.Contents, FactSet.Repr, OrderedSet.OrderedSet.Repr, IsRuleList;
      var added := NewFactSet(row);
      label Before:
      facts := facts[table := added];
      repr := repr + added.Repr();
      added.Unaffected@Before();
      forall t | t in facts && t != table
        ensures facts[t].Valid() && facts[t].Repr() == old(facts[t].Repr())
        ensures facts[t].Contents() == old(facts[t].Contents())
      {
        facts[t].Unaffected();
      }
    }

    method AddToTable(table: string, row: Row) returns (changed: bool)
      requires Valid() && table in facts && facts[table].width == |row|
      modifies facts[table].Repr(), this`repr
      ensures Valid() && fresh(repr - old(repr))
      ensures changed <==> row !in old(facts[table].Contents())
      ensures facts[table].Contents() == old(facts[table].Contents()) + if changed then [row] else []
      ensures forall t | t in facts && t != table :: facts[t].Contents() == old(facts[t].Contents())
    {
      hide FactSet.Valid, FactSet.Contents, FactSet.Repr, OrderedSet.OrderedSet.Repr, IsRuleList;
      var present := facts[table];
      changed := present.Add(row);
      forall t | t in facts && t != table
        ensures facts[t].Valid() && facts[t].Repr() == old(facts[t].Repr())
        ensures facts[t].Contents() == old(facts[t].Contents())
      {
        facts[t].Unaffected();
      }
      repr := repr + present.Repr();
    }

    /**
     Removes a rule with a body from the rules, and a rule without one from the facts;
     the latter whether or not its head is negated.
     */
    method DiscardRule(table: string, rule: Rule) returns (changed: bool)
      requires Valid() && (rule.body == [] ==> IsGround(rule) && CanHold(table, |rule.head.arguments|))
      modifies repr
      ensures Valid() && repr == old(repr)
      ensures forall t | t != table :: FactsOf(t) == old(FactsOf(t)) && RulesOf(t) == old(RulesOf(t))
      ensures rule.body == [] ==>
                && RulesOf(table) == old(RulesOf(table))
                && (changed <==> RowOf(rule.head.arguments) in old(FactsOf(table)))
                && FactsOf(table) == OrderedSet.Without(old(FactsOf(table)), RowOf(rule.head.arguments))
      ensures rule.body != [] ==>
                && FactsOf(table) == old(FactsOf(table))
                && (changed <==> RuleLists.Has(old(RulesOf(table)), rule))
                && RulesOf(table) == RuleLists.Without(old(RulesOf(table)), rule)
      ensures StoredAt(table) == old(StoredAt(table)).Without(rule)
    {
      hide FactSet.Valid, FactSet.Contents, FactSet.Repr, IsRuleList;
      if rule.body != [] {
        changed := DiscardFromRules(table, rule);
      } else {
        changed := DiscardFact(table, RowOf(rule.head.arguments));
      }
    }

    method DiscardFact(table: string, row: Row) returns (changed: bool)
      requires Valid() && CanHold(table, |row|)
      modifies repr
      ensures Valid() && repr == old(repr) && rules == old(rules)
      ensures forall t | t != table :: FactsOf(t) == old(FactsOf(t))
      ensures changed <==> row in old(FactsOf(table))
      ensures FactsOf(table) == OrderedSet.Without(old(FactsOf(table)), row)
    {
      hide FactSet.Valid, FactSet.Contents, FactSet.Repr, IsRuleList;
      changed := false;
      if table in facts {
        changed := RemoveFromTable(table, row);
        var left := facts[table].Iterate();
        if |left| == 0 {
          DropTable(table);
        }
      }
    }

    method DropTable(table: string)
      requires Valid()
      modifies this`facts
      ensures Valid() && FactsOf(table) == []
      ensures forall t | t != table :: FactsOf(t) == old(FactsOf(t))
    {
      hide FactSet.Valid, FactSet.Contents, FactSet.Repr, IsRuleList;
      facts := facts - {table};
      forall t | t in facts
        ensures facts[t].Valid() && facts[t].Repr() == old(facts[t].Repr())
        ensures facts[t].Contents() == old(facts[t].Contents())
      {
        facts[t].Unaffected();
      }
    }

    method DiscardFromRules(table: string, rule: Rule) returns (changed: bool)
      requires Valid()
      modifies this`rules
      ensures Valid()
      ensures forall t | t != table :: RulesOf(t) == old(RulesOf(t))
      ensures changed <==> RuleLists.Has(old(RulesOf(table)), rule)
      ensures RulesOf(table) == RuleLists.Without(old(RulesOf(table)), rule)
    {
      hide FactSet.Valid, FactSet.Contents, FactSet.Repr, IsRuleList;
      changed := RuleLists.Has(RulesOf(table), rule);
      if table in rules {
        RuleListShrinks(rules[table], rule);
        var rest := RuleLists.Without(rules[table], rule);
        rules := rules[table := rest];
        if |rest| == 0 {
          rules := rules - {table};
        }
      }
    }

    method RemoveFromTable(table: string, row: Row) returns (changed: bool)
      requires Valid() && table in facts && facts[table].width == |row|
      modifies facts[table].Repr()
      ensures Valid()
      ensures changed <==> row in old(FactsOf(table))
      ensures FactsOf(table) == OrderedSet.Without(old(FactsOf(table)), row)
      ensures forall t | t != table :: FactsOf(t) == old(FactsOf(t))
    {
      hide FactSet.Valid, FactSet.Contents, FactSet.Repr, OrderedSet.OrderedSet.Repr, IsRuleList;
      changed := facts[table].Remove(row);
      forall t | t in facts && t != table
        ensures facts[t].Valid() && facts[t].Repr() == old(facts[t].Repr())
        ensures facts[t].Contents() == old(facts[t].Contents())
      {
        facts[t].Unaffected();
      }
    }

    /** Looks a rule up where DiscardRule would remove it from. */
    method Contains(table: string, rule: Rule) returns (found: bool)
      requires Valid() && (rule.body == [] ==> IsGround(rule))
      ensures rule.body == [] ==> (found <==> RowOf(rule.head.arguments) in FactsOf(table))
      ensures rule.body != [] ==> (found <==> RuleLists.Has(RulesOf(table), rule))
      ensures found <==> StoredAt(table).Has(rule)
    {
      if rule.body == [] {
        if table !in facts {
          return false;
        }
        found := facts[table].Contains(RowOf(rule.head.arguments));
      } else {
        found := RuleLists.Has(RulesOf(table), rule);
      }
    }

    /** The fact set for the table, if there is one, takes facts of this width. */
    predicate CanHold(table: string, width: nat)
      reads this
    {
      table in facts ==> facts[table].width == width
    }
  }

  lemma RuleListShrinks(rules: seq<Rule>, rule: Rule)
    requires IsRuleList(rules)
    ensures var rest := RuleLists.Without(rules, rule); rest == [] || IsRuleList(rest)
  {
    hide IsFact, SameRule;
    if i: nat :| i < |rules| && SameRule(rules[i], rule) {
      RuleLists.WithoutAt(rules, i, rule);
    } else {
      RuleLists.WithoutAbsent(rules, rule);
    }
  }

  method NewFactSet(row: Row) returns (added: FactSet)
    ensures added.Valid() && fresh(added.Repr()) && added in added.Repr() && added.facts in added.Repr()
    ensures added.width == |row| && added.Contents() == [row]
  {
    hide FactSet.Valid, FactSet.Contents;
    added := new FactSet(|row|);
    var _ := added.Add(row);
  }

  predicate IsGround(rule: Rule) {
    forall t | t in rule.head.arguments :: t.ObjectConstant?
  }

  lemma RuleListGrows(rules: seq<Rule>, rule: Rule)
    requires (rules == [] || IsRuleList(rules)) && !RuleLists.Has(rules, rule) && !IsFact(rule)
    ensures IsRuleList(rules + [rule])
  {
    RuleLists.OneMore(rules, rule);
  }

  /** What GetRules finds for a positive literal is what top-down evaluation asks of a head index. */
  lemma FoundIsHeadIndex(table: string, facts: seq<Row>, rules: seq<Rule>, arguments: seq<Term>, found: seq<Rule>)
    requires forall r | r in rules :: !IsFact(r) && !r.head.negated
    requires forall rule :: rule in found <==>
               && rule in FactsAsRules(table, facts) + rules
               && (rule in FactsAsRules(table, facts) ==> SearchState.MayMatch(rule, arguments))
    ensures forall rule :: rule in found <==>
              rule in SearchState.HeadIndex(FactsAsRules(table, facts) + rules, arguments)
  {
    FactsAreFacts(table, facts);
  }
}
