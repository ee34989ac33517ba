/**
 Rewriting rules so that no body mentions a table twice: later occurrences are renamed,
 and each new table is defined as a copy of the old one.
 */
module SelfJoin {
  import opened Syntax
  import opened Names
  import opened Views

  datatype TableArity = TableArity(table: string, arity: nat)

  function KeyOf(lit: Literal): TableArity {
    TableArity(lit.table.table, |lit.arguments|)
  }

  predicate Unqualified(table: Tablename) {
    table.service == None && table.modal == None
  }

  predicate UnqualifiedRule(r: Rule) {
    !r.head.negated && Unqualified(r.head.table) && forall lit | lit in r.body :: Unqualified(lit.table)
  }

  function Count(body: seq<Literal>, key: TableArity): nat {
    if body == [] then 0
    else Count(body[..|body| - 1], key) + if KeyOf(body[|body| - 1]) == key then 1 else 0
  }

  /** How many new tables one body needs for a table. */
  function Surplus(body: seq<Literal>, key: TableArity): nat {
    var n := Count(body, key);
    if n == 0 then 0 else n - 1
  }

  function Max(a: nat, b: nat): nat {
    if a < b then b else a
  }

  /** How many new tables all bodies together need for a table. */
  function Extra(rules: seq<Rule>, key: TableArity): nat {
    if rules == [] then 0
    else Max(Extra(rules[..|rules| - 1], key), Surplus(rules[|rules| - 1].body, key))
  }

  function Plain(table: string, arguments: seq<Term>): Literal {
    Literal(Tablename(None, table, None), arguments, false)
  }

  function NewName(key: TableArity, k: nat): string {
    NewTableName(key.table, key.arity, k)
  }

  /** The i-th literal, renamed if its table has occurred before. */
  function Renamed(body: seq<Literal>, i: nat): Literal
    requires i < |body|
  {
    var lit := body[i];
    var k := Count(body[..i], KeyOf(lit));
    if k == 0 then lit else lit.(table := lit.table.(table := NewName(KeyOf(lit), k)))
  }

  function WithoutSelfJoins(r: Rule): Rule {
    Rule(r.head, seq(|r.body|, i requires 0 <= i < |r.body| => Renamed(r.body, i)))
  }

  function Arguments(n: nat): seq<Term> {
    seq(n, i requires 0 <= i < n => Variable("x" + Decimal(i)))
  }

  function CopyRule(key: TableArity, k: nat): Rule {
    Rule(Plain(NewName(key, k), Arguments(key.arity)), [Plain(key.table, Arguments(key.arity))])
  }

  /** Each new table that the rules need has one copy rule, and nothing else is there. */
  ghost predicate AreCopies(copies: seq<Rule>, rules: seq<Rule>) {
    && (forall i, j | 0 <= i < j < |copies| :: copies[i] != copies[j])
    && forall c :: c in copies <==> exists key, k :: 1 <= k <= Extra(rules, key) && c == CopyRule(key, k)
  }

  /** The counters after some rules and the beginning of one more body. */
  ghost predicate Recorded(counters: map<TableArity, nat>, rules: seq<Rule>, body: seq<Literal>) {
    forall key ::
      && (key in counters ==> counters[key] > 0)
      && (if key in counters then counters[key] else 0) == Max(Extra(rules, key), Surplus(body, key))
  }

  /** The rules rewritten, followed by the definitions of the new tables. */
  ghost predicate IsElimination(results: seq<Rule>, rules: seq<Rule>) {
    && |rules| <= |results|
    && (forall i | 0 <= i < |rules| :: results[i] == WithoutSelfJoins(rules[i]))
    && AreCopies(results[|rules|..], rules)
  }

  method RenameBody(rule: Rule, counters: map<TableArity, nat>, ghost done: seq<Rule>)
    returns (rule': Rule, counters': map<TableArity, nat>)
    requires UnqualifiedRule(rule) && Recorded(counters, done, [])
    ensures rule' == WithoutSelfJoins(rule)
    ensures Recorded(counters', done + [rule], [])
  {
    hide Recorded, CountsAll;
    var body: seq<Literal> := [];
    var occurrences: map<TableArity, nat> := map[];
    counters' := counters;
    NothingToCount();
    for i := 0 to |rule.body|
      invariant body == seq(i, j requires 0 <= j < i => Renamed(rule.body, j))
      invariant CountsAll(occurrences, rule.body[..i])
      invariant Recorded(counters', done, rule.body[..i])
    {
      var lit := rule.body[i];
      var key := KeyOf(lit);
      CountsOneMore(occurrences, rule.body, i);
      RecordedStep(counters', done, rule.body, i);
      if key !in occurrences {
        occurrences := occurrences[key := 1];
        body := body + [lit];
      } else {
        body := body + [lit.(table := lit.table.(table := NewName(key, occurrences[key])))];
        occurrences := occurrences[key := occurrences[key] + 1];
        counters' := counters'[key := if key !in counters' then 1 else Max(occurrences[key] - 1, counters'[key])];
      }
    }
    assert rule.body[..|rule.body|] == rule.body;
    RecordedRule(counters', done, rule);
    rule' := Rule(rule.head, body);
  }

  ghost predicate CountsAll(occurrences: map<TableArity, nat>, body: seq<Literal>) {
    && (forall key :: key in occurrences <==> Count(body, key) > 0)
    && forall key | key in occurrences :: occurrences[key] == Count(body, key)
  }

  lemma CountsOneMore(occurrences: map<TableArity, nat>, body: seq<Literal>, i: nat)
    requires i < |body| && CountsAll(occurrences, body[..i])
    ensures var key := KeyOf(body[i]);
            && (key in occurrences <==> Count(body[..i], key) > 0)
            && (key in occurrences ==> occurrences[key] == Count(body[..i], key))
            && CountsAll(occurrences[key := if key in occurrences then occurrences[key] + 1 else 1], body[..i + 1])
  {
    assert body[..i + 1][..i] == body[..i];
  }

  lemma NothingToCount()
    ensures CountsAll(map[], [])
  {}

  lemma RecordedStep(counters: map<TableArity, nat>, done: seq<Rule>, body: seq<Literal>, i: nat)
    requires i < |body| && Recorded(counters, done, body[..i])
    ensures var key := KeyOf(body[i]);
            var n := Count(body[..i], key);
            if n == 0 then Recorded(counters, done, body[..i + 1])
            else Recorded(counters[key := if key !in counters then 1 else Max(n, counters[key])], done, body[..i + 1])
  {
    assert body[..i + 1][..i] == body[..i];
  }

  lemma RecordedRule(counters: map<TableArity, nat>, done: seq<Rule>, rule: Rule)
    requires Recorded(counters, done, rule.body)
    ensures Recorded(counters, done + [rule], [])
  {
    assert (done + [rule])[..|done|] == done;
  }

  method EliminateSelfJoins(formulas: seq<Rule>) returns (results: seq<Rule>)
    requires forall r | r in formulas :: UnqualifiedRule(r)
    ensures IsElimination(results, formulas)
  {
    hide WithoutSelfJoins, UnqualifiedRule;
    var counters: map<TableArity, nat> := map[];
    results := [];
    for i := 0 to |formulas|
      invariant |results| == i && forall j | 0 <= j < i :: results[j] == WithoutSelfJoins(formulas[j])
      invariant Recorded(counters, formulas[..i], [])
    {
      assert formulas[i] in formulas && formulas[..i + 1] == formulas[..i] + [formulas[i]];
      var rule;
      rule, counters := RenameBody(formulas[i], counters, formulas[..i]);
      results := results + [rule];
    }
    assert formulas[..|formulas|] == formulas;
    var copies := Copies(counters);
    CopiesOfCounters(copies, counters, formulas);
    assert (results + copies)[|formulas|..] == copies;
    results := results + copies;
  }

  /** One copy rule for each number up to the counter of each table. */
  ghost predicate CopiesOf(copies: seq<Rule>, counters: map<TableArity, nat>) {
    && (forall i, j | 0 <= i < j < |copies| :: copies[i] != copies[j])
    && forall c :: c in copies <==> exists key, k :: key in counters && 1 <= k <= counters[key] && c == CopyRule(key, k)
  }

  lemma CopiesOfCounters(copies: seq<Rule>, counters: map<TableArity, nat>, rules: seq<Rule>)
    requires CopiesOf(copies, counters) && Recorded(counters, rules, [])
    ensures AreCopies(copies, rules)
  {
    hide CopyRule;
  }

  lemma CopyRuleIsInjective(key: TableArity, k: nat, key': TableArity, k': nat)
    requires CopyRule(key, k) == CopyRule(key', k')
    ensures key == key' && k == k'
  {
    hide NewTableName;
    assert CopyRule(key, k).head.table.table == NewName(key, k);
    NewTableNameIsInjective(key.table, key.arity, k, key'.table, key'.arity, k');
  }


  method Copies(counters: map<TableArity, nat>) returns (copies: seq<Rule>)
    ensures CopiesOf(copies, counters)
  {
    hide CopyRule;
    copies := [];
    var rest := counters.Keys;
    while rest != {}
      invariant rest <= counters.Keys
      invariant CopiesOf(copies, counters - rest)
    {
      var key :| key in rest;
      for k := 0 to counters[key]
        invariant CopiesOf(copies, (counters - rest)[key := k])
      {
        CopiesAppend(copies, counters - rest, key, k);
        copies := copies + [CopyRule(key, k + 1)];
      }
      assert counters - (rest - {key}) == (counters - rest)[key := counters[key]];
      rest := rest - {key};
    }
    assert counters - {} == counters;
  }

  lemma CopiesAppend(copies: seq<Rule>, counters: map<TableArity, nat>, key: TableArity, k: nat)
    requires CopiesOf(copies, counters[key := k])
    ensures CopiesOf(copies + [CopyRule(key, k + 1)], counters[key := k + 1])
  {
    hide CopyRule;
    var c, copies' := CopyRule(key, k + 1), copies + [CopyRule(key, k + 1)];
    if c in copies {
      var key', k' :| key' in counters[key := k] && 1 <= k' <= counters[key := k][key'] && c == CopyRule(key', k');
      CopyRuleIsInjective(key, k + 1, key', k');
    }
    forall c'
      ensures c' in copies' <==>
                exists key', k' :: key' in counters[key := k + 1] && 1 <= k' <= counters[key := k + 1][key']
                                   && c' == CopyRule(key', k')
    {
      if key', k' :|
        && key' in counters[key := k + 1] && 1 <= k' <= counters[key := k + 1][key']
        && c' == CopyRule(key', k')
      {
        if key' != key || k' <= k {
          assert key' in counters[key := k] && k' <= counters[key := k][key'];
        }
      }
      if c' == c {
        assert k + 1 <= counters[key := k + 1][key];
      } else if c' in copies {
        var key', k' :| key' in counters[key := k] && 1 <= k' <= counters[key := k][key'] && c' == CopyRule(key', k');
        assert k' <= counters[key := k + 1][key'];
      }
    }
  }

  // ---------------------------------------------------------------------------
  // The rewritten rules have no self-joins

  /** Rules as users write them: unqualified, and without names of the generated form. */
  predicate UserRules(rules: seq<Rule>) {
    forall r | r in rules :: UserRule(r)
  }

  predicate UserRule(r: Rule) {
    && UnqualifiedRule(r) && !InNamespace(r.head.table.table)
    && forall lit | lit in r.body :: !InNamespace(lit.table.table)
  }

  lemma {:induction false} CountGrows(body: seq<Literal>, i: nat, j: nat, key: TableArity)
    requires i <= j <= |body|
    ensures Count(body[..i], key) <= Count(body[..j], key)
    ensures i < j && KeyOf(body[i]) == key ==> Count(body[..i], key) < Count(body[..j], key)
    decreases j
  {
    if i < j {
      assert body[..j][..j - 1] == body[..j - 1];
      CountGrows(body, i, j - 1, key);
    }
  }

  lemma RewrittenHasNoSelfJoin(r: Rule)
    requires UserRule(r)
    ensures NoSelfJoin(WithoutSelfJoins(r).body)
  {
    hide NewTableName;
    var body := r.body;
    forall i, j | 0 <= i < j < |body| && |Renamed(body, i).arguments| == |Renamed(body, j).arguments|
      ensures Renamed(body, i).table.table != Renamed(body, j).table.table
    {
      var key, key' := KeyOf(body[i]), KeyOf(body[j]);
      var k, k' := Count(body[..i], key), Count(body[..j], key');
      assert body[i] in body && body[j] in body;
      CountGrows(body, i, j, key);
      NewTableNameIsInNamespace(key.table, key.arity, k);
      NewTableNameIsInNamespace(key'.table, key'.arity, k');
      if k > 0 && k' > 0 && NewName(key, k) == NewName(key', k') {
        NewTableNameIsInjective(key.table, key.arity, k, key'.table, key'.arity, k');
      }
    }
  }

  lemma {:induction false} ExtraCovers(rules: seq<Rule>, r: Rule, key: TableArity)
    requires r in rules
    ensures Surplus(r.body, key) <= Extra(rules, key)
    decreases |rules|
  {
    if rules[|rules| - 1] != r {
      ExtraCovers(rules[..|rules| - 1], r, key);
    }
  }

  /** Every name a rewritten body uses is one of those that get a definition. */
  lemma RenamedIsDefined(rules: seq<Rule>, r: Rule, i: nat)
    requires r in rules && i < |r.body|
    ensures Count(r.body[..i], KeyOf(r.body[i])) <= Extra(rules, KeyOf(r.body[i]))
  {
    var key := KeyOf(r.body[i]);
    CountGrows(r.body, i, |r.body|, key);
    assert r.body[..|r.body|] == r.body;
    ExtraCovers(rules, r, key);
  }
}
