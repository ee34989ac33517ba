/** A theory that stores rules and keeps a schema of the tables they mention. */
module RuleTheory {
  import opened Syntax
  import opened Semantics
  import opened SchemaChanges
  import opened Safety
  import Reorder
  import opened RuleLists

  class Schema {
    var count: map<string, nat>
    var columns: map<string, Columns>

    constructor ()
      ensures State() == Tables(map[], map[])
    {
      count, columns := map[], map[];
    }

    function State(): Tables
      reads this
    {
      Tables(count, columns)
    }

    method Update(item: Item, insert: bool) returns (change: Option<SchemaChange>)
      requires State().Valid()
      modifies this
      ensures State() == Updated(old(State()), item, insert) && State().Valid()
      ensures change == ChangeOf(old(State()), item, insert)
      ensures insert && item.table !in old(columns) ==>
                item.table in columns && |columns[item.table]| == item.arity && Numbered(columns[item.table])
    {
      hide NewColumns, Numbered;
      NewColumnsAreNumbered(item.arity);
      var t := item.table;
      StepsAreValid(State(), item, insert, SchemaChange("", None, true));
      if insert {
        if t in columns {
          count := count[t := count[t] + 1];
          return Some(SchemaChange(t, None, true));
        }
        count := count[t := 1];
        var val := NewColumns(item.arity);
        columns := columns[t := val];
        return Some(SchemaChange(t, Some(val), true));
      }
      if t !in columns {
        return None;
      }
      if count[t] > 1 {
        count := count[t := count[t] - 1];
        return Some(SchemaChange(t, None, false));
      }
      change := Some(SchemaChange(t, Some(columns[t]), false));
      count := count - {t};
      columns := columns - {t};
    }

    /** Answers whether the change could be taken back; the original raises if not. */
    method Revert(change: SchemaChange) returns (ok: bool)
      requires State().Valid()
      modifies this
      ensures State().Valid()
      ensures ok <==> Reverted(old(State()), change).Some?
      ensures ok ==> State() == Reverted(old(State()), change).value
    {
      var t := change.table;
      StepsAreValid(State(), Item("", 0), true, change);
      if change.insert {
        if t !in count {
          return false;
        }
        if count[t] > 1 {
          count := count[t := count[t] - 1];
        } else {
          columns := columns - {t};
          count := count - {t};
        }
      } else if t in count {
        count := count[t := count[t] + 1];
      } else if change.columns == None {
        return false;
      } else {
        columns := columns[t := change.columns.value];
        count := count[t := 1];
      }
      ok := true;
    }
  }

  // ---------------------------------------------------------------------------
  // Which tables a rule mentions

  function ItemOf(lit: Literal): Item {
    Item(lit.table.table, |lit.arguments|)
  }

  /** The tables of a body, but for builtins. */
  function BodyItems(p: Program, body: seq<Literal>): seq<Item> {
    if body == [] then []
    else
      BodyItems(p, body[..|body| - 1]) + if IsBuiltin(p, body[|body| - 1]) then [] else [ItemOf(body[|body| - 1])]
  }

  function ItemsOf(p: Program, r: Rule): seq<Item> {
    [ItemOf(r.head)] + BodyItems(p, r.body)
  }

  /** Where a body mentions a table: in literals that call no builtin. */
  function MentioningAt(p: Program, body: seq<Literal>, t: string): set<nat> {
    set i: nat | i < |body| && !CallsBuiltin(p, body[i]) && body[i].table.table == t
  }

  /** A rule mentions a table in its head, and in every literal of its body that calls no builtin. */
  lemma MentionsOfRule(p: Program, r: Rule, t: string)
    ensures Occurrences(ItemsOf(p, r), t) ==
              (if r.head.table.table == t then 1 else 0) + |MentioningAt(p, r.body, t)|
  {
    hide BodyItems, MentioningAt;
    OccurrencesAppend([ItemOf(r.head)], BodyItems(p, r.body), t);
    assert [ItemOf(r.head)][..0] == [];
    MentionsOfBody(p, r.body, t);
  }

  /** What is counted are tables with the number of their arguments. */
  lemma ItemsAreLiterals(p: Program, r: Rule, item: Item)
    requires item in ItemsOf(p, r)
    ensures exists lit :: lit in [r.head] + r.body && item.table == lit.table.table && item.arity == |lit.arguments|
  {
    if item != ItemOf(r.head) {
      BodyItemIsLiteral(p, r.body, item);
    }
    assert r.head in [r.head] + r.body;
  }

  lemma {:induction false} BodyItemIsLiteral(p: Program, body: seq<Literal>, item: Item)
    requires item in BodyItems(p, body)
    ensures exists lit :: lit in body && item.table == lit.table.table && item.arity == |lit.arguments|
    decreases |body|
  {
    var last := body[|body| - 1];
    if item in BodyItems(p, body[..|body| - 1]) {
      BodyItemIsLiteral(p, body[..|body| - 1], item);
    } else {
      assert last in body;
    }
  }

  lemma {:induction false} MentionsOfBody(p: Program, body: seq<Literal>, t: string)
    ensures Occurrences(BodyItems(p, body), t) == |MentioningAt(p, body, t)|
    decreases |body|
  {
    hide Occurrences, MentioningAt, Mentions;
    if body == [] {
      NothingMentioned(p, t);
    } else {
      var init, lit := body[..|body| - 1], body[|body| - 1];
      MentionsOfBody(p, init, t);
      OccurrencesAppend(BodyItems(p, init), if IsBuiltin(p, lit) then [] else [ItemOf(lit)], t);
      OneOccurrence(p, lit, t);
      LastMention(p, body, t);
    }
  }

  lemma LastMention(p: Program, body: seq<Literal>, t: string)
    requires body != []
    ensures |MentioningAt(p, body, t)| ==
              |MentioningAt(p, body[..|body| - 1], t)| + Mentions(p, body[|body| - 1], t)
  {
    var n: nat := |body| - 1;
    var here, before := MentioningAt(p, body, t), MentioningAt(p, body[..n], t);
    assert here == if Mentions(p, body[n], t) == 1 then before + {n} else before;
  }

  lemma NothingMentioned(p: Program, t: string)
    ensures Occurrences([], t) == 0 && MentioningAt(p, [], t) == {}
  {}

  /** How often the stored rules mention a table. */
  function Total(p: Program, rules: seq<Rule>, t: string): nat {
    if rules == [] then 0
    else Total(p, rules[..|rules| - 1], t) + Occurrences(ItemsOf(p, rules[|rules| - 1]), t)
  }

  ghost predicate Accurate(p: Program, s: Tables, rules: seq<Rule>) {
    forall t :: s.CountOf(t) == Total(p, rules, t)
  }

  lemma {:induction false} OccurrencesAppend(items: seq<Item>, more: seq<Item>, t: string)
    ensures Occurrences(items + more, t) == Occurrences(items, t) + Occurrences(more, t)
    decreases |more|
  {
    if more == [] {
      assert items + more == items;
    } else {
      assert (items + more)[..|items + more| - 1] == items + more[..|more| - 1];
      OccurrencesAppend(items, more[..|more| - 1], t);
    }
  }

  function Mentions(p: Program, lit: Literal, t: string): nat {
    if !IsBuiltin(p, lit) && lit.table.table == t then 1 else 0
  }

  lemma {:induction false} BodyOccurrencesWithout(p: Program, body: seq<Literal>, i: nat, t: string)
    requires i < |body|
    ensures Occurrences(BodyItems(p, body), t) ==
              Occurrences(BodyItems(p, body[..i] + body[i + 1..]), t) + Mentions(p, body[i], t)
    decreases |body|
  {
    hide Occurrences, Mentions, IsBuiltin, ItemOf;
    var n := |body| - 1;
    var rest := body[..i] + body[i + 1..];
    var last := if IsBuiltin(p, body[n]) then [] else [ItemOf(body[n])];
    OccurrencesAppend(BodyItems(p, body[..n]), last, t);
    OneOccurrence(p, body[n], t);
    if i == n {
      assert rest == body[..n];
    } else {
      assert rest[..n - 1] == body[..n][..i] + body[..n][i + 1..] && rest[n - 1] == body[n];
      OccurrencesAppend(BodyItems(p, rest[..n - 1]), last, t);
      BodyOccurrencesWithout(p, body[..n], i, t);
    }
  }

  lemma OneOccurrence(p: Program, lit: Literal, t: string)
    ensures Occurrences(if IsBuiltin(p, lit) then [] else [ItemOf(lit)], t) == Mentions(p, lit, t)
  {
    assert [ItemOf(lit)][..0] == [];
  }

  lemma MultisetWithout(body: seq<Literal>, i: nat)
    requires i < |body|
    ensures multiset(body[..i] + body[i + 1..]) == multiset(body) - multiset{body[i]}
  {
    assert body == body[..i] + [body[i]] + body[i + 1..];
  }

  /** The order of a body does not matter for what it mentions. */
  lemma {:induction false} ReorderedMentions(p: Program, body: seq<Literal>, body': seq<Literal>, t: string)
    requires multiset(body) == multiset(body')
    ensures Occurrences(BodyItems(p, body), t) == Occurrences(BodyItems(p, body'), t)
    decreases |body|
  {
    hide Occurrences, Mentions;
    if body == [] {
      assert |multiset(body')| == 0;
    } else {
      assert body[0] in multiset(body');
      var j :| 0 <= j < |body'| && body'[j] == body[0];
      var rest, rest' := body[..0] + body[1..], body'[..j] + body'[j + 1..];
      MultisetWithout(body, 0);
      MultisetWithout(body', j);
      BodyOccurrencesWithout(p, body, 0, t);
      BodyOccurrencesWithout(p, body', j, t);
      ReorderedMentions(p, rest, rest', t);
    }
  }

  lemma SameMentions(p: Program, r: Rule, r': Rule, t: string)
    requires SameRule(r, r')
    ensures Occurrences(ItemsOf(p, r), t) == Occurrences(ItemsOf(p, r'), t)
  {
    OccurrencesAppend([ItemOf(r.head)], BodyItems(p, r.body), t);
    OccurrencesAppend([ItemOf(r.head)], BodyItems(p, r'.body), t);
    ReorderedMentions(p, r.body, r'.body, t);
  }

  lemma TotalWith(p: Program, rules: seq<Rule>, r: Rule, t: string)
    ensures Total(p, rules + [r], t) == Total(p, rules, t) + Occurrences(ItemsOf(p, r), t)
  {
    assert (rules + [r])[..|rules|] == rules;
  }

  lemma {:induction false} TotalAt(p: Program, rules: seq<Rule>, i: nat, t: string)
    requires i < |rules|
    ensures Total(p, rules, t) == Total(p, rules[..i] + rules[i + 1..], t) + Occurrences(ItemsOf(p, rules[i]), t)
    decreases |rules|
  {
    hide ItemsOf, Occurrences;
    var n := |rules| - 1;
    var rest := rules[..i] + rules[i + 1..];
    if i == n {
      assert rest == rules[..n];
    } else {
      TotalAt(p, rules[..n], i, t);
      assert rest[..n - 1] == rules[..n][..i] + rules[..n][i + 1..] && rest[n - 1] == rules[n];
    }
  }

  lemma TotalWithout(p: Program, rules: seq<Rule>, r: Rule, t: string)
    requires AllDifferent(rules) && Has(rules, r)
    ensures Total(p, rules, t) == Total(p, Without(rules, r), t) + Occurrences(ItemsOf(p, r), t)
    ensures AllDifferent(Without(rules, r))
  {
    hide SameRule, ItemsOf, Occurrences;
    var i :| 0 <= i < |rules| && SameRule(rules[i], r);
    WithoutAt(rules, i, r);
    TotalAt(p, rules, i, t);
    SameMentions(p, rules[i], r, t);
  }

  // ---------------------------------------------------------------------------
  // Updates

  /** Facts are stored by table and arguments alone, so that only those without service and modal are told apart. */
  predicate PlainIfFact(rule: Rule) {
    rule.body == [] ==> rule.head.table.service.None? && rule.head.table.modal.None?
  }

  lemma SameIsPlain(rule: Rule, form: Rule)
    requires SameRule(rule, form) && PlainIfFact(rule)
    ensures PlainIfFact(form)
  {
    assert |multiset(rule.body)| == |rule.body| && |multiset(form.body)| == |form.body|;
  }

  class RuleHandler {
    const schema: Schema
    var rules: seq<Rule>

    constructor ()
      ensures fresh(schema) && rules == [] && schema.State() == Tables(map[], map[])
    {
      schema := new Schema();
      rules := [];
    }

    ghost predicate Valid(p: Program)
      reads this, schema
    {
      && schema.State().Valid() && AllDifferent(rules) && Accurate(p, schema.State(), rules)
      && forall r | r in rules :: PlainIfFact(r) && BoundInTime(p, r.body)
    }

    method UpdateRuleSchema(p: Program, rule: Rule, insert: bool) returns (changes: seq<Option<SchemaChange>>)
      requires schema.State().Valid()
      modifies schema
      ensures schema.State().Valid() && schema.State() == After(old(schema.State()), ItemsOf(p, rule), insert)
      ensures changes == Changes(old(schema.State()), ItemsOf(p, rule), insert)
    {
      hide Updated, ChangeOf, Tables.Valid;
      ghost var s := schema.State();
      var change := schema.Update(ItemOf(rule.head), insert);
      changes := [change];
      BatchOfOne(s, ItemOf(rule.head), insert);
      for i := 0 to |rule.body|
        invariant schema.State().Valid()
        invariant schema.State() == After(s, [ItemOf(rule.head)] + BodyItems(p, rule.body[..i]), insert)
        invariant changes == Changes(s, [ItemOf(rule.head)] + BodyItems(p, rule.body[..i]), insert)
      {
        BodyItemsNext(p, rule.body, i);
        assert BodyItems(p, rule.body[..i]) + [] == BodyItems(p, rule.body[..i]);
        if !IsBuiltin(p, rule.body[i]) {
          BatchOfMore(s, [ItemOf(rule.head)] + BodyItems(p, rule.body[..i]), ItemOf(rule.body[i]), insert);
          assert [ItemOf(rule.head)] + BodyItems(p, rule.body[..i + 1]) ==
                 [ItemOf(rule.head)] + BodyItems(p, rule.body[..i]) + [ItemOf(rule.body[i])];
          change := schema.Update(ItemOf(rule.body[i]), insert);
          changes := changes + [change];
        }
      }
      assert rule.body[..|rule.body|] == rule.body;
    }

    /** Takes the changes back in the order in which they were made. */
    method RevertSchema(changes: seq<Option<SchemaChange>>) returns (ok: bool)
      requires schema.State().Valid()
      modifies schema
      ensures ok <==> RevertAll(old(schema.State()), changes).Some?
      ensures ok ==> schema.State().Valid() && schema.State() == RevertAll(old(schema.State()), changes).value
    {
      hide Reverted, Tables.Valid;
      ghost var s := schema.State();
      for i := 0 to |changes|
        invariant schema.State().Valid() && RevertAll(s, changes[..i]) == Some(schema.State())
      {
        RevertNext(s, changes, i);
        if changes[i].Some? {
          ok := schema.Revert(changes[i].value);
          if !ok {
            RaisedStays(s, changes, i + 1);
            return;
          }
        }
      }
      assert changes[..|changes|] == changes;
      ok := true;
    }

    /**
     Inserts or deletes a rule, in the form in which it is safe, and accounts for it in the schema.
     If that changes nothing the schema is restored; None where restoring it makes the original raise.
     */
    method UpdateRule(p: Program, rule: Rule, insert: bool) returns (changed: Option<bool>)
      requires Valid(p) && !rule.head.negated && Reorder.CanBeMadeSafe(p, rule.body) && PlainIfFact(rule)
      modifies this, schema
      ensures changed.None? <==> Raises(p, old(rules), Event(rule, insert))
      ensures changed.Some? ==> Valid(p) && Follows(p, old(rules), Event(rule, insert), rules)
      ensures changed.Some? ==> (changed.value <==> IsEffective(old(rules), Event(rule, insert)))
      ensures changed.None? ==> rules == old(rules)
      ensures changed == Some(false) ==> schema.State() == old(schema.State())
    {
      hide Tables.Valid, Reorder.CanBeMadeSafe, KeepsRepeated, SameRule, Has, Without, AllDifferent, Accurate, Follows,
           Raises, IsEffective, BoundInTime, Reorder.TakesFirstReady;
      ghost var s := schema.State();
      var changes := UpdateRuleSchema(p, rule, insert);
      var safe := Reorder.ReorderForSafety(p, rule);
      var form := safe.value;
      FormIsSame(rule, form);
      SameHas(rules, rule, form);
      if insert && !Has(rules, form) {
        assert PlainIfFact(form) by {
          SameIsPlain(rule, form);
        }
        AccountsForInsert(p, s, rules, rule, form);
        InsertFollows(p, rules, rule, form);
        rules := rules + [form];
        return Some(true);
      }
      if !insert && Has(rules, form) {
        AccountsForDelete(p, s, rules, rule, form);
        DeleteFollows(p, rules, rule);
        forall r | r in Without(rules, form)
          ensures PlainIfFact(r) && BoundInTime(p, r.body)
        {
          WithoutMember(rules, form, r);
        }
        rules := Without(rules, form);
        return Some(true);
      }
      ForwardRestoresInserts(s, ItemsOf(p, rule));
      ForwardRestoresDeletes(s, ItemsOf(p, rule));
      NothingFollows(p, s, rules, rule, insert);
      var ok := RevertSchema(changes);
      changed := if ok then Some(false) else None;
    }

    /** Updates one after the other; lists the events that changed something. None where the original raises. */
    method Update(p: Program, events: seq<Event>) returns (changes: Option<seq<Event>>)
      requires Valid(p)
      requires forall e | e in events ::
                 !e.rule.head.negated && Reorder.CanBeMadeSafe(p, e.rule.body) && PlainIfFact(e.rule)
      modifies this, schema
      ensures changes.Some? ==> Valid(p) && IsRun(p, old(rules), events, rules, changes.value)
      ensures changes.None? ==> exists i, made :: 0 <= i < |events| && IsRun(p, old(rules), events[..i], rules, made)
                                                  && Raises(p, rules, events[i])
    {
      hide Reorder.CanBeMadeSafe, Raises, Follows, IsEffective, AllDifferent, Accurate, BoundInTime;
      var made: seq<Event> := [];
      for i := 0 to |events|
        invariant Valid(p) && IsRun(p, old(rules), events[..i], rules, made)
      {
        ghost var before := rules;
        assert events[i] in events && events[..i + 1][..i] == events[..i];
        var changed := UpdateRule(p, events[i].rule, events[i].insert);
        if changed == None {
          return None;
        }
        ghost var init := made;
        if changed.value {
          made := made + [events[i]];
        }
        assert IsRun(p, old(rules), events[..i + 1][..i], before, init);
      }
      assert events[..|events|] == events;
      changes := Some(made);
    }
  }

  datatype Event = Event(rule: Rule, insert: bool)

  ghost predicate IsEffective(rules: seq<Rule>, e: Event) {
    e.insert <==> !Has(rules, e.rule)
  }

  /** The rule mentions some table at least as often as all the rules together, which is more than once. */
  ghost predicate ExhaustsTable(p: Program, rules: seq<Rule>, rule: Rule) {
    exists t :: 2 <= Total(p, rules, t) <= Occurrences(ItemsOf(p, rule), t)
  }

  /** A rule is deleted that is not there, and yet takes all that the schema counts of a table. */
  ghost predicate Raises(p: Program, rules: seq<Rule>, e: Event) {
    !e.insert && !Has(rules, e.rule) && ExhaustsTable(p, rules, e.rule)
  }

  /**
   The rule with its body in an order in which all variables are bound in time: as written if that is one, and
   otherwise with the first literal that is ready taken again and again.
   */
  ghost predicate IsForm(p: Program, rule: Rule, form: Rule) {
    && SameRule(rule, form) && BoundInTime(p, form.body) && (BoundInTime(p, rule.body) ==> form == rule)
    && Reorder.TakesFirstReady(p, rule.body, form.body)
  }

  /** The rule is there in an order of its body that is safe, or gone; all other rules stay. */
  ghost predicate Follows(p: Program, rules: seq<Rule>, e: Event, rules': seq<Rule>) {
    && !Raises(p, rules, e)
    && if !e.insert then rules' == Without(rules, e.rule)
       else if Has(rules, e.rule) then rules' == rules
       else exists form :: IsForm(p, e.rule, form) && rules' == rules + [form]
  }

  /** The events lead from one list of rules to the other, and `made` are those that changed something. */
  ghost predicate IsRun(p: Program, rules: seq<Rule>, events: seq<Event>, rules': seq<Rule>, made: seq<Event>)
    decreases |events|
  {
    if events == [] then rules' == rules && made == []
    else
      var init, e := events[..|events| - 1], events[|events| - 1];
      exists mid, made' ::
        && IsRun(p, rules, init, mid, made') && Follows(p, mid, e, rules')
        && made == made' + if IsEffective(mid, e) then [e] else []
  }

  lemma InsertFollows(p: Program, rules: seq<Rule>, rule: Rule, form: Rule)
    requires !Has(rules, rule) && IsForm(p, rule, form)
    ensures var e := Event(rule, true);
            Follows(p, rules, e, rules + [form]) && IsEffective(rules, e) && !Raises(p, rules, e)
  {}

  lemma DeleteFollows(p: Program, rules: seq<Rule>, rule: Rule)
    requires Has(rules, rule)
    ensures var e := Event(rule, false);
            Follows(p, rules, e, Without(rules, rule)) && IsEffective(rules, e) && !Raises(p, rules, e)
  {}

  lemma NothingFollows(p: Program, s: Tables, rules: seq<Rule>, rule: Rule, insert: bool)
    requires Accurate(p, s, rules) && (insert <==> Has(rules, rule))
    ensures var e := Event(rule, insert);
            && !IsEffective(rules, e)
            && (Raises(p, rules, e) <==> !insert && !KeepsRepeated(s, ItemsOf(p, rule), ItemsOf(p, rule)))
            && (!Raises(p, rules, e) ==> Follows(p, rules, e, rules))
  {
    hide SameRule, KeepsRepeated, ExhaustsTable, Occurrences, Total;
    LosesByTotals(p, s, rules, rule);
    if !insert {
      WithoutAbsent(rules, rule);
    }
  }

  lemma FormIsSame(rule: Rule, form: Rule)
    requires form == rule || (form.head == rule.head && Reorder.Reordered(rule.body, form.body))
    ensures SameRule(rule, form)
  {}

  /** The schema counts what the rules mention, so the rules tell whether restoring it raises. */
  lemma LosesByTotals(p: Program, s: Tables, rules: seq<Rule>, rule: Rule)
    requires Accurate(p, s, rules)
    ensures !KeepsRepeated(s, ItemsOf(p, rule), ItemsOf(p, rule)) <==> ExhaustsTable(p, rules, rule)
  {
    hide ItemsOf, Occurrences, Total;
    var items := ItemsOf(p, rule);
    if !KeepsRepeated(s, items, items) {
      var t :| Occurrences(items, t) > 0 && s.CountOf(t) >= 2 && Occurrences(items, t) >= s.CountOf(t);
      assert s.CountOf(t) == Total(p, rules, t);
    }
    if t :| 2 <= Total(p, rules, t) <= Occurrences(items, t) {
      assert s.CountOf(t) == Total(p, rules, t);
    }
  }

  lemma AccountsForInsert(p: Program, s: Tables, rules: seq<Rule>, rule: Rule, form: Rule)
    requires s.Valid() && Accurate(p, s, rules) && SameRule(rule, form)
    requires AllDifferent(rules) && !Has(rules, form)
    ensures Accurate(p, After(s, ItemsOf(p, rule), true), rules + [form]) && AllDifferent(rules + [form])
  {
    hide Tables.Valid, Tables.CountOf, Total, ItemsOf, SameRule;
    OneMore(rules, form);
    forall t
      ensures After(s, ItemsOf(p, rule), true).CountOf(t) == Total(p, rules + [form], t)
    {
      CountAfter(s, ItemsOf(p, rule), true, t);
      SameMentions(p, rule, form, t);
      TotalWith(p, rules, form, t);
      assert s.CountOf(t) == Total(p, rules, t);
    }
  }

  lemma AccountsForDelete(p: Program, s: Tables, rules: seq<Rule>, rule: Rule, form: Rule)
    requires s.Valid() && Accurate(p, s, rules) && SameRule(rule, form)
    requires AllDifferent(rules) && Has(rules, form)
    ensures var rest := Without(rules, form);
            Accurate(p, After(s, ItemsOf(p, rule), false), rest) && AllDifferent(rest)
  {
    hide Tables.Valid, Tables.CountOf, Total, ItemsOf, AllDifferent, Has, SameRule;
    var rest := Without(rules, form);
    TotalWithout(p, rules, form, "");
    forall t
      ensures After(s, ItemsOf(p, rule), false).CountOf(t) == Total(p, rest, t)
    {
      CountAfter(s, ItemsOf(p, rule), false, t);
      SameMentions(p, rule, form, t);
      TotalWithout(p, rules, form, t);
      assert s.CountOf(t) == Total(p, rules, t);
    }
  }

  lemma BodyItemsNext(p: Program, body: seq<Literal>, i: nat)
    requires i < |body|
    ensures BodyItems(p, body[..i + 1]) ==
              BodyItems(p, body[..i]) + if IsBuiltin(p, body[i]) then [] else [ItemOf(body[i])]
  {
    assert body[..i + 1][..i] == body[..i];
  }

  lemma BatchOfOne(s: Tables, item: Item, insert: bool)
    requires s.Valid()
    ensures After(s, [item], insert) == Updated(s, item, insert)
    ensures Changes(s, [item], insert) == [ChangeOf(s, item, insert)]
  {
    hide Updated, ChangeOf, Tables.Valid;
    assert [item][..0] == [];
  }

  lemma BatchOfMore(s: Tables, items: seq<Item>, item: Item, insert: bool)
    requires s.Valid()
    ensures After(s, items + [item], insert) == Updated(After(s, items, insert), item, insert)
    ensures Changes(s, items + [item], insert) ==
              Changes(s, items, insert) + [ChangeOf(After(s, items, insert), item, insert)]
  {
    hide Updated, ChangeOf, Tables.Valid;
    assert (items + [item])[..|items|] == items;
  }
}
