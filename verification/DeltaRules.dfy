/** Delta rules: one per literal of a rule's body, filed under the table whose changes trigger it. */
module DeltaRules {
  import opened Syntax
  import opened Views
  import opened SortedBodies

  datatype DeltaRule = DeltaRule(trigger: Literal, head: Literal, body: seq<Literal>, original: Rule)

  function DeltaOf(r: Rule, i: nat): DeltaRule
    requires i < |r.body|
  {
    DeltaRule(r.body[i], r.head, r.body[..i] + r.body[i + 1..], r)
  }

  /** All delta rules of a rule. */
  function DeltasOf(r: Rule): seq<DeltaRule> {
    seq(|r.body|, i requires 0 <= i < |r.body| => DeltaOf(r, i))
  }

  ghost predicate IsDeltaOf(d: DeltaRule, r: Rule) {
    exists i: nat :: i < |r.body| && d == DeltaOf(r, i)
  }

  lemma DeltasOfMembers(r: Rule, d: DeltaRule)
    ensures d in DeltasOf(r) <==> IsDeltaOf(d, r)
  {
    if i: nat :| i < |r.body| && d == DeltaOf(r, i) {
      assert DeltasOf(r)[i] == d;
    }
  }

  ghost predicate Distinct(deltas: seq<DeltaRule>) {
    forall i, j | 0 <= i < j < |deltas| :: deltas[i] != deltas[j]
  }

  /**
   Rules are kept with their bodies sorted, so that those that count as equal are the same, as their
   delta rules are.
   */
  class DeltaRuleTheory {
    const below: Order
    var rules: map<string, seq<DeltaRule>>
    var originals: set<Rule>

    constructor (below: Order)
      requires IsTotalOrder(below)
      ensures Valid() && originals == {} && this.below == below
    {
      this.below := below;
      rules, originals := map[], {};
    }

    ghost predicate Filed(d: DeltaRule)
      reads this
    {
      d.trigger.table.table in rules && d in rules[d.trigger.table.table]
    }

    /** Every list is nonempty, without repetitions, and under the table of its triggers. */
    ghost predicate WellFiled()
      reads this
    {
      forall t | t in rules ::
        && rules[t] != [] && Distinct(rules[t])
        && forall d | d in rules[t] :: d.trigger.table.table == t
    }

    ghost predicate Valid()
      reads this
    {
      && WellFiled() && IsTotalOrder(below)
      && AllSorted(below, originals)
      && forall d :: Filed(d) <==> d.original in originals && IsDeltaOf(d, d.original)
    }

    lemma SortedOriginals()
      requires Valid()
      ensures IsTotalOrder(below) && AllSorted(below, originals)
    {}

    method RulesWithTrigger(table: string) returns (deltas: seq<DeltaRule>)
      requires Valid()
      ensures Distinct(deltas)
      ensures forall d :: d in deltas <==>
                d.trigger.table.table == table && d.original in originals && IsDeltaOf(d, d.original)
    {
      if table in rules {
        deltas := rules[table];
        assert forall d | d in deltas :: Filed(d);
      } else {
        deltas := [];
        assert forall d: DeltaRule | d.trigger.table.table == table :: !Filed(d);
      }
    }

    method InsertDelta(d: DeltaRule)
      requires WellFiled()
      modifies this`rules
      ensures WellFiled() && forall d' :: Filed(d') <==> old(Filed(d')) || d' == d
    {
      var t := d.trigger.table.table;
      if t !in rules {
        rules := rules[t := []];
      }
      if d !in rules[t] {
        rules := rules[t := rules[t] + [d]];
      }
    }

    method DeleteDelta(d: DeltaRule)
      requires WellFiled() && Filed(d)
      modifies this`rules
      ensures WellFiled() && forall d' :: Filed(d') <==> old(Filed(d')) && d' != d
    {
      var t := d.trigger.table.table;
      var rest := Discard(rules[t], d);
      rules := rules[t := rest];
      if |rest| == 0 {
        rules := rules - {t};
      }
    }

    /** Returns whether the theory changed. */
    method Insert(rule: Rule) returns (changed: bool)
      requires Valid()
      modifies this`rules, this`originals
      ensures Valid() && originals == old(originals) + {SortedRule(below, rule)}
      ensures changed <==> forall r | r in old(originals) :: !SameRule(r, rule)
    {
      hide IsTotalOrder, Sort, SameRule, IsSorted;
      var sorted := SortedRule(below, rule);
      SortedIsKnown(below, originals, rule);
      if sorted in originals {
        return false;
      }
      var deltas := DeltasOf(sorted);
      for i := 0 to |deltas|
        invariant WellFiled() && originals == old(originals)
        invariant forall d :: Filed(d) <==> old(Filed(d)) || d in deltas[..i]
      {
        InsertDelta(deltas[i]);
        assert deltas[..i + 1] == deltas[..i] + [deltas[i]];
      }
      originals := originals + {sorted};
      assert deltas[..|deltas|] == deltas;
      forall d
        ensures d in deltas <==> IsDeltaOf(d, sorted)
      {
        DeltasOfMembers(sorted, d);
      }
      changed := true;
    }

    method Delete(rule: Rule) returns (changed: bool)
      requires Valid() && NoSelfJoin(rule.body)
      modifies this`rules, this`originals
      ensures Valid() && originals == old(originals) - {SortedRule(below, rule)}
      ensures changed <==> exists r :: r in old(originals) && SameRule(r, rule)
    {
      hide IsTotalOrder, Sort, SameRule, IsSorted;
      var sorted := SortedRule(below, rule);
      SortedIsKnown(below, originals, rule);
      if sorted !in originals {
        return false;
      }
      var deltas := DeltasOf(sorted);
      SortMembers(below, rule.body);
      NoSelfJoinReordered(rule.body, sorted.body);
      DeltasAreDistinct(sorted);
      forall d
        ensures d in deltas <==> IsDeltaOf(d, sorted)
      {
        DeltasOfMembers(sorted, d);
      }
      for i := 0 to |deltas|
        invariant WellFiled() && originals == old(originals)
        invariant forall d :: Filed(d) <==> old(Filed(d)) && d !in deltas[..i]
      {
        assert deltas[i] in deltas && deltas[i] !in deltas[..i];
        DeleteDelta(deltas[i]);
        assert deltas[..i + 1] == deltas[..i] + [deltas[i]];
      }
      originals := originals - {sorted};
      assert deltas[..|deltas|] == deltas;
      changed := true;
    }
  }

  /** Among sorted rules one that counts as equal is the sorted form itself. */
  lemma SortedIsKnown(below: Order, rules: set<Rule>, rule: Rule)
    requires IsTotalOrder(below) && AllSorted(below, rules)
    ensures IsSorted(below, SortedRule(below, rule).body)
    ensures SortedRule(below, rule) in rules <==> exists r :: r in rules && SameRule(r, rule)
  {
    hide IsTotalOrder, Sort, IsSorted;
    SameRuleSorted(below, rule, rule);
    forall r | r in rules
      ensures SameRule(r, rule) <==> r == SortedRule(below, rule)
    {
      SortKeepsSorted(below, r.body);
      SameRuleSorted(below, r, rule);
    }
  }

  /** A literal that occurs twice makes a self-join, in whatever order. */
  lemma NoSelfJoinReordered(body: seq<Literal>, body': seq<Literal>)
    requires NoSelfJoin(body) && multiset(body) == multiset(body')
    ensures NoSelfJoin(body')
  {
    forall i, j | 0 <= i < j < |body'|
      ensures body'[i].table.table != body'[j].table.table || |body'[i].arguments| != |body'[j].arguments|
    {
      var a, b := body'[i], body'[j];
      assert a in multiset(body) && b in multiset(body);
      if a == b {
        assert body' == body'[..j] + body'[j..] && body'[..j][i] == a && body'[j..][0] == a;
        OccursTwice(body, a);
      } else {
        var k :| 0 <= k < |body| && body[k] == a;
        var m :| 0 <= m < |body| && body[m] == b;
        assert k < m || m < k;
      }
    }
  }

  lemma {:induction false} OccursTwice(body: seq<Literal>, a: Literal)
    requires multiset(body)[a] >= 2
    ensures exists k, m :: 0 <= k < m < |body| && body[k] == body[m] == a
    decreases |body|
  {
    assert body == [body[0]] + body[1..];
    if body[0] == a {
      assert a in multiset(body[1..]);
      var m :| 0 <= m < |body[1..]| && body[1..][m] == a;
      assert body[m + 1] == a;
    } else {
      OccursTwice(body[1..], a);
      var k, m :| 0 <= k < m < |body[1..]| && body[1..][k] == body[1..][m] == a;
      assert body[k + 1] == body[m + 1] == a;
    }
  }

  lemma DeltasAreDistinct(r: Rule)
    requires NoSelfJoin(r.body)
    ensures Distinct(DeltasOf(r))
  {
    forall i, j | 0 <= i < j < |r.body|
      ensures DeltaOf(r, i) != DeltaOf(r, j)
    {
      assert r.body[i] != r.body[j];
    }
  }

  method Discard(deltas: seq<DeltaRule>, d: DeltaRule) returns (rest: seq<DeltaRule>)
    requires Distinct(deltas)
    ensures Distinct(rest) && forall d' :: d' in rest <==> d' in deltas && d' != d
  {
    for i := 0 to |deltas|
      invariant d !in deltas[..i]
    {
      if deltas[i] == d {
        rest := deltas[..i] + deltas[i + 1..];
        assert deltas == deltas[..i] + [d] + deltas[i + 1..];
        assert forall k | 0 <= k < |rest| :: rest[k] == if k < i then deltas[k] else deltas[k + 1];
        assert d !in deltas[i + 1..];
        return;
      }
      assert deltas[..i + 1] == deltas[..i] + [deltas[i]];
    }
    assert deltas[..|deltas|] == deltas;
    rest := deltas;
  }
}
