/** Lists that hold rules at most once, where rules count as equal whatever the order of their bodies. */
module RuleLists {
  import opened Syntax

  predicate Has(rules: seq<Rule>, r: Rule) {
    exists i :: 0 <= i < |rules| && SameRule(rules[i], r)
  }

  ghost predicate AllDifferent(rules: seq<Rule>) {
    forall i, j | 0 <= i < j < |rules| :: !SameRule(rules[i], rules[j])
  }

  /** The rules without those equal to the given one. */
  function Without(rules: seq<Rule>, r: Rule): seq<Rule> {
    if rules == [] then []
    else if SameRule(rules[0], r) then Without(rules[1..], r)
    else [rules[0]] + Without(rules[1..], r)
  }

  lemma {:induction false} WithoutMember(rules: seq<Rule>, r: Rule, r': Rule)
    ensures r' in Without(rules, r) <==> r' in rules && !SameRule(r', r)
    decreases |rules|
  {
    if rules != [] {
      WithoutMember(rules[1..], r, r');
      assert r' in rules <==> r' == rules[0] || r' in rules[1..];
    }
  }

  lemma {:induction false} WithoutAbsent(rules: seq<Rule>, r: Rule)
    requires !Has(rules, r)
    ensures Without(rules, r) == rules
    decreases |rules|
  {
    if rules != [] {
      assert !SameRule(rules[0], r);
      forall i | 0 <= i < |rules[1..]|
        ensures !SameRule(rules[1..][i], r)
      {
        assert rules[1..][i] == rules[i + 1];
      }
      WithoutAbsent(rules[1..], r);
    }
  }

  /** Of rules that are all different it takes away one. */
  lemma {:induction false} WithoutAt(rules: seq<Rule>, i: nat, r: Rule)
    requires AllDifferent(rules) && i < |rules| && SameRule(rules[i], r)
    ensures Without(rules, r) == rules[..i] + rules[i + 1..]
    ensures AllDifferent(Without(rules, r)) && !Has(Without(rules, r), r)
    decreases |rules|
  {
    hide SameRule;
    SameAsSame(rules, i, r);
    RestIsDifferent(rules, i, r);
    assert forall j | 0 <= j < |rules[1..]| :: rules[1..][j] == rules[j + 1];
    if i == 0 {
      assert !Has(rules[1..], r);
      WithoutAbsent(rules[1..], r);
      assert rules[..0] + rules[1..] == rules[1..];
    } else {
      WithoutAt(rules[1..], i - 1, r);
      assert [rules[0]] + (rules[1..][..i - 1] + rules[1..][i..]) == rules[..i] + rules[i + 1..];
    }
  }

  lemma RestIsDifferent(rules: seq<Rule>, i: nat, r: Rule)
    requires AllDifferent(rules) && i < |rules|
    requires forall j | 0 <= j < |rules| && j != i :: !SameRule(rules[j], r)
    ensures var rest := rules[..i] + rules[i + 1..];
            AllDifferent(rest) && !Has(rest, r)
  {
    hide SameRule;
    var rest := rules[..i] + rules[i + 1..];
    assert forall j | 0 <= j < |rest| :: rest[j] == if j < i then rules[j] else rules[j + 1];
  }

  /** Only one of different rules equals the given one. */
  lemma SameAsSame(rules: seq<Rule>, i: nat, r: Rule)
    requires AllDifferent(rules) && i < |rules| && SameRule(rules[i], r)
    ensures forall j | 0 <= j < |rules| && j != i :: !SameRule(rules[j], r)
  {
    forall j | 0 <= j < |rules| && j != i
      ensures !SameRule(rules[j], r)
    {
      assert !SameRule(rules[if i < j then i else j], rules[if i < j then j else i]);
    }
  }

  lemma OneMore(rules: seq<Rule>, r: Rule)
    requires AllDifferent(rules) && !Has(rules, r)
    ensures AllDifferent(rules + [r])
  {}

  lemma SameHas(rules: seq<Rule>, r: Rule, r': Rule)
    requires SameRule(r, r')
    ensures Has(rules, r) <==> Has(rules, r')
    ensures Without(rules, r) == Without(rules, r')
    decreases |rules|
  {
    if rules != [] {
      SameHas(rules[1..], r, r');
    }
  }
}
