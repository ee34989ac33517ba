/**
 The rules that a theory keeps for the rules of its users: each rewritten without self-joins, and
 one definition for each new table. What inserting and deleting a user's rule does to them.
 */
module EliminatedRules {
  import opened Syntax
  import opened Names
  import opened SortedBodies
  import opened SelfJoin

  /** The form in which a user's rule is kept. */
  function Kept(below: Order, r: Rule): Rule {
    SortedRule(below, WithoutSelfJoins(r))
  }

  ghost predicate IsCopy(users: seq<Rule>, x: Rule) {
    exists key, k :: 1 <= k <= Extra(users, key) && x == CopyRule(key, k)
  }

  ghost predicate IsKept(below: Order, users: seq<Rule>, x: Rule) {
    (exists r :: r in users && x == Kept(below, r)) || IsCopy(users, x)
  }

  /** The theory keeps what the user's rules need, and nothing else. */
  ghost predicate Represents(below: Order, rules: set<Rule>, users: seq<Rule>) {
    forall x :: x in rules <==> IsKept(below, users, x)
  }

  /** The user's rules without those that are kept in the same form. */
  function WithoutRule(below: Order, users: seq<Rule>, r: Rule): seq<Rule> {
    if users == [] then []
    else
      var n := |users| - 1;
      WithoutRule(below, users[..n], r) + if Kept(below, users[n]) == Kept(below, r) then [] else [users[n]]
  }

  lemma {:induction false} WithoutRuleMember(below: Order, users: seq<Rule>, r: Rule, r': Rule)
    ensures r' in WithoutRule(below, users, r) <==> r' in users && Kept(below, r') != Kept(below, r)
    decreases |users|
  {
    hide Kept;
    if users != [] {
      var n := |users| - 1;
      assert users == users[..n] + [users[n]];
      WithoutRuleMember(below, users[..n], r, r');
    }
  }

  // ---------------------------------------------------------------------------
  // The kept form tells how many new tables a rule needs

  lemma {:induction false} OccurrenceAt(body: seq<Literal>, key: TableArity, k: nat) returns (i: nat)
    requires k < Count(body, key)
    ensures i < |body| && KeyOf(body[i]) == key && Count(body[..i], key) == k
    decreases |body|
  {
    hide KeyOf;
    var n := |body| - 1;
    if k == Count(body[..n], key) {
      i := n;
    } else {
      i := OccurrenceAt(body[..n], key, k);
      assert body[..n][..i] == body[..i];
    }
  }

  /** A rewritten body uses exactly the new tables that it needs. */
  lemma NewTablesUsed(r: Rule, key: TableArity, k: nat)
    requires UserRule(r) && k >= 1
    ensures k <= Surplus(r.body, key) <==>
              exists lit :: lit in WithoutSelfJoins(r).body && lit.table.table == NewName(key, k)
  {
    hide NewTableName, InNamespace;
    var body := WithoutSelfJoins(r).body;
    if k <= Surplus(r.body, key) {
      var i := OccurrenceAt(r.body, key, k);
      assert body[i].table.table == NewName(key, k) && body[i] in body;
    }
    if lit :| lit in body && lit.table.table == NewName(key, k) {
      var i :| 0 <= i < |body| && body[i] == lit;
      var key', k' := KeyOf(r.body[i]), Count(r.body[..i], KeyOf(r.body[i]));
      assert r.body[i] in r.body;
      NewTableNameIsInNamespace(key.table, key.arity, k);
      NewTableNameIsInjective(key.table, key.arity, k, key'.table, key'.arity, k');
      CountGrows(r.body, i, |r.body|, key);
      assert r.body[..|r.body|] == r.body;
    }
  }

  lemma SameKeptSameSurplus(below: Order, r: Rule, r': Rule, key: TableArity)
    requires IsTotalOrder(below) && UserRule(r) && UserRule(r') && Kept(below, r) == Kept(below, r')
    ensures Surplus(r.body, key) == Surplus(r'.body, key)
  {
    hide Surplus, UserRule, WithoutSelfJoins, Sort, IsTotalOrder, NewTableName;
    var body, body' := WithoutSelfJoins(r).body, WithoutSelfJoins(r').body;
    SortMembers(below, body);
    SortMembers(below, body');
    forall lit
      ensures lit in body <==> lit in body'
    {
      assert lit in multiset(body) <==> lit in multiset(body');
    }
    var n, n' := Surplus(r.body, key), Surplus(r'.body, key);
    if n >= 1 {
      NewTablesUsed(r, key, n);
      NewTablesUsed(r', key, n);
    }
    if n' >= 1 {
      NewTablesUsed(r, key, n');
      NewTablesUsed(r', key, n');
    }
  }

  lemma {:induction false} ExtraWithout(below: Order, users: seq<Rule>, r: Rule, key: TableArity)
    requires IsTotalOrder(below) && UserRules(users) && UserRule(r)
    ensures var rest := Extra(WithoutRule(below, users, r), key);
            rest <= Extra(users, key) <= Max(rest, Surplus(r.body, key))
    decreases |users|
  {
    hide Surplus, UserRule, Kept, IsTotalOrder;
    if users != [] {
      var n := |users| - 1;
      var rest := WithoutRule(below, users[..n], r);
      assert users[n] in users && forall u | u in users[..n] :: u in users;
      ExtraWithout(below, users[..n], r, key);
      if Kept(below, users[n]) == Kept(below, r) {
        assert rest + [] == rest;
        SameKeptSameSurplus(below, users[n], r, key);
      } else {
        assert (rest + [users[n]])[..|rest|] == rest;
      }
    }
  }

  // ---------------------------------------------------------------------------
  // Inserting and deleting

  lemma ExtraOfOne(r: Rule, key: TableArity)
    ensures Extra([r], key) == Surplus(r.body, key)
  {
    assert [r][..0] == [];
  }

  /** The kept form of a user's rule is no copy rule. */
  lemma KeptIsNoCopy(below: Order, r: Rule, key: TableArity, k: nat)
    requires UserRule(r)
    ensures Kept(below, r) != CopyRule(key, k)
  {
    hide NewTableName, InNamespace, Sort;
    NewTableNameIsInNamespace(key.table, key.arity, k);
    assert Kept(below, r).head.table.table == r.head.table.table;
    assert CopyRule(key, k).head.table.table == NewName(key, k);
  }

  /** Adding what one rule needs. */
  lemma RepresentsInsert(below: Order, rules: set<Rule>, users: seq<Rule>, r: Rule, more: set<Rule>)
    requires Represents(below, rules, users) && Represents(below, more, [r])
    ensures Represents(below, rules + more, users + [r])
  {
    hide Kept, CopyRule, Extra;
    var all := users + [r];
    forall key
      ensures Extra(all, key) == Max(Extra(users, key), Extra([r], key))
    {
      ExtraOfOne(r, key);
      ExtraOfLast(users, r, key);
    }
    forall x
      ensures IsKept(below, all, x) <==> IsKept(below, users, x) || IsKept(below, [r], x)
    {
      if u :| u in all && x == Kept(below, u) {
        assert u in users || u in [r];
      }
      if u :| u in users && x == Kept(below, u) {
        assert u in all;
      }
      if u :| u in [r] && x == Kept(below, u) {
        assert u in all;
      }
      if key, k :| 1 <= k <= Extra(all, key) && x == CopyRule(key, k) {
        assert k <= Extra(users, key) || k <= Extra([r], key);
      }
      if key, k :| 1 <= k <= Extra(users, key) && x == CopyRule(key, k) {
        assert k <= Extra(all, key);
      }
      if key, k :| 1 <= k <= Extra([r], key) && x == CopyRule(key, k) {
        assert k <= Extra(all, key);
      }
    }
  }

  lemma ExtraOfLast(users: seq<Rule>, r: Rule, key: TableArity)
    ensures Extra(users + [r], key) == Max(Extra(users, key), Surplus(r.body, key))
  {
    assert (users + [r])[..|users|] == users;
  }

  /** No new table that the deleted rule needed is needed by the rules that are left. */
  ghost predicate SharesNoCopy(below: Order, users: seq<Rule>, r: Rule) {
    forall key | Surplus(r.body, key) > 0 :: Extra(WithoutRule(below, users, r), key) == 0
  }

  /** Taking away what one rule needs leaves what the others need exactly if they share no new table with it. */
  lemma RepresentsDelete(below: Order, rules: set<Rule>, users: seq<Rule>, r: Rule, less: set<Rule>)
    requires IsTotalOrder(below) && UserRules(users) && UserRule(r)
    requires Represents(below, rules, users) && Represents(below, less, [r])
    ensures Represents(below, rules - less, WithoutRule(below, users, r)) <==> SharesNoCopy(below, users, r)
  {
    hide IsTotalOrder, UserRule, Kept, CopyRule, Extra, Surplus, WithoutRule;
    if SharesNoCopy(below, users, r) {
      forall x
        ensures x in rules - less <==> IsKept(below, WithoutRule(below, users, r), x)
      {
        StaysIfNotShared(below, users, r, x);
      }
    } else {
      var key :| Surplus(r.body, key) > 0 && Extra(WithoutRule(below, users, r), key) != 0;
      var x := CopyRule(key, 1);
      ExtraOfOne(r, key);
      assert IsCopy([r], x) && IsCopy(WithoutRule(below, users, r), x);
      assert x in less;
    }
  }

  lemma StaysIfNotShared(below: Order, users: seq<Rule>, r: Rule, x: Rule)
    requires IsTotalOrder(below) && UserRules(users) && UserRule(r) && SharesNoCopy(below, users, r)
    ensures IsKept(below, users, x) && !IsKept(below, [r], x) <==> IsKept(below, WithoutRule(below, users, r), x)
  {
    hide IsTotalOrder, UserRule, Kept, CopyRule, Extra, Surplus, WithoutRule;
    var rest := WithoutRule(below, users, r);
    assert r in [r];
    if key, k :| 1 <= k <= Extra(rest, key) && x == CopyRule(key, k) {
      ExtraWithout(below, users, r, key);
      assert IsCopy(users, x);
      KeptIsNoCopy(below, r, key, k);
      if key', k' :| 1 <= k' <= Extra([r], key') && x == CopyRule(key', k') {
        CopyRuleIsInjective(key, k, key', k');
        ExtraOfOne(r, key);
        assert false;
      }
    }
    if u :| u in rest && x == Kept(below, u) {
      WithoutRuleMember(below, users, r, u);
      if key, k :| 1 <= k <= Extra([r], key) && x == CopyRule(key, k) {
        KeptIsNoCopy(below, u, key, k);
      }
    }
    if IsKept(below, users, x) && !IsKept(below, [r], x) {
      if u :| u in users && x == Kept(below, u) {
        WithoutRuleMember(below, users, r, u);
      }
      if key, k :| 1 <= k <= Extra(users, key) && x == CopyRule(key, k) {
        ExtraWithout(below, users, r, key);
        ExtraOfOne(r, key);
        assert !(k <= Extra([r], key));
        assert IsCopy(rest, x);
      }
    }
  }

  // ---------------------------------------------------------------------------
  // Two rules that share a new table

  /** The rule head(x) :- q(x, y), q(y, x). */
  function Symmetric(head: string): Rule {
    var x, y := Variable("x"), Variable("y");
    Rule(Plain(head, [x]), [Plain("q", [x, y]), Plain("q", [y, x])])
  }

  lemma SymmetricNeedsOne(head: string)
    ensures Surplus(Symmetric(head).body, TableArity("q", 2)) == 1
  {
    var body := Symmetric(head).body;
    assert body[..1] == [body[0]] && body[..1][..0] == [];
    assert Count(body[..1], TableArity("q", 2)) == 1;
  }

  /** Deleting p(x) :- q(x, y), q(y, x) takes away the new table that s(x) :- q(x, y), q(y, x) needs. */
  lemma SharedTableIsLost(below: Order, rules: set<Rule>, less: set<Rule>)
    requires IsTotalOrder(below)
    requires Represents(below, rules, [Symmetric("p"), Symmetric("s")]) && Represents(below, less, [Symmetric("p")])
    ensures !Represents(below, rules - less, [Symmetric("s")])
    ensures CopyRule(TableArity("q", 2), 1) !in rules - less
  {
    hide IsTotalOrder, CopyRule, Sort;
    var p, s, key := Symmetric("p"), Symmetric("s"), TableArity("q", 2);
    SymmetricNeedsOne("p");
    SymmetricNeedsOne("s");
    ExtraOfOne(p, key);
    ExtraOfOne(s, key);
    assert IsCopy([p], CopyRule(key, 1)) && IsCopy([s], CopyRule(key, 1));
    assert IsKept(below, [s], CopyRule(key, 1));
    assert CopyRule(key, 1) in less;
  }
}
