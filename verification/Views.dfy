/**
 Incremental view maintenance as a statement about contents and pending events.

 The invariant: once all pending events are applied in order, the proofs stored for the
 views are exactly those that the current rows and the current rules justify.
 */
module Views {
  import opened Syntax
  import opened Database

  // ---------------------------------------------------------------------------
  // Rules and the proofs they give

  /** A positive literal about a table of this theory, with no meaning of its own. */
  predicate PlainAtom(lit: Literal) {
    && !lit.negated
    && lit.table == Tablename(None, lit.table.table, None)
    && lit.table.table != "true" && lit.table.table != "false"
  }

  /** No table occurs twice with the same number of arguments. */
  predicate NoSelfJoin(body: seq<Literal>) {
    forall i, j | 0 <= i < j < |body| ::
      body[i].table.table != body[j].table.table || |body[i].arguments| != |body[j].arguments|
  }

  predicate PlainRule(r: Rule) {
    && PlainAtom(r.head) && r.body != []
    && (forall lit | lit in r.body :: PlainAtom(lit))
    && r.head.VariableNames() <= BodyVars(r.body)
    && NoSelfJoin(r.body)
  }

  function RuleVars(r: Rule): set<string> {
    r.head.VariableNames() + BodyVars(r.body)
  }

  function AsValuation(b: Binding): Valuation {
    x => if x in b then b[x] else IntegerConstant(0)
  }

  function FactOf(lit: Literal, b: Binding): Fact {
    Fact(lit.table.table, Values(lit.arguments, AsValuation(b)))
  }

  ghost predicate IsProofOf(pr: Proof, f: Fact) {
    pr.binding.Keys == RuleVars(pr.rule) && FactOf(pr.rule.head, pr.binding) == f
  }

  ghost predicate BodyIn(present: iset<Fact>, pr: Proof) {
    forall i | 0 <= i < |pr.rule.body| :: FactOf(pr.rule.body[i], pr.binding) in present
  }

  /** The rules and the rows that are present prove the fact in this way. */
  ghost predicate IsJustified(present: iset<Fact>, rules: set<Rule>, f: Fact, pr: Proof) {
    pr.rule in rules && IsProofOf(pr, f) && BodyIn(present, pr)
  }

  /** The i-th literal of the body is `t`; the others are present. */
  ghost predicate TriggeredAt(present: iset<Fact>, pr: Proof, i: nat, t: Fact) {
    && i < |pr.rule.body|
    && FactOf(pr.rule.body[i], pr.binding) == t
    && forall j | 0 <= j < |pr.rule.body| && j != i :: FactOf(pr.rule.body[j], pr.binding) in present
  }

  ghost predicate Triggered(present: iset<Fact>, rules: set<Rule>, t: Fact, f: Fact, pr: Proof) {
    pr.rule in rules && IsProofOf(pr, f) && exists i: nat :: TriggeredAt(present, pr, i, t)
  }

  // ---------------------------------------------------------------------------
  // The restrictions under which maintenance is correct

  /** All rules that are ever inserted, and ranks that show they are nonrecursive. */
  datatype Setting = Setting(rules: set<Rule>, rank: string -> nat, top: nat)
  {
    ghost predicate IsView(table: string) {
      exists r :: r in rules && r.head.table.table == table
    }

    ghost predicate IsUsed(table: string) {
      exists r, lit :: r in rules && lit in r.body && lit.table.table == table
    }

    /** A view that rules build on has one rule, whose head determines the whole binding. */
    ghost predicate HasSingleProofs(table: string) {
      && (forall r, r' | r in rules && r' in rules && r.head.table.table == table && r'.head.table.table == table ::
            r == r')
      && (forall r | r in rules && r.head.table.table == table :: RuleVars(r) <= r.head.VariableNames())
    }

    ghost predicate Valid() {
      && (forall r | r in rules :: PlainRule(r))
      && (forall r, lit | r in rules && lit in r.body ::
            rank(lit.table.table) < rank(r.head.table.table) <= top)
      && (forall table | IsUsed(table) :: HasSingleProofs(table))
    }

    ghost predicate IsOwnProof(pr: Proof, f: Fact) {
      pr.rule in rules && IsProofOf(pr, f)
    }

    /** Rows of views have proofs, rows of other tables have none. */
    ghost predicate ValidRow(f: Fact, proofs: set<Proof>) {
      if IsView(f.table) then proofs != {} && forall pr | pr in proofs :: IsOwnProof(pr, f)
      else proofs == {}
    }

    ghost predicate ValidContents(c: Contents) {
      forall f | f in c :: ValidRow(f, c[f])
    }

    ghost predicate ValidEvent(e: Event) {
      match e
      case RuleEvent(r, _) => r in rules
      case AtomEvent(ch) => ValidRow(ch.fact, ProofSet(ch.proofs))
    }

    /** Processing an event gives rise only to events of higher levels. */
    ghost function Level(e: Event): nat {
      match e
      case RuleEvent(_, _) => 0
      case AtomEvent(ch) => if IsView(ch.fact.table) then rank(ch.fact.table) + 1 else 1
    }

    ghost predicate ValidQueue(q: seq<Event>) {
      forall e | e in q :: ValidEvent(e)
    }
  }

  lemma UniqueProof(setting: Setting, f: Fact, pr: Proof, pr': Proof)
    requires setting.HasSingleProofs(f.table)
    requires setting.IsOwnProof(pr, f) && setting.IsOwnProof(pr', f)
    ensures pr == pr'
  {
    assert pr.rule == pr'.rule;
    var args := pr.rule.head.arguments;
    forall x | x in pr.binding
      ensures pr.binding[x] == pr'.binding[x]
    {
      var i :| 0 <= i < |args| && args[i] == Variable(x);
      assert Values(args, AsValuation(pr.binding))[i] == Values(args, AsValuation(pr'.binding))[i];
    }
    assert pr.binding == pr'.binding;
  }

  // ---------------------------------------------------------------------------
  // Pending events

  datatype Event = AtomEvent(change: Change) | RuleEvent(rule: Rule, insert: bool)

  ghost function ApplyEvent(c: Contents, e: Event): Contents {
    match e
    case AtomEvent(ch) => Apply(c, ch)
    case RuleEvent(_, _) => c
  }

  /** The contents once all pending changes have been applied, first one first. */
  ghost function Future(c: Contents, q: seq<Event>): Contents
    decreases |q|
  {
    if q == [] then c
    else Future(ApplyEvent(c, q[0]), q[1..])
  }

  lemma {:induction false} FutureAppend(c: Contents, q: seq<Event>, more: seq<Event>)
    ensures Future(c, q + more) == Future(Future(c, q), more)
    decreases |q|
  {
    if q == [] {
      assert q + more == more;
    } else {
      assert (q + more)[1..] == q[1..] + more;
      FutureAppend(ApplyEvent(c, q[0]), q[1..], more);
    }
  }

  ghost predicate HasProof(c: Contents, f: Fact, pr: Proof) {
    f in c && pr in c[f]
  }

  ghost predicate InEvent(e: Event, f: Fact, pr: Proof) {
    e.AtomEvent? && e.change.fact == f && pr in e.change.proofs
  }

  ghost predicate InEvents(q: seq<Event>, f: Fact, pr: Proof) {
    exists i :: 0 <= i < |q| && InEvent(q[i], f, pr)
  }

  /** Changes of one kind, each carrying at least one proof. */
  ghost predicate AllChanges(q: seq<Event>, insert: bool) {
    forall e | e in q :: e.AtomEvent? && e.change.insert == insert && e.change.proofs != []
  }

  /** No proof is carried twice. */
  ghost predicate DisjointProofs(q: seq<Event>) {
    forall i, j, f, pr | 0 <= i < j < |q| && InEvent(q[i], f, pr) :: !InEvent(q[j], f, pr)
  }

  lemma InsertHas(c: Contents, ch: Change, f: Fact, pr: Proof)
    requires ch.insert
    ensures HasProof(Apply(c, ch), f, pr) <==> HasProof(c, f, pr) || InEvent(AtomEvent(ch), f, pr)
  {}

  lemma DeleteHas(c: Contents, ch: Change, f: Fact, pr: Proof)
    requires !ch.insert && ch.proofs != []
    requires forall pr' | pr' in ch.proofs :: HasProof(c, ch.fact, pr')
    ensures HasProof(Apply(c, ch), f, pr) <==> HasProof(c, f, pr) && !InEvent(AtomEvent(ch), f, pr)
  {
    assert ch.proofs[0] in ch.proofs;
    assert forall pr' :: pr' in ProofSet(ch.proofs) <==> pr' in ch.proofs;
    assert ProofSet(ch.proofs) <= c[ch.fact];
    var rest := c[ch.fact] - ProofSet(ch.proofs);
    assert forall pr' | pr' in c[ch.fact] :: pr' in rest || pr' in ch.proofs;
  }

  lemma DeleteAbsent(c: Contents, ch: Change)
    requires !ch.insert && ch.proofs != [] && !HasProof(c, ch.fact, ch.proofs[0])
    ensures Apply(c, ch) == c
  {
    assert ch.proofs[0] in ProofSet(ch.proofs);
  }

  lemma InEventsSplit(q: seq<Event>, f: Fact, pr: Proof)
    requires q != []
    ensures InEvents(q, f, pr) <==> InEvent(q[0], f, pr) || InEvents(q[1..], f, pr)
  {
    if i :| 0 <= i < |q| && InEvent(q[i], f, pr) {
      if i > 0 {
        assert q[1..][i - 1] == q[i];
      }
    }
  }

  lemma {:induction false} FutureOfInserts(c: Contents, q: seq<Event>, f: Fact, pr: Proof)
    requires AllChanges(q, true)
    ensures HasProof(Future(c, q), f, pr) <==> HasProof(c, f, pr) || InEvents(q, f, pr)
    decreases |q|
  {
    if q != [] {
      assert q[0] in q;
      InsertHas(c, q[0].change, f, pr);
      InEventsSplit(q, f, pr);
      FutureOfInserts(Apply(c, q[0].change), q[1..], f, pr);
    }
  }

  lemma {:induction false} FutureOfDeletes(c: Contents, q: seq<Event>, f: Fact, pr: Proof)
    requires AllChanges(q, false) && DisjointProofs(q)
    requires forall f, pr | InEvents(q, f, pr) :: HasProof(c, f, pr)
    ensures HasProof(Future(c, q), f, pr) <==> HasProof(c, f, pr) && !InEvents(q, f, pr)
    decreases |q|
  {
    if q != [] {
      assert q[0] in q;
      var ch := q[0].change;
      forall pr' | pr' in ch.proofs
        ensures HasProof(c, ch.fact, pr')
      {
        assert InEvent(q[0], ch.fact, pr');
        assert InEvents(q, ch.fact, pr');
      }
      DeleteHas(c, ch, f, pr);
      InEventsSplit(q, f, pr);
      forall f', pr' | InEvents(q[1..], f', pr')
        ensures HasProof(Apply(c, ch), f', pr')
      {
        var i :| 0 <= i < |q[1..]| && InEvent(q[1..][i], f', pr');
        assert InEvent(q[i + 1], f', pr');
        assert !InEvent(q[0], f', pr');
        InEventsSplit(q, f', pr');
        DeleteHas(c, ch, f', pr');
      }
      assert DisjointProofs(q[1..]) by {
        forall i, j, f', pr' | 0 <= i < j < |q[1..]| && InEvent(q[1..][i], f', pr')
          ensures !InEvent(q[1..][j], f', pr')
        {
          assert InEvent(q[i + 1], f', pr');
        }
      }
      FutureOfDeletes(Apply(c, ch), q[1..], f, pr);
    }
  }

  lemma {:induction false} FutureOfAbsentDeletes(c: Contents, q: seq<Event>)
    requires AllChanges(q, false)
    requires forall f, pr | InEvents(q, f, pr) :: !HasProof(c, f, pr)
    ensures Future(c, q) == c
    decreases |q|
  {
    if q != [] {
      assert q[0] in q;
      var ch := q[0].change;
      assert InEvent(q[0], ch.fact, ch.proofs[0]);
      assert InEvents(q, ch.fact, ch.proofs[0]);
      DeleteAbsent(c, ch);
      forall f, pr | InEvents(q[1..], f, pr)
        ensures !HasProof(c, f, pr)
      {
        InEventsSplit(q, f, pr);
      }
      FutureOfAbsentDeletes(c, q[1..]);
    }
  }

  // ---------------------------------------------------------------------------
  // What one changed row does to justified proofs

  /** A fact that matches two literals of a body would make it a self-join. */
  lemma TriggeredOnce(r: Rule, b: Binding, i: nat, j: nat)
    requires NoSelfJoin(r.body) && i < |r.body| && j < |r.body| && i != j
    ensures FactOf(r.body[i], b) != FactOf(r.body[j], b)
  {
    var v, v' := Values(r.body[i].arguments, AsValuation(b)), Values(r.body[j].arguments, AsValuation(b));
    assert |v| == |r.body[i].arguments| && |v'| == |r.body[j].arguments|;
  }

  lemma JustifiedAfterInsert(present: iset<Fact>, rules: set<Rule>, t: Fact, f: Fact, pr: Proof)
    requires pr.rule in rules ==> NoSelfJoin(pr.rule.body)
    ensures IsJustified(present + iset{t}, rules, f, pr) <==>
              IsJustified(present, rules, f, pr) || Triggered(present, rules, t, f, pr)
  {
    if IsJustified(present + iset{t}, rules, f, pr) && !IsJustified(present, rules, f, pr) {
      var i :| 0 <= i < |pr.rule.body| && FactOf(pr.rule.body[i], pr.binding) !in present;
      forall j | 0 <= j < |pr.rule.body| && j != i
        ensures FactOf(pr.rule.body[j], pr.binding) in present
      {
        TriggeredOnce(pr.rule, pr.binding, i, j);
      }
      assert TriggeredAt(present, pr, i, t);
    }
  }

  lemma JustifiedAfterDelete(present: iset<Fact>, rules: set<Rule>, t: Fact, f: Fact, pr: Proof)
    ensures IsJustified(present - iset{t}, rules, f, pr) <==>
              IsJustified(present, rules, f, pr) && !Triggered(present, rules, t, f, pr)
  {
    if IsJustified(present, rules, f, pr) && !IsJustified(present - iset{t}, rules, f, pr) {
      var i :| 0 <= i < |pr.rule.body| && FactOf(pr.rule.body[i], pr.binding) !in present - iset{t};
      assert TriggeredAt(present, pr, i, t);
    }
    if i: nat :| TriggeredAt(present, pr, i, t) {
      assert FactOf(pr.rule.body[i], pr.binding) !in present - iset{t};
    }
  }

  lemma TriggeredByAbsent(present: iset<Fact>, rules: set<Rule>, t: Fact, f: Fact, pr: Proof)
    requires t !in present && Triggered(present, rules, t, f, pr)
    ensures !IsJustified(present, rules, f, pr)
  {}

  lemma TriggeredIsJustified(present: iset<Fact>, rules: set<Rule>, t: Fact, f: Fact, pr: Proof)
    requires t in present && Triggered(present, rules, t, f, pr)
    ensures IsJustified(present, rules, f, pr)
  {}

  // ---------------------------------------------------------------------------
  // The invariant

  ghost predicate Consistent(setting: Setting, c: Contents, rules: set<Rule>, q: seq<Event>) {
    forall f: Fact, pr | setting.IsView(f.table) ::
      HasProof(Future(c, q), f, pr) <==> IsJustified(c.Keys, rules, f, pr)
  }

  ghost predicate Invariant(setting: Setting, c: Contents, rules: set<Rule>, q: seq<Event>) {
    && setting.Valid() && rules <= setting.rules
    && setting.ValidContents(c) && setting.ValidQueue(q)
    && Consistent(setting, c, rules, q)
  }

  /** The events that a change to a row gives rise to, with the rows that were present before it. */
  ghost predicate Propagated(setting: Setting, present: iset<Fact>, rules: set<Rule>, ch: Change, more: seq<Event>) {
    && AllChanges(more, ch.insert) && DisjointProofs(more) && setting.ValidQueue(more)
    && forall f, pr :: InEvents(more, f, pr) <==> Triggered(present, rules, ch.fact, f, pr)
  }

  /** The events that inserting or deleting a rule gives rise to. */
  ghost predicate Evaluated(setting: Setting, present: iset<Fact>, r: Rule, insert: bool, more: seq<Event>) {
    && AllChanges(more, insert) && DisjointProofs(more) && setting.ValidQueue(more)
    && forall f, pr :: InEvents(more, f, pr) <==> IsJustified(present, {r}, f, pr)
  }

  lemma ApplyKeepsValid(setting: Setting, c: Contents, ch: Change)
    requires setting.ValidContents(c) && setting.ValidRow(ch.fact, ProofSet(ch.proofs))
    ensures setting.ValidContents(Apply(c, ch))
  {}

  /** Only the changed row can appear or disappear. */
  lemma RowsAfter(c: Contents, ch: Change)
    ensures ch.insert ==> Apply(c, ch).Keys == c.Keys + iset{ch.fact}
    ensures !ch.insert && ch.fact !in c ==> Apply(c, ch) == c
    ensures !ch.insert ==> Apply(c, ch).Keys == c.Keys || Apply(c, ch).Keys == c.Keys - iset{ch.fact}
  {
    var c' := Apply(c, ch);
    if ch.insert {
      assert forall f :: f in c' <==> f in c.Keys + iset{ch.fact};
    }
  }

  /** A row of a table that rules build on has at most one proof, so deleting that deletes the row. */
  lemma DeleteOfUsedRow(setting: Setting, c: Contents, ch: Change)
    requires setting.Valid() && setting.ValidContents(c) && setting.ValidRow(ch.fact, ProofSet(ch.proofs))
    requires !ch.insert && ch.fact in c && setting.IsUsed(ch.fact.table)
    ensures Apply(c, ch).Keys == c.Keys - iset{ch.fact}
  {
    var f, lost := ch.fact, ProofSet(ch.proofs);
    if setting.IsView(f.table) {
      forall pr, pr' | pr in c[f] && pr' in lost
        ensures pr == pr'
      {
        UniqueProof(setting, f, pr, pr');
      }
      var pr :| pr in c[f];
      var pr' :| pr' in lost;
      assert lost <= c[f] && c[f] <= lost;
    }
    assert c[f] - lost == {};
    assert Apply(c, ch) == c - {f};
  }

  lemma TriggeredIsUsed(setting: Setting, present: iset<Fact>, rules: set<Rule>, t: Fact, f: Fact, pr: Proof)
    requires rules <= setting.rules && Triggered(present, rules, t, f, pr)
    ensures setting.IsUsed(t.table)
  {
    var i: nat :| TriggeredAt(present, pr, i, t);
    assert pr.rule.body[i] in pr.rule.body;
  }

  lemma UntriggeredWhenUnused(setting: Setting, present: iset<Fact>, rules: set<Rule>, t: Fact, f: Fact, pr: Proof)
    requires rules <= setting.rules && !setting.IsUsed(t.table)
    ensures !Triggered(present, rules, t, f, pr)
  {
    if Triggered(present, rules, t, f, pr) {
      TriggeredIsUsed(setting, present, rules, t, f, pr);
    }
  }

  lemma NoChanges(q: seq<Event>, insert: bool)
    requires AllChanges(q, insert) && forall f, pr :: !InEvents(q, f, pr)
    ensures q == []
  {
    if q != [] {
      assert q[0] in q;
      assert InEvent(q[0], q[0].change.fact, q[0].change.proofs[0]);
      assert InEvents(q, q[0].change.fact, q[0].change.proofs[0]);
    }
  }

  /** The events that follow from an inserted row add what it newly justifies. */
  lemma InsertStep(setting: Setting, c: Contents, rules: set<Rule>, g: Contents, ch: Change, more: seq<Event>,
                   f: Fact, pr: Proof)
    requires setting.Valid() && rules <= setting.rules && ch.insert
    requires HasProof(g, f, pr) <==> IsJustified(c.Keys, rules, f, pr)
    requires Propagated(setting, c.Keys, rules, ch, more)
    ensures HasProof(Future(g, more), f, pr) <==> IsJustified(Apply(c, ch).Keys, rules, f, pr)
  {
    RowsAfter(c, ch);
    FutureOfInserts(g, more, f, pr);
    JustifiedAfterInsert(c.Keys, rules, ch.fact, f, pr);
  }

  /** The events that follow from a deleted row remove what it alone justified. */
  lemma DeleteStep(setting: Setting, c: Contents, rules: set<Rule>, g: Contents, ch: Change, more: seq<Event>,
                   f: Fact, pr: Proof)
    requires setting.Valid() && rules <= setting.rules && !ch.insert
    requires setting.ValidContents(c) && setting.ValidRow(ch.fact, ProofSet(ch.proofs))
    requires forall f: Fact, pr | setting.IsView(f.table) :: HasProof(g, f, pr) <==> IsJustified(c.Keys, rules, f, pr)
    requires Propagated(setting, c.Keys, rules, ch, more) && setting.IsView(f.table)
    ensures HasProof(Future(g, more), f, pr) <==> IsJustified(Apply(c, ch).Keys, rules, f, pr)
  {
    hide Apply;
    RowsAfter(c, ch);
    forall f, pr | InEvents(more, f, pr)
      ensures setting.IsView(f.table)
    {
      TriggeredIsView(setting, c.Keys, rules, ch.fact, f, pr);
    }
    if ch.fact !in c {
      forall f, pr | InEvents(more, f, pr)
        ensures !HasProof(g, f, pr)
      {
        TriggeredByAbsent(c.Keys, rules, ch.fact, f, pr);
      }
      FutureOfAbsentDeletes(g, more);
    } else if setting.IsUsed(ch.fact.table) {
      DeleteOfUsedRow(setting, c, ch);
      forall f, pr | InEvents(more, f, pr)
        ensures HasProof(g, f, pr)
      {
        TriggeredIsJustified(c.Keys, rules, ch.fact, f, pr);
      }
      FutureOfDeletes(g, more, f, pr);
      JustifiedAfterDelete(c.Keys, rules, ch.fact, f, pr);
    } else {
      forall f, pr
        ensures !InEvents(more, f, pr)
      {
        UntriggeredWhenUnused(setting, c.Keys, rules, ch.fact, f, pr);
      }
      NoChanges(more, ch.insert);
      UntriggeredWhenUnused(setting, c.Keys, rules, ch.fact, f, pr);
      JustifiedAfterDelete(c.Keys, rules, ch.fact, f, pr);
    }
  }

  lemma TriggeredIsView(setting: Setting, present: iset<Fact>, rules: set<Rule>, t: Fact, f: Fact, pr: Proof)
    requires rules <= setting.rules && Triggered(present, rules, t, f, pr)
    ensures setting.IsView(f.table)
  {
    assert pr.rule in setting.rules && pr.rule.head.table.table == f.table;
  }

  lemma ValidQueueAppend(setting: Setting, q: seq<Event>, more: seq<Event>)
    requires setting.ValidQueue(q) && setting.ValidQueue(more)
    ensures setting.ValidQueue(q + more)
  {}

  /** Processing one change of a row keeps the invariant. */
  lemma ChangeStep(setting: Setting, c: Contents, rules: set<Rule>, q: seq<Event>, more: seq<Event>)
    requires Invariant(setting, c, rules, q) && q != [] && q[0].AtomEvent?
    requires Propagated(setting, c.Keys, rules, q[0].change, more)
    ensures Invariant(setting, Apply(c, q[0].change), rules, q[1..] + more)
  {
    hide Setting.Valid, Apply;
    var ch := q[0].change;
    assert q[0] in q;
    var g := Future(c, q);
    FutureAppend(Apply(c, ch), q[1..], more);
    forall f: Fact, pr | setting.IsView(f.table)
      ensures HasProof(Future(g, more), f, pr) <==> IsJustified(Apply(c, ch).Keys, rules, f, pr)
    {
      if ch.insert {
        InsertStep(setting, c, rules, g, ch, more, f, pr);
      } else {
        DeleteStep(setting, c, rules, g, ch, more, f, pr);
      }
    }
    ApplyKeepsValid(setting, c, ch);
    ValidQueueAppend(setting, q[1..], more);
  }

  // ---------------------------------------------------------------------------
  // Without single proofs

  /** A delete removes the row exactly if it takes all its proofs and no others. */
  lemma RowVanishes(c: Contents, ch: Change)
    requires !ch.insert && ch.fact in c
    ensures Apply(c, ch).Keys == c.Keys - iset{ch.fact} <==> c[ch.fact] == ProofSet(ch.proofs)
  {
    if c[ch.fact] == ProofSet(ch.proofs) {
      assert c[ch.fact] - ProofSet(ch.proofs) == {} && Apply(c, ch) == c - {ch.fact};
    } else if ProofSet(ch.proofs) <= c[ch.fact] {
      var rest := c[ch.fact] - ProofSet(ch.proofs);
      assert forall pr | pr in c[ch.fact] :: pr in rest || pr in ProofSet(ch.proofs);
      assert ch.fact in Apply(c, ch).Keys;
    } else {
      assert ch.fact in Apply(c, ch).Keys;
    }
  }

  ghost predicate Untriggered(present: iset<Fact>, rules: set<Rule>, t: Fact) {
    forall f, pr :: !Triggered(present, rules, t, f, pr)
  }

  /**
   Whatever proofs rows may have: processing one delete keeps stored proofs and pending events in
   agreement exactly if the row is absent, or all its proofs are deleted and no others, or nothing is derived from it.
   */
  lemma DeleteIsExact(setting: Setting, c: Contents, rules: set<Rule>, q: seq<Event>, more: seq<Event>)
    requires rules <= setting.rules && Consistent(setting, c, rules, q)
    requires q != [] && q[0].AtomEvent? && !q[0].change.insert
    requires Propagated(setting, c.Keys, rules, q[0].change, more)
    ensures Consistent(setting, Apply(c, q[0].change), rules, q[1..] + more) <==>
              || q[0].change.fact !in c
              || c[q[0].change.fact] == ProofSet(q[0].change.proofs)
              || Untriggered(c.Keys, rules, q[0].change.fact)
  {
    hide Apply, InEvents, Triggered, IsJustified, HasProof;
    var ch := q[0].change;
    var g, c' := Future(c, q), Apply(c, ch);
    FutureAppend(c', q[1..], more);
    RowsAfter(c, ch);
    if ch.fact in c {
      RowVanishes(c, ch);
    }
    forall f, pr
      ensures Triggered(c.Keys, rules, ch.fact, f, pr) ==> setting.IsView(f.table)
      ensures IsJustified(c.Keys - iset{ch.fact}, rules, f, pr) <==>
                IsJustified(c.Keys, rules, f, pr) && !Triggered(c.Keys, rules, ch.fact, f, pr)
    {
      JustifiedAfterDelete(c.Keys, rules, ch.fact, f, pr);
      if Triggered(c.Keys, rules, ch.fact, f, pr) {
        TriggeredIsView(setting, c.Keys, rules, ch.fact, f, pr);
      }
    }
    if ch.fact !in c {
      forall f, pr | Triggered(c.Keys, rules, ch.fact, f, pr)
        ensures !HasProof(g, f, pr)
      {
        TriggeredByAbsent(c.Keys, rules, ch.fact, f, pr);
      }
      FutureOfAbsentDeletes(g, more);
    } else {
      forall f: Fact, pr
        ensures HasProof(Future(g, more), f, pr) <==>
                  HasProof(g, f, pr) && !Triggered(c.Keys, rules, ch.fact, f, pr)
      {
        forall f, pr | InEvents(more, f, pr)
          ensures HasProof(g, f, pr)
        {
          TriggeredIsJustified(c.Keys, rules, ch.fact, f, pr);
        }
        FutureOfDeletes(g, more, f, pr);
      }
      if !Untriggered(c.Keys, rules, ch.fact) {
        var f, pr :| Triggered(c.Keys, rules, ch.fact, f, pr);
        TriggeredIsJustified(c.Keys, rules, ch.fact, f, pr);
        assert !HasProof(Future(g, more), f, pr);
      }
    }
  }

  /** The contents, the rules and the pending events. */
  datatype Stage = Stage(contents: Contents, rules: set<Rule>, queue: seq<Event>)

  /** Processing one event: what follows from it is enqueued, and then it takes effect. */
  ghost predicate Processes(setting: Setting, s: Stage, s': Stage) {
    && s.queue != []
    && match s.queue[0]
       case AtomEvent(ch) =>
         && s'.contents == Apply(s.contents, ch) && s'.rules == s.rules
         && exists more :: Propagated(setting, s.contents.Keys, s.rules, ch, more) && s'.queue == s.queue[1..] + more
       case RuleEvent(r, insert) =>
         && s'.contents == s.contents && s'.rules == ApplyToRules(s.rules, s.queue[0])
         && if s'.rules == s.rules then s'.queue == s.queue[1..]
            else exists more :: Evaluated(setting, s.contents.Keys, r, insert, more) && s'.queue == s.queue[1..] + more
  }

  ghost predicate Reaches(setting: Setting, s: Stage, n: nat, s': Stage)
    decreases n
  {
    if n == 0 then s == s'
    else exists m :: Reaches(setting, s, n - 1, m) && Processes(setting, m, s')
  }

  lemma ReachesNext(setting: Setting, s: Stage, n: nat, m: Stage, s': Stage)
    requires Reaches(setting, s, n, m) && Processes(setting, m, s')
    ensures Reaches(setting, s, n + 1, s')
  {}

  /** Two rules for p, and a rule that uses p: of the two proofs of p(a) one is deleted. */
  datatype TwoProofs = TwoProofs(a: Constant)
  {
    function On(table: string): Literal {
      Literal(Tablename(None, table, None), [Variable("x")], false)
    }

    function FactAt(table: string): Fact {
      Fact(table, [a])
    }

    function RuleOf(head: string, body: string): Rule {
      Rule(On(head), [On(body)])
    }

    function ProofBy(head: string, body: string): Proof {
      Proof(map["x" := a], RuleOf(head, body))
    }

    function Maintained(): Setting {
      Setting({RuleOf("p", "q"), RuleOf("p", "s"), RuleOf("r", "p")},
              table => if table == "r" then 2 else if table == "p" then 1 else 0, 2)
    }

    /** What is stored when q(a) has just been deleted. */
    ghost function Stored(): Contents {
      imap[FactAt("s") := {}, FactAt("p") := {ProofBy("p", "q"), ProofBy("p", "s")}, FactAt("r") := {ProofBy("r", "p")}]
    }

    function Deleted(): Change {
      Change(FactAt("p"), [ProofBy("p", "q")], false)
    }

    lemma OneBinding(present: iset<Fact>, head: string, body: string, f: Fact, pr: Proof)
      requires pr.rule == RuleOf(head, body)
      ensures IsJustified(present, Maintained().rules, f, pr) ==>
                pr.binding.Keys == {"x"} && f == Fact(head, [pr.binding["x"]])
                && Fact(body, [pr.binding["x"]]) in present
    {
      if IsJustified(present, Maintained().rules, f, pr) {
        assert RuleVars(pr.rule) == {"x"} by {
          assert pr.rule.body[0] in pr.rule.body && On(body).arguments[0] in On(body).arguments;
          assert On(head).arguments[0] in On(head).arguments;
        }
        var v := [pr.binding["x"]];
        assert Values(pr.rule.head.arguments, AsValuation(pr.binding)) == v;
        assert Values(pr.rule.body[0].arguments, AsValuation(pr.binding)) == v;
        assert FactOf(pr.rule.body[0], pr.binding) == Fact(body, v);
      }
    }

    lemma IsProof(head: string, body: string)
      ensures IsProofOf(ProofBy(head, body), FactAt(head))
      ensures FactOf(On(body), map["x" := a]) == FactAt(body)
    {
      var pr := ProofBy(head, body);
      assert pr.rule.body[0] in pr.rule.body && On(body).arguments[0] in On(body).arguments;
      assert On(head).arguments[0] in On(head).arguments;
      assert RuleVars(pr.rule) == {"x"};
      assert Values([Variable("x")], AsValuation(pr.binding)) == [a];
    }

    lemma OnlyTheseAreJustified(present: iset<Fact>, f: Fact, pr: Proof)
      requires forall f | f in present :: f.tuple == [a]
      ensures IsJustified(present, Maintained().rules, f, pr) <==>
                || (FactAt("q") in present && f == FactAt("p") && pr == ProofBy("p", "q"))
                || (FactAt("s") in present && f == FactAt("p") && pr == ProofBy("p", "s"))
                || (FactAt("p") in present && f == FactAt("r") && pr == ProofBy("r", "p"))
    {
      hide RuleVars, IsJustified;
      IsJustifiedBy(present, "p", "q");
      IsJustifiedBy(present, "p", "s");
      IsJustifiedBy(present, "r", "p");
      if IsJustified(present, Maintained().rules, f, pr) {
        RuleOfJustified(present, f, pr);
        if pr.rule == RuleOf("p", "q") {
          OneBinding(present, "p", "q", f, pr);
          assert pr.binding == map["x" := a];
        } else if pr.rule == RuleOf("p", "s") {
          OneBinding(present, "p", "s", f, pr);
          assert pr.binding == map["x" := a];
        } else {
          OneBinding(present, "r", "p", f, pr);
          assert pr.binding == map["x" := a];
        }
      }
    }

    lemma RuleOfJustified(present: iset<Fact>, f: Fact, pr: Proof)
      requires IsJustified(present, Maintained().rules, f, pr)
      ensures pr.rule in Maintained().rules
    {}

    lemma IsJustifiedBy(present: iset<Fact>, head: string, body: string)
      requires RuleOf(head, body) in Maintained().rules
      ensures FactAt(body) in present ==>
                IsJustified(present, Maintained().rules, FactAt(head), ProofBy(head, body))
    {
      IsProof(head, body);
    }

    /** But for the two rules for p everything is as maintenance demands. */
    lemma OnlySingleProofsFail()
      ensures !Maintained().HasSingleProofs("p")
      ensures forall r | r in Maintained().rules :: PlainRule(r)
      ensures forall r, lit | r in Maintained().rules && lit in r.body ::
                Maintained().rank(lit.table.table) < Maintained().rank(r.head.table.table) <= Maintained().top
    {
      var p, p' := RuleOf("p", "q"), RuleOf("p", "s");
      assert p in Maintained().rules && p' in Maintained().rules && p.body[0] != p'.body[0];
      forall r | r in Maintained().rules
        ensures PlainRule(r)
      {
        assert r.body[0] in r.body;
        assert r.head.VariableNames() <= r.body[0].VariableNames();
      }
    }

    /** The stored proofs agree with the pending delete; after it has been processed they do not. */
    lemma LoseTooMuch(more: seq<Event>)
      requires Propagated(Maintained(), Stored().Keys, Maintained().rules, Deleted(), more)
      ensures Consistent(Maintained(), Stored(), Maintained().rules, [AtomEvent(Deleted())])
      ensures !Consistent(Maintained(), Apply(Stored(), Deleted()), Maintained().rules, more)
    {
      var setting, c, ch := Maintained(), Stored(), Deleted();
      var q := [AtomEvent(ch)];
      assert q[1..] == [] && [] + more == more;
      var c' := Apply(c, ch);
      assert ProofSet(ch.proofs) == {ProofBy("p", "q")} && c[ch.fact] - ProofSet(ch.proofs) == {ProofBy("p", "s")};
      assert c' == c[ch.fact := {ProofBy("p", "s")}] && Future(c, q) == Future(c', []) == c';
      forall f: Fact, pr
        ensures HasProof(c', f, pr) <==> IsJustified(c.Keys, setting.rules, f, pr)
      {
        OnlyTheseAreJustified(c.Keys, f, pr);
      }
      IsProof("r", "p");
      assert TriggeredAt(c.Keys, ProofBy("r", "p"), 0, ch.fact);
      assert Triggered(c.Keys, setting.rules, ch.fact, FactAt("r"), ProofBy("r", "p"));
      assert FactAt("p") in c'.Keys;
      DeleteIsExact(setting, c, setting.rules, q, more);
    }

    // -------------------------------------------------------------------------
    // How users get there

    function Insertion(table: string): Event {
      AtomEvent(Change(FactAt(table), [], true))
    }

    function Deletion(table: string): Event {
      AtomEvent(Change(FactAt(table), [], false))
    }

    function Derived(head: string, body: string, insert: bool): Event {
      AtomEvent(Change(FactAt(head), [ProofBy(head, body)], insert))
    }

    /** What follows from a change of the fact of a table. */
    function Follows(table: string, insert: bool): seq<Event> {
      if table == "r" then [] else [Derived(if table == "p" then "r" else "p", table, insert)]
    }

    lemma TriggeredIs(present: iset<Fact>, table: string, f: Fact, pr: Proof)
      requires table in {"p", "q", "r", "s"}
      ensures Triggered(present, Maintained().rules, FactAt(table), f, pr) <==>
                && table != "r"
                && var head := if table == "p" then "r" else "p";
                   f == FactAt(head) && pr == ProofBy(head, table)
    {
      if table != "r" {
        var head := if table == "p" then "r" else "p";
        IsProof(head, table);
        assert TriggeredAt(present, ProofBy(head, table), 0, FactAt(table));
      }
      if Triggered(present, Maintained().rules, FactAt(table), f, pr) {
        var i: nat :| TriggeredAt(present, pr, i, FactAt(table));
        var head, body := pr.rule.head.table.table, pr.rule.body[0].table.table;
        assert i == 0 && pr.rule == RuleOf(head, body);
        assert pr.rule.body[0] in pr.rule.body && On(body).arguments[0] in On(body).arguments;
        assert On(head).arguments[0] in On(head).arguments;
        assert RuleVars(pr.rule) == {"x"};
        var v := [pr.binding["x"]];
        assert Values(pr.rule.head.arguments, AsValuation(pr.binding)) == v;
        assert Values(pr.rule.body[0].arguments, AsValuation(pr.binding)) == v;
        assert v[0] == a && pr.binding == map["x" := a];
      }
    }

    /** One change is processed. */
    lemma NextChange(s: Stage, n: nat, m: Stage, table: string, proofs: seq<Proof>, insert: bool, s': Stage)
      requires table in {"p", "q", "r", "s"} && Reaches(Maintained(), s, n, m) && m.rules == Maintained().rules
      requires m.queue != [] && m.queue[0] == AtomEvent(Change(FactAt(table), proofs, insert))
      requires s'.contents == Apply(m.contents, Change(FactAt(table), proofs, insert))
      requires s'.rules == m.rules && s'.queue == m.queue[1..] + Follows(table, insert)
      ensures Reaches(Maintained(), s, n + 1, s')
    {
      hide Reaches, Apply;
      var ch, more := Change(FactAt(table), proofs, insert), Follows(table, insert);
      FollowsIsPropagated(m.contents.Keys, table, proofs, insert);
      assert Processes(Maintained(), m, s');
      ReachesNext(Maintained(), s, n, m, s');
    }

    lemma FollowsIsPropagated(present: iset<Fact>, table: string, proofs: seq<Proof>, insert: bool)
      requires table in {"p", "q", "r", "s"}
      ensures Propagated(Maintained(), present, Maintained().rules, Change(FactAt(table), proofs, insert),
                         Follows(table, insert))
    {
      hide Triggered, Setting.ValidQueue;
      var more := Follows(table, insert);
      forall f, pr
        ensures InEvents(more, f, pr) <==> Triggered(present, Maintained().rules, FactAt(table), f, pr)
      {
        TriggeredIs(present, table, f, pr);
        if table != "r" {
          assert InEvent(more[0], f, pr) <==> f == more[0].change.fact && pr == more[0].change.proofs[0];
        }
      }
      FollowsIsValid(table, insert);
    }

    lemma FollowsIsValid(table: string, insert: bool)
      requires table in {"p", "q", "r", "s"}
      ensures Maintained().ValidQueue(Follows(table, insert))
    {
      if table != "r" {
        var head := if table == "p" then "r" else "p";
        IsProof(head, table);
        assert RuleOf(head, table) in Maintained().rules;
        assert ProofSet([ProofBy(head, table)]) == {ProofBy(head, table)};
      }
    }

    lemma NextRule(s: Stage, n: nat, m: Stage, r: Rule, rest: seq<Event>)
      requires Reaches(Maintained(), s, n, m) && r in Maintained().rules && r !in m.rules && m.contents == imap[]
      requires m.queue == [RuleEvent(r, true)] + rest
      ensures Reaches(Maintained(), s, n + 1, Stage(imap[], m.rules + {r}, rest))
    {
      forall f, pr
        ensures !IsJustified(m.contents.Keys, {r}, f, pr)
      {
        if pr.rule == r {
          assert FactOf(r.body[0], pr.binding) !in m.contents.Keys;
        }
      }
      assert Evaluated(Maintained(), m.contents.Keys, r, true, []);
      assert m.queue[1..] == rest && rest + [] == rest;
      ReachesNext(Maintained(), s, n, m, Stage(imap[], m.rules + {r}, rest));
    }

    function UserEvents(): seq<Event> {
      [RuleEvent(RuleOf("p", "q"), true), RuleEvent(RuleOf("p", "s"), true), RuleEvent(RuleOf("r", "p"), true),
       Insertion("q"), Insertion("s")]
    }

    /** All is well once these events have been processed. */
    ghost function Filled(): Stage {
      Stage(Stored()[FactAt("q") := {}], Maintained().rules, [])
    }

    lemma InsertedRow(c: Contents, f: Fact, proofs: seq<Proof>, all: set<Proof>)
      requires all == (if f in c then c[f] else {}) + ProofSet(proofs)
      ensures Apply(c, Change(f, proofs, true)) == c[f := all]
    {
      if IsNoop(c, Change(f, proofs, true)) {
        assert all == c[f];
      }
    }

    lemma DeletedRow(c: Contents, f: Fact, proofs: seq<Proof>, rest: set<Proof>)
      requires f in c && ProofSet(proofs) <= c[f] && rest == c[f] - ProofSet(proofs)
      ensures Apply(c, Change(f, proofs, false)) == if rest == {} then c - {f} else c[f := rest]
    {}

    lemma OneProof(pr: Proof)
      ensures ProofSet([pr]) == {pr} && ProofSet([]) == {}
    {}

    lemma RulesAreInserted(s: Stage)
      requires s == Stage(imap[], {}, UserEvents())
      ensures Reaches(Maintained(), s, 3, Stage(imap[], Maintained().rules, [Insertion("q"), Insertion("s")]))
    {
      hide Reaches;
      var pq, ps, rp := RuleOf("p", "q"), RuleOf("p", "s"), RuleOf("r", "p");
      assert Reaches(Maintained(), s, 0, s) by {
        NothingProcessed(s);
      }
      assert On("q") != On("s") && On("p") != On("r");
      var facts := [Insertion("q"), Insertion("s")];
      assert s.queue == [RuleEvent(pq, true)] + ([RuleEvent(ps, true), RuleEvent(rp, true)] + facts);
      NextRule(s, 0, s, pq, [RuleEvent(ps, true), RuleEvent(rp, true)] + facts);
      assert [RuleEvent(ps, true), RuleEvent(rp, true)] + facts ==
          [RuleEvent(ps, true)] + ([RuleEvent(rp, true)] + facts);
      NextRule(s, 1, Stage(imap[], {} + {pq}, [RuleEvent(ps, true), RuleEvent(rp, true)] + facts), ps,
               [RuleEvent(rp, true)] + facts);
      NextRule(s, 2, Stage(imap[], {} + {pq} + {ps}, [RuleEvent(rp, true)] + facts), rp, facts);
      assert {} + {pq} + {ps} + {rp} == Maintained().rules;
    }

    lemma NothingProcessed(s: Stage)
      ensures Reaches(Maintained(), s, 0, s)
    {}

    /** Inserting the rules and the facts fills the tables as the rules demand. */
    lemma ReachesFilled()
      ensures Reaches(Maintained(), Stage(imap[], {}, UserEvents()), 9, Filled())
    {
      hide Reaches, Apply, ProofSet, UserEvents;
      var s, rules := Stage(imap[], {}, UserEvents()), Maintained().rules;
      var pq, ps, rp := ProofBy("p", "q"), ProofBy("p", "s"), ProofBy("r", "p");
      var q, t, p, r := FactAt("q"), FactAt("s"), FactAt("p"), FactAt("r");
      var gainP, gainP', gainR := Derived("p", "q", true), Derived("p", "s", true), Derived("r", "p", true);
      OneProof(pq);
      OneProof(ps);
      OneProof(rp);
      RulesAreInserted(s);
      var none: Contents := imap[];
      var s3 := Stage(none, rules, [Insertion("q"), Insertion("s")]);
      var s4 := Stage(none[q := {}], rules, [Insertion("s"), gainP]);
      InsertedRow(none, q, [], {});
      NextChange(s, 3, s3, "q", [], true, s4);
      var s5 := Stage(s4.contents[t := {}], rules, [gainP, gainP']);
      InsertedRow(s4.contents, t, [], {});
      NextChange(s, 4, s4, "s", [], true, s5);
      var s6 := Stage(s5.contents[p := {pq}], rules, [gainP', gainR]);
      InsertedRow(s5.contents, p, [pq], {pq});
      NextChange(s, 5, s5, "p", [pq], true, s6);
      var s7 := Stage(s6.contents[p := {pq, ps}], rules, [gainR, gainR]);
      InsertedRow(s6.contents, p, [ps], {pq, ps});
      NextChange(s, 6, s6, "p", [ps], true, s7);
      var s8 := Stage(s7.contents[r := {rp}], rules, [gainR]);
      InsertedRow(s7.contents, r, [rp], {rp});
      NextChange(s, 7, s7, "r", [rp], true, s8);
      InsertedRow(s8.contents, r, [rp], {rp});
      NextChange(s, 8, s8, "r", [rp], true, Filled());
    }

    lemma FilledIsConsistent()
      ensures Consistent(Maintained(), Filled().contents, Maintained().rules, [])
    {
      var c := Filled().contents;
      assert Future(c, []) == c;
      forall f: Fact, pr
        ensures HasProof(c, f, pr) <==> IsJustified(c.Keys, Maintained().rules, f, pr)
      {
        OnlyTheseAreJustified(c.Keys, f, pr);
      }
    }

    /** What is stored when all that follows from the delete of q(a) has been processed. */
    ghost function Left(): Contents {
      imap[FactAt("s") := {}, FactAt("p") := {ProofBy("p", "s")}]
    }

    /** Then q(a) is deleted: that ends without r(a), though p(a) is still there and justifies it. */
    lemma EndsWithoutView()
      ensures var deleting := Filled().(queue := [Deletion("q")]);
              && Reaches(Maintained(), deleting, 1, Stage(Stored(), Maintained().rules, [AtomEvent(Deleted())]))
              && Reaches(Maintained(), deleting, 3, Stage(Left(), Maintained().rules, []))
      ensures FactAt("r") !in Left()
      ensures IsJustified(Left().Keys, Maintained().rules, FactAt("r"), ProofBy("r", "p"))
    {
      hide Reaches, Apply, ProofSet;
      var s, rules := Filled().(queue := [Deletion("q")]), Maintained().rules;
      var pq, ps, rp := ProofBy("p", "q"), ProofBy("p", "s"), ProofBy("r", "p");
      var q, p, r := FactAt("q"), FactAt("p"), FactAt("r");
      OneProof(pq);
      OneProof(rp);
      NothingProcessed(s);
      assert pq.rule != ps.rule;
      var s1 := Stage(Stored(), rules, [AtomEvent(Deleted())]);
      DeletedRow(s.contents, q, [], {});
      NextChange(s, 0, s, "q", [], false, s1);
      var s2 := Stage(Stored()[p := {ps}], rules, [Derived("r", "p", false)]);
      DeletedRow(Stored(), p, [pq], {ps});
      NextChange(s, 1, s1, "p", [pq], false, s2);
      DeletedRow(s2.contents, r, [rp], {});
      NextChange(s, 2, s2, "r", [rp], false, Stage(Left(), rules, []));
      IsJustifiedBy(Left().Keys, "r", "p");
    }
  }

  // ---------------------------------------------------------------------------
  // Rules

  /** A rule that is already there when inserted, or not there when deleted, changes nothing. */
  lemma RuleNoop(setting: Setting, c: Contents, rules: set<Rule>, q: seq<Event>)
    requires Invariant(setting, c, rules, q) && q != [] && q[0].RuleEvent?
    ensures Invariant(setting, c, rules, q[1..])
  {}

  /** Processing the insertion or deletion of a rule keeps the invariant. */
  lemma RuleStep(setting: Setting, c: Contents, rules: set<Rule>, q: seq<Event>, more: seq<Event>)
    requires Invariant(setting, c, rules, q) && q != [] && q[0].RuleEvent?
    requires q[0].insert <==> q[0].rule !in rules
    requires Evaluated(setting, c.Keys, q[0].rule, q[0].insert, more)
    ensures var rules' := if q[0].insert then rules + {q[0].rule} else rules - {q[0].rule};
            Invariant(setting, c, rules', q[1..] + more)
  {
    hide Setting.Valid;
    var r := q[0].rule;
    var rules' := if q[0].insert then rules + {r} else rules - {r};
    assert q[0] in q;
    var g := Future(c, q);
    FutureAppend(c, q[1..], more);
    forall f: Fact, pr | setting.IsView(f.table)
      ensures HasProof(Future(g, more), f, pr) <==> IsJustified(c.Keys, rules', f, pr)
    {
      if q[0].insert {
        FutureOfInserts(g, more, f, pr);
      } else {
        forall f, pr | InEvents(more, f, pr)
          ensures HasProof(g, f, pr)
        {
          assert pr.rule == r && r in setting.rules && r.head.table.table == f.table;
        }
        FutureOfDeletes(g, more, f, pr);
      }
    }
    ValidQueueAppend(setting, q[1..], more);
  }

  /** The steps in which the example goes wrong are those that keep the invariant in a valid setting. */
  lemma {:induction false} ReachesKeepsInvariant(setting: Setting, s: Stage, n: nat, s': Stage)
    requires Invariant(setting, s.contents, s.rules, s.queue) && Reaches(setting, s, n, s')
    ensures Invariant(setting, s'.contents, s'.rules, s'.queue)
    decreases n
  {
    hide Invariant, Propagated, Evaluated, Apply;
    if n > 0 {
      var m :| Reaches(setting, s, n - 1, m) && Processes(setting, m, s');
      ReachesKeepsInvariant(setting, s, n - 1, m);
      var e := m.queue[0];
      if e.AtomEvent? {
        var more :| Propagated(setting, m.contents.Keys, m.rules, e.change, more) && s'.queue == m.queue[1..] + more;
        ChangeStep(setting, m.contents, m.rules, m.queue, more);
      } else if s'.rules == m.rules {
        RuleNoop(setting, m.contents, m.rules, m.queue);
      } else {
        var more :| Evaluated(setting, m.contents.Keys, e.rule, e.insert, more) && s'.queue == m.queue[1..] + more;
        RuleStep(setting, m.contents, m.rules, m.queue, more);
      }
    }
  }

  // ---------------------------------------------------------------------------
  // When the queue is empty

  /** Once the queue has drained, the stored proofs of every view are exactly the justified ones. */
  lemma DrainedIsJustified(setting: Setting, c: Contents, rules: set<Rule>, f: Fact)
    requires Invariant(setting, c, rules, []) && setting.IsView(f.table)
    ensures f in c <==> exists pr :: IsJustified(c.Keys, rules, f, pr)
    ensures f in c ==> forall pr :: pr in c[f] <==> IsJustified(c.Keys, rules, f, pr)
  {
    assert Future(c, []) == c;
    if f in c {
      var pr :| pr in c[f];
      assert HasProof(c, f, pr);
    }
    forall pr
      ensures HasProof(c, f, pr) <==> IsJustified(c.Keys, rules, f, pr)
    {}
  }

  // ---------------------------------------------------------------------------
  // What the queue does to base rows and to the set of rules

  ghost predicate OnlyViews(setting: Setting, q: seq<Event>) {
    forall e | e in q :: e.AtomEvent? && setting.IsView(e.change.fact.table)
  }

  lemma {:induction false} ViewsLeaveBaseRows(setting: Setting, c: Contents, q: seq<Event>, f: Fact)
    requires OnlyViews(setting, q) && !setting.IsView(f.table)
    ensures f in Future(c, q) <==> f in c
    decreases |q|
  {
    if q != [] {
      assert q[0] in q;
      ViewsLeaveBaseRows(setting, Apply(c, q[0].change), q[1..], f);
    }
  }

  ghost function ApplyToRules(rules: set<Rule>, e: Event): set<Rule> {
    match e
    case AtomEvent(_) => rules
    case RuleEvent(r, insert) => if insert then rules + {r} else rules - {r}
  }

  ghost function RulesAfter(rules: set<Rule>, q: seq<Event>): set<Rule>
    decreases |q|
  {
    if q == [] then rules
    else RulesAfter(ApplyToRules(rules, q[0]), q[1..])
  }

  lemma {:induction false} RulesAfterAppend(rules: set<Rule>, q: seq<Event>, more: seq<Event>)
    ensures RulesAfter(rules, q + more) == RulesAfter(RulesAfter(rules, q), more)
    decreases |q|
  {
    if q == [] {
      assert q + more == more;
    } else {
      assert (q + more)[1..] == q[1..] + more;
      RulesAfterAppend(ApplyToRules(rules, q[0]), q[1..], more);
    }
  }

  lemma {:induction false} ViewsLeaveRules(setting: Setting, rules: set<Rule>, q: seq<Event>)
    requires OnlyViews(setting, q)
    ensures RulesAfter(rules, q) == rules
    decreases |q|
  {
    if q != [] {
      assert q[0] in q;
      ViewsLeaveRules(setting, rules, q[1..]);
    }
  }

  /** Events without proofs in common with triggered ones: each carries a triggered proof, so its level is higher. */
  lemma PropagatedLevels(setting: Setting, present: iset<Fact>, rules: set<Rule>, ch: Change, more: seq<Event>,
                         e: Event)
    requires setting.Valid() && rules <= setting.rules && Propagated(setting, present, rules, ch, more) && e in more
    ensures setting.Level(e) > setting.Level(AtomEvent(ch)) && setting.IsView(e.change.fact.table)
  {
    var i :| 0 <= i < |more| && more[i] == e;
    var pr := e.change.proofs[0];
    assert InEvent(more[i], e.change.fact, pr);
    assert InEvents(more, e.change.fact, pr);
    TriggeredIsView(setting, present, rules, ch.fact, e.change.fact, pr);
    var j: nat :| TriggeredAt(present, pr, j, ch.fact);
    assert pr.rule.body[j] in pr.rule.body;
  }

  lemma EvaluatedLevels(setting: Setting, present: iset<Fact>, r: Rule, insert: bool, more: seq<Event>, e: Event)
    requires setting.Valid() && r in setting.rules && Evaluated(setting, present, r, insert, more) && e in more
    ensures setting.Level(e) > 0 && setting.IsView(e.change.fact.table)
  {
    var i :| 0 <= i < |more| && more[i] == e;
    var pr := e.change.proofs[0];
    assert InEvent(more[i], e.change.fact, pr);
    assert InEvents(more, e.change.fact, pr);
  }

  lemma LevelBound(setting: Setting, e: Event)
    requires setting.Valid()
    ensures setting.Level(e) <= setting.top + 1
  {
    if e.AtomEvent? && setting.IsView(e.change.fact.table) {
      var r :| r in setting.rules && r.head.table.table == e.change.fact.table;
      assert PlainRule(r) && r.body[0] in r.body;
    }
  }

  /** Changes of base rows, and rules, can be enqueued at any time. */
  lemma EnqueueKeepsInvariant(setting: Setting, c: Contents, rules: set<Rule>, q: seq<Event>, e: Event)
    requires Invariant(setting, c, rules, q) && setting.ValidEvent(e)
    requires e.AtomEvent? ==> !setting.IsView(e.change.fact.table)
    ensures Invariant(setting, c, rules, q + [e])
  {
    hide Setting.Valid;
    FutureAppend(c, q, [e]);
    var g := Future(c, q);
    assert [e][1..] == [];
    forall f: Fact, pr | setting.IsView(f.table)
      ensures HasProof(Future(g, [e]), f, pr) <==> HasProof(g, f, pr)
    {
      match e
      case RuleEvent(_, _) =>
        assert Future(g, [e]) == Future(g, []);
      case AtomEvent(ch) =>
        assert Future(g, [e]) == Future(Apply(g, ch), []);
        assert f != ch.fact;
    }
  }
}
