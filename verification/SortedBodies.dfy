/** Rules with sorted bodies: rules that count as equal have the same sorted form. */
module SortedBodies {
  import opened Syntax

  /** The order by which literals are sorted; any total order will do. */
  type Order = (Literal, Literal) -> bool

  ghost predicate IsTotalOrder(below: Order) {
    && (forall a, b :: below(a, b) || below(b, a))
    && (forall a, b | below(a, b) && below(b, a) :: a == b)
    && (forall a, b, c | below(a, b) && below(b, c) :: below(a, c))
  }

  ghost predicate IsSorted(below: Order, body: seq<Literal>) {
    forall i, j | 0 <= i < j < |body| :: below(body[i], body[j])
  }

  ghost predicate AllSorted(below: Order, rules: set<Rule>) {
    forall r | r in rules :: IsSorted(below, r.body)
  }

  function Insert(below: Order, lit: Literal, body: seq<Literal>): seq<Literal> {
    if body == [] || below(lit, body[0]) then [lit] + body else [body[0]] + Insert(below, lit, body[1..])
  }

  function Sort(below: Order, body: seq<Literal>): seq<Literal> {
    if body == [] then [] else Insert(below, body[0], Sort(below, body[1..]))
  }

  function SortedRule(below: Order, r: Rule): Rule {
    r.(body := Sort(below, r.body))
  }

  lemma {:induction false} InsertMembers(below: Order, lit: Literal, body: seq<Literal>)
    ensures multiset(Insert(below, lit, body)) == multiset{lit} + multiset(body)
    decreases |body|
  {
    if body != [] && !below(lit, body[0]) {
      InsertMembers(below, lit, body[1..]);
      assert body == [body[0]] + body[1..];
    }
  }

  lemma Compares(below: Order, a: Literal, b: Literal, c: Literal)
    requires IsTotalOrder(below)
    ensures below(a, b) || below(b, a)
    ensures below(a, b) && below(b, a) ==> a == b
    ensures below(a, b) && below(b, c) ==> below(a, c)
  {}

  lemma {:induction false} InsertSorted(below: Order, lit: Literal, body: seq<Literal>)
    requires IsTotalOrder(below) && IsSorted(below, body)
    ensures IsSorted(below, Insert(below, lit, body))
    decreases |body|
  {
    hide IsTotalOrder;
    if body != [] {
      Compares(below, lit, body[0], lit);
      if below(lit, body[0]) {
        forall j | 0 < j < |body|
          ensures below(lit, body[j])
        {
          Compares(below, lit, body[0], body[j]);
        }
      } else {
        var rest := Insert(below, lit, body[1..]);
        InsertSorted(below, lit, body[1..]);
        InsertMembers(below, lit, body[1..]);
        forall x | x in rest
          ensures below(body[0], x)
        {
          assert x in multiset(rest);
        }
      }
    }
  }

  lemma {:induction false} SortMembers(below: Order, body: seq<Literal>)
    ensures multiset(Sort(below, body)) == multiset(body)
    decreases |body|
  {
    if body != [] {
      SortMembers(below, body[1..]);
      InsertMembers(below, body[0], Sort(below, body[1..]));
      assert body == [body[0]] + body[1..];
    }
  }

  lemma {:induction false} SortIsSorted(below: Order, body: seq<Literal>)
    requires IsTotalOrder(below)
    ensures IsSorted(below, Sort(below, body))
    decreases |body|
  {
    if body != [] {
      SortIsSorted(below, body[1..]);
      InsertSorted(below, body[0], Sort(below, body[1..]));
    }
  }

  lemma FirstIsLeast(below: Order, body: seq<Literal>, x: Literal)
    requires IsSorted(below, body) && x in body
    ensures x == body[0] || below(body[0], x)
  {}

  /** There is only one sorted list with the same members. */
  lemma {:induction false} SortedIsUnique(below: Order, body: seq<Literal>, body': seq<Literal>)
    requires IsTotalOrder(below) && IsSorted(below, body) && IsSorted(below, body')
    requires multiset(body) == multiset(body')
    ensures body == body'
    decreases |body|
  {
    hide IsTotalOrder;
    assert |body| == |multiset(body)| == |multiset(body')| == |body'|;
    if body != [] {
      var a, b := body[0], body'[0];
      assert a in multiset(body') && b in multiset(body);
      Compares(below, a, b, a);
      FirstIsLeast(below, body, b);
      FirstIsLeast(below, body', a);
      assert body == [a] + body[1..] && body' == [b] + body'[1..];
      assert multiset(body[1..]) == multiset(body) - multiset{a};
      assert multiset(body'[1..]) == multiset(body') - multiset{b};
      SortedIsUnique(below, body[1..], body'[1..]);
    }
  }

  lemma SortKeepsSorted(below: Order, body: seq<Literal>)
    requires IsTotalOrder(below) && IsSorted(below, body)
    ensures Sort(below, body) == body
  {
    SortIsSorted(below, body);
    SortMembers(below, body);
    SortedIsUnique(below, Sort(below, body), body);
  }

  /** Rules count as equal exactly if their sorted forms are the same. */
  lemma SameRuleSorted(below: Order, r: Rule, r': Rule)
    requires IsTotalOrder(below)
    ensures SameRule(r, r') <==> SortedRule(below, r) == SortedRule(below, r')
    ensures SameRule(r, SortedRule(below, r)) && IsSorted(below, SortedRule(below, r).body)
  {
    SortMembers(below, r.body);
    SortMembers(below, r'.body);
    SortIsSorted(below, r.body);
    SortIsSorted(below, r'.body);
    if SameRule(r, r') {
      SortedIsUnique(below, Sort(below, r.body), Sort(below, r'.body));
    }
  }
}
