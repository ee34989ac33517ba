/**
 Reordering a rule's body so that evaluating it from left to right is safe.
 The greedy pass succeeds exactly when some order of the literals is safe.
 */
module Reorder {
  import opened Syntax
  import opened Semantics
  import opened Safety

  predicate Reordered(body: seq<Literal>, body': seq<Literal>) {
    multiset(body) == multiset(body')
  }

  ghost predicate CanBeMadeSafe(p: Program, body: seq<Literal>) {
    exists body' :: Reordered(body, body') && SafeBody(p, body')
  }

  // ---------------------------------------------------------------------------
  // The state of the pass

  /** What has been placed is safe; the literals put aside still lack variables. */
  ghost predicate Placed(p: Program, seen: seq<Literal>, newBody: seq<Literal>, unsafe: seq<Literal>) {
    && SafeBody(p, newBody)
    && multiset(newBody) + multiset(unsafe) == multiset(seen)
  }

  /** None of the literals put aside could be placed now. */
  ghost predicate Saturated(p: Program, safeVars: set<string>, unsafe: seq<Literal>) {
    forall lit | lit in unsafe :: !(Needs(p, lit) <= safeVars)
  }

  /** The table of missing variables is up to date as far as the safe variables are concerned. */
  ghost predicate Tracks(p: Program, safeVars: set<string>, unsafe: seq<Literal>, missing: map<Literal, set<string>>) {
    forall lit | lit in unsafe ::
      lit in missing && missing[lit] <= Needs(p, lit) <= missing[lit] + safeVars
  }

  lemma BodyVarsAppend(body: seq<Literal>, lit: Literal)
    ensures BodyVars(body + [lit]) == BodyVars(body) + lit.VariableNames()
  {}

  lemma SafeBodySnoc(p: Program, body: seq<Literal>, lit: Literal)
    ensures SafeBody(p, body + [lit]) <==> SafeBody(p, body) && Needs(p, lit) <= BodyVars(body)
  {
    var all := body + [lit];
    assert forall i | 0 <= i <= |body| :: all[..i] == body[..i];
    if SafeBody(p, all) {
      assert all[|body|] == lit;
      forall i | 0 <= i < |body|
        ensures Needs(p, body[i]) <= BodyVars(body[..i])
      {
        assert all[i] == body[i];
      }
    }
  }

  lemma BodyVarsOfSubmultiset(a: seq<Literal>, b: seq<Literal>)
    requires multiset(a) <= multiset(b)
    ensures BodyVars(a) <= BodyVars(b)
  {
    forall x | x in BodyVars(a)
      ensures x in BodyVars(b)
    {
      var lit :| lit in a && x in lit.VariableNames();
      assert lit in multiset(a);
      assert lit in multiset(b);
    }
  }

  /** Any safe order of the literals stays within what the pass has placed, as far as it goes. */
  lemma {:induction false} SafeOrderStaysPlaced(p: Program, order: seq<Literal>, newBody: seq<Literal>,
                                                unsafe: seq<Literal>, k: nat)
    requires multiset(order) == multiset(newBody) + multiset(unsafe)
    requires SafeBody(p, order) && Saturated(p, BodyVars(newBody), unsafe) && k <= |order|
    ensures multiset(order[..k]) <= multiset(newBody)
    decreases k
  {
    if k > 0 {
      var lit := order[k - 1];
      SafeOrderStaysPlaced(p, order, newBody, unsafe, k - 1);
      BodyVarsOfSubmultiset(order[..k - 1], newBody);
      assert Needs(p, lit) <= BodyVars(newBody);
      OneMorePlaced(order, newBody, unsafe, k);
    }
  }

  lemma OneMorePlaced(order: seq<Literal>, newBody: seq<Literal>, unsafe: seq<Literal>, k: nat)
    requires 0 < k <= |order| && order[k - 1] !in unsafe
    requires multiset(order) == multiset(newBody) + multiset(unsafe)
    requires multiset(order[..k - 1]) <= multiset(newBody)
    ensures multiset(order[..k]) <= multiset(newBody)
  {
    var lit := order[k - 1];
    assert order[..k] == order[..k - 1] + [lit];
    assert order == order[..k] + order[k..];
    assert multiset(order) == multiset(order[..k] + order[k..]) == multiset(order[..k]) + multiset(order[k..]);
    assert multiset(order)[lit] == multiset(order[..k])[lit] + multiset(order[k..])[lit];
    assert multiset(order)[lit] == multiset(newBody)[lit] + multiset(unsafe)[lit];
    assert multiset(unsafe)[lit] == 0;
    forall x
      ensures multiset(order[..k])[x] <= multiset(newBody)[x]
    {
      if x != lit {
        assert multiset(order[..k])[x] == multiset(order[..k - 1])[x];
      }
    }
  }

  lemma LeftoverIsExtra(order: seq<Literal>, newBody: seq<Literal>, unsafe: seq<Literal>)
    requires multiset(order) == multiset(newBody) + multiset(unsafe) && unsafe != []
    ensures !(multiset(order) <= multiset(newBody))
  {
    assert unsafe[0] in multiset(unsafe);
    assert multiset(order)[unsafe[0]] > multiset(newBody)[unsafe[0]];
  }

  /** If literals are left over when the pass ends, no order of the body is safe. */
  lemma LeftoversCannotBeMadeSafe(p: Program, body: seq<Literal>, newBody: seq<Literal>, unsafe: seq<Literal>)
    requires Placed(p, body, newBody, unsafe) && Saturated(p, BodyVars(newBody), unsafe) && unsafe != []
    ensures !CanBeMadeSafe(p, body)
  {
    forall order | Reordered(body, order) && SafeBody(p, order)
      ensures false
    {
      assert order[..|order|] == order;
      LeftoverIsExtra(order, newBody, unsafe);
      SafeOrderStaysPlaced(p, order, newBody, unsafe, |order|);
    }
  }

  lemma PlacedAppend(p: Program, seen: seq<Literal>, newBody: seq<Literal>, unsafe: seq<Literal>, lit: Literal)
    requires Placed(p, seen, newBody, unsafe) && Needs(p, lit) <= BodyVars(newBody)
    ensures Placed(p, seen + [lit], newBody + [lit], unsafe)
  {
    hide SafeBody;
    SafeBodySnoc(p, newBody, lit);
  }

  lemma PlacedAside(p: Program, seen: seq<Literal>, newBody: seq<Literal>, unsafe: seq<Literal>, lit: Literal)
    requires Placed(p, seen, newBody, unsafe)
    ensures Placed(p, seen + [lit], newBody, unsafe + [lit])
  {
    hide SafeBody;
  }

  lemma PlacedMove(p: Program, seen: seq<Literal>, newBody: seq<Literal>, unsafe: seq<Literal>, k: nat)
    requires Placed(p, seen, newBody, unsafe) && k < |unsafe| && Needs(p, unsafe[k]) <= BodyVars(newBody)
    ensures Placed(p, seen, newBody + [unsafe[k]], unsafe[..k] + unsafe[k + 1..])
  {
    hide SafeBody;
    SafeBodySnoc(p, newBody, unsafe[k]);
    assert unsafe == unsafe[..k] + [unsafe[k]] + unsafe[k + 1..];
  }

  lemma TracksGrow(p: Program, safeVars: set<string>, safeVars': set<string>, unsafe: seq<Literal>,
                   unsafe': seq<Literal>, missing: map<Literal, set<string>>)
    requires Tracks(p, safeVars, unsafe, missing) && safeVars <= safeVars'
    requires forall lit | lit in unsafe' :: lit in unsafe
    ensures Tracks(p, safeVars', unsafe', missing)
  {}

  lemma TracksAside(p: Program, safeVars: set<string>, unsafe: seq<Literal>, missing: map<Literal, set<string>>,
                    lit: Literal)
    requires Tracks(p, safeVars, unsafe, missing)
    ensures Tracks(p, safeVars, unsafe + [lit], missing[lit := Needs(p, lit) - safeVars])
  {}

  lemma NothingPlaced(p: Program, body: seq<Literal>)
    ensures Placed(p, body[..0], [], []) && Tracks(p, {}, [], map[]) && Saturated(p, {}, []) && BodyVars([]) == {}
  {}

  lemma PutAsideIsUnsafe(p: Program, body: seq<Literal>, i: nat, safeVars: set<string>, unsafe: seq<Literal>,
                         lit: Literal)
    requires i < |body| && lit == body[i] && !(Needs(p, lit) <= safeVars) && Saturated(p, safeVars, unsafe)
    ensures Saturated(p, safeVars, unsafe + [lit])
    ensures SafeBody(p, body) ==> safeVars != BodyVars(body[..i])
  {}

  lemma AllPlaced(p: Program, body: seq<Literal>, newBody: seq<Literal>)
    requires Placed(p, body, newBody, [])
    ensures Reordered(body, newBody) && SafeBody(p, newBody) && CanBeMadeSafe(p, body)
  {}

  // ---------------------------------------------------------------------------
  // Which order the pass chooses

  /** Each literal chosen is the first of the body that is left and ready. */
  ghost predicate Picks(p: Program, body: seq<Literal>, order: seq<nat>, chosen: seq<Literal>) {
    && |order| == |chosen|
    && forall k | 0 <= k < |order| ::
         && order[k] < |body| && chosen[k] == body[order[k]]
         && forall j | 0 <= j < order[k] && j !in order[..k] :: !CanFollow(p, chosen[..k], body[j])
  }

  /** The body with, again and again, the first literal moved that is ready. */
  ghost predicate TakesFirstReady(p: Program, body: seq<Literal>, body': seq<Literal>) {
    && |body'| == |body|
    && exists order: seq<nat> :: Picks(p, body, order, body') && forall j: nat | j < |body| :: j in order
  }

  /** Of the first `n` literals those put aside are the ones not chosen, in their order. */
  ghost predicate LeftAside(body: seq<Literal>, n: nat, order: seq<nat>, aside: seq<nat>, unsafe: seq<Literal>) {
    && n <= |body| && |aside| == |unsafe|
    && (forall k | 0 <= k < |aside| :: aside[k] < n && unsafe[k] == body[aside[k]] && aside[k] !in order)
    && (forall k, l | 0 <= k < l < |aside| :: aside[k] < aside[l])
    && (forall j | 0 <= j < n :: j in order || j in aside)
    && forall k | 0 <= k < |order| :: order[k] < n
  }

  lemma PicksMore(p: Program, body: seq<Literal>, order: seq<nat>, chosen: seq<Literal>, i: nat)
    requires Picks(p, body, order, chosen) && i < |body|
    requires forall j | 0 <= j < i && j !in order :: !(Needs(p, body[j]) <= BodyVars(chosen))
    ensures Picks(p, body, order + [i], chosen + [body[i]])
  {
    hide CanFollow, Needs, BodyVars;
    var order', chosen' := order + [i], chosen + [body[i]];
    forall k | 0 <= k < |order'|
      ensures chosen'[k] == body[order'[k]]
      ensures forall j | 0 <= j < order'[k] && j !in order'[..k] :: !CanFollow(p, chosen'[..k], body[j])
    {
      if k < |order| {
        assert order'[..k] == order[..k] && chosen'[..k] == chosen[..k];
      } else {
        assert order'[..k] == order && chosen'[..k] == chosen;
        forall j | 0 <= j < i && j !in order
          ensures !CanFollow(p, chosen, body[j])
        {
          CanFollowIsBound(p, chosen, body[j]);
        }
      }
    }
  }

  /** The next literal is placed at once. */
  lemma PlaceNext(p: Program, body: seq<Literal>, n: nat, order: seq<nat>, aside: seq<nat>, unsafe: seq<Literal>,
                  chosen: seq<Literal>)
    requires Picks(p, body, order, chosen) && LeftAside(body, n, order, aside, unsafe) && n < |body|
    requires Saturated(p, BodyVars(chosen), unsafe)
    ensures Picks(p, body, order + [n], chosen + [body[n]]) && LeftAside(body, n + 1, order + [n], aside, unsafe)
  {
    hide CanFollow, Needs, BodyVars, Picks;
    forall j | 0 <= j < n && j !in order
      ensures !(Needs(p, body[j]) <= BodyVars(chosen))
    {
      var k :| 0 <= k < |aside| && aside[k] == j;
      assert unsafe[k] in unsafe;
    }
    PicksMore(p, body, order, chosen, n);
  }

  /** The first literal put aside that is ready is placed. */
  lemma PlaceAside(p: Program, body: seq<Literal>, n: nat, order: seq<nat>, aside: seq<nat>, unsafe: seq<Literal>,
                   chosen: seq<Literal>, k: nat)
    requires Picks(p, body, order, chosen) && LeftAside(body, n, order, aside, unsafe) && k < |aside|
    requires forall j | 0 <= j < k :: !(Needs(p, unsafe[j]) <= BodyVars(chosen))
    ensures Picks(p, body, order + [aside[k]], chosen + [unsafe[k]])
    ensures LeftAside(body, n, order + [aside[k]], aside[..k] + aside[k + 1..], unsafe[..k] + unsafe[k + 1..])
  {
    hide CanFollow, Needs, BodyVars, Picks;
    forall j | 0 <= j < aside[k] && j !in order
      ensures !(Needs(p, body[j]) <= BodyVars(chosen))
    {
      var l :| 0 <= l < |aside| && aside[l] == j;
      assert l < k;
    }
    PicksMore(p, body, order, chosen, aside[k]);
    AsideWithout(body, n, order, aside, unsafe, k);
  }

  lemma AsideWithout(body: seq<Literal>, n: nat, order: seq<nat>, aside: seq<nat>, unsafe: seq<Literal>, k: nat)
    requires LeftAside(body, n, order, aside, unsafe) && k < |aside|
    ensures LeftAside(body, n, order + [aside[k]], aside[..k] + aside[k + 1..], unsafe[..k] + unsafe[k + 1..])
  {
    var aside', unsafe' := aside[..k] + aside[k + 1..], unsafe[..k] + unsafe[k + 1..];
    assert forall l | 0 <= l < |aside'| :: aside'[l] == aside[if l < k then l else l + 1]
                                           && unsafe'[l] == unsafe[if l < k then l else l + 1];
    forall j | 0 <= j < n
      ensures j in order + [aside[k]] || j in aside'
    {
      if j !in order && j != aside[k] {
        StillAside(aside, k, j);
      }
    }
  }

  lemma StillAside(aside: seq<nat>, k: nat, j: nat)
    requires k < |aside| && j in aside && j != aside[k]
    ensures j in aside[..k] + aside[k + 1..]
  {
    var l :| 0 <= l < |aside| && aside[l] == j;
    assert (aside[..k] + aside[k + 1..])[if l < k then l else l - 1] == j;
  }

  lemma PutAside(body: seq<Literal>, n: nat, order: seq<nat>, aside: seq<nat>, unsafe: seq<Literal>)
    requires LeftAside(body, n, order, aside, unsafe) && n < |body|
    ensures LeftAside(body, n + 1, order, aside + [n], unsafe + [body[n]])
  {
    var aside' := aside + [n];
    forall j | 0 <= j < n + 1
      ensures j in order || j in aside'
    {
      if j in aside {
        var l :| 0 <= l < |aside| && aside[l] == j;
        assert aside'[l] == j;
      }
      assert aside'[|aside|] == n;
    }
  }

  lemma AsideIsUnsafe(body: seq<Literal>, n: nat, order: seq<nat>, aside: seq<nat>, unsafe: seq<Literal>)
    requires LeftAside(body, n, order, aside, unsafe)
    ensures |aside| == |unsafe|
  {}

  lemma NothingPicked(p: Program, body: seq<Literal>)
    ensures Picks(p, body, [], []) && LeftAside(body, 0, [], [], [])
  {}

  lemma AllPicked(p: Program, body: seq<Literal>, order: seq<nat>, chosen: seq<Literal>)
    requires Picks(p, body, order, chosen) && LeftAside(body, |body|, order, [], []) && Reordered(body, chosen)
    ensures TakesFirstReady(p, body, chosen)
  {
    assert |multiset(body)| == |body| && |multiset(chosen)| == |chosen|;
    assert Picks(p, body, order, chosen) && forall j: nat | j < |body| :: j in order;
  }

  // ---------------------------------------------------------------------------
  // The pass

  /** The first literal put aside whose missing variables are all safe by now. */
  method FindSafe(p: Program, safeVars: set<string>, unsafe: seq<Literal>, missing: map<Literal, set<string>>)
    returns (k: nat)
    requires Tracks(p, safeVars, unsafe, missing)
    ensures k <= |unsafe|
    ensures k < |unsafe| ==> Needs(p, unsafe[k]) <= safeVars
    ensures forall j | 0 <= j < k :: !(Needs(p, unsafe[j]) <= safeVars)
    ensures k == |unsafe| ==> Saturated(p, safeVars, unsafe)
  {
    k := 0;
    while k < |unsafe|
      invariant 0 <= k <= |unsafe|
      invariant forall j | 0 <= j < k :: !(Needs(p, unsafe[j]) <= safeVars)
    {
      assert unsafe[k] in unsafe;
      if missing[unsafe[k]] <= safeVars {
        return;
      }
      k := k + 1;
    }
  }

  /** Places a literal, and then all literals put aside that this makes safe, one after the other. */
  method MakeSafePlus(p: Program, ghost seen: seq<Literal>, lit: Literal, safeVars0: set<string>,
                      newBody0: seq<Literal>, unsafe0: seq<Literal>, missing: map<Literal, set<string>>,
                      ghost body: seq<Literal>, ghost order0: seq<nat>, ghost aside0: seq<nat>)
    returns (safeVars: set<string>, newBody: seq<Literal>, unsafe: seq<Literal>, ghost order: seq<nat>,
             ghost aside: seq<nat>)
    requires |seen| < |body| && body[|seen|] == lit && Saturated(p, safeVars0, unsafe0)
    requires Picks(p, body, order0, newBody0) && LeftAside(body, |seen|, order0, aside0, unsafe0)
    ensures Picks(p, body, order, newBody) && LeftAside(body, |seen| + 1, order, aside, unsafe)
    requires Placed(p, seen, newBody0, unsafe0) && safeVars0 == BodyVars(newBody0)
    requires Tracks(p, safeVars0, unsafe0, missing) && Needs(p, lit) <= safeVars0
    ensures Placed(p, seen + [lit], newBody, unsafe) && safeVars == BodyVars(newBody)
    ensures Tracks(p, safeVars, unsafe, missing) && Saturated(p, safeVars, unsafe)
    ensures unsafe0 == [] ==> newBody == newBody0 + [lit] && unsafe == []
  {
    hide Placed, Tracks, Saturated, SafeBody, Picks, LeftAside;
    PlaceNext(p, body, |seen|, order0, aside0, unsafe0, newBody0);
    order, aside := order0 + [|seen|], aside0;
    safeVars, newBody, unsafe := safeVars0 + lit.VariableNames(), newBody0 + [lit], unsafe0;
    PlacedAppend(p, seen, newBody0, unsafe0, lit);
    BodyVarsAppend(newBody0, lit);
    TracksGrow(p, safeVars0, safeVars, unsafe0, unsafe, missing);
    var foundSafe := true;
    while foundSafe
      invariant Placed(p, seen + [lit], newBody, unsafe) && safeVars == BodyVars(newBody)
      invariant Tracks(p, safeVars, unsafe, missing)
      invariant !foundSafe ==> Saturated(p, safeVars, unsafe)
      invariant Picks(p, body, order, newBody) && LeftAside(body, |seen| + 1, order, aside, unsafe)
      invariant unsafe0 == [] ==> newBody == newBody0 + [lit] && unsafe == []
      decreases |unsafe|, foundSafe
    {
      foundSafe := false;
      var k := FindSafe(p, safeVars, unsafe, missing);
      if k < |unsafe| {
        var next := unsafe[k];
        AsideIsUnsafe(body, |seen| + 1, order, aside, unsafe);
        PlaceAside(p, body, |seen| + 1, order, aside, unsafe, newBody, k);
        order, aside := order + [aside[k]], aside[..k] + aside[k + 1..];
        PlacedMove(p, seen + [lit], newBody, unsafe, k);
        BodyVarsAppend(newBody, next);
        TracksGrow(p, safeVars, safeVars + next.VariableNames(), unsafe, unsafe[..k] + unsafe[k + 1..], missing);
        unsafe := unsafe[..k] + unsafe[k + 1..];
        safeVars, newBody := safeVars + next.VariableNames(), newBody + [next];
        foundSafe := true;
      }
    }
  }

  /** Moves builtins and negated literals to where their variables are bound, or answers None. */
  method ReorderForSafety(p: Program, rule: Rule) returns (result: Option<Rule>)
    ensures !rule.head.negated ==>
              (result.Some? <==> exists body :: Reordered(rule.body, body) && BoundInTime(p, body))
    ensures !rule.head.negated && result.Some? ==> BoundInTime(p, result.value.body)
    ensures BoundInTime(p, rule.body) ==> result == Some(rule)
    ensures !rule.head.negated && result.Some? ==> TakesFirstReady(p, rule.body, result.value.body)
    ensures !rule.head.negated ==> (result.Some? <==> CanBeMadeSafe(p, rule.body))
    ensures !rule.head.negated && result.Some? ==>
              && result.value.head == rule.head
              && Reordered(rule.body, result.value.body)
              && SafeBody(p, result.value.body)
    ensures SafeBody(p, rule.body) || rule.head.negated ==> result == Some(rule)
  {
    hide Placed, Tracks, Saturated, SafeBody, BoundInTime, Picks, LeftAside, TakesFirstReady;
    forall body
      ensures SafeBody(p, body) <==> BoundInTime(p, body)
    {
      SafeIsBoundInTime(p, body);
    }
    if rule.head.negated {
      return Some(rule);
    }
    var safeVars: set<string>, newBody: seq<Literal>, unsafe: seq<Literal> := {}, [], [];
    var missing: map<Literal, set<string>> := map[];
    NothingPlaced(p, rule.body);
    ghost var order: seq<nat>, aside: seq<nat> := [], [];
    NothingPicked(p, rule.body);
    for i := 0 to |rule.body|
      invariant Placed(p, rule.body[..i], newBody, unsafe) && safeVars == BodyVars(newBody)
      invariant Tracks(p, safeVars, unsafe, missing) && Saturated(p, safeVars, unsafe)
      invariant SafeBody(p, rule.body) ==> newBody == rule.body[..i] && unsafe == []
      invariant Picks(p, rule.body, order, newBody) && LeftAside(rule.body, i, order, aside, unsafe)
    {
      var lit := rule.body[i];
      assert rule.body[..i + 1] == rule.body[..i] + [lit];
      var newUnsafeVars := Needs(p, lit) - safeVars;
      if newUnsafeVars != {} {
        PutAsideIsUnsafe(p, rule.body, i, safeVars, unsafe, lit);
        PlacedAside(p, rule.body[..i], newBody, unsafe, lit);
        TracksAside(p, safeVars, unsafe, missing, lit);
        PutAside(rule.body, i, order, aside, unsafe);
        aside := aside + [i];
        unsafe := unsafe + [lit];
        missing := missing[lit := newUnsafeVars];
      } else {
        assert forall x | x in Needs(p, lit) :: x in safeVars || x in newUnsafeVars;
        safeVars, newBody, unsafe, order, aside :=
          MakeSafePlus(p, rule.body[..i], lit, safeVars, newBody, unsafe, missing, rule.body, order, aside);
      }
    }
    assert rule.body[..|rule.body|] == rule.body;
    if |unsafe| > 0 {
      LeftoversCannotBeMadeSafe(p, rule.body, newBody, unsafe);
      return None;
    }
    AllPlaced(p, rule.body, newBody);
    AsideIsUnsafe(rule.body, |rule.body|, order, aside, unsafe);
    AllPicked(p, rule.body, order, newBody);
    result := Some(rule.(body := newBody));
  }

  // ---------------------------------------------------------------------------
  // What reordering is for

  lemma ReorderedMembers(body: seq<Literal>, body': seq<Literal>, lit: Literal)
    requires Reordered(body, body')
    ensures lit in body <==> lit in body'
  {
    assert lit in multiset(body) <==> lit in multiset(body');
  }

  /** Reordering a body does not change when it is true. */
  lemma ReorderingKeepsMeaning(p: Program, theory: string, body: seq<Literal>, body': seq<Literal>, nu: Valuation)
    requires Nonrecursive(p) && Reordered(body, body')
    ensures AllTrue(p, theory, body, nu) <==> AllTrue(p, theory, body', nu)
  {
    hide LitTrue;
    forall a, b | Reordered(a, b) && AllTrue(p, theory, a, nu)
      ensures AllTrue(p, theory, b, nu)
    {
      forall i | 0 <= i < |b|
        ensures LitTrue(p, theory, b[i], nu)
      {
        ReorderedMembers(a, b, b[i]);
      }
    }
  }

  /** A rule that passes the head check and is reordered never gets top-down evaluation stuck. */
  lemma ReorderedRuleIsSafe(p: Program, rule: Rule, body: seq<Literal>)
    requires !rule.head.negated && rule.head.VariableNames() <= BodyVars(rule.body)
    requires forall lit | lit in rule.body :: WellFormedLiteral(p, lit)
    requires Reordered(rule.body, body) && SafeBody(p, body)
    ensures SafeRule(p, rule.(body := body))
  {
    hide SafeBody, WellFormedLiteral;
    BodyVarsOfSubmultiset(rule.body, body);
    forall lit | lit in body
      ensures WellFormedLiteral(p, lit)
    {
      ReorderedMembers(rule.body, body, lit);
    }
  }
}
