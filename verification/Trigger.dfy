/** Matching the trigger of a delta rule against a changed row. */
module Trigger {
  import opened Syntax
  import opened Unify
  import opened StoredProgram

  type Bindings = map<string, Constant>

  ghost predicate Agrees(nu: Valuation, b: Bindings) {
    forall x | x in b :: nu(x) == b[x]
  }

  /** A valuation, read as an assignment to the nodes of all unifiers. */
  ghost function AsAssignment(nu: Valuation): Assignment {
    (n: Node) => Const(nu(n.name))
  }

  lemma MatchUnifies(args: seq<Term>, tuple: seq<Constant>, nu: Valuation)
    requires Values(args, nu) == tuple
    ensures Unifiable(imap[], args, 0, ConstantTerms(tuple), 1)
  {
    var theta, terms := AsAssignment(nu), ConstantTerms(tuple);
    assert |args| == |Values(args, nu)| == |terms|;
    forall i | 0 <= i < |args|
      ensures Apply(theta, TermImage(args[i], 0)) == Apply(theta, TermImage(terms[i], 1))
    {
      assert Values(args, nu)[i] == tuple[i];
    }
    assert Satisfies(imap[], theta);
  }

  /** After unification every argument resolves to the value at its position. */
  lemma ResolvesToTuple(s: Store, args: seq<Term>, tuple: seq<Constant>, i: nat)
    requires Acyclic(s) && |args| == |tuple| && i < |args|
    requires Unified(imap[], s, args, 0, ConstantTerms(tuple), 1)
    ensures RootOf(s, args[i], 0) == Const(tuple[i])
  {
    RootsSatisfy(s);
    var theta: Assignment := n => Root(s, n);
    assert Unifies(theta, args, 0, ConstantTerms(tuple), 1);
    assert Apply(theta, TermImage(args[i], 0)) == Apply(theta, TermImage(ConstantTerms(tuple)[i], 1));
  }

  /** What the trigger's variables resolve to determines the valuations that match. */
  lemma MatchesAgree(s: Store, args: seq<Term>, tuple: seq<Constant>, b: Bindings, nu: Valuation)
    requires Acyclic(s) && |args| == |tuple| && b.Keys == TermVars(args)
    requires Unified(imap[], s, args, 0, ConstantTerms(tuple), 1)
    requires forall x | x in b :: Root(s, Node(0, x)) == Const(b[x])
    ensures Values(args, nu) == tuple <==> Agrees(nu, b)
  {
    hide Unified, Acyclic, Root;
    forall i | 0 <= i < |args|
      ensures args[i].Variable? ==> args[i].name in b && b[args[i].name] == tuple[i]
      ensures args[i].ObjectConstant? ==> args[i].value == tuple[i]
    {
      ResolvesToTuple(s, args, tuple, i);
    }
    if Values(args, nu) == tuple {
      forall x | x in b
        ensures nu(x) == b[x]
      {
        var i :| 0 <= i < |args| && args[i].Variable? && args[i].name == x;
        assert Values(args, nu)[i] == tuple[i];
      }
    }
  }

  /** The bindings of the trigger's variables under which it denotes the row, or None if there are none. */
  method MatchTrigger(trigger: Literal, table: string, tuple: seq<Constant>, theory: string)
    returns (b: Option<Bindings>)
    requires trigger.table == Tablename(None, table, None)
    ensures b.Some? ==> b.value.Keys == trigger.VariableNames()
    ensures b.Some? ==> forall nu: Valuation :: Values(trigger.arguments, nu) == tuple <==> Agrees(nu, b.value)
    ensures b.None? ==> forall nu: Valuation :: Values(trigger.arguments, nu) != tuple
  {
    hide Memory.Valid, Acyclic, Unified, Root, Kept, TakesBack, Unifiable;
    var args, fact := trigger.arguments, Literal(trigger.table, ConstantTerms(tuple), false);
    ghost var registry := new Registry();
    var binding := NewBiUnifier(registry);
    var event := NewBiUnifier(registry);
    var undo := BiUnifyAtoms(trigger, binding, fact, event, theory, registry);
    if undo == None {
      forall nu: Valuation
        ensures Values(args, nu) != tuple
      {
        if Values(args, nu) == tuple {
          MatchUnifies(args, tuple, nu);
        }
      }
      return None;
    }
    ghost var s := registry.store;
    var found: Bindings := map[];
    for i := 0 to |args|
      invariant registry.Valid() && registry.Registered(binding) && registry.store == s
      invariant found.Keys == TermVars(args[..i])
      invariant forall x | x in found :: Root(s, Node(0, x)) == Const(found[x])
    {
      assert args[..i + 1] == args[..i] + [args[i]];
      ResolvesToTuple(s, args, tuple, i);
      if args[i].Variable? {
        var value, _ := binding.ApplyFull(args[i], registry);
        found := found[args[i].name := value.value];
      }
    }
    assert args[..|args|] == args;
    forall nu: Valuation
      ensures Values(args, nu) == tuple <==> Agrees(nu, found)
    {
      MatchesAgree(s, args, tuple, found, nu);
    }
    b := Some(found);
  }
}
