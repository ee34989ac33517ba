/**
 Two-sided unification over linked, destructively updated unifiers.

 A variable's identity is its name plus the unifier it lives in. The contents of
 all the unifiers together form a store: a partial map from such nodes to what they
 are bound to. The store must stay acyclic, since looking a term up follows bindings
 until it meets a constant or an unbound node.
 */
module Unify {
  import opened Syntax

  // ---------------------------------------------------------------------------
  // Stores

  datatype Node = Node(unifier: nat, name: string)

  datatype Image = Var(node: Node) | Const(value: Constant)

  type Store = imap<Node, Image>

  /** What one unifying assignment makes of every node; it may itself contain variables. */
  type Assignment = Node -> Image

  ghost predicate Ranked(s: Store, rank: Node -> nat) {
    forall n | n in s && s[n].Var? :: rank(s[n].node) < rank(n)
  }

  ghost predicate Acyclic(s: Store) {
    exists rank: Node -> nat :: Ranked(s, rank)
  }

  ghost function RankOf(s: Store): (rank: Node -> nat)
    requires Acyclic(s)
    ensures Ranked(s, rank)
  {
    var rank: Node -> nat :| Ranked(s, rank);
    rank
  }

  /** Where following the bindings from a node ends. */
  ghost function Root(s: Store, n: Node): Image
    requires Acyclic(s)
    decreases RankOf(s)(n)
  {
    if n !in s then Var(n)
    else match s[n]
      case Const(c) => Const(c)
      case Var(m) => Root(s, m)
  }

  ghost function ImageRoot(s: Store, i: Image): Image
    requires Acyclic(s)
  {
    match i
    case Const(c) => i
    case Var(n) => Root(s, n)
  }

  function Apply(theta: Assignment, i: Image): Image {
    match i
    case Const(c) => i
    case Var(n) => theta(n)
  }

  /** The assignment agrees with every binding of the store. */
  ghost predicate Satisfies(s: Store, theta: Assignment) {
    forall n | n in s :: theta(n) == Apply(theta, s[n])
  }

  function TermImage(t: Term, unifier: nat): Image {
    match t
    case Variable(x) => Var(Node(unifier, x))
    case ObjectConstant(c) => Const(c)
  }

  ghost predicate Unifies(theta: Assignment, terms1: seq<Term>, id1: nat, terms2: seq<Term>, id2: nat)
    requires |terms1| == |terms2|
  {
    forall i | 0 <= i < |terms1| ::
      Apply(theta, TermImage(terms1[i], id1)) == Apply(theta, TermImage(terms2[i], id2))
  }

  lemma {:induction false} RootIsUnbound(s: Store, n: Node)
    requires Acyclic(s)
    ensures Root(s, n).Var? ==> Root(s, n).node !in s
    decreases RankOf(s)(n)
  {
    if n in s && s[n].Var? {
      RootIsUnbound(s, s[n].node);
    }
  }

  /** Every solution of a store factors through its roots. */
  lemma {:induction false} SolutionFactorsThroughRoot(s: Store, theta: Assignment, n: Node)
    requires Acyclic(s) && Satisfies(s, theta)
    ensures theta(n) == Apply(theta, Root(s, n))
    decreases RankOf(s)(n)
  {
    if n in s && s[n].Var? {
      SolutionFactorsThroughRoot(s, theta, s[n].node);
    }
  }

  /** Sending each node to its root is itself a solution: the most general one. */
  lemma RootsSatisfy(s: Store)
    requires Acyclic(s)
    ensures Satisfies(s, n => Root(s, n))
  {
    var theta: Assignment := n => Root(s, n);
    forall n | n in s
      ensures theta(n) == Apply(theta, s[n])
    {}
  }

  /** Binding an unbound node to a constant or to another unbound node keeps the store acyclic. */
  lemma BindKeepsAcyclic(s: Store, n: Node, i: Image)
    requires Acyclic(s) && n !in s
    requires i.Var? ==> i.node !in s && i.node != n
    ensures Acyclic(s[n := i])
  {
    var rank := RankOf(s);
    var lift := if i.Var? then rank(i.node) + 1 else 0;
    var rank': Node -> nat := m => if Root(s, m) == Var(n) then rank(m) + lift else rank(m);
    var s' := s[n := i];
    forall m | m in s' && s'[m].Var?
      ensures rank'(s'[m].node) < rank'(m)
    {
      if m == n {
        assert Root(s, n) == Var(n) && Root(s, i.node) == Var(i.node);
      } else {
        assert Root(s, m) == Root(s, s[m].node);
      }
    }
    assert Ranked(s', rank');
  }

  /** ... and redirects to the new image exactly the nodes that used to end at that node. */
  lemma {:induction false} RootAfterBind(s: Store, n: Node, i: Image, m: Node)
    requires Acyclic(s) && n !in s
    requires i.Var? ==> i.node !in s && i.node != n
    requires Acyclic(s[n := i])
    ensures Root(s[n := i], m) == if Root(s, m) == Var(n) then i else Root(s, m)
    decreases RankOf(s)(m)
  {
    if m in s && s[m].Var? {
      RootAfterBind(s, n, i, s[m].node);
    }
  }

  lemma SatisfiesAfterBind(s: Store, n: Node, i: Image, theta: Assignment)
    requires n !in s
    ensures Satisfies(s[n := i], theta) <==> Satisfies(s, theta) && theta(n) == Apply(theta, i)
  {
    var s' := s[n := i];
    if Satisfies(s', theta) {
      forall m | m in s
        ensures theta(m) == Apply(theta, s[m])
      {
        assert m in s';
      }
      assert n in s';
    }
  }

  // ---------------------------------------------------------------------------
  // Unifier objects

  datatype Value = Value(value: Term, unifier: BiUnifier?)

  datatype Undo = Undo(key: Term, unifier: BiUnifier)

  predicate WellFormedValue(v: Value) {
    v.value.Variable? ==> v.unifier != null
  }

  ghost function ValueImage(v: Value): Image
    requires WellFormedValue(v)
  {
    match v.value
    case Variable(x) => Var(Node(v.unifier.id, x))
    case ObjectConstant(c) => Const(c)
  }

  /** What all unifiers created so far contain, and the store that their contents represent. */
  datatype Memory = Memory(units: seq<BiUnifier>, contents: seq<map<Term, Value>>, store: Store)
  {
    /** A unifier's id is its position. */
    ghost predicate Registered(u: BiUnifier) {
      u.id < |units| && units[u.id] == u
    }

    ghost predicate WellLinked(c: map<Term, Value>) {
      forall t | t in c ::
        && t.Variable?
        && WellFormedValue(c[t])
        && (c[t].value.Variable? ==> Registered(c[t].unifier))
    }

    /** The bindings of the unifier with the given id are those of the store. */
    ghost predicate Represents(id: nat, c: map<Term, Value>)
      requires WellLinked(c)
    {
      && (forall x: string :: Node(id, x) in store <==> Variable(x) in c)
      && (forall x: string | Node(id, x) in store :: store[Node(id, x)] == ValueImage(c[Variable(x)]))
    }

    ghost predicate Valid()
      ensures Valid() ==> Acyclic(store) && |contents| == |units|
      ensures Valid() ==> forall i | 0 <= i < |units| :: units[i].id == i
    {
      && |contents| == |units|
      && (forall i | 0 <= i < |units| ::
            && units[i].id == i
            && WellLinked(contents[i])
            && Represents(i, contents[i]))
      && (forall n | n in store :: n.unifier < |units|)
      && Acyclic(store)
    }

    ghost function Bind(u: BiUnifier, key: Term, v: Value): Memory
      requires u.id < |contents| && key.Variable? && WellFormedValue(v)
    {
      Memory(units,
             contents[u.id := contents[u.id][key := v]],
             store[Node(u.id, key.name) := ValueImage(v)])
    }

    lemma BindIsValid(u: BiUnifier, key: Term, v: Value)
      requires Valid() && Registered(u) && key.Variable? && WellFormedValue(v)
      requires v.value.Variable? ==> Registered(v.unifier)
      requires Acyclic(store[Node(u.id, key.name) := ValueImage(v)])
      ensures Bind(u, key, v).Valid()
    {
      hide Acyclic;
      var m := Bind(u, key, v);
      forall i | 0 <= i < |units|
        ensures m.WellLinked(m.contents[i]) && m.Represents(i, m.contents[i])
      {
        assert Represents(i, contents[i]);
      }
    }

    lemma UnboundKey(u: BiUnifier, key: Term)
      requires Valid() && Registered(u) && key.Variable? && Node(u.id, key.name) !in store
      ensures key !in contents[u.id]
    {
      assert Represents(u.id, contents[u.id]);
    }

    /** Bindings lead only to unifiers that have been created. */
    lemma StoreIsClosed(n: Node)
      requires Valid() && n in store
      ensures n.unifier < |units| && (store[n].Var? ==> store[n].node.unifier < |units|)
    {
      assert Represents(n.unifier, contents[n.unifier]);
    }
  }

  /** Nothing has changed, except that new unifiers without bindings may have been created. */
  ghost predicate Kept(before: Memory, now: Memory) {
    && before.units <= now.units && |now.contents| == |now.units| && |before.contents| == |before.units|
    && now.store == before.store
    && (forall i | 0 <= i < |before.units| :: now.contents[i] == before.contents[i])
    && (forall i | |before.units| <= i < |now.units| :: now.contents[i] == map[] && now.units[i].id == i)
  }

  lemma KeptIsValid(before: Memory, now: Memory)
    requires before.Valid() && Kept(before, now)
    ensures now.Valid()
  {
    hide Acyclic;
    forall i | 0 <= i < |now.units|
      ensures now.units[i].id == i && now.WellLinked(now.contents[i]) && now.Represents(i, now.contents[i])
    {
      if i < |before.units| {
        assert before.Represents(i, before.contents[i]);
        assert now.units[i] == before.units[i];
      }
    }
  }

  lemma KeptIsReflexive(m: Memory)
    requires |m.contents| == |m.units|
    ensures Kept(m, m)
  {}

  lemma KeptIsTransitive(m0: Memory, m1: Memory, m2: Memory)
    requires Kept(m0, m1) && Kept(m1, m2)
    ensures Kept(m0, m2)
  {}

  class Registry {
    ghost var units: seq<BiUnifier>
    ghost var store: Store

    ghost constructor ()
      ensures units == [] && store == imap[] && Valid()
    {
      units, store := [], imap[];
      new;
      assert Ranked(store, n => 0);
    }

    ghost function Snapshot(): (m: Memory)
      reads this, units
      ensures m.units == units && m.store == store && |m.contents| == |units|
    {
      Memory(units, seq(|units|, i requires 0 <= i < |units| reads this, units => units[i].contents), store)
    }

    ghost predicate Valid()
      reads this, units
    {
      Snapshot().Valid()
    }

    ghost function Objects(): set<BiUnifier>
      reads this`units
    {
      set u | u in units
    }

    ghost predicate Registered(u: BiUnifier)
      reads this`units
    {
      u.id < |units| && units[u.id] == u
    }
  }

  method NewBiUnifier(ghost registry: Registry) returns (u: BiUnifier)
    requires registry.Valid()
    modifies registry`units
    ensures fresh(u) && u.id == old(|registry.units|) && registry.units == old(registry.units) + [u]
    ensures Kept(old(registry.Snapshot()), registry.Snapshot()) && registry.Valid()
  {
    hide Memory.Valid;
    u := new BiUnifier(registry);
    registry.units := registry.units + [u];
    KeptIsValid(old(registry.Snapshot()), registry.Snapshot());
  }

  class BiUnifier {
    ghost const id: nat
    var contents: map<Term, Value>

    constructor (ghost registry: Registry)
      ensures id == |registry.units| && contents == map[]
    {
      id := |registry.units|;
      contents := map[];
    }

    method Add(key: Term, value: Term, unifier: BiUnifier?, ghost registry: Registry) returns (undo: Undo)
      requires registry.Valid() && registry.Registered(this)
      requires key.Variable?
      requires value.Variable? ==> unifier != null && registry.Registered(unifier)
      requires Acyclic(registry.store[Node(id, key.name) := ValueImage(Value(value, unifier))])
      modifies this, registry`store
      ensures undo == Undo(key, this)
      ensures registry.Snapshot() == old(registry.Snapshot()).Bind(this, key, Value(value, unifier))
      ensures registry.Valid()
    {
      hide Memory.Valid, Acyclic;
      ghost var m := registry.Snapshot();
      contents := contents[key := Value(value, unifier)];
      undo := Undo(key, this);
      registry.store := registry.store[Node(id, key.name) := ValueImage(Value(value, unifier))];
      assert registry.Snapshot() == m.Bind(this, key, Value(value, unifier));
      m.BindIsValid(this, key, Value(value, unifier));
    }

    method Delete(key: Term)
      modifies this
      ensures contents == old(contents) - {key}
    {
      if key in contents {
        contents := contents - {key};
      }
    }

    /** Follows bindings from a term read in this unifier: the final term and the unifier it lives in. */
    method ApplyFull(term: Term, ghost registry: Registry) returns (result: Term, home: BiUnifier?)
      requires registry.Valid() && registry.Registered(this)
      ensures WellFormedValue(Value(result, home)) && (result.Variable? ==> registry.Registered(home))
      ensures ValueImage(Value(result, home)) == RootOf(registry.store, term, id)
      decreases match term
        case Variable(x) => RankOf(registry.store)(Node(id, x))
        case ObjectConstant(_) => 0
    {
      assert registry.Snapshot().Represents(id, contents);
      if term !in contents {
        return term, this;
      }
      var val := contents[term];
      if val.unifier == null || !val.value.Variable? {
        return val.value, val.unifier;
      }
      result, home := val.unifier.ApplyFull(val.value, registry);
    }
  }

  // ---------------------------------------------------------------------------
  // Unification and undoing

  /** The contents a unifier is left with once the given changes have been taken back, first one first. */
  ghost function Undone(contents: map<Term, Value>, changes: seq<Undo>, u: BiUnifier): map<Term, Value>
    decreases |changes|
  {
    if changes == [] then contents
    else Undone(if changes[0].unifier == u then contents - {changes[0].key} else contents, changes[1..], u)
  }

  lemma {:induction false} UndoneRemovesKeys(contents: map<Term, Value>, key: Term, changes: seq<Undo>, u: BiUnifier)
    ensures Undone(contents - {key}, changes, u) == Undone(contents, changes, u) - {key}
    decreases |changes|
  {
    if changes != [] && changes[0].unifier == u {
      assert contents - {key} - {changes[0].key} == contents - {changes[0].key} - {key};
      UndoneRemovesKeys(contents - {changes[0].key}, key, changes[1..], u);
    } else if changes != [] {
      UndoneRemovesKeys(contents, key, changes[1..], u);
    }
  }

  /** Later changes may be taken back after earlier ones: the order does not matter. */
  lemma {:induction false} UndoneAppend(contents: map<Term, Value>, log: seq<Undo>, more: seq<Undo>, u: BiUnifier)
    ensures Undone(contents, log + more, u) == Undone(Undone(contents, more, u), log, u)
    decreases |log|
  {
    if log == [] {
      assert log + more == more;
    } else {
      assert (log + more)[1..] == log[1..] + more;
      var rest := if log[0].unifier == u then contents - {log[0].key} else contents;
      UndoneAppend(rest, log[1..], more, u);
      if log[0].unifier == u {
        UndoneRemovesKeys(contents, log[0].key, more, u);
      }
    }
  }

  lemma {:induction false} UndoneEmpty(changes: seq<Undo>, u: BiUnifier)
    ensures Undone(map[], changes, u) == map[]
    decreases |changes|
  {
    if changes != [] {
      var empty: map<Term, Value> := map[];
      assert empty - {changes[0].key} == empty;
      UndoneEmpty(changes[1..], u);
    }
  }

  /** Taking the changes back leads from `now` to the contents of `before`, but for new, empty unifiers. */
  ghost predicate TakesBack(before: Memory, changes: seq<Undo>, now: Memory) {
    && before.units <= now.units && |now.contents| == |now.units| && |before.contents| == |before.units|
    && (forall i | 0 <= i < |before.units| :: Undone(now.contents[i], changes, now.units[i]) == before.contents[i])
    && (forall i | |before.units| <= i < |now.units| ::
          Undone(now.contents[i], changes, now.units[i]) == map[] && now.units[i].id == i)
    && (forall change | change in changes :: now.Registered(change.unifier))
  }

  lemma TakesBackNothing(m: Memory)
    requires |m.contents| == |m.units|
    ensures TakesBack(m, [], m)
  {}

  lemma TakesBackBind(m: Memory, u: BiUnifier, key: Term, v: Value)
    requires m.Valid() && m.Registered(u) && key.Variable? && WellFormedValue(v)
    requires Node(u.id, key.name) !in m.store
    ensures TakesBack(m, [Undo(key, u)], m.Bind(u, key, v))
  {
    m.UnboundKey(u, key);
    var log, now := [Undo(key, u)], m.Bind(u, key, v);
    forall i | 0 <= i < |m.units|
      ensures Undone(now.contents[i], log, now.units[i]) == m.contents[i]
    {
      assert Undone(now.contents[i], log, now.units[i]) ==
             Undone(if u == now.units[i] then now.contents[i] - {key} else now.contents[i], [], now.units[i]);
    }
  }

  lemma TakesBackAppend(m0: Memory, log: seq<Undo>, m1: Memory, more: seq<Undo>, m2: Memory)
    requires TakesBack(m0, log, m1) && TakesBack(m1, more, m2)
    ensures TakesBack(m0, log + more, m2)
  {
    forall i | 0 <= i < |m2.units|
      ensures Undone(m2.contents[i], log + more, m2.units[i]) ==
              if i < |m0.units| then m0.contents[i] else map[]
    {
      UndoneAppend(m2.contents[i], log, more, m2.units[i]);
      UndoneEmpty(log, m2.units[i]);
    }
  }

  lemma TakesBackKept(m0: Memory, log: seq<Undo>, m1: Memory, m2: Memory)
    requires TakesBack(m0, log, m1) && Kept(m1, m2)
    ensures TakesBack(m0, log, m2)
  {
    forall i | |m1.units| <= i < |m2.units|
      ensures Undone(m2.contents[i], log, m2.units[i]) == map[]
    {
      UndoneEmpty(log, m2.units[i]);
    }
  }

  /** Deletes the bindings recorded in the changes, which brings the memory back to what it was before them. */
  method UndoAll(changes: seq<Undo>, ghost registry: Registry, ghost before: Memory)
    requires before.Valid() && TakesBack(before, changes, registry.Snapshot())
    modifies registry.units, registry`store
    ensures registry.units == old(registry.units) && registry.store == before.store
    ensures Kept(before, registry.Snapshot()) && registry.Valid()
  {
    hide Memory.Valid;
    ghost var now := registry.Snapshot();
    for i := 0 to |changes|
      invariant forall k | 0 <= k < |registry.units| ::
                  Undone(registry.units[k].contents, changes[i..], registry.units[k]) ==
                  Undone(now.contents[k], changes, registry.units[k])
    {
      assert changes[i..][1..] == changes[i + 1..];
      changes[i].unifier.Delete(changes[i].key);
    }
    registry.store := before.store;
    KeptIsValid(before, registry.Snapshot());
  }

  /** What holds between the stores before and after the terms have been made equal. */
  ghost predicate Unified(before: Store, after: Store, terms1: seq<Term>, id1: nat, terms2: seq<Term>, id2: nat)
    requires |terms1| == |terms2|
  {
    forall theta: Assignment ::
      Satisfies(after, theta) <==> Satisfies(before, theta) && Unifies(theta, terms1, id1, terms2, id2)
  }

  ghost predicate Unifiable(s: Store, terms1: seq<Term>, id1: nat, terms2: seq<Term>, id2: nat) {
    && |terms1| == |terms2|
    && exists theta: Assignment :: Satisfies(s, theta) && Unifies(theta, terms1, id1, terms2, id2)
  }

  ghost function RootOf(s: Store, t: Term, id: nat): Image
    requires Acyclic(s)
  {
    ImageRoot(s, TermImage(t, id))
  }

  lemma UnifiesStep(theta: Assignment, terms1: seq<Term>, id1: nat, terms2: seq<Term>, id2: nat, i: nat)
    requires |terms1| == |terms2| && i < |terms1|
    ensures Unifies(theta, terms1[..i + 1], id1, terms2[..i + 1], id2) <==>
              && Unifies(theta, terms1[..i], id1, terms2[..i], id2)
              && Apply(theta, TermImage(terms1[i], id1)) == Apply(theta, TermImage(terms2[i], id2))
  {
    if Unifies(theta, terms1[..i + 1], id1, terms2[..i + 1], id2) {
      forall j | 0 <= j <= i
        ensures Apply(theta, TermImage(terms1[j], id1)) == Apply(theta, TermImage(terms2[j], id2))
      {
        assert terms1[..i + 1][j] == terms1[j] && terms2[..i + 1][j] == terms2[j];
      }
    }
  }

  lemma ApplyRoot(s: Store, theta: Assignment, t: Term, id: nat)
    requires Acyclic(s) && Satisfies(s, theta)
    ensures Apply(theta, TermImage(t, id)) == Apply(theta, RootOf(s, t, id))
  {
    if t.Variable? {
      SolutionFactorsThroughRoot(s, theta, Node(id, t.name));
    }
  }

  /** `after` has exactly the solutions of `before` that make the two terms equal. */
  ghost predicate Equated(before: Store, after: Store, t1: Term, id1: nat, t2: Term, id2: nat) {
    forall theta: Assignment ::
      Satisfies(after, theta) <==>
        Satisfies(before, theta) && Apply(theta, TermImage(t1, id1)) == Apply(theta, TermImage(t2, id2))
  }

  /** Terms that resolve to the same image are equal in every solution already. */
  lemma EquatedBySkip(s: Store, t1: Term, id1: nat, t2: Term, id2: nat)
    requires Acyclic(s) && RootOf(s, t1, id1) == RootOf(s, t2, id2)
    ensures Equated(s, s, t1, id1, t2, id2)
  {
    forall theta: Assignment | Satisfies(s, theta)
      ensures Apply(theta, TermImage(t1, id1)) == Apply(theta, TermImage(t2, id2))
    {
      ApplyRoot(s, theta, t1, id1);
      ApplyRoot(s, theta, t2, id2);
    }
  }

  /** One of the terms resolves to an unbound node, which gets bound to what the other resolves to. */
  lemma EquatedByBind(s: Store, t1: Term, id1: nat, t2: Term, id2: nat, n: Node, image: Image)
    requires Acyclic(s) && n !in s && (image.Var? ==> image.node !in s && image.node != n)
    requires || (RootOf(s, t1, id1) == Var(n) && RootOf(s, t2, id2) == image)
             || (RootOf(s, t2, id2) == Var(n) && RootOf(s, t1, id1) == image)
    ensures Acyclic(s[n := image])
    ensures Equated(s, s[n := image], t1, id1, t2, id2)
  {
    BindKeepsAcyclic(s, n, image);
    forall theta: Assignment
      ensures Satisfies(s[n := image], theta) <==>
                Satisfies(s, theta) && Apply(theta, TermImage(t1, id1)) == Apply(theta, TermImage(t2, id2))
    {
      SatisfiesAfterBind(s, n, image, theta);
      if Satisfies(s, theta) {
        ApplyRoot(s, theta, t1, id1);
        ApplyRoot(s, theta, t2, id2);
      }
    }
  }

  ghost predicate Clash(s: Store, t1: Term, id1: nat, t2: Term, id2: nat)
    requires Acyclic(s)
  {
    && RootOf(s, t1, id1).Const? && RootOf(s, t2, id2).Const?
    && RootOf(s, t1, id1) != RootOf(s, t2, id2)
  }

  lemma UnifiedNothing(s: Store, terms1: seq<Term>, id1: nat, terms2: seq<Term>, id2: nat)
    ensures Unified(s, s, terms1[..0], id1, terms2[..0], id2)
  {}

  /** An acyclic store has a solution, so terms made equal in one were unifiable. */
  lemma UnifiedIsUnifiable(before: Store, after: Store, terms1: seq<Term>, id1: nat, terms2: seq<Term>, id2: nat)
    requires |terms1| == |terms2| && Acyclic(after)
    requires Unified(before, after, terms1, id1, terms2, id2)
    ensures Unifiable(before, terms1, id1, terms2, id2)
  {
    RootsSatisfy(after);
    var theta: Assignment := n => Root(after, n);
    assert Satisfies(after, theta);
  }

  lemma UnifiedByEquating(before: Store, s: Store, after: Store,
                          terms1: seq<Term>, id1: nat, terms2: seq<Term>, id2: nat, i: nat)
    requires |terms1| == |terms2| && i < |terms1|
    requires Unified(before, s, terms1[..i], id1, terms2[..i], id2)
    requires Equated(s, after, terms1[i], id1, terms2[i], id2)
    ensures Unified(before, after, terms1[..i + 1], id1, terms2[..i + 1], id2)
  {
    forall theta: Assignment
      ensures Satisfies(after, theta) <==>
                Satisfies(before, theta) && Unifies(theta, terms1[..i + 1], id1, terms2[..i + 1], id2)
    {
      UnifiesStep(theta, terms1, id1, terms2, id2, i);
    }
  }

  lemma ClashIsNotUnifiable(before: Store, s: Store, terms1: seq<Term>, id1: nat, terms2: seq<Term>, id2: nat, i: nat)
    requires |terms1| == |terms2| && i < |terms1|
    requires Acyclic(s) && Unified(before, s, terms1[..i], id1, terms2[..i], id2)
    requires Clash(s, terms1[i], id1, terms2[i], id2)
    ensures !Unifiable(before, terms1, id1, terms2, id2)
  {
    forall theta: Assignment | Satisfies(before, theta)
      ensures !Unifies(theta, terms1, id1, terms2, id2)
    {
      if Unifies(theta, terms1, id1, terms2, id2) {
        assert Satisfies(s, theta);
        ApplyRoot(s, theta, terms1[i], id1);
        ApplyRoot(s, theta, terms2[i], id2);
        assert false;
      }
    }
  }

  lemma RootOfIsUnbound(s: Store, t: Term, id: nat)
    requires Acyclic(s)
    ensures RootOf(s, t, id).Var? ==> RootOf(s, t, id).node !in s
  {
    if t.Variable? {
      RootIsUnbound(s, Node(id, t.name));
    }
  }

  predicate BiVarEqual(var1: Term, unifier1: BiUnifier?, var2: Term, unifier2: BiUnifier?) {
    var1 == var2 && unifier1 == unifier2
  }

  /** One round of unification: the change made, if any, or a clash of two constants. */
  method UnifyTerms(term1: Term, unifier1: BiUnifier, term2: Term, unifier2: BiUnifier, ghost registry: Registry)
    returns (ok: bool, log: seq<Undo>)
    requires registry.Valid() && registry.Registered(unifier1) && registry.Registered(unifier2)
    modifies registry.units, registry`store
    ensures registry.Valid()
    ensures ok <==> !Clash(old(registry.store), term1, unifier1.id, term2, unifier2.id)
    ensures ok ==> Equated(old(registry.store), registry.store, term1, unifier1.id, term2, unifier2.id)
    ensures !ok ==> registry.Snapshot() == old(registry.Snapshot())
    ensures registry.units == old(registry.units)
    ensures TakesBack(old(registry.Snapshot()), log, registry.Snapshot())
  {
    hide Acyclic, Equated, Root, Memory.Valid, TakesBack;
    ghost var s, m := registry.store, registry.Snapshot();
    var val1, binding1 := unifier1.ApplyFull(term1, registry);
    var val2, binding2 := unifier2.ApplyFull(term2, registry);
    assert registry.Snapshot() == m;
    RootOfIsUnbound(s, term1, unifier1.id);
    RootOfIsUnbound(s, term2, unifier2.id);
    ok, log := true, [];
    TakesBackNothing(m);
    if val1.Variable? {
      if val2.Variable? && BiVarEqual(val1, binding1, val2, binding2) {
        EquatedBySkip(s, term1, unifier1.id, term2, unifier2.id);
      } else {
        EquatedByBind(s, term1, unifier1.id, term2, unifier2.id,
                      Node(binding1.id, val1.name), ValueImage(Value(val2, binding2)));
        var change := binding1.Add(val1, val2, binding2, registry);
        TakesBackBind(m, binding1, val1, Value(val2, binding2));
        log := [change];
      }
    } else if val2.Variable? {
      EquatedByBind(s, term1, unifier1.id, term2, unifier2.id,
                    Node(binding2.id, val2.name), ValueImage(Value(val1, binding1)));
      var change := binding2.Add(val2, val1, binding1, registry);
      TakesBackBind(m, binding2, val2, Value(val1, binding1));
      log := [change];
    } else if val1 == val2 {
      EquatedBySkip(s, term1, unifier1.id, term2, unifier2.id);
    } else {
      ok := false;
    }
  }

  /**
   Makes two lists of terms equal by binding variables, or answers None.
   The result records the changes, so that they can be undone.
   */
  method BiUnifyLists(terms1: seq<Term>, unifier1: BiUnifier, terms2: seq<Term>, unifier2: BiUnifier,
                      ghost registry: Registry)
    returns (changes: Option<seq<Undo>>)
    requires registry.Valid() && registry.Registered(unifier1) && registry.Registered(unifier2)
    modifies registry.units, registry`store
    ensures registry.Valid() && registry.units == old(registry.units)
    ensures changes.Some? <==> Unifiable(old(registry.store), terms1, unifier1.id, terms2, unifier2.id)
    ensures changes.Some? ==>
              && |terms1| == |terms2|
              && Unified(old(registry.store), registry.store, terms1, unifier1.id, terms2, unifier2.id)
    ensures changes.Some? ==> TakesBack(old(registry.Snapshot()), changes.value, registry.Snapshot())
    ensures changes.None? ==> registry.Snapshot() == old(registry.Snapshot())
  {
    hide Acyclic, Equated, Unified, Clash, Root, Satisfies, Memory.Valid, TakesBack;
    if |terms1| != |terms2| {
      return None;
    }
    ghost var before := registry.Snapshot();
    var log: seq<Undo> := [];
    TakesBackNothing(before);
    UnifiedNothing(before.store, terms1, unifier1.id, terms2, unifier2.id);
    for i := 0 to |terms1|
      invariant registry.Valid() && registry.units == old(registry.units)
      invariant Unified(before.store, registry.store, terms1[..i], unifier1.id, terms2[..i], unifier2.id)
      invariant TakesBack(before, log, registry.Snapshot())
    {
      ghost var m := registry.Snapshot();
      var ok, more := UnifyTerms(terms1[i], unifier1, terms2[i], unifier2, registry);
      if !ok {
        ClashIsNotUnifiable(before.store, m.store, terms1, unifier1.id, terms2, unifier2.id, i);
        UndoAll(log, registry, before);
        return None;
      }
      UnifiedByEquating(before.store, m.store, registry.store, terms1, unifier1.id, terms2, unifier2.id, i);
      TakesBackAppend(before, log, m, more, registry.Snapshot());
      log := log + more;
    }
    assert terms1[..|terms1|] == terms1 && terms2[..|terms2|] == terms2;
    UnifiedIsUnifiable(before.store, registry.store, terms1, unifier1.id, terms2, unifier2.id);
    changes := Some(log);
  }

  /** Tables agree if their names and modals do, and their services where a missing one means the theory. */
  lemma TablesAgree(t: string, t': string, m: Option<string>, m': Option<string>, s: string, s': string, theory: string)
    ensures Tablename(Some(s), t, m).Same(Tablename(Some(s'), t', m'), theory) <==> s == s' && t == t' && m == m'
    ensures Tablename(None, t, m).Same(Tablename(Some(s'), t', m'), theory) <==> theory == s' && t == t' && m == m'
    ensures Tablename(Some(s), t, m).Same(Tablename(None, t', m'), theory) <==> s == theory && t == t' && m == m'
    ensures Tablename(None, t, m).Same(Tablename(None, t', m'), theory) <==> t == t' && m == m'
  {}

  /** As above for atoms, whose tables must agree when a missing service means `theory`. */
  method BiUnifyAtoms(atom1: Literal, unifier1: BiUnifier, atom2: Literal, unifier2: BiUnifier, theory: string,
                      ghost registry: Registry)
    returns (changes: Option<seq<Undo>>)
    requires registry.Valid() && registry.Registered(unifier1) && registry.Registered(unifier2)
    modifies registry.units, registry`store
    ensures registry.Valid() && registry.units == old(registry.units)
    ensures changes.Some? <==>
              && atom1.table.Same(atom2.table, theory)
              && Unifiable(old(registry.store), atom1.arguments, unifier1.id, atom2.arguments, unifier2.id)
    ensures changes.Some? ==>
              && |atom1.arguments| == |atom2.arguments|
              && Unified(old(registry.store), registry.store,
                         atom1.arguments, unifier1.id, atom2.arguments, unifier2.id)
              && TakesBack(old(registry.Snapshot()), changes.value, registry.Snapshot())
    ensures changes.None? ==> registry.Snapshot() == old(registry.Snapshot())
  {
    hide Unifiable, Unified, TakesBack, Memory.Valid;
    if !atom1.table.Same(atom2.table, theory) || |atom1.arguments| != |atom2.arguments| {
      NotUnifiable(registry.store, atom1.arguments, unifier1.id, atom2.arguments, unifier2.id);
      return None;
    }
    changes := BiUnifyLists(atom1.arguments, unifier1, atom2.arguments, unifier2, registry);
  }

  lemma NotUnifiable(s: Store, terms1: seq<Term>, id1: nat, terms2: seq<Term>, id2: nat)
    ensures Unifiable(s, terms1, id1, terms2, id2) ==> |terms1| == |terms2|
  {}
}
