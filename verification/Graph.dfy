/** A directed graph that searches itself depth first. */
module Graph {
  import opened Syntax
  import opened Walks
  import opened Stratify

  /** When the search began and ended at a node, if it did. */
  datatype DfsData = DfsData(begin: Option<nat>, end: Option<nat>)

  const UNSEEN: DfsData := DfsData(None, None)

  /** Consecutive nodes are joined by edges. */
  ghost predicate IsPath(es: set<Edge>, path: seq<string>) {
    forall i | 0 <= i < |path| - 1 :: Joined(es, path[i], path[i + 1])
  }

  ghost predicate Joined(es: set<Edge>, a: string, b: string) {
    exists e :: e in es && e.source == a && e.target == b
  }

  ghost predicate NoRepeats(path: seq<string>) {
    forall i, j | 0 <= i < j < |path| :: path[i] != path[j]
  }

  /** From the target back to it, without meeting any node twice on the way. */
  ghost predicate IsSimpleCycle(es: set<Edge>, target: string, path: seq<string>) {
    && |path| >= 2 && path[0] == path[|path| - 1] == target
    && IsPath(es, path) && NoRepeats(path[..|path| - 1])
  }

  ghost predicate AllSimpleCycles(es: set<Edge>, target: Option<string>, paths: seq<seq<string>>) {
    forall path | path in paths :: target.Some? && IsSimpleCycle(es, target.value, path)
  }

  /**
   The state of the stack when the search arrives at a node: a path of distinct, begun nodes, from the
   target if any.
   */
  ghost predicate IsStack(es: set<Edge>, begun: set<string>, target: Option<string>, stack: seq<string>, node: string) {
    && IsPath(es, stack + [node]) && NoRepeats(stack)
    && (forall n | n in stack :: n in begun)
    && (target.Some? ==> (stack + [node])[0] == target.value)
  }

  class Graph {
    var nodes: map<string, DfsData>
    var edges: Adjacency
    var counter: nat
    var targetPaths: seq<seq<string>>
    /** The cycles found, each a set of edges with the path it was found as; None if not known. */
    var cycles: Option<map<set<(string, string)>, seq<string>>>

    constructor ()
      ensures nodes == map[] && edges == map[] && cycles == None
    {
      nodes, edges, counter, targetPaths, cycles := map[], map[], 0, [], None;
    }

    ghost predicate Valid()
      reads this
    {
      Closed(nodes.Keys, edges)
    }

    ghost function Edges(): set<Edge>
      reads this
    {
      EdgeSet(edges)
    }

    ghost function Begun(): set<string>
      reads this
    {
      State().Begun()
    }

    method NextCounter() returns (r: nat)
      modifies this`counter
      ensures r == old(counter) && counter == old(counter) + 1
    {
      counter := counter + 1;
      r := counter - 1;
    }

    ghost function State(): Search
      reads this
    {
      Search(nodes, counter, targetPaths)
    }

    /** Searches everything that can be reached from the node and has not been seen before. */
    method Dfs(node: string, target: Option<string>, stack: seq<string>)
      requires Valid() && node in nodes && IsStack(Edges(), Begun(), target, stack, node)
      modifies this`nodes, this`counter, this`targetPaths
      ensures Advanced(Edges(), target, node, old(State()), State(), {})
      ensures node in Begun()
      ensures target == Some(node) && stack != [] ==> |targetPaths| > |old(targetPaths)|
      decreases nodes.Keys - Begun()
    {
      hide IsStack, IsSimpleCycle, EdgeSet, Advanced, Search.Begun;
      ghost var es, before := Edges(), State();
      var dfsStack := stack + [node];
      AdvancedNothing(es, target, node, before);
      if target == Some(node) && |dfsStack| > 1 {
        StackClosesCycle(es, Begun(), target, stack, node);
        targetPaths := targetPaths + [dfsStack];
        AdvancedByPath(es, target, node, before, dfsStack);
      }
      State().BegunMember(node);
      if nodes[node].begin == None {
        var begin := NextCounter();
        nodes := nodes[node := DfsData(Some(begin), nodes[node].end)];
        AdvancedByBegin(es, target, node, before, State());
        if node in edges {
          var rest := edges[node];
          while rest != {}
            invariant rest <= edges[node]
            invariant Advanced(es, target, node, before, State(), {node})
            invariant nodes.Keys == before.nodes.Keys && before.Begun() + {node} <= Begun()
            invariant nodes[node].begin == Some(begin) && before.counter <= begin < counter
            invariant |targetPaths| >= |before.paths|
            invariant target == Some(node) && stack != [] ==> |targetPaths| > |before.paths|
            invariant forall e | e in edges[node] - rest ::
                        e.node in Begun() && (target == Some(e.node) ==> |targetPaths| > |before.paths|)
          {
            var e :| e in rest;
            rest := rest - {e};
            ghost var now := State();
            EdgeIn(edges, node, e);
            StackGrows(es, before.Begun(), Begun(), target, stack, node, Edge(node, e.node, e.tag));
            Dfs(e.node, target, dfsStack);
            AdvancedKeeps(es, target, e.node, now, State(), {});
            AdvancedByChild(es, target, before, now, State(), Edge(node, e.node, e.tag));
          }
        }
        SuccessorsOf(edges, node);
        ghost var now := State();
        var end := NextCounter();
        nodes := nodes[node := DfsData(nodes[node].begin, Some(end))];
        AdvancedByEnd(es, target, node, before, now, State());
      }
    }

    method ResetDfsData()
      modifies this`nodes, this`counter, this`targetPaths
      ensures nodes.Keys == old(nodes.Keys) && State().Begun() == {}
      ensures counter == 0 && targetPaths == []
    {
      nodes := map n | n in nodes :: UNSEEN;
      counter, targetPaths := 0, [];
    }

    method Reset()
      modifies this
      ensures nodes.Keys == old(nodes.Keys) && edges == old(edges) && State().Begun() == {}
      ensures counter == 0 && targetPaths == [] && cycles == Some(map[])
    {
      ResetDfsData();
      cycles := Some(map[]);
    }

    /** Afterwards exactly what can be reached from the roots has been seen. */
    method DepthFirstSearch(roots: seq<string>)
      requires Valid()
      modifies this
      ensures Valid() && nodes.Keys == old(nodes.Keys) && edges == old(edges) && cycles == Some(map[])
      ensures forall n | n in nodes :: nodes[n].begin.Some? <==> IsReachable(Edges(), nodes.Keys, roots, n)
    {
      hide EdgeSet, Advanced, Search.Begun, IsSimpleCycle, IsStack, IsReachable, Reaches, ClosedUnder;
      NothingSeen(EdgeSet(edges), nodes.Keys, roots);
      Reset();
      ghost var es, start := Edges(), State();
      for i := 0 to |roots|
        invariant nodes.Keys == start.nodes.Keys && edges == old(edges) && cycles == Some(map[])
        invariant ClosedUnder(es, Begun())
        invariant forall n | n in Begun() :: IsReachable(es, nodes.Keys, roots[..i], n)
        invariant forall r | r in roots[..i] && r in nodes :: r in Begun()
      {
        ghost var now := State();
        State().BegunMember(roots[i]);
        if roots[i] in nodes && nodes[roots[i]].begin == None {
          EmptyStack(es, Begun(), None, roots[i]);
          Dfs(roots[i], None, []);
          SeenFromRoot(es, None, roots[i], now, State());
        }
        NextRoot(es, nodes.Keys, roots, i, now.Begun(), Begun());
      }
      assert roots[..|roots|] == roots;
      forall n | n in nodes
        ensures nodes[n].begin.Some? <==> IsReachable(es, nodes.Keys, roots, n)
      {
        State().BegunMember(n);
        ReachableIsSeen(es, nodes.Keys, roots, Begun(), n);
      }
    }

    /** The nodes that can be reached from the roots. Whatever cycles were known, none are known afterwards. */
    method FindReachableNodes(roots: seq<string>) returns (result: set<string>)
      requires Valid()
      modifies this
      ensures Valid() && nodes.Keys == old(nodes.Keys) && edges == old(edges)
      ensures cycles == if roots == [] then old(cycles) else Some(map[])
      ensures forall n :: n in result <==> n in nodes && IsReachable(Edges(), nodes.Keys, roots, n)
    {
      if |roots| == 0 {
        return {};
      }
      DepthFirstSearch(roots);
      result := set n | n in nodes && nodes[n].begin.Some?;
      nodes := map n | n in nodes :: UNSEEN;
    }

    method InvertedEdgeGraph() returns (inverted: Graph)
      requires Valid()
      ensures fresh(inverted) && inverted.Valid() && inverted.nodes == nodes
      ensures forall a, b :: Joined(inverted.Edges(), a, b) <==> Joined(Edges(), b, a)
    {
      hide EdgeSet, Inverts;
      inverted := new Graph();
      inverted.nodes := nodes;
      var rest := edges.Keys;
      ghost var done: set<string> := {};
      InvertsNothing(edges);
      while rest != {}
        invariant rest <= edges.Keys && done == edges.Keys - rest
        invariant inverted.nodes == nodes && Closed(nodes.Keys, inverted.edges)
        invariant Inverts(edges, done, "", {}, inverted.edges)
      {
        var source :| source in rest;
        rest := rest - {source};
        var out := edges[source];
        ghost var part: set<EdgeData> := {};
        InvertsSource(edges, done, source, inverted.edges);
        while out != {}
          invariant out <= edges[source] && part == edges[source] - out
          invariant inverted.nodes == nodes && Closed(nodes.Keys, inverted.edges)
          invariant Inverts(edges, done, source, part, inverted.edges)
        {
          var e :| e in out;
          out := out - {e};
          var known := if e.node in inverted.edges then inverted.edges[e.node] else {};
          InvertsEdge(edges, done, source, part, e, inverted.edges);
          part := part + {e};
          inverted.edges := inverted.edges[e.node := known + {EdgeData(source, None)}];
        }
        assert part == edges[source];
        InvertsDone(edges, done, source, inverted.edges);
        done := done + {source};
      }
      assert done == edges.Keys;
      InvertedJoins(edges, inverted.edges);
    }

    /** The nodes that can reach one of the given nodes, and those nodes themselves. */
    method FindDependentNodes(targets: seq<string>) returns (result: set<string>)
      requires Valid()
      ensures forall n :: n in result <==> exists t :: t in targets && Reaches(Edges(), n, t)
    {
      hide EdgeSet, Closed, Reaches;
      var inverted := InvertedEdgeGraph();
      ghost var es, es' := Edges(), inverted.Edges();
      var found := inverted.FindReachableNodes(targets);
      result := found + set t | t in targets;
      forall n
        ensures n in result <==> exists t :: t in targets && Reaches(es, n, t)
      {
        DependentIsReachable(nodes.Keys, edges, es', targets, n);
      }
    }

    /** Records every simple cycle found by searching from each node for itself. */
    method EnumerateCycles()
      requires Valid()
      modifies this
      ensures Valid() && nodes.Keys == old(nodes.Keys) && edges == old(edges) && cycles.Some?
      ensures forall c | c in cycles.value :: IsCycle(Edges(), c, cycles.value[c])
      ensures forall n :: OnCycle(Edges(), n) <==> exists c, m :: c in cycles.value && (n, m) in c
    {
      hide EdgeSet, Advanced, Search.Begun, IsSimpleCycle, IsStack, Pairs, OnCycle, Joined, IsCovered;
      Reset();
      ghost var es := Edges();
      var all, rest := nodes.Keys, nodes.Keys;
      while rest != {}
        invariant rest <= all == nodes.Keys && edges == old(edges) && cycles.Some?
        invariant forall c | c in cycles.value :: IsCycle(es, c, cycles.value[c])
        invariant forall n | n in all - rest && OnCycle(es, n) :: IsCovered(cycles.value.Keys, n)
      {
        var node :| node in rest;
        rest := rest - {node};
        ResetDfsData();
        ghost var now := State();
        EmptyStack(es, Begun(), Some(node), node);
        Dfs(node, Some(node), []);
        CycleIsFound(es, node, now, State());
        for i := 0 to |targetPaths|
          invariant edges == old(edges) && nodes.Keys == all && cycles.Some?
          invariant forall c | c in cycles.value :: IsCycle(es, c, cycles.value[c])
          invariant forall n | n in all - rest - {node} && OnCycle(es, n) :: IsCovered(cycles.value.Keys, n)
          invariant i > 0 ==> IsCovered(cycles.value.Keys, node)
          modifies this`cycles
        {
          var path := targetPaths[i];
          assert path in targetPaths;
          var cycle := Pairs(path);
          CycleCovers(es, node, path);
          ghost var known := cycles.value.Keys;
          if cycle !in cycles.value {
            cycles := Some(cycles.value[cycle := path]);
          }
          MoreIsCovered(known, cycles.value.Keys, cycle, node, path[1]);
        }
      }
      forall n
        ensures OnCycle(es, n) <==> exists c, m :: c in cycles.value && (n, m) in c
      {
        CoveredIsOnCycle(nodes.Keys, edges, cycles.value, n);
      }
    }

    /** Enumerates the cycles only if they are not known. */
    method HasCycle() returns (found: bool)
      requires Valid()
      modifies this
      ensures Valid() && edges == old(edges)
      ensures old(cycles).None? ==> (found <==> exists n :: OnCycle(Edges(), n))
      ensures old(cycles).Some? ==> (found <==> old(cycles).value != map[])
    {
      hide EdgeSet, Closed, OnCycle, IsSimpleCycle;
      if cycles == None {
        EnumerateCycles();
        SomeCycle(Edges(), cycles.value);
      }
      found := |cycles.value| > 0;
    }

    /** After a search for reachable nodes the answer is no, so it is right exactly for graphs without cycles. */
    method HasCycleAfterSearch(roots: seq<string>) returns (found: bool)
      requires Valid() && roots != []
      modifies this
      ensures Valid() && edges == old(edges) && !found
      ensures (found <==> exists n :: OnCycle(Edges(), n)) <==> forall n :: !OnCycle(Edges(), n)
    {
      hide EdgeSet, Closed, OnCycle;
      var _ := FindReachableNodes(roots);
      found := HasCycle();
    }
  }

  ghost predicate IsReachable(es: set<Edge>, nodes: set<string>, roots: seq<string>, n: string) {
    exists r :: r in roots && r in nodes && Reaches(es, r, n)
  }

  lemma NothingSeen(es: set<Edge>, nodes: set<string>, roots: seq<string>)
    ensures ClosedUnder(es, {}) && forall r :: r !in roots[..0]
  {}

  lemma NextRoot(es: set<Edge>, nodes: set<string>, roots: seq<string>, i: nat, seen: set<string>, seen': set<string>)
    requires i < |roots| && seen <= seen' && (roots[i] in nodes ==> roots[i] in seen')
    requires forall n | n in seen :: IsReachable(es, nodes, roots[..i], n)
    requires forall n | n in seen' - seen :: roots[i] in nodes && Reaches(es, roots[i], n)
    requires forall r | r in roots[..i] && r in nodes :: r in seen
    ensures forall n | n in seen' :: IsReachable(es, nodes, roots[..i + 1], n)
    ensures forall r | r in roots[..i + 1] && r in nodes :: r in seen'
  {
    hide Reaches;
    assert roots[..i + 1] == roots[..i] + [roots[i]];
    forall n | n in seen'
      ensures IsReachable(es, nodes, roots[..i + 1], n)
    {
      if n in seen {
        var r :| r in roots[..i] && r in nodes && Reaches(es, r, n);
        assert r in roots[..i + 1];
      } else {
        assert n in seen' - seen;
        assert roots[..i + 1][i] == roots[i];
      }
    }
  }

  lemma EmptyStack(es: set<Edge>, begun: set<string>, target: Option<string>, node: string)
    requires target.Some? ==> target.value == node
    ensures IsStack(es, begun, target, [], node)
  {}

  /** What is seen stays closed, and all that is new comes from the root. */
  lemma SeenFromRoot(es: set<Edge>, target: Option<string>, root: string, s: Search, s': Search)
    requires Advanced(es, target, root, s, s', {})
    ensures s'.nodes.Keys == s.nodes.Keys && s.Begun() <= s'.Begun()
    ensures ClosedUnder(es, s.Begun()) ==> ClosedUnder(es, s'.Begun())
    ensures forall n | n in s'.Begun() - s.Begun() :: Reaches(es, root, n)
  {
    if ClosedUnder(es, s.Begun()) {
      forall e | e in es && e.source in s'.Begun()
        ensures e.target in s'.Begun()
      {
        if e.source !in s.Begun() {
          assert IsDone(es, target, e.source, s, s');
        }
      }
    }
  }

  lemma ReachableIsSeen(es: set<Edge>, nodes: set<string>, roots: seq<string>, seen: set<string>, n: string)
    requires ClosedUnder(es, seen) && forall r | r in roots && r in nodes :: r in seen
    ensures IsReachable(es, nodes, roots, n) ==> n in seen
  {
    if r :| r in roots && r in nodes && Reaches(es, r, n) {
      var w :| IsWalk(es, r, n, w);
      ClosedContains(es, seen, r, n, w);
    }
  }

  predicate Has(edges: Adjacency, n: string, e: EdgeData) {
    n in edges && e in edges[n]
  }

  lemma JoinedByData(edges: Adjacency, a: string, b: string)
    ensures Joined(EdgeSet(edges), a, b) <==> exists l :: Has(edges, a, EdgeData(b, l))
  {
    if l :| Has(edges, a, EdgeData(b, l)) {
      EdgeIn(edges, a, EdgeData(b, l));
    }
    if e :| e in EdgeSet(edges) && e.source == a && e.target == b {
      SuccessorsOf(edges, a);
      assert Has(edges, a, EdgeData(b, e.tag));
    }
  }

  /** One of the edges leads to the node. */
  ghost predicate Leads(out: set<EdgeData>, n: string) {
    exists l :: EdgeData(n, l) in out
  }

  /** The edges out of the nodes in `done`, and those of `part` out of `source`, have been inverted. */
  ghost predicate Inverts(edges: Adjacency, done: set<string>, source: string, part: set<EdgeData>, edges': Adjacency)
    requires done <= edges.Keys
  {
    forall a, b, l :: InvertsAt(edges, done, source, part, edges', a, b, l)
  }

  /** The same, for one edge. */
  ghost predicate InvertsAt(edges: Adjacency, done: set<string>, source: string, part: set<EdgeData>, edges': Adjacency,
                            a: string, b: string, l: Option<string>)
    requires done <= edges.Keys
  {
    Has(edges', a, EdgeData(b, l)) <==>
      l == None && ((b in done && Leads(edges[b], a)) || (b == source && Leads(part, a)))
  }

  lemma InvertsNothing(edges: Adjacency)
    ensures Inverts(edges, {}, "", {}, map[])
  {}

  lemma InvertsSource(edges: Adjacency, done: set<string>, source: string, edges': Adjacency)
    requires done <= edges.Keys && Inverts(edges, done, "", {}, edges')
    ensures Inverts(edges, done, source, {}, edges')
  {
    forall a, b, l
      ensures InvertsAt(edges, done, source, {}, edges', a, b, l)
    {
      assert InvertsAt(edges, done, "", {}, edges', a, b, l);
    }
  }

  lemma InvertsEdge(edges: Adjacency, done: set<string>, source: string, part: set<EdgeData>, e: EdgeData,
                    edges': Adjacency)
    requires done <= edges.Keys && Inverts(edges, done, source, part, edges')
    ensures var known := if e.node in edges' then edges'[e.node] else {};
            Inverts(edges, done, source, part + {e}, edges'[e.node := known + {EdgeData(source, None)}])
  {
    var known := if e.node in edges' then edges'[e.node] else {};
    var edges'' := edges'[e.node := known + {EdgeData(source, None)}];
    assert EdgeData(e.node, e.tag) in part + {e};
    assert forall a :: Leads(part + {e}, a) <==> Leads(part, a) || a == e.node;
    forall a, b, l
      ensures InvertsAt(edges, done, source, part + {e}, edges'', a, b, l)
    {
      assert InvertsAt(edges, done, source, part, edges', a, b, l);
    }
  }

  lemma InvertsDone(edges: Adjacency, done: set<string>, source: string, edges': Adjacency)
    requires done <= edges.Keys && source in edges && Inverts(edges, done, source, edges[source], edges')
    ensures Inverts(edges, done + {source}, "", {}, edges')
  {
    forall a, b, l
      ensures InvertsAt(edges, done + {source}, "", {}, edges', a, b, l)
    {
      assert InvertsAt(edges, done, source, edges[source], edges', a, b, l);
    }
  }

  lemma InvertedJoins(edges: Adjacency, edges': Adjacency)
    requires Inverts(edges, edges.Keys, "", {}, edges')
    ensures forall a, b :: Joined(EdgeSet(edges'), a, b) <==> Joined(EdgeSet(edges), b, a)
  {
    hide EdgeSet, Joined;
    forall a, b
      ensures Joined(EdgeSet(edges'), a, b) <==> Joined(EdgeSet(edges), b, a)
    {
      JoinedByData(edges', a, b);
      JoinedByData(edges, b, a);
      assert InvertsAt(edges, edges.Keys, "", {}, edges', a, b, None);
      if l :| Has(edges', a, EdgeData(b, l)) {
        assert InvertsAt(edges, edges.Keys, "", {}, edges', a, b, l);
        assert Leads(edges[b], a);
      }
      if l :| Has(edges, b, EdgeData(a, l)) {
        assert Leads(edges[b], a);
      }
    }
  }

  lemma {:induction false} WalkReversed(es: set<Edge>, es': set<Edge>, a: string, b: string, w: seq<Edge>)
    requires forall a, b :: Joined(es', a, b) <==> Joined(es, b, a)
    requires IsWalk(es, a, b, w)
    ensures Reaches(es', b, a)
    decreases |w|
  {
    hide Joined, Reaches;
    if w == [] {
      ReachesSelf(es', a);
    } else {
      WalkReversed(es, es', w[0].target, b, w[1..]);
      var e := EdgeBetween(es, es', w[0]);
      ReachesByEdge(es', b, e);
    }
  }

  lemma EdgeBetween(es: set<Edge>, es': set<Edge>, e: Edge) returns (e': Edge)
    requires forall a, b :: Joined(es', a, b) <==> Joined(es, b, a)
    requires e in es
    ensures e' in es' && e'.source == e.target && e'.target == e.source
  {
    assert Joined(es, e.source, e.target);
    assert Joined(es', e.target, e.source);
    e' :| e' in es' && e'.source == e.target && e'.target == e.source;
  }

  lemma ReachesReversed(es: set<Edge>, es': set<Edge>, a: string, b: string)
    requires forall a, b :: Joined(es', a, b) <==> Joined(es, b, a)
    ensures Reaches(es, a, b) <==> Reaches(es', b, a)
  {
    hide Joined;
    if w :| IsWalk(es, a, b, w) {
      WalkReversed(es, es', a, b, w);
    }
    if w :| IsWalk(es', b, a, w) {
      WalkReversed(es', es, b, a, w);
    }
  }

  lemma DependentIsReachable(nodes: set<string>, edges: Adjacency, es': set<Edge>, targets: seq<string>, n: string)
    requires Closed(nodes, edges) && forall a, b :: Joined(es', a, b) <==> Joined(EdgeSet(edges), b, a)
    ensures (n in nodes && IsReachable(es', nodes, targets, n)) || n in targets <==>
              exists t :: t in targets && Reaches(EdgeSet(edges), n, t)
  {
    hide Joined, EdgeSet, Reaches;
    var es := EdgeSet(edges);
    ReachesSelf(es, n);
    forall t
      ensures Reaches(es, n, t) <==> Reaches(es', t, n)
    {
      ReachesReversed(es, es', n, t);
    }
    forall t | Reaches(es, n, t) && n != t
      ensures n in nodes && t in nodes
    {
      ReachStaysIn(nodes, edges, n, t);
    }
  }

  lemma ReachStaysIn(nodes: set<string>, edges: Adjacency, a: string, b: string)
    requires Closed(nodes, edges) && Reaches(EdgeSet(edges), a, b) && a != b
    ensures a in nodes && b in nodes
  {
    var w :| IsWalk(EdgeSet(edges), a, b, w);
    ClosedEdges(nodes, edges);
    LastEdge(EdgeSet(edges), a, b, w);
  }

  // ---------------------------------------------------------------------------
  // Cycles as sets of edges

  function Step(path: seq<string>, i: nat): (string, string)
    requires i < |path| - 1
  {
    (path[i], path[i + 1])
  }

  function Pairs(path: seq<string>): set<(string, string)> {
    set i: nat | i < |path| - 1 :: Step(path, i)
  }

  /** The edges of a simple cycle, with the path it was found as. */
  ghost predicate IsCycle(es: set<Edge>, c: set<(string, string)>, path: seq<string>) {
    c == Pairs(path) && path != [] && IsSimpleCycle(es, path[0], path)
  }

  ghost predicate IsCovered(cycles: set<set<(string, string)>>, n: string) {
    exists c, m :: c in cycles && (n, m) in c
  }

  lemma MoreIsCovered(known: set<set<(string, string)>>, cycles: set<set<(string, string)>>, c: set<(string, string)>,
                      n: string, m: string)
    requires known <= cycles && c in cycles && (n, m) in c
    ensures IsCovered(cycles, n) && forall n' | IsCovered(known, n') :: IsCovered(cycles, n')
  {}

  /** If the node is on a cycle, the search from it for itself records one. */
  lemma CycleIsFound(es: set<Edge>, node: string, s: Search, s': Search)
    requires Advanced(es, Some(node), node, s, s', {}) && node in s'.Begun() && s.Begun() == {} && s.paths == []
    ensures s'.nodes.Keys == s.nodes.Keys
    ensures OnCycle(es, node) ==> s'.paths != []
    ensures forall path | path in s'.paths :: IsSimpleCycle(es, node, path)
  {
    hide IsSimpleCycle;
    assert s'.paths[|s.paths|..] == s'.paths;
    CycleByLastEdge(es, node);
    if OnCycle(es, node) {
      var e :| e in es && Reaches(es, node, e.source) && e.target == node;
      SeenFromRoot(es, Some(node), node, s, s');
      var w :| IsWalk(es, node, e.source, w);
      ClosedContains(es, s'.Begun(), node, e.source, w);
      assert IsDone(es, Some(node), e.source, s, s') && Joined(es, e.source, node);
    }
  }

  lemma CycleCovers(es: set<Edge>, node: string, path: seq<string>)
    requires IsSimpleCycle(es, node, path)
    ensures IsCycle(es, Pairs(path), path) && |path| >= 2 && (node, path[1]) in Pairs(path)
  {
    assert Step(path, 0) in Pairs(path);
  }

  /** Every node of a path that returns to its start is on a cycle. */
  lemma {:induction false} PathReaches(es: set<Edge>, path: seq<string>, i: nat, j: nat)
    requires IsPath(es, path) && i <= j < |path|
    ensures Reaches(es, path[i], path[j])
    decreases j
  {
    if i == j {
      ReachesSelf(es, path[i]);
    } else {
      PathReaches(es, path, i, j - 1);
      assert Joined(es, path[j - 1], path[j - 1 + 1]);
      var e :| e in es && e.source == path[j - 1] && e.target == path[j];
      ReachesByEdge(es, path[i], e);
    }
  }

  lemma PathNodeOnCycle(es: set<Edge>, path: seq<string>, i: nat)
    requires path != [] && IsSimpleCycle(es, path[0], path) && i < |path| - 1
    ensures OnCycle(es, path[i])
  {
    assert Joined(es, path[i], path[i + 1]);
    var e :| e in es && e.source == path[i] && e.target == path[i + 1];
    PathReaches(es, path, i + 1, |path| - 1);
    PathReaches(es, path, 0, i);
    ReachesTransitive(es, path[i + 1], path[0], path[i]);
    var w :| IsWalk(es, path[i + 1], path[i], w);
    assert ([e] + w)[1..] == w;
    assert IsWalk(es, path[i], path[i], [e] + w);
  }

  lemma CoveredIsOnCycle(nodes: set<string>, edges: Adjacency, cycles: map<set<(string, string)>, seq<string>>,
                         n: string)
    requires Closed(nodes, edges)
    requires forall c | c in cycles :: IsCycle(EdgeSet(edges), c, cycles[c])
    requires n in nodes && OnCycle(EdgeSet(edges), n) ==> IsCovered(cycles.Keys, n)
    ensures OnCycle(EdgeSet(edges), n) <==> exists c, m :: c in cycles && (n, m) in c
  {
    hide IsSimpleCycle, OnCycle, EdgeSet;
    var es := EdgeSet(edges);
    if OnCycle(es, n) {
      CycleByLastEdge(es, n);
      ClosedEdges(nodes, edges);
    }
    if c, m :| c in cycles && (n, m) in c {
      var path := cycles[c];
      var i: nat :| i < |path| - 1 && Step(path, i) == (n, m);
      PathNodeOnCycle(es, path, i);
    }
  }

  lemma SomeCycle(es: set<Edge>, cycles: map<set<(string, string)>, seq<string>>)
    requires forall c | c in cycles :: IsCycle(es, c, cycles[c])
    requires forall n :: OnCycle(es, n) <==> exists c, m :: c in cycles && (n, m) in c
    ensures cycles != map[] <==> exists n :: OnCycle(es, n)
  {
    hide OnCycle;
    if c :| c in cycles {
      CycleCovers(es, cycles[c][0], cycles[c]);
      assert (cycles[c][0], cycles[c][1]) in c;
      assert OnCycle(es, cycles[c][0]);
    } else {
      assert cycles == map[];
    }
  }

  /** The part of a graph that a search changes. */
  datatype Search = Search(nodes: map<string, DfsData>, counter: nat, paths: seq<seq<string>>)
  {
    ghost function Begun(): set<string> {
      set n | n in nodes && nodes[n].begin.Some?
    }

    lemma BegunMember(n: string)
      ensures n in Begun() <==> n in nodes && nodes[n].begin.Some?
      ensures Begun() <= nodes.Keys
    {}
  }

  /**
   What a search from `root` does, some nodes being still open: it leaves alone what was seen
   before; it sees only what `root` reaches; where it has seen a node it has seen, or is about to see, the
   node's successors; it records simple cycles only, and at least one if an edge leads to the target.
   */
  ghost predicate Advanced(es: set<Edge>, target: Option<string>, root: string, s: Search, s': Search,
                           open: set<string>)
  {
    && s'.nodes.Keys == s.nodes.Keys && s.Begun() <= s'.Begun() && s.counter <= s'.counter
    && (forall n | n in s.Begun() :: s'.nodes[n] == s.nodes[n])
    && (forall n | n in s'.Begun() - s.Begun() :: Reaches(es, root, n))
    && (forall n | n in s'.Begun() - s.Begun() - open :: IsDone(es, target, n, s, s'))
    && s.paths <= s'.paths && AllSimpleCycles(es, target, s'.paths[|s.paths|..])
  }

  ghost predicate IsDone(es: set<Edge>, target: Option<string>, n: string, s: Search, s': Search)
    requires n in s'.nodes
  {
    && SuccessorsIn(es, n, s'.Begun())
    && Timed(s'.nodes[n], s.counter, s'.counter)
    && (target.Some? && Joined(es, n, target.value) ==> |s'.paths| > |s.paths|)
  }

  lemma AdvancedNothing(es: set<Edge>, target: Option<string>, root: string, s: Search)
    ensures Advanced(es, target, root, s, s, {})
  {}

  lemma AdvancedByPath(es: set<Edge>, target: Option<string>, root: string, s: Search, path: seq<string>)
    requires target.Some? && IsSimpleCycle(es, target.value, path)
    ensures Advanced(es, target, root, s, s.(paths := s.paths + [path]), {})
  {}

  lemma AdvancedByBegin(es: set<Edge>, target: Option<string>, node: string, s: Search, s': Search)
    requires node in s.nodes && s.nodes[node].begin == None
    requires s.paths <= s'.paths && AllSimpleCycles(es, target, s'.paths[|s.paths|..])
    requires s' == Search(s.nodes[node := DfsData(Some(s.counter), s.nodes[node].end)], s.counter + 1, s'.paths)
    ensures Advanced(es, target, node, s, s', {node}) && s'.Begun() == s.Begun() + {node}
  {
    ReachesSelf(es, node);
  }

  /** What a finished search has seen or recorded is kept. */
  lemma AdvancedKeeps(es: set<Edge>, target: Option<string>, root: string, s: Search, s': Search, open: set<string>)
    requires Advanced(es, target, root, s, s', open)
    ensures s'.nodes.Keys == s.nodes.Keys && s.Begun() <= s'.Begun() && s.counter <= s'.counter
    ensures |s.paths| <= |s'.paths|
    ensures forall n | n in s.Begun() :: s'.nodes[n] == s.nodes[n]
  {}

  lemma AdvancedByChild(es: set<Edge>, target: Option<string>, s: Search, s1: Search, s2: Search, e: Edge)
    requires Advanced(es, target, e.source, s, s1, {e.source}) && Advanced(es, target, e.target, s1, s2, {})
    requires e in es
    ensures Advanced(es, target, e.source, s, s2, {e.source})
  {
    hide IsSimpleCycle, Reaches;
    ReachesThrough(es, e.source, e);
    assert s2.paths[|s.paths|..] == s1.paths[|s.paths|..] + s2.paths[|s1.paths|..];
    forall n | n in s2.Begun() - s.Begun() - {e.source}
      ensures IsDone(es, target, n, s, s2)
    {
      if n in s1.Begun() {
        assert IsDone(es, target, n, s, s1);
      } else {
        assert IsDone(es, target, n, s1, s2);
      }
    }
  }

  lemma AdvancedByEnd(es: set<Edge>, target: Option<string>, node: string, s: Search, s1: Search, s2: Search)
    requires Advanced(es, target, node, s, s1, {node}) && node in s1.Begun() - s.Begun()
    requires s.counter <= s1.nodes[node].begin.value < s1.counter
    requires s2 == Search(s1.nodes[node := DfsData(s1.nodes[node].begin, Some(s1.counter))], s1.counter + 1, s1.paths)
    requires SuccessorsIn(es, node, s1.Begun())
    requires target.Some? && Joined(es, node, target.value) ==> |s1.paths| > |s.paths|
    ensures Advanced(es, target, node, s, s2, {}) && node in s2.Begun()
  {
    assert s2.Begun() == s1.Begun();
    forall n | n in s2.Begun() - s.Begun()
      ensures IsDone(es, target, n, s, s2)
    {
      if n != node {
        assert IsDone(es, target, n, s, s1);
      }
    }
  }

  ghost predicate SuccessorsIn(es: set<Edge>, n: string, seen: set<string>) {
    forall e | e in es && e.source == n :: e.target in seen
  }

  /** The search at the node began and ended within the given time. */
  predicate Timed(d: DfsData, from: nat, to: nat) {
    d.begin.Some? && d.end.Some? && from <= d.begin.value < d.end.value < to
  }

  lemma ReachesThrough(es: set<Edge>, a: string, e: Edge)
    requires e in es && e.source == a
    ensures forall n | Reaches(es, e.target, n) :: Reaches(es, a, n)
  {
    ReachesSelf(es, a);
    ReachesByEdge(es, a, e);
    forall n | Reaches(es, e.target, n)
      ensures Reaches(es, a, n)
    {
      ReachesTransitive(es, a, e.target, n);
    }
  }

  lemma SuccessorsOf(edges: Adjacency, n: string)
    ensures forall e | e in EdgeSet(edges) && e.source == n :: n in edges && EdgeData(e.target, e.tag) in edges[n]
  {}

  lemma StackClosesCycle(es: set<Edge>, begun: set<string>, target: Option<string>, stack: seq<string>, node: string)
    requires IsStack(es, begun, target, stack, node) && target == Some(node) && stack != []
    ensures IsSimpleCycle(es, node, stack + [node])
  {
    assert (stack + [node])[..|stack|] == stack;
  }

  lemma StackGrows(es: set<Edge>, begun: set<string>, begun': set<string>, target: Option<string>, stack: seq<string>,
                   node: string, e: Edge)
    requires IsStack(es, begun, target, stack, node) && node !in begun && begun + {node} <= begun'
    requires e in es && e.source == node
    ensures IsStack(es, begun', target, stack + [node], e.target)
  {
    var stack' := stack + [node];
    assert Joined(es, node, e.target);
    forall i | 0 <= i < |stack'|
      ensures Joined(es, (stack' + [e.target])[i], (stack' + [e.target])[i + 1])
    {
      if i < |stack| {
        assert Joined(es, stack'[i], stack'[i + 1]);
      }
    }
  }
}
