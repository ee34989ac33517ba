/** Stratification of a labelled graph by iteration to a fixpoint. */
module Stratify {
  import opened Syntax
  import opened Walks

  datatype EdgeData = EdgeData(node: string, tag: Option<string>)

  type Adjacency = map<string, set<EdgeData>>

  function EdgeSet(edges: Adjacency): set<Edge> {
    set n, e | n in edges && e in edges[n] :: Edge(n, e.node, e.tag)
  }

  predicate Closed(nodes: set<string>, edges: Adjacency) {
    forall n | n in edges :: n in nodes && forall e | e in edges[n] :: e.node in nodes
  }

  lemma ClosedEdges(nodes: set<string>, edges: Adjacency)
    requires Closed(nodes, edges)
    ensures forall e | e in EdgeSet(edges) :: e.source in nodes && e.target in nodes
  {}

  /** Strata found so far: between 1 and the number of nodes, and forced. */
  ghost predicate IsPartial(nodes: set<string>, edges: Adjacency, labels: set<string>, f: Strata) {
    && f.Keys == nodes
    && (forall n | n in nodes :: 1 <= f[n] <= |nodes|)
    && Forced(EdgeSet(edges), labels, f)
  }

  /** How far the strata can still rise. */
  function Room(nodes: set<string>, f: Strata): set<(string, nat)>
    requires f.Keys == nodes
  {
    set n: string, k: nat | n in nodes && f[n] < k <= |nodes| :: (n, k)
  }

  predicate Risen(f: Strata, f': Strata) {
    f'.Keys == f.Keys && forall n | n in f :: f[n] <= f'[n]
  }

  lemma RoomShrinks(nodes: set<string>, f: Strata, f': Strata)
    requires f.Keys == nodes && Risen(f, f') && f != f'
    requires forall n | n in nodes :: f'[n] <= |nodes|
    ensures Room(nodes, f') < Room(nodes, f)
  {
    var n :| n in nodes && f[n] != f'[n];
    assert (n, f'[n]) in Room(nodes, f) && (n, f'[n]) !in Room(nodes, f');
  }

  ghost predicate Satisfied(f: Strata, labels: set<string>, n: string, e: EdgeData) {
    n in f && e.node in f && f[n] >= f[e.node] + Weight(Edge(n, e.node, e.tag), labels)
  }

  /** Raises one node above one of its targets; None if that takes it above the number of nodes. */
  method Raise(nodes: set<string>, edges: Adjacency, labels: set<string>, f: Strata, n: string, e: EdgeData)
    returns (f': Option<Strata>)
    requires Closed(nodes, edges) && IsPartial(nodes, edges, labels, f) && n in edges && e in edges[n]
    ensures f'.None? ==> HasLabelledCycle(EdgeSet(edges), labels)
    ensures f'.Some? ==> IsPartial(nodes, edges, labels, f'.value) && Risen(f, f'.value)
    ensures f'.Some? && f'.value == f ==> Satisfied(f, labels, n, e)
  {
    hide IsForced, HasLabelledCycle, EdgeSet;
    var edge := Edge(n, e.node, e.tag);
    EdgeIn(edges, n, e);
    ClosedEdges(nodes, edges);
    ForcedByEdge(EdgeSet(edges), labels, edge, f[e.node]);
    var raised := if IsCounted(e.tag, labels) then 1 + f[e.node] else f[e.node];
    var level := if f[n] < raised then raised else f[n];
    if level > |nodes| {
      TooManyStrata(EdgeSet(edges), labels, nodes, n, level);
      return None;
    }
    f' := Some(f[n := level]);
    assert f'.value[n] == level;
  }

  lemma EdgeIn(edges: Adjacency, n: string, e: EdgeData)
    requires n in edges && e in edges[n]
    ensures Edge(n, e.node, e.tag) in EdgeSet(edges)
  {}

  /** One pass over all edges; None if some stratum has risen above the number of nodes. */
  method Pass(nodes: set<string>, edges: Adjacency, labels: set<string>, f: Strata)
    returns (f': Option<Strata>, changes: bool)
    requires Closed(nodes, edges) && IsPartial(nodes, edges, labels, f)
    ensures f'.None? ==> HasLabelledCycle(EdgeSet(edges), labels)
    ensures f'.Some? ==> IsPartial(nodes, edges, labels, f'.value) && Risen(f, f'.value)
    ensures f'.Some? ==> (changes <==> f'.value != f)
    ensures f'.Some? && !changes ==> forall n, e | n in edges && e in edges[n] :: Satisfied(f, labels, n, e)
  {
    hide IsPartial, HasLabelledCycle, EdgeSet, Satisfied;
    var now := f;
    var sources := edges.Keys;
    changes := false;
    while sources != {}
      invariant sources <= edges.Keys && IsPartial(nodes, edges, labels, now) && Risen(f, now)
      invariant changes <==> now != f
      invariant !changes ==> forall m, e | m in edges.Keys - sources && e in edges[m] :: Satisfied(f, labels, m, e)
    {
      var n :| n in sources;
      sources := sources - {n};
      var rest := edges[n];
      while rest != {}
        invariant rest <= edges[n] && IsPartial(nodes, edges, labels, now) && Risen(f, now)
        invariant changes <==> now != f
        invariant !changes ==> forall m, e | m in edges.Keys - sources - {n} && e in edges[m] ::
                  Satisfied(f, labels, m, e)
        invariant !changes ==> forall e | e in edges[n] - rest :: Satisfied(f, labels, n, e)
      {
        var e :| e in rest;
        rest := rest - {e};
        var next := Raise(nodes, edges, labels, now, n, e);
        if next == None {
          return None, changes;
        }
        if next.value != now {
          RisenTwice(f, now, next.value);
          changes := true;
        }
        now := next.value;
      }
    }
    f' := Some(now);
  }

  lemma RisenTwice(f: Strata, now: Strata, next: Strata)
    requires Risen(f, now) && Risen(now, next) && next != now
    ensures Risen(f, next) && next != f
  {
    var n :| n in now && now[n] != next[n];
  }

  /**
   The least assignment of strata in which no edge leads upwards, and none with one of the
   labels stays level; or None if some cycle contains such a label.
   */
  method Stratification(nodes: set<string>, edges: Adjacency, labels: set<string>) returns (strata: Option<Strata>)
    requires Closed(nodes, edges)
    ensures strata.None? <==> HasLabelledCycle(EdgeSet(edges), labels)
    ensures strata.Some? ==> IsStratification(EdgeSet(edges), labels, nodes, strata.value)
    ensures strata.Some? ==> forall n | n in nodes :: strata.value[n] <= |nodes|
    ensures strata.Some? ==>
              forall f, n | IsStratification(EdgeSet(edges), labels, nodes, f) && n in nodes :: strata.value[n] <= f[n]
  {
    hide IsPartial, HasLabelledCycle, EdgeSet, Satisfied, IsStratification, Room;
    var stratum: Strata := map n | n in nodes :: 1;
    StartIsPartial(nodes, edges, labels, stratum);
    var changes := true;
    while changes
      invariant IsPartial(nodes, edges, labels, stratum) && stratum.Keys == nodes
      invariant !changes ==> forall n, e | n in edges && e in edges[n] :: Satisfied(stratum, labels, n, e)
      decreases Room(nodes, stratum), changes
    {
      ghost var before := stratum;
      var next;
      next, changes := Pass(nodes, edges, labels, stratum);
      if next == None {
        CycleExcludesStrata(nodes, edges, labels);
        return None;
      }
      stratum := next.value;
      if changes {
        PartialBounds(nodes, edges, labels, stratum);
        RoomShrinks(nodes, before, stratum);
      }
    }
    FixpointIsStratification(nodes, edges, labels, stratum);
    strata := Some(stratum);
  }

  lemma StartIsPartial(nodes: set<string>, edges: Adjacency, labels: set<string>, f: Strata)
    requires f == map n | n in nodes :: 1
    ensures IsPartial(nodes, edges, labels, f)
  {
    forall n | n in nodes
      ensures 1 <= |nodes| && IsForced(EdgeSet(edges), labels, n, 1)
    {
      assert |nodes| == |nodes - {n}| + 1;
      assert IsWalk(EdgeSet(edges), n, n, []);
    }
  }

  lemma PartialBounds(nodes: set<string>, edges: Adjacency, labels: set<string>, f: Strata)
    requires IsPartial(nodes, edges, labels, f)
    ensures f.Keys == nodes && forall n | n in nodes :: 1 <= f[n] <= |nodes|
  {}

  lemma CycleExcludesStrata(nodes: set<string>, edges: Adjacency, labels: set<string>)
    requires HasLabelledCycle(EdgeSet(edges), labels)
    ensures forall f :: !IsStratification(EdgeSet(edges), labels, nodes, f)
  {
    hide HasLabelledCycle, IsStratification;
    forall f
      ensures !IsStratification(EdgeSet(edges), labels, nodes, f)
    {
      if IsStratification(EdgeSet(edges), labels, nodes, f) {
        StrataForbidCycles(EdgeSet(edges), labels, nodes, f);
      }
    }
  }

  lemma FixpointIsStratification(nodes: set<string>, edges: Adjacency, labels: set<string>, f: Strata)
    requires Closed(nodes, edges) && IsPartial(nodes, edges, labels, f)
    requires forall n, e | n in edges && e in edges[n] :: Satisfied(f, labels, n, e)
    ensures IsStratification(EdgeSet(edges), labels, nodes, f) && !HasLabelledCycle(EdgeSet(edges), labels)
    ensures forall n | n in nodes :: f[n] <= |nodes|
    ensures forall g, n | IsStratification(EdgeSet(edges), labels, nodes, g) && n in nodes :: f[n] <= g[n]
  {
    hide HasLabelledCycle, IsForced;
    var es := EdgeSet(edges);
    forall edge | edge in es
      ensures edge.source in nodes && edge.target in nodes && f[edge.source] >= f[edge.target] + Weight(edge, labels)
    {
      assert Satisfied(f, labels, edge.source, EdgeData(edge.target, edge.tag));
    }
    StrataForbidCycles(es, labels, nodes, f);
    forall g, n | IsStratification(es, labels, nodes, g) && n in nodes
      ensures f[n] <= g[n]
    {
      ForcedIsLeast(es, labels, nodes, g, n, f[n]);
    }
  }
}
