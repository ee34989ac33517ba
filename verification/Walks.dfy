/** Walks in a directed graph with labelled edges. */
module Walks {
  import opened Syntax

  datatype Edge = Edge(source: string, target: string, tag: Option<string>)

  ghost predicate IsWalk(es: set<Edge>, a: string, b: string, w: seq<Edge>)
    decreases |w|
  {
    if w == [] then a == b
    else w[0] in es && w[0].source == a && IsWalk(es, w[0].target, b, w[1..])
  }

  ghost predicate Reaches(es: set<Edge>, a: string, b: string) {
    exists w :: IsWalk(es, a, b, w)
  }

  ghost predicate OnCycle(es: set<Edge>, a: string) {
    exists w :: w != [] && IsWalk(es, a, a, w)
  }

  lemma {:induction false} WalkAppend(es: set<Edge>, a: string, b: string, c: string, v: seq<Edge>, w: seq<Edge>)
    requires IsWalk(es, a, b, v) && IsWalk(es, b, c, w)
    ensures IsWalk(es, a, c, v + w)
    decreases |v|
  {
    if v == [] {
      assert v + w == w;
    } else {
      assert (v + w)[1..] == v[1..] + w;
      WalkAppend(es, v[0].target, b, c, v[1..], w);
    }
  }

  lemma ReachesSelf(es: set<Edge>, a: string)
    ensures Reaches(es, a, a)
  {
    assert IsWalk(es, a, a, []);
  }

  lemma ReachesByEdge(es: set<Edge>, a: string, e: Edge)
    requires Reaches(es, a, e.source) && e in es
    ensures Reaches(es, a, e.target)
  {
    var w :| IsWalk(es, a, e.source, w);
    assert IsWalk(es, e.source, e.target, [e]);
    WalkAppend(es, a, e.source, e.target, w, [e]);
  }

  lemma ReachesTransitive(es: set<Edge>, a: string, b: string, c: string)
    requires Reaches(es, a, b) && Reaches(es, b, c)
    ensures Reaches(es, a, c)
  {
    var v :| IsWalk(es, a, b, v);
    var w :| IsWalk(es, b, c, w);
    WalkAppend(es, a, b, c, v, w);
  }

  ghost predicate ClosedUnder(es: set<Edge>, seen: set<string>) {
    forall e | e in es && e.source in seen :: e.target in seen
  }

  /** A set that no edge leaves contains all it can reach. */
  lemma {:induction false} ClosedContains(es: set<Edge>, seen: set<string>, a: string, b: string, w: seq<Edge>)
    requires ClosedUnder(es, seen) && a in seen && IsWalk(es, a, b, w)
    ensures b in seen
    decreases |w|
  {
    if w != [] {
      ClosedContains(es, seen, w[0].target, b, w[1..]);
    }
  }

  /** A node is on a cycle exactly when something it reaches has an edge back to it. */
  lemma CycleByLastEdge(es: set<Edge>, a: string)
    ensures OnCycle(es, a) <==> exists e :: e in es && Reaches(es, a, e.source) && e.target == a
  {
    if w :| w != [] && IsWalk(es, a, a, w) {
      LastEdge(es, a, a, w);
    }
    if e :| e in es && Reaches(es, a, e.source) && e.target == a {
      var w :| IsWalk(es, a, e.source, w);
      assert IsWalk(es, e.source, a, [e]);
      WalkAppend(es, a, e.source, a, w, [e]);
    }
  }

  lemma {:induction false} LastEdge(es: set<Edge>, a: string, b: string, w: seq<Edge>)
    requires w != [] && IsWalk(es, a, b, w)
    ensures exists e :: e in es && Reaches(es, a, e.source) && e.target == b
    decreases |w|
  {
    if |w| == 1 {
      ReachesSelf(es, a);
    } else {
      LastEdge(es, w[0].target, b, w[1..]);
      var e :| e in es && Reaches(es, w[0].target, e.source) && e.target == b;
      ReachesSelf(es, a);
      ReachesByEdge(es, a, w[0]);
      ReachesTransitive(es, a, w[0].target, e.source);
    }
  }

  // ---------------------------------------------------------------------------
  // Labels that count

  predicate IsCounted(tag: Option<string>, labels: set<string>) {
    tag.Some? && tag.value in labels
  }

  function Weight(e: Edge, labels: set<string>): nat {
    if IsCounted(e.tag, labels) then 1 else 0
  }

  function Labelled(w: seq<Edge>, labels: set<string>): nat {
    if w == [] then 0 else Weight(w[0], labels) + Labelled(w[1..], labels)
  }

  /** Some cycle contains an edge with one of the labels. */
  ghost predicate HasLabelledCycle(es: set<Edge>, labels: set<string>) {
    exists a, w :: IsWalk(es, a, a, w) && Labelled(w, labels) > 0
  }

  lemma {:induction false} PrefixIsWalk(es: set<Edge>, a: string, b: string, w: seq<Edge>, k: nat)
    requires IsWalk(es, a, b, w) && k < |w|
    ensures IsWalk(es, a, w[k].target, w[..k + 1])
    decreases |w|
  {
    if k > 0 {
      assert w[..k + 1][1..] == w[1..][..k];
      PrefixIsWalk(es, w[0].target, b, w[1..], k - 1);
    } else {
      assert w[..1][1..] == [];
    }
  }

  /** A walk with as many labelled edges as there are nodes closes a cycle through a labelled edge. */
  lemma {:induction false} LongWalkHasCycle(es: set<Edge>, labels: set<string>, nodes: set<string>,
                                            a: string, b: string, w: seq<Edge>)
    requires IsWalk(es, a, b, w) && a in nodes
    requires forall i | 0 <= i < |w| :: w[i].target in nodes
    requires Labelled(w, labels) >= |nodes|
    ensures HasLabelledCycle(es, labels)
    decreases |w|
  {
    assert |nodes| == |nodes - {a}| + 1;
    var c := w[0].target;
    if !IsCounted(w[0].tag, labels) {
      LongWalkHasCycle(es, labels, nodes, c, b, w[1..]);
    } else if k: nat :| k < |w| && w[k].target == a {
      PrefixIsWalk(es, a, b, w, k);
      assert w[..k + 1][0] == w[0];
    } else {
      forall i | 0 <= i < |w[1..]|
        ensures w[1..][i].target in nodes - {a}
      {
        assert w[1..][i] == w[i + 1];
      }
      LongWalkHasCycle(es, labels, nodes - {a}, c, b, w[1..]);
    }
  }

  // ---------------------------------------------------------------------------
  // Stratifications

  type Strata = map<string, nat>

  /** A source lies no lower than its targets, and strictly higher across a labelled edge. */
  ghost predicate IsStratification(es: set<Edge>, labels: set<string>, nodes: set<string>, f: Strata) {
    && f.Keys == nodes
    && (forall n | n in nodes :: f[n] >= 1)
    && forall e | e in es :: e.source in nodes && e.target in nodes && f[e.source] >= f[e.target] + Weight(e, labels)
  }

  lemma {:induction false} StrataDescend(es: set<Edge>, labels: set<string>, nodes: set<string>, f: Strata,
                                         a: string, b: string, w: seq<Edge>)
    requires IsStratification(es, labels, nodes, f) && IsWalk(es, a, b, w) && a in nodes
    ensures b in nodes && f[a] >= f[b] + Labelled(w, labels)
    decreases |w|
  {
    if w != [] {
      StrataDescend(es, labels, nodes, f, w[0].target, b, w[1..]);
    }
  }

  lemma StrataForbidCycles(es: set<Edge>, labels: set<string>, nodes: set<string>, f: Strata)
    requires IsStratification(es, labels, nodes, f)
    ensures !HasLabelledCycle(es, labels)
  {
    forall a, w | IsWalk(es, a, a, w)
      ensures Labelled(w, labels) == 0
    {
      if w != [] {
        StrataDescend(es, labels, nodes, f, a, a, w);
      }
    }
  }

  /** Each stratum so far is forced by a walk that crosses one labelled edge less. */
  ghost predicate Forced(es: set<Edge>, labels: set<string>, f: Strata) {
    forall n | n in f :: IsForced(es, labels, n, f[n])
  }

  ghost predicate IsForced(es: set<Edge>, labels: set<string>, n: string, level: nat) {
    exists b, w :: IsWalk(es, n, b, w) && Labelled(w, labels) + 1 == level
  }

  lemma ForcedByEdge(es: set<Edge>, labels: set<string>, e: Edge, level: nat)
    requires e in es && IsForced(es, labels, e.target, level)
    ensures IsForced(es, labels, e.source, level + Weight(e, labels))
  {
    var b, w :| IsWalk(es, e.target, b, w) && Labelled(w, labels) + 1 == level;
    assert ([e] + w)[1..] == w;
    assert IsWalk(es, e.source, b, [e] + w);
  }

  /** A forced stratum lies below that of every stratification. */
  lemma ForcedIsLeast(es: set<Edge>, labels: set<string>, nodes: set<string>, f: Strata, n: string, level: nat)
    requires IsStratification(es, labels, nodes, f) && n in nodes && IsForced(es, labels, n, level)
    ensures level <= f[n]
  {
    var b, w :| IsWalk(es, n, b, w) && Labelled(w, labels) + 1 == level;
    StrataDescend(es, labels, nodes, f, n, b, w);
  }

  lemma {:induction false} WalkStaysIn(es: set<Edge>, nodes: set<string>, a: string, b: string, w: seq<Edge>)
    requires IsWalk(es, a, b, w) && forall e | e in es :: e.target in nodes
    ensures forall i | 0 <= i < |w| :: w[i].target in nodes
    decreases |w|
  {
    if w != [] {
      WalkStaysIn(es, nodes, w[0].target, b, w[1..]);
      assert forall i | 1 <= i < |w| :: w[i] == w[1..][i - 1];
    }
  }

  /** More strata than nodes are only forced by a cycle. */
  lemma TooManyStrata(es: set<Edge>, labels: set<string>, nodes: set<string>, n: string, level: nat)
    requires n in nodes && forall e | e in es :: e.target in nodes
    requires IsForced(es, labels, n, level) && level > |nodes|
    ensures HasLabelledCycle(es, labels)
  {
    var b, w :| IsWalk(es, n, b, w) && Labelled(w, labels) + 1 == level;
    WalkStaysIn(es, nodes, n, b, w);
    LongWalkHasCycle(es, labels, nodes, n, b, w);
  }
}
