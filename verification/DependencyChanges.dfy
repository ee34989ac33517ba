/**
 Counting nodes and edges; changes to the counts, and undoing changes. Modals are counted in an index of
 their own.
 */
module DependencyChanges {
  import opened ModalIndexes

  /** An edge between tables, labelled by whether the dependency is negative. */
  datatype Arc = Arc(source: string, target: string, negated: bool)

  function CountOf<T(==)>(counters: map<T, nat>, x: T): nat {
    if x in counters then counters[x] else 0
  }

  ghost predicate Positive<T(!new)>(counters: map<T, nat>) {
    forall x | x in counters :: counters[x] > 0
  }

  function Increment<T(==)>(counters: map<T, nat>, x: T): map<T, nat> {
    counters[x := if x in counters then counters[x] + 1 else 1]
  }

  function Decrement<T(==)>(counters: map<T, nat>, x: T): map<T, nat> {
    if x !in counters then counters
    else if counters[x] <= 1 then counters - {x}
    else counters[x := counters[x] - 1]
  }

  lemma SameCountsSameMap<T(!new)>(counters: map<T, nat>, counters': map<T, nat>)
    requires Positive(counters) && Positive(counters')
    requires forall x :: CountOf(counters, x) == CountOf(counters', x)
    ensures counters == counters'
  {
    forall x
      ensures x in counters <==> x in counters'
      ensures x in counters ==> counters[x] == counters'[x]
    {
      assert CountOf(counters, x) == CountOf(counters', x);
    }
  }

  // ---------------------------------------------------------------------------
  // The state of the graph, and what one change does to it

  datatype Change =
    | NodeChange(node: string, insert: bool)
    | ArcChange(arc: Arc, insert: bool)
    | ModalChange(record: ModalIndex, insert: bool)

  predicate AllOf(changes: seq<Change>, insert: bool) {
    forall c | c in changes :: c.insert == insert
  }

  /** The counters of nodes and edges, and the edges as they are found from their sources. */
  datatype State = State(nodes: map<string, nat>, arcs: map<Arc, nat>, edges: map<string, set<Arc>>)
  {
    /** Counters are positive, and edges found are counted. */
    ghost predicate Valid() {
      && Positive(nodes) && Positive(arcs)
      && edges.Keys <= nodes.Keys
      && forall n, a | n in edges && a in edges[n] :: a.source == n && a in arcs
    }
  }

  /** A node whose counter falls to zero goes, with the edges that leave it; one that is not there is ignored. */
  function DropNode(s: State, n: string): (r: State)
    ensures s.Valid() ==> r.Valid()
  {
    var nodes := Decrement(s.nodes, n);
    s.(nodes := nodes, edges := if n in s.nodes && n !in nodes then s.edges - {n} else s.edges)
  }

  function AddArc(s: State, a: Arc): (r: State)
    ensures s.Valid() ==> r.Valid()
  {
    s.(nodes := Increment(Increment(s.nodes, a.source), a.target),
       arcs := Increment(s.arcs, a),
       edges := s.edges[a.source := (if a.source in s.edges then s.edges[a.source] else {}) + {a}])
  }

  /** Takes the edge off the counters of its ends too; an edge that is not there is ignored. */
  function DropArc(s: State, a: Arc): (r: State)
    ensures s.Valid() ==> r.Valid()
  {
    if a !in s.arcs then s
    else
      var s' := DropNode(DropNode(s, a.source), a.target);
      var arcs := Decrement(s.arcs, a);
      s'.(arcs := arcs,
          edges := if a !in arcs && a.source in s'.edges then s'.edges[a.source := s'.edges[a.source] - {a}]
                   else s'.edges)
  }

  ghost function Step(s: State, c: Change): (r: State)
    requires s.Valid()
    ensures r.Valid()
  {
    match c
    case NodeChange(n, insert) => if insert then s.(nodes := Increment(s.nodes, n)) else DropNode(s, n)
    case ArcChange(a, insert) => if insert then AddArc(s, a) else DropArc(s, a)
    case ModalChange(_, _) => s
  }

  // ---------------------------------------------------------------------------
  // Counts

  /** What is counted; the tables under a modal are counted in the index of modals. */
  datatype Item = NodeItem(node: string) | ArcItem(arc: Arc) | ModalItem(modal: string, table: string)

  function Count(s: State, x: Item): nat {
    match x
    case NodeItem(n) => CountOf(s.nodes, n)
    case ArcItem(a) => CountOf(s.arcs, a)
    case ModalItem(_, _) => 0
  }

  /** How often the change counts the item; an edge counts its ends too. */
  function Weight(c: Change, x: Item): nat {
    match c
    case NodeChange(n, _) => if x == NodeItem(n) then 1 else 0
    case ArcChange(a, _) =>
      (if x == ArcItem(a) then 1 else 0) + (if x == NodeItem(a.source) then 1 else 0)
      + (if x == NodeItem(a.target) then 1 else 0)
    case ModalChange(_, _) => 0
  }

  function Signed(c: Change, x: Item): int {
    if c.insert then Weight(c, x) else 0 - Weight(c, x)
  }

  function Net(changes: seq<Change>, x: Item): int {
    if changes == [] then 0 else Signed(changes[0], x) + Net(changes[1..], x)
  }

  /** What the change deletes is counted. */
  ghost predicate Fits(s: State, c: Change) {
    c.insert || forall x :: Weight(c, x) <= Count(s, x)
  }

  lemma DropNodeCounts(s: State, n: string, x: Item)
    requires s.Valid()
    ensures DropNode(s, n).Valid() && DropNode(s, n).arcs == s.arcs
    ensures Count(DropNode(s, n), x) == Count(s, x) - if x == NodeItem(n) && Count(s, x) > 0 then 1 else 0
  {}

  lemma DropArcCounts(s: State, a: Arc, x: Item)
    requires s.Valid()
    ensures Count(DropArc(s, a), x) >= Count(s, x) - Weight(ArcChange(a, false), x)
    ensures Fits(s, ArcChange(a, false)) ==> Count(DropArc(s, a), x) == Count(s, x) - Weight(ArcChange(a, false), x)
  {
    hide DropNode;
    var c := ArcChange(a, false);
    var once := DropNode(s, a.source);
    DropNodeCounts(s, a.source, x);
    DropNodeCounts(once, a.target, x);
    if Fits(s, c) {
      assert Weight(c, ArcItem(a)) <= Count(s, ArcItem(a));
      assert Weight(c, x) <= Count(s, x);
    }
  }

  /** A change that does not fit leaves more than it should. */
  lemma StepCounts(s: State, c: Change, x: Item)
    requires s.Valid()
    ensures Count(Step(s, c), x) >= Count(s, x) + Signed(c, x)
    ensures Fits(s, c) ==> Count(Step(s, c), x) == Count(s, x) + Signed(c, x)
  {
    hide DropArc, DropNode, Fits, State.Valid;
    match c
    case ModalChange(_, _) =>
    case NodeChange(n, _) =>
      DropNodeCounts(s, n, x);
      FitsHere(s, c, x);
    case ArcChange(a, insert) =>
      DropArcCounts(s, a, x);
  }

  lemma FitsHere(s: State, c: Change, x: Item)
    ensures Fits(s, c) && !c.insert ==> Weight(c, x) <= Count(s, x)
  {}

  /** The edge is found from its source. */
  predicate Finds(s: State, a: Arc) {
    a.source in s.edges && a in s.edges[a.source]
  }

  /** An edge stays found as long as it and its source are counted. */
  lemma StepFinds(s: State, c: Change, a: Arc)
    requires s.Valid() && Fits(s, c)
    ensures Finds(Step(s, c), a) <==>
              c == ArcChange(a, true) ||
              (Finds(s, a) && Count(Step(s, c), NodeItem(a.source)) > 0 && Count(Step(s, c), ArcItem(a)) > 0)
  {
    if c.ArcChange? && !c.insert {
      assert Weight(c, ArcItem(c.arc)) <= Count(s, ArcItem(c.arc));
      assert Weight(c, NodeItem(c.arc.source)) <= Count(s, NodeItem(c.arc.source));
      assert Weight(c, NodeItem(c.arc.target)) <= Count(s, NodeItem(c.arc.target));
    }
  }

  // ---------------------------------------------------------------------------
  // Runs of changes

  ghost function StepAll(s: State, changes: seq<Change>): (r: State)
    requires s.Valid()
    ensures r.Valid()
    decreases |changes|
  {
    if changes == [] then s
    else
      StepAll(Step(s, changes[0]), changes[1..])
  }

  /** Every delete finds what it deletes. */
  ghost predicate AllFit(s: State, changes: seq<Change>)
    requires s.Valid()
    decreases |changes|
  {
    changes == [] ||
    (Fits(s, changes[0]) && AllFit(Step(s, changes[0]), changes[1..]))
  }

  lemma {:induction false} StepAllAppend(s: State, changes: seq<Change>, more: seq<Change>)
    requires s.Valid()
    ensures StepAll(s, changes + more) == StepAll(StepAll(s, changes), more)
    ensures AllFit(s, changes + more) <==> AllFit(s, changes) && AllFit(StepAll(s, changes), more)
    decreases |changes|
  {
    hide Step, Fits, State.Valid;
    var all := changes + more;
    if changes == [] {
      assert all == more;
    } else {
      assert all[1..] == changes[1..] + more;
      StepAllAppend(Step(s, changes[0]), changes[1..], more);
    }
  }

  lemma {:induction false} NetAppend(changes: seq<Change>, more: seq<Change>, x: Item)
    ensures Net(changes + more, x) == Net(changes, x) + Net(more, x)
    decreases |changes|
  {
    if changes == [] {
      assert changes + more == more;
    } else {
      assert (changes + more)[1..] == changes[1..] + more;
      NetAppend(changes[1..], more, x);
    }
  }

  lemma {:induction false} StepAllCounts(s: State, changes: seq<Change>, x: Item)
    requires s.Valid()
    ensures Count(StepAll(s, changes), x) >= Count(s, x) + Net(changes, x)
    ensures AllFit(s, changes) ==> Count(StepAll(s, changes), x) == Count(s, x) + Net(changes, x)
    decreases |changes|
  {
    hide Step, Count, Signed, State.Valid;
    if changes != [] {
      StepCounts(s, changes[0], x);
      StepAllCounts(Step(s, changes[0]), changes[1..], x);
    }
  }

  /** A delete that misses something is seen in the counts afterwards. */
  lemma {:induction false} MissIsSeen(s: State, changes: seq<Change>) returns (x: Item)
    requires s.Valid() && !AllFit(s, changes)
    ensures Count(StepAll(s, changes), x) > Count(s, x) + Net(changes, x)
    decreases |changes|
  {
    hide Step, Count, Weight, State.Valid;
    var c, rest := changes[0], changes[1..];
    if !Fits(s, c) {
      x :| Weight(c, x) > Count(s, x);
      StepAllCounts(Step(s, c), rest, x);
    } else {
      x := MissIsSeen(Step(s, c), rest);
      StepCounts(s, c, x);
    }
  }

  /** No count is ever taken below zero. */
  lemma {:induction false} FitsIfNeverNegative(s: State, changes: seq<Change>)
    requires s.Valid()
    ensures AllFit(s, changes) <==> forall x, k | 0 <= k <= |changes| :: Count(s, x) + Net(changes[..k], x) >= 0
    decreases |changes|
  {
    hide Step, Count, Weight, State.Valid;
    if AllFit(s, changes) {
      forall x, k | 0 <= k <= |changes|
        ensures Count(s, x) + Net(changes[..k], x) >= 0
      {
        assert changes[..k] + changes[k..] == changes;
        StepAllAppend(s, changes[..k], changes[k..]);
        StepAllCounts(s, changes[..k], x);
      }
    } else {
      var c, rest := changes[0], changes[1..];
        if !Fits(s, c) {
        var x :| Weight(c, x) > Count(s, x);
        assert changes[..1][1..] == [];
        assert Count(s, x) + Net(changes[..1], x) < 0;
      } else {
        FitsIfNeverNegative(Step(s, c), rest);
        var x, k :| 0 <= k <= |rest| && Count(Step(s, c), x) + Net(rest[..k], x) < 0;
        StepCounts(s, c, x);
        assert changes[..k + 1][1..] == rest[..k];
        assert Count(s, x) + Net(changes[..k + 1], x) < 0;
      }
    }
  }

  // ---------------------------------------------------------------------------
  // Which edges are still found after a run of changes

  /** At some point the edge's source is not counted, and the edge is not inserted after that. */
  ghost predicate IsLost(s: State, changes: seq<Change>, a: Arc) {
    exists k :: 0 <= k <= |changes| && Count(s, NodeItem(a.source)) + Net(changes[..k], NodeItem(a.source)) == 0
                && ArcChange(a, true) !in changes[k..]
  }

  lemma {:induction false} NotInserted(changes: seq<Change>, a: Arc)
    requires ArcChange(a, true) !in changes
    ensures Net(changes, ArcItem(a)) <= 0
    decreases |changes|
  {
    if changes != [] {
      NotInserted(changes[1..], a);
    }
  }

  lemma LostStep(s: State, c: Change, rest: seq<Change>, a: Arc)
    requires s.Valid() && Fits(s, c)
    ensures IsLost(s, [c] + rest, a) <==>
              || (Count(s, NodeItem(a.source)) == 0 && ArcChange(a, true) !in [c] + rest)
              || IsLost(Step(s, c), rest, a)
  {
    hide Step, Count, Signed, Fits, State.Valid;
    var changes, x := [c] + rest, NodeItem(a.source);
    StepCounts(s, c, x);
    forall k | 1 <= k <= |changes|
      ensures changes[k..] == rest[k - 1..]
      ensures Count(s, x) + Net(changes[..k], x) == Count(Step(s, c), x) + Net(rest[..k - 1], x)
    {
      assert changes[..k][1..] == rest[..k - 1];
    }
    if k :| 0 <= k <= |changes| && Count(s, x) + Net(changes[..k], x) == 0 && ArcChange(a, true) !in changes[k..] {
      if k > 0 {
        assert Count(Step(s, c), x) + Net(rest[..k - 1], x) == 0 && ArcChange(a, true) !in rest[k - 1..];
      }
    }
    if k :| 0 <= k <= |rest| && Count(Step(s, c), x) + Net(rest[..k], x) == 0 && ArcChange(a, true) !in rest[k..] {
      assert Count(s, x) + Net(changes[..k + 1], x) == 0 && ArcChange(a, true) !in changes[k + 1..];
    }
    if Count(s, x) == 0 && ArcChange(a, true) !in changes {
      assert Net(changes[..0], x) == 0 && changes[0..] == changes;
    }
  }

  /** An edge that is still counted is still found unless it was lost on the way, or not found in the beginning. */
  lemma {:induction false} FoundAtEnd(s: State, changes: seq<Change>, a: Arc)
    requires s.Valid() && AllFit(s, changes)
    requires Count(StepAll(s, changes), ArcItem(a)) > 0
    ensures Finds(StepAll(s, changes), a) <==>
              !IsLost(s, changes, a) && (Finds(s, a) || ArcChange(a, true) in changes)
    decreases |changes|
  {
    hide Step, Net, Fits, State.Valid, IsLost;
    FoundIsCounted(s, a);
    if changes == [] {
      LostNothing(s, a);
    } else {
      var c, rest := changes[0], changes[1..];
      assert changes == [c] + rest;
      StepFinds(s, c, a);
      LostStep(s, c, rest, a);
      FoundIsCounted(Step(s, c), a);
      FoundAtEnd(Step(s, c), rest, a);
      if ArcChange(a, true) !in rest {
        NotInserted(rest, a);
        StepAllCounts(Step(s, c), rest, ArcItem(a));
      }
      LostAtOnce(Step(s, c), rest, a);
    }
  }

  lemma FoundIsCounted(s: State, a: Arc)
    requires s.Valid()
    ensures Finds(s, a) ==> Count(s, NodeItem(a.source)) > 0 && Count(s, ArcItem(a)) > 0
  {}

  lemma LostNothing(s: State, a: Arc)
    requires s.Valid()
    ensures IsLost(s, [], a) <==> Count(s, NodeItem(a.source)) == 0
  {
    var none: seq<Change> := [];
    assert none[..0] == none && Net(none[..0], NodeItem(a.source)) == 0;
  }

  lemma LostAtOnce(s: State, changes: seq<Change>, a: Arc)
    ensures Count(s, NodeItem(a.source)) == 0 && ArcChange(a, true) !in changes ==> IsLost(s, changes, a)
  {
    assert changes[..0] == [] && changes[0..] == changes;
  }

  // ---------------------------------------------------------------------------
  // Undoing

  function Inverse(c: Change): Change {
    match c
    case NodeChange(n, insert) => NodeChange(n, !insert)
    case ArcChange(a, insert) => ArcChange(a, !insert)
    case ModalChange(record, insert) => ModalChange(record, !insert)
  }

  /** Each change reversed, in the same order. */
  function Reversed(changes: seq<Change>): (r: seq<Change>)
    ensures |r| == |changes| && forall i | 0 <= i < |r| :: r[i] == Inverse(changes[i])
  {
    seq(|changes|, i requires 0 <= i < |changes| => Inverse(changes[i]))
  }

  lemma {:induction false} NetReversed(changes: seq<Change>, x: Item)
    ensures Net(Reversed(changes), x) == -Net(changes, x)
    decreases |changes|
  {
    if changes != [] {
      assert Reversed(changes)[1..] == Reversed(changes[1..]);
      NetReversed(changes[1..], x);
    }
  }

  ghost predicate SameCounts(s: State, s': State) {
    forall x :: Count(s, x) == Count(s', x)
  }

  /** States with the same counts differ at most in what edges are found. */
  lemma SameCountsSameState(s: State, s': State)
    requires s.Valid() && s'.Valid() && SameCounts(s, s')
    ensures s.nodes == s'.nodes && s.arcs == s'.arcs
  {
    forall n
      ensures CountOf(s.nodes, n) == CountOf(s'.nodes, n)
    {
      assert Count(s, NodeItem(n)) == Count(s', NodeItem(n));
    }
    forall a
      ensures CountOf(s.arcs, a) == CountOf(s'.arcs, a)
    {
      assert Count(s, ArcItem(a)) == Count(s', ArcItem(a));
    }
    SameCountsSameMap(s.nodes, s'.nodes);
    SameCountsSameMap(s.arcs, s'.arcs);
  }

  /** Where the changes lead, and where taking them back leads, the first one first. */
  ghost function Undone(s: State, changes: seq<Change>): (r: State)
    requires s.Valid()
    ensures r.Valid()
  {
    StepAll(StepAll(s, changes), Reversed(changes))
  }

  /** No end of the batch takes away more than was there before the batch. */
  ghost predicate IsCovered(s: State, changes: seq<Change>) {
    forall x, k | 0 <= k <= |changes| :: Count(s, x) + Net(changes[k..], x) >= 0
  }

  /** How often the item is counted after the first changes have been taken back. */
  lemma CountWhileUndoing(s: State, changes: seq<Change>, k: nat, x: Item)
    requires s.Valid() && AllFit(s, changes) && k <= |changes|
    ensures Count(StepAll(s, changes), x) + Net(Reversed(changes)[..k], x) == Count(s, x) + Net(changes[k..], x)
  {
    hide Step, Count, Net, Fits, State.Valid;
    StepAllCounts(s, changes, x);
    assert changes == changes[..k] + changes[k..] && Reversed(changes)[..k] == Reversed(changes[..k]);
    NetAppend(changes[..k], changes[k..], x);
    NetReversed(changes[..k], x);
  }

  lemma UndoFits(s: State, changes: seq<Change>)
    requires s.Valid() && AllFit(s, changes)
    ensures AllFit(StepAll(s, changes), Reversed(changes)) <==> IsCovered(s, changes)
  {
    hide Step, Count, Net, Fits, State.Valid;
    var u, undo := StepAll(s, changes), Reversed(changes);
    FitsIfNeverNegative(u, undo);
    forall x, k | 0 <= k <= |changes|
      ensures Count(u, x) + Net(undo[..k], x) == Count(s, x) + Net(changes[k..], x)
    {
      CountWhileUndoing(s, changes, k, x);
    }
  }

  /** Taking changes back in the order in which they were made restores all counts iff no end of them takes too much. */
  lemma UndoRestoresCounts(s: State, changes: seq<Change>)
    requires s.Valid() && AllFit(s, changes)
    ensures SameCounts(Undone(s, changes), s) <==> IsCovered(s, changes)
  {
    hide Step, Count, Net, Fits, State.Valid, IsCovered;
    var u, undo := StepAll(s, changes), Reversed(changes);
    UndoFits(s, changes);
    if IsCovered(s, changes) {
      forall x
        ensures Count(Undone(s, changes), x) == Count(s, x)
      {
        StepAllCounts(u, undo, x);
        StepAllCounts(s, changes, x);
        NetReversed(changes, x);
      }
    } else {
      var x := MissIsSeen(u, undo);
      StepAllCounts(s, changes, x);
      NetReversed(changes, x);
      assert Count(Undone(s, changes), x) > Count(s, x);
    }
  }

  /** All edges counted are found. */
  ghost predicate FindsAll(s: State) {
    forall a | Count(s, ArcItem(a)) > 0 :: Finds(s, a)
  }

  /** No end of the batch takes an edge's source away without taking the edge away. */
  ghost predicate ChangesKeepSources(s: State, changes: seq<Change>) {
    forall a, k | Count(s, ArcItem(a)) > 0 && 0 <= k <= |changes|
                  && Count(s, NodeItem(a.source)) + Net(changes[k..], NodeItem(a.source)) == 0 ::
      ArcChange(a, false) in changes[k..]
  }

  lemma ReversedMember(changes: seq<Change>, k: nat, a: Arc)
    requires k <= |changes|
    ensures ArcChange(a, true) in Reversed(changes)[k..] <==> ArcChange(a, false) in changes[k..]
  {
    var undo := Reversed(changes);
    forall i | 0 <= i < |changes[k..]|
      ensures undo[k..][i] == Inverse(changes[k..][i])
    {}
    if ArcChange(a, true) in undo[k..] {
      var i :| 0 <= i < |undo[k..]| && undo[k..][i] == ArcChange(a, true);
      assert undo[k..][i] == Inverse(changes[k..][i]);
    }
    if ArcChange(a, false) in changes[k..] {
      var i :| 0 <= i < |changes[k..]| && changes[k..][i] == ArcChange(a, false);
      assert undo[k..][i] == Inverse(changes[k..][i]);
    }
  }

  /** And it restores the edges iff, besides, it takes no source away from an edge. */
  lemma UndoRestoresEdges(s: State, changes: seq<Change>)
    requires s.Valid() && AllFit(s, changes) && IsCovered(s, changes)
    requires FindsAll(StepAll(s, changes))
    ensures FindsAll(Undone(s, changes)) <==> ChangesKeepSources(s, changes)
  {
    hide Step, Count, Net, Fits, State.Valid, IsCovered, IsLost, Finds;
    var u, undo, r := StepAll(s, changes), Reversed(changes), Undone(s, changes);
    UndoFits(s, changes);
    UndoRestoresCounts(s, changes);
    forall a | Count(s, ArcItem(a)) > 0
      ensures Finds(r, a) <==> !IsLost(u, undo, a)
    {
      assert Count(r, ArcItem(a)) == Count(s, ArcItem(a));
      FoundAtEnd(u, undo, a);
      if !Finds(u, a) && ArcChange(a, true) !in undo {
        assert Count(u, ArcItem(a)) == 0;
        NotInserted(undo, a);
        StepAllCounts(u, undo, ArcItem(a));
      }
    }
    forall a
      ensures IsLost(u, undo, a) <==>
                exists k :: 0 <= k <= |changes| && ArcChange(a, false) !in changes[k..] &&
                            Count(s, NodeItem(a.source)) + Net(changes[k..], NodeItem(a.source)) == 0
    {
      LostWhileUndoing(s, changes, a);
    }
    assert forall a :: Count(r, ArcItem(a)) == Count(s, ArcItem(a));
  }

  lemma LostWhileUndoing(s: State, changes: seq<Change>, a: Arc)
    requires s.Valid() && AllFit(s, changes)
    ensures IsLost(StepAll(s, changes), Reversed(changes), a) <==>
              exists k :: 0 <= k <= |changes| && ArcChange(a, false) !in changes[k..] &&
                          Count(s, NodeItem(a.source)) + Net(changes[k..], NodeItem(a.source)) == 0
  {
    hide Step, Count, Net, Fits, State.Valid;
    var u, undo, x := StepAll(s, changes), Reversed(changes), NodeItem(a.source);
    forall k | 0 <= k <= |changes|
      ensures Count(u, x) + Net(undo[..k], x) == Count(s, x) + Net(changes[k..], x)
      ensures ArcChange(a, true) in undo[k..] <==> ArcChange(a, false) in changes[k..]
    {
      CountWhileUndoing(s, changes, k, x);
      ReversedMember(changes, k, a);
    }
  }
}
