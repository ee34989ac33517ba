/** What formulas contribute to the graph of dependencies; events that insert and delete formulas, and undoing them. */
module DependencyEvents {
  import opened ModalIndexes
  import opened DependencyChanges

  /** What one formula contributes: nodes and edges once each, and modals with their counts. */
  datatype Parts = Parts(nodes: set<string>, arcs: set<Arc>, modals: Modals)

  datatype Event = Event(formula: Parts, insert: bool)

  predicate TidyEvents(events: seq<Event>) {
    forall e | e in events :: TidyModals(e.formula.modals)
  }

  // ---------------------------------------------------------------------------
  // How often formulas count nodes, edges and modals

  function Leaving(arcs: set<Arc>, n: string): set<Arc> {
    set a | a in arcs && a.source == n
  }

  function Entering(arcs: set<Arc>, n: string): set<Arc> {
    set a | a in arcs && a.target == n
  }

  function EndsAt(arcs: set<Arc>, n: string): nat {
    |Leaving(arcs, n)| + |Entering(arcs, n)|
  }

  predicate InGraph(x: Item) {
    !x.ModalItem?
  }

  /** A node counts for itself and for each end of an edge at it. */
  function PartsCount(nodes: set<string>, arcs: set<Arc>, x: Item): nat {
    match x
    case NodeItem(n) => (if n in nodes then 1 else 0) + EndsAt(arcs, n)
    case ArcItem(a) => if a in arcs then 1 else 0
    case ModalItem(_, _) => 0
  }

  function PartCount(f: Parts, x: Item): nat {
    if InGraph(x) then PartsCount(f.nodes, f.arcs, x) else SharedCounts.CountIn(Under(f.modals, x.modal), x.table)
  }

  lemma NoEnds(n: string)
    ensures EndsAt({}, n) == 0
  {
    assert Leaving({}, n) == {} && Entering({}, n) == {};
  }

  lemma NothingCounted(x: Item)
    ensures PartsCount({}, {}, x) == 0
  {
    if x.NodeItem? {
      NoEnds(x.node);
    }
  }

  lemma OneMoreNode(nodes: set<string>, n: string, x: Item, insert: bool)
    requires n !in nodes
    ensures PartsCount(nodes + {n}, {}, x) == PartsCount(nodes, {}, x) + Weight(NodeChange(n, insert), x)
  {}

  lemma OneMoreArc(nodes: set<string>, arcs: set<Arc>, a: Arc, x: Item, insert: bool)
    requires a !in arcs
    ensures PartsCount(nodes, arcs + {a}, x) ==
              PartsCount(nodes, arcs, x) + Weight(ArcChange(a, insert), x)
  {
    hide EndsAt;
    if x.NodeItem? {
      OneMoreEnd(arcs, a, x.node);
    }
  }

  lemma OneMoreEnd(arcs: set<Arc>, a: Arc, n: string)
    requires a !in arcs
    ensures EndsAt(arcs + {a}, n) ==
              EndsAt(arcs, n) + (if a.source == n then 1 else 0) + (if a.target == n then 1 else 0)
  {
    var from, to := Leaving(arcs, n), Entering(arcs, n);
    assert Leaving(arcs + {a}, n) == if a.source == n then from + {a} else from;
    assert Entering(arcs + {a}, n) == if a.target == n then to + {a} else to;
    OneMore(from, a);
    OneMore(to, a);
  }

  lemma OneMore<T(!new)>(xs: set<T>, x: T)
    requires x !in xs
    ensures |xs + {x}| == |xs| + 1
  {}

  /** An edge counts its source. */
  lemma SourceCounts(f: Parts, a: Arc)
    ensures PartCount(f, ArcItem(a)) <= PartCount(f, NodeItem(a.source))
  {
    if a in f.arcs {
      assert a in Leaving(f.arcs, a.source);
      OneMore(Leaving(f.arcs, a.source) - {a}, a);
    }
  }

  function SignedParts(e: Event, x: Item): int {
    if e.insert then PartCount(e.formula, x) else 0 - PartCount(e.formula, x)
  }

  /** The changes that one event makes. */
  ghost predicate IsBlock(block: seq<Change>, e: Event) {
    AllOf(block, e.insert) && forall x | InGraph(x) :: Net(block, x) == SignedParts(e, x)
  }

  /** The changes that the events make, one after the other. */
  ghost predicate Records(events: seq<Event>, changes: seq<Change>)
    decreases |events|
  {
    if events == [] then changes == []
    else exists k :: 0 <= k <= |changes| && IsBlock(changes[k..], events[|events| - 1])
                     && Records(events[..|events| - 1], changes[..k])
  }

  // ---------------------------------------------------------------------------
  // Conservation

  function Total(fs: seq<Parts>, x: Item): nat {
    if fs == [] then 0 else Total(fs[..|fs| - 1], x) + PartCount(fs[|fs| - 1], x)
  }

  /** Everything is counted as often as the formulas contribute it, and all edges are found. */
  ghost predicate Accounts(s: State, fs: seq<Parts>) {
    s.Valid() && FindsAll(s) && forall x | InGraph(x) :: Count(s, x) == Total(fs, x)
  }

  ghost function AfterEvent(fs: seq<Parts>, e: Event): seq<Parts>
    requires e.insert || e.formula in fs
  {
    if e.insert then fs + [e.formula]
    else
      var i :| 0 <= i < |fs| && fs[i] == e.formula;
      fs[..i] + fs[i + 1..]
  }

  /** Only formulas that are inserted are deleted. */
  ghost predicate DeletesPresent(fs: seq<Parts>, events: seq<Event>)
    decreases |events|, 0
  {
    events == [] ||
    (var init, e := events[..|events| - 1], events[|events| - 1];
     DeletesPresent(fs, init) && (e.insert || e.formula in AfterEvents(fs, init)))
  }

  ghost function AfterEvents(fs: seq<Parts>, events: seq<Event>): seq<Parts>
    requires DeletesPresent(fs, events)
    decreases |events|, 1
  {
    if events == [] then fs else AfterEvent(AfterEvents(fs, events[..|events| - 1]), events[|events| - 1])
  }

  lemma {:induction false} TotalAt(fs: seq<Parts>, i: nat, x: Item)
    requires i < |fs|
    ensures Total(fs, x) == Total(fs[..i] + fs[i + 1..], x) + PartCount(fs[i], x)
    decreases |fs|
  {
    hide PartCount;
    var n := |fs| - 1;
    var rest := fs[..i] + fs[i + 1..];
    if i == n {
      assert rest == fs[..n];
    } else {
      TotalAt(fs[..n], i, x);
      assert rest[..n - 1] == fs[..n][..i] + fs[..n][i + 1..] && rest[n - 1] == fs[n];
    }
  }

  lemma TotalAfter(fs: seq<Parts>, e: Event, x: Item)
    requires e.insert || e.formula in fs
    ensures Total(AfterEvent(fs, e), x) == Total(fs, x) + SignedParts(e, x)
  {
    hide PartCount;
    if e.insert {
      assert (fs + [e.formula])[..|fs|] == fs;
    } else {
      var i :| 0 <= i < |fs| && fs[i] == e.formula && AfterEvent(fs, e) == fs[..i] + fs[i + 1..];
      TotalAt(fs, i, x);
    }
  }

  lemma {:induction false} TotalOfSource(fs: seq<Parts>, a: Arc)
    ensures Total(fs, ArcItem(a)) <= Total(fs, NodeItem(a.source))
    decreases |fs|
  {
    hide PartCount;
    if fs != [] {
      TotalOfSource(fs[..|fs| - 1], a);
      SourceCounts(fs[|fs| - 1], a);
    }
  }

  /** Modals are not counted in the graph. */
  lemma {:induction false} NetOutsideGraph(changes: seq<Change>, x: Item)
    requires !InGraph(x)
    ensures Net(changes, x) == 0
    decreases |changes|
  {
    if changes != [] {
      NetOutsideGraph(changes[1..], x);
    }
  }

  /** The net effect of changes of one kind has one sign. */
  lemma {:induction false} NetOfKind(changes: seq<Change>, insert: bool, x: Item)
    requires AllOf(changes, insert)
    ensures if insert then Net(changes, x) >= 0 else Net(changes, x) <= 0
    decreases |changes|
  {
    hide Weight;
    if changes != [] {
      assert changes[0] in changes;
      NetOfKind(changes[1..], insert, x);
    }
  }

  lemma NetOfPart(changes: seq<Change>, insert: bool, k: nat, x: Item)
    requires AllOf(changes, insert) && k <= |changes|
    ensures Net(changes, x) == Net(changes[..k], x) + Net(changes[k..], x)
    ensures if insert then 0 <= Net(changes[..k], x) <= Net(changes, x) && 0 <= Net(changes[k..], x) <= Net(changes, x)
            else 0 >= Net(changes[..k], x) >= Net(changes, x) && 0 >= Net(changes[k..], x) >= Net(changes, x)
  {
    assert changes == changes[..k] + changes[k..];
    NetAppend(changes[..k], changes[k..], x);
    NetOfKind(changes[..k], insert, x);
    NetOfKind(changes[k..], insert, x);
  }

  /** If what a source counts never falls to zero while the edge is counted, all edges stay found. */
  lemma NothingIsLost(s: State, changes: seq<Change>, low: int, a: Arc)
    requires forall k | 0 <= k <= |changes| ::
               Count(s, NodeItem(a.source)) + Net(changes[..k], NodeItem(a.source)) >= low
    requires low > 0
    ensures !IsLost(s, changes, a)
  {}

  /** One event keeps the counts those of the formulas. */
  lemma BlockConserves(s: State, fs: seq<Parts>, e: Event, block: seq<Change>)
    requires Accounts(s, fs) && (e.insert || e.formula in fs) && IsBlock(block, e)
    ensures AllFit(s, block) && Accounts(StepAll(s, block), AfterEvent(fs, e))
  {
    hide Step, State.Valid, Count, Weight, PartCount, IsLost, Finds, AfterEvent, Net, Total;
    var after, r := AfterEvent(fs, e), StepAll(s, block);
    forall x | InGraph(x)
      ensures Total(after, x) == Count(s, x) + Net(block, x)
    {
      TotalAfter(fs, e, x);
    }
    forall x, k | 0 <= k <= |block|
      ensures InGraph(x) ==> Count(s, x) + Net(block[..k], x) >= if e.insert then Count(s, x) else Total(after, x)
      ensures Count(s, x) + Net(block[..k], x) >= 0
    {
      NetOfPart(block, e.insert, k, x);
      if !InGraph(x) {
        NetOutsideGraph(block[..k], x);
      }
    }
    FitsIfNeverNegative(s, block);
    forall x | InGraph(x)
      ensures Count(r, x) == Total(after, x)
    {
      StepAllCounts(s, block, x);
    }
    forall a | Count(r, ArcItem(a)) > 0
      ensures Finds(r, a)
    {
      FoundAtEnd(s, block, a);
      TotalOfSource(after, a);
      StepAllCounts(s, block, ArcItem(a));
      FoundIsCounted(s, a);
      if ArcChange(a, true) in block {
        assert ArcChange(a, true).insert == e.insert;
        InsertedIsNotLost(s, block, a);
      } else {
        NotInserted(block, a);
        NothingIsLost(s, block, if e.insert then Count(s, NodeItem(a.source)) else Total(after, NodeItem(a.source)), a);
      }
    }
  }

  lemma {:induction false} MemberCounts(changes: seq<Change>, insert: bool, c: Change, x: Item)
    requires AllOf(changes, insert) && c in changes
    ensures if insert then Net(changes, x) >= Weight(c, x) else Net(changes, x) <= 0 - Weight(c, x)
    decreases |changes|
  {
    hide Weight;
    assert changes[0] in changes;
    assert AllOf(changes[1..], insert);
    if c == changes[0] {
      NetOfKind(changes[1..], insert, x);
    } else {
      MemberCounts(changes[1..], insert, c, x);
    }
  }

  lemma InsertedIsNotLost(s: State, changes: seq<Change>, a: Arc)
    requires AllOf(changes, true) && ArcChange(a, true) in changes
    ensures !IsLost(s, changes, a)
  {
    hide Count;
    forall k | 0 <= k <= |changes| && Count(s, NodeItem(a.source)) + Net(changes[..k], NodeItem(a.source)) == 0
      ensures ArcChange(a, true) in changes[k..]
    {
      assert changes == changes[..k] + changes[k..];
      if ArcChange(a, true) in changes[..k] {
        MemberCounts(changes[..k], true, ArcChange(a, true), NodeItem(a.source));
      }
    }
  }

  /** Conservation: so do any events that delete only what is inserted. */
  lemma {:induction false} EventsConserve(s: State, fs: seq<Parts>, events: seq<Event>, changes: seq<Change>)
    requires Accounts(s, fs) && DeletesPresent(fs, events) && Records(events, changes)
    ensures AllFit(s, changes) && Accounts(StepAll(s, changes), AfterEvents(fs, events))
    decreases |events|
  {
    hide Step, State.Valid, IsBlock, AfterEvent, Total, Count;
    if events != [] {
      var init, e := events[..|events| - 1], events[|events| - 1];
      var k :| 0 <= k <= |changes| && IsBlock(changes[k..], e) && Records(init, changes[..k]);
      assert changes == changes[..k] + changes[k..];
      EventsConserve(s, fs, init, changes[..k]);
      BlockConserves(StepAll(s, changes[..k]), AfterEvents(fs, init), e, changes[k..]);
      StepAllAppend(s, changes[..k], changes[k..]);
    }
  }

  // ---------------------------------------------------------------------------
  // Undoing a batch

  function NetEvents(events: seq<Event>, x: Item): int {
    if events == [] then 0 else SignedParts(events[0], x) + NetEvents(events[1..], x)
  }

  lemma {:induction false} NetEventsAppend(events: seq<Event>, e: Event, x: Item)
    ensures NetEvents(events + [e], x) == NetEvents(events, x) + SignedParts(e, x)
    decreases |events|
  {
    hide SignedParts;
    if events == [] {
      assert [e][1..] == [] && events + [e] == [e];
    } else {
      assert (events + [e])[1..] == events[1..] + [e];
      NetEventsAppend(events[1..], e, x);
    }
  }

  /** No end of the batch deletes more of anything than was there before the batch. */
  ghost predicate IsCoveredBatch(s: State, events: seq<Event>) {
    forall x, j | InGraph(x) && 0 <= j <= |events| :: Count(s, x) + NetEvents(events[j..], x) >= 0
  }

  ghost predicate ChangesCover(v: int, changes: seq<Change>, x: Item) {
    forall k | 0 <= k <= |changes| :: v + Net(changes[k..], x) >= 0
  }

  ghost predicate EventsCover(v: int, events: seq<Event>, x: Item) {
    forall j | 0 <= j <= |events| :: v + NetEvents(events[j..], x) >= 0
  }

  /** Within what one event changes, the count stays between those before and after. */
  lemma CoverSplit(v: int, changes: seq<Change>, n: nat, insert: bool, x: Item)
    requires n <= |changes| && AllOf(changes[n..], insert)
    ensures ChangesCover(v, changes, x) <==>
              v >= 0 && ChangesCover(v + Net(changes[n..], x), changes[..n], x)
  {
    hide Net, AllOf;
    var w := Net(changes[n..], x);
    EmptyNets(x);
    assert changes[|changes|..] == [] && changes[..n][n..] == [];
    forall k | 0 <= k <= n
      ensures Net(changes[k..], x) == Net(changes[..n][k..], x) + w
    {
      assert changes[k..] == changes[..n][k..] + changes[n..];
      NetAppend(changes[..n][k..], changes[n..], x);
    }
    forall k | n <= k <= |changes|
      ensures v >= 0 && v + w >= 0 ==> v + Net(changes[k..], x) >= 0
    {
      assert changes[n..][k - n..] == changes[k..];
      NetOfPart(changes[n..], insert, k - n, x);
    }
    if ChangesCover(v + w, changes[..n], x) {
      assert v + w + Net(changes[..n][n..], x) >= 0;
    }
    if ChangesCover(v, changes, x) {
      assert v + Net(changes[|changes|..], x) >= 0;
    }
  }

  lemma EventsCoverSplit(v: int, events: seq<Event>, e: Event, x: Item)
    ensures EventsCover(v, events + [e], x) <==> v >= 0 && EventsCover(v + SignedParts(e, x), events, x)
  {
    hide NetEvents, SignedParts;
    var all := events + [e];
    EmptyNets(x);
    assert all[|all|..] == [];
    forall j | 0 <= j <= |events|
      ensures NetEvents(all[j..], x) == NetEvents(events[j..], x) + SignedParts(e, x)
    {
      assert all[j..] == events[j..] + [e];
      NetEventsAppend(events[j..], e, x);
    }
    if EventsCover(v, all, x) {
      assert v + NetEvents(all[|all|..], x) >= 0;
    }
  }

  lemma {:induction false} CoveredByEvents(v: int, events: seq<Event>, changes: seq<Change>, x: Item)
    requires InGraph(x) && Records(events, changes)
    ensures ChangesCover(v, changes, x) <==> EventsCover(v, events, x)
    decreases |events|
  {
    hide IsBlock, ChangesCover, EventsCover, SignedParts;
    if events == [] {
      NothingToCover(v, x);
    } else {
      var init, e := events[..|events| - 1], events[|events| - 1];
      var n :| 0 <= n <= |changes| && IsBlock(changes[n..], e) && Records(init, changes[..n]);
      BlockKind(changes[n..], e);
      BlockNet(changes[n..], e, x);
      assert events == init + [e];
      CoverSplit(v, changes, n, e.insert, x);
      EventsCoverSplit(v, init, e, x);
      CoveredByEvents(v + SignedParts(e, x), init, changes[..n], x);
    }
  }

  lemma NothingToCover(v: int, x: Item)
    ensures ChangesCover(v, [], x) <==> v >= 0
    ensures EventsCover(v, [], x) <==> v >= 0
  {
    var none: seq<Change>, nothing: seq<Event> := [], [];
    assert none[0..] == none && nothing[0..] == nothing;
    assert v + Net(none[0..], x) == v && v + NetEvents(nothing[0..], x) == v;
  }

  lemma BlockNet(block: seq<Change>, e: Event, x: Item)
    requires InGraph(x) && IsBlock(block, e)
    ensures Net(block, x) == SignedParts(e, x)
  {}

  lemma EmptyNets(x: Item)
    ensures Net([], x) == 0 && NetEvents([], x) == 0
  {}

  /** No end of the batch takes an edge's source away without deleting a formula that has the edge. */
  ghost predicate KeepsSources(s: State, events: seq<Event>) {
    forall a, j | Count(s, ArcItem(a)) > 0 && 0 <= j <= |events|
                  && Count(s, NodeItem(a.source)) + NetEvents(events[j..], NodeItem(a.source)) == 0 ::
      DeletesArc(events[j..], a)
  }

  predicate DeletesArc(events: seq<Event>, a: Arc) {
    exists e :: e in events && !e.insert && a in e.formula.arcs
  }

  /** As KeepsSources, for one edge whose source is counted `v` times. */
  ghost predicate EventsKeep(v: int, events: seq<Event>, a: Arc) {
    forall j | 0 <= j <= |events| && v + NetEvents(events[j..], NodeItem(a.source)) == 0 :: DeletesArc(events[j..], a)
  }

  ghost predicate ChangesKeep(v: int, changes: seq<Change>, a: Arc) {
    forall k | 0 <= k <= |changes| && v + Net(changes[k..], NodeItem(a.source)) == 0 ::
      ArcChange(a, false) in changes[k..]
  }

  lemma EventsKeepSplit(v: int, events: seq<Event>, e: Event, a: Arc)
    ensures EventsKeep(v, events + [e], a) <==>
              && v != 0
              && ((!e.insert && a in e.formula.arcs) || EventsKeep(v + SignedParts(e, NodeItem(a.source)), events, a))
  {
    hide NetEvents, SignedParts;
    var all, x := events + [e], NodeItem(a.source);
    EmptyNets(x);
    assert all[|all|..] == [];
    forall j | 0 <= j <= |events|
      ensures NetEvents(all[j..], x) == NetEvents(events[j..], x) + SignedParts(e, x)
      ensures DeletesArc(all[j..], a) <==> DeletesArc(events[j..], a) || (!e.insert && a in e.formula.arcs)
    {
      assert all[j..] == events[j..] + [e];
      NetEventsAppend(events[j..], e, x);
    }
    if EventsKeep(v, all, a) && v == 0 {
      assert v + NetEvents(all[|all|..], x) == 0;
    }
  }

  /** What one event records deletes an edge if and only if the event does. */
  lemma BlockDeletesArc(block: seq<Change>, e: Event, a: Arc)
    requires IsBlock(block, e)
    ensures ArcChange(a, false) in block <==> !e.insert && a in e.formula.arcs
  {
    BlockNet(block, e, ArcItem(a));
    if ArcChange(a, false) in block {
      assert !e.insert;
      MemberCounts(block, false, ArcChange(a, false), ArcItem(a));
    } else if !e.insert && a in e.formula.arcs {
      NotDeleted(block, a);
    }
  }

  /** Within what one event records the source goes at the latest with the edge. */
  lemma ChangesKeepSplit(v: int, changes: seq<Change>, n: nat, insert: bool, a: Arc)
    requires n <= |changes| && AllOf(changes[n..], insert)
    requires v >= 0 && v + Net(changes[n..], NodeItem(a.source)) >= 0
    ensures ChangesKeep(v, changes, a) <==>
              && v != 0
              && (ArcChange(a, false) in changes[n..]
                  || ChangesKeep(v + Net(changes[n..], NodeItem(a.source)), changes[..n], a))
  {
    hide Net, AllOf;
    var x, block := NodeItem(a.source), changes[n..];
    var w := Net(block, x);
    EmptyNets(x);
    assert changes[|changes|..] == [] && changes[..n][n..] == [];
    forall k | 0 <= k <= n
      ensures Net(changes[k..], x) == Net(changes[..n][k..], x) + w
      ensures ArcChange(a, false) in changes[k..] <==>
                ArcChange(a, false) in changes[..n][k..] || ArcChange(a, false) in block
    {
      assert changes[k..] == changes[..n][k..] + block;
      NetAppend(changes[..n][k..], block, x);
    }
    forall k | n <= k <= |changes|
      ensures v > 0 && v + Net(changes[k..], x) == 0 ==> v + w == 0
      ensures v > 0 && v + Net(changes[k..], x) == 0 && ArcChange(a, false) in block ==>
                ArcChange(a, false) in changes[k..]
    {
      assert block[k - n..] == changes[k..];
      if v > 0 && v + Net(changes[k..], x) == 0 {
        KeptInBlock(v, block, k - n, insert, a);
      }
    }
    assert v + Net(changes[|changes|..], x) == v;
    if ChangesKeep(v + w, changes[..n], a) && v + w == 0 {
      assert v + w + Net(changes[..n][n..], x) == 0;
    }
  }

  lemma KeptInBlock(v: int, block: seq<Change>, k: nat, insert: bool, a: Arc)
    requires k <= |block| && AllOf(block, insert) && v > 0
    requires v + Net(block, NodeItem(a.source)) >= 0 && v + Net(block[k..], NodeItem(a.source)) == 0
    ensures v + Net(block, NodeItem(a.source)) == 0
    ensures ArcChange(a, false) in block ==> ArcChange(a, false) in block[k..]
  {
    NetOfPart(block, insert, k, NodeItem(a.source));
    assert block == block[..k] + block[k..];
    if ArcChange(a, false) in block[..k] {
      assert ArcChange(a, false) in block;
      MemberCounts(block[..k], false, ArcChange(a, false), NodeItem(a.source));
    }
  }

  lemma {:induction false} KeptByEvents(v: int, events: seq<Event>, changes: seq<Change>, a: Arc)
    requires Records(events, changes) && EventsCover(v, events, NodeItem(a.source))
    ensures ChangesKeep(v, changes, a) <==> EventsKeep(v, events, a)
    decreases |events|
  {
    hide IsBlock, ChangesKeep, EventsKeep, EventsCover, SignedParts;
    var x := NodeItem(a.source);
    if events == [] {
      NothingToKeep(v, a);
    } else {
      var init, e := events[..|events| - 1], events[|events| - 1];
      var n :| 0 <= n <= |changes| && IsBlock(changes[n..], e) && Records(init, changes[..n]);
      BlockKind(changes[n..], e);
      BlockNet(changes[n..], e, x);
      BlockDeletesArc(changes[n..], e, a);
      assert events == init + [e];
      EventsCoverSplit(v, init, e, x);
      CoversNow(v + SignedParts(e, x), init, x);
      ChangesKeepSplit(v, changes, n, e.insert, a);
      EventsKeepSplit(v, init, e, a);
      KeptByEvents(v + SignedParts(e, x), init, changes[..n], a);
    }
  }

  lemma CoversNow(v: int, events: seq<Event>, x: Item)
    requires EventsCover(v, events, x)
    ensures v >= 0
  {
    EmptyNets(x);
    assert events[|events|..] == [] && v + NetEvents(events[|events|..], x) >= 0;
  }

  lemma NothingToKeep(v: int, a: Arc)
    ensures ChangesKeep(v, [], a) <==> v != 0
    ensures EventsKeep(v, [], a) <==> v != 0
  {
    var none: seq<Change>, nothing: seq<Event> := [], [];
    EmptyNets(NodeItem(a.source));
    assert none[0..] == none && nothing[0..] == nothing;
    assert v + Net(none[0..], NodeItem(a.source)) == v && v + NetEvents(nothing[0..], NodeItem(a.source)) == v;
  }

  /**
   Taking a batch back in the order in which it was made restores nodes and edges exactly if no end of
   the batch deletes more than was there before the batch, or takes the source away from an edge that it keeps.
   */
  lemma UndoIsExact(s: State, fs: seq<Parts>, events: seq<Event>, changes: seq<Change>)
    requires Accounts(s, fs) && DeletesPresent(fs, events) && Records(events, changes)
    ensures SameCounts(Undone(s, changes), s) <==> IsCoveredBatch(s, events)
    ensures Accounts(Undone(s, changes), fs) <==> IsCoveredBatch(s, events) && KeepsSources(s, events)
  {
    hide Step, State.Valid, Count, Total, Records, Finds, Net, NetEvents;
    EventsConserve(s, fs, events, changes);
    UndoRestoresCounts(s, changes);
    forall x
      ensures ChangesCover(Count(s, x), changes, x) <==> InGraph(x) ==> EventsCover(Count(s, x), events, x)
    {
      if InGraph(x) {
        CoveredByEvents(Count(s, x), events, changes, x);
      } else {
        CoveredOutsideGraph(Count(s, x), changes, x);
      }
    }
    assert IsCovered(s, changes) <==> IsCoveredBatch(s, events);
    if IsCovered(s, changes) {
      UndoRestoresEdges(s, changes);
      forall a: Arc
        ensures ChangesKeep(Count(s, NodeItem(a.source)), changes, a) <==>
                  EventsKeep(Count(s, NodeItem(a.source)), events, a)
      {
        assert InGraph(NodeItem(a.source));
        KeptByEvents(Count(s, NodeItem(a.source)), events, changes, a);
      }
      assert ChangesKeepSources(s, changes) <==> KeepsSources(s, events);
    }
    SameAsTotals(s, Undone(s, changes), fs);
  }

  lemma CoveredOutsideGraph(v: nat, changes: seq<Change>, x: Item)
    requires !InGraph(x)
    ensures ChangesCover(v, changes, x)
  {
    forall k | 0 <= k <= |changes|
      ensures v + Net(changes[k..], x) >= 0
    {
      NetOutsideGraph(changes[k..], x);
    }
  }

  lemma SameAsTotals(s: State, s': State, fs: seq<Parts>)
    requires forall x | InGraph(x) :: Count(s, x) == Total(fs, x)
    ensures SameCounts(s', s) <==> forall x | InGraph(x) :: Count(s', x) == Total(fs, x)
  {}

  lemma {:induction false} NotDeleted(changes: seq<Change>, a: Arc)
    requires ArcChange(a, false) !in changes
    ensures Net(changes, ArcItem(a)) >= 0
    decreases |changes|
  {
    if changes != [] {
      NotDeleted(changes[1..], a);
    }
  }

  /** A formula that is inserted and deleted again in one batch is there after that has been taken back. */
  lemma InsertedAndDeletedReturns(s: State, fs: seq<Parts>, f: Parts, n: string, changes: seq<Change>)
    requires Accounts(s, fs) && n in f.nodes && Count(s, NodeItem(n)) == 0
    requires Records([Event(f, true), Event(f, false)], changes)
    ensures !SameCounts(Undone(s, changes), s)
  {
    hide Step, State.Valid, Count, Records, Accounts, SameCounts, Total;
    var events := [Event(f, true), Event(f, false)];
    assert events[..1] == [events[0]] && events[..1][..0] == [];
    NoEvents(fs);
    assert fs + [f] == AfterEvent(fs, events[0]) == AfterEvents(fs, events[..1]);
    assert DeletesPresent(fs, events);
    UndoIsExact(s, fs, events, changes);
    var x := NodeItem(n);
    assert events[1..] == [events[1]] && events[1..][1..] == [];
    assert NetEvents(events[1..], x) == SignedParts(events[1], x) < 0;
    assert Count(s, x) + NetEvents(events[1..], x) < 0;
  }

  lemma BlockKind(block: seq<Change>, e: Event)
    requires IsBlock(block, e)
    ensures AllOf(block, e.insert)
  {}

  lemma NoEvents(fs: seq<Parts>)
    ensures DeletesPresent(fs, []) && AfterEvents(fs, []) == fs
  {}

  // ---------------------------------------------------------------------------
  // Batches that delete only formulas that were there before

  function Deleted(events: seq<Event>): seq<Parts> {
    if events == [] then []
    else
      var n := |events| - 1;
      Deleted(events[..n]) + if events[n].insert then [] else [events[n].formula]
  }

  /** The events delete different ones of these formulas. */
  ghost predicate DeletesStored(fs: seq<Parts>, events: seq<Event>) {
    multiset(Deleted(events)) <= multiset(fs)
  }

  lemma {:induction false} DeletedSplit(events: seq<Event>, j: nat)
    requires j <= |events|
    ensures Deleted(events) == Deleted(events[..j]) + Deleted(events[j..])
    decreases |events|
  {
    if j == |events| {
      assert events[..j] == events && events[j..] == [];
    } else {
      var n := |events| - 1;
      DeletedSplit(events[..n], j);
      assert events[..n][..j] == events[..j] && events[j..][..n - j] == events[..n][j..]
          && events[j..][n - j] == events[n];
    }
  }

  lemma {:induction false} StoredArePresent(fs: seq<Parts>, events: seq<Event>)
    requires DeletesStored(fs, events)
    ensures DeletesPresent(fs, events)
    ensures multiset(fs) - multiset(Deleted(events)) <= multiset(AfterEvents(fs, events))
    decreases |events|
  {
    hide AfterEvent;
    if events != [] {
      var init, e := events[..|events| - 1], events[|events| - 1];
      StoredArePresent(fs, init);
      var now := AfterEvents(fs, init);
      if !e.insert {
        assert multiset(Deleted(events)) == multiset(Deleted(init)) + multiset{e.formula};
        assert e.formula in multiset(now);
      }
      AfterOneEvent(now, e);
    }
  }

  lemma AfterOneEvent(fs: seq<Parts>, e: Event)
    requires e.insert || e.formula in fs
    ensures multiset(AfterEvent(fs, e)) ==
              if e.insert then multiset(fs) + multiset{e.formula} else multiset(fs) - multiset{e.formula}
  {
    if !e.insert {
      var i :| 0 <= i < |fs| && fs[i] == e.formula && AfterEvent(fs, e) == fs[..i] + fs[i + 1..];
      assert fs == fs[..i] + [fs[i]] + fs[i + 1..];
    }
  }

  lemma WithoutOne(fs: seq<Parts>, gone: seq<Parts>) returns (i: nat)
    requires gone != [] && multiset(gone) <= multiset(fs)
    ensures i < |fs| && fs[i] == gone[|gone| - 1]
    ensures multiset(gone[..|gone| - 1]) <= multiset(fs[..i] + fs[i + 1..])
  {
    var n := |gone| - 1;
    assert gone == gone[..n] + [gone[n]];
    assert gone[n] in multiset(gone) && gone[n] in fs;
    i :| 0 <= i < |fs| && fs[i] == gone[n];
    assert fs == fs[..i] + [fs[i]] + fs[i + 1..];
    var others := multiset(fs[..i] + fs[i + 1..]);
    assert multiset(fs) == others + multiset{fs[i]} && multiset(gone) == multiset(gone[..n]) + multiset{fs[i]};
    forall f: Parts
      ensures multiset(gone[..n])[f] <= others[f]
    {
      assert multiset(gone)[f] <= multiset(fs)[f];
    }
  }

  /** What remains of the formulas without some of them. */
  lemma {:induction false} Without(fs: seq<Parts>, gone: seq<Parts>) returns (rest: seq<Parts>)
    requires multiset(gone) <= multiset(fs)
    ensures forall x :: Total(fs, x) == Total(gone, x) + Total(rest, x)
    decreases |gone|
  {
    hide PartCount;
    if gone == [] {
      rest := fs;
    } else {
      var n := |gone| - 1;
      var i := WithoutOne(fs, gone);
      rest := Without(fs[..i] + fs[i + 1..], gone[..n]);
      forall x
        ensures Total(fs, x) == Total(gone, x) + Total(rest, x)
      {
        TotalAt(fs, i, x);
      }
    }
  }

  lemma LastDeleted(events: seq<Event>, x: Item)
    requires events != []
    ensures var e := events[|events| - 1];
            Total(Deleted(events), x) == Total(Deleted(events[..|events| - 1]),
                x) + if e.insert then 0 else PartCount(e.formula, x)
  {
    hide PartCount;
    var init, e := events[..|events| - 1], events[|events| - 1];
    if e.insert {
      assert Deleted(events) == Deleted(init);
    } else {
      assert Deleted(events)[..|Deleted(init)|] == Deleted(init);
    }
  }

  lemma {:induction false} NetOfDeleted(events: seq<Event>, x: Item)
    ensures NetEvents(events, x) >= 0 - Total(Deleted(events), x)
    decreases |events|
  {
    hide PartCount;
    if events != [] {
      var init, e := events[..|events| - 1], events[|events| - 1];
      assert events == init + [e];
      NetOfDeleted(init, x);
      NetEventsAppend(init, e, x);
      LastDeleted(events, x);
    }
  }

  lemma {:induction false} DeletedHasArc(events: seq<Event>, a: Arc)
    requires Total(Deleted(events), ArcItem(a)) > 0
    ensures DeletesArc(events, a)
    decreases |events|
  {
    var init, e := events[..|events| - 1], events[|events| - 1];
    assert events == init + [e];
    if e.insert || a !in e.formula.arcs {
      LastDeleted(events, ArcItem(a));
      DeletedHasArc(init, a);
    }
  }

  /** Nodes and edges come back when such a batch is taken back, whatever it inserts. */
  lemma StoredBatchIsUndone(s: State, fs: seq<Parts>, events: seq<Event>)
    requires Accounts(s, fs) && DeletesStored(fs, events)
    ensures DeletesPresent(fs, events) && IsCoveredBatch(s, events) && KeepsSources(s, events)
  {
    hide Deleted, Total, NetEvents, Count, DeletesArc, State.Valid, FindsAll;
    StoredArePresent(fs, events);
    forall x, j | InGraph(x) && 0 <= j <= |events|
      ensures Count(s, x) + NetEvents(events[j..], x) >= 0
    {
      DeletedSplit(events, j);
      var rest := Without(fs, Deleted(events[j..]));
      NetOfDeleted(events[j..], x);
    }
    forall a, j | Count(s, ArcItem(a)) > 0 && 0 <= j <= |events|
                  && Count(s, NodeItem(a.source)) + NetEvents(events[j..], NodeItem(a.source)) == 0
      ensures DeletesArc(events[j..], a)
    {
      DeletedSplit(events, j);
      var rest := Without(fs, Deleted(events[j..]));
      NetOfDeleted(events[j..], NodeItem(a.source));
      assert InGraph(ArcItem(a)) && InGraph(NodeItem(a.source));
      TotalOfSource(rest, a);
      DeletedHasArc(events[j..], a);
    }
  }

  // ---------------------------------------------------------------------------
  // Modals

  /** What the events contribute under a modal. */
  function PartsUnder(events: seq<Event>, m: string): (es: seq<SharedCounts.Part>)
    ensures |es| == |events|
    ensures TidyEvents(events) ==> SharedCounts.AllTidy(es)
  {
    assert forall k | 0 <= k < |events| :: events[k] in events;
    seq(|events|, k requires 0 <= k < |events| =>
          SharedCounts.Part(Under(events[k].formula.modals, m), events[k].insert))
  }

  /** Under the modal every table is counted as often as in the formulas. */
  ghost predicate AccountsUnder(c: SharedCounts.Counts, fs: seq<Parts>, m: string) {
    SharedCounts.Tidy(c) && forall t :: SharedCounts.CountIn(c, t) == Total(fs, ModalItem(m, t))
  }

  lemma {:induction false} NetUnder(events: seq<Event>, m: string, t: string)
    ensures NetEvents(events, ModalItem(m, t)) == SharedCounts.Net(PartsUnder(events, m), t)
    decreases |events|
  {
    if events != [] {
      var init, e := events[..|events| - 1], events[|events| - 1];
      assert events == init + [e] && PartsUnder(events, m)[..|init|] == PartsUnder(init, m);
      NetUnder(init, m, t);
      NetEventsAppend(init, e, ModalItem(m, t));
    }
  }

  lemma {:induction false} TotalAfterEvents(fs: seq<Parts>, events: seq<Event>, k: nat, x: Item)
    requires DeletesPresent(fs, events) && k <= |events|
    ensures DeletesPresent(fs, events[..k])
    ensures Total(AfterEvents(fs, events[..k]), x) == Total(fs, x) + NetEvents(events[..k], x)
    decreases |events|
  {
    hide Total, AfterEvent, SignedParts;
    if k < |events| {
      var init := events[..|events| - 1];
      assert init[..k] == events[..k];
      TotalAfterEvents(fs, init, k, x);
    } else if events != [] {
      var init, e := events[..|events| - 1], events[|events| - 1];
      assert events[..k] == events == init + [e] && init[..|init|] == init;
      TotalAfterEvents(fs, init, |init|, x);
      NetEventsAppend(init, e, x);
      TotalAfter(AfterEvents(fs, init), e, x);
    }
  }

  /** Conservation for modals; no delete finds less than it deletes. */
  lemma ModalsFit(c: SharedCounts.Counts, fs: seq<Parts>, events: seq<Event>, m: string)
    requires AccountsUnder(c, fs, m) && DeletesPresent(fs, events)
    ensures SharedCounts.AllFit(c, PartsUnder(events, m))
    ensures forall t :: Total(AfterEvents(fs, events), ModalItem(m, t)) ==
                          SharedCounts.CountIn(c, t) + SharedCounts.Net(PartsUnder(events, m), t)
  {
    hide Total, NetEvents, PartsUnder, SharedCounts.Net;
    forall k, t | 0 <= k <= |events|
      ensures SharedCounts.CountIn(c, t) + SharedCounts.Net(PartsUnder(events, m)[..k], t) >= 0
    {
      TotalAfterEvents(fs, events, k, ModalItem(m, t));
      NetUnder(events[..k], m, t);
      PrefixUnder(events, m, k);
    }
    forall t
      ensures Total(AfterEvents(fs, events), ModalItem(m, t)) ==
                SharedCounts.CountIn(c, t) + SharedCounts.Net(PartsUnder(events, m), t)
    {
      assert events[..|events|] == events;
      TotalAfterEvents(fs, events, |events|, ModalItem(m, t));
      NetUnder(events, m, t);
    }
  }

  /** After the update the index counts each table under each modal as often as the formulas then there. */
  lemma ModalsConserve(c: SharedCounts.Counts, fs: seq<Parts>, events: seq<Event>, m: string)
    requires AccountsUnder(c, fs, m) && DeletesPresent(fs, events) && TidyEvents(events)
    ensures AccountsUnder(SharedCounts.Made(c, PartsUnder(events, m)).counts, AfterEvents(fs, events), m)
  {
    hide Total, PartsUnder, SharedCounts.Net, SharedCounts.AllFit, SharedCounts.Made, SharedCounts.IsMarked;
    ModalsFit(c, fs, events, m);
    SharedCounts.MadeIsMade(c, PartsUnder(events, m));
  }

  lemma PrefixUnder(events: seq<Event>, m: string, k: nat)
    requires k <= |events|
    ensures PartsUnder(events[..k], m) == PartsUnder(events, m)[..k]
  {}

  /** When the tables under a modal come back: no insert may meet the modal uncounted unless it was uncounted before. */
  lemma ModalUndoIsExact(c: SharedCounts.Counts, fs: seq<Parts>, events: seq<Event>, m: string)
    requires AccountsUnder(c, fs, m) && DeletesPresent(fs, events) && TidyEvents(events)
    ensures SharedCounts.AllFit(c, PartsUnder(events, m))
    ensures forall t :: SharedCounts.AfterBatch(c, PartsUnder(events, m), t) >= 0
    ensures SharedCounts.AfterUndo(c, PartsUnder(events, m)) == c <==> SharedCounts.ComesBack(c, PartsUnder(events, m))
  {
    hide Total, PartsUnder, SharedCounts.AllFit, SharedCounts.AfterUndo, SharedCounts.AfterBatch,
         SharedCounts.ComesBack;
    ModalsFit(c, fs, events, m);
    SharedCounts.UndoIsExact(c, PartsUnder(events, m));
  }

  lemma {:induction false} DeletedUnder(events: seq<Event>, m: string, t: string)
    ensures SharedCounts.Sized(PartsUnder(events, m), false, t) == Total(Deleted(events), ModalItem(m, t))
    decreases |events|
  {
    if events != [] {
      var init, e := events[..|events| - 1], events[|events| - 1];
      assert PartsUnder(events, m)[..|init|] == PartsUnder(init, m);
      DeletedUnder(init, m, t);
      LastDeleted(events, ModalItem(m, t));
    }
  }

  lemma StoredUnder(c: SharedCounts.Counts, fs: seq<Parts>, events: seq<Event>, m: string)
    requires AccountsUnder(c, fs, m) && DeletesStored(fs, events) && TidyEvents(events)
    ensures SharedCounts.DeletesStored(c, PartsUnder(events, m))
    ensures SharedCounts.Tidy(c) && SharedCounts.AllTidy(PartsUnder(events, m))
  {
    hide Total, Deleted, PartsUnder, SharedCounts.Sized;
    forall t
      ensures SharedCounts.Sized(PartsUnder(events, m), false, t) <= SharedCounts.CountIn(c, t)
    {
      DeletedUnder(events, m, t);
      var rest := Without(fs, Deleted(events));
    }
  }

  /** For batches that delete stored formulas: not if the modal was counted and an insert meets it uncounted. */
  lemma StoredModalsComeBack(c: SharedCounts.Counts, fs: seq<Parts>, events: seq<Event>, m: string)
    requires AccountsUnder(c, fs, m) && DeletesStored(fs, events) && TidyEvents(events)
    ensures SharedCounts.AfterUndo(c, PartsUnder(events, m)) == c <==>
              c == map[] || SharedCounts.NoOpening(c, PartsUnder(events, m))
  {
    hide AccountsUnder, DeletesStored, SharedCounts.DeletesStored, SharedCounts.AfterUndo, SharedCounts.NoOpening;
    StoredUnder(c, fs, events, m);
    SharedCounts.UndoOfStored(c, PartsUnder(events, m));
  }

  // ---------------------------------------------------------------------------
  // Batches of one kind

  lemma {:induction false} NothingIsDeleted(events: seq<Event>)
    requires forall e | e in events :: e.insert
    ensures Deleted(events) == []
    decreases |events|
  {
    if events != [] {
      NothingIsDeleted(events[..|events| - 1]);
    }
  }

  lemma {:induction false} DeletedAreGone(fs: seq<Parts>, events: seq<Event>)
    requires DeletesPresent(fs, events) && forall e | e in events :: !e.insert
    ensures multiset(AfterEvents(fs, events)) + multiset(Deleted(events)) == multiset(fs)
    decreases |events|
  {
    hide AfterEvent;
    if events != [] {
      var init, e := events[..|events| - 1], events[|events| - 1];
      assert e in events && forall e' | e' in init :: e' in events;
      DeletedAreGone(fs, init);
      AfterOneEvent(AfterEvents(fs, init), e);
      assert multiset(Deleted(events)) == multiset(Deleted(init)) + multiset{e.formula};
    }
  }

  lemma StoredIfGone(fs: seq<Parts>, events: seq<Event>)
    requires DeletesPresent(fs, events)
    requires Deleted(events) == [] || multiset(AfterEvents(fs, events)) + multiset(Deleted(events)) == multiset(fs)
    ensures DeletesStored(fs, events)
  {}

  /** Batches of inserts only, or of deletes only, can always be taken back. */
  lemma BatchOfOneKindIsUndone(s: State, fs: seq<Parts>, events: seq<Event>, insert: bool)
    requires Accounts(s, fs) && DeletesPresent(fs, events) && forall e | e in events :: e.insert == insert
    ensures IsCoveredBatch(s, events) && KeepsSources(s, events)
    ensures forall c, m | AccountsUnder(c, fs, m) && TidyEvents(events) ::
              SharedCounts.AfterUndo(c, PartsUnder(events, m)) == c
  {
    hide Accounts, DeletesPresent, IsCoveredBatch, KeepsSources, SharedCounts.AfterUndo, SharedCounts.DeletesStored,
      DeletesStored;
    if insert {
      NothingIsDeleted(events);
    } else {
      DeletedAreGone(fs, events);
    }
    assert DeletesStored(fs, events) by {
      StoredIfGone(fs, events);
    }
    StoredBatchIsUndone(s, fs, events);
    forall c, m | AccountsUnder(c, fs, m) && TidyEvents(events)
      ensures SharedCounts.AfterUndo(c, PartsUnder(events, m)) == c
    {
      StoredUnder(c, fs, events, m);
      assert forall k | 0 <= k < |events| :: events[k] in events;
      SharedCounts.OneKindComesBack(c, PartsUnder(events, m), insert);
    }
  }
}
