/** A reference-counted graph of the dependencies between tables, updated by formulas and undone. */
module Dependencies {
  import opened Syntax
  import opened ModalIndexes
  import opened DependencyChanges
  import opened DependencyEvents

  // ---------------------------------------------------------------------------
  // Records of modals

  function RecordsOf(changes: seq<Change>): seq<ModalIndex> {
    if changes == [] then []
    else
      var n := |changes| - 1;
      RecordsOf(changes[..n]) + if changes[n].ModalChange? then [changes[n].record] else []
  }

  /** Which of the records have been inserted. */
  function Kinds(changes: seq<Change>): (kinds: seq<SharedCounts.Part>)
    ensures |kinds| == |RecordsOf(changes)|
  {
    if changes == [] then []
    else
      var n := |changes| - 1;
      Kinds(changes[..n]) + if changes[n].ModalChange? then [SharedCounts.Part(map[], changes[n].insert)] else []
  }

  lemma {:induction false} RecordsAppend(changes: seq<Change>, more: seq<Change>)
    ensures RecordsOf(changes + more) == RecordsOf(changes) + RecordsOf(more)
    ensures Kinds(changes + more) == Kinds(changes) + Kinds(more)
    decreases |more|
  {
    if more == [] {
      assert changes + more == changes;
    } else {
      var n := |more| - 1;
      assert (changes + more)[..|changes| + n] == changes + more[..n];
      RecordsAppend(changes, more[..n]);
    }
  }

  lemma OneRecord(c: Change)
    ensures RecordsOf([c]) == if c.ModalChange? then [c.record] else []
    ensures Kinds([c]) == if c.ModalChange? then [SharedCounts.Part(map[], c.insert)] else []
  {
    assert [c][..0] == [];
  }

  /** The record of the next change is the next record. */
  lemma NextRecord(changes: seq<Change>, i: nat)
    requires i < |changes|
    ensures var k, c := |RecordsOf(changes[..i])|, changes[i];
            && |RecordsOf(changes[..i + 1])| == (if c.ModalChange? then k + 1 else k)
            && (c.ModalChange? ==> k < |RecordsOf(changes)| && RecordsOf(changes)[k] == c.record
                                   && Kinds(changes)[k].insert == c.insert)
  {
    var before, rest := changes[..i], changes[i + 1..];
    assert changes == before + ([changes[i]] + rest) && changes[..i + 1] == before + [changes[i]];
    RecordsAppend(before, [changes[i]] + rest);
    RecordsAppend(before, [changes[i]]);
    RecordsAppend([changes[i]], rest);
    OneRecord(changes[i]);
  }

  // ---------------------------------------------------------------------------
  // The graph

  class RuleDependencyGraph {
    var nodes: set<string>
    var edges: map<string, set<Arc>>
    var nodeCounts: map<string, nat>
    var arcCounts: map<Arc, nat>
    const modalIndex: ModalIndex

    constructor ()
      ensures Valid() && Now() == State(map[], map[], map[]) && fresh(modalIndex) && modalIndex.index == map[]
    {
      nodes, edges, nodeCounts, arcCounts := {}, map[], map[], map[];
      modalIndex := new ModalIndex();
    }

    function Now(): State
      reads this
    {
      State(nodeCounts, arcCounts, edges)
    }

    ghost predicate Valid()
      reads this
    {
      nodes == nodeCounts.Keys && Now().Valid()
    }

    method AddNode(n: string)
      requires Valid()
      modifies this`nodes, this`nodeCounts
      ensures Valid() && Now() == Step(old(Now()), NodeChange(n, true))
      ensures Now() == old(Now()).(nodes := Increment(old(nodeCounts), n))
    {
      nodes := nodes + {n};
      nodeCounts := Increment(nodeCounts, n);
    }

    /** A node that is not there is ignored. */
    method DeleteNode(n: string)
      requires Valid()
      modifies this`nodes, this`nodeCounts, this`edges
      ensures Valid() && Now() == Step(old(Now()), NodeChange(n, false)) == DropNode(old(Now()), n)
    {
      if n !in nodeCounts {
        return;
      }
      nodeCounts := Decrement(nodeCounts, n);
      if n !in nodeCounts {
        nodes := nodes - {n};
        edges := edges - {n};
      }
    }

    method AddEdge(a: Arc)
      requires Valid()
      modifies this`nodes, this`nodeCounts, this`edges, this`arcCounts
      ensures Valid() && Now() == Step(old(Now()), ArcChange(a, true))
    {
      hide Step, State.Valid;
      StepIsAdd(Now(), a);
      AddNode(a.source);
      AddNode(a.target);
      edges := edges[a.source := (if a.source in edges then edges[a.source] else {}) + {a}];
      arcCounts := Increment(arcCounts, a);
    }

    /** An edge that is not there is ignored. */
    method DeleteEdge(a: Arc)
      requires Valid()
      modifies this`nodes, this`nodeCounts, this`edges, this`arcCounts
      ensures Valid() && Now() == Step(old(Now()), ArcChange(a, false))
    {
      hide Step, DropNode, State.Valid;
      StepIsDrop(Now(), a);
      if a !in arcCounts {
        return;
      }
      DeleteNode(a.source);
      DeleteNode(a.target);
      arcCounts := Decrement(arcCounts, a);
      if a !in arcCounts && a.source in edges {
        edges := edges[a.source := edges[a.source] - {a}];
      }
    }

    /** A change of a node or an edge. */
    method ChangeGraph(c: Change)
      requires Valid() && !c.ModalChange?
      modifies this
      ensures Valid() && Now() == Step(old(Now()), c)
    {
      if c.NodeChange? {
        if c.insert {
          AddNode(c.node);
        } else {
          DeleteNode(c.node);
        }
      } else if c.insert {
        AddEdge(c.arc);
      } else {
        DeleteEdge(c.arc);
      }
    }

    /** The changes made since `before` are those recorded, and they count these parts of a formula. */
    ghost predicate HasMade(before: State, changes: seq<Change>, insert: bool, nodes: set<string>, arcs: set<Arc>)
      reads this
      requires before.Valid()
    {
      && Now() == StepAll(before, changes) && AllOf(changes, insert) && RecordsOf(changes) == []
      && forall x :: Net(changes, x) == if insert then PartsCount(nodes, arcs, x) else 0 - PartsCount(nodes, arcs, x)
    }

    /** The nodes and edges of one formula. */
    method UpdateGraph(f: Parts, insert: bool) returns (changes: seq<Change>)
      requires Valid()
      modifies this
      ensures Valid() && Now() == StepAll(old(Now()), changes)
      ensures IsBlock(changes, Event(f, insert)) && RecordsOf(changes) == []
    {
      hide Step, State.Valid, PartsCount, Weight, AllOf;
      ghost var before := Now();
      changes := [];
      StartBlock(insert);
      var rest := f.nodes;
      ghost var done: set<string> := {};
      while rest != {}
        invariant Valid() && done + rest == f.nodes && done !! rest
        invariant HasMade(before, changes, insert, done, {})
      {
        var n :| n in rest;
        ChangeGraph(NodeChange(n, insert));
        NextNode(before, changes, insert, done, n);
        rest, done := rest - {n}, done + {n};
        changes := changes + [NodeChange(n, insert)];
      }
      assert done == f.nodes;
      var arcs := f.arcs;
      ghost var made: set<Arc> := {};
      while arcs != {}
        invariant Valid() && made + arcs == f.arcs && made !! arcs
        invariant HasMade(before, changes, insert, f.nodes, made)
      {
        var a :| a in arcs;
        ChangeGraph(ArcChange(a, insert));
        NextArc(before, changes, insert, f.nodes, made, a);
        arcs, made := arcs - {a}, made + {a};
        changes := changes + [ArcChange(a, insert)];
      }
      assert made == f.arcs;
    }

    /** The index counts modals, and in dictionaries that differ from each other. */
    ghost predicate ValidModals()
      reads modalIndex, modalIndex.index.Values
    {
      modalIndex.Full() && Separate(modalIndex, [])
    }

    /** Adds or subtracts the record numbered `k`; those of deletes from `l` on stay whole. */
    method ChangeModals(record: ModalIndex, insert: bool, ghost records: seq<ModalIndex>, ghost k: nat,
                        ghost kinds: seq<SharedCounts.Part>, ghost l: nat)
      requires k < |records| && record == records[k] && Separate(modalIndex, records)
      requires modalIndex.Full() && (insert ==> record.Full())
      requires |kinds| == |records| && l <= |records| && Intact(modalIndex, records, kinds, if k < l then k else l)
      requires insert && l <= k ==> kinds[k].insert
      modifies modalIndex, modalIndex.index.Values
      ensures Separate(modalIndex, records) && modalIndex.Full() && Intact(modalIndex, records, kinds, l)
      ensures Dictionaries(records) == old(Dictionaries(records))
      ensures modalIndex.index.Values <= old(modalIndex.index.Values) + record.index.Values
      ensures forall m :: ShelfOf(modalIndex, records, m) == old(ShelfOf(modalIndex, records, m)).Apply(k, insert)
    {
      hide Separate, ShelfOf, ModalIndex.Full, Intact, SharedCounts.Shelf.Plus, SharedCounts.Shelf.Minus;
      assert modalIndex !in records by {
        NotARecord(modalIndex, records);
      }
      if insert {
        modalIndex.Plus(record, records, k);
      } else {
        modalIndex.Minus(record, records, k);
      }
      ghost var gained := if insert then record.index.Values else {};
      forall j | l <= j < |records| && !kinds[j].insert
        ensures records[j].index.Values !! gained
      {
        if insert {
          RecordsAreDisjoint(modalIndex, records, j, k);
        }
      }
      StaysIntact(modalIndex, records, kinds, if k < l then k else l, l, gained);
    }

    /** Adds or subtracts a new record of modals. */
    method ChangeByRecord(modals: Modals, insert: bool, ghost records: seq<ModalIndex>,
                          ghost kinds: seq<SharedCounts.Part>)
      returns (record: ModalIndex)
      requires TidyModals(modals) && modalIndex.Full() && Separate(modalIndex, records)
      requires |kinds| == |records| && Intact(modalIndex, records, kinds, 0)
      modifies modalIndex, modalIndex.index.Values
      ensures modalIndex.Full() && Separate(modalIndex, records + [record])
      ensures fresh(record) && fresh(record.index.Values)
      ensures Intact(modalIndex, records + [record], kinds + [SharedCounts.Part(map[], insert)], 0)
      ensures Dictionaries(records + [record]) == old(Dictionaries(records)) + record.index.Values
      ensures modalIndex.index.Values <= old(modalIndex.index.Values) + record.index.Values
      ensures forall m :: ShelfOf(modalIndex, records + [record], m) ==
                          old(ShelfOf(modalIndex, records, m)).Append(Under(modals, m)).Apply(|records|, insert)
    {
      hide Separate, ShelfOf, ModalIndex.Full, Intact, TidyModals, SharedCounts.Shelf.Apply;
      record := new ModalIndex.Of(modals);
      ghost var all, allKinds := records + [record], kinds + [SharedCounts.Part(map[], insert)];
      OneMoreRecord(modalIndex, records, record);
      OneMoreIntact(modalIndex, records, record, kinds, insert);
      assert all[|records|] == record;
      ChangeModals(record, insert, all, |records|, allKinds, 0);
    }

    /** Inserts or deletes one formula: its nodes, then its edges, then its modals, of which it makes a new record. */
    method UpdateFormula(f: Parts, insert: bool, ghost records: seq<ModalIndex>, ghost kinds: seq<SharedCounts.Part>)
      returns (changes: seq<Change>, ghost record: ModalIndex)
      requires Valid() && TidyModals(f.modals) && modalIndex.Full() && Separate(modalIndex, records)
      requires |kinds| == |records| && Intact(modalIndex, records, kinds, 0)
      modifies this, modalIndex, modalIndex.index.Values
      ensures Valid() && Now() == StepAll(old(Now()), changes) && IsBlock(changes, Event(f, insert))
      ensures RecordsOf(changes) == [record] && Kinds(changes) == [SharedCounts.Part(map[], insert)]
      ensures modalIndex.Full() && Separate(modalIndex, records + [record]) && fresh(record)
                && fresh(record.index.Values)
      ensures Intact(modalIndex, records + [record], kinds + [SharedCounts.Part(map[], insert)], 0)
      ensures Dictionaries(records + [record]) == old(Dictionaries(records)) + record.index.Values
      ensures modalIndex.index.Values <= old(modalIndex.index.Values) + record.index.Values
      ensures forall m :: ShelfOf(modalIndex, records + [record], m) ==
                          old(ShelfOf(modalIndex, records, m)).Append(Under(f.modals, m)).Apply(|records|, insert)
    {
      hide Step, State.Valid, IsBlock, Separate, ShelfOf, TidyModals, SharedCounts.Shelf.Apply;
      changes := UpdateGraph(f, insert);
      var modals := ChangeByRecord(f.modals, insert, records, kinds);
      NextModals(old(Now()), changes, insert, f, modals);
      changes, record := changes + [ModalChange(modals, insert)], modals;
    }

    /** All that is needed to take changes back: the records of deletes are whole and shared with nobody. */
    ghost predicate CanUndo(changes: seq<Change>)
      reads this, modalIndex, modalIndex.index.Values, RecordsOf(changes), Dictionaries(RecordsOf(changes))
    {
      && Valid() && modalIndex.Full() && Separate(modalIndex, RecordsOf(changes))
      && Intact(modalIndex, RecordsOf(changes), Kinds(changes), 0)
      && forall m :: ShelfOf(modalIndex, RecordsOf(changes), m).Valid()
    }

    /** The events have been applied, and the changes recorded. */
    ghost predicate HasApplied(before: State, counts: imap<string, SharedCounts.Counts>, events: seq<Event>,
                               changes: seq<Change>)
      reads this, modalIndex, modalIndex.index.Values, RecordsOf(changes), Dictionaries(RecordsOf(changes))
      requires before.Valid()
    {
      && Valid() && Now() == StepAll(before, changes) && Records(events, changes)
      && modalIndex.Full() && Separate(modalIndex, RecordsOf(changes)) && HasRecords(events, changes)
      && Intact(modalIndex, RecordsOf(changes), Kinds(changes), 0)
      && AreMade(Shelves(modalIndex, RecordsOf(changes)), counts, events)
    }

    /** One event, after those that have been applied. */
    method ApplyEvent(e: Event, ghost before: State, ghost counts: imap<string, SharedCounts.Counts>,
                      ghost events: seq<Event>, ghost changes: seq<Change>)
      returns (block: seq<Change>, ghost more: set<TableCounts>)
      requires before.Valid() && HasApplied(before, counts, events, changes) && TidyModals(e.formula.modals)
      modifies this, modalIndex, modalIndex.index.Values
      ensures HasApplied(before, counts, events + [e], changes + block)
      ensures fresh(more) && Dictionaries(RecordsOf(changes + block)) == old(Dictionaries(RecordsOf(changes))) + more
      ensures modalIndex.index.Values <= old(modalIndex.index.Values) + more
    {
      hide Step, State.Valid, IsBlock, Records, Separate, ShelfOf, ModalIndex.Full, Intact, PartsUnder, AreMade,
           Shelves, Dictionaries, SharedCounts.Shelf.Apply, SharedCounts.Shelf.Append;
      ghost var records := RecordsOf(changes);
      ghost var shelves := Shelves(modalIndex, records);
      ghost var record;
      block, record := UpdateFormula(e.formula, e.insert, records, Kinds(changes));
      StepAllAppend(before, changes, block);
      RecordsAppend(changes, block);
      RecordsMore(events, changes, e, block);
      OneMoreMade(shelves, Shelves(modalIndex, records + [record]), counts, events, e);
      more := record.index.Values;
    }

    /** Applies inserts and deletes of formulas, and records the changes. */
    method FormulaUpdate(events: seq<Event>) returns (changes: seq<Change>)
      requires Valid() && ValidModals() && TidyEvents(events)
      modifies this, modalIndex, modalIndex.index.Values
      ensures Now() == StepAll(old(Now()), changes) && Records(events, changes)
      ensures forall fs | Accounts(old(Now()), fs) && DeletesPresent(fs, events) ::
                Accounts(Now(), AfterEvents(fs, events))
      ensures CanUndo(changes) && HasRecords(events, changes)
      ensures fresh(Dictionaries(RecordsOf(changes))) && fresh(modalIndex.index.Values - old(modalIndex.index.Values))
      ensures forall m :: old(SharedCounts.Tidy(CountsOf(modalIndex, m)))
      ensures forall m :: ShelfOf(modalIndex, RecordsOf(changes), m) ==
                          SharedCounts.Made(old(CountsOf(modalIndex, m)), PartsUnder(events, m))
    {
      hide Step, State.Valid, Accounts, Records, ShelfOf, PartsUnder, AreMade, Shelves, Dictionaries, Separate,
           Intact, SharedCounts.Made, SharedCounts.Shelf.Valid;
      ghost var before, counts := Now(), CountsByModal(modalIndex);
      ghost var made: set<TableCounts> := {};
      changes := [];
      RecordsNothing();
      StartUndo(modalIndex);
      for i := 0 to |events|
        invariant HasApplied(before, counts, events[..i], changes)
        invariant fresh(made) && Dictionaries(RecordsOf(changes)) <= made
        invariant modalIndex.index.Values <= old(modalIndex.index.Values) + made
      {
        var e := events[i];
        assert e in events && events[..i + 1] == events[..i] + [e];
        var block, more := ApplyEvent(e, before, counts, events[..i], changes);
        changes, made := changes + block, made + more;
      }
      assert events[..|events|] == events;
      forall fs | Accounts(before, fs) && DeletesPresent(fs, events)
        ensures Accounts(Now(), AfterEvents(fs, events))
      {
        EventsConserve(before, fs, events, changes);
      }
      AllMade(Shelves(modalIndex, RecordsOf(changes)), counts, events);
    }

    /** The first `k` records have been taken back. */
    ghost predicate ModalsUndone(shelves: imap<string, SharedCounts.Shelf>, records: seq<ModalIndex>,
                                 kinds: seq<SharedCounts.Part>, k: nat)
      reads modalIndex, modalIndex.index.Values, records, Dictionaries(records)
    {
      && k <= |records| == |kinds| && modalIndex.Full() && Separate(modalIndex, records)
      && Intact(modalIndex, records, kinds, k)
      && forall m :: m in shelves && shelves[m].Valid() && |shelves[m].records| == |records|
                     && ShelfOf(modalIndex, records, m) == SharedCounts.Undone(shelves[m], kinds, k)
    }

    /** Takes the record numbered `k` back. */
    method UndoModals(record: ModalIndex, insert: bool, ghost shelves: imap<string, SharedCounts.Shelf>,
                      ghost records: seq<ModalIndex>, ghost kinds: seq<SharedCounts.Part>, ghost k: nat)
      requires ModalsUndone(shelves, records, kinds, k)
      requires k < |records| && record == records[k] && kinds[k].insert == !insert
      modifies modalIndex, modalIndex.index.Values
      ensures ModalsUndone(shelves, records, kinds, k + 1)
      ensures Dictionaries(records) == old(Dictionaries(records))
      ensures modalIndex.index.Values <= old(modalIndex.index.Values) + Dictionaries(records)
    {
      hide Separate, ShelfOf, ModalIndex.Full, Intact, SharedCounts.Shelf.Valid, SharedCounts.Shelf.Apply;
      WholeRecord(modalIndex, records, kinds, k);
      ChangeModals(record, insert, records, k, kinds, k + 1);
    }

    /** A change of the graph leaves the modals alone. */
    method UndoInGraph(c: Change, ghost shelves: imap<string, SharedCounts.Shelf>, ghost records: seq<ModalIndex>,
                       ghost kinds: seq<SharedCounts.Part>, ghost k: nat)
      requires Valid() && !c.ModalChange? && ModalsUndone(shelves, records, kinds, k)
      modifies this
      ensures Valid() && Now() == Step(old(Now()), c) && ModalsUndone(shelves, records, kinds, k)
      ensures Dictionaries(records) == old(Dictionaries(records))
    {
      hide Step, State.Valid, SharedCounts.Undone, SharedCounts.Shelf.Valid, OwnerOf, CountsOfAll, SharedCounts.Tidy;
      ChangeGraph(c);
    }

    /** Takes the change numbered `i` back. */
    method UndoChange(changes: seq<Change>, i: nat, ghost before: State,
                      ghost shelves: imap<string, SharedCounts.Shelf>, ghost records: seq<ModalIndex>)
      requires before.Valid() && i < |changes| && records == RecordsOf(changes)
      requires Valid() && Now() == StepAll(before, Reversed(changes)[..i])
      requires ModalsUndone(shelves, records, Kinds(changes), |RecordsOf(changes[..i])|)
      modifies this, modalIndex, modalIndex.index.Values
      ensures Valid() && Now() == StepAll(before, Reversed(changes)[..i + 1])
      ensures ModalsUndone(shelves, records, Kinds(changes), |RecordsOf(changes[..i + 1])|)
      ensures Dictionaries(records) == old(Dictionaries(records))
      ensures modalIndex.index.Values <= old(modalIndex.index.Values) + Dictionaries(records)
    {
      hide Step, State.Valid, ModalsUndone, Dictionaries;
      var c := changes[i];
      NextRecord(changes, i);
      UndoStep(before, changes, i);
      if c.ModalChange? {
        UndoModals(c.record, !c.insert, shelves, records, Kinds(changes), |RecordsOf(changes[..i])|);
      } else {
        UndoInGraph(Inverse(c), shelves, records, Kinds(changes), |RecordsOf(changes[..i])|);
      }
    }

    /** Takes the changes back, first one first; deletes of what is not there are ignored. */
    method UndoChanges(changes: seq<Change>)
      requires CanUndo(changes)
      modifies this, modalIndex, modalIndex.index.Values, Dictionaries(RecordsOf(changes))
      ensures Valid() && ValidModals() && Now() == StepAll(old(Now()), Reversed(changes))
      ensures forall m :: ShelfOf(modalIndex, RecordsOf(changes), m) ==
                          SharedCounts.Undone(old(ShelfOf(modalIndex, RecordsOf(changes), m)), Kinds(changes),
                              |Kinds(changes)|)
    {
      hide Step, State.Valid, ShelfOf, Intact, Dictionaries, SharedCounts.Shelf.Valid, SharedCounts.Shelf.Apply;
      ghost var before, records, shelves := Now(), RecordsOf(changes), Shelves(modalIndex, RecordsOf(changes));
      assert Reversed(changes)[..0] == [] && changes[..0] == [];
      for i := 0 to |changes|
        invariant Valid() && Now() == StepAll(before, Reversed(changes)[..i])
        invariant ModalsUndone(shelves, records, Kinds(changes), |RecordsOf(changes[..i])|)
        invariant Dictionaries(records) == old(Dictionaries(RecordsOf(changes)))
        invariant modalIndex.index.Values <= old(modalIndex.index.Values) + Dictionaries(records)
      {
        UndoChange(changes, i, before, shelves, records);
      }
      assert Reversed(changes)[..|changes|] == Reversed(changes) && changes[..|changes|] == changes;
    }

    /** An update that turns out to be recursive: made, and taken back. */
    method RejectedUpdate(events: seq<Event>)
      requires Valid() && ValidModals() && TidyEvents(events)
      modifies this, modalIndex, modalIndex.index.Values
      ensures Valid() && ValidModals()
      ensures forall fs | Accounts(old(Now()), fs) && DeletesPresent(fs, events) ::
                Accounts(Now(), fs) <==> IsCoveredBatch(old(Now()), events) && KeepsSources(old(Now()), events)
      ensures forall m :: old(SharedCounts.Tidy(CountsOf(modalIndex, m)))
      ensures forall m :: CountsOf(modalIndex, m) ==
                          SharedCounts.AfterUndo(old(CountsOf(modalIndex, m)), PartsUnder(events, m))
    {
      ghost var before, counts := Now(), CountsByModal(modalIndex);
      var changes := FormulaUpdate(events);
      ghost var shelves := Shelves(modalIndex, RecordsOf(changes));
      UndoChanges(changes);
      forall fs | Accounts(before, fs) && DeletesPresent(fs, events)
        ensures Accounts(Now(), fs) <==> IsCoveredBatch(before, events) && KeepsSources(before, events)
      {
        UndoIsExact(before, fs, events, changes);
      }
      forall m
        ensures CountsOf(modalIndex, m) == SharedCounts.AfterUndo(counts[m], PartsUnder(events, m))
      {
        SameKinds(events, changes, m);
        SharedCounts.UndoneByKinds(shelves[m], Kinds(changes), PartsUnder(events, m), |events|);
      }
    }
  }

  /** There is a record for each event. */
  ghost predicate HasRecords(events: seq<Event>, changes: seq<Change>) {
    |RecordsOf(changes)| == |events| && forall k | 0 <= k < |events| :: Kinds(changes)[k].insert == events[k].insert
  }

  ghost function CountsByModal(i: ModalIndex): (all: imap<string, SharedCounts.Counts>)
    reads i, i.index.Values
    ensures forall m :: m in all && all[m] == CountsOf(i, m) && (i.Full() ==> SharedCounts.Tidy(all[m]))
  {
    imap m: string :: CountsOf(i, m)
  }

  /** Under each modal the index and the records are what making the events leads to. */
  ghost predicate AreMade(shelves: imap<string, SharedCounts.Shelf>, counts: imap<string, SharedCounts.Counts>,
                          events: seq<Event>)
  {
    && TidyEvents(events)
    && forall m :: m in counts && SharedCounts.Tidy(counts[m])
                   && m in shelves && shelves[m] == SharedCounts.Made(counts[m], PartsUnder(events, m))
  }

  lemma StartUndo(i: ModalIndex)
    requires i.Full() && Separate(i, [])
    ensures Intact(i, [], [], 0) && Dictionaries([]) == {} && AreMade(Shelves(i, []), CountsByModal(i), [])
  {}

  lemma OneMoreIntact(i: ModalIndex, records: seq<ModalIndex>, record: ModalIndex, kinds: seq<SharedCounts.Part>,
                      insert: bool)
    requires |kinds| == |records| && Intact(i, records, kinds, 0)
    requires !insert ==> record.Full() && record.index.Values !! i.index.Values
    ensures Intact(i, records + [record], kinds + [SharedCounts.Part(map[], insert)], 0)
  {}

  lemma WholeRecord(i: ModalIndex, records: seq<ModalIndex>, kinds: seq<SharedCounts.Part>, k: nat)
    requires |kinds| == |records| && k < |records| && Intact(i, records, kinds, k)
    ensures !kinds[k].insert ==> records[k].Full()
  {}

  lemma NotARecord(i: ModalIndex, records: seq<ModalIndex>)
    requires Separate(i, records)
    ensures i !in records && Separate(i, [])
  {}

  lemma OneMoreMade(shelves: imap<string, SharedCounts.Shelf>, shelves': imap<string, SharedCounts.Shelf>,
                    counts: imap<string, SharedCounts.Counts>, events: seq<Event>, e: Event)
    requires AreMade(shelves, counts, events) && TidyModals(e.formula.modals)
    requires forall m :: |shelves[m].records| == |events|
              && (shelves[m].owner.Some? ==> shelves[m].owner.value < |events|)
    requires forall m :: m in shelves' && shelves'[m] ==
                         shelves[m].Append(Under(e.formula.modals, m)).Apply(|events|, e.insert)
    ensures AreMade(shelves', counts, events + [e])
  {
    hide SharedCounts.Shelf.Apply, SharedCounts.Shelf.Append, SharedCounts.Tidy, TidyModals;
    var all, n := events + [e], |events|;
    assert TidyEvents(all);
    forall m
      ensures shelves'[m] == SharedCounts.Made(counts[m], PartsUnder(all, m))
    {
      assert PartsUnder(all, m)[..n] == PartsUnder(events, m);
    }
  }

  lemma AllMade(shelves: imap<string, SharedCounts.Shelf>, counts: imap<string, SharedCounts.Counts>,
                events: seq<Event>)
    requires AreMade(shelves, counts, events)
    ensures forall m :: shelves[m].Valid() && shelves[m] == SharedCounts.Made(counts[m], PartsUnder(events, m))
  {}

  lemma SameKinds(events: seq<Event>, changes: seq<Change>, m: string)
    requires HasRecords(events, changes)
    ensures |Kinds(changes)| == |PartsUnder(events, m)| == |events|
    ensures forall k | 0 <= k < |events| :: Kinds(changes)[k].insert == PartsUnder(events, m)[k].insert
  {}

  lemma StepIsAdd(s: State, a: Arc)
    requires s.Valid()
    ensures Step(s, ArcChange(a, true)) == AddArc(s, a)
  {}

  lemma StepIsDrop(s: State, a: Arc)
    requires s.Valid()
    ensures Step(s, ArcChange(a, false)) == DropArc(s, a)
  {}

  lemma OneStep(s: State, c: Change)
    requires s.Valid()
    ensures StepAll(s, [c]) == Step(s, c)
  {
    hide Step;
    assert [c][1..] == [];
  }

  // ---------------------------------------------------------------------------
  // Recording

  lemma StartBlock(insert: bool)
    ensures AllOf([], insert) && forall x :: Net([], x) == 0 == PartsCount({}, {}, x)
  {
    forall x
      ensures PartsCount({}, {}, x) == 0
    {
      NothingCounted(x);
    }
  }

  lemma OneMoreChange(before: State, changes: seq<Change>, c: Change)
    requires before.Valid()
    ensures StepAll(before, changes + [c]) == Step(StepAll(before, changes), c)
    ensures AllOf(changes, c.insert) ==> AllOf(changes + [c], c.insert)
    ensures forall x :: Net(changes + [c], x) == Net(changes, x) + Signed(c, x)
    ensures RecordsOf(changes + [c]) == RecordsOf(changes) + if c.ModalChange? then [c.record] else []
    ensures Kinds(changes + [c]) == Kinds(changes) + if c.ModalChange? then [SharedCounts.Part(map[], c.insert)] else []
  {
    hide Step, State.Valid, Signed;
    OneStep(StepAll(before, changes), c);
    StepAllAppend(before, changes, [c]);
    OneRecord(c);
    RecordsAppend(changes, [c]);
    assert [c][1..] == [];
    forall x
      ensures Net(changes + [c], x) == Net(changes, x) + Signed(c, x)
    {
      NetAppend(changes, [c], x);
    }
  }

  lemma NextNode(before: State, changes: seq<Change>, insert: bool, nodes: set<string>, n: string)
    requires before.Valid() && AllOf(changes, insert) && n !in nodes
    requires forall x :: Net(changes, x) == if insert then PartsCount(nodes, {}, x) else 0 - PartsCount(nodes, {}, x)
    ensures var c := NodeChange(n, insert);
            && AllOf(changes + [c], insert) && RecordsOf(changes + [c]) == RecordsOf(changes)
            && StepAll(before, changes + [c]) == Step(StepAll(before, changes), c)
            && forall x :: Net(changes + [c], x) == if insert then PartsCount(nodes + {n}, {}, x)
                                                    else 0 - PartsCount(nodes + {n}, {}, x)
  {
    hide Step, State.Valid, PartsCount, AllOf, Net, Weight;
    OneMoreChange(before, changes, NodeChange(n, insert));
    forall x
      ensures PartsCount(nodes + {n}, {}, x) ==
                PartsCount(nodes, {}, x) + Weight(NodeChange(n, insert), x)
    {
      OneMoreNode(nodes, n, x, insert);
    }
  }

  lemma NextArc(before: State, changes: seq<Change>, insert: bool, nodes: set<string>, arcs: set<Arc>, a: Arc)
    requires before.Valid() && AllOf(changes, insert) && a !in arcs
    requires forall x :: Net(changes, x) ==
              if insert then PartsCount(nodes, arcs, x) else 0 - PartsCount(nodes, arcs, x)
    ensures var c := ArcChange(a, insert);
            && AllOf(changes + [c], insert) && RecordsOf(changes + [c]) == RecordsOf(changes)
            && StepAll(before, changes + [c]) == Step(StepAll(before, changes), c)
            && forall x :: Net(changes + [c], x) == if insert then PartsCount(nodes, arcs + {a}, x)
                                                    else 0 - PartsCount(nodes, arcs + {a}, x)
  {
    hide Step, State.Valid, PartsCount, AllOf, Net, Weight;
    OneMoreChange(before, changes, ArcChange(a, insert));
    forall x
      ensures PartsCount(nodes, arcs + {a}, x) ==
              PartsCount(nodes, arcs, x) + Weight(ArcChange(a, insert), x)
    {
      OneMoreArc(nodes, arcs, a, x, insert);
    }
  }

  lemma NextModals(before: State, changes: seq<Change>, insert: bool, f: Parts, record: ModalIndex)
    requires before.Valid() && IsBlock(changes, Event(f, insert)) && RecordsOf(changes) == []
    ensures var c := ModalChange(record, insert);
            && IsBlock(changes + [c], Event(f, insert)) && StepAll(before, changes + [c]) == StepAll(before, changes)
            && RecordsOf(changes + [c]) == [record] && Kinds(changes + [c]) == [SharedCounts.Part(map[], insert)]
  {
    hide State.Valid, PartCount, Net;
    OneMoreChange(before, changes, ModalChange(record, insert));
    assert Kinds(changes) == [];
  }

  lemma RecordsNothing()
    ensures Records([], [])
  {}

  lemma RecordsMore(events: seq<Event>, changes: seq<Change>, e: Event, block: seq<Change>)
    requires Records(events, changes) && IsBlock(block, e)
    ensures Records(events + [e], changes + block)
  {
    hide IsBlock;
    var all := changes + block;
    assert all[|changes|..] == block && all[..|changes|] == changes;
    assert (events + [e])[..|events|] == events;
  }

  lemma UndoStep(before: State, changes: seq<Change>, i: nat)
    requires before.Valid() && i < |changes|
    ensures var undo, c := Reversed(changes), Inverse(changes[i]);
            && StepAll(before, undo[..i + 1]) == Step(StepAll(before, undo[..i]), c)
            && (c.ModalChange? ==> StepAll(before, undo[..i + 1]) == StepAll(before, undo[..i]))
  {
    hide State.Valid;
    var undo, c := Reversed(changes), Inverse(changes[i]);
    assert undo[..i + 1] == undo[..i] + [c];
    OneStep(StepAll(before, undo[..i]), c);
    StepAllAppend(before, undo[..i], [c]);
  }

  // ---------------------------------------------------------------------------
  // What a rule contributes

  /** The table's name, in front of it the service or else the default. */
  function Name(table: Tablename, default: Option<string>): string {
    if table.service.Some? then table.service.value + ":" + table.table
    else if default.Some? then default.value + ":" + table.table
    else table.table
  }

  /** The table's name, in front of it the service and in front of that the prefix. */
  function GlobalTablename(table: Tablename, prefix: Option<string>): string {
    (if prefix.Some? then prefix.value + ":" else "")
    + (if table.service.Some? then table.service.value + ":" else "")
    + table.table
  }

  function BodyArc(head: string, lit: Literal, theory: Option<string>, headToBody: bool): Arc {
    var table := Name(lit.table, theory);
    if headToBody then Arc(head, table, lit.negated) else Arc(table, head, lit.negated)
  }

  /** What a graph takes of a formula, and which way round. */
  datatype Options =
    Options(includeAtoms: bool, selectHead: Literal -> bool, selectBody: Literal -> bool, headToBody: bool)

  function CountModal(modals: Modals, m: string, t: string): (r: Modals)
    requires TidyModals(modals)
    ensures TidyModals(r)
  {
    var counts := Under(modals, m);
    var more: SharedCounts.Counts := counts[t := SharedCounts.CountIn(counts, t) + 1];
    assert t in more;
    modals[m := more]
  }

  /** How often each table is in a selected head under each modal. */
  function HeadModals(heads: seq<Literal>, theory: Option<string>, o: Options): (r: Modals)
    ensures TidyModals(r)
  {
    if heads == [] then map[]
    else
      var head, modals := heads[|heads| - 1], HeadModals(heads[..|heads| - 1], theory, o);
      if o.selectHead(head) && head.table.modal.Some? then
        CountModal(modals, head.table.modal.value, GlobalTablename(head.table, theory))
      else modals
  }

  /** The tables of selected heads depend on those of the selected body; a negated literal makes a negative edge. */
  function FormulaNodesEdges(heads: seq<Literal>, body: seq<Literal>, theory: Option<string>, o: Options): (p: Parts)
    ensures TidyModals(p.modals)
    ensures forall a | a in p.arcs :: a.source in p.nodes && a.target in p.nodes
  {
    if |heads| == 1 && body == [] then
      var atom := Options(o.includeAtoms, lit => o.includeAtoms, o.selectBody, o.headToBody);
      Parts(if o.includeAtoms then {GlobalTablename(heads[0].table, theory)} else {}, {},
          HeadModals(heads, theory, atom))
    else
      Parts((set head | head in heads && o.selectHead(head) :: GlobalTablename(head.table, theory))
            + (set head, lit | head in heads && o.selectHead(head) && lit in body && o.selectBody(lit) ::
                 Name(lit.table, theory)),
            (set head, lit | head in heads && o.selectHead(head) && lit in body && o.selectBody(lit) ::
               BodyArc(GlobalTablename(head.table, theory), lit, theory, o.headToBody)),
            HeadModals(heads, theory, o))
  }

  /** A rule as the graph of all theories takes it: the head's table depends on every table of the body. */
  function RuleNodesEdges(rule: Rule, theory: string): (p: Parts)
    ensures TidyModals(p.modals)
  {
    var head := GlobalTablename(rule.head.table, Some(theory));
    if rule.body == [] then Parts({}, {}, map[])
    else
      var once: SharedCounts.Counts := map[head := 1];
      assert head in once;
      Parts({head} + (set lit | lit in rule.body :: Name(lit.table, Some(theory))),
            set lit | lit in rule.body :: BodyArc(head, lit, Some(theory), true),
            if rule.head.table.modal.Some? then map[rule.head.table.modal.value := once] else map[])
  }

  /** An edge for each literal of the body: from the head's table to the literal's, negative if the literal is. */
  lemma RuleArcsAre(rule: Rule, theory: string, a: Arc)
    requires rule.head.table.service == None
    ensures a in RuleNodesEdges(rule, theory).arcs <==>
              exists lit :: && lit in rule.body && a.source == theory + ":" + rule.head.table.table
                            && a.target == lit.table.service.GetOr(theory) + ":" + lit.table.table
                            && a.negated == lit.negated
  {
    NamesAre(rule.head.table.table, "", theory, rule.head.table.modal);
    var head := theory + ":" + rule.head.table.table;
    assert GlobalTablename(rule.head.table, Some(theory)) == head;
    forall lit | lit in rule.body
      ensures BodyArc(head, lit, Some(theory), true) ==
                Arc(head, lit.table.service.GetOr(theory) + ":" + lit.table.table, lit.negated)
    {}
  }

  lemma OneHeadModal(head: Literal, theory: Option<string>, o: Options)
    ensures HeadModals([head], theory, o) ==
              if o.selectHead(head) && head.table.modal.Some?
              then map[head.table.modal.value := map[GlobalTablename(head.table, theory) := 1]] else map[]
  {
    assert [head][..0] == [] && HeadModals([], theory, o) == map[];
    if head.table.modal.Some? {
      var m, t := head.table.modal.value, GlobalTablename(head.table, theory);
      assert CountModal(map[], m, t) == map[m := map[t := 1]];
    }
  }

  lemma RuleIsFormula(rule: Rule, theory: string)
    ensures RuleNodesEdges(rule, theory) ==
            FormulaNodesEdges([rule.head], rule.body, Some(theory), Options(false, lit => true, lit => true, true))
  {
    var o := Options(false, lit => true, lit => true, true);
    var f, p := FormulaNodesEdges([rule.head], rule.body, Some(theory), o), RuleNodesEdges(rule, theory);
    OneHeadModal(rule.head, Some(theory), o);
    OneHeadModal(rule.head, Some(theory), Options(o.includeAtoms, lit => o.includeAtoms, o.selectBody, o.headToBody));
    if rule.body != [] {
      assert rule.body[0] in rule.body;
      assert f.nodes == p.nodes;
      assert f.arcs == p.arcs;
    }
  }

  lemma CountModalCounts(modals: Modals, m: string, t: string, m': string, t': string)
    requires TidyModals(modals)
    ensures SharedCounts.CountIn(Under(CountModal(modals, m, t), m'), t') ==
            SharedCounts.CountIn(Under(modals, m'), t') + if m == m' && t == t' then 1 else 0
  {}

  lemma NoModals(m: string, t: string)
    ensures SharedCounts.CountIn(Under(map[], m), t) == 0
  {}

  /** An atom contributes its own node, and its modal, if atoms are included, and nothing otherwise. */
  lemma AtomContributes(head: Literal, theory: Option<string>, o: Options)
    ensures var f, name := FormulaNodesEdges([head], [], theory, o), GlobalTablename(head.table, theory);
            if o.includeAtoms then
              && f.nodes == {name} && f.arcs == {}
              && f.modals == if head.table.modal.Some? then map[head.table.modal.value := map[name := 1]] else map[]
            else f == Parts({}, {}, map[])
  {
    OneHeadModal(head, theory, Options(o.includeAtoms, lit => o.includeAtoms, o.selectBody, o.headToBody));
  }

  /** Without a theory in front, names are as written; a service, and the theory before that, come first. */
  lemma NamesAre(table: string, service: string, theory: string, modal: Option<string>)
    ensures GlobalTablename(Tablename(None, table, modal), None) == table
    ensures GlobalTablename(Tablename(None, table, modal), Some(theory)) == theory + ":" + table
    ensures GlobalTablename(Tablename(Some(service), table, modal), Some(theory)) ==
              theory + ":" + service + ":" + table
    ensures Name(Tablename(None, table, modal), Some(theory)) == theory + ":" + table
    ensures Name(Tablename(Some(service), table, modal), Some(theory)) == service + ":" + table
  {
    assert theory + ":" + "" == theory + ":";
    assert (theory + ":") + (service + ":") + table == theory + ":" + service + ":" + table;
  }

  /** The other direction inverts every edge, and changes nothing else. */
  lemma OtherDirection(heads: seq<Literal>, body: seq<Literal>, theory: Option<string>, o: Options)
    ensures var down := FormulaNodesEdges(heads, body, theory, o.(headToBody := true));
            var up := FormulaNodesEdges(heads, body, theory, o.(headToBody := false));
            && up.nodes == down.nodes && up.modals == down.modals
            && up.arcs == set a | a in down.arcs :: Arc(a.target, a.source, a.negated)
  {
    hide HeadModals, BodyArc;
    SameHeadModals(heads, theory, o.(headToBody := true), o.(headToBody := false));
    if |heads| == 1 && body == [] {
      SameHeadModals(heads, theory, Options(o.includeAtoms, lit => o.includeAtoms, o.selectBody, true),
                     Options(o.includeAtoms, lit => o.includeAtoms, o.selectBody, false));
    } else {
      var down := FormulaNodesEdges(heads, body, theory, o.(headToBody := true));
      var up := FormulaNodesEdges(heads, body, theory, o.(headToBody := false));
      assert down.arcs == ArcsOf(heads, body, theory, o, true) && up.arcs == ArcsOf(heads, body, theory, o, false);
      ArcsInverted(heads, body, theory, o);
    }
  }

  function ArcsOf(heads: seq<Literal>, body: seq<Literal>, theory: Option<string>, o: Options, down: bool): set<Arc> {
    set head, lit | head in heads && o.selectHead(head) && lit in body && o.selectBody(lit) ::
      BodyArc(GlobalTablename(head.table, theory), lit, theory, down)
  }

  lemma ArcsInverted(heads: seq<Literal>, body: seq<Literal>, theory: Option<string>, o: Options)
    ensures ArcsOf(heads, body, theory, o, false) ==
            set a | a in ArcsOf(heads, body, theory, o, true) :: Arc(a.target, a.source, a.negated)
  {
    hide GlobalTablename, Name;
    var down, up := ArcsOf(heads, body, theory, o, true), ArcsOf(heads, body, theory, o, false);
    forall a | a in up
      ensures Arc(a.target, a.source, a.negated) in down
    {
      var head, lit :| head in heads && o.selectHead(head) && lit in body && o.selectBody(lit)
                       && a == BodyArc(GlobalTablename(head.table, theory), lit, theory, false);
      assert BodyArc(GlobalTablename(head.table, theory), lit, theory, true) in down;
    }
    forall a | a in down
      ensures Arc(a.target, a.source, a.negated) in up
    {
      var head, lit :| head in heads && o.selectHead(head) && lit in body && o.selectBody(lit)
                       && a == BodyArc(GlobalTablename(head.table, theory), lit, theory, true);
      assert BodyArc(GlobalTablename(head.table, theory), lit, theory, false) in up;
    }
    SetInverted(up, down);
  }

  lemma SetInverted(up: set<Arc>, down: set<Arc>)
    requires forall a | a in up :: Arc(a.target, a.source, a.negated) in down
    requires forall a | a in down :: Arc(a.target, a.source, a.negated) in up
    ensures up == set a | a in down :: Arc(a.target, a.source, a.negated)
  {
    forall a | a in up
      ensures a in set b | b in down :: Arc(b.target, b.source, b.negated)
    {
      var b := Arc(a.target, a.source, a.negated);
      assert b in down && a == Arc(b.target, b.source, b.negated);
    }
  }

  lemma {:induction false} SameHeadModals(heads: seq<Literal>, theory: Option<string>, o: Options, o': Options)
    requires forall head | head in heads :: o.selectHead(head) == o'.selectHead(head)
    ensures HeadModals(heads, theory, o) == HeadModals(heads, theory, o')
    decreases |heads|
  {
    if heads != [] {
      SameHeadModals(heads[..|heads| - 1], theory, o, o');
    }
  }

  predicate IsHeadUnder(head: Literal, theory: Option<string>, o: Options, m: string, t: string) {
    o.selectHead(head) && head.table.modal == Some(m) && GlobalTablename(head.table, theory) == t
  }

  function HeadsUnder(heads: seq<Literal>, theory: Option<string>, o: Options, m: string, t: string): set<nat> {
    set i: nat | i < |heads| && IsHeadUnder(heads[i], theory, o, m, t)
  }

  lemma OneMoreHead(heads: seq<Literal>, theory: Option<string>, o: Options, m: string, t: string)
    requires heads != []
    ensures var n := |heads| - 1;
            |HeadsUnder(heads, theory, o, m, t)| ==
            |HeadsUnder(heads[..n], theory, o, m, t)| + if IsHeadUnder(heads[n], theory, o, m, t) then 1 else 0
  {
    hide IsHeadUnder;
    var n: nat := |heads| - 1;
    var here, before := HeadsUnder(heads, theory, o, m, t), HeadsUnder(heads[..n], theory, o, m, t);
    assert here == if IsHeadUnder(heads[n], theory, o, m, t) then before + {n} else before;
  }

  /** The modals of a formula count its selected heads, table by table. */
  lemma {:induction false} HeadModalsCount(heads: seq<Literal>, theory: Option<string>, o: Options, m: string,
                                           t: string)
    ensures SharedCounts.CountIn(Under(HeadModals(heads, theory, o), m), t) == |HeadsUnder(heads, theory, o, m, t)|
    decreases |heads|
  {
    hide GlobalTablename, CountModal, Under, SharedCounts.CountIn, HeadsUnder;
    if heads == [] {
      NoModals(m, t);
      NoHeads(theory, o, m, t);
    } else {
      var n := |heads| - 1;
      var head := heads[n];
      HeadModalsCount(heads[..n], theory, o, m, t);
      OneMoreHead(heads, theory, o, m, t);
      if head.table.modal.Some? {
        var name := GlobalTablename(head.table, theory);
        CountModalCounts(HeadModals(heads[..n], theory, o), head.table.modal.value, name, m, t);
      }
    }
  }

  lemma NoHeads(theory: Option<string>, o: Options, m: string, t: string)
    ensures HeadsUnder([], theory, o, m, t) == {}
  {}

  // ---------------------------------------------------------------------------
  // Batches that are not taken back exactly

  function Atom(table: string, modal: Option<string>): Literal {
    Literal(Tablename(None, table, modal), [Variable("x")], false)
  }

  lemma NameOfAtom(th: string, table: string, modal: Option<string>)
    ensures GlobalTablename(Atom(table, modal).table, Some(th)) == Name(Atom(table, modal).table, Some(th)) ==
              th + ":" + table
  {
    assert th + ":" + "" == th + ":";
  }

  function Atoms(tables: seq<string>): seq<Literal> {
    seq(|tables|, i requires 0 <= i < |tables| => Atom(tables[i], None))
  }

  lemma RuleOfAtoms(th: string, head: string, modal: Option<string>, tables: seq<string>)
    requires tables != []
    ensures var h, f := th + ":" + head, RuleNodesEdges(Rule(Atom(head, modal), Atoms(tables)), th);
            && f.nodes == {h} + (set t | t in tables :: th + ":" + t)
            && f.arcs == (set t | t in tables :: Arc(h, th + ":" + t, false))
            && f.modals == if modal.Some? then map[modal.value := map[h := 1]] else map[]
  {
    hide GlobalTablename, Name;
    var h, body := th + ":" + head, Atoms(tables);
    NameOfAtom(th, head, modal);
    forall i | 0 <= i < |tables|
      ensures body[i] in body && tables[i] in tables
      ensures BodyArc(h, body[i], Some(th), true) == Arc(h, th + ":" + tables[i], false)
      ensures Name(body[i].table, Some(th)) == th + ":" + tables[i]
    {
      NameOfAtom(th, tables[i], None);
    }
    var f := RuleNodesEdges(Rule(Atom(head, modal), body), th);
    assert f.nodes == {h} + (set lit | lit in body :: Name(lit.table, Some(th)));
    assert (set lit | lit in body :: Name(lit.table, Some(th))) == set t | t in tables :: th + ":" + t;
  }

  /** A rule with one atom as its body. */
  lemma OneBodyAtom(th: string, head: string, modal: Option<string>, body: string)
    ensures var h, b := th + ":" + head, th + ":" + body;
            RuleNodesEdges(Rule(Atom(head, modal), [Atom(body, None)]), th) ==
            Parts({h, b}, {Arc(h, b, false)}, if modal.Some? then map[modal.value := map[h := 1]] else map[])
  {
    hide RuleNodesEdges;
    assert Atoms([body]) == [Atom(body, None)];
    RuleOfAtoms(th, head, modal, [body]);
  }

  /**
   The rule execute[p(x)] :- q(x) is stored. A batch deletes it and inserts execute[p(x)] :- p(x), which is recursive.
   Once the batch has been taken back the index knows no table under the modal.
   */
  lemma ModalIsLost(th: string)
    ensures var p, m := th + ":" + "p", "execute";
            var f := RuleNodesEdges(Rule(Atom("p", Some(m)), [Atom("q", None)]), th);
            var g := RuleNodesEdges(Rule(Atom("p", Some(m)), [Atom("p", None)]), th);
            var events := [Event(f, false), Event(g, true)];
            && Arc(p, p, false) in g.arcs && DeletesStored([f], events)
            && AccountsUnder(map[p := 1], [f], m)
            && SharedCounts.AfterUndo(map[p := 1], PartsUnder(events, m)) == map[]
  {
    hide RuleNodesEdges, DeletesStored, AccountsUnder, PartsUnder, SharedCounts.AfterUndo;
    OneBodyAtom(th, "p", Some("execute"), "q");
    OneBodyAtom(th, "p", Some("execute"), "p");
    var p, q := th + ":" + "p", th + ":" + "q";
    var modals: Modals := map["execute" := map[p := 1]];
    ModalGoes(p, "execute", Parts({p, q}, {Arc(p, q, false)}, modals), Parts({p, p}, {Arc(p, p, false)}, modals));
  }

  lemma ModalGoes(p: string, m: string, f: Parts, g: Parts)
    requires f.modals == g.modals == map[m := map[p := 1]]
    ensures var events := [Event(f, false), Event(g, true)];
            && DeletesStored([f], events) && AccountsUnder(map[p := 1], [f], m)
            && SharedCounts.AfterUndo(map[p := 1], PartsUnder(events, m)) == map[]
  {
    hide SharedCounts.AfterUndo;
    var c: SharedCounts.Counts := map[p := 1];
    var events := [Event(f, false), Event(g, true)];
    assert events[..1] == [events[0]] && events[..1][..0] == [] && [f][..0] == [];
    assert Deleted(events[..1]) == [f] && Deleted(events) == [f];
    forall t
      ensures SharedCounts.CountIn(c, t) == Total([f], ModalItem(m, t))
    {
      assert Total([f], ModalItem(m, t)) == PartCount(f, ModalItem(m, t));
    }
    assert PartsUnder(events, m) == [SharedCounts.Part(c, false), SharedCounts.Part(c, true)];
    SharedWithItself(c, p);
  }

  /** Deleting and then inserting all that is counted under a modal, and taking that back. */
  lemma SharedWithItself(c: SharedCounts.Counts, t: string)
    requires SharedCounts.Tidy(c) && t in c
    ensures SharedCounts.AfterUndo(c, [SharedCounts.Part(c, false), SharedCounts.Part(c, true)]) == map[]
  {
    var e, d := SharedCounts.Part(c, false), SharedCounts.Part(c, true);
    var es := [e, d];
    assert es[..1] == [e] && [e][..0] == [] && es[..2] == es;
    SharedCounts.AddedAndSubtracted(c, c, t);
    var s := SharedCounts.Made(c, es);
    assert SharedCounts.Made(c, [e]) == SharedCounts.Shelf(map[], None, [c]);
    assert s == SharedCounts.Shelf(c, Some(1), [c, c]);
    var twice := SharedCounts.AddTables(c, c);
    assert twice[t] == 2 * c[t];
    assert SharedCounts.Undone(s, es, 0) == s;
    assert SharedCounts.Undone(s, es, 1) == SharedCounts.Shelf(twice, Some(1), [c, twice]);
    SharedCounts.AddedAndSubtracted(twice, twice, t);
  }

  lemma OneArcCounts(p: string, u: string, x: Item)
    requires p != u
    ensures PartsCount({p, u}, {Arc(p, u, false)}, x) ==
              Weight(NodeChange(p, true), x) + Weight(NodeChange(u, true), x)
              + Weight(ArcChange(Arc(p, u, false), true), x)
  {
    hide PartsCount, Weight;
    NothingCounted(x);
    OneMoreNode({}, p, x, true);
    OneMoreNode({p}, u, x, true);
    assert {} + {p} == {p} && {p} + {u} == {p, u} && {} + {Arc(p, u, false)} == {Arc(p, u, false)};
    OneMoreArc({p, u}, {}, Arc(p, u, false), x, true);
  }

  lemma ThreeArcsCount(p: string, u: string, v: string, w: string, x: Item)
    requires p != u && p != v && p != w && u != v && u != w && v != w
    ensures PartsCount({p, u, v, w}, {Arc(p, u, false), Arc(p, v, false), Arc(p, w, false)}, x) ==
              PartsCount({p, u}, {Arc(p, u, false)}, x)
              + Weight(NodeChange(v, true), x) + Weight(ArcChange(Arc(p, v, false), true), x)
              + Weight(NodeChange(w, true), x) + Weight(ArcChange(Arc(p, w, false), true), x)
  {
    hide PartsCount, Weight;
    var a, b, c := Arc(p, u, false), Arc(p, v, false), Arc(p, w, false);
    NothingCounted(x);
    OneMoreNode({p, u}, v, x, true);
    OneMoreNode({p, u, v}, w, x, true);
    assert {p, u} + {v} == {p, u, v} && {p, u, v} + {w} == {p, u, v, w} && {a} + {b} == {a, b}
        && {a, b} + {c} == {a, b, c};
    MoreNodes({p, u}, {p, u, v, w}, a, x);
    OneMoreArc({p, u, v, w}, {a}, b, x, true);
    OneMoreArc({p, u, v, w}, {a, b}, c, x, true);
  }

  lemma MoreNodes(nodes: set<string>, nodes': set<string>, a: Arc, x: Item)
    ensures PartsCount(nodes', {a}, x) - PartsCount(nodes', {}, x) ==
              PartsCount(nodes, {a}, x) - PartsCount(nodes, {}, x)
  {}

  lemma FourEvents(g: Parts, h: Parts, x: Item, j: nat)
    requires j <= 4
    ensures var events := [Event(g, true), Event(h, true), Event(g, false), Event(h, false)];
            NetEvents(events[j..], x) == if j == 0 || j == 4 then 0
                                         else if j == 1 then 0 - PartCount(g, x)
                                         else if j ==
                                             2 then 0 - PartCount(g, x) - PartCount(h, x) else 0 - PartCount(h, x)
  {
    hide PartCount;
    var a, b, c, d := Event(g, true), Event(h, true), Event(g, false), Event(h, false);
    var events := [a, b, c, d];
    EmptyNets(x);
    assert events[4..] == [] && events[3..] == [d] && events[2..] == [c, d] && events[1..] == [b, c, d];
    assert [d][1..] == [] && [c, d][1..] == [d] && [b, c, d][1..] == [c, d] && events[0..] == events;
    assert NetEvents([d], x) == 0 - PartCount(h, x);
    assert NetEvents([c, d], x) == 0 - PartCount(g, x) - PartCount(h, x);
    assert NetEvents([b, c, d], x) == 0 - PartCount(g, x);
  }

  lemma OneMoreEvent(fs: seq<Parts>, events: seq<Event>, e: Event)
    requires DeletesPresent(fs, events) && (e.insert || e.formula in AfterEvents(fs, events))
    ensures DeletesPresent(fs, events + [e])
    ensures AfterEvents(fs, events + [e]) == AfterEvent(AfterEvents(fs, events), e)
  {
    assert (events + [e])[..|events|] == events;
  }

  lemma OthersStay(fs: seq<Parts>, g: Parts, h: Parts)
    requires g != h && g in fs && h in fs
    ensures h in AfterEvent(fs, Event(g, false))
  {
    AfterOneEvent(fs, Event(g, false));
    assert h in multiset(AfterEvent(fs, Event(g, false)));
  }

  lemma BothArePresent(fs: seq<Parts>, g: Parts, h: Parts)
    requires g != h
    ensures DeletesPresent(fs, [Event(g, true), Event(h, true), Event(g, false), Event(h, false)])
  {
    hide DeletesPresent, AfterEvents, AfterEvent;
    var a, b, c, d := Event(g, true), Event(h, true), Event(g, false), Event(h, false);
    NoEvents(fs);
    OneMoreEvent(fs, [], a);
    InsertedIsThere(fs, g);
    assert [] + [a] == [a];
    OneMoreEvent(fs, [a], b);
    InsertedIsThere(fs + [g], h);
    assert [a] + [b] == [a, b];
    OneMoreEvent(fs, [a, b], c);
    OthersStay(fs + [g] + [h], g, h);
    assert [a, b] + [c] == [a, b, c];
    OneMoreEvent(fs, [a, b, c], d);
    assert [a, b, c] + [d] == [a, b, c, d];
  }

  lemma InsertedIsThere(fs: seq<Parts>, f: Parts)
    ensures AfterEvent(fs, Event(f, true)) == fs + [f] && (fs + [f])[|fs|] == f
  {}

  lemma EdgeGoes(p: string, u: string, v: string, w: string, s: State, changes: seq<Change>)
    requires p != u && p != v && p != w && u != v && u != w && v != w
    requires Accounts(s, [Parts({p, u, v, w}, {Arc(p, u, false), Arc(p, v, false), Arc(p, w, false)}, map[])])
    requires var g, h := Parts({p, u}, {Arc(p, u, false)}, map[]), Parts({p, v}, {Arc(p, v, false)}, map[]);
             Records([Event(g, true), Event(h, true), Event(g, false), Event(h, false)], changes)
    ensures SameCounts(Undone(s, changes), s) && !FindsAll(Undone(s, changes))
  {
    hide Step, State.Valid, Count, Records, Accounts, SameCounts, Total, PartsCount, DeletesPresent, Weight,
         NetEvents, FindsAll;
    var f := Parts({p, u, v, w}, {Arc(p, u, false), Arc(p, v, false), Arc(p, w, false)}, map[]);
    var g, h := Parts({p, u}, {Arc(p, u, false)}, map[]), Parts({p, v}, {Arc(p, v, false)}, map[]);
    var events := [Event(g, true), Event(h, true), Event(g, false), Event(h, false)];
    assert u in g.nodes && u !in h.nodes;
    BothArePresent([f], g, h);
    UndoIsExact(s, [f], events, changes);
    forall x, j | InGraph(x) && 0 <= j <= |events|
      ensures Count(s, x) + NetEvents(events[j..], x) >= 0
    {
      CountOfOne(s, f, x);
      FourEvents(g, h, x, j);
      EnoughIsLeft(p, u, v, w, x);
    }
    var a, x := Arc(p, w, false), NodeItem(p);
    CountOfOne(s, f, x);
    CountOfOne(s, f, ArcItem(a));
    FourEvents(g, h, x, 2);
    EnoughIsLeft(p, u, v, w, x);
    EnoughIsLeft(p, u, v, w, ArcItem(a));
    assert !DeletesArc(events[2..], a);
    assert Count(s, NodeItem(a.source)) + NetEvents(events[2..], NodeItem(a.source)) == 0;
    assert !KeepsSources(s, events);
    StillAccounted(s, changes, [f]);
  }

  lemma StillAccounted(s: State, changes: seq<Change>, fs: seq<Parts>)
    requires Accounts(s, fs)
    ensures SameCounts(Undone(s, changes), s) && FindsAll(Undone(s, changes)) ==> Accounts(Undone(s, changes), fs)
  {}

  lemma CountOfOne(s: State, f: Parts, x: Item)
    requires Accounts(s, [f]) && InGraph(x)
    ensures Count(s, x) == PartsCount(f.nodes, f.arcs, x)
  {
    assert [f][..0] == [];
    assert Count(s, x) == Total([f], x);
  }

  /** What both formulas count, the larger one counts too, but no source is left for the edge. */
  lemma EnoughIsLeft(p: string, u: string, v: string, w: string, x: Item)
    requires p != u && p != v && p != w && u != v && u != w && v != w && InGraph(x)
    ensures var f := PartsCount({p, u, v, w}, {Arc(p, u, false), Arc(p, v, false), Arc(p, w, false)}, x);
            var g, h := PartsCount({p, u}, {Arc(p, u, false)}, x), PartsCount({p, v}, {Arc(p, v, false)}, x);
            && f >= g + h && (x == NodeItem(p) ==> f == g + h) && (x == ArcItem(Arc(p, w, false)) ==> f > 0)
  {
    hide PartsCount;
    ThreeArcsCount(p, u, v, w, x);
    OneArcCounts(p, u, x);
    OneArcCounts(p, v, x);
  }

  /**
   The rule p(x) :- u(x), v(x), w(x) is stored. A batch inserts p(x) :- u(x) and p(x) :- v(x), and deletes them again.
   Once the batch has been taken back all counts are as before, and the edge from p to w is not found.
   */
  lemma EdgeIsLost(th: string, s: State, changes: seq<Change>)
    requires var f := RuleNodesEdges(Rule(Atom("p", None), [Atom("u", None), Atom("v", None), Atom("w", None)]), th);
             Accounts(s, [f])
    requires var g := RuleNodesEdges(Rule(Atom("p", None), [Atom("u", None)]), th);
             var h := RuleNodesEdges(Rule(Atom("p", None), [Atom("v", None)]), th);
             Records([Event(g, true), Event(h, true), Event(g, false), Event(h, false)], changes)
    ensures SameCounts(Undone(s, changes), s) && !FindsAll(Undone(s, changes))
  {
    hide Accounts, SameCounts, FindsAll, Records;
    ThreeBodyAtoms(th, "p", "u", "v", "w");
    OneBodyAtom(th, "p", None, "u");
    OneBodyAtom(th, "p", None, "v");
    assert (th + ":" + "p")[|th| + 1] == 'p' && (th + ":" + "u")[|th| + 1] == 'u';
    assert (th + ":" + "v")[|th| + 1] == 'v' && (th + ":" + "w")[|th| + 1] == 'w';
    EdgeGoes(th + ":" + "p", th + ":" + "u", th + ":" + "v", th + ":" + "w", s, changes);
  }

  lemma ThreeBodyAtoms(th: string, p: string, u: string, v: string, w: string)
    ensures var p', u', v', w' := th + ":" + p, th + ":" + u, th + ":" + v, th + ":" + w;
            RuleNodesEdges(Rule(Atom(p, None), [Atom(u, None), Atom(v, None), Atom(w, None)]), th) ==
            Parts({p', u', v', w'}, {Arc(p', u', false), Arc(p', v', false), Arc(p', w', false)}, map[])
  {
    hide RuleNodesEdges;
    assert Atoms([u, v, w]) == [Atom(u, None), Atom(v, None), Atom(w, None)];
    RuleOfAtoms(th, p, None, [u, v, w]);
  }
}
