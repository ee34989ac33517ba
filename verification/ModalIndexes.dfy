/**
 Which tables occur in heads under which modal, and how often. An index holds one dictionary for each modal; adding
 a record to an index that does not have the modal makes the record's own dictionary that of the index.
 */
module ModalIndexes {
  import opened Syntax
  import opened SharedCounts

  type Modals = map<string, Counts>

  /** No modal without tables, no table without occurrences. */
  predicate TidyModals(modals: Modals) {
    forall m | m in modals :: modals[m] != map[] && Tidy(modals[m])
  }

  function Under(modals: Modals, m: string): Counts {
    if m in modals then modals[m] else map[]
  }

  /** A dictionary from tables to counts. */
  class TableCounts {
    var counts: Counts

    constructor (counts: Counts)
      ensures this.counts == counts
    {
      this.counts := counts;
    }

    /** Adds the counts of a dictionary, which may be this very one. */
    method AddAll(other: TableCounts)
      modifies this
      ensures counts == AddTables(old(counts), old(other.counts))
    {
      var all := other.counts.Keys;
      var rest := all;
      while rest != {}
        invariant rest <= all == old(other.counts.Keys) && counts.Keys == old(counts.Keys) + (all - rest)
        invariant other != this ==> other.counts == old(other.counts)
        invariant forall t | t in counts ::
                    counts[t] == CountIn(old(counts), t) + if t in rest then 0 else CountIn(old(other.counts), t)
      {
        var t :| t in rest;
        rest := rest - {t};
        counts := counts[t := (if t in counts then counts[t] else 0) + other.counts[t]];
      }
    }

    /** Subtracts the counts of a dictionary, which may be this very one, and drops what falls to zero. */
    method SubtractAll(other: TableCounts)
      modifies this
      ensures counts == SubtractTables(old(counts), old(other.counts))
    {
      var rest := counts.Keys;
      while rest != {}
        invariant rest <= counts.Keys == old(counts.Keys)
        invariant other != this ==> other.counts == old(other.counts)
        invariant forall t | t in counts ::
                    counts[t] == if t in rest then old(counts)[t]
                                 else Max(0, old(counts)[t] - CountIn(old(other.counts), t))
      {
        var t :| t in rest;
        rest := rest - {t};
        if t in other.counts {
          counts := counts[t := if counts[t] > other.counts[t] then counts[t] - other.counts[t] else 0];
        }
      }
      counts := map t | t in counts && counts[t] > 0 :: counts[t];
    }
  }

  /** The counts under a modal. */
  ghost function CountsOf(i: ModalIndex, m: string): Counts
    reads i, i.index.Values
  {
    if m in i.index then i.index[m].counts else map[]
  }

  /** The record that holds this dictionary. */
  function OwnerOf(records: seq<ModalIndex>, m: string, d: TableCounts): (owner: Option<nat>)
    reads records
    ensures owner.Some? ==>
              owner.value < |records| && m in records[owner.value].index && records[owner.value].index[m] == d
    ensures owner.None? ==> forall i | 0 <= i < |records| && m in records[i].index :: records[i].index[m] != d
  {
    if records == [] then None
    else
      var n := |records| - 1;
      if m in records[n].index && records[n].index[m] == d then Some(n) else OwnerOf(records[..n], m, d)
  }

  function Dictionaries(records: seq<ModalIndex>): set<TableCounts>
    reads records
  {
    set i, m | 0 <= i < |records| && m in records[i].index :: records[i].index[m]
  }

  /** What the records hold under a modal. */
  ghost function CountsOfAll(records: seq<ModalIndex>, m: string): (r: seq<Counts>)
    reads records, Dictionaries(records)
    ensures |r| == |records| && forall k | 0 <= k < |records| :: r[k] == CountsOf(records[k], m)
  {
    if records == [] then []
    else
      var n := |records| - 1;
      CountsOfAll(records[..n], m) + [CountsOf(records[n], m)]
  }

  /** The index, the record that shares its dictionary, and the records, as far as one modal goes. */
  ghost function ShelfOf(i: ModalIndex, records: seq<ModalIndex>, m: string): (s: Shelf)
    reads i, i.index.Values, records, Dictionaries(records)
    ensures |s.records| == |records| && (s.owner.Some? ==> s.owner.value < |records|)
  {
    Shelf(CountsOf(i, m), if m in i.index then OwnerOf(records, m, i.index[m]) else None, CountsOfAll(records, m))
  }

  ghost function Shelves(i: ModalIndex, records: seq<ModalIndex>): (all: imap<string, Shelf>)
    reads i, i.index.Values, records, Dictionaries(records)
    ensures forall m :: m in all && all[m] == ShelfOf(i, records, m)
    ensures forall m :: |all[m].records| == |records| && (all[m].owner.Some? ==> all[m].owner.value < |records|)
  {
    imap m: string :: ShelfOf(i, records, m)
  }

  /** No dictionary is shared but between the index and a record, under the same modal. */
  ghost predicate Separate(i: ModalIndex, records: seq<ModalIndex>)
    reads i, records
  {
    && i !in records
    && (forall m, m' | m in i.index && m' in i.index && m != m' :: i.index[m] != i.index[m'])
    && (forall k, m, m' | 0 <= k < |records| && m in i.index && m' in records[k].index && m != m' ::
          i.index[m] != records[k].index[m'])
    && (forall k, k', m, m' | 0 <= k < |records| && 0 <= k' < |records| && m in records[k].index
        && m' in records[k'].index
                              && (k != k' || m != m') :: records[k].index[m] != records[k'].index[m'])
  }

  /** The records of deletes from `k` on are whole, and the index shares none of their dictionaries. */
  ghost predicate Intact(i: ModalIndex, records: seq<ModalIndex>, kinds: seq<Part>, k: nat)
    requires |kinds| == |records|
    reads i, records, Dictionaries(records)
  {
    forall j | k <= j < |records| && !kinds[j].insert :: records[j].Full() && records[j].index.Values !! i.index.Values
  }

  class ModalIndex {
    var index: map<string, TableCounts>

    constructor ()
      ensures index == map[]
    {
      index := map[];
    }

    /** No dictionary of the index is empty, and no table in it without occurrences. */
    ghost predicate Full()
      reads this, index.Values
    {
      forall m | m in index :: index[m].counts != map[] && Tidy(index[m].counts)
    }

    /** A record of what a formula contributes, in dictionaries of its own. */
    constructor Of(modals: Modals)
      requires TidyModals(modals)
      ensures Full() && fresh(index.Values) && index.Keys == modals.Keys
      ensures forall m, m' | m in index && m' in index && m != m' :: index[m] != index[m']
      ensures forall m :: CountsOf(this, m) == Under(modals, m)
    {
      index := map[];
      new;
      var rest := modals.Keys;
      while rest != {}
        invariant rest <= modals.Keys && index.Keys == modals.Keys - rest
        invariant forall m | m in index :: fresh(index[m])
        invariant forall m, m' | m in index && m' in index && m != m' :: index[m] != index[m']
        invariant forall m | m in index :: index[m].counts == modals[m]
        modifies this
      {
        var m :| m in rest;
        rest := rest - {m};
        var counts := new TableCounts(modals[m]);
        index := index[m := counts];
      }
    }

    /** Under a modal that is not there the record's dictionary becomes that of the index. */
    method ShareUnder(m: string, other: ModalIndex, ghost records: seq<ModalIndex>, ghost k: nat)
      requires k < |records| && other == records[k] && Separate(this, records) && Full()
      requires m !in index && m in other.index && other.Full()
      modifies this
      ensures Separate(this, records) && Full() && other.Full() && index == old(index)[m := other.index[m]]
      ensures ShelfOf(this, records, m) == old(ShelfOf(this, records, m)).Plus(k)
      ensures forall m' | m' != m :: ShelfOf(this, records, m') == old(ShelfOf(this, records, m'))
    {
      hide AddTables, Tidy, OwnerOf;
      index := index[m := other.index[m]];
      OwnerIs(this, records, m, k);
      assert ShelfOf(this, records, m).records == old(ShelfOf(this, records, m).records);
      ShelvesKept(this, records, m);
    }

    method AddUnder(m: string, other: ModalIndex, ghost records: seq<ModalIndex>, ghost k: nat)
      requires k < |records| && other == records[k] && Separate(this, records) && Full()
      requires m in index && m in other.index && other.Full()
      modifies index[m]
      ensures Separate(this, records) && Full() && other.Full()
      ensures ShelfOf(this, records, m) == old(ShelfOf(this, records, m)).Plus(k)
      ensures forall m' | m' != m :: ShelfOf(this, records, m') == old(ShelfOf(this, records, m'))
    {
      hide AddTables, Tidy, OwnerOf;
      index[m].AddAll(other.index[m]);
      ShelfChanged(this, records, m, index[m]);
      ShelvesKept(this, records, m);
    }

    method SubtractUnder(m: string, other: ModalIndex, ghost records: seq<ModalIndex>, ghost k: nat)
      requires k < |records| && other == records[k] && Separate(this, records) && Full()
      requires m in index && m in other.index
      modifies this, index[m]
      ensures Separate(this, records) && Full()
      ensures index == old(index) || index == old(index) - {m}
      ensures ShelfOf(this, records, m) == old(ShelfOf(this, records, m)).Minus(k)
      ensures forall m' | m' != m :: ShelfOf(this, records, m') == old(ShelfOf(this, records, m'))
    {
      hide SubtractTables, Tidy, OwnerOf;
      index[m].SubtractAll(other.index[m]);
      ghost var d := index[m];
      if index[m].counts == map[] {
        index := index - {m};
      }
      ShelfChanged(this, records, m, d);
      ShelvesKept(this, records, m);
    }

    /** Adds what another index counts. */
    method Plus(other: ModalIndex, ghost records: seq<ModalIndex>, ghost k: nat)
      requires k < |records| && other == records[k] && Separate(this, records) && Full() && other.Full()
      modifies this, index.Values
      ensures Separate(this, records) && Full() && index.Values <= old(index.Values) + other.index.Values
      ensures forall m :: ShelfOf(this, records, m) == old(ShelfOf(this, records, m)).Plus(k)
    {
      hide AddTables, OwnerOf, Separate, ShelfOf, Shelves, Full, Shelf.Plus, Tidy;
      var rest := other.index.Keys;
      ghost var before := Shelves(this, records);
      NothingMoreAdded(this, records, k);
      while rest != {}
        invariant rest <= other.index.Keys
        invariant Separate(this, records) && Full() && other.Full()
        invariant index.Values <= old(index.Values) + other.index.Values
        invariant forall m | m in rest :: m in index <==> m in old(index)
        invariant forall m | m in rest && m in index :: index[m] == old(index)[m]
        invariant forall m | m !in rest :: ShelfOf(this, records, m) == before[m].Plus(k)
        invariant forall m | m in rest :: ShelfOf(this, records, m) == before[m]
      {
        var m :| m in rest;
        rest := rest - {m};
        if m in index {
          AddUnder(m, other, records, k);
        } else {
          ShareUnder(m, other, records, k);
        }
      }
    }

    /** Subtracts what another index counts, as far as both count it, and drops what falls to zero. */
    method Minus(other: ModalIndex, ghost records: seq<ModalIndex>, ghost k: nat)
      requires k < |records| && other == records[k] && Separate(this, records) && Full()
      modifies this, index.Values
      ensures Separate(this, records) && Full() && index.Values <= old(index.Values)
      ensures forall m :: ShelfOf(this, records, m) == old(ShelfOf(this, records, m)).Minus(k)
    {
      hide SubtractTables, OwnerOf, Separate, ShelfOf, Shelves, Full, Shelf.Minus, Tidy;
      var rest := index.Keys * other.index.Keys;
      ghost var before := Shelves(this, records);
      NothingMoreSubtracted(this, records, k);
      while rest != {}
        invariant rest <= index.Keys * other.index.Keys
        invariant Separate(this, records) && Full() && index.Values <= old(index.Values)
        invariant forall m | m in rest :: m in index && m in old(index) && index[m] == old(index)[m]
        invariant forall m | m !in rest :: ShelfOf(this, records, m) == before[m].Minus(k)
        invariant forall m | m in rest :: ShelfOf(this, records, m) == before[m]
      {
        var m :| m in rest;
        rest := rest - {m};
        SubtractUnder(m, other, records, k);
      }
    }
  }

  // ---------------------------------------------------------------------------
  // One more record

  lemma OneMoreRecord(i: ModalIndex, records: seq<ModalIndex>, r: ModalIndex)
    requires Separate(i, records) && r != i && r.index.Values !! i.index.Values
              && r.index.Values !! Dictionaries(records)
    requires forall m, m' | m in r.index && m' in r.index && m != m' :: r.index[m] != r.index[m']
    ensures Separate(i, records + [r])
    ensures Dictionaries(records + [r]) == Dictionaries(records) + r.index.Values
    ensures forall m :: ShelfOf(i, records + [r], m) == ShelfOf(i, records, m).Append(CountsOf(r, m))
  {
    var all := records + [r];
    assert all[..|records|] == records;
    forall k, m, m' | 0 <= k < |all| && m in i.index && m' in all[k].index && m != m'
      ensures i.index[m] != all[k].index[m']
    {
      assert all[k].index[m'] in all[k].index.Values && i.index[m] in i.index.Values;
    }
    forall k, k', m, m' | 0 <= k < k' < |all| && m in all[k].index && m' in all[k'].index
      ensures all[k].index[m] != all[k'].index[m']
    {
      if k' == |records| {
        assert all[k].index[m] in Dictionaries(records) && all[k'].index[m'] in r.index.Values;
      }
    }
    forall m
      ensures ShelfOf(i, all, m) == ShelfOf(i, records, m).Append(CountsOf(r, m))
    {
      if m in i.index && m in r.index {
        assert r.index[m] in r.index.Values && i.index[m] in i.index.Values;
      }
    }
  }

  lemma RecordsAreDisjoint(i: ModalIndex, records: seq<ModalIndex>, j: nat, k: nat)
    requires Separate(i, records) && j < |records| && k < |records| && j != k
    ensures records[j].index.Values !! records[k].index.Values
  {}

  /** As the index changes, the records of deletes stay as they are, as long as it does not get their dictionaries. */
  twostate lemma StaysIntact(i: ModalIndex, new records: seq<ModalIndex>, new kinds: seq<Part>, new k: nat, new l: nat,
                             new gained: set<TableCounts>)
    requires old(allocated(records)) && |kinds| == |records| && k <= l
    requires old(Intact(i, records, kinds, k))
    requires forall j | 0 <= j < |records| :: records[j].index == old(records[j].index)
    requires i.index.Values <= old(i.index.Values) + gained
    requires forall j | l <= j < |records| && !kinds[j].insert :: records[j].index.Values !! gained
    requires forall d | d in Dictionaries(records) - old(i.index.Values) :: d.counts == old(d.counts)
    ensures Intact(i, records, kinds, l)
  {
    forall j | l <= j < |records| && !kinds[j].insert
      ensures records[j].Full() && records[j].index.Values !! i.index.Values
    {
      forall m | m in records[j].index
        ensures records[j].index[m] !in i.index.Values
        ensures records[j].index[m].counts == old(records[j].index[m].counts)
      {
        assert records[j].index[m] in Dictionaries(records) && records[j].index[m] in records[j].index.Values;
      }
    }
  }

  // ---------------------------------------------------------------------------
  // What a change under one modal leaves alone

  lemma OwnerIs(i: ModalIndex, records: seq<ModalIndex>, m: string, k: nat)
    requires Separate(i, records) && k < |records| && m in i.index && m in records[k].index
    requires records[k].index[m] == i.index[m]
    ensures OwnerOf(records, m, i.index[m]) == Some(k)
  {
  }

  /** Nothing is added under a modal that the other index does not have. */
  lemma NothingMoreAdded(i: ModalIndex, records: seq<ModalIndex>, k: nat)
    requires k < |records|
    ensures forall m | m !in records[k].index :: ShelfOf(i, records, m) == ShelfOf(i, records, m).Plus(k)
  {}

  /** Nothing is subtracted under a modal that only one index has. */
  lemma NothingMoreSubtracted(i: ModalIndex, records: seq<ModalIndex>, k: nat)
    requires k < |records| && i.Full()
    ensures forall m | m !in i.index || m !in records[k].index ::
              ShelfOf(i, records, m) == ShelfOf(i, records, m).Minus(k)
  {
    hide SubtractTables, OwnerOf;
    forall m | m !in i.index || m !in records[k].index
      ensures ShelfOf(i, records, m) == ShelfOf(i, records, m).Minus(k)
    {
      AddedAndSubtracted(CountsOf(i, m), CountsOf(records[k], m), "");
    }
  }

  /**
   The dictionary under one modal has changed, and is dropped if it is empty: so has that of the record that
   shares it.
   */
  twostate lemma ShelfChanged(i: ModalIndex, new records: seq<ModalIndex>, new m: string, new d: TableCounts)
    requires old(allocated(records)) && old(allocated(d))
              && old(Separate(i, records) && m in i.index && i.index[m] == d)
    requires if d.counts == map[] then m !in i.index else m in i.index && i.index[m] == d
    requires forall k | 0 <= k < |records| :: records[k].index == old(records[k].index)
    requires forall k | 0 <= k < |records| && m in records[k].index && records[k].index[m] != d ::
               records[k].index[m].counts == old(records[k].index[m].counts)
    ensures ShelfOf(i, records, m) == old(ShelfOf(i, records, m)).Change(d.counts)
  {
    var s := old(ShelfOf(i, records, m));
    OwnerKept(records, m, d);
    var r, r' := ShelfOf(i, records, m), s.Change(d.counts);
    forall k | 0 <= k < |records|
      ensures r.records[k] == r'.records[k]
    {
      if m in records[k].index && records[k].index[m] == d {
        assert s.owner == Some(k);
      }
    }
  }

  /** What is counted under other modals stays. */
  twostate lemma ShelvesKept(i: ModalIndex, new records: seq<ModalIndex>, new m: string)
    requires old(allocated(records))
    requires forall k | 0 <= k < |records| :: records[k].index == old(records[k].index)
    requires forall m' | m' != m :: m' in i.index <==> m' in old(i.index)
    requires forall m' | m' in i.index && m' != m :: i.index[m'] == old(i.index[m'])
    requires forall m' | m' in i.index && m' != m :: i.index[m'].counts == old(i.index[m'].counts)
    requires forall k, m' | 0 <= k < |records| && m' in records[k].index && m' != m ::
               records[k].index[m'].counts == old(records[k].index[m'].counts)
    ensures forall m' | m' != m :: ShelfOf(i, records, m') == old(ShelfOf(i, records, m'))
  {
    forall m' | m' != m
      ensures ShelfOf(i, records, m') == old(ShelfOf(i, records, m'))
    {
      ShelfKept(i, records, m, m');
    }
  }

  /** What is counted under another modal stays. */
  twostate lemma ShelfKept(i: ModalIndex, new records: seq<ModalIndex>, new m: string, new m': string)
    requires old(allocated(records))
    requires m != m' && (m' in i.index <==> m' in old(i.index))
    requires forall k | 0 <= k < |records| :: records[k].index == old(records[k].index)
    requires m' in i.index ==> i.index[m'] == old(i.index[m']) && i.index[m'].counts == old(i.index[m'].counts)
    requires forall k | 0 <= k < |records| && m' in records[k].index ::
               records[k].index[m'].counts == old(records[k].index[m'].counts)
    ensures ShelfOf(i, records, m') == old(ShelfOf(i, records, m'))
  {
    if m' in i.index {
      OwnerKept(records, m', i.index[m']);
    }
    var r, r' := ShelfOf(i, records, m'), old(ShelfOf(i, records, m'));
    assert forall k | 0 <= k < |records| :: r.records[k] == r'.records[k];
    assert r.records == r'.records;
  }

  twostate lemma OwnerKept(records: seq<ModalIndex>, new m: string, new d: TableCounts)
    requires old(allocated(d))
    requires forall k | 0 <= k < |records| :: records[k].index == old(records[k].index)
    ensures OwnerOf(records, m, d) == old(OwnerOf(records, m, d))
    decreases |records|
  {
    if records != [] {
      OwnerKept(records[..|records| - 1], m, d);
    }
  }
}
