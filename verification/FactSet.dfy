/** A set of facts of one width, with indexes over some of their columns. */
module FactSet {
  import opened Syntax
  import OrderedSet

  type Row = seq<Constant>
  type Columns = seq<nat>
  type Index = map<seq<Constant>, set<Row>>

  predicate WithinWidth(columns: Columns, width: nat) {
    forall c | c in columns :: c < width
  }

  function ComputeKey(columns: Columns, row: Row): seq<Constant>
    requires WithinWidth(columns, |row|)
  {
    seq(|columns|, i requires 0 <= i < |columns| => assert columns[i] in columns; row[columns[i]])
  }

  function Bucket(index: Index, key: seq<Constant>): set<Row> {
    if key in index then index[key] else {}
  }

  /** The index holds exactly the rows, each under its own key, and has no empty entries. */
  ghost predicate Indexes(index: Index, columns: Columns, rows: iset<Row>)
    requires forall row | row in rows :: WithinWidth(columns, |row|)
  {
    && (forall key | key in index :: index[key] != {})
    && (forall key, row :: row in Bucket(index, key) <==> row in rows && ComputeKey(columns, row) == key)
  }

  method AddToIndex(index: Index, columns: Columns, row: Row, ghost rows: iset<Row>) returns (index': Index)
    requires WithinWidth(columns, |row|) && forall r | r in rows :: |r| == |row|
    requires Indexes(index, columns, rows)
    ensures Indexes(index', columns, rows + iset{row})
  {
    var key := ComputeKey(columns, row);
    if key !in index {
      index' := index[key := {row}];
    } else {
      index' := index[key := index[key] + {row}];
    }
    forall k, r
      ensures r in Bucket(index', k) <==> r in Bucket(index, k) || (k == key && r == row)
    {}
  }

  method RemoveFromIndex(index: Index, columns: Columns, row: Row, ghost rows: iset<Row>) returns (index': Index)
    requires WithinWidth(columns, |row|) && forall r | r in rows :: |r| == |row|
    requires Indexes(index, columns, rows) && row in rows
    ensures Indexes(index', columns, rows - iset{row})
  {
    var key := ComputeKey(columns, row);
    assert row in Bucket(index, key);
    var rest := index[key] - {row};
    index' := index[key := rest];
    if |rest| == 0 {
      index' := index' - {key};
    }
    forall k, r
      ensures r in Bucket(index', k) <==> r in Bucket(index, k) && !(k == key && r == row)
    {}
  }

  type Partial = seq<(nat, Constant)>

  /** The row has the given values in the given columns. */
  predicate Fits(row: Row, partial: Partial)
    requires forall p | p in partial :: p.0 < |row|
  {
    forall p | p in partial :: row[p.0] == p.1
  }

  function ColumnsOf(partial: Partial): Columns {
    seq(|partial|, i requires 0 <= i < |partial| => partial[i].0)
  }

  function ValuesOf(partial: Partial): seq<Constant> {
    seq(|partial|, i requires 0 <= i < |partial| => partial[i].1)
  }

  /** A row fits exactly when its key in those columns is the one asked for. */
  lemma FitsByKey(row: Row, partial: Partial)
    requires forall p | p in partial :: p.0 < |row|
    ensures WithinWidth(ColumnsOf(partial), |row|)
    ensures Fits(row, partial) <==> ComputeKey(ColumnsOf(partial), row) == ValuesOf(partial)
  {
    var columns, values := ColumnsOf(partial), ValuesOf(partial);
    forall c | c in columns
      ensures c < |row|
    {
      var i :| 0 <= i < |columns| && columns[i] == c;
      assert partial[i] in partial;
    }
    if ComputeKey(columns, row) == values {
      forall p | p in partial
        ensures row[p.0] == p.1
      {
        var i :| 0 <= i < |partial| && partial[i] == p;
        assert ComputeKey(columns, row)[i] == values[i];
      }
    }
    if Fits(row, partial) {
      forall i | 0 <= i < |partial|
        ensures ComputeKey(columns, row)[i] == values[i]
      {
        assert partial[i] in partial;
      }
    }
  }

  type Indicies = map<Columns, Index>

  ghost function Rows(rows: seq<Row>): iset<Row> {
    iset row | row in rows
  }

  ghost predicate AllOfWidth(rows: iset<Row>, width: nat) {
    forall row | row in rows :: |row| == width
  }

  /** Every index is over columns that exist, and agrees with the rows. */
  ghost predicate AllIndexed(indicies: Indicies, width: nat, rows: iset<Row>)
    requires AllOfWidth(rows, width)
  {
    forall columns | columns in indicies :: WithinWidth(columns, width) && Indexes(indicies[columns], columns, rows)
  }

  method AddToAll(indicies: Indicies, row: Row, ghost rows: iset<Row>) returns (indicies': Indicies)
    requires AllOfWidth(rows, |row|) && AllIndexed(indicies, |row|, rows)
    ensures indicies'.Keys == indicies.Keys && AllIndexed(indicies', |row|, rows + iset{row})
  {
    hide Indexes;
    indicies' := indicies;
    var rest := indicies.Keys;
    while rest != {}
      invariant rest <= indicies.Keys == indicies'.Keys
      invariant forall columns | columns in indicies' ::
                  Indexes(indicies'[columns], columns, if columns in rest then rows else rows + iset{row})
    {
      var columns :| columns in rest;
      rest := rest - {columns};
      var index := AddToIndex(indicies'[columns], columns, row, rows);
      indicies' := indicies'[columns := index];
    }
  }

  method RemoveFromAll(indicies: Indicies, row: Row, ghost rows: iset<Row>) returns (indicies': Indicies)
    requires AllOfWidth(rows, |row|) && AllIndexed(indicies, |row|, rows) && row in rows
    ensures indicies'.Keys == indicies.Keys && AllIndexed(indicies', |row|, rows - iset{row})
  {
    hide Indexes;
    indicies' := indicies;
    var rest := indicies.Keys;
    while rest != {}
      invariant rest <= indicies.Keys == indicies'.Keys
      invariant forall columns | columns in indicies' ::
                  Indexes(indicies'[columns], columns, if columns in rest then rows else rows - iset{row})
    {
      var columns :| columns in rest;
      rest := rest - {columns};
      var index := RemoveFromIndex(indicies'[columns], columns, row, rows);
      indicies' := indicies'[columns := index];
    }
  }

  lemma RowsAppend(rows: seq<Row>, row: Row)
    ensures Rows(rows + [row]) == Rows(rows) + iset{row}
  {}

  lemma RowsWithout(rows: seq<Row>, row: Row)
    ensures Rows(OrderedSet.Without(rows, row)) == Rows(rows) - iset{row}
  {
    forall r
      ensures r in OrderedSet.Without(rows, row) <==> r in rows && r != row
    {
      OrderedSet.WithoutMember(rows, row, r);
    }
  }

  method BuildIndex(rows: seq<Row>, columns: Columns) returns (index: Index)
    requires forall row | row in rows :: WithinWidth(columns, |row|)
    requires forall row, row' | row in rows && row' in rows :: |row| == |row'|
    ensures Indexes(index, columns, Rows(rows))
  {
    hide Indexes;
    EmptyIndex(columns);
    assert Rows(rows[..0]) == iset{};
    index := map[];
    for i := 0 to |rows|
      invariant Indexes(index, columns, Rows(rows[..i]))
    {
      assert rows[..i + 1] == rows[..i] + [rows[i]];
      RowsAppend(rows[..i], rows[i]);
      assert forall row | row in Rows(rows[..i]) :: row in rows;
      index := AddToIndex(index, columns, rows[i], Rows(rows[..i]));
    }
    assert rows[..|rows|] == rows;
  }

  method Scan(rows: seq<Row>, partial: Partial) returns (matches: set<Row>)
    requires forall row, p | row in rows && p in partial :: p.0 < |row|
    ensures forall row :: row in matches <==> row in rows && Fits(row, partial)
  {
    matches := {};
    for i := 0 to |rows|
      invariant forall row :: row in matches <==> row in rows[..i] && Fits(row, partial)
    {
      assert rows[..i + 1] == rows[..i] + [rows[i]];
      if Fits(rows[i], partial) {
        matches := matches + {rows[i]};
      }
    }
    assert rows[..|rows|] == rows;
  }

  class FactSet {
    const width: nat
    const facts: OrderedSet.OrderedSet<Row>
    var indicies: Indicies

    constructor (width: nat)
      ensures Valid() && fresh(Repr()) && Contents() == [] && this.width == width
    {
      this.width := width;
      facts := new OrderedSet.OrderedSet<Row>();
      indicies := map[];
    }

    ghost function Repr(): set<object>
      reads this, facts
    {
      {this} + facts.Repr()
    }

    ghost predicate Valid()
      reads this, facts, Repr()
    {
      && this !in facts.Repr() && facts.Valid()
      && AllOfWidth(Rows(facts.Contents()), width)
      && AllIndexed(indicies, width, Rows(facts.Contents()))
    }

    ghost function Contents(): seq<Row>
      reads this, facts, Repr()
      requires Valid()
    {
      facts.Contents()
    }

    /** What a fact set contains depends only on its own objects. */
    twostate lemma Unaffected()
      requires old(Valid()) && forall o | o in old(Repr()) :: unchanged(o)
      ensures Valid() && Repr() == old(Repr()) && Contents() == old(Contents())
    {
      hide AllIndexed, AllOfWidth, OrderedSet.OrderedSet.Valid, OrderedSet.OrderedSet.Contents;
      assert this in old(Repr());
      facts.Unaffected();
    }

    method Iterate() returns (rows: seq<Row>)
      requires Valid()
      ensures rows == Contents()
    {
      rows := facts.Iterate();
    }

    /** Adds the fact unless it is there, also to every index. */
    method Add(row: Row) returns (changed: bool)
      requires Valid() && |row| == width
      modifies Repr()
      ensures Valid() && fresh(Repr() - old(Repr()))
      ensures changed <==> row !in old(Contents())
      ensures Contents() == if changed then old(Contents()) + [row] else old(Contents())
      ensures indicies.Keys == old(indicies.Keys)
    {
      hide AllIndexed, Rows, OrderedSet.OrderedSet.Valid, OrderedSet.OrderedSet.Contents;
      RowsAppend(facts.Contents(), row);
      ghost var rows := Rows(facts.Contents());
      changed := facts.Add(row);
      if changed {
        indicies := AddToAll(indicies, row, rows);
      }
    }

    /** Removes the fact if it is there, also from every index. */
    method Remove(row: Row) returns (changed: bool)
      requires Valid() && |row| == width
      modifies Repr()
      ensures Valid() && Repr() <= old(Repr())
      ensures changed <==> row in old(Contents())
      ensures Contents() == OrderedSet.Without(old(Contents()), row)
      ensures indicies.Keys == old(indicies.Keys)
    {
      hide AllIndexed, OrderedSet.OrderedSet.Valid, OrderedSet.OrderedSet.Contents;
      RowsWithout(facts.Contents(), row);
      ghost var rows := Rows(facts.Contents());
      changed := facts.Discard(row);
      if changed {
        indicies := RemoveFromAll(indicies, row, rows);
      } else {
        assert rows - iset{row} == rows;
      }
    }

    /** An index over the columns; but none comes into being while there are no facts. */
    method CreateIndex(columns: Columns)
      requires Valid() && WithinWidth(columns, width)
      modifies this`indicies
      ensures Valid() && Repr() == old(Repr()) && Contents() == old(Contents())
      ensures indicies.Keys == old(indicies.Keys) + if Contents() == [] then {} else {columns}
    {
      hide AllIndexed, Indexes, OrderedSet.OrderedSet.Valid, OrderedSet.OrderedSet.Contents;
      if columns in indicies {
        assert indicies.Keys == indicies.Keys + {columns};
        return;
      }
      var rows := facts.Iterate();
      RowsHaveWidth(rows, width, columns);
      var index := BuildIndex(rows, columns);
      if |rows| > 0 {
        OneMoreIndex(indicies, width, Rows(rows), columns, index);
        indicies := indicies[columns := index];
      }
    }

    method RemoveIndex(columns: Columns)
      requires Valid()
      modifies this`indicies
      ensures Valid() && Repr() == old(Repr()) && Contents() == old(Contents())
      ensures indicies.Keys == old(indicies.Keys) - {columns}
    {
      if columns in indicies {
        indicies := indicies - {columns};
      }
    }

    predicate Contains(row: Row)
      requires Valid()
      reads this, facts, Repr()
      ensures Contains(row) <==> row in Contents()
    {
      facts.Contains(row)
    }

    predicate HasIndex(columns: Columns)
      reads this
    {
      columns in indicies
    }

    /** The facts with the given values, from an index if there is one, else by looking at all facts. */
    method Find(partial: Partial) returns (matches: set<Row>)
      requires Valid() && forall p | p in partial :: p.0 < width
      ensures forall row | row in Contents() :: |row| == width
      ensures forall row :: row in matches <==> row in Contents() && Fits(row, partial)
    {
      hide Indexes, OrderedSet.OrderedSet.Valid, OrderedSet.OrderedSet.Contents;
      var columns, key := ColumnsOf(partial), ValuesOf(partial);
      assert forall row | row in Contents() :: row in Rows(facts.Contents());
      if columns in indicies {
        var index := indicies[columns];
        LookUp(index, width, facts.Contents(), partial);
        return if key in index then index[key] else {};
      }
      var rows := facts.Iterate();
      matches := Scan(rows, partial);
    }
  }

  lemma RowsHaveWidth(rows: seq<Row>, width: nat, columns: Columns)
    requires AllOfWidth(Rows(rows), width) && WithinWidth(columns, width)
    ensures forall row | row in rows :: WithinWidth(columns, |row|) && |row| == width
  {
    assert forall row | row in rows :: row in Rows(rows);
  }

  lemma LookUp(index: Index, width: nat, rows: seq<Row>, partial: Partial)
    requires AllOfWidth(Rows(rows), width) && WithinWidth(ColumnsOf(partial), width)
    requires forall p | p in partial :: p.0 < width
    requires Indexes(index, ColumnsOf(partial), Rows(rows))
    ensures forall row | row in rows :: |row| == width
    ensures forall row :: row in Bucket(index, ValuesOf(partial)) <==> row in rows && Fits(row, partial)
  {
    assert forall row | row in rows :: row in Rows(rows);
    forall row | row in rows
      ensures Fits(row, partial) <==> ComputeKey(ColumnsOf(partial), row) == ValuesOf(partial)
    {
      FitsByKey(row, partial);
    }
    forall row
      ensures row in Bucket(index, ValuesOf(partial)) <==> row in rows && Fits(row, partial)
    {
      assert row in Rows(rows) <==> row in rows;
    }
  }

  lemma EmptyIndex(columns: Columns)
    ensures Indexes(map[], columns, iset{})
  {}

  lemma OneMoreIndex(indicies: Indicies, width: nat, rows: iset<Row>, columns: Columns, index: Index)
    requires AllOfWidth(rows, width) && AllIndexed(indicies, width, rows)
    requires WithinWidth(columns, width) && Indexes(index, columns, rows)
    ensures AllIndexed(indicies[columns := index], width, rows)
  {}
}
