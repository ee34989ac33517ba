/**
 The database of a materialized theory: rows annotated with the proofs that derive them.
 Base rows have no proofs; a derived row is there for as long as it has one.
 */
module Database {
  import opened Syntax

  type Binding = map<string, Constant>

  datatype Proof = Proof(binding: Binding, rule: Rule)

  datatype Fact = Fact(table: string, tuple: seq<Constant>)

  datatype DBTuple = DBTuple(tuple: seq<Constant>, proofs: seq<Proof>)

  /** A change to one row, with the proofs that are gained or lost. */
  datatype Change = Change(fact: Fact, proofs: seq<Proof>, insert: bool)

  /** What the database contains, abstractly: each row with the set of its proofs. */
  type Contents = imap<Fact, set<Proof>>

  function ProofSet(proofs: seq<Proof>): set<Proof> {
    set pr | pr in proofs
  }

  lemma ProofSetSnoc(proofs: seq<Proof>, pr: Proof)
    ensures ProofSet(proofs + [pr]) == ProofSet(proofs) + {pr}
  {}

  ghost predicate IsNoop(c: Contents, e: Change) {
    var known := e.fact in c && ProofSet(e.proofs) <= c[e.fact];
    if e.insert then known else !known
  }

  /** The contents after a change. */
  ghost function Apply(c: Contents, e: Change): Contents {
    if IsNoop(c, e) then c
    else if e.insert then
      c[e.fact := (if e.fact in c then c[e.fact] else {}) + ProofSet(e.proofs)]
    else
      var rest := c[e.fact] - ProofSet(e.proofs);
      if rest == {} then c - {e.fact} else c[e.fact := rest]
  }

  // ---------------------------------------------------------------------------
  // Rows as lists

  ghost predicate DistinctRows(rows: seq<DBTuple>) {
    forall i, j | 0 <= i < j < |rows| :: rows[i].tuple != rows[j].tuple
  }

  ghost predicate HasRow(rows: seq<DBTuple>, tuple: seq<Constant>) {
    exists i :: 0 <= i < |rows| && rows[i].tuple == tuple
  }

  ghost function RowProofs(rows: seq<DBTuple>, tuple: seq<Constant>): set<Proof>
    requires HasRow(rows, tuple)
  {
    var i :| 0 <= i < |rows| && rows[i].tuple == tuple;
    ProofSet(rows[i].proofs)
  }

  lemma RowProofsAt(rows: seq<DBTuple>, i: nat)
    requires DistinctRows(rows) && i < |rows|
    ensures HasRow(rows, rows[i].tuple) && RowProofs(rows, rows[i].tuple) == ProofSet(rows[i].proofs)
  {}

  class Database {
    var data: map<string, seq<DBTuple>>

    constructor ()
      ensures data == map[] && Valid() && View() == imap[]
    {
      data := map[];
    }

    ghost predicate Valid()
      reads this
    {
      forall t | t in data :: DistinctRows(data[t])
    }

    ghost predicate Has(f: Fact)
      reads this
    {
      f.table in data && HasRow(data[f.table], f.tuple)
    }

    ghost function View(): Contents
      reads this
    {
      imap f: Fact | Has(f) :: RowProofs(data[f.table], f.tuple)
    }

    /** The position of a row in its table, or the number of rows. */
    method Find(table: string, tuple: seq<Constant>) returns (k: nat)
      requires Valid() && table in data
      ensures k <= |data[table]|
      ensures k < |data[table]| ==> data[table][k].tuple == tuple
      ensures k < |data[table]| <==> Fact(table, tuple) in View()
      ensures k < |data[table]| ==> View()[Fact(table, tuple)] == ProofSet(data[table][k].proofs)
    {
      k := 0;
      while k < |data[table]|
        invariant 0 <= k <= |data[table]|
        invariant forall i | 0 <= i < k :: data[table][i].tuple != tuple
      {
        if data[table][k].tuple == tuple {
          RowProofsAt(data[table], k);
          return;
        }
        k := k + 1;
      }
    }

    /** Whether all of the given proofs are among those stored. */
    method Includes(stored: seq<Proof>, proofs: seq<Proof>) returns (all: bool)
      ensures all <==> ProofSet(proofs) <= ProofSet(stored)
    {
      all := true;
      for i := 0 to |proofs|
        invariant all <==> ProofSet(proofs[..i]) <= ProofSet(stored)
      {
        assert proofs[..i + 1] == proofs[..i] + [proofs[i]];
        if proofs[i] !in stored {
          all := false;
          assert proofs[i] in proofs[..i + 1];
          assert proofs[i] in ProofSet(proofs) && proofs[i] !in ProofSet(stored);
          return;
        }
      }
      assert proofs[..|proofs|] == proofs;
    }

    method IsNoopEvent(e: Change) returns (noop: bool)
      requires Valid()
      ensures noop <==> IsNoop(View(), e)
    {
      if e.fact.table !in data {
        return !e.insert;
      }
      var k := Find(e.fact.table, e.fact.tuple);
      if k < |data[e.fact.table]| {
        var all := Includes(data[e.fact.table][k].proofs, e.proofs);
        return if e.insert then all else !all;
      }
      return !e.insert;
    }

    method Modify(e: Change) returns (changed: bool)
      requires Valid()
      modifies this
      ensures Valid() && View() == Apply(old(View()), e)
      ensures changed <==> !IsNoop(old(View()), e)
    {
      var noop := IsNoopEvent(e);
      if noop {
        return false;
      }
      if e.insert {
        InsertActual(e);
      } else {
        DeleteActual(e);
      }
      changed := true;
    }

    /** Stored proofs, with the new ones appended that were not there yet. */
    method Merge(stored: seq<Proof>, proofs: seq<Proof>) returns (merged: seq<Proof>)
      ensures ProofSet(merged) == ProofSet(stored) + ProofSet(proofs)
    {
      merged := stored;
      for i := 0 to |proofs|
        invariant ProofSet(merged) == ProofSet(stored) + ProofSet(proofs[..i])
      {
        assert proofs[..i + 1] == proofs[..i] + [proofs[i]];
        ProofSetSnoc(proofs[..i], proofs[i]);
        ProofSetSnoc(merged, proofs[i]);
        if proofs[i] !in merged {
          merged := merged + [proofs[i]];
        } else {
          assert proofs[i] in ProofSet(merged);
        }
      }
      assert proofs[..|proofs|] == proofs;
    }

    /** Stored proofs, without the given ones. */
    method Remaining(stored: seq<Proof>, proofs: seq<Proof>) returns (rest: seq<Proof>)
      ensures ProofSet(rest) == ProofSet(stored) - ProofSet(proofs)
    {
      rest := [];
      for i := 0 to |stored|
        invariant ProofSet(rest) == ProofSet(stored[..i]) - ProofSet(proofs)
      {
        assert stored[..i + 1] == stored[..i] + [stored[i]];
        ProofSetSnoc(stored[..i], stored[i]);
        ProofSetSnoc(rest, stored[i]);
        if stored[i] !in proofs {
          rest := rest + [stored[i]];
        }
      }
      assert stored[..|stored|] == stored;
    }

    lemma ViewOf(data': map<string, seq<DBTuple>>, c: Contents)
      requires data' == data
      requires forall f: Fact :: f in c <==> f.table in data && HasRow(data[f.table], f.tuple)
      requires forall f | f in c :: c[f] == RowProofs(data[f.table], f.tuple)
      ensures View() == c
    {}

    method InsertActual(e: Change)
      requires Valid() && e.insert && !IsNoop(View(), e)
      modifies this
      ensures Valid() && View() == Apply(old(View()), e)
    {
      hide HasRow, RowProofs, DistinctRows;
      var table, row := e.fact.table, DBTuple(e.fact.tuple, e.proofs);
      ghost var c := Apply(View(), e);
      if table !in data {
        EmptyRows();
        RowsAppended([], row);
        assert [] + [row] == [row];
        data := data[table := [row]];
      } else {
        var k := Find(table, row.tuple);
        var rows := data[table];
        if k < |rows| {
          var merged := Merge(rows[k].proofs, row.proofs);
          RowsUpdated(rows, k, merged);
          data := data[table := rows[k := DBTuple(row.tuple, merged)]];
        } else {
          RowsAppended(rows, row);
          data := data[table := rows + [row]];
        }
      }
      ViewOf(data, c);
    }

    method DeleteActual(e: Change)
      requires Valid() && !e.insert && !IsNoop(View(), e)
      modifies this
      ensures Valid() && View() == Apply(old(View()), e)
    {
      hide HasRow, RowProofs, DistinctRows;
      var table := e.fact.table;
      ghost var c := Apply(View(), e);
      if table !in data {
        return;
      }
      var k := Find(table, e.fact.tuple);
      var rows := data[table];
      if k < |rows| {
        var rest := Remaining(rows[k].proofs, e.proofs);
        if |rest| == 0 {
          RowsRemoved(rows, k);
          data := data[table := rows[..k] + rows[k + 1..]];
        } else {
          assert rest[0] in ProofSet(rest);
          RowsUpdated(rows, k, rest);
          data := data[table := rows[k := DBTuple(e.fact.tuple, rest)]];
        }
      }
      ViewOf(data, c);
    }
  }

  lemma EmptyRows()
    ensures DistinctRows([]) && forall t :: !HasRow([], t)
  {}

  lemma RowsAppended(rows: seq<DBTuple>, row: DBTuple)
    requires DistinctRows(rows) && !HasRow(rows, row.tuple)
    ensures var rows' := rows + [row];
            && DistinctRows(rows')
            && (forall t :: HasRow(rows', t) <==> HasRow(rows, t) || t == row.tuple)
            && (forall t | HasRow(rows', t) ::
                  RowProofs(rows', t) == if t == row.tuple then ProofSet(row.proofs) else RowProofs(rows, t))
  {
    var rows' := rows + [row];
    assert DistinctRows(rows') by {
      forall i, j | 0 <= i < j < |rows'|
        ensures rows'[i].tuple != rows'[j].tuple
      {
        assert rows'[i] == rows[i];
      }
    }
    forall t
      ensures HasRow(rows', t) <==> HasRow(rows, t) || t == row.tuple
      ensures HasRow(rows', t) ==>
                RowProofs(rows', t) == if t == row.tuple then ProofSet(row.proofs) else RowProofs(rows, t)
    {
      if i :| 0 <= i < |rows| && rows[i].tuple == t {
        assert rows'[i] == rows[i];
        RowProofsAt(rows', i);
        RowProofsAt(rows, i);
      } else if t == row.tuple {
        assert rows'[|rows|] == row;
        RowProofsAt(rows', |rows|);
      }
    }
  }

  lemma RowsUpdated(rows: seq<DBTuple>, k: nat, proofs: seq<Proof>)
    requires DistinctRows(rows) && k < |rows|
    ensures var rows' := rows[k := DBTuple(rows[k].tuple, proofs)];
            && DistinctRows(rows')
            && (forall t :: HasRow(rows', t) <==> HasRow(rows, t))
            && (forall t | HasRow(rows', t) ::
                  RowProofs(rows', t) == if t == rows[k].tuple then ProofSet(proofs) else RowProofs(rows, t))
  {
    var rows' := rows[k := DBTuple(rows[k].tuple, proofs)];
    assert forall i | 0 <= i < |rows| :: rows'[i].tuple == rows[i].tuple;
    forall t
      ensures HasRow(rows', t) <==> HasRow(rows, t)
      ensures HasRow(rows', t) ==>
                RowProofs(rows', t) == if t == rows[k].tuple then ProofSet(proofs) else RowProofs(rows, t)
    {
      if i :| 0 <= i < |rows| && rows[i].tuple == t {
        assert rows'[i].tuple == t;
        RowProofsAt(rows', i);
        RowProofsAt(rows, i);
      }
    }
  }

  lemma RowsRemoved(rows: seq<DBTuple>, k: nat)
    requires DistinctRows(rows) && k < |rows|
    ensures var rows' := rows[..k] + rows[k + 1..];
            && DistinctRows(rows')
            && (forall t :: HasRow(rows', t) <==> HasRow(rows, t) && t != rows[k].tuple)
            && (forall t | HasRow(rows', t) :: RowProofs(rows', t) == RowProofs(rows, t))
  {
    hide RowProofs, ProofSet;
    var rows' := rows[..k] + rows[k + 1..];
    assert forall i | 0 <= i < |rows'| :: rows'[i] == if i < k then rows[i] else rows[i + 1];
    forall t | HasRow(rows', t)
      ensures HasRow(rows, t) && t != rows[k].tuple && RowProofs(rows', t) == RowProofs(rows, t)
    {
      var i :| 0 <= i < |rows'| && rows'[i].tuple == t;
      var j := if i < k then i else i + 1;
      assert rows[j] == rows'[i];
      RowProofsAt(rows', i);
      RowProofsAt(rows, j);
    }
    forall t | HasRow(rows, t) && t != rows[k].tuple
      ensures HasRow(rows', t)
    {
      var i :| 0 <= i < |rows| && rows[i].tuple == t;
      assert rows'[if i < k then i else i - 1] == rows[i];
    }
  }
}
