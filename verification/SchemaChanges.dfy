/** A schema that counts how often each table occurs, and takes updates back. */
module SchemaChanges {
  import opened Syntax
  import opened Names

  datatype Item = Item(table: string, arity: nat)

  type Columns = seq<string>

  /** The counts and column names of the tables that occur. */
  datatype Tables = Tables(count: map<string, nat>, columns: map<string, Columns>)
  {
    predicate Valid() {
      count.Keys == columns.Keys && forall t | t in count :: count[t] > 0
    }

    function CountOf(t: string): nat {
      if t in count then count[t] else 0
    }
  }

  /** What an update did to one table; column names only if the table is new or gone. */
  datatype SchemaChange = SchemaChange(table: string, columns: Option<Columns>, insert: bool)

  function NewColumns(arity: nat): Columns {
    seq(arity, i requires 0 <= i < arity => "Col" + Decimal(i))
  }

  function Updated(s: Tables, item: Item, insert: bool): Tables
    requires s.Valid()
  {
    var t := item.table;
    if insert then
      if t in s.count then s.(count := s.count[t := s.count[t] + 1])
      else Tables(s.count[t := 1], s.columns[t := NewColumns(item.arity)])
    else if t !in s.count then s
    else if s.count[t] > 1 then s.(count := s.count[t := s.count[t] - 1])
    else Tables(s.count - {t}, s.columns - {t})
  }

  function ChangeOf(s: Tables, item: Item, insert: bool): Option<SchemaChange>
    requires s.Valid()
  {
    var t := item.table;
    if insert then Some(SchemaChange(t, if t in s.count then None else Some(NewColumns(item.arity)), true))
    else if t !in s.count then None
    else Some(SchemaChange(t, if s.count[t] > 1 then None else Some(s.columns[t]), false))
  }

  /** The state with a change taken back; None where the original raises. */
  function Reverted(s: Tables, c: SchemaChange): Option<Tables>
    requires s.Valid()
  {
    var t := c.table;
    if c.insert then
      if t !in s.count then None
      else if s.count[t] > 1 then Some(s.(count := s.count[t := s.count[t] - 1]))
      else Some(Tables(s.count - {t}, s.columns - {t}))
    else if t in s.count then Some(s.(count := s.count[t := s.count[t] + 1]))
    else if c.columns.None? then None
    else Some(Tables(s.count[t := 1], s.columns[t := c.columns.value]))
  }

  lemma StepsAreValid(s: Tables, item: Item, insert: bool, c: SchemaChange)
    requires s.Valid()
    ensures Updated(s, item, insert).Valid()
    ensures Reverted(s, c).Some? ==> Reverted(s, c).value.Valid()
  {}

  /** The columns are Col0, Col1 and so on. */
  ghost predicate Numbered(columns: Columns) {
    forall i | 0 <= i < |columns| ::
      |columns[i]| > 3 && columns[i][..3] == "Col" && IsNumeral(columns[i][3..], i)
  }

  /** All tables have as many columns as they have arguments, and these are numbered. */
  ghost predicate HasColumns(s: Tables, arity: string -> nat) {
    forall t | t in s.columns :: |s.columns[t]| == arity(t) && Numbered(s.columns[t])
  }

  lemma NewColumnsAreNumbered(arity: nat)
    ensures |NewColumns(arity)| == arity && Numbered(NewColumns(arity))
  {
    var columns := NewColumns(arity);
    forall i | 0 <= i < arity
      ensures |columns[i]| > 3 && columns[i][..3] == "Col" && IsNumeral(columns[i][3..], i)
    {
      DecimalIsNumeral(i);
      assert columns[i] == "Col" + Decimal(i);
    }
  }

  /** Updates keep to that, whatever is inserted and deleted, and so does taking them back. */
  lemma ColumnsAreKept(s: Tables, item: Item, insert: bool, arity: string -> nat)
    requires s.Valid() && HasColumns(s, arity) && item.arity == arity(item.table)
    ensures HasColumns(Updated(s, item, insert), arity)
    ensures insert ==> item.table in Updated(s, item, insert).columns
    ensures ChangeOf(s, item, insert).Some? && ChangeOf(s, item, insert).value.columns.Some? ==>
              var columns := ChangeOf(s, item, insert).value.columns.value;
              |columns| == arity(item.table) && Numbered(columns)
  {
    hide Numbered, NewColumns;
    NewColumnsAreNumbered(item.arity);
  }

  /** Taking back an update exactly inverts it. */
  lemma RevertInvertsUpdate(s: Tables, item: Item, insert: bool)
    requires s.Valid()
    ensures Updated(s, item, insert).Valid()
    ensures match ChangeOf(s, item, insert)
            case None => Updated(s, item, insert) == s
            case Some(c) => Reverted(Updated(s, item, insert), c) == Some(s)
  {
    var s', t := Updated(s, item, insert), item.table;
    match ChangeOf(s, item, insert)
    case None =>
    case Some(c) =>
      var back := Reverted(s', c);
      if insert && t !in s.count {
        assert s'.count - {t} == s.count && s'.columns - {t} == s.columns;
      } else if insert {
        assert back.value.count == s.count;
      } else {
        assert back.value.count == s.count && back.value.columns == s.columns;
      }
  }

  // ---------------------------------------------------------------------------
  // Batches

  function After(s: Tables, items: seq<Item>, insert: bool): (r: Tables)
    requires s.Valid()
    ensures r.Valid()
  {
    if items == [] then s
    else
      var before := After(s, items[..|items| - 1], insert);
      StepsAreValid(before, items[|items| - 1], insert, SchemaChange("", None, true));
      Updated(before, items[|items| - 1], insert)
  }

  function Changes(s: Tables, items: seq<Item>, insert: bool): (r: seq<Option<SchemaChange>>)
    requires s.Valid()
    ensures |r| == |items|
  {
    if items == [] then []
    else
      var init := items[..|items| - 1];
      Changes(s, init, insert) + [ChangeOf(After(s, init, insert), items[|items| - 1], insert)]
  }

  /** Takes changes back, first one first; None where the original raises. */
  function RevertAll(s: Tables, changes: seq<Option<SchemaChange>>): (r: Option<Tables>)
    requires s.Valid()
    ensures r.Some? ==> r.value.Valid()
  {
    if changes == [] then Some(s)
    else
      match RevertAll(s, changes[..|changes| - 1])
      case None => None
      case Some(before) =>
        match changes[|changes| - 1]
        case None => Some(before)
        case Some(c) =>
          StepsAreValid(before, Item("", 0), true, c);
          Reverted(before, c)
  }

  function Backwards<T>(xs: seq<T>): (r: seq<T>)
    ensures |r| == |xs| && forall i | 0 <= i < |r| :: r[i] == xs[|xs| - 1 - i]
  {
    seq(|xs|, i requires 0 <= i < |xs| => xs[|xs| - 1 - i])
  }

  lemma {:induction false} RevertFirst(s: Tables, c: Option<SchemaChange>, changes: seq<Option<SchemaChange>>,
                                       s': Tables)
    requires s.Valid() && s'.Valid()
    requires match c case None => s' == s case Some(change) => Reverted(s, change) == Some(s')
    ensures RevertAll(s, [c] + changes) == RevertAll(s', changes)
    decreases |changes|
  {
    var all := [c] + changes;
    if changes == [] {
      assert all[..0] == [];
    } else {
      assert all[..|all| - 1] == [c] + changes[..|changes| - 1];
      RevertFirst(s, c, changes[..|changes| - 1], s');
    }
  }

  /** Taking changes back in the opposite order always restores the schema. */
  lemma {:induction false} BackwardsRestores(s: Tables, items: seq<Item>, insert: bool)
    requires s.Valid()
    ensures RevertAll(After(s, items, insert), Backwards(Changes(s, items, insert))) == Some(s)
    decreases |items|
  {
    hide Updated, ChangeOf, Reverted, Tables.Valid;
    if items != [] {
      var init, last := items[..|items| - 1], items[|items| - 1];
      StepsAreValid(After(s, init, insert), last, insert, SchemaChange("", None, true));
      var before := After(s, init, insert);
      RevertInvertsUpdate(before, last, insert);
      BackwardsRestores(s, init, insert);
      RevertFirst(Updated(before, last, insert), ChangeOf(before, last, insert), Backwards(Changes(s, init, insert)),
          before);
      assert Backwards(Changes(s, items, insert)) ==
             [ChangeOf(before, last, insert)] + Backwards(Changes(s, init, insert));
    }
  }

  // ---------------------------------------------------------------------------
  // The order in which the original takes changes back

  function Occurrences(items: seq<Item>, t: string): nat {
    if items == [] then 0
    else Occurrences(items[..|items| - 1], t) + if items[|items| - 1].table == t then 1 else 0
  }

  function Min(a: nat, b: nat): nat {
    if a < b then a else b
  }

  lemma {:induction false} CountAfter(s: Tables, items: seq<Item>, insert: bool, t: string)
    requires s.Valid()
    ensures var n, k := s.CountOf(t), Occurrences(items, t);
            After(s, items, insert).CountOf(t) == if insert then n + k else n - Min(n, k)
    ensures t in s.count && t in After(s, items, insert).count ==> After(s, items, insert).columns[t] == s.columns[t]
    decreases |items|
  {
    if items != [] {
      CountAfter(s, items[..|items| - 1], insert, t);
    }
  }

  /** `s` is what `whole` is with only the given counts; a table that counts nothing is not there. */
  ghost predicate IsPart(s: Tables, whole: Tables, count: string -> nat)
    requires s.Valid()
  {
    && (forall t :: s.CountOf(t) == count(t))
    && (forall t | t in s.count :: t in whole.columns && s.columns[t] == whole.columns[t])
  }

  lemma PartsAreEqual(s: Tables, s': Tables, whole: Tables, count: string -> nat)
    requires s.Valid() && s'.Valid() && IsPart(s, whole, count) && IsPart(s', whole, count)
    ensures s == s'
  {
    forall t
      ensures t in s.count <==> t in s'.count
      ensures t in s.count ==> s.count[t] == s'.count[t]
    {
      assert s.CountOf(t) == count(t) && s'.CountOf(t) == count(t);
    }
    assert s.count == s'.count;
    assert s.columns == s'.columns;
  }

  lemma PrefixOccurrences(items: seq<Item>, i: nat, t: string)
    requires i < |items|
    ensures Occurrences(items[..i + 1], t) == Occurrences(items[..i], t) + if items[i].table == t then 1 else 0
    ensures Occurrences(items[..i + 1], t) <= Occurrences(items, t)
  {
    assert items[..i + 1][..i] == items[..i];
    OccurrencesGrow(items, i + 1, t);
  }

  lemma {:induction false} OccurrencesGrow(items: seq<Item>, i: nat, t: string)
    requires i <= |items|
    ensures Occurrences(items[..i], t) <= Occurrences(items, t)
    decreases |items|
  {
    if i < |items| {
      assert items[..|items| - 1][..i] == items[..i];
      OccurrencesGrow(items[..|items| - 1], i, t);
    } else {
      assert items[..i] == items;
    }
  }

  lemma {:induction false} ChangeAt(s: Tables, items: seq<Item>, insert: bool, i: nat)
    requires s.Valid() && i < |items|
    ensures Changes(s, items, insert)[i] == ChangeOf(After(s, items[..i], insert), items[i], insert)
    decreases |items|
  {
    var init := items[..|items| - 1];
    if i < |init| {
      ChangeAt(s, init, insert, i);
      assert init[..i] == items[..i];
    }
  }

  lemma RevertNext(s: Tables, changes: seq<Option<SchemaChange>>, i: nat)
    requires s.Valid() && i < |changes|
    ensures RevertAll(s, changes[..i + 1]) ==
              match RevertAll(s, changes[..i])
              case None => None
              case Some(before) =>
                match changes[i] case None => Some(before) case Some(c) => Reverted(before, c)
  {
    assert changes[..i + 1][..i] == changes[..i];
  }

  /** How often a table counts once the inserts of a prefix have been taken back. */
  function StillThere(s: Tables, items: seq<Item>, i: nat, t: string): nat
    requires i <= |items|
  {
    s.CountOf(t) + Occurrences(items, t) - Min(Occurrences(items, t), Occurrences(items[..i], t))
  }

  /** The schema part-way through taking inserts back. */
  lemma {:induction false} InsertsPartlyReverted(s: Tables, items: seq<Item>, i: nat)
    requires s.Valid() && i <= |items|
    ensures var whole := After(s, items, true);
            var r := RevertAll(whole, Changes(s, items, true)[..i]);
            r.Some? && IsPart(r.value, whole, t => StillThere(s, items, i, t))
    decreases i
  {
    hide Updated, ChangeOf, Reverted, Occurrences, StillThere;
    var whole, changes := After(s, items, true), Changes(s, items, true);
    if i == 0 {
      assert RevertAll(whole, changes[..0]) == Some(whole);
      forall t
        ensures whole.CountOf(t) == StillThere(s, items, 0, t)
      {
        CountAfter(s, items, true, t);
        NothingTakenBack(s, items, t);
      }
    } else {
      InsertsPartlyReverted(s, items, i - 1);
      RevertNext(whole, changes, i - 1);
      ChangeAt(s, items, true, i - 1);
      InsertReverted(s, items, i - 1, whole, RevertAll(whole, changes[..i - 1]).value);
    }
  }

  lemma NothingTakenBack(s: Tables, items: seq<Item>, t: string)
    ensures StillThere(s, items, 0, t) == s.CountOf(t) + Occurrences(items, t)
  {}

  lemma InsertReverted(s: Tables, items: seq<Item>, i: nat, whole: Tables, before: Tables)
    requires s.Valid() && before.Valid() && i < |items| && IsPart(before, whole, t => StillThere(s, items, i, t))
    ensures var r := match ChangeOf(After(s, items[..i], true), items[i], true)
                     case None => Some(before)
                     case Some(c) => Reverted(before, c);
            r.Some? && r.value.Valid() && IsPart(r.value, whole, t => StillThere(s, items, i + 1, t))
  {
    hide Occurrences;
    var t := items[i].table;
    forall u
      ensures Occurrences(items[..i + 1], u) == Occurrences(items[..i], u) + if t == u then 1 else 0
      ensures Occurrences(items[..i + 1], u) <= Occurrences(items, u)
    {
      PrefixOccurrences(items, i, u);
    }
    assert before.CountOf(t) == StillThere(s, items, i, t) > 0;
    var r := match ChangeOf(After(s, items[..i], true), items[i], true)
             case None => Some(before)
             case Some(c) => Reverted(before, c);
    forall u
      ensures r.value.CountOf(u) == StillThere(s, items, i + 1, u)
    {
      assert before.CountOf(u) == StillThere(s, items, i, u);
    }
  }

  /** Taking inserts back in the order in which they were made restores the schema. */
  lemma ForwardRestoresInserts(s: Tables, items: seq<Item>)
    requires s.Valid()
    ensures RevertAll(After(s, items, true), Changes(s, items, true)) == Some(s)
  {
    var whole, changes := After(s, items, true), Changes(s, items, true);
    InsertsPartlyReverted(s, items, |items|);
    assert changes[..|items|] == changes && items[..|items|] == items;
    var r := RevertAll(whole, changes);
    forall t
      ensures r.value.CountOf(t) == s.CountOf(t)
      ensures t in s.count ==> t in whole.columns && whole.columns[t] == s.columns[t]
    {
      CountAfter(s, items, true, t);
    }
    PartsAreEqual(r.value, s, whole, t => s.CountOf(t));
  }

  /** The batch does not delete the last of several occurrences of a table. */
  ghost predicate KeepsRepeated(s: Tables, items: seq<Item>, among: seq<Item>) {
    forall t | Occurrences(among, t) > 0 && s.CountOf(t) >= 2 :: Occurrences(items, t) < s.CountOf(t)
  }

  function LeftOver(s: Tables, items: seq<Item>, i: nat, t: string): nat
    requires i <= |items|
  {
    var n := s.CountOf(t);
    n - Min(n, Occurrences(items, t)) + Min(n, Occurrences(items[..i], t))
  }

  /** The schema part-way through taking deletes back. */
  lemma {:induction false} DeletesPartlyReverted(s: Tables, items: seq<Item>, i: nat)
    requires s.Valid() && i <= |items| && KeepsRepeated(s, items, items[..i])
    ensures var r := RevertAll(After(s, items, false), Changes(s, items, false)[..i]);
            r.Some? && IsPart(r.value, s, t => LeftOver(s, items, i, t))
    decreases i
  {
    var gone, changes := After(s, items, false), Changes(s, items, false);
    if i == 0 {
      forall t
        ensures gone.CountOf(t) == LeftOver(s, items, 0, t)
        ensures t in gone.count ==> t in s.columns && gone.columns[t] == s.columns[t]
      {
        CountAfter(s, items, false, t);
      }
    } else {
      forall t
        ensures Occurrences(items[..i], t) == Occurrences(items[..i - 1], t) + if items[i - 1].table == t then 1 else 0
        ensures Occurrences(items[..i], t) <= Occurrences(items, t)
      {
        PrefixOccurrences(items, i - 1, t);
      }
      DeletesPartlyReverted(s, items, i - 1);
      RevertNext(gone, changes, i - 1);
      ChangeAt(s, items, false, i - 1);
      CountAfter(s, items[..i - 1], false, items[i - 1].table);
      DeleteReverted(s, items, i - 1, RevertAll(gone, changes[..i - 1]).value);
    }
  }

  lemma DeleteReverted(s: Tables, items: seq<Item>, i: nat, before: Tables)
    requires s.Valid() && before.Valid() && i < |items| && KeepsRepeated(s, items, items[..i + 1])
    requires IsPart(before, s, t => LeftOver(s, items, i, t))
    requires forall t :: Occurrences(items[..i + 1], t) ==
                         Occurrences(items[..i], t) + if items[i].table == t then 1 else 0
    requires forall t :: Occurrences(items[..i + 1], t) <= Occurrences(items, t)
    requires After(s, items[..i], false).CountOf(items[i].table) ==
               s.CountOf(items[i].table) - Min(s.CountOf(items[i].table), Occurrences(items[..i], items[i].table))
    requires items[i].table in s.count && items[i].table in After(s, items[..i], false).count ==>
               After(s, items[..i], false).columns[items[i].table] == s.columns[items[i].table]
    ensures var r := match ChangeOf(After(s, items[..i], false), items[i], false)
                     case None => Some(before)
                     case Some(c) => Reverted(before, c);
            r.Some? && IsPart(r.value, s, t => LeftOver(s, items, i + 1, t))
  {
    hide Occurrences;
    var t := items[i].table;
    assert before.CountOf(t) == LeftOver(s, items, i, t);
    assert Occurrences(items[..i + 1], t) > 0;
    assert forall u | u != t :: LeftOver(s, items, i + 1, u) == LeftOver(s, items, i, u);
  }

  ghost predicate LosesRepeated(s: Tables, items: seq<Item>, t: string) {
    Occurrences(items, t) > 0 && s.CountOf(t) >= 2 && Occurrences(items, t) >= s.CountOf(t)
  }

  lemma {:induction false} RaisedStays(s: Tables, changes: seq<Option<SchemaChange>>, i: nat)
    requires s.Valid() && i <= |changes| && RevertAll(s, changes[..i]) == None
    ensures RevertAll(s, changes) == None
    decreases |changes|
  {
    if i < |changes| {
      assert changes[..|changes| - 1][..i] == changes[..i];
      RaisedStays(s, changes[..|changes| - 1], i);
    } else {
      assert changes[..i] == changes;
    }
  }

  lemma RaisesAt(s: Tables, items: seq<Item>, i: nat)
    requires s.Valid() && i < |items| && KeepsRepeated(s, items, items[..i]) && LosesRepeated(s, items, items[i].table)
    ensures RevertAll(After(s, items, false), Changes(s, items, false)) == None
  {
    var gone, changes, t := After(s, items, false), Changes(s, items, false), items[i].table;
    DeletesPartlyReverted(s, items, i);
    RevertNext(gone, changes, i);
    ChangeAt(s, items, false, i);
    CountAfter(s, items[..i], false, t);
    assert Occurrences(items[..i], t) == 0;
    assert RevertAll(gone, changes[..i]).value.CountOf(t) == LeftOver(s, items, i, t) == 0;
    RaisedStays(gone, changes, i + 1);
  }

  lemma {:induction false} OccursAt(items: seq<Item>, t: string)
    requires Occurrences(items, t) > 0
    ensures exists i :: 0 <= i < |items| && items[i].table == t
    decreases |items|
  {
    if items[|items| - 1].table != t {
      OccursAt(items[..|items| - 1], t);
      var i :| 0 <= i < |items| - 1 && items[..|items| - 1][i].table == t;
      assert items[i].table == t;
    }
  }

  /** Whatever comes first among the tables that are lost makes the original raise. */
  lemma {:induction false} RaisesFrom(s: Tables, items: seq<Item>, i: nat, j: nat)
    requires s.Valid() && i <= j < |items| && KeepsRepeated(s, items, items[..i])
    requires LosesRepeated(s, items, items[j].table)
    ensures RevertAll(After(s, items, false), Changes(s, items, false)) == None
    decreases j - i
  {
    if LosesRepeated(s, items, items[i].table) {
      RaisesAt(s, items, i);
    } else {
      OccurrencesGrow(items, i + 1, items[i].table);
      PrefixOccurrences(items, i, items[i].table);
      forall t | Occurrences(items[..i + 1], t) > 0 && s.CountOf(t) >= 2
        ensures Occurrences(items, t) < s.CountOf(t)
      {
        PrefixOccurrences(items, i, t);
      }
      RaisesFrom(s, items, i + 1, j);
    }
  }

  /**
   Taking deletes back in the order in which they were made restores the schema exactly if no
   table that occurs several times loses all its occurrences; otherwise the original raises.
   */
  lemma ForwardRestoresDeletes(s: Tables, items: seq<Item>)
    requires s.Valid()
    ensures KeepsRepeated(s, items, items) ==>
              RevertAll(After(s, items, false), Changes(s, items, false)) == Some(s)
    ensures !KeepsRepeated(s, items, items) ==>
              RevertAll(After(s, items, false), Changes(s, items, false)) == None
  {
    var gone, changes := After(s, items, false), Changes(s, items, false);
    assert items[..0] == [] && KeepsRepeated(s, items, []);
    if KeepsRepeated(s, items, items) {
      assert changes[..|items|] == changes && items[..|items|] == items;
      DeletesPartlyReverted(s, items, |items|);
      var r := RevertAll(gone, changes);
      assert forall t :: LeftOver(s, items, |items|, t) == s.CountOf(t);
      PartsAreEqual(r.value, s, s, t => s.CountOf(t));
    } else {
      var t :| Occurrences(items, t) > 0 && s.CountOf(t) >= 2 && Occurrences(items, t) >= s.CountOf(t);
      assert LosesRepeated(s, items, t);
      OccursAt(items, t);
      var j :| 0 <= j < |items| && items[j].table == t;
      RaisesFrom(s, items, 0, j);
    }
  }

  /** Deleting both occurrences of a table, and taking that back, raises. */
  lemma RepeatedDeleteRaises(columns: Columns)
    ensures var s := Tables(map["q" := 2], map["q" := columns]);
            var items := [Item("q", 1), Item("q", 1)];
            s.Valid() && RevertAll(After(s, items, false), Changes(s, items, false)) == None
  {
    var s := Tables(map["q" := 2], map["q" := columns]);
    var items := [Item("q", 1), Item("q", 1)];
    assert items[..1] == [Item("q", 1)] && items[..1][..0] == [];
    assert Occurrences(items[..1], "q") == 1 && Occurrences(items, "q") == 2;
    ForwardRestoresDeletes(s, items);
  }
}
