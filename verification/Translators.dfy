/** Translators from nested data to tables: the columns they declare and the rows they produce. */
module Translators {
  import opened Syntax

  datatype Json = Null | Text(text: string) | Object(members: seq<(string, Json)>) | Array(elements: seq<Json>)

  /** How a table's rows are tied to others: by an id of their own, by a column of the parent's row, or not. */
  datatype Link =
    | Unlinked
    | ById(column: string, compute: (Json, seq<seq<Json>>) -> Json)
    | ByParent(key: string, column: string)

  datatype Translator =
    | ValueTranslator(extract: Json -> Json)
    | HDict(table: string, link: Link, inList: bool, fields: seq<Field>)
    | VDict(table: string, link: Link, keyCol: string, valCol: string, sub: Translator)
    | ListTranslator(table: string, link: Link, valCol: string, sub: Translator)

  datatype Field = Field(name: string, col: string, translator: Translator)

  datatype Row = Row(table: string, cells: seq<Json>)

  type Schema = map<string, seq<string>>

  predicate IsByParent(t: Translator) {
    !t.ValueTranslator? && t.link.ByParent?
  }

  predicate IsById(t: Translator) {
    !t.ValueTranslator? && t.link.ById?
  }

  // ---------------------------------------------------------------------------
  // What a translator declares

  function LinkColumns(link: Link): seq<string> {
    if link.Unlinked? then [] else [link.column]
  }

  /** Fields whose own table refers back to this one need no column here. */
  function FieldColumns(fields: seq<Field>): seq<string> {
    if fields == [] then []
    else
      var last := fields[|fields| - 1];
      FieldColumns(fields[..|fields| - 1]) + if IsByParent(last.translator) then [] else [last.col]
  }

  function OwnColumns(t: Translator): seq<string>
    requires !t.ValueTranslator?
  {
    match t
    case HDict(_, link, _, fields) => LinkColumns(link) + FieldColumns(fields)
    case VDict(_, link, keyCol, valCol, sub) =>
      LinkColumns(link) + [keyCol] + if IsByParent(sub) then [] else [valCol]
    case ListTranslator(_, link, valCol, _) => LinkColumns(link) + [valCol]
  }

  function Subtranslators(t: Translator): (subs: seq<Translator>)
    ensures forall i | 0 <= i < |subs| :: subs[i] < t
  {
    match t
    case ValueTranslator(_) => []
    case HDict(_, _, _, fields) => seq(|fields|, i requires 0 <= i < |fields| => fields[i].translator)
    case VDict(_, _, _, _, sub) => [sub]
    case ListTranslator(_, _, _, sub) => [sub]
  }

  /** The translator, or one within it, declares the table with these columns. */
  ghost predicate Declares(t: Translator, table: string, columns: seq<string>)
    decreases t
  {
    || (!t.ValueTranslator? && table == t.table && columns == OwnColumns(t))
    || exists i :: 0 <= i < |Subtranslators(t)| && Declares(Subtranslators(t)[i], table, columns)
  }

  function TablesOf(t: Translator): set<string>
    decreases t
  {
    (if t.ValueTranslator? then {} else {t.table})
    + set i, table | 0 <= i < |Subtranslators(t)| && table in TablesOf(Subtranslators(t)[i]) :: table
  }

  /** No table is declared twice. */
  ghost predicate DistinctTables(t: Translator)
    decreases t
  {
    var subs := Subtranslators(t);
    && (forall i | 0 <= i < |subs| :: DistinctTables(subs[i]))
    && (!t.ValueTranslator? ==> forall i | 0 <= i < |subs| :: t.table !in TablesOf(subs[i]))
    && forall i, j | 0 <= i < j < |subs| :: TablesOf(subs[i]) !! TablesOf(subs[j])
  }

  /** Nested tables are linked, and the columns of an HDICT have different names. */
  ghost predicate WellFormed(t: Translator)
    decreases t
  {
    && (forall i | 0 <= i < |Subtranslators(t)| ::
          && WellFormed(Subtranslators(t)[i])
          && (Subtranslators(t)[i].ValueTranslator? || !Subtranslators(t)[i].link.Unlinked?))
    && (t.HDict? ==>
          && (forall i, j | 0 <= i < j < |t.fields| :: t.fields[i].col != t.fields[j].col)
          && (t.link.ByParent? ==> forall i | 0 <= i < |t.fields| :: t.fields[i].col != t.link.column))
  }

  /** The row belongs to a declared table and has as many cells as that has columns. */
  ghost predicate Fits(t: Translator, row: Row) {
    exists columns :: Declares(t, row.table, columns) && |row.cells| == |columns|
  }

  lemma {:induction false} DeclaredIsTable(t: Translator, table: string, columns: seq<string>)
    requires Declares(t, table, columns)
    ensures table in TablesOf(t)
    decreases t
  {
    if !(!t.ValueTranslator? && table == t.table && columns == OwnColumns(t)) {
      var i :| 0 <= i < |Subtranslators(t)| && Declares(Subtranslators(t)[i], table, columns);
      DeclaredIsTable(Subtranslators(t)[i], table, columns);
    }
  }

  lemma FitsWithin(t: Translator, i: nat, row: Row)
    requires i < |Subtranslators(t)| && Fits(Subtranslators(t)[i], row)
    ensures Fits(t, row) && row.table in TablesOf(Subtranslators(t)[i])
  {
    var columns :| Declares(Subtranslators(t)[i], row.table, columns) && |row.cells| == |columns|;
    DeclaredIsTable(Subtranslators(t)[i], row.table, columns);
  }

  lemma FitsOwn(t: Translator, row: Row)
    requires !t.ValueTranslator? && row.table == t.table && |row.cells| == |OwnColumns(t)|
    ensures Fits(t, row)
  {
    assert Declares(t, row.table, OwnColumns(t));
  }

  // ---------------------------------------------------------------------------
  // The schema

  /** The schema extended by exactly the tables that the translator declares. */
  ghost predicate Extends(t: Translator, schema: Schema, extended: Schema) {
    && DistinctTables(t) && TablesOf(t) !! schema.Keys
    && extended.Keys == schema.Keys + TablesOf(t)
    && (forall table | table in schema :: extended[table] == schema[table])
    && forall table, columns | Declares(t, table, columns) :: table in extended && extended[table] == columns
  }

  /** Every row that fits the translator has the width its table has in the schema. */
  lemma FittingRowsMatchSchema(t: Translator, schema: Schema, extended: Schema, row: Row)
    requires Extends(t, schema, extended) && Fits(t, row)
    ensures row.table in extended && |row.cells| == |extended[row.table]|
  {}

  /** The schema extended by the subtranslators dealt with so far. */
  ghost predicate ExtendsBy(subs: seq<Translator>, done: set<nat>, schema: Schema, extended: Schema) {
    && (forall i | i in done :: i < |subs| && DistinctTables(subs[i]) && TablesOf(subs[i]) !! schema.Keys)
    && (forall i, j | i in done && j in done && i != j :: TablesOf(subs[i]) !! TablesOf(subs[j]))
    && (forall table :: table in extended <==> table in schema || exists i :: i in done && table in TablesOf(subs[i]))
    && (forall table | table in schema :: extended[table] == schema[table])
    && forall i, table, columns | i in done && Declares(subs[i], table, columns) ::
         table in extended && extended[table] == columns
  }

  lemma ExtendsByNothing(subs: seq<Translator>, schema: Schema)
    ensures ExtendsBy(subs, {}, schema, schema)
  {}

  lemma ExtendsByOneMore(subs: seq<Translator>, done: set<nat>, i: nat, schema: Schema, s: Schema, s': Schema)
    requires i < |subs| && i !in done && ExtendsBy(subs, done, schema, s) && Extends(subs[i], s, s')
    ensures ExtendsBy(subs, done + {i}, schema, s')
  {
    hide TablesOf, DistinctTables, Declares;
    forall j, table, columns | j in done && Declares(subs[j], table, columns)
      ensures table in s' && s'[table] == columns
    {
      assert table in s;
    }
  }

  lemma TablesSplit(t: Translator)
    requires !t.ValueTranslator?
    ensures forall table :: table in TablesOf(t) <==>
              table == t.table || exists i :: 0 <= i < |Subtranslators(t)| && table in TablesOf(Subtranslators(t)[i])
  {}

  lemma ExtendsByAll(t: Translator, done: set<nat>, schema: Schema, s: Schema)
    requires !t.ValueTranslator? && (forall i: nat :: i in done <==> i < |Subtranslators(t)|)
    requires ExtendsBy(Subtranslators(t), done, schema, s) && t.table !in s
    ensures Extends(t, schema, s[t.table := OwnColumns(t)])
  {
    var s' := s[t.table := OwnColumns(t)];
    TablesSplit(t);
    AllAreDistinct(t, done, schema, s);
    forall table, columns | Declares(t, table, columns)
      ensures table in s' && s'[table] == columns
    {
      DeclaredInAll(t, done, schema, s, table, columns);
    }
    AllTables(t, done, schema, s);
  }

  lemma AllTables(t: Translator, done: set<nat>, schema: Schema, s: Schema)
    requires !t.ValueTranslator? && (forall i: nat :: i in done <==> i < |Subtranslators(t)|)
    requires ExtendsBy(Subtranslators(t), done, schema, s) && t.table !in s
    ensures s.Keys + {t.table} == schema.Keys + TablesOf(t) && TablesOf(t) !! schema.Keys
  {
    hide TablesOf, Declares, DistinctTables;
    TablesSplit(t);
    var subs := Subtranslators(t);
    forall table
      ensures table in s <==> table in schema || exists i :: 0 <= i < |subs| && table in TablesOf(subs[i])
    {
      if i :| 0 <= i < |subs| && table in TablesOf(subs[i]) {
        assert i in done;
      }
    }
  }

  lemma AllAreDistinct(t: Translator, done: set<nat>, schema: Schema, s: Schema)
    requires !t.ValueTranslator? && (forall i: nat :: i in done <==> i < |Subtranslators(t)|)
    requires ExtendsBy(Subtranslators(t), done, schema, s) && t.table !in s
    ensures DistinctTables(t)
  {
    hide TablesOf, Declares;
    var subs := Subtranslators(t);
    forall i | 0 <= i < |subs|
      ensures DistinctTables(subs[i]) && t.table !in TablesOf(subs[i])
    {
      assert i in done;
    }
  }

  lemma DeclaredInAll(t: Translator, done: set<nat>, schema: Schema, s: Schema, table: string, columns: seq<string>)
    requires !t.ValueTranslator? && (forall i: nat :: i in done <==> i < |Subtranslators(t)|)
    requires ExtendsBy(Subtranslators(t), done, schema, s) && t.table !in s && Declares(t, table, columns)
    ensures var s' := s[t.table := OwnColumns(t)]; table in s' && s'[table] == columns
  {
    hide TablesOf, DistinctTables;
    if !(table == t.table && columns == OwnColumns(t)) {
      var i :| 0 <= i < |Subtranslators(t)| && Declares(Subtranslators(t)[i], table, columns);
      assert i in done;
    }
  }

  /** How many columns of the table itself have the name. */
  function ColumnsNamed(fields: seq<Field>, name: string): nat {
    if fields == [] then 0
    else
      var last := fields[|fields| - 1];
      ColumnsNamed(fields[..|fields| - 1], name) + if !IsByParent(last.translator) && last.col == name then 1 else 0
  }

  function IdColName(link: Link): string {
    if link.ById? then link.column else "id-col"
  }

  /** The key that a nested table refers to is a column whose type is known. */
  predicate KeyIsKnown(t: Translator, key: string)
    requires t.HDict?
  {
    || (t.link.ByParent? && t.link.column == key)
    || key == IdColName(t.link)
    || ColumnsNamed(t.fields, key) == 1
  }

  /**
   A key is known if it is the column of the link to the parent, or that of the id, or else "id-col" where there is
   none, or that of exactly one field whose own rows do not refer to the object's.
   */
  lemma KnownKeys(t: Translator, key: string)
    requires t.HDict?
    ensures KeyIsKnown(t, key) <==>
              || t.link == ByParent(if t.link.ByParent? then t.link.key else "", key)
              || (t.link.ById? && t.link.column == key)
              || (!t.link.ById? && key == "id-col")
              || |set i | 0 <= i < |t.fields| && !IsByParent(t.fields[i].translator) && t.fields[i].col == key| == 1
  {
    ColumnsCounted(t.fields, |t.fields|, key);
    assert t.fields[..|t.fields|] == t.fields;
  }

  lemma {:induction false} ColumnsCounted(fields: seq<Field>, n: nat, name: string)
    requires n <= |fields|
    ensures ColumnsNamed(fields[..n], name) ==
              |set i | 0 <= i < n && !IsByParent(fields[i].translator) && fields[i].col == name|
    decreases n
  {
    var here := set i | 0 <= i < n && !IsByParent(fields[i].translator) && fields[i].col == name;
    if n == 0 {
      assert here == {};
    } else {
      var last := fields[n - 1];
      var before := set i | 0 <= i < n - 1 && !IsByParent(fields[i].translator) && fields[i].col == name;
      ColumnsCounted(fields, n - 1, name);
      assert fields[..n][..n - 1] == fields[..n - 1];
      assert here == if !IsByParent(last.translator) && last.col == name then before + {n - 1} else before;
    }
  }

  /** Wherever a nested table refers to a column of an HDICT, that is known. */
  predicate KeysAreKnown(t: Translator)
    decreases t
  {
    && (t.HDict? ==>
          forall i | 0 <= i < |t.fields| && IsByParent(t.fields[i].translator) ::
            KeyIsKnown(t, t.fields[i].translator.link.key))
    && forall i | 0 <= i < |Subtranslators(t)| :: KeysAreKnown(Subtranslators(t)[i])
  }

  /** No table is declared twice or is already in the schema, and every key is known. */
  ghost predicate CanExtend(t: Translator, schema: Schema) {
    DistinctTables(t) && TablesOf(t) !! schema.Keys && KeysAreKnown(t)
  }

  /** If the whole can extend the schema, so can each part extend what others have made of it. */
  lemma PartsCanExtend(t: Translator, done: set<nat>, i: nat, schema: Schema, s: Schema)
    requires CanExtend(t, schema) && i < |Subtranslators(t)| && i !in done
    requires ExtendsBy(Subtranslators(t), done, schema, s)
    ensures CanExtend(Subtranslators(t)[i], s)
  {
    hide Declares, KeyIsKnown;
    var subs := Subtranslators(t);
    forall j | j in done
      ensures TablesOf(subs[j]) !! TablesOf(subs[i])
    {
      assert if j < i then TablesOf(subs[j]) !! TablesOf(subs[i]) else TablesOf(subs[i]) !! TablesOf(subs[j]);
    }
    assert forall table | table in TablesOf(subs[i]) :: table in TablesOf(t);
  }

  lemma WholeCanExtend(t: Translator, done: set<nat>, schema: Schema, s: Schema)
    requires !t.ValueTranslator? && (forall i: nat :: i in done <==> i < |Subtranslators(t)|)
    requires ExtendsBy(Subtranslators(t), done, schema, s) && CanExtend(t, schema)
    ensures t.table !in s
  {
    hide Declares, KeysAreKnown;
    assert t.table in TablesOf(t);
  }

  lemma KnownKey(t: Translator, i: nat)
    requires t.HDict? && KeysAreKnown(t) && i < |t.fields| && IsByParent(t.fields[i].translator)
    ensures KeyIsKnown(t, t.fields[i].translator.link.key)
  {}

  /** The schema with the translator's tables; None where the original raises. */
  method GetSchema(t: Translator, schema: Schema) returns (r: Option<Schema>)
    ensures r.Some? ==> Extends(t, schema, r.value)
    ensures r.Some? <==> CanExtend(t, schema)
    decreases t
  {
    hide Extends, ExtendsBy, Declares, TablesOf, DistinctTables, KeysAreKnown, CanExtend, KeyIsKnown;
    if t.ValueTranslator? {
      ValueDeclaresNothing(t, schema);
      return Some(schema);
    }
    var subs := Subtranslators(t);
    ghost var done: set<nat> := {};
    ExtendsByNothing(subs, schema);
    var s := schema;
    if t.HDict? {
      for i := 0 to |t.fields|
        invariant ExtendsBy(subs, done, schema, s) && AllKnown(subs, done)
        invariant forall j: nat :: j in done <==> j < i && !IsByParent(t.fields[j].translator)
      {
        if !IsByParent(t.fields[i].translator) {
          NextCanExtend(t, done, i, schema, s);
          var more := GetSchema(subs[i], s);
          if more == None {
            return None;
          }
          ExtendsByOneMore(subs, done, i, schema, s, more.value);
          s, done := more.value, done + {i};
        }
      }
      for i := 0 to |t.fields|
        invariant ExtendsBy(subs, done, schema, s) && AllKnown(subs, done)
        invariant forall j: nat :: j in done <==> j < |t.fields| && (j < i || !IsByParent(t.fields[j].translator))
        invariant forall j | 0 <= j < i && IsByParent(t.fields[j].translator) ::
                    KeyIsKnown(t, t.fields[j].translator.link.key)
      {
        if IsByParent(t.fields[i].translator) {
          NextCanExtend(t, done, i, schema, s);
          if !KeyIsKnown(t, t.fields[i].translator.link.key) {
            return None;
          }
          var more := GetSchema(subs[i], s);
          if more == None {
            return None;
          }
          ExtendsByOneMore(subs, done, i, schema, s, more.value);
          s, done := more.value, done + {i};
        }
      }
    } else {
      NextCanExtend(t, done, 0, schema, s);
      var more := GetSchema(t.sub, s);
      if more == None {
        return None;
      }
      ExtendsByOneMore(subs, done, 0, schema, s, more.value);
      s, done := more.value, done + {0};
    }
    NowComplete(t, done, schema, s);
    if t.table in s {
      return None;
    }
    ExtendsByAll(t, done, schema, s);
    r := Some(s[t.table := OwnColumns(t)]);
  }

  ghost predicate AllKnown(subs: seq<Translator>, done: set<nat>) {
    forall i | i in done :: i < |subs| && KeysAreKnown(subs[i])
  }

  /** What must hold of the next part if the whole can extend the schema, and what follows if it can. */
  lemma NextCanExtend(t: Translator, done: set<nat>, i: nat, schema: Schema, s: Schema)
    requires i < |Subtranslators(t)| && i !in done && ExtendsBy(Subtranslators(t), done, schema, s)
    requires AllKnown(Subtranslators(t), done)
    ensures CanExtend(t, schema) ==> CanExtend(Subtranslators(t)[i], s)
    ensures CanExtend(t, schema) && t.HDict? && IsByParent(t.fields[i].translator) ==>
              KeyIsKnown(t, t.fields[i].translator.link.key)
    ensures CanExtend(Subtranslators(t)[i], s) ==> AllKnown(Subtranslators(t), done + {i})
  {
    hide Declares, KeyIsKnown, TablesOf, DistinctTables, ExtendsBy;
    if CanExtend(t, schema) {
      PartsCanExtend(t, done, i, schema, s);
      if t.HDict? && IsByParent(t.fields[i].translator) {
        KnownKey(t, i);
      }
    }
  }

  lemma NowComplete(t: Translator, done: set<nat>, schema: Schema, s: Schema)
    requires !t.ValueTranslator? && (forall i: nat :: i in done <==> i < |Subtranslators(t)|)
    requires ExtendsBy(Subtranslators(t), done, schema, s) && AllKnown(Subtranslators(t), done)
    requires t.HDict? ==> forall i | 0 <= i < |t.fields| && IsByParent(t.fields[i].translator) ::
                            KeyIsKnown(t, t.fields[i].translator.link.key)
    ensures t.table !in s <==> CanExtend(t, schema)
  {
    hide Declares, KeyIsKnown, TablesOf, DistinctTables;
    if CanExtend(t, schema) {
      WholeCanExtend(t, done, schema, s);
    }
    if t.table !in s {
      ExtendsByAll(t, done, schema, s);
      forall i | 0 <= i < |Subtranslators(t)|
        ensures KeysAreKnown(Subtranslators(t)[i])
      {
        assert i in done;
      }
    }
  }

  lemma ValueDeclaresNothing(t: Translator, schema: Schema)
    requires t.ValueTranslator?
    ensures Extends(t, schema, schema) && CanExtend(t, schema)
  {}
}
