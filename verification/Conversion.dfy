/** Converting nested data into rows as a translator says. */
module Conversion {
  import opened Syntax
  import opened Translators
  import opened ConvertedRows

  /** The original raises, returns nothing for no object, or returns rows and perhaps an id. */
  datatype Converted = Raised | Nothing | Rows(rows: seq<Row>, hash: Json)

  /** Whether an id passes for true. */
  predicate Truthy(hash: Json) {
    hash.Text? && hash.text != ""
  }

  // ---------------------------------------------------------------------------
  // What the rows of a conversion are like

  ghost predicate AllFit(t: Translator, rows: seq<Row>) {
    forall row | row in rows :: Fits(t, row)
  }

  ghost predicate StartsWith(row: Row, cell: Json) {
    row.cells != [] && row.cells[0] == cell
  }

  /** The rows of the translator's own table begin with the key's value in the parent row. */
  ghost predicate RefersTo(t: Translator, parent: RowDict, rows: seq<Row>)
    requires IsByParent(t)
  {
    forall row | row in rows && row.table == t.table :: t.link.key in parent && StartsWith(row, parent[t.link.key])
  }

  ghost predicate RefersToParent(t: Translator, parent: Option<RowDict>, rows: seq<Row>) {
    IsByParent(t) ==> RefersTo(t, parent.GetOr(map[]), rows)
  }

  /** All rows of the translator's own table have one id. */
  predicate HasOneId(t: Translator) {
    IsById(t) && !(t.HDict? && t.inList)
  }

  ghost predicate BearsId(t: Translator, hash: Json, rows: seq<Row>) {
    HasOneId(t) ==> forall row | row in rows && row.table == t.table :: StartsWith(row, hash)
  }

  /** The value in the column of that name. */
  ghost predicate HasCell(t: Translator, row: Row, name: string, cell: Json)
    requires !t.ValueTranslator?
  {
    exists c :: 0 <= c < |OwnColumns(t)| && c < |row.cells| && OwnColumns(t)[c] == name && row.cells[c] == cell
  }

  /** Where a nested table has its link to the object's row: in the column of its own id, or in that of its key. */
  function LinkedColumn(field: Field): string
    requires IsByParent(field.translator) || IsById(field.translator)
  {
    if IsByParent(field.translator) then field.translator.link.key else field.col
  }

  predicate IsLinked(field: Field) {
    IsByParent(field.translator) || HasOneId(field.translator)
  }

  /** The last row is that of the object itself; rows of nested tables begin with the value that links them to it. */
  ghost predicate ChildrenMatchParent(t: Translator, rows: seq<Row>)
    requires t.HDict?
  {
    && rows != [] && rows[|rows| - 1].table == t.table
    && (forall i | 0 <= i < |rows| - 1 :: rows[i].table != t.table)
    && forall i, row | 0 <= i < |t.fields| && IsLinked(t.fields[i])
                       && row in rows && row.table == t.fields[i].translator.table ::
         row.cells != [] && HasCell(t, rows[|rows| - 1], LinkedColumn(t.fields[i]), row.cells[0])
  }

  /** The object's row holds the extracted value of every field that has one. */
  ghost predicate HoldsValues(t: Translator, obj: Json, row: Row)
    requires t.HDict?
  {
    forall i | 0 <= i < |t.fields| && t.fields[i].translator.ValueTranslator? ::
      HasCell(t, row, t.fields[i].col, t.fields[i].translator.extract(GetValue(obj, t.fields[i].name)))
  }

  function CountOwn(t: Translator, rows: seq<Row>): nat
    requires !t.ValueTranslator?
  {
    if rows == [] then 0
    else CountOwn(t, rows[..|rows| - 1]) + if rows[|rows| - 1].table == t.table then 1 else 0
  }

  lemma {:induction false} CountOwnAppend(t: Translator, rows: seq<Row>, more: seq<Row>)
    requires !t.ValueTranslator?
    ensures CountOwn(t, rows + more) == CountOwn(t, rows) + CountOwn(t, more)
    decreases |more|
  {
    if more == [] {
      assert rows + more == rows;
    } else {
      assert (rows + more)[..|rows + more| - 1] == rows + more[..|more| - 1];
      CountOwnAppend(t, rows, more[..|more| - 1]);
    }
  }

  lemma {:induction false} CountNone(t: Translator, rows: seq<Row>)
    requires !t.ValueTranslator? && forall i | 0 <= i < |rows| :: rows[i].table != t.table
    ensures CountOwn(t, rows) == 0
    decreases |rows|
  {
    if rows != [] {
      CountNone(t, rows[..|rows| - 1]);
    }
  }

  // ---------------------------------------------------------------------------
  // When a conversion does not raise

  /** All ids that are computed pass for true. */
  ghost predicate ProperIds(t: Translator)
    decreases t
  {
    && (IsById(t) ==> forall obj, content :: Truthy(t.link.compute(obj, content)))
    && forall i | 0 <= i < |Subtranslators(t)| :: ProperIds(Subtranslators(t)[i])
  }

  ghost predicate KeyIsThere(t: Translator, keys: set<string>) {
    IsByParent(t) ==> t.link.key in keys
  }

  /** The conversion of the object yields an id. */
  ghost predicate YieldsId(obj: Json, t: Translator) {
    t.HDict? && t.inList ==> obj.Array? && obj.elements != []
  }

  /** One object of an HDICT: the key is there, and what is nested is convertible. */
  ghost predicate RowConvertible(obj: Json, t: Translator, keys: set<string>)
    requires t.HDict?
    decreases t, 0
  {
    && KeyIsThere(t, keys)
    && forall i | 0 <= i < |t.fields| && !t.fields[i].translator.ValueTranslator?
                  && GetValue(obj, t.fields[i].name) != Null ::
         (assert t.fields[i].translator == Subtranslators(t)[i];
          Convertible(GetValue(obj, t.fields[i].name), t.fields[i].translator, Names(t, |t.fields|)))
  }

  /** The object has the shape that the translator expects, and keys name values that are there. */
  ghost predicate Convertible(obj: Json, t: Translator, keys: set<string>)
    decreases t, 1
  {
    match t
    case ValueTranslator(_) => false
    case HDict(_, _, inList, _) =>
      if inList then obj.Array? && forall i | 0 <= i < |obj.elements| :: RowConvertible(obj.elements[i], t, keys)
      else RowConvertible(obj, t, keys)
    case VDict(_, _, keyCol, _, sub) =>
      && obj.Object?
      && (sub.ValueTranslator? || obj.members != [] ==> KeyIsThere(t, keys))
      && (!sub.ValueTranslator? ==>
            forall i | 0 <= i < |obj.members| && obj.members[i].1 != Null ::
                Convertible(obj.members[i].1, sub, {keyCol}))
    case ListTranslator(_, link, _, sub) =>
      && obj.Array?
      && (sub.ValueTranslator? || obj.elements != [] ==> KeyIsThere(t, keys))
      && (!sub.ValueTranslator? ==>
            && (link.ById? ==> obj.elements != [])
            && (obj.elements != [] ==> IsById(sub))
            && forall i | 0 <= i < |obj.elements| && obj.elements[i] != Null ::
                 Convertible(obj.elements[i], sub, {}) && YieldsId(obj.elements[i], sub))
  }

  /** The keys that are available only matter to a translator that refers to one. */
  lemma KeysDoNotMatter(obj: Json, t: Translator, keys: set<string>, keys': set<string>)
    requires !IsByParent(t) && Convertible(obj, t, keys)
    ensures Convertible(obj, t, keys')
  {}

  // ---------------------------------------------------------------------------
  // One object of an HDICT

  /** The names under which the object's row has values so far. */
  ghost function Names(t: Translator, n: nat): set<string>
    requires t.HDict? && n <= |t.fields|
  {
    (if t.link.ByParent? then {t.link.column} else {})
    + set i | 0 <= i < n && !IsByParent(t.fields[i].translator) :: t.fields[i].col
  }

  /** The row comes from one of the fields, and begins with the value that links it to the object's row. */
  ghost predicate ComesFrom(t: Translator, i: nat, dict: RowDict, row: Row)
    requires t.HDict?
  {
    && i < |t.fields| && Fits(t.fields[i].translator, row)
    && (IsLinked(t.fields[i]) && row.table == t.fields[i].translator.table ==>
          LinkedColumn(t.fields[i]) in dict && StartsWith(row, dict[LinkedColumn(t.fields[i])]))
  }

  ghost predicate AllComeFrom(t: Translator, dict: RowDict, rows: seq<Row>)
    requires t.HDict?
  {
    forall row | row in rows :: exists i: nat :: ComesFrom(t, i, dict, row)
  }

  ghost predicate Included(dict: RowDict, dict': RowDict) {
    forall name | name in dict :: name in dict' && dict'[name] == dict[name]
  }

  lemma StillComeFrom(t: Translator, dict: RowDict, dict': RowDict, rows: seq<Row>)
    requires t.HDict? && AllComeFrom(t, dict, rows) && Included(dict, dict')
    ensures AllComeFrom(t, dict', rows)
  {
    hide Fits;
    forall row | row in rows
      ensures exists i: nat :: ComesFrom(t, i, dict', row)
    {
      var i: nat :| ComesFrom(t, i, dict, row);
      assert ComesFrom(t, i, dict', row);
    }
  }

  /** The values extracted so far. */
  ghost predicate Extracted(t: Translator, obj: Json, n: nat, dict: RowDict)
    requires t.HDict? && n <= |t.fields|
  {
    forall i | 0 <= i < n && t.fields[i].translator.ValueTranslator? ::
      t.fields[i].col in dict && dict[t.fields[i].col] ==
          t.fields[i].translator.extract(GetValue(obj, t.fields[i].name))
  }

  function CellsOf(columns: seq<string>, dict: RowDict): seq<Json>
    requires forall i | 0 <= i < |columns| :: columns[i] in dict
  {
    seq(|columns|, i requires 0 <= i < |columns| => dict[columns[i]])
  }

  lemma {:induction false} FieldColumnsAreNames(t: Translator, n: nat)
    requires t.HDict? && n <= |t.fields|
    ensures forall name :: name in FieldColumns(t.fields[..n]) <==>
              exists i :: 0 <= i < n && !IsByParent(t.fields[i].translator) && t.fields[i].col == name
    decreases n
  {
    if n > 0 {
      FieldColumnsAreNames(t, n - 1);
      assert t.fields[..n][..n - 1] == t.fields[..n - 1];
    }
  }

  /** The next field's column is new. */
  lemma NamesStep(t: Translator, i: nat)
    requires t.HDict? && WellFormed(t) && i < |t.fields|
    ensures Names(t, i + 1) ==
              Names(t, i) + if IsByParent(t.fields[i].translator) then {} else {t.fields[i].col}
    ensures !IsByParent(t.fields[i].translator) ==> t.fields[i].col !in Names(t, i)
  {}

  lemma FieldIsPart(t: Translator, i: nat)
    requires t.HDict? && WellFormed(t) && DistinctTables(t) && i < |t.fields|
    ensures WellFormed(t.fields[i].translator) && DistinctTables(t.fields[i].translator) && t.fields[i].translator < t
    ensures t.fields[i].translator.ValueTranslator? || IsByParent(t.fields[i].translator)
              || IsById(t.fields[i].translator)
    ensures ProperIds(t) ==> ProperIds(t.fields[i].translator)
  {
    assert Subtranslators(t)[i] == t.fields[i].translator;
  }

  ghost predicate NestedConvertible(t: Translator, obj: Json)
    requires t.HDict?
  {
    forall i | 0 <= i < |t.fields| && !t.fields[i].translator.ValueTranslator?
        && GetValue(obj, t.fields[i].name) != Null ::
      Convertible(GetValue(obj, t.fields[i].name), t.fields[i].translator, Names(t, |t.fields|))
  }

  /** The nested objects of the first fields: those that refer to this row by a key, or the others. */
  ghost predicate PartConvertible(t: Translator, obj: Json, n: nat, byParent: bool)
    requires t.HDict? && n <= |t.fields|
  {
    forall i | 0 <= i < n && !t.fields[i].translator.ValueTranslator? && IsByParent(t.fields[i].translator) == byParent
        && GetValue(obj, t.fields[i].name) != Null ::
      Convertible(GetValue(obj, t.fields[i].name), t.fields[i].translator, Names(t, |t.fields|))
  }

  lemma PartsAreAll(t: Translator, obj: Json)
    requires t.HDict?
    ensures PartConvertible(t, obj, |t.fields|, false) && PartConvertible(t, obj, |t.fields|, true) <==>
              NestedConvertible(t, obj)
  {
    hide Convertible;
  }

  lemma PartDone(t: Translator, obj: Json, i: nat, byParent: bool)
    requires t.HDict? && i < |t.fields| && PartConvertible(t, obj, i, byParent)
    requires var tr, v := t.fields[i].translator, GetValue(obj, t.fields[i].name);
             !tr.ValueTranslator? && IsByParent(tr) == byParent && v != Null ==>
                 Convertible(v, tr, Names(t, |t.fields|))
    ensures PartConvertible(t, obj, i + 1, byParent)
  {
    hide Convertible;
  }

  /** What a field becomes, its value being under the column's name in the dictionary of the row to be. */
  ghost predicate DictEntry(s: Schema, value: Json, sub: Translator, dict: RowDict, col: string, part: seq<Row>) {
    if sub.ValueTranslator? then part == [] && col in dict && dict[col] == sub.extract(value)
    else if value == Null then part == [] && (IsById(sub) ==> col in dict && dict[col] == EMPTY_HASH)
    else
      && (IsByParent(sub) && part != [] ==> sub.link.key in dict)
      && exists hash :: (IsById(sub) ==> col in dict && dict[col] == hash)
                        && IsConverted(s, value, sub, LinkOf(dict, sub), part, hash)
  }

  /** So far the fields of one kind have been dealt with, those whose tables refer to this row or the others. */
  ghost predicate FieldsDone(s: Schema, t: Translator, obj: Json, n: nat, byParent: bool, dict: RowDict,
                             parts: seq<seq<Row>>)
    requires t.HDict?
  {
    && n <= |t.fields| == |parts|
    && forall i | 0 <= i < |t.fields| && IsByParent(t.fields[i].translator) == byParent ::
         if i < n then
           DictEntry(s, GetValue(obj, t.fields[i].name), t.fields[i].translator, dict, t.fields[i].col, parts[i])
         else parts[i] == []
  }

  lemma NoFieldsDone(s: Schema, t: Translator, obj: Json, byParent: bool, dict: RowDict, parts: seq<seq<Row>>)
    requires t.HDict? && |parts| == |t.fields|
    requires forall i | 0 <= i < |parts| && IsByParent(t.fields[i].translator) == byParent :: parts[i] == []
    ensures FieldsDone(s, t, obj, 0, byParent, dict, parts)
  {}

  /** One more field of that kind. */
  lemma FieldDone(s: Schema, t: Translator, obj: Json, i: nat, byParent: bool, dict: RowDict, dict': RowDict,
                  parts: seq<seq<Row>>, part: seq<Row>)
    requires t.HDict? && i < |t.fields| && FieldsDone(s, t, obj, i, byParent, dict, parts) && Included(dict, dict')
    requires IsByParent(t.fields[i].translator) == byParent && (byParent ==> dict == dict')
    requires DictEntry(s, GetValue(obj, t.fields[i].name), t.fields[i].translator, dict', t.fields[i].col, part)
    ensures FieldsDone(s, t, obj, i + 1, byParent, dict', parts[i := part])
    ensures FieldsDone(s, t, obj, 0, true, dict, parts) && !byParent ==>
              FieldsDone(s, t, obj, 0, true, dict', parts[i := part])
    ensures FieldsDone(s, t, obj, |t.fields|, false, dict, parts) && byParent ==>
              FieldsDone(s, t, obj, |t.fields|, false, dict', parts[i := part])
    ensures multiset(Concat(parts[i := part])) == multiset(Concat(parts)) + multiset(part)
  {
    hide DictEntry, Concat;
    ConcatUpdate(parts, i, part);
    forall j | 0 <= j < i && IsByParent(t.fields[j].translator) == byParent
      ensures DictEntry(s, GetValue(obj, t.fields[j].name), t.fields[j].translator, dict', t.fields[j].col, parts[j])
    {
      EntryStays(s, GetValue(obj, t.fields[j].name), t.fields[j].translator, dict, dict', t.fields[j].col, parts[j]);
    }
  }

  lemma EntryStays(s: Schema, value: Json, sub: Translator, dict: RowDict, dict': RowDict, col: string, part: seq<Row>)
    requires DictEntry(s, value, sub, dict, col, part) && Included(dict, dict') && (IsByParent(sub) ==> dict == dict')
    ensures DictEntry(s, value, sub, dict', col, part)
  {
    hide IsConverted;
    assert LinkOf(dict, sub) == LinkOf(dict', sub);
  }

  /** A field of the other kind. */
  lemma OtherField(s: Schema, t: Translator, obj: Json, i: nat, byParent: bool, dict: RowDict, parts: seq<seq<Row>>)
    requires t.HDict? && i < |t.fields| && FieldsDone(s, t, obj, i, byParent, dict, parts)
    requires IsByParent(t.fields[i].translator) != byParent
    ensures FieldsDone(s, t, obj, i + 1, byParent, dict, parts)
  {
    hide IsConverted;
  }

  /** The fields that have a column: values, and nested tables with ids of their own. */
  method PopulateOwnFields(t: Translator, obj: Json, start: RowDict, ghost s: Schema)
    returns (r: Option<(RowDict, seq<Row>)>, ghost parts: seq<seq<Row>>)
    requires t.HDict? && WellFormed(t) && DistinctTables(t) && start.Keys == Names(t, 0) && InSchema(t, s)
    ensures |parts| == |t.fields|
    ensures r.Some? ==> FieldsDone(s, t, obj, |t.fields|, false, r.value.0, parts)
    ensures r.Some? ==> FieldsDone(s, t, obj, 0, true, r.value.0, parts)
    ensures r.Some? ==> multiset(r.value.1) == multiset(Concat(parts))
    ensures r.Some? ==> r.value.0.Keys == Names(t, |t.fields|) && AllComeFrom(t, r.value.0, r.value.1)
    ensures r.Some? ==> Included(start, r.value.0) && Extracted(t, obj, |t.fields|, r.value.0)
    ensures ProperIds(t) && NestedConvertible(t, obj) ==> r.Some?
    ensures r.Some? ==> PartConvertible(t, obj, |t.fields|, false)
    decreases t, 0
  {
    hide Fits, WellFormed, DistinctTables, Names, AllComeFrom, ProperIds, Convertible, Included, Extracted,
         PartConvertible, FieldsDone, IsConverted, InSchema, Concat;
    var dict, rows := start, [];
    StartFields(t, obj, start);
    parts := seq(|t.fields|, i => []);
    ConcatNothing(|t.fields|);
    NoFieldsDone(s, t, obj, false, dict, parts);
    NoFieldsDone(s, t, obj, true, dict, parts);
    for i := 0 to |t.fields|
      invariant dict.Keys == Names(t, i) && AllComeFrom(t, dict, rows)
      invariant Included(start, dict) && Extracted(t, obj, i, dict) && PartConvertible(t, obj, i, false)
      invariant |parts| == |t.fields| && FieldsDone(s, t, obj, i, false, dict, parts)
      invariant FieldsDone(s, t, obj, 0, true, dict, parts) && multiset(rows) == multiset(Concat(parts))
    {
      var field := t.fields[i];
      NamesStep(t, i);
      FieldIsPart(t, i);
      var cell, nested := Null, [];
      if field.translator.ValueTranslator? {
        cell := field.translator.extract(GetValue(obj, field.name));
      } else if IsById(field.translator) {
        var v := GetValue(obj, field.name);
        cell := EMPTY_HASH;
        if v != Null {
          if Convertible(v, field.translator, Names(t, |t.fields|)) {
            KeysDoNotMatter(v, field.translator, Names(t, |t.fields|), dict.Keys);
          }
          PartInSchema(t, i, s);
          var converted := Convert(v, field.translator, Some(dict), s);
          if !converted.Rows? {
            return None, parts;
          }
          nested, cell := converted.rows, converted.hash;
          KeysDoNotMatter(v, field.translator, dict.Keys, Names(t, |t.fields|));
        }
      }
      PartDone(t, obj, i, false);
      if !IsByParent(field.translator) {
        OwnFieldDone(t, obj, i, start, dict, rows, cell, nested);
        OwnEntry(s, GetValue(obj, field.name), field.translator, dict, field.col, cell, nested);
        FieldDone(s, t, obj, i, false, dict, dict[field.col := cell], parts, nested);
        rows, dict, parts := rows + nested, dict[field.col := cell], parts[i := nested];
      } else {
        SkippedField(t, obj, i, dict);
        OtherField(s, t, obj, i, false, dict, parts);
      }
    }
    r := Some((dict, rows));
  }

  lemma OwnEntry(s: Schema, value: Json, sub: Translator, dict: RowDict, col: string, cell: Json, part: seq<Row>)
    requires sub.ValueTranslator? || IsById(sub)
    requires sub.ValueTranslator? ==> part == [] && cell == sub.extract(value)
    requires IsById(sub) && value == Null ==> part == [] && cell == EMPTY_HASH
    requires IsById(sub) && value != Null ==> IsConverted(s, value, sub, LinkOf(dict, sub), part, cell)
    ensures DictEntry(s, value, sub, dict[col := cell], col, part)
  {
    hide IsConverted;
    assert LinkOf(dict, sub) == LinkOf(dict[col := cell], sub);
  }

  lemma StartFields(t: Translator, obj: Json, start: RowDict)
    requires t.HDict?
    ensures AllComeFrom(t, start, []) && Included(start, start) && Extracted(t, obj, 0, start)
    ensures PartConvertible(t, obj, 0, false)
  {}

  lemma SkippedField(t: Translator, obj: Json, i: nat, dict: RowDict)
    requires t.HDict? && i < |t.fields| && !t.fields[i].translator.ValueTranslator? && Extracted(t, obj, i, dict)
    ensures Extracted(t, obj, i + 1, dict)
  {}

  lemma OwnFieldDone(t: Translator, obj: Json, i: nat, start: RowDict, dict: RowDict, rows: seq<Row>, cell: Json,
                     nested: seq<Row>)
    requires t.HDict? && i < |t.fields| && t.fields[i].col !in dict && !IsByParent(t.fields[i].translator)
    requires AllComeFrom(t, dict, rows) && Included(start, dict) && Extracted(t, obj, i, dict)
    requires AllFit(t.fields[i].translator, nested) && BearsId(t.fields[i].translator, cell, nested)
    requires t.fields[i].translator.ValueTranslator? ==>
               cell == t.fields[i].translator.extract(GetValue(obj, t.fields[i].name))
    ensures var dict' := dict[t.fields[i].col := cell];
            && AllComeFrom(t, dict', rows + nested) && Included(start, dict') && Extracted(t, obj, i + 1, dict')
            && Included(dict, dict')
  {
    hide Fits;
    var dict' := dict[t.fields[i].col := cell];
    StillComeFrom(t, dict, dict', rows);
    forall row | row in nested
      ensures ComesFrom(t, i, dict', row)
    {}
  }

  /** The fields whose tables refer to this row. */
  method PopulateChildren(t: Translator, obj: Json, dict: RowDict, own: seq<Row>, ghost s: Schema,
                          ghost parts0: seq<seq<Row>>)
    returns (r: Option<seq<Row>>, ghost parts: seq<seq<Row>>)
    requires t.HDict? && WellFormed(t) && DistinctTables(t) && AllComeFrom(t, dict, own)
    requires dict.Keys == Names(t, |t.fields|) && InSchema(t, s)
    requires FieldsDone(s, t, obj, |t.fields|, false, dict, parts0) && FieldsDone(s, t, obj, 0, true, dict, parts0)
    requires multiset(own) == multiset(Concat(parts0))
    ensures r.Some? ==> FieldsDone(s, t, obj, |t.fields|, false, dict, parts)
    ensures r.Some? ==> FieldsDone(s, t, obj, |t.fields|, true, dict, parts)
    ensures r.Some? ==> multiset(r.value) == multiset(Concat(parts))
    ensures r.Some? ==> AllComeFrom(t, dict, r.value)
    ensures ProperIds(t) && NestedConvertible(t, obj) ==> r.Some?
    ensures r.Some? ==> PartConvertible(t, obj, |t.fields|, true)
    decreases t, 0
  {
    hide Fits, WellFormed, DistinctTables, Names, ProperIds, Convertible, AllComeFrom, DictEntry, IsConverted,
         InSchema, Concat;
    var rows := own;
    parts := parts0;
    for i := 0 to |t.fields|
      invariant AllComeFrom(t, dict, rows) && PartConvertible(t, obj, i, true)
      invariant FieldsDone(s, t, obj, |t.fields|, false, dict, parts) && FieldsDone(s, t, obj, i, true, dict, parts)
      invariant multiset(rows) == multiset(Concat(parts))
    {
      var field := t.fields[i];
      FieldIsPart(t, i);
      if IsByParent(field.translator) {
        var v := GetValue(obj, field.name);
        var nested: seq<Row> := [];
        if v != Null {
          PartInSchema(t, i, s);
          var converted := Convert(v, field.translator, Some(dict), s);
          if !converted.Rows? {
            return None, parts;
          }
          ChildrenComeFrom(t, i, dict, rows, converted.rows);
          nested := converted.rows;
          ChildEntry(s, v, field.translator, dict, field.col, nested, converted.hash);
        } else {
          NoEntry(s, field.translator, dict, field.col);
          assert rows + nested == rows;
        }
        FieldDone(s, t, obj, i, true, dict, dict, parts, nested);
        rows, parts := rows + nested, parts[i := nested];
      } else {
        OtherField(s, t, obj, i, true, dict, parts);
      }
      PartDone(t, obj, i, true);
    }
    r := Some(rows);
  }

  lemma ChildEntry(s: Schema, value: Json, sub: Translator, dict: RowDict, col: string, part: seq<Row>, hash: Json)
    requires IsByParent(sub) && value != Null && IsConverted(s, value, sub, LinkOf(dict, sub), part, hash)
    requires part != [] ==> sub.link.key in dict
    ensures DictEntry(s, value, sub, dict, col, part)
  {
    hide IsConverted;
  }

  lemma NoEntry(s: Schema, sub: Translator, dict: RowDict, col: string)
    requires IsByParent(sub)
    ensures DictEntry(s, Null, sub, dict, col, [])
  {}

  lemma ChildrenComeFrom(t: Translator, i: nat, dict: RowDict, rows: seq<Row>, nested: seq<Row>)
    requires t.HDict? && i < |t.fields| && AllFit(t.fields[i].translator, nested) && AllComeFrom(t, dict, rows)
    requires IsByParent(t.fields[i].translator) && RefersToParent(t.fields[i].translator, Some(dict), nested)
    ensures AllComeFrom(t, dict, rows + nested)
  {
    hide Fits;
    forall row | row in nested
      ensures ComesFrom(t, i, dict, row)
    {}
  }

  /** Puts the object's own row after the rows of its nested tables. */
  method FormatResults(t: Translator, obj: Json, dict: RowDict, results: seq<Row>, ghost s: Schema,
                       ghost parts: seq<seq<Row>>)
    returns (r: Converted)
    requires t.HDict? && WellFormed(t) && DistinctTables(t) && InSchema(t, s)
    requires FieldsDone(s, t, obj, |t.fields|, false, dict, parts)
    requires FieldsDone(s, t, obj, |t.fields|, true, dict, parts)
    requires multiset(results) == multiset(Concat(parts)) && AllComeFrom(t, dict, results)
    ensures r.Rows? ==> IsObject(s, obj, t, if t.link.ByParent? then dict[t.link.column] else Null, r.rows, r.hash)
    requires dict.Keys == Names(t, |t.fields|) && Extracted(t, obj, |t.fields|, dict)
    ensures r.Rows? ==> AllFit(t, r.rows) && ChildrenMatchParent(t, r.rows) && HoldsValues(t, obj, r.rows[|r.rows| - 1])
    ensures r.Rows? && t.link.ByParent? ==>
              t.link.column in dict && StartsWith(r.rows[|r.rows| - 1], dict[t.link.column])
    ensures r.Rows? && t.link.ById? ==> r.hash.Text? && StartsWith(r.rows[|r.rows| - 1], r.hash)
    ensures !r.Nothing? && (ProperIds(t) ==> r.Rows? && (t.link.ById? ==> Truthy(r.hash)))
  {
    hide Fits, AllComeFrom, AllFit, ProperIds, HasCell, Extracted, WellFormed, DistinctTables, FieldsDone, IsObject,
         InSchema, Concat, ChildrenMatchParent, HoldsValues;
    var newRow: seq<Json> := [];
    for i := 0 to |t.fields|
      invariant forall c | c in FieldColumns(t.fields[..i]) :: c in dict
      invariant newRow == CellsOf(FieldColumns(t.fields[..i]), dict)
    {
      assert t.fields[..i + 1][..i] == t.fields[..i];
      ColumnPresent(t, i);
      if t.fields[i].col in dict {
        newRow := newRow + [dict[t.fields[i].col]];
      }
    }
    assert t.fields[..|t.fields|] == t.fields;
    var hash, cells := Null, newRow;
    match t.link {
      case Unlinked =>
      case ById(_, compute) =>
        hash := compute(obj, [newRow]);
        IdIsProper(t, obj, [newRow]);
        if !hash.Text? {
          return Raised;
        }
        cells := [hash] + newRow;
      case ByParent(_, column) =>
        cells := [dict[column]] + newRow;
    }
    var own := Row(t.table, cells);
    OwnRowMatches(t, dict, results, own);
    OwnRowHoldsValues(t, obj, dict, own);
    OwnRowIsObject(s, t, obj, dict, results, own, hash, parts);
    r := Rows(results + [own], hash);
  }

  lemma IdIsProper(t: Translator, obj: Json, content: seq<seq<Json>>)
    requires IsById(t)
    ensures ProperIds(t) ==> Truthy(t.link.compute(obj, content))
  {}

  /** A field's name has a value exactly if the field has a column. */
  lemma ColumnPresent(t: Translator, i: nat)
    requires t.HDict? && WellFormed(t) && i < |t.fields|
    ensures t.fields[i].col in Names(t, |t.fields|) <==> !IsByParent(t.fields[i].translator)
  {}

  ghost predicate IsOwnRow(t: Translator, dict: RowDict, own: Row)
    requires t.HDict?
  {
    && dict.Keys == Names(t, |t.fields|)
    && (forall c | c in FieldColumns(t.fields) :: c in dict)
    && own.table == t.table && |own.cells| == |OwnColumns(t)|
    && own.cells[|LinkColumns(t.link)|..] == CellsOf(FieldColumns(t.fields), dict)
    && (t.link.ByParent? ==> own.cells[0] == dict[t.link.column])
  }

  lemma OwnRowMatches(t: Translator, dict: RowDict, results: seq<Row>, own: Row)
    requires t.HDict? && DistinctTables(t) && AllComeFrom(t, dict, results) && IsOwnRow(t, dict, own)
    ensures AllFit(t, results + [own]) && ChildrenMatchParent(t, results + [own])
  {
    hide Fits, DistinctTables, OwnColumns, TablesOf, HasCell, ComesFrom, CellsOf, Names;
    var rows := results + [own];
    assert rows[|rows| - 1] == own;
    FitsOwn(t, own);
    forall row | row in results
      ensures Fits(t, row) && row.table != t.table
    {
      var i: nat :| ComesFrom(t, i, dict, row);
      OriginFits(t, i, dict, row);
    }
    forall i, row | 0 <= i < |t.fields| && IsLinked(t.fields[i])
                    && row in rows && row.table == t.fields[i].translator.table
      ensures row.cells != [] && HasCell(t, own, LinkedColumn(t.fields[i]), row.cells[0])
    {
      OwnTableIsNotNested(t, i);
      var j: nat :| ComesFrom(t, j, dict, row);
      OriginIsField(t, i, j, dict, row);
      CellForName(t, dict, own, LinkedColumn(t.fields[i]));
    }
  }

  lemma OriginFits(t: Translator, i: nat, dict: RowDict, row: Row)
    requires t.HDict? && DistinctTables(t) && ComesFrom(t, i, dict, row)
    ensures Fits(t, row) && row.table != t.table
  {
    hide Fits;
    assert Subtranslators(t)[i] == t.fields[i].translator;
    FitsWithin(t, i, row);
  }

  lemma OwnTableIsNotNested(t: Translator, i: nat)
    requires t.HDict? && DistinctTables(t) && i < |t.fields| && !t.fields[i].translator.ValueTranslator?
    ensures t.fields[i].translator.table != t.table
  {
    assert Subtranslators(t)[i] == t.fields[i].translator;
    assert t.fields[i].translator.table in TablesOf(Subtranslators(t)[i]);
  }

  /** A row of a field's own table comes from that field. */
  lemma OriginIsField(t: Translator, i: nat, j: nat, dict: RowDict, row: Row)
    requires t.HDict? && DistinctTables(t) && ComesFrom(t, j, dict, row)
    requires i < |t.fields| && IsLinked(t.fields[i]) && row.table == t.fields[i].translator.table
    ensures LinkedColumn(t.fields[i]) in dict && StartsWith(row, dict[LinkedColumn(t.fields[i])])
  {
    hide Fits;
    assert Subtranslators(t)[i] == t.fields[i].translator && Subtranslators(t)[j] == t.fields[j].translator;
    FitsWithin(t, j, row);
    assert row.table in TablesOf(Subtranslators(t)[i]);
    assert i == j;
  }

  /** Every name that has a value is a column, and the own row has the value there. */
  lemma CellForName(t: Translator, dict: RowDict, own: Row, name: string)
    requires t.HDict? && IsOwnRow(t, dict, own) && name in dict
    ensures HasCell(t, own, name, dict[name])
  {
    var n := |LinkColumns(t.link)|;
    FieldColumnsAreNames(t, |t.fields|);
    assert t.fields[..|t.fields|] == t.fields;
    if name in FieldColumns(t.fields) {
      var c :| 0 <= c < |FieldColumns(t.fields)| && FieldColumns(t.fields)[c] == name;
      assert OwnColumns(t)[n + c] == name && own.cells[n..][c] == own.cells[n + c];
    } else {
      assert OwnColumns(t)[0] == name;
    }
  }

  lemma OwnRowHoldsValues(t: Translator, obj: Json, dict: RowDict, own: Row)
    requires t.HDict? && IsOwnRow(t, dict, own) && Extracted(t, obj, |t.fields|, dict)
    ensures HoldsValues(t, obj, own)
  {
    hide HasCell, IsOwnRow;
    forall i | 0 <= i < |t.fields| && t.fields[i].translator.ValueTranslator?
      ensures HasCell(t, own, t.fields[i].col, t.fields[i].translator.extract(GetValue(obj, t.fields[i].name)))
    {
      CellForName(t, dict, own, t.fields[i].col);
    }
  }

  /** A nested value's entry in the dictionary is its entry in the row made of that. */
  lemma EntryInRow(s: Schema, obj: Json, t: Translator, dict: RowDict, own: Row, i: nat, part: seq<Row>)
    requires t.HDict? && i < |t.fields| && InSchema(t, s) && IsOwnRow(t, dict, own)
    requires var f := t.fields[i]; DictEntry(s, GetValue(obj, f.name), f.translator, dict, f.col, part)
    ensures IsField(s, obj, t, i, own, part)
  {
    hide IsConverted, IsOwnRow, HasCell, InSchema;
    var f := t.fields[i];
    var v, sub := GetValue(obj, f.name), f.translator;
    forall name | name in dict
      ensures Cell(s, own, name, dict[name])
    {
      CellInSchema(s, t, dict, own, name);
    }
    assert IsEntry(s, v, sub, own, f.col, LinkOf(dict, sub), part);
  }

  lemma CellInSchema(s: Schema, t: Translator, dict: RowDict, own: Row, name: string)
    requires t.HDict? && InSchema(t, s) && IsOwnRow(t, dict, own) && name in dict
    ensures Cell(s, own, name, dict[name])
  {
    hide InSchema;
    OwnInSchema(t, s);
    CellForName(t, dict, own, name);
  }

  lemma OwnRowIsOwn(s: Schema, t: Translator, dict: RowDict, own: Row, hash: Json)
    requires t.HDict? && InSchema(t, s) && IsOwnRow(t, dict, own)
    requires t.link.ById? ==> own.cells[0] == hash
    ensures IsOwn(s, t, if t.link.ByParent? then dict[t.link.column] else Null, hash, own)
    ensures |own.cells| == |OwnColumns(t)|
  {
    hide InSchema, Cell, CellsOf;
    OwnInSchema(t, s);
    if t.link.ByParent? {
      CellInSchema(s, t, dict, own, t.link.column);
    } else if t.link.ById? {
      CellAt(s, own, 0);
    }
  }

  lemma OwnRowIsObject(s: Schema, t: Translator, obj: Json, dict: RowDict, results: seq<Row>, own: Row, hash: Json,
                       parts: seq<seq<Row>>)
    requires t.HDict? && InSchema(t, s) && IsOwnRow(t, dict, own)
    requires FieldsDone(s, t, obj, |t.fields|, false, dict, parts)
    requires FieldsDone(s, t, obj, |t.fields|, true, dict, parts)
    requires multiset(results) == multiset(Concat(parts))
    requires t.link.ById? ==> hash == t.link.compute(obj, [own.cells[1..]]) && own.cells[0] == hash
    requires !t.link.ById? ==> hash == Null
    ensures IsObject(s, obj, t, if t.link.ByParent? then dict[t.link.column] else Null, results + [own], hash)
  {
    hide DictEntry, IsField, InSchema, Cell, Concat, IsOwn;
    var link, rows := if t.link.ByParent? then dict[t.link.column] else Null, results + [own];
    OwnRowIsOwn(s, t, dict, own, hash);
    forall i | 0 <= i < |parts|
      ensures IsField(s, obj, t, i, own, parts[i])
    {
      EntryInRow(s, obj, t, dict, own, i, parts[i]);
    }
    assert IsHash(t, obj, [own], hash) by {
      assert Contents(t, [own]) == [Content(t, own)];
    }
    assert AreFields(s, obj, t, link, rows, hash, own, parts);
  }

  lemma CellAt(s: Schema, row: Row, c: nat)
    requires row.table in s && |row.cells| == |s[row.table]| && c < |row.cells|
    ensures Cell(s, row, s[row.table][c], row.cells[c])
  {}

  method PopulateHdict(t: Translator, obj: Json, parent: Option<RowDict>, ghost s: Schema) returns (r: Converted)
    requires t.HDict? && WellFormed(t) && DistinctTables(t) && InSchema(t, s)
    ensures r.Rows? ==> IsObject(s, obj, t, LinkOf(parent.GetOr(map[]), t), r.rows, r.hash)
    ensures r.Rows? && IsByParent(t) ==> t.link.key in parent.GetOr(map[])
    ensures r.Rows? ==> AllFit(t, r.rows) && RefersToParent(t, parent, r.rows)
    ensures r.Rows? ==> ChildrenMatchParent(t, r.rows) && HoldsValues(t, obj, r.rows[|r.rows| - 1])
    ensures r.Rows? && t.link.ById? ==> r.hash.Text? && StartsWith(r.rows[|r.rows| - 1], r.hash)
    ensures !r.Nothing?
    ensures ProperIds(t) && RowConvertible(obj, t, parent.GetOr(map[]).Keys) ==>
              r.Rows? && (t.link.ById? ==> Truthy(r.hash))
    ensures r.Rows? ==> RowConvertible(obj, t, parent.GetOr(map[]).Keys)
    decreases t, 1
  {
    hide Fits, HasCell, HoldsValues, AllComeFrom, AllFit, WellFormed, DistinctTables, ProperIds, Convertible, Extracted,
         PartConvertible, FieldsDone, IsObject, InSchema, Concat;
    var dict: RowDict := map[];
    if t.link.ByParent? {
      if parent.None? || t.link.key !in parent.value {
        return Raised;
      }
      dict := map[t.link.column := parent.value[t.link.key]];
    }
    ghost var parts;
    var own, all;
    own, parts := PopulateOwnFields(t, obj, dict, s);
    if own == None {
      return Raised;
    }
    all, parts := PopulateChildren(t, obj, own.value.0, own.value.1, s, parts);
    if all == None {
      return Raised;
    }
    PartsAreAll(t, obj);
    r := FormatResults(t, obj, own.value.0, all.value, s, parts);
  }

  lemma OneOwnRow(t: Translator, rows: seq<Row>)
    requires t.HDict? && ChildrenMatchParent(t, rows)
    ensures CountOwn(t, rows) == 1
  {
    CountNone(t, rows[..|rows| - 1]);
  }

  /** With in-list, one row for each element; otherwise one row. */
  method ConvertHdict(t: Translator, obj: Json, parent: Option<RowDict>, ghost s: Schema) returns (r: Converted)
    requires t.HDict? && WellFormed(t) && DistinctTables(t) && InSchema(t, s)
    ensures r.Rows? ==> IsConverted(s, obj, t, LinkOf(parent.GetOr(map[]), t), r.rows, r.hash)
    ensures r.Rows? && IsByParent(t) && r.rows != [] ==> t.link.key in parent.GetOr(map[])
    ensures r.Rows? ==> AllFit(t, r.rows) && RefersToParent(t, parent, r.rows) && BearsId(t, r.hash, r.rows)
    ensures r.Rows? ==> CountOwn(t, r.rows) == if t.inList && obj.Array? then |obj.elements| else 1
    ensures !r.Nothing?
    ensures ProperIds(t) && Convertible(obj, t, parent.GetOr(map[]).Keys) ==>
              r.Rows? && (t.link.ById? && YieldsId(obj, t) ==> Truthy(r.hash))
    ensures r.Rows? ==> Convertible(obj, t, parent.GetOr(map[]).Keys) && (Truthy(r.hash) ==> YieldsId(obj, t))
    decreases t, 2
  {
    hide Fits, WellFormed, DistinctTables, HasCell, HoldsValues, ProperIds, RowConvertible, IsObject, InSchema, Concat,
         LinkOf;
    if !t.inList {
      r := PopulateHdict(t, obj, parent, s);
      if r.Rows? {
        OneOwnRow(t, r.rows);
      }
      return;
    }
    if !obj.Array? {
      return Raised;
    }
    var rows: seq<Row>, hash := [], Null;
    ghost var hashes: seq<Json>, parts: seq<seq<Row>> := [], [];
    ConcatEmpty();
    for i := 0 to |obj.elements|
      invariant |hashes| == |parts| == i && multiset(rows) == multiset(Concat(parts))
      invariant i > 0 && IsByParent(t) ==> t.link.key in parent.GetOr(map[])
      invariant rows != [] ==> i > 0
      invariant hash == if hashes == [] then Null else hashes[|hashes| - 1]
      invariant forall j | 0 <= j < i ::
                  IsObject(s, obj.elements[j], t, LinkOf(parent.GetOr(map[]), t), parts[j], hashes[j])
      invariant AllFit(t, rows) && RefersToParent(t, parent, rows) && CountOwn(t, rows) == i
      invariant ProperIds(t) && Convertible(obj, t, parent.GetOr(map[]).Keys) && t.link.ById? && i > 0 ==> Truthy(hash)
      invariant i == 0 ==> hash == Null
      invariant forall j | 0 <= j < i :: RowConvertible(obj.elements[j], t, parent.GetOr(map[]).Keys)
    {
      var one := PopulateHdict(t, obj.elements[i], parent, s);
      if one == Raised {
        return Raised;
      }
      OneOwnRow(t, one.rows);
      CountOwnAppend(t, rows, one.rows);
      ConcatOneMore(parts, one.rows);
      rows, hash := rows + one.rows, one.hash;
      hashes, parts := hashes + [hash], parts + [one.rows];
    }
    assert AreObjects(s, obj, t, LinkOf(parent.GetOr(map[]), t), rows, hash, hashes, parts);
    r := Rows(rows, hash);
  }

  // ---------------------------------------------------------------------------
  // VDICT and LIST

  /** The last rows are the translator's own: the content, each behind the link cells. */
  ghost predicate EndsWith(t: Translator, content: seq<seq<Json>>, rows: seq<Row>)
    requires t.VDict? || t.ListTranslator?
  {
    |rows| >= |content| && forall i | 0 <= i < |content| :: IsRowOf(t, content[i], rows[|rows| - |content| + i])
  }

  ghost predicate IsRowOf(t: Translator, cells: seq<Json>, row: Row)
    requires t.VDict? || t.ListTranslator?
  {
    row.table == t.table && |row.cells| == |OwnColumns(t)| && row.cells[|LinkColumns(t.link)|..] == cells
  }

  /** The cells in front of a row of a VDICT or a LIST, with the id; None where the original raises. */
  method LinkCells(t: Translator, obj: Json, content: seq<seq<Json>>, parent: Option<RowDict>)
    returns (r: Option<(seq<Json>, Json)>)
    requires t.VDict? || t.ListTranslator?
    ensures r.Some? ==> |r.value.0| == |LinkColumns(t.link)|
    ensures r.Some? && IsByParent(t) ==>
              t.link.key in parent.GetOr(map[]) && r.value.0 == [parent.GetOr(map[])[t.link.key]]
    ensures r.Some? && IsById(t) ==> r.value.0 == [r.value.1] && r.value.1 == t.link.compute(obj, content)
    ensures r.Some? && !IsById(t) ==> r.value.1 == Null
    ensures ProperIds(t) && KeyIsThere(t, parent.GetOr(map[]).Keys) ==>
              r.Some? && (IsById(t) ==> Truthy(r.value.1))
  {
    match t.link {
      case Unlinked =>
        r := Some(([], Null));
      case ById(_, compute) =>
        var hash := compute(obj, content);
        IdIsProper(t, obj, content);
        r := if hash.Text? then Some(([hash], hash)) else None;
      case ByParent(key, _) =>
        if parent.None? || key !in parent.value {
          return None;
        }
        r := Some(([parent.value[key]], Null));
    }
  }

  function Behind(t: Translator, front: seq<Json>, content: seq<seq<Json>>): seq<Row>
    requires !t.ValueTranslator?
  {
    seq(|content|, i requires 0 <= i < |content| => Row(t.table, front + content[i]))
  }

  /** Puts the content behind the link cells, and after the nested rows. */
  method OwnRows(t: Translator, front: seq<Json>, content: seq<seq<Json>>, nested: seq<Row>,
                 ghost parent: Option<RowDict>,
                 ghost hash: Json)
    returns (rows: seq<Row>)
    requires (t.VDict? || t.ListTranslator?) && DistinctTables(t)
    requires |front| == |LinkColumns(t.link)|
    requires forall cells | cells in content :: |cells| == |OwnColumns(t)| - |front|
    requires IsByParent(t) ==> t.link.key in parent.GetOr(map[]) && front == [parent.GetOr(map[])[t.link.key]]
    requires IsById(t) ==> front == [hash]
    requires AllFit(t.sub, nested)
    ensures AllFit(t, rows) && RefersToParent(t, parent, rows) && BearsId(t, hash, rows) && EndsWith(t, content, rows)
    ensures rows == nested + Behind(t, front, content)
  {
    hide Fits, DistinctTables, AllFit, RefersToParent, BearsId, EndsWith;
    rows := nested;
    NestedFit(t, nested);
    NoOwnRows(t, parent, hash, nested);
    for i := 0 to |content|
      invariant AllFit(t, rows) && RefersToParent(t, parent, rows) && BearsId(t, hash, rows)
      invariant EndsWith(t, content[..i], rows) && rows == nested + Behind(t, front, content[..i])
    {
      assert content[i] in content;
      assert Behind(t, front, content[..i + 1]) == Behind(t, front, content[..i]) + [Row(t.table, front + content[i])];
      var own := Row(t.table, front + content[i]);
      assert own.cells[|front|..] == content[i];
      assert IsRowOf(t, content[i], own);
      OwnRowAdded(t, own, rows, parent, hash);
      EndsWithMore(t, content, i, rows, own);
      rows := rows + [own];
    }
    assert content[..|content|] == content;
  }

  lemma NoOwnRows(t: Translator, parent: Option<RowDict>, hash: Json, rows: seq<Row>)
    requires (t.VDict? || t.ListTranslator?) && forall row | row in rows :: row.table != t.table
    ensures RefersToParent(t, parent, rows) && BearsId(t, hash, rows) && EndsWith(t, [], rows)
  {}

  lemma OwnRowAdded(t: Translator, own: Row, rows: seq<Row>, parent: Option<RowDict>, hash: Json)
    requires (t.VDict? || t.ListTranslator?) && own.table == t.table && |own.cells| == |OwnColumns(t)|
    requires IsByParent(t) ==> t.link.key in parent.GetOr(map[]) && StartsWith(own, parent.GetOr(map[])[t.link.key])
    requires IsById(t) ==> StartsWith(own, hash)
    requires AllFit(t, rows) && RefersToParent(t, parent, rows) && BearsId(t, hash, rows)
    ensures AllFit(t, rows + [own]) && RefersToParent(t, parent, rows + [own]) && BearsId(t, hash, rows + [own])
  {
    hide Fits, OwnColumns, StartsWith;
    FitsOwn(t, own);
  }

  lemma EndsWithMore(t: Translator, content: seq<seq<Json>>, i: nat, rows: seq<Row>, own: Row)
    requires (t.VDict? || t.ListTranslator?) && i < |content| && EndsWith(t, content[..i], rows)
    requires IsRowOf(t, content[i], own)
    ensures EndsWith(t, content[..i + 1], rows + [own])
  {
    hide IsRowOf;
    var rows', content' := rows + [own], content[..i + 1];
    forall j | 0 <= j < i + 1
      ensures IsRowOf(t, content'[j], rows'[|rows'| - |content'| + j])
    {
      if j < i {
        assert IsRowOf(t, content[..i][j], rows[|rows| - |content[..i]| + j]);
      }
    }
  }

  lemma NestedFit(t: Translator, nested: seq<Row>)
    requires (t.VDict? || t.ListTranslator?) && DistinctTables(t) && AllFit(t.sub, nested)
    ensures AllFit(t, nested) && forall row | row in nested :: row.table != t.table
  {
    hide Fits;
    assert Subtranslators(t)[0] == t.sub;
    forall row | row in nested
      ensures Fits(t, row) && row.table != t.table
    {
      FitsWithin(t, 0, row);
    }
  }

  lemma SubIsPart(t: Translator)
    requires (t.VDict? || t.ListTranslator?) && WellFormed(t) && DistinctTables(t)
    ensures WellFormed(t.sub) && DistinctTables(t.sub) && t.sub < t
    ensures t.sub.ValueTranslator? || IsByParent(t.sub) || IsById(t.sub)
    ensures ProperIds(t) ==> ProperIds(t.sub)
  {
    assert Subtranslators(t)[0] == t.sub;
  }

  /** One row for each member: its key and its value, or the id of what it contains. */
  ghost predicate IsVdictContent(t: Translator, obj: Json, content: seq<seq<Json>>)
    requires t.VDict?
  {
    && obj.Object? && |content| <= |obj.members|
    && forall i | 0 <= i < |content| ::
         && |content[i]| == |OwnColumns(t)| - |LinkColumns(t.link)|
         && content[i][0] == Text(obj.members[i].0)
         && (t.sub.ValueTranslator? ==> content[i][1] == t.sub.extract(obj.members[i].1))
  }

  /** What a value becomes behind the link, and behind the key, and in rows of its own. */
  ghost predicate IsContent(s: Schema, value: Json, sub: Translator, link: Json, cells: seq<Json>, part: seq<Row>) {
    if sub.ValueTranslator? then part == [] && cells == [sub.extract(value)]
    else if value == Null then part == [] && cells == if IsById(sub) then [EMPTY_HASH] else []
    else
      exists hash :: cells == (if IsById(sub) then [hash] else []) && IsConverted(s, value, sub, link, part, hash)
  }

  lemma ExtractedContent(s: Schema, value: Json, sub: Translator, link: Json)
    requires sub.ValueTranslator?
    ensures IsContent(s, value, sub, link, [sub.extract(value)], [])
  {}

  lemma NothingContained(s: Schema, sub: Translator, link: Json)
    requires !sub.ValueTranslator?
    ensures IsContent(s, Null, sub, link, if IsById(sub) then [EMPTY_HASH] else [], [])
  {}

  lemma NestedContent(s: Schema, value: Json, sub: Translator, link: Json, part: seq<Row>, hash: Json)
    requires !sub.ValueTranslator? && value != Null && IsConverted(s, value, sub, link, part, hash)
    ensures IsContent(s, value, sub, link, if IsById(sub) then [hash] else [], part)
  {
    hide IsConverted;
  }

  lemma ContentIsEntry(s: Schema, value: Json, sub: Translator, link: Json, cells: seq<Json>, part: seq<Row>, own: Row,
                       col: string)
    requires IsContent(s, value, sub, link, cells, part) && (cells != [] ==> Cell(s, own, col, cells[0]))
    ensures IsEntry(s, value, sub, own, col, link, part)
  {
    hide IsConverted;
  }

  /** What Finish makes of the content. */
  ghost predicate IsFinished(t: Translator, obj: Json, link: Json, content: seq<seq<Json>>, nested: seq<Row>,
                             r: Converted)
    requires t.VDict? || t.ListTranslator?
  {
    && r.Rows? && r.rows == nested + Behind(t, FrontCells(t, link, r.hash), content)
    && if IsById(t) then r.hash == t.link.compute(obj, content) else r.hash == Null
  }

  function FrontCells(t: Translator, link: Json, hash: Json): seq<Json>
    requires !t.ValueTranslator?
  {
    match t.link
    case Unlinked => []
    case ById(_, _) => [hash]
    case ByParent(_, _) => [link]
  }

  lemma OwnBehind(s: Schema, t: Translator, link: Json, hash: Json, content: seq<seq<Json>>, i: nat)
    requires (t.VDict? || t.ListTranslator?) && InSchema(t, s) && i < |content|
    requires |content[i]| == |OwnColumns(t)| - |LinkColumns(t.link)|
    ensures var own := Behind(t, FrontCells(t, link, hash), content)[i];
            && IsOwn(s, t, link, hash, own) && Content(t, own) == content[i]
            && forall c | 0 <= c < |content[i]| :: Cell(s, own, OwnColumns(t)[|LinkColumns(t.link)| + c], content[i][c])
  {
    hide InSchema, Cell;
    var front := FrontCells(t, link, hash);
    var own := Behind(t, front, content)[i];
    OwnInSchema(t, s);
    if !t.link.Unlinked? {
      CellAt(s, own, 0);
    }
    forall c | 0 <= c < |content[i]|
      ensures Cell(s, own, OwnColumns(t)[|LinkColumns(t.link)| + c], content[i][c])
    {
      CellAt(s, own, |front| + c);
    }
  }

  lemma HashOfBehind(t: Translator, obj: Json, link: Json, hash: Json, content: seq<seq<Json>>)
    requires t.VDict? || t.ListTranslator?
    requires if IsById(t) then hash == t.link.compute(obj, content) else hash == Null
    ensures IsHash(t, obj, Behind(t, FrontCells(t, link, hash), content), hash)
  {
    var front := FrontCells(t, link, hash);
    var owns := Behind(t, front, content);
    forall i | 0 <= i < |content|
      ensures Content(t, owns[i]) == content[i]
    {
      assert (front + content[i])[|front|..] == content[i];
    }
    assert Contents(t, owns) == content;
  }

  lemma MembersConverted(s: Schema, obj: Json, t: Translator, link: Json, content: seq<seq<Json>>, nested: seq<Row>,
                         parts: seq<seq<Row>>, r: Converted)
    requires t.VDict? && InSchema(t, s) && obj.Object? && MembersDone(s, obj, t, content, nested, parts, |obj.members|)
    requires IsFinished(t, obj, link, content, nested, r)
    ensures IsConverted(s, obj, t, link, r.rows, r.hash)
  {
    hide InSchema, Cell, Concat, IsEntry, IsContent, IsHash, IsOwn;
    var owns := Behind(t, FrontCells(t, link, r.hash), content);
    HashOfBehind(t, obj, link, r.hash, content);
    forall i | 0 <= i < |parts|
      ensures var key := Text(obj.members[i].0);
              && IsOwn(s, t, link, r.hash, owns[i]) && Cell(s, owns[i], t.keyCol, key)
              && IsEntry(s, obj.members[i].1, t.sub, owns[i], t.valCol, LinkOf(map[t.keyCol := key], t.sub), parts[i])
    {
      OwnBehind(s, t, link, r.hash, content, i);
      var key := Text(obj.members[i].0);
      assert OwnColumns(t)[|LinkColumns(t.link)|] == t.keyCol && content[i][0] == key;
      if |content[i]| > 1 {
        assert OwnColumns(t)[|LinkColumns(t.link)| + 1] == t.valCol && content[i][1..][0] == content[i][1];
      }
      ContentIsEntry(s, obj.members[i].1, t.sub, LinkOf(map[t.keyCol := key], t.sub), content[i][1..], parts[i],
                     owns[i], t.valCol);
    }
    assert AreMembers(s, obj, t, link, r.rows, r.hash, owns, parts);
  }

  /** What has been made of the first members. */
  ghost predicate MembersDone(s: Schema, obj: Json, t: Translator, content: seq<seq<Json>>, nested: seq<Row>,
                              parts: seq<seq<Row>>, n: nat)
    requires t.VDict?
  {
    && AllFit(t.sub, nested) && IsVdictContent(t, obj, content) && |content| == |parts| == n
    && nested == Concat(parts)
    && forall j | 0 <= j < n ::
         IsContent(s, obj.members[j].1, t.sub, LinkOf(map[t.keyCol := Text(obj.members[j].0)], t.sub), content[j][1..],
                   parts[j])
  }

  lemma NoMembers(s: Schema, obj: Json, t: Translator)
    requires t.VDict? && obj.Object?
    ensures MembersDone(s, obj, t, [], [], [], 0)
  {}

  lemma MembersDoneFacts(s: Schema, obj: Json, t: Translator, content: seq<seq<Json>>, nested: seq<Row>,
                         parts: seq<seq<Row>>, n: nat)
    requires t.VDict? && MembersDone(s, obj, t, content, nested, parts, n)
    ensures AllFit(t.sub, nested) && IsVdictContent(t, obj, content) && |content| == n && (n == 0 ==> nested == [])
    ensures forall cells | cells in content :: |cells| == |OwnColumns(t)| - |LinkColumns(t.link)|
  {}

  lemma OneMoreMember(s: Schema, obj: Json, t: Translator, content: seq<seq<Json>>, nested: seq<Row>,
                      parts: seq<seq<Row>>, i: nat, cells: seq<Json>, more: seq<Row>)
    requires t.VDict? && MembersDone(s, obj, t, content, nested, parts, i) && i < |obj.members|
    requires var key := Text(obj.members[i].0);
             IsContent(s, obj.members[i].1, t.sub, LinkOf(map[t.keyCol := key], t.sub), cells, more)
    requires AllFit(t.sub, more) && (t.sub.ValueTranslator? || IsByParent(t.sub) || IsById(t.sub))
    ensures MembersDone(s, obj, t, content + [[Text(obj.members[i].0)] + cells], nested + more, parts + [more], i + 1)
  {
    hide IsConverted, Concat, Fits;
    ConcatOneMore(parts, more);
    var row := [Text(obj.members[i].0)] + cells;
    assert row[1..] == cells;
    assert |cells| == if IsByParent(t.sub) then 0 else 1 by {
      ContentWidth(s, obj.members[i].1, t.sub, LinkOf(map[t.keyCol := Text(obj.members[i].0)], t.sub), cells, more);
    }
  }

  /** The cells of a value: none where its rows refer to this row by a key. */
  lemma ContentWidth(s: Schema, value: Json, sub: Translator, link: Json, cells: seq<Json>, part: seq<Row>)
    requires IsContent(s, value, sub, link, cells, part)
    ensures |cells| == if sub.ValueTranslator? || IsById(sub) then 1 else 0
  {
    hide IsConverted;
  }

  method ConvertVdict(t: Translator, obj: Json, parent: Option<RowDict>, ghost s: Schema) returns (r: Converted)
    requires t.VDict? && WellFormed(t) && DistinctTables(t) && InSchema(t, s)
    ensures r.Rows? ==> IsConverted(s, obj, t, LinkOf(parent.GetOr(map[]), t), r.rows, r.hash)
    ensures r.Rows? && IsByParent(t) && r.rows != [] ==> t.link.key in parent.GetOr(map[])
    ensures r.Rows? ==> AllFit(t, r.rows) && RefersToParent(t, parent, r.rows) && BearsId(t, r.hash, r.rows)
    ensures r.Rows? ==> exists content :: IsVdictContent(t, obj, content) && |content| == |obj.members|
                                          && EndsWith(t, content, r.rows)
    ensures !r.Nothing?
    ensures ProperIds(t) && Convertible(obj, t, parent.GetOr(map[]).Keys) ==>
              r.Rows? && (t.link.ById? ==> Truthy(r.hash))
    ensures r.Rows? ==> Convertible(obj, t, parent.GetOr(map[]).Keys)
    decreases t, 2
  {
    hide Fits, WellFormed, DistinctTables, ProperIds, EndsWith, IsConverted, InSchema, Concat, IsContent,
         IsFinished, MembersDone, IsVdictContent, LinkOf;
    if !obj.Object? {
      return Raised;
    }
    SubIsPart(t);
    PartInSchema(t, 0, s);
    var content: seq<seq<Json>>, nested: seq<Row> := [], [];
    ghost var parts: seq<seq<Row>> := [];
    NoMembers(s, obj, t);
    for i := 0 to |obj.members|
      invariant MembersDone(s, obj, t, content, nested, parts, i)
      invariant forall j | 0 <= j < i && !t.sub.ValueTranslator? && obj.members[j].1 != Null ::
                  Convertible(obj.members[j].1, t.sub, {t.keyCol})
    {
      var (k, v) := obj.members[i];
      ghost var link := LinkOf(map[t.keyCol := Text(k)], t.sub);
      if t.sub.ValueTranslator? {
        ExtractedContent(s, v, t.sub, link);
        OneMoreMember(s, obj, t, content, nested, parts, i, [t.sub.extract(v)], []);
        assert [Text(k)] + [t.sub.extract(v)] == [Text(k), t.sub.extract(v)] && nested + [] == nested;
        content, parts := content + [[Text(k), t.sub.extract(v)]], parts + [[]];
      } else {
        var hash, more := EMPTY_HASH, [];
        if v != Null {
          assert obj.members[i].1 == v && map[t.keyCol := Text(k)].Keys == {t.keyCol};
          var converted := Convert(v, t.sub, Some(map[t.keyCol := Text(k)]), s);
          if !converted.Rows? {
            return Raised;
          }
          more, hash := converted.rows, converted.hash;
          NestedContent(s, v, t.sub, link, more, hash);
        } else {
          NothingContained(s, t.sub, link);
        }
        OneMoreMember(s, obj, t, content, nested, parts, i, if IsById(t.sub) then [hash] else [], more);
        assert [Text(k)] + [hash] == [Text(k), hash] && [Text(k)] + [] == [Text(k)];
        nested, parts := nested + more, parts + [more];
        content := content + [if IsById(t.sub) then [Text(k), hash] else [Text(k)]];
      }
    }
    MembersDoneFacts(s, obj, t, content, nested, parts, |obj.members|);
    r := Finish(t, obj, content, nested, parent);
    if r.Rows? {
      MembersConverted(s, obj, t, LinkOf(parent.GetOr(map[]), t), content, nested, parts, r);
    }
  }

  /** The rows of a VDICT or LIST; a key that is missing matters only if there are rows, or might have been. */
  method Finish(t: Translator, obj: Json, content: seq<seq<Json>>, nested: seq<Row>, parent: Option<RowDict>)
    returns (r: Converted)
    requires (t.VDict? || t.ListTranslator?) && DistinctTables(t) && AllFit(t.sub, nested)
    requires forall cells | cells in content :: |cells| == |OwnColumns(t)| - |LinkColumns(t.link)|
    ensures r.Rows? ==> AllFit(t, r.rows) && RefersToParent(t, parent, r.rows) && BearsId(t, r.hash, r.rows)
    ensures r.Rows? ==> EndsWith(t, content, r.rows)
    ensures r.Rows? ==> IsFinished(t, obj, LinkOf(parent.GetOr(map[]), t), content, nested, r)
    ensures r.Rows? && content == [] ==> r.rows == nested
    ensures !r.Nothing?
    ensures ProperIds(t) && (t.sub.ValueTranslator? || content != [] ==> KeyIsThere(t, parent.GetOr(map[]).Keys)) ==>
              r.Rows? && (t.link.ById? ==> Truthy(r.hash))
    ensures r.Rows? && (t.sub.ValueTranslator? || content != []) ==> KeyIsThere(t, parent.GetOr(map[]).Keys)
  {
    hide Fits, DistinctTables, ProperIds, AllFit;
    if t.link.ByParent? && !t.sub.ValueTranslator? && |content| == 0 {
      NestedFit(t, nested);
      return Rows(nested, Null);
    }
    var link := LinkCells(t, obj, content, parent);
    if link == None {
      return Raised;
    }
    var rows := OwnRows(t, link.value.0, content, nested, parent, link.value.1);
    r := Rows(rows, link.value.1);
  }

  /** One row for each element: its value, or the id of what it contains. */
  ghost predicate IsListContent(t: Translator, obj: Json, content: seq<seq<Json>>)
    requires t.ListTranslator?
  {
    && obj.Array? && |content| <= |obj.elements|
    && forall i | 0 <= i < |content| ::
         |content[i]| == 1 && (t.sub.ValueTranslator? ==> content[i][0] == t.sub.extract(obj.elements[i]))
  }

  lemma ElementsConverted(s: Schema, obj: Json, t: Translator, link: Json, last: Json, content: seq<seq<Json>>,
                          nested: seq<Row>, parts: seq<seq<Row>>, r: Converted)
    requires t.ListTranslator? && InSchema(t, s) && obj.Array?
    requires t.sub.ValueTranslator? || IsById(t.sub) || obj.elements == []
    requires ElementsDone(s, obj, t, content, nested, parts, |obj.elements|)
    requires IsFinished(t, last, link, content, nested, r)
    requires last == if t.sub.ValueTranslator? || obj.elements == [] then obj else obj.elements[|obj.elements| - 1]
    ensures IsConverted(s, obj, t, link, r.rows, r.hash)
  {
    hide InSchema, Cell, Concat, IsEntry, IsContent, IsHash, IsOwn;
    var owns := Behind(t, FrontCells(t, link, r.hash), content);
    HashOfBehind(t, last, link, r.hash, content);
    forall i | 0 <= i < |parts|
      ensures IsOwn(s, t, link, r.hash, owns[i])
      ensures IsEntry(s, obj.elements[i], t.sub, owns[i], t.valCol, Null, parts[i])
    {
      OwnBehind(s, t, link, r.hash, content, i);
      assert OwnColumns(t)[|LinkColumns(t.link)|] == t.valCol;
      ContentIsEntry(s, obj.elements[i], t.sub, Null, content[i], parts[i], owns[i], t.valCol);
    }
    assert AreElements(s, obj, t, link, r.rows, r.hash, owns, parts);
  }

  /** What has been made of the first elements. */
  ghost predicate ElementsDone(s: Schema, obj: Json, t: Translator, content: seq<seq<Json>>, nested: seq<Row>,
                               parts: seq<seq<Row>>, n: nat)
    requires t.ListTranslator?
  {
    && AllFit(t.sub, nested) && IsListContent(t, obj, content) && |content| == |parts| == n
    && nested == Concat(parts)
    && forall j | 0 <= j < n :: IsContent(s, obj.elements[j], t.sub, Null, content[j], parts[j])
  }

  lemma NoElements(s: Schema, obj: Json, t: Translator)
    requires t.ListTranslator? && obj.Array?
    ensures ElementsDone(s, obj, t, [], [], [], 0)
  {}

  lemma ElementsDoneFacts(s: Schema, obj: Json, t: Translator, content: seq<seq<Json>>, nested: seq<Row>,
                          parts: seq<seq<Row>>, n: nat)
    requires t.ListTranslator? && ElementsDone(s, obj, t, content, nested, parts, n)
    ensures AllFit(t.sub, nested) && IsListContent(t, obj, content) && |content| == n && (n == 0 ==> nested == [])
    ensures forall cells | cells in content :: |cells| == |OwnColumns(t)| - |LinkColumns(t.link)|
  {}

  lemma OneMoreElement(s: Schema, obj: Json, t: Translator, content: seq<seq<Json>>, nested: seq<Row>,
                       parts: seq<seq<Row>>, i: nat, cell: Json, more: seq<Row>)
    requires t.ListTranslator? && ElementsDone(s, obj, t, content, nested, parts, i) && i < |obj.elements|
    requires IsContent(s, obj.elements[i], t.sub, Null, [cell], more) && AllFit(t.sub, more)
    ensures ElementsDone(s, obj, t, content + [[cell]], nested + more, parts + [more], i + 1)
  {
    hide IsConverted, Concat, Fits;
    ConcatOneMore(parts, more);
  }

  method ConvertList(t: Translator, obj: Json, parent: Option<RowDict>, ghost s: Schema) returns (r: Converted)
    requires t.ListTranslator? && WellFormed(t) && DistinctTables(t) && InSchema(t, s)
    ensures r.Rows? ==> IsConverted(s, obj, t, LinkOf(parent.GetOr(map[]), t), r.rows, r.hash)
    ensures r.Rows? && IsByParent(t) && r.rows != [] ==> t.link.key in parent.GetOr(map[])
    ensures r.Rows? ==> AllFit(t, r.rows) && RefersToParent(t, parent, r.rows) && BearsId(t, r.hash, r.rows)
    ensures r.Rows? ==> exists content :: IsListContent(t, obj, content) && |content| == |obj.elements|
                                          && EndsWith(t, content, r.rows)
    ensures !r.Nothing?
    ensures ProperIds(t) && Convertible(obj, t, parent.GetOr(map[]).Keys) ==>
              r.Rows? && (t.link.ById? ==> Truthy(r.hash))
    ensures r.Rows? ==> Convertible(obj, t, parent.GetOr(map[]).Keys)
    decreases t, 2
  {
    hide Fits, WellFormed, DistinctTables, ProperIds, EndsWith, IsConverted, InSchema, Concat, IsContent,
         IsFinished, ElementsDone, IsListContent, AllFit, RefersToParent, BearsId;
    if !obj.Array? {
      return Raised;
    }
    SubIsPart(t);
    PartInSchema(t, 0, s);
    var content: seq<seq<Json>>, nested: seq<Row> := [], [];
    ghost var parts: seq<seq<Row>> := [];
    NoElements(s, obj, t);
    var last := obj;
    for i := 0 to |obj.elements|
      invariant last == if t.sub.ValueTranslator? || i == 0 then obj else obj.elements[i - 1]
      invariant ElementsDone(s, obj, t, content, nested, parts, i)
      invariant !t.sub.ValueTranslator? && i > 0 ==> IsById(t.sub)
      invariant forall j | 0 <= j < i && !t.sub.ValueTranslator? && obj.elements[j] != Null ::
                  Convertible(obj.elements[j], t.sub, {}) && YieldsId(obj.elements[j], t.sub)
    {
      var o := obj.elements[i];
      if t.sub.ValueTranslator? {
        ExtractedContent(s, o, t.sub, Null);
        OneMoreElement(s, obj, t, content, nested, parts, i, t.sub.extract(o), []);
        assert nested + [] == nested;
        content, parts := content + [[t.sub.extract(o)]], parts + [[]];
      } else {
        last := o;
        var hash, more := if IsById(t.sub) then EMPTY_HASH else Null, [];
        if o != Null {
          var none: RowDict := map[];
          assert obj.elements[i] == o && none.Keys == {};
          var converted := Convert(o, t.sub, None, s);
          if !converted.Rows? {
            return Raised;
          }
          more, hash := converted.rows, converted.hash;
          NestedContent(s, o, t.sub, Null, more, hash);
        } else {
          NothingContained(s, t.sub, Null);
        }
        if !Truthy(hash) || !IsById(t.sub) {
          return Raised;
        }
        OneMoreElement(s, obj, t, content, nested, parts, i, hash, more);
        nested, content, parts := nested + more, content + [[hash]], parts + [more];
      }
    }
    ElementsDoneFacts(s, obj, t, content, nested, parts, |obj.elements|);
    if !t.sub.ValueTranslator? && IsById(t) && |obj.elements| == 0 {
      return Raised;
    }
    r := Finish(t, last, content, nested, parent);
    if r.Rows? {
      ElementsConverted(s, obj, t, LinkOf(parent.GetOr(map[]), t), last, content, nested, parts, r);
    }
  }

  /**
   Rows for an object: each of a declared table, with a cell for each of its columns, and linked to the
   row it is nested in. With proper ids it raises exactly if the data do not have the expected shape.
   */
  method Convert(obj: Json, t: Translator, parent: Option<RowDict>, ghost s: Schema) returns (r: Converted)
    requires WellFormed(t) && DistinctTables(t) && InSchema(t, s)
    ensures r.Rows? ==> IsConverted(s, obj, t, LinkOf(parent.GetOr(map[]), t), r.rows, r.hash)
    ensures r.Rows? && IsByParent(t) && r.rows != [] ==> t.link.key in parent.GetOr(map[])
    ensures r.Rows? ==> AllFit(t, r.rows) && RefersToParent(t, parent, r.rows) && BearsId(t, r.hash, r.rows)
    ensures r.Nothing? <==> obj == Null
    ensures ProperIds(t) && obj != Null ==> (r.Rows? <==> Convertible(obj, t, parent.GetOr(map[]).Keys))
    ensures r.Rows? ==> Convertible(obj, t, parent.GetOr(map[]).Keys)
    ensures r.Rows? && IsById(t) && Truthy(r.hash) ==> YieldsId(obj, t)
    ensures ProperIds(t) && r.Rows? && IsById(t) && YieldsId(obj, t) ==> Truthy(r.hash)
    decreases t, 3
  {
    hide Fits, WellFormed, DistinctTables, ProperIds, IsConverted, InSchema;
    if obj == Null {
      return Nothing;
    }
    match t {
      case HDict(_, _, _, _) => r := ConvertHdict(t, obj, parent, s);
      case VDict(_, _, _, _, _) => r := ConvertVdict(t, obj, parent, s);
      case ListTranslator(_, _, _, _) => r := ConvertList(t, obj, parent, s);
      case ValueTranslator(_) => r := Raised;
    }
  }

  // ---------------------------------------------------------------------------
  // Data that are not converted

  /** A LIST of nested objects that computes an id of its own raises when it is empty. */
  lemma EmptyListRaises(t: Translator, keys: set<string>)
    requires t.ListTranslator? && IsById(t) && !t.sub.ValueTranslator?
    ensures !Convertible(Array([]), t, keys)
    ensures Convertible(Array([]), t.(link := Unlinked), keys)
  {}
}
