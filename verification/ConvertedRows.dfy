/** What rows an object is converted to: which rows there are, and what they have in the columns of the schema. */
module ConvertedRows {
  import opened Syntax
  import opened Translators

  type RowDict = map<string, Json>

  /** The hash of an empty list. */
  const EMPTY_HASH: Json := Text("d751713988987e9331980363e24189ce")

  function Lookup(members: seq<(string, Json)>, name: string): Json {
    if members == [] then Null
    else if members[|members| - 1].0 == name then members[|members| - 1].1
    else Lookup(members[..|members| - 1], name)
  }

  function GetValue(obj: Json, name: string): Json {
    if obj.Object? then Lookup(obj.members, name) else Null
  }

  /** What rows of the translator's own table have in the column that links them to the row around them. */
  function LinkOf(parent: RowDict, t: Translator): Json {
    if IsByParent(t) && t.link.key in parent then parent[t.link.key] else Null
  }

  /** The tables of the translator have these columns in the schema. */
  ghost predicate InSchema(t: Translator, s: Schema) {
    forall table, columns | Declares(t, table, columns) :: table in s && s[table] == columns
  }

  /** The row has a cell for each column of its table, and this value in the column of that name. */
  ghost predicate Cell(s: Schema, row: Row, name: string, value: Json) {
    && row.table in s && |row.cells| == |s[row.table]|
    && exists c :: 0 <= c < |row.cells| && s[row.table][c] == name && row.cells[c] == value
  }

  /** A row of the translator's own table, with its id or the value that links it to the row around it. */
  ghost predicate IsOwn(s: Schema, t: Translator, link: Json, hash: Json, row: Row)
    requires !t.ValueTranslator?
  {
    && row.table == t.table && row.table in s && |row.cells| == |s[row.table]|
    && (t.link.ById? ==> Cell(s, row, t.link.column, hash))
    && (t.link.ByParent? ==> Cell(s, row, t.link.column, link))
  }

  /** The row without its id or link. */
  function Content(t: Translator, row: Row): seq<Json>
    requires !t.ValueTranslator?
  {
    if t.link.Unlinked? || row.cells == [] then row.cells else row.cells[1..]
  }

  function Contents(t: Translator, rows: seq<Row>): seq<seq<Json>>
    requires !t.ValueTranslator?
  {
    seq(|rows|, i requires 0 <= i < |rows| => Content(t, rows[i]))
  }

  /** The id is computed from the object and the rows; without an id there is none. */
  ghost predicate IsHash(t: Translator, obj: Json, rows: seq<Row>, hash: Json)
    requires !t.ValueTranslator?
  {
    if t.link.ById? then hash == t.link.compute(obj, Contents(t, rows)) else hash == Null
  }

  function Concat(parts: seq<seq<Row>>): seq<Row> {
    if parts == [] then [] else Concat(parts[..|parts| - 1]) + parts[|parts| - 1]
  }

  /** The rows are the own rows and the nested ones, in whatever order. */
  ghost predicate Consists(rows: seq<Row>, owns: seq<Row>, parts: seq<seq<Row>>) {
    multiset(rows) == multiset(owns) + multiset(Concat(parts))
  }

  /**
   What a value becomes in a row and in rows of its own: extracted it is in the column; an object has rows,
   and if these have an id, that is in the column.
   */
  ghost predicate IsEntry(s: Schema, value: Json, sub: Translator, own: Row, col: string, link: Json, part: seq<Row>)
    decreases sub, 5
  {
    if sub.ValueTranslator? then part == [] && Cell(s, own, col, sub.extract(value))
    else if value == Null then part == [] && (IsById(sub) ==> Cell(s, own, col, EMPTY_HASH))
    else exists hash :: (IsById(sub) ==> Cell(s, own, col, hash)) && IsConverted(s, value, sub, link, part, hash)
  }

  /** A field of an object; rows that refer to the object's row have what that has in the column of the key. */
  ghost predicate IsField(s: Schema, obj: Json, t: Translator, i: nat, own: Row, part: seq<Row>)
    requires t.HDict? && i < |t.fields|
    decreases t, 0
  {
    var field := t.fields[i];
    assert field.translator == Subtranslators(t)[i];
    exists link ::
      && (if !IsByParent(field.translator) then link == Null
          else part != [] ==> Cell(s, own, field.translator.link.key, link))
      && IsEntry(s, GetValue(obj, field.name), field.translator, own, field.col, link, part)
  }

  /** One object of an HDICT: its own row, and the rows of each of its fields. */
  ghost predicate AreFields(s: Schema, obj: Json, t: Translator, link: Json, rows: seq<Row>, hash: Json, own: Row,
                            parts: seq<seq<Row>>)
    requires t.HDict?
    decreases t, 1
  {
    && |parts| == |t.fields| && Consists(rows, [own], parts)
    && IsOwn(s, t, link, hash, own) && IsHash(t, obj, [own], hash)
    && forall i | 0 <= i < |parts| :: IsField(s, obj, t, i, own, parts[i])
  }

  ghost predicate IsObject(s: Schema, obj: Json, t: Translator, link: Json, rows: seq<Row>, hash: Json)
    requires t.HDict?
    decreases t, 2
  {
    exists own, parts :: AreFields(s, obj, t, link, rows, hash, own, parts)
  }

  /** The elements of a list of objects; the last one's id counts. */
  ghost predicate AreObjects(s: Schema, obj: Json, t: Translator, link: Json, rows: seq<Row>, hash: Json,
                             hashes: seq<Json>, parts: seq<seq<Row>>)
    requires t.HDict?
    decreases t, 3
  {
    && obj.Array? && |parts| == |hashes| == |obj.elements| && Consists(rows, [], parts)
    && hash == (if hashes == [] then Null else hashes[|hashes| - 1])
    && forall i | 0 <= i < |parts| :: IsObject(s, obj.elements[i], t, link, parts[i], hashes[i])
  }

  /** One row for each member of a VDICT, with its key, and what its value becomes. */
  ghost predicate AreMembers(s: Schema, obj: Json, t: Translator, link: Json, rows: seq<Row>, hash: Json,
                             owns: seq<Row>, parts: seq<seq<Row>>)
    requires t.VDict?
    decreases t, 3
  {
    && obj.Object? && |parts| == |owns| == |obj.members| && Consists(rows, owns, parts) && IsHash(t, obj, owns, hash)
    && forall i | 0 <= i < |parts| ::
         var key := Text(obj.members[i].0);
         && IsOwn(s, t, link, hash, owns[i]) && Cell(s, owns[i], t.keyCol, key)
         && IsEntry(s, obj.members[i].1, t.sub, owns[i], t.valCol, LinkOf(map[t.keyCol := key], t.sub), parts[i])
  }

  /** One row for each element of a LIST, and what its value becomes. */
  ghost predicate AreElements(s: Schema, obj: Json, t: Translator, link: Json, rows: seq<Row>, hash: Json,
                              owns: seq<Row>, parts: seq<seq<Row>>)
    requires t.ListTranslator?
    decreases t, 3
  {
    && obj.Array? && |parts| == |owns| == |obj.elements| && Consists(rows, owns, parts)
    && (t.sub.ValueTranslator? || IsById(t.sub) || obj.elements == [])
    && (t.sub.ValueTranslator? || obj.elements == [] || IsHash(t, obj.elements[|obj.elements| - 1], owns, hash))
    && (t.sub.ValueTranslator? || obj.elements == [] ==> IsHash(t, obj, owns, hash))
    && forall i | 0 <= i < |parts| ::
         && IsOwn(s, t, link, hash, owns[i])
         && IsEntry(s, obj.elements[i], t.sub, owns[i], t.valCol, Null, parts[i])
  }

  /** The rows, and the id, that the object is converted to. */
  ghost predicate IsConverted(s: Schema, obj: Json, t: Translator, link: Json, rows: seq<Row>, hash: Json)
    decreases t, 4
  {
    match t
    case ValueTranslator(_) => false
    case HDict(_, _, inList, _) =>
      if !inList then IsObject(s, obj, t, link, rows, hash)
      else exists hashes, parts :: AreObjects(s, obj, t, link, rows, hash, hashes, parts)
    case VDict(_, _, _, _, _) => exists owns, parts :: AreMembers(s, obj, t, link, rows, hash, owns, parts)
    case ListTranslator(_, _, _, _) => exists owns, parts :: AreElements(s, obj, t, link, rows, hash, owns, parts)
  }

  // ---------------------------------------------------------------------------
  // An example: fields that are lists of values

  lemma {:induction false} InConcat(parts: seq<seq<Row>>, i: nat, row: Row)
    requires i < |parts| && row in parts[i]
    ensures row in Concat(parts)
    decreases |parts|
  {
    if i < |parts| - 1 {
      assert parts[..|parts| - 1][i] == parts[i];
      InConcat(parts[..|parts| - 1], i, row);
    }
  }

  lemma IsThere(rows: seq<Row>, owns: seq<Row>, parts: seq<seq<Row>>, row: Row)
    requires Consists(rows, owns, parts) && (row in owns || row in Concat(parts))
    ensures row in rows
  {
    assert row in multiset(owns) + multiset(Concat(parts));
    assert row in multiset(rows);
  }

  /** The two rows have the same value in these columns. */
  ghost predicate Linked(s: Schema, own: Row, col: string, row: Row, col': string) {
    exists value :: Cell(s, own, col, value) && Cell(s, row, col', value)
  }

  lemma EntryHash(s: Schema, value: Json, sub: Translator, own: Row, col: string, link: Json, part: seq<Row>)
    returns (hash: Json)
    requires IsEntry(s, value, sub, own, col, link, part) && !sub.ValueTranslator? && value != Null
    ensures (IsById(sub) ==> Cell(s, own, col, hash)) && IsConverted(s, value, sub, link, part, hash)
  {
    hash :| (IsById(sub) ==> Cell(s, own, col, hash)) && IsConverted(s, value, sub, link, part, hash);
  }

  lemma ElementsOf(s: Schema, obj: Json, t: Translator, link: Json, rows: seq<Row>, hash: Json)
    returns (owns: seq<Row>, parts: seq<seq<Row>>)
    requires t.ListTranslator? && IsConverted(s, obj, t, link, rows, hash)
    ensures AreElements(s, obj, t, link, rows, hash, owns, parts)
  {
    owns, parts :| AreElements(s, obj, t, link, rows, hash, owns, parts);
  }

  /**
   Where a field of an object is a list of values there is a row for each of them, with the value in its column, and
   linked to the row of the object by key or by id.
   */
  lemma ListedValuesHaveRows(s: Schema, obj: Json, t: Translator, link: Json, rows: seq<Row>, hash: Json, i: nat,
                             j: nat)
    returns (own: Row, row: Row)
    requires t.HDict? && IsObject(s, obj, t, link, rows, hash) && i < |t.fields|
    requires t.fields[i].translator.ListTranslator? && t.fields[i].translator.sub.ValueTranslator?
    requires GetValue(obj, t.fields[i].name).Array? && j < |GetValue(obj, t.fields[i].name).elements|
    ensures own in rows && own.table == t.table && row in rows && row.table == t.fields[i].translator.table
    ensures var sub := t.fields[i].translator;
            && Cell(s, row, sub.valCol, sub.sub.extract(GetValue(obj, t.fields[i].name).elements[j]))
            && (IsByParent(sub) ==> Linked(s, own, sub.link.key, row, sub.link.column))
            && (IsById(sub) ==> Linked(s, own, t.fields[i].col, row, sub.link.column))
  {
    hide Cell, Concat;
    var parts;
    own, parts :| AreFields(s, obj, t, link, rows, hash, own, parts);
    var sub, value := t.fields[i].translator, GetValue(obj, t.fields[i].name);
    IsThere(rows, [own], parts, own);
    assert IsField(s, obj, t, i, own, parts[i]);
    var l :| (if !IsByParent(sub) then l == Null else parts[i] != [] ==> Cell(s, own, sub.link.key, l))
             && IsEntry(s, value, sub, own, t.fields[i].col, l, parts[i]);
    var h := EntryHash(s, value, sub, own, t.fields[i].col, l, parts[i]);
    var owns, nested := ElementsOf(s, value, sub, l, parts[i], h);
    row := owns[j];
    IsThere(parts[i], owns, nested, row);
    InConcat(parts, i, row);
    IsThere(rows, [own], parts, row);
    assert IsOwn(s, sub, l, h, row) && IsEntry(s, value.elements[j], sub.sub, row, sub.valCol, Null, nested[j]);
  }

  // ---------------------------------------------------------------------------
  // The schema

  /** A schema that has been extended by the translator has its tables, those of nested translators too. */
  lemma ExtendedHasTables(t: Translator, schema: Schema, extended: Schema)
    requires Extends(t, schema, extended)
    ensures InSchema(t, extended) && DistinctTables(t)
  {}

  lemma OwnInSchema(t: Translator, s: Schema)
    requires InSchema(t, s) && !t.ValueTranslator?
    ensures t.table in s && s[t.table] == OwnColumns(t)
  {
    assert Declares(t, t.table, OwnColumns(t));
  }

  lemma PartInSchema(t: Translator, i: nat, s: Schema)
    requires InSchema(t, s) && i < |Subtranslators(t)|
    ensures InSchema(Subtranslators(t)[i], s)
  {
    forall table, columns | Declares(Subtranslators(t)[i], table, columns)
      ensures table in s && s[table] == columns
    {
      assert Declares(t, table, columns);
    }
  }

  /** The column of the id or the link, where there is one. */
  function LinkNames(t: Translator): multiset<string>
    requires !t.ValueTranslator?
  {
    match t.link
    case Unlinked => multiset{}
    case ById(column, _) => multiset{column}
    case ByParent(_, column) => multiset{column}
  }

  /** The columns of a VDICT: link, key, and value unless the rows of the values refer to this one. */
  lemma VdictColumns(t: Translator, s: Schema)
    requires t.VDict? && InSchema(t, s)
    ensures t.table in s
    ensures multiset(s[t.table]) ==
              LinkNames(t) + multiset{t.keyCol} + if IsByParent(t.sub) then multiset{} else multiset{t.valCol}
  {
    OwnInSchema(t, s);
  }

  /** The columns of a LIST: link and value. */
  lemma ListColumns(t: Translator, s: Schema)
    requires t.ListTranslator? && InSchema(t, s)
    ensures t.table in s && multiset(s[t.table]) == LinkNames(t) + multiset{t.valCol}
  {
    OwnInSchema(t, s);
  }

  /** The columns of an HDICT: link, and each field whose rows do not refer to this one, in the order of the fields. */
  lemma HdictColumns(t: Translator, s: Schema, i: nat)
    requires t.HDict? && InSchema(t, s) && i < |t.fields| && !IsByParent(t.fields[i].translator)
    ensures t.table in s
    ensures var before := |set j | 0 <= j < i && !IsByParent(t.fields[j].translator)|;
            var c := before + if t.link.Unlinked? then 0 else 1;
            c < |s[t.table]| && s[t.table][c] == t.fields[i].col
    ensures |s[t.table]| ==
              |LinkNames(t)| + |set j | 0 <= j < |t.fields| && !IsByParent(t.fields[j].translator)|
    ensures !t.link.Unlinked? ==> s[t.table][0] == t.link.column
  {
    OwnInSchema(t, s);
    FieldColumnAt(t.fields, i, |t.fields|);
    assert t.fields[..|t.fields|] == t.fields;
  }

  lemma {:induction false} FieldColumnAt(fields: seq<Field>, i: nat, n: nat)
    requires i < n <= |fields| && !IsByParent(fields[i].translator)
    ensures |FieldColumns(fields[..n])| == |set j | 0 <= j < n && !IsByParent(fields[j].translator)|
    ensures var c := |set j | 0 <= j < i && !IsByParent(fields[j].translator)|;
            c < |FieldColumns(fields[..n])| && FieldColumns(fields[..n])[c] == fields[i].col
    decreases n
  {
    assert fields[..n][..n - 1] == fields[..n - 1];
    FieldCount(fields, n);
    FieldCount(fields, n - 1);
    if i < n - 1 {
      FieldColumnAt(fields, i, n - 1);
    }
  }

  lemma {:induction false} FieldCount(fields: seq<Field>, n: nat)
    requires n <= |fields|
    ensures |FieldColumns(fields[..n])| == |set j | 0 <= j < n && !IsByParent(fields[j].translator)|
    decreases n
  {
    var here := set j | 0 <= j < n && !IsByParent(fields[j].translator);
    if n == 0 {
      assert here == {};
    } else {
      var before := set j | 0 <= j < n - 1 && !IsByParent(fields[j].translator);
      FieldCount(fields, n - 1);
      assert fields[..n][..n - 1] == fields[..n - 1];
      assert here == if IsByParent(fields[n - 1].translator) then before else before + {n - 1};
    }
  }

  /** Where columns have different names a row has one value in a column. */
  lemma CellIsUnique(s: Schema, row: Row, name: string, value: Json, value': Json)
    requires Cell(s, row, name, value) && Cell(s, row, name, value')
    requires forall i, j | 0 <= i < j < |s[row.table]| :: s[row.table][i] != s[row.table][j]
    ensures value == value'
  {}

  // ---------------------------------------------------------------------------
  // Putting rows together

  lemma {:induction false} ConcatUpdate(parts: seq<seq<Row>>, i: nat, part: seq<Row>)
    requires i < |parts| && parts[i] == []
    ensures multiset(Concat(parts[i := part])) == multiset(Concat(parts)) + multiset(part)
    decreases |parts|
  {
    var n := |parts| - 1;
    if i == n {
      assert parts[i := part][..n] == parts[..n];
    } else {
      assert parts[i := part][..n] == parts[..n][i := part];
      ConcatUpdate(parts[..n], i, part);
    }
  }

  lemma ConcatEmpty()
    ensures Concat([]) == []
  {}

  lemma ConcatOneMore(parts: seq<seq<Row>>, part: seq<Row>)
    ensures Concat(parts + [part]) == Concat(parts) + part
  {
    assert (parts + [part])[..|parts|] == parts;
  }

  lemma {:induction false} ConcatNothing(n: nat)
    ensures Concat(seq(n, i => [])) == []
    decreases n
  {
    if n > 0 {
      var parts: seq<seq<Row>> := seq(n, i => []);
      assert parts[..n - 1] == seq(n - 1, i => []);
      ConcatNothing(n - 1);
    }
  }
}
