/** An object is converted to one id, and to one collection of rows: the columns of the schema determine them. */
module DeterminedRows {
  import opened Syntax
  import opened Translators
  import opened ConvertedRows

  /** No table has two columns of one name. */
  ghost predicate DistinctColumns(t: Translator)
    decreases t
  {
    && (!t.ValueTranslator? ==> forall i, j | 0 <= i < j < |OwnColumns(t)| :: OwnColumns(t)[i] != OwnColumns(t)[j])
    && forall i | 0 <= i < |Subtranslators(t)| :: DistinctColumns(Subtranslators(t)[i])
  }

  // ---------------------------------------------------------------------------
  // Rows with the same values in their columns

  lemma CellAtColumn(s: Schema, row: Row, c: nat, value: Json)
    requires row.table in s && c < |s[row.table]| && Cell(s, row, s[row.table][c], value)
    requires forall i, j | 0 <= i < j < |s[row.table]| :: s[row.table][i] != s[row.table][j]
    ensures c < |row.cells| && row.cells[c] == value
  {}

  /** Both are rows of the table, with the same values in the columns from the given one on. */
  ghost predicate AgreeFrom(s: Schema, t: Translator, row: Row, row': Row, n: nat)
    requires !t.ValueTranslator?
  {
    && row.table == row'.table == t.table && |row.cells| == |row'.cells| == |OwnColumns(t)|
    && forall c | n <= c < |OwnColumns(t)| :: Linked(s, row, OwnColumns(t)[c], row', OwnColumns(t)[c])
  }

  lemma SameCell(s: Schema, t: Translator, row: Row, row': Row, n: nat, c: nat)
    requires InSchema(t, s) && DistinctColumns(t) && !t.ValueTranslator? && AgreeFrom(s, t, row, row', n)
    requires n <= c < |OwnColumns(t)|
    ensures row.cells[c] == row'.cells[c]
  {
    hide Cell, DistinctColumns, InSchema;
    OwnInSchema(t, s);
    OwnDistinct(t);
    var value :| Cell(s, row, OwnColumns(t)[c], value) && Cell(s, row', OwnColumns(t)[c], value);
    CellAtColumn(s, row, c, value);
    CellAtColumn(s, row', c, value);
  }

  lemma OwnDistinct(t: Translator)
    requires DistinctColumns(t) && !t.ValueTranslator?
    ensures forall i, j | 0 <= i < j < |OwnColumns(t)| :: OwnColumns(t)[i] != OwnColumns(t)[j]
  {}

  lemma PartDistinct(t: Translator, i: nat)
    requires DistinctColumns(t) && i < |Subtranslators(t)|
    ensures DistinctColumns(Subtranslators(t)[i])
  {}

  lemma SameContent(s: Schema, t: Translator, row: Row, row': Row)
    requires InSchema(t, s) && DistinctColumns(t) && !t.ValueTranslator?
    requires AgreeFrom(s, t, row, row', |LinkColumns(t.link)|)
    ensures Content(t, row) == Content(t, row')
  {
    hide InSchema, DistinctColumns, AgreeFrom;
    var n := |LinkColumns(t.link)|;
    assert |row.cells| == |row'.cells| == |OwnColumns(t)| by {
      AgreeWidth(s, t, row, row', n);
    }
    forall c | n <= c < |OwnColumns(t)|
      ensures row.cells[c] == row'.cells[c]
    {
      SameCell(s, t, row, row', n, c);
    }
    assert n == if t.link.Unlinked? then 0 else 1;
  }

  lemma AgreeWidth(s: Schema, t: Translator, row: Row, row': Row, n: nat)
    requires !t.ValueTranslator? && AgreeFrom(s, t, row, row', n)
    ensures row.table == row'.table && |row.cells| == |row'.cells| == |OwnColumns(t)|
  {}

  lemma SameRow(s: Schema, t: Translator, row: Row, row': Row)
    requires InSchema(t, s) && DistinctColumns(t) && !t.ValueTranslator? && AgreeFrom(s, t, row, row', 0)
    ensures row == row'
  {
    hide InSchema, DistinctColumns, AgreeFrom;
    AgreeWidth(s, t, row, row', 0);
    forall c | 0 <= c < |OwnColumns(t)|
      ensures row.cells[c] == row'.cells[c]
    {
      SameCell(s, t, row, row', 0, c);
    }
  }

  /** With the same link, or the same id, rows that agree in their other columns are the same. */
  lemma SameOwn(s: Schema, t: Translator, link: Json, hash: Json, row: Row, row': Row)
    requires InSchema(t, s) && DistinctColumns(t) && !t.ValueTranslator?
    requires IsOwn(s, t, link, hash, row) && IsOwn(s, t, link, hash, row')
    requires AgreeFrom(s, t, row, row', |LinkColumns(t.link)|)
    ensures row == row'
  {
    hide InSchema, DistinctColumns, Cell;
    assert !t.link.Unlinked? ==> OwnColumns(t)[0] == t.link.column;
    SameRow(s, t, row, row');
  }

  lemma {:induction false} SameConcat(parts: seq<seq<Row>>, parts': seq<seq<Row>>)
    requires |parts| == |parts'| && forall i | 0 <= i < |parts| :: multiset(parts[i]) == multiset(parts'[i])
    ensures multiset(Concat(parts)) == multiset(Concat(parts'))
    decreases |parts|
  {
    if parts != [] {
      SameConcat(parts[..|parts| - 1], parts'[..|parts| - 1]);
    }
  }

  // ---------------------------------------------------------------------------
  // Whether there are rows does not depend on the link

  lemma ConcatOfNone()
    ensures Concat([]) == []
  {}

  lemma ObjectHasRow(s: Schema, obj: Json, t: Translator, link: Json, rows: seq<Row>, hash: Json)
    requires t.HDict? && IsObject(s, obj, t, link, rows, hash)
    ensures rows != []
  {
    var own, parts :| AreFields(s, obj, t, link, rows, hash, own, parts);
    assert own in multiset([own]) + multiset(Concat(parts));
    assert own in multiset(rows);
  }

  /** How many rows of its own the object has at least. */
  function OwnRows(obj: Json, t: Translator): nat {
    match t
    case ValueTranslator(_) => 0
    case HDict(_, _, inList, _) => if !inList then 1 else if obj.Array? then |obj.elements| else 0
    case VDict(_, _, _, _, _) => if obj.Object? then |obj.members| else 0
    case ListTranslator(_, _, _, _) => if obj.Array? then |obj.elements| else 0
  }

  lemma HasRows(s: Schema, obj: Json, t: Translator, link: Json, rows: seq<Row>, hash: Json)
    requires IsConverted(s, obj, t, link, rows, hash)
    ensures rows == [] <==> OwnRows(obj, t) == 0
    ensures IsByParent(t) ==> hash == Null
  {
    ConcatOfNone();
    match t {
      case HDict(_, _, inList, _) =>
        if !inList {
          ObjectHasRow(s, obj, t, link, rows, hash);
          ObjectHash(s, obj, t, link, rows, hash);
        } else {
          ListHasRows(s, obj, t, link, rows, hash);
        }
      case VDict(_, _, _, _, _) =>
        var owns, parts :| AreMembers(s, obj, t, link, rows, hash, owns, parts);
        OwnsAreThere(rows, owns, parts);
      case ListTranslator(_, _, _, _) =>
        var owns, parts :| AreElements(s, obj, t, link, rows, hash, owns, parts);
        OwnsAreThere(rows, owns, parts);
    }
  }

  lemma ObjectHash(s: Schema, obj: Json, t: Translator, link: Json, rows: seq<Row>, hash: Json)
    requires t.HDict? && IsObject(s, obj, t, link, rows, hash)
    ensures !IsById(t) ==> hash == Null
  {
    var own, parts :| AreFields(s, obj, t, link, rows, hash, own, parts);
  }

  lemma ListHasRows(s: Schema, obj: Json, t: Translator, link: Json, rows: seq<Row>, hash: Json)
    requires t.HDict? && t.inList && IsConverted(s, obj, t, link, rows, hash)
    ensures obj.Array? && (rows == [] <==> obj.elements == [])
    ensures !IsById(t) ==> hash == Null
  {
    hide IsObject, Concat;
    var hashes, parts :| AreObjects(s, obj, t, link, rows, hash, hashes, parts);
    ConcatOfNone();
    if obj.elements != [] {
      var n := |parts| - 1;
      ObjectHasRow(s, obj.elements[n], t, link, parts[n], hashes[n]);
      ObjectHash(s, obj.elements[n], t, link, parts[n], hashes[n]);
      InConcat(parts, n, parts[n][0]);
      IsThere(rows, [], parts, parts[n][0]);
    } else {
      NoMultiset(rows);
    }
  }

  lemma NoMultiset(rows: seq<Row>)
    ensures multiset(rows) == multiset{} ==> rows == []
  {
    if rows != [] {
      assert rows[0] in multiset(rows);
    }
  }

  lemma OwnsAreThere(rows: seq<Row>, owns: seq<Row>, parts: seq<seq<Row>>)
    requires Consists(rows, owns, parts) && |parts| == |owns|
    ensures rows == [] <==> owns == []
  {
    ConcatOfNone();
    NoMultiset(rows);
    if owns != [] {
      IsThere(rows, owns, parts, owns[0]);
    }
  }

  // ---------------------------------------------------------------------------
  // Determined

  /** What a value becomes in two rows is the same. */
  lemma {:induction false} EntryIsDetermined(s: Schema, value: Json, sub: Translator, col: string, own: Row, link: Json,
                                             part: seq<Row>, own': Row, link': Json, part': seq<Row>)
    requires InSchema(sub, s) && DistinctColumns(sub) && WellFormed(sub)
    requires link == link' || (IsByParent(sub) && (part == [] || part' == []))
    requires IsEntry(s, value, sub, own, col, link, part) && IsEntry(s, value, sub, own', col, link', part')
    ensures multiset(part) == multiset(part')
    ensures sub.ValueTranslator? || IsById(sub) ==> Linked(s, own, col, own', col)
    decreases sub, 4
  {
    hide Cell, InSchema, DistinctColumns, IsConverted;
    if !sub.ValueTranslator? && value != Null {
      var hash := EntryHash(s, value, sub, own, col, link, part);
      var hash' := EntryHash(s, value, sub, own', col, link', part');
      HasRows(s, value, sub, link, part, hash);
      HasRows(s, value, sub, link', part', hash');
      if link == link' {
        RowsAreDetermined(s, value, sub, link, part, hash, part', hash');
      }
    }
  }

  lemma FieldHasLink(s: Schema, obj: Json, t: Translator, i: nat, own: Row, part: seq<Row>) returns (link: Json)
    requires t.HDict? && i < |t.fields| && IsField(s, obj, t, i, own, part)
    ensures var f := t.fields[i];
            && (if !IsByParent(f.translator) then link == Null
                else part != [] ==> Cell(s, own, f.translator.link.key, link))
            && IsEntry(s, GetValue(obj, f.name), f.translator, own, f.col, link, part)
  {
    var f := t.fields[i];
    link :| (if !IsByParent(f.translator) then link == Null
             else part != [] ==> Cell(s, own, f.translator.link.key, link))
            && IsEntry(s, GetValue(obj, f.name), f.translator, own, f.col, link, part);
  }

  lemma {:induction false} ColumnIsField(fields: seq<Field>, c: nat) returns (i: nat)
    requires c < |FieldColumns(fields)|
    ensures i < |fields| && !IsByParent(fields[i].translator) && FieldColumns(fields)[c] == fields[i].col
    decreases |fields|
  {
    var n := |fields| - 1;
    if c < |FieldColumns(fields[..n])| {
      i := ColumnIsField(fields[..n], c);
    } else {
      i := n;
    }
  }

  /** A field with a column, in two rows for the same object. */
  lemma {:induction false} OwnFieldIsDetermined(s: Schema, obj: Json, t: Translator, i: nat, own: Row, part: seq<Row>,
                                                own': Row, part': seq<Row>)
    requires InSchema(t, s) && DistinctColumns(t) && t.HDict? && i < |t.fields| && WellFormed(t)
    requires !IsByParent(t.fields[i].translator)
    requires IsField(s, obj, t, i, own, part) && IsField(s, obj, t, i, own', part')
    ensures multiset(part) == multiset(part') && Linked(s, own, t.fields[i].col, own', t.fields[i].col)
    decreases t, 0
  {
    hide Cell, InSchema, DistinctColumns, IsEntry;
    var f := t.fields[i];
    assert Subtranslators(t)[i] == f.translator;
    PartInSchema(t, i, s);
    PartDistinct(t, i);
    var link := FieldHasLink(s, obj, t, i, own, part);
    var link' := FieldHasLink(s, obj, t, i, own', part');
    EntryIsDetermined(s, GetValue(obj, f.name), f.translator, f.col, own, link, part, own', link', part');
  }

  /** A field whose rows refer to the object's row. */
  lemma {:induction false} ChildFieldIsDetermined(s: Schema, obj: Json, t: Translator, i: nat, own: Row,
                                                  part: seq<Row>, part': seq<Row>)
    requires InSchema(t, s) && DistinctColumns(t) && WellFormed(t) && t.HDict? && i < |t.fields|
    requires IsByParent(t.fields[i].translator)
    requires own.table == t.table
    requires IsField(s, obj, t, i, own, part) && IsField(s, obj, t, i, own, part')
    ensures multiset(part) == multiset(part')
    decreases t, 0
  {
    hide Cell, InSchema, DistinctColumns, IsEntry;
    var f := t.fields[i];
    assert Subtranslators(t)[i] == f.translator;
    PartInSchema(t, i, s);
    PartDistinct(t, i);
    OwnInSchema(t, s);
    OwnDistinct(t);
    var link := FieldHasLink(s, obj, t, i, own, part);
    var link' := FieldHasLink(s, obj, t, i, own, part');
    if part != [] && part' != [] {
      CellIsUnique(s, own, f.translator.link.key, link, link');
    }
    EntryIsDetermined(s, GetValue(obj, f.name), f.translator, f.col, own, link, part, own, link', part');
  }

  lemma {:induction false} ObjectIsDetermined(s: Schema, obj: Json, t: Translator, link: Json, rows: seq<Row>,
                                              hash: Json,
                                              rows': seq<Row>, hash': Json)
    requires InSchema(t, s) && DistinctColumns(t) && WellFormed(t) && t.HDict?
    requires IsObject(s, obj, t, link, rows, hash) && IsObject(s, obj, t, link, rows', hash')
    ensures hash == hash' && multiset(rows) == multiset(rows')
    decreases t, 1
  {
    hide Cell, InSchema, DistinctColumns, IsEntry, IsField, WellFormed, Concat;
    var own, parts :| AreFields(s, obj, t, link, rows, hash, own, parts);
    var own', parts' :| AreFields(s, obj, t, link, rows', hash', own', parts');
    forall i | 0 <= i < |parts| && !IsByParent(t.fields[i].translator)
      ensures multiset(parts[i]) == multiset(parts'[i]) && Linked(s, own, t.fields[i].col, own', t.fields[i].col)
    {
      OwnFieldIsDetermined(s, obj, t, i, own, parts[i], own', parts'[i]);
    }
    OwnInSchema(t, s);
    var n := |LinkColumns(t.link)|;
    forall c | n <= c < |OwnColumns(t)|
      ensures Linked(s, own, OwnColumns(t)[c], own', OwnColumns(t)[c])
    {
      var i := ColumnIsField(t.fields, c - n);
      assert OwnColumns(t)[c] == t.fields[i].col;
    }
    SameContent(s, t, own, own');
    assert Contents(t, [own]) == Contents(t, [own']);
    SameOwn(s, t, link, hash, own, own');
    forall i | 0 <= i < |parts|
      ensures multiset(parts[i]) == multiset(parts'[i])
    {
      if IsByParent(t.fields[i].translator) {
        ChildFieldIsDetermined(s, obj, t, i, own, parts[i], parts'[i]);
      }
    }
    SameConcat(parts, parts');
  }

  lemma {:induction false} ObjectsAreDetermined(s: Schema, obj: Json, t: Translator, link: Json, rows: seq<Row>,
                                                hash: Json, rows': seq<Row>, hash': Json)
    requires InSchema(t, s) && DistinctColumns(t) && WellFormed(t) && t.HDict? && t.inList
    requires IsConverted(s, obj, t, link, rows, hash) && IsConverted(s, obj, t, link, rows', hash')
    ensures hash == hash' && multiset(rows) == multiset(rows')
    decreases t, 2
  {
    hide InSchema, DistinctColumns, IsObject, WellFormed, Concat;
    var hashes, parts :| AreObjects(s, obj, t, link, rows, hash, hashes, parts);
    var hashes', parts' :| AreObjects(s, obj, t, link, rows', hash', hashes', parts');
    forall i | 0 <= i < |parts|
      ensures multiset(parts[i]) == multiset(parts'[i]) && hashes[i] == hashes'[i]
    {
      ObjectIsDetermined(s, obj.elements[i], t, link, parts[i], hashes[i], parts'[i], hashes'[i]);
    }
    SameConcat(parts, parts');
  }

  /** The rows of a VDICT or LIST: once their contents agree, so do the ids, and then the rows. */
  lemma OwnsAreDetermined(s: Schema, t: Translator, obj: Json, link: Json, hash: Json, hash': Json, owns: seq<Row>,
                          owns': seq<Row>)
    requires InSchema(t, s) && DistinctColumns(t) && !t.ValueTranslator? && |owns| == |owns'|
    requires IsHash(t, obj, owns, hash) && IsHash(t, obj, owns', hash')
    requires forall i | 0 <= i < |owns| ::
               && IsOwn(s, t, link, hash, owns[i]) && IsOwn(s, t, link, hash', owns'[i])
               && AgreeFrom(s, t, owns[i], owns'[i], |LinkColumns(t.link)|)
    ensures hash == hash' && owns == owns'
  {
    hide InSchema, DistinctColumns, IsOwn, AgreeFrom;
    forall i | 0 <= i < |owns|
      ensures Content(t, owns[i]) == Content(t, owns'[i])
    {
      SameContent(s, t, owns[i], owns'[i]);
    }
    assert Contents(t, owns) == Contents(t, owns');
    forall i | 0 <= i < |owns|
      ensures owns[i] == owns'[i]
    {
      SameOwn(s, t, link, hash, owns[i], owns'[i]);
    }
  }

  lemma {:induction false} MembersAreDetermined(s: Schema, obj: Json, t: Translator, link: Json, rows: seq<Row>,
                                                hash: Json, rows': seq<Row>, hash': Json)
    requires InSchema(t, s) && DistinctColumns(t) && WellFormed(t) && t.VDict?
    requires IsConverted(s, obj, t, link, rows, hash) && IsConverted(s, obj, t, link, rows', hash')
    ensures hash == hash' && multiset(rows) == multiset(rows')
    decreases t, 2
  {
    hide InSchema, DistinctColumns, IsEntry, WellFormed, Concat, Cell;
    var owns, parts :| AreMembers(s, obj, t, link, rows, hash, owns, parts);
    var owns', parts' :| AreMembers(s, obj, t, link, rows', hash', owns', parts');
    SubIsLinked(t);
    PartInSchema(t, 0, s);
    PartDistinct(t, 0);
    OwnInSchema(t, s);
    forall i | 0 <= i < |parts|
      ensures multiset(parts[i]) == multiset(parts'[i])
      ensures AgreeFrom(s, t, owns[i], owns'[i], |LinkColumns(t.link)|)
    {
      var key := Text(obj.members[i].0);
      EntryIsDetermined(s, obj.members[i].1, t.sub, t.valCol, owns[i], LinkOf(map[t.keyCol := key], t.sub), parts[i],
                        owns'[i], LinkOf(map[t.keyCol := key], t.sub), parts'[i]);
      assert Linked(s, owns[i], t.keyCol, owns'[i], t.keyCol);
    }
    OwnsAreDetermined(s, t, obj, link, hash, hash', owns, owns');
    SameConcat(parts, parts');
  }

  lemma {:induction false} ElementsAreDetermined(s: Schema, obj: Json, t: Translator, link: Json, rows: seq<Row>,
                                                 hash: Json, rows': seq<Row>, hash': Json)
    requires InSchema(t, s) && DistinctColumns(t) && WellFormed(t) && t.ListTranslator?
    requires IsConverted(s, obj, t, link, rows, hash) && IsConverted(s, obj, t, link, rows', hash')
    ensures hash == hash' && multiset(rows) == multiset(rows')
    decreases t, 2
  {
    hide InSchema, DistinctColumns, IsEntry, WellFormed, Concat, Cell;
    var owns, parts :| AreElements(s, obj, t, link, rows, hash, owns, parts);
    var owns', parts' :| AreElements(s, obj, t, link, rows', hash', owns', parts');
    SubIsLinked(t);
    PartInSchema(t, 0, s);
    PartDistinct(t, 0);
    OwnInSchema(t, s);
    forall i | 0 <= i < |parts|
      ensures multiset(parts[i]) == multiset(parts'[i])
      ensures AgreeFrom(s, t, owns[i], owns'[i], |LinkColumns(t.link)|)
    {
      EntryIsDetermined(s, obj.elements[i], t.sub, t.valCol, owns[i], Null, parts[i], owns'[i], Null, parts'[i]);
    }
    var from := if t.sub.ValueTranslator? || obj.elements == [] then obj else obj.elements[|obj.elements| - 1];
    OwnsAreDetermined(s, t, from, link, hash, hash', owns, owns');
    SameConcat(parts, parts');
  }

  lemma SubIsLinked(t: Translator)
    requires (t.VDict? || t.ListTranslator?) && WellFormed(t)
    ensures Subtranslators(t)[0] == t.sub && WellFormed(t.sub)
    ensures t.sub.ValueTranslator? || IsByParent(t.sub) || IsById(t.sub)
  {
    assert Subtranslators(t)[0] == t.sub;
  }

  /** One id and, up to their order, one list of rows. */
  lemma {:induction false} RowsAreDetermined(s: Schema, obj: Json, t: Translator, link: Json, rows: seq<Row>,
                                             hash: Json,
                                             rows': seq<Row>, hash': Json)
    requires InSchema(t, s) && DistinctColumns(t) && WellFormed(t)
    requires IsConverted(s, obj, t, link, rows, hash) && IsConverted(s, obj, t, link, rows', hash')
    ensures hash == hash' && multiset(rows) == multiset(rows')
    decreases t, 3
  {
    hide InSchema, DistinctColumns, WellFormed, IsObject;
    match t {
      case HDict(_, _, inList, _) =>
        if inList {
          ObjectsAreDetermined(s, obj, t, link, rows, hash, rows', hash');
        } else {
          ObjectIsDetermined(s, obj, t, link, rows, hash, rows', hash');
        }
      case VDict(_, _, _, _, _) => MembersAreDetermined(s, obj, t, link, rows, hash, rows', hash');
      case ListTranslator(_, _, _, _) => ElementsAreDetermined(s, obj, t, link, rows, hash, rows', hash');
    }
  }
}
