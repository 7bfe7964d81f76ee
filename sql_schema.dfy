/**
 * The schema side of `SqlModel`: the type mapping of `_create_column`, and the lazy creation of
 * tables in the `metadata.tables` cache by `_require_table` / `_create_table`, recursively for
 * nested record types. The cache is a map from table name to table; every operation returns
 * its result together with the new cache, because a nested table created on the way stays
 * registered even when the parent then fails.
 */
module SqlSchema {
  import opened Results
  import opened Records
  import opened Naming

  datatype ColumnType =
    | Integer | Float | String | LargeBinary | DateTime | Date | Boolean
    | EnumType(enumName: string)
    /** `String(collation="NOCASE")`: compared without regard to ASCII case. */
    | NoCaseString
    /** A column of inferred type holding `ForeignKey(target)`, `target` being `<table>.id`. */
    | ForeignKey(target: string)

  datatype Column = Column(name: string, ctype: ColumnType, nullable: bool, primaryKey: bool)

  datatype Table = Table(name: string, columns: seq<Column>)

  /** `Column("id", Integer, primary_key=True)`: the first column of every created table. */
  const IdColumn: Column := Column("id", Integer, false, true)

  /** `SqlModel.TYPE_TO_SQLTYPE`, looked up with `dict.get`. */
  const TypeToSqlType: map<Kind, ColumnType> :=
    map[IntKind := Integer, FloatKind := Float, StrKind := String, BytesKind := LargeBinary,
        DateTimeKind := DateTime, DateKind := Date, BoolKind := Boolean]

  /** The `metadata.tables` cache. */
  type Tables = map<string, Table>

  /** A result and the cache after the step that produced it. */
  datatype Step<+T> = Step(result: Result<T>, tables: Tables)

  /**
   * The storage type `_create_column` picks for a field that is not a nested record: an enum
   * first, then a key string, then the fixed table; `None` when nothing applies.
   */
  function ScalarColumnType(f: FieldSpec): Option<ColumnType>
  {
    if f.kind.EnumKind? then Some(EnumType(f.kind.enumName))
    else if f.kind == StrKind && f.isKey then Some(NoCaseString)
    else if f.kind in TypeToSqlType then Some(TypeToSqlType[f.kind])
    else None
  }

  /** The column a field occupies: its name, or `<name>_id` for a nested record. */
  function ColumnName(f: FieldSpec): string
  {
    if IsNested(f) then f.name + "_id" else f.name
  }

  /** No field's column is called `id`, the name of the primary-key column every created table starts with. */
  predicate IdFree(t: RecordType)
  {
    forall j :: 0 <= j < |t.fields| ==> ColumnName(t.fields[j]) != "id"
  }

  /** Every cached table is registered under its own name. */
  predicate NamedTables(tables: Tables)
  {
    forall k :: k in tables ==> tables[k].name == k
  }

  /** `tables'` keeps every entry of `tables` unchanged. */
  predicate Extends(tables: Tables, tables': Tables)
  {
    forall k :: k in tables ==> k in tables' && tables'[k] == tables[k]
  }

  /** The table names of the record type held by a field of kind `k`, and of all types below it. */
  function KindNames(toWords: string -> string, k: Kind): set<string>
    decreases k
  {
    if k.RecordKind? then {TableName(toWords, k.rtype.name)} + BelowNames(toWords, k.rtype) else {}
  }

  /** The table names of all record types nested, at any depth, in `t`. */
  function BelowNames(toWords: string -> string, t: RecordType): set<string>
    decreases t
  {
    set i, x | 0 <= i < |t.fields| && x in KindNames(toWords, t.fields[i].kind) :: x
  }

  /** `c` is the column `_create_column` builds for `f`, given that the cache is well named. */
  predicate ColumnFor(toWords: string -> string, f: FieldSpec, c: Column)
  {
    && c.name == ColumnName(f)
    && !c.primaryKey
    && if IsNested(f) then
         c.ctype == ForeignKey(TableName(toWords, f.kind.rtype.name) + ".id") && c.nullable
       else
         Some(c.ctype) == ScalarColumnType(f) && c.nullable == f.defaultIsNone
  }

  /** `_require_table`: the cached table of `t`'s name, or a newly created one. */
  function RequireTable(toWords: string -> string, tables: Tables, t: RecordType): (s: Step<Table>)
    ensures Extends(tables, s.tables)
    ensures NamedTables(tables) ==> NamedTables(s.tables)
    ensures s.result.Ok? ==>
              TableName(toWords, t.name) in s.tables && s.tables[TableName(toWords, t.name)] == s.result.value
    ensures s.tables.Keys <= tables.Keys + {TableName(toWords, t.name)} + BelowNames(toWords, t)
    decreases t, 3, 0
  {
    var n := TableName(toWords, t.name);
    if n in tables then Step(Ok(tables[n]), tables) else CreateTable(toWords, tables, n, t)
  }

  /**
   * `_create_table`: the `id` column, then one column per field in field order; the table is
   * registered only when every column could be built, no table of that name appeared meanwhile,
   * and no field's column would redefine `id`.
   */
  function CreateTable(toWords: string -> string, tables: Tables, n: string, t: RecordType): (s: Step<Table>)
    ensures Extends(tables, s.tables)
    ensures NamedTables(tables) ==> NamedTables(s.tables)
    ensures s.result.Ok? ==> n in s.tables && s.tables[n] == s.result.value && s.result.value.name == n
    ensures s.result.Ok? && NamedTables(tables) ==> TableShape(toWords, s.result.value, t)
    ensures s.result.Ok? ==> IdFree(t)
    ensures s.tables.Keys <= tables.Keys + BelowNames(toWords, t) + (if s.result.Ok? then {n} else {})
    decreases t, 2, 0
  {
    var cs := CreateColumnsFrom(toWords, tables, t, 0, [IdColumn]);
    if cs.result.Err? then Step(Err(cs.result.error), cs.tables)
    else if n in cs.tables then Step(Err(TableAlreadyDefined(n)), cs.tables)
    else if !IdFree(t) then Step(Err(PrimaryKeyRedefined(n)), cs.tables)
    else
      var columns := cs.result.value;
      assert columns[0] == columns[..1][0];
      var table := Table(n, columns);
      Step(Ok(table), cs.tables[n := table])
  }

  /** A table holds the `id` column followed by the column of each field of `t`, in order. */
  predicate TableShape(toWords: string -> string, table: Table, t: RecordType)
  {
    && |table.columns| == |t.fields| + 1
    && table.columns[0] == IdColumn
    && forall j :: 0 <= j < |t.fields| ==> ColumnFor(toWords, t.fields[j], table.columns[j + 1])
  }

  /** The loop of `_create_table` from field `i` on, `acc` holding the columns built so far. */
  function CreateColumnsFrom(toWords: string -> string, tables: Tables, t: RecordType, i: nat, acc: seq<Column>)
    : (s: Step<seq<Column>>)
    requires i <= |t.fields|
    ensures Extends(tables, s.tables)
    ensures NamedTables(tables) ==> NamedTables(s.tables)
    ensures s.tables.Keys <= tables.Keys + BelowNames(toWords, t)
    ensures s.result.Ok? ==> |s.result.value| == |acc| + |t.fields| - i && s.result.value[..|acc|] == acc
    ensures s.result.Ok? && NamedTables(tables) ==> ColumnsFor(toWords, t.fields[i..], s.result.value[|acc|..])
    decreases t, 1, |t.fields| - i
  {
    if i == |t.fields| then Step(Ok(acc), tables)
    else
      var c := CreateColumn(toWords, tables, t.fields[i]);
      assert KindNames(toWords, t.fields[i].kind) <= BelowNames(toWords, t);
      if c.result.Err? then Step(Err(c.result.error), c.tables)
      else
        var acc' := acc + [c.result.value];
        var rest := CreateColumnsFrom(toWords, c.tables, t, i + 1, acc');
        ExtendsTransitive(tables, c.tables, rest.tables);
        KeysWithin(tables.Keys, c.tables.Keys, rest.tables.Keys,
                   KindNames(toWords, t.fields[i].kind), BelowNames(toWords, t));
        if rest.result.Ok? then
          var cols := rest.result.value;
          PrefixOfExtension(cols, acc, c.result.value);
          DropHead(t.fields, i);
          DropHead(cols, |acc|);
          rest
        else rest
  }

  /** The suffix of `xs` from `i` is its element at `i` followed by the suffix from `i + 1`. */
  lemma DropHead<T>(xs: seq<T>, i: nat)
    requires i < |xs|
    ensures xs[i..] == [xs[i]] + xs[i + 1..]
  {
  }

  /** Extending is transitive. */
  lemma ExtendsTransitive(a: Tables, b: Tables, c: Tables)
    requires Extends(a, b) && Extends(b, c)
    ensures Extends(a, c)
  {
  }

  /** Names added in two steps, each within a bound, stay within the larger bound. */
  lemma KeysWithin(a: set<string>, b: set<string>, c: set<string>, first: set<string>, both: set<string>)
    requires b <= a + first && c <= b + both && first <= both
    ensures c <= a + both
  {
  }

  /** A sequence that starts with `acc + [x]` starts with `acc`, and holds `x` right after it. */
  lemma PrefixOfExtension<T>(xs: seq<T>, acc: seq<T>, x: T)
    requires |acc| < |xs| && xs[..|acc| + 1] == acc + [x]
    ensures xs[..|acc|] == acc && xs[|acc|] == x
  {
    assert xs[..|acc|] == xs[..|acc| + 1][..|acc|];
  }

  /** Each field of `fs` has, at the same position, the column `_create_column` builds for it. */
  predicate ColumnsFor(toWords: string -> string, fs: seq<FieldSpec>, cs: seq<Column>)
  {
    |fs| == |cs| && forall j :: 0 <= j < |fs| ==> ColumnFor(toWords, fs[j], cs[j])
  }

  /**
   * `_create_column`: a nested record first makes sure its own table exists and becomes the
   * nullable foreign column `<name>_id`; any other field becomes a column of its mapped type,
   * nullable exactly when its default is `None`; an unmappable type is an error.
   */
  function CreateColumn(toWords: string -> string, tables: Tables, f: FieldSpec): (s: Step<Column>)
    ensures Extends(tables, s.tables)
    ensures NamedTables(tables) ==> NamedTables(s.tables)
    ensures s.tables.Keys <= tables.Keys + KindNames(toWords, f.kind)
    ensures s.result.Ok? && NamedTables(tables) ==> ColumnFor(toWords, f, s.result.value)
    ensures !IsNested(f) ==> s.tables == tables
    decreases f, 0, 0
  {
    if IsNested(f) then
      var sub := RequireTable(toWords, tables, f.kind.rtype);
      if sub.result.Err? then Step(Err(sub.result.error), sub.tables)
      else Step(Ok(Column(f.name + "_id", ForeignKey(sub.result.value.name + ".id"), true, false)), sub.tables)
    else
      match ScalarColumnType(f)
      case None => Step(Err(UnsupportedType(f.name)), tables)
      case Some(ct) => Step(Ok(Column(f.name, ct, f.defaultIsNone, false)), tables)
  }

  /** `get_table`: the cached table of `t`'s name; never creates one. */
  function GetTable(toWords: string -> string, tables: Tables, t: RecordType): (r: Result<Table>)
    ensures r.Ok? <==> TableName(toWords, t.name) in tables
    ensures r.Err? ==> r.error == NoSuchTable(TableName(toWords, t.name))
  {
    var n := TableName(toWords, t.name);
    if n in tables then Ok(tables[n]) else Err(NoSuchTable(n))
  }

  /** Exactly the fields of kind `OtherKind` have no storage type (nested records aside). */
  lemma MappingComplete(f: FieldSpec)
    requires !IsNested(f)
    ensures ScalarColumnType(f).None? <==> f.kind.OtherKind?
  {
  }

  /** A string column is case-insensitive exactly when it is a key field. */
  lemma KeyStringsIgnoreCase(f: FieldSpec)
    requires f.kind == StrKind
    ensures ScalarColumnType(f) == Some(NoCaseString) <==> f.isKey
    ensures !f.isKey ==> ScalarColumnType(f) == Some(String)
  {
  }

  /** A second `_require_table` finds the table the first one returned and creates nothing. */
  lemma RequireTableIdempotent(toWords: string -> string, tables: Tables, t: RecordType)
    requires RequireTable(toWords, tables, t).result.Ok?
    ensures var s := RequireTable(toWords, tables, t);
            RequireTable(toWords, s.tables, t) == s
  {
  }

  /** After `_require_table` succeeded, `get_table` returns the same table. */
  lemma GetTableAfterRequire(toWords: string -> string, tables: Tables, t: RecordType)
    requires RequireTable(toWords, tables, t).result.Ok?
    ensures var s := RequireTable(toWords, tables, t);
            GetTable(toWords, s.tables, t) == s.result
  {
  }

  /** A table created for `t` has the `id` column and one column per field, in field order. */
  lemma CreatedTableShape(toWords: string -> string, tables: Tables, t: RecordType)
    requires NamedTables(tables)
    requires TableName(toWords, t.name) !in tables
    requires RequireTable(toWords, tables, t).result.Ok?
    ensures var table := RequireTable(toWords, tables, t).result.value;
            table.name == TableName(toWords, t.name) && TableShape(toWords, table, t)
  {
  }

  /**
   * A failed `_require_table` registers no table under the record's own name (barring a nested
   * type of the same name); only tables of nested types may have been created.
   */
  lemma FailedRequireCreatesNoOwnTable(toWords: string -> string, tables: Tables, t: RecordType)
    requires TableName(toWords, t.name) !in tables.Keys + BelowNames(toWords, t)
    requires RequireTable(toWords, tables, t).result.Err?
    ensures var s := RequireTable(toWords, tables, t);
            TableName(toWords, t.name) !in s.tables && s.tables.Keys <= tables.Keys + BelowNames(toWords, t)
  {
  }

  /** A record type with a field of unsupported type cannot get a table of its own. */
  lemma UnsupportedFieldFails(toWords: string -> string, tables: Tables, t: RecordType, j: nat)
    requires j < |t.fields| && t.fields[j].kind.OtherKind?
    requires TableName(toWords, t.name) !in tables
    ensures RequireTable(toWords, tables, t).result.Err?
  {
    ColumnsFailFrom(toWords, tables, t, 0, [IdColumn], j);
  }

  lemma {:induction false} ColumnsFailFrom(toWords: string -> string, tables: Tables, t: RecordType, i: nat,
                                           acc: seq<Column>, j: nat)
    requires i <= j < |t.fields| && t.fields[j].kind.OtherKind?
    ensures CreateColumnsFrom(toWords, tables, t, i, acc).result.Err?
    decreases j - i
  {
    var c := CreateColumn(toWords, tables, t.fields[i]);
    if i < j && c.result.Ok? {
      ColumnsFailFrom(toWords, c.tables, t, i + 1, acc + [c.result.value], j);
    }
  }

  /** A type with a field whose column is called `id` never gets a table of its own. */
  lemma IdFieldRefused(toWords: string -> string, tables: Tables, t: RecordType, j: nat)
    requires j < |t.fields| && ColumnName(t.fields[j]) == "id"
    requires TableName(toWords, t.name) !in tables
    ensures RequireTable(toWords, tables, t).result.Err?
  {
    assert !IdFree(t);
  }

  /**
   * Conversely, a type whose fields are all of supported, non-nested kinds gets its table exactly
   * when no field is called `id`; no other table is created, and the refusal changes nothing.
   */
  lemma SupportedFlatTypeCreated(toWords: string -> string, tables: Tables, t: RecordType)
    requires forall j :: 0 <= j < |t.fields| ==> !IsNested(t.fields[j]) && !t.fields[j].kind.OtherKind?
    requires TableName(toWords, t.name) !in tables
    ensures var s := RequireTable(toWords, tables, t);
            && (s.result.Ok? <==> IdFree(t))
            && (s.result.Ok? ==> s.tables == tables[TableName(toWords, t.name) := s.result.value])
            && (s.result.Err? ==> s.tables == tables && s.result.error == PrimaryKeyRedefined(TableName(toWords, t.name)))
  {
    ColumnsSucceedFrom(toWords, tables, t, 0, [IdColumn]);
  }

  lemma {:induction false} ColumnsSucceedFrom(toWords: string -> string, tables: Tables, t: RecordType, i: nat,
                                              acc: seq<Column>)
    requires i <= |t.fields|
    requires forall j :: i <= j < |t.fields| ==> !IsNested(t.fields[j]) && !t.fields[j].kind.OtherKind?
    ensures var s := CreateColumnsFrom(toWords, tables, t, i, acc);
            s.result.Ok? && s.tables == tables
    decreases |t.fields| - i
  {
    if i < |t.fields| {
      MappingComplete(t.fields[i]);
      var c := CreateColumn(toWords, tables, t.fields[i]);
      ColumnsSucceedFrom(toWords, c.tables, t, i + 1, acc + [c.result.value]);
    }
  }
}
