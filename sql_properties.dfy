/**
 * What `SqlModel` promises its callers, proved of the model in `SqlStore`: memoisation,
 * records without key fields are never found, the meaning of the lookup, and that adding a
 * second instance with the same key values finds the first instance's row instead of
 * inserting another.
 */
module SqlProperties {
  import opened Results
  import opened Records
  import opened Naming
  import opened SqlSchema
  import opened SqlStore
  import opened SqlFootprint

  /** Every stored rowid is positive, as SQLite assigns them to rows inserted without an id. */
  predicate PositiveIds(s: SqlState)
  {
    forall n, k :: n in s.store && 0 <= k < |s.store[n]| ==> s.store[n][k].id > 0
  }

  /** The row holds, under its columns' collations, the values of `r`'s key fields from field `i` on. */
  predicate AgreesFrom(table: Table, row: Row, r: Record, i: nat)
  {
    forall j :: i <= j < |r.values| && j < |r.rtype.fields| && r.rtype.fields[j].isKey ==>
      Satisfies(table, row, Equals(r.rtype.fields[j].name, r.values[j]))
  }

  /** The row holds the values of all of `r`'s key fields. */
  predicate AgreesOnKeys(table: Table, row: Row, r: Record)
  {
    AgreesFrom(table, row, r, 0)
  }

  /** The table has a column for every key field of `t` from field `i` on. */
  predicate KeyColumnsFrom(table: Table, t: RecordType, i: nat)
  {
    forall j :: i <= j < |t.fields| && t.fields[j].isKey ==> HasColumn(table, t.fields[j].name)
  }

  /** The memoised id is returned without looking at the table. */
  lemma MemoisedLookup(toWords: string -> string, s: SqlState, r: Record)
    requires WellTyped(r) && r.handle in s.rowids
    ensures GetRowId(toWords, s, r) == Lookup(Ok(Some(s.rowids[r.handle])), s.rowids)
    ensures Exists(toWords, s, r).result == Ok(true)
  {
  }

  /** A record whose table does not exist yet is not found, and nothing is memoised. */
  lemma MissingTableNotFound(toWords: string -> string, s: SqlState, r: Record)
    requires WellTyped(r) && r.handle !in s.rowids
    requires TableName(toWords, r.rtype.name) !in s.tables
    ensures GetRowId(toWords, s, r) == Lookup(Ok(None), s.rowids)
    ensures Exists(toWords, s, r).result == Ok(false)
  {
  }

  lemma {:induction false} NoKeyClausesFrom(toWords: string -> string, s: SqlState, table: Table, r: Record,
                                            i: nat, acc: seq<Clause>)
    requires WellTyped(r) && i <= |r.values| && NoKeyFields(r.rtype)
    ensures KeyClausesFrom(toWords, s, table, r, i, acc) == Clauses(Ok(acc), s.rowids)
    decreases |r.values| - i
  {
    if i < |r.values| {
      NoKeyClausesFrom(toWords, s, table, r, i + 1, acc);
    }
  }

  /**
   * An instance of a type without key fields is never found, whatever the table holds, unless
   * that very instance has a memoised id.
   */
  lemma NoKeyFieldsNeverFound(toWords: string -> string, s: SqlState, r: Record)
    requires WellTyped(r) && NoKeyFields(r.rtype) && r.handle !in s.rowids
    ensures GetRowId(toWords, s, r) == Lookup(Ok(None), s.rowids)
    ensures Exists(toWords, s, r) == Answer(Ok(false), s.rowids)
  {
    var n := TableName(toWords, r.rtype.name);
    if n in s.tables {
      NoKeyClausesFrom(toWords, s, s.tables[n], r, 0, []);
    }
  }

  lemma MatchesAllAppend(table: Table, row: Row, cs: seq<Clause>, c: Clause)
    ensures MatchesAll(table, row, cs + [c]) <==> MatchesAll(table, row, cs) && Satisfies(table, row, c)
  {
    if MatchesAll(table, row, cs) && Satisfies(table, row, c) {
      forall k | 0 <= k < |cs + [c]| ensures Satisfies(table, row, (cs + [c])[k]) {
        if k < |cs| { assert (cs + [c])[k] == cs[k]; }
      }
    }
    if MatchesAll(table, row, cs + [c]) {
      assert Satisfies(table, row, (cs + [c])[|cs|]);
      forall k | 0 <= k < |cs| ensures Satisfies(table, row, cs[k]) {
        assert (cs + [c])[k] == cs[k];
      }
    }
  }

  /**
   * For key fields that are not nested records, the lookup succeeds exactly when the table has
   * all their columns, memoises nothing, and its conditions hold of a row exactly when the row
   * agrees with the record on every key field.
   */
  lemma {:induction false} FlatClausesFrom(toWords: string -> string, s: SqlState, table: Table, r: Record,
                                           i: nat, acc: seq<Clause>)
    requires WellTyped(r) && i <= |r.values| && FlatKeys(r.rtype)
    ensures var c := KeyClausesFrom(toWords, s, table, r, i, acc);
            && c.rowids == s.rowids
            && (c.result.Ok? <==> KeyColumnsFrom(table, r.rtype, i))
            && (c.result.Ok? ==>
                  && (c.result.value == [] <==> acc == [] && forall j :: i <= j < |r.values| ==> !r.rtype.fields[j].isKey)
                  && forall row: Row {:trigger MatchesAll(table, row, c.result.value)} ::
                       MatchesAll(table, row, c.result.value) <==> MatchesAll(table, row, acc) && AgreesFrom(table, row, r, i))
    decreases |r.values| - i
  {
    if i < |r.values| {
      var f, v := r.rtype.fields[i], r.values[i];
      if !f.isKey {
        FlatClausesFrom(toWords, s, table, r, i + 1, acc);
        forall row: Row ensures AgreesFrom(table, row, r, i) <==> AgreesFrom(table, row, r, i + 1) {
        }
      } else if HasColumn(table, f.name) {
        var acc' := acc + [Equals(f.name, v)];
        FlatClausesFrom(toWords, s, table, r, i + 1, acc');
        forall row: Row
          ensures MatchesAll(table, row, acc') && AgreesFrom(table, row, r, i + 1)
                  <==> MatchesAll(table, row, acc) && AgreesFrom(table, row, r, i)
        {
          MatchesAllAppend(table, row, acc, Equals(f.name, v));
        }
      }
    }
  }

  /**
   * The meaning of `_get_rowid` for key fields that are not nested records: the id of the first
   * row (in rowid order) that agrees with the record on every key field, `None` when no row
   * agrees or when that id is 0; and a table lacking a key column raises.
   */
  lemma FlatLookupFindsFirstAgreeingRow(toWords: string -> string, s: SqlState, r: Record)
    requires WellTyped(r) && r.handle !in s.rowids && FlatKeys(r.rtype) && !NoKeyFields(r.rtype)
    requires TableName(toWords, r.rtype.name) in s.tables
    ensures var n := TableName(toWords, r.rtype.name);
            var table, rows := s.tables[n], Rows(s, n);
            var l := GetRowId(toWords, s, r);
            && (l.result.Ok? <==> KeyColumnsFrom(table, r.rtype, 0))
            && l.rowids == (if l.result.Ok? && l.result.value.Some? then s.rowids[r.handle := l.result.value.value]
                            else s.rowids)
            && (l.result.Ok? ==>
                  && (forall k :: 0 <= k < |rows| && AgreesOnKeys(table, rows[k], r)
                                  && (forall j :: 0 <= j < k ==> !AgreesOnKeys(table, rows[j], r)) ==>
                        l.result.value == if rows[k].id == 0 then None else Some(rows[k].id))
                  && ((forall k :: 0 <= k < |rows| ==> !AgreesOnKeys(table, rows[k], r)) ==> l.result.value == None))
  {
    var n := TableName(toWords, r.rtype.name);
    var table, rows := s.tables[n], Rows(s, n);
    FlatClausesFrom(toWords, s, table, r, 0, []);
    var c := KeyClausesFrom(toWords, s, table, r, 0, []);
    if c.result.Ok? {
      assert c.result.value != [];
      forall row: Row ensures MatchesAll(table, row, c.result.value) <==> AgreesOnKeys(table, row, r) {
        assert MatchesAll(table, row, []);
      }
      SelectIdFindsFirstAgreeing(table, rows, c.result.value, r);
    }
  }

  /** Clauses that hold of exactly the rows agreeing with `r` select the id of the first such row. */
  lemma SelectIdFindsFirstAgreeing(table: Table, rows: seq<Row>, cs: seq<Clause>, r: Record)
    requires forall row: Row :: MatchesAll(table, row, cs) <==> AgreesOnKeys(table, row, r)
    ensures forall k :: 0 <= k < |rows| && AgreesOnKeys(table, rows[k], r)
                        && (forall j :: 0 <= j < k ==> !AgreesOnKeys(table, rows[j], r)) ==>
              SelectId(table, rows, cs) == Some(rows[k].id)
    ensures (forall k :: 0 <= k < |rows| ==> !AgreesOnKeys(table, rows[k], r)) ==> SelectId(table, rows, cs) == None
  {
    var m := FirstMatch(table, rows, cs);
    forall k | 0 <= k < |rows| && AgreesOnKeys(table, rows[k], r)
                && (forall j :: 0 <= j < k ==> !AgreesOnKeys(table, rows[j], r))
      ensures m == Some(k)
    {
      assert MatchesAll(table, rows[k], cs);
    }
  }

  /** Adding an instance that already has an id returns it and changes nothing. */
  lemma AddMemoised(toWords: string -> string, s: SqlState, r: Record, checkExists: bool)
    requires WellTyped(r) && r.handle in s.rowids
    ensures Add(toWords, s, r, checkExists) == Added(Ok(s.rowids[r.handle]), s)
  {
  }

  /** After a successful `add`, the instance exists, and adding it again returns the same id. */
  lemma AddThenExists(toWords: string -> string, s: SqlState, r: Record, checkExists: bool, again: bool)
    requires WellTyped(r) && Add(toWords, s, r, checkExists).result.Ok?
    ensures var a := Add(toWords, s, r, checkExists);
            && Exists(toWords, a.state, r).result == Ok(true)
            && Add(toWords, a.state, r, again) == a
  {
  }

  /** The rows `add` builds for a record without nested fields: each field's value under its name. */
  lemma {:induction false} FlatRowCellsFrom(toWords: string -> string, s: SqlState, r: Record, checkExists: bool,
                                            i: nat, acc: map<string, Value>)
    requires WellTyped(r) && i <= |r.values| && Flat(r.rtype) && DistinctFieldNames(r.rtype)
    ensures var c := RowCellsFrom(toWords, s, r, checkExists, i, acc);
            && c.state == s && c.result.Ok?
            && (forall j :: i <= j < |r.values| ==>
                  r.rtype.fields[j].name in c.result.value && c.result.value[r.rtype.fields[j].name] == r.values[j])
            && (forall k :: k in c.result.value <==>
                  k in acc || exists j :: i <= j < |r.values| && r.rtype.fields[j].name == k)
    decreases |r.values| - i
  {
    if i < |r.values| {
      var f, v := r.rtype.fields[i], r.values[i];
      assert Fits(f.kind, v) && !IsNested(f);
      assert !v.RecordV?;
      var acc' := acc[f.name := v];
      FlatRowCellsFrom(toWords, s, r, checkExists, i + 1, acc');
      var c := RowCellsFrom(toWords, s, r, checkExists, i + 1, acc');
      assert RowCellsFrom(toWords, s, r, checkExists, i, acc) == c;
      AcceptedCellKept(toWords, s, r, checkExists, i + 1, acc', f.name);
    }
  }

  /** A cell already in the row survives the rest of the loop when no later field has its name. */
  lemma {:induction false} AcceptedCellKept(toWords: string -> string, s: SqlState, r: Record, checkExists: bool,
                                            i: nat, acc: map<string, Value>, k: string)
    requires WellTyped(r) && i <= |r.values| && Flat(r.rtype)
    requires k in acc && forall j :: i <= j < |r.values| ==> r.rtype.fields[j].name != k
    ensures var c := RowCellsFrom(toWords, s, r, checkExists, i, acc);
            c.result.Ok? && k in c.result.value && c.result.value[k] == acc[k]
    decreases |r.values| - i
  {
    if i < |r.values| {
      var f, v := r.rtype.fields[i], r.values[i];
      assert Fits(f.kind, v) && !IsNested(f);
      assert !v.RecordV?;
      AcceptedCellKept(toWords, s, r, checkExists, i + 1, acc[f.name := v], k);
    }
  }

  /** A table `RequireTable` created for a type has a column for each key field that is not nested. */
  lemma CreatedTableHasKeyColumns(toWords: string -> string, table: Table, t: RecordType)
    requires TableShape(toWords, table, t) && FlatKeys(t)
    ensures KeyColumnsFrom(table, t, 0)
  {
    forall j | 0 <= j < |t.fields| && t.fields[j].isKey ensures HasColumn(table, t.fields[j].name) {
      assert table.columns[j + 1].name == t.fields[j].name;
    }
  }

  /** Two instances with the same key values agree with the same rows. */
  lemma SameKeysSameAgreement(table: Table, row: Row, r1: Record, r2: Record)
    requires SameKeys(r1, r2)
    ensures AgreesOnKeys(table, row, r1) <==> AgreesOnKeys(table, row, r2)
  {
  }

  /**
   * From `s` to `s'`, table `n` (cached, unchanged if it was cached before, with a column for
   * every key field of `r`) gained exactly one row, with id `id`, and that row agrees with `r`
   * on its key fields; the id is positive if every stored id is, and 1 in an empty table.
   */
  ghost predicate AppendsAgreeingRow(s: SqlState, s': SqlState, n: string, r: Record, id: int)
  {
    var rows := Rows(s', n);
    && n in s'.tables && (n in s.tables ==> s'.tables[n] == s.tables[n])
    && KeyColumnsFrom(s'.tables[n], r.rtype, 0)
    && |rows| == |Rows(s, n)| + 1
    && rows == Rows(s, n) + [rows[|Rows(s, n)|]]
    && rows[|Rows(s, n)|].id == id
    && AgreesOnKeys(s'.tables[n], rows[|Rows(s, n)|], r)
    && (PositiveIds(s) ==> id > 0)
    && (Rows(s, n) == [] ==> id == 1)
  }

  /**
   * `AddRow` on a record none of whose key fields is a nested record (and whose nested types do
   * not share its table) appends one row that agrees with the record on its key fields, to a
   * table that has the key columns.
   */
  lemma AddRowAppendsAgreeingRow(toWords: string -> string, s: SqlState, r: Record, checkExists: bool)
    requires Consistent(s) && WellTyped(r) && FlatKeys(r.rtype) && DistinctColumnNames(r.rtype)
    requires TableName(toWords, r.rtype.name) !in BelowNames(toWords, r.rtype)
    requires AddRow(toWords, s, r, checkExists).result.Ok?
    ensures var a := AddRow(toWords, s, r, checkExists);
            AppendsAgreeingRow(s, a.state, TableName(toWords, r.rtype.name), r, a.result.value)
  {
    var n := TableName(toWords, r.rtype.name);
    AddRowKeyTable(toWords, s, r, checkExists);
    RowCellsWithin(toWords, s, r, checkExists, 0, map[]);
    RowCellsFromStoresFields(toWords, s, r, checkExists);
    var cells, s1, id := AddRowSteps(toWords, s, r, checkExists);
    KeyCellsHeld(cells, s1.rowids, r);
    AppendedRowAgrees(s, s1, AddRow(toWords, s, r, checkExists).state, n, r, cells, id);
  }

  /** The key fields, none of them nested, are held under their own names by a row built for `r`. */
  lemma KeyCellsHeld(cells: map<string, Value>, m: RowIds, r: Record)
    requires WellTyped(r) && FlatKeys(r.rtype)
    requires forall j :: 0 <= j < |r.values| ==> CellHolds(cells, m, r.rtype.fields[j], r.values[j])
    ensures forall j :: 0 <= j < |r.values| && r.rtype.fields[j].isKey ==>
              r.rtype.fields[j].name in cells && cells[r.rtype.fields[j].name] == r.values[j]
  {
    forall j | 0 <= j < |r.values| && r.rtype.fields[j].isKey
      ensures r.rtype.fields[j].name in cells && cells[r.rtype.fields[j].name] == r.values[j]
    {
      assert Fits(r.rtype.fields[j].kind, r.values[j]);
    }
  }

  /** A row holding `r`'s key values, appended after the rows of a consistent table, gives `AppendsAgreeingRow`. */
  lemma AppendedRowAgrees(s: SqlState, s1: SqlState, s': SqlState, n: string, r: Record,
                          cells: map<string, Value>, id: int)
    requires Consistent(s1) && Rows(s1, n) == Rows(s, n)
    requires Rows(s', n) == Rows(s1, n) + [Row(id, cells)]
    requires Rows(s1, n) == [] ==> id == 1
    requires IdsIncreasing(Rows(s1, n)) ==> forall k :: 0 <= k < |Rows(s1, n)| ==> Rows(s1, n)[k].id < id
    requires n in s'.tables && (n in s.tables ==> s'.tables[n] == s.tables[n])
    requires KeyColumnsFrom(s'.tables[n], r.rtype, 0)
    requires |r.values| <= |r.rtype.fields|
    requires forall j :: 0 <= j < |r.values| && r.rtype.fields[j].isKey ==>
               r.rtype.fields[j].name in cells && cells[r.rtype.fields[j].name] == r.values[j]
    ensures AppendsAgreeingRow(s, s', n, r, id)
  {
    CellsAgree(s'.tables[n], r, cells, id);
    assert Rows(s', n)[|Rows(s, n)|] == Row(id, cells);
    if PositiveIds(s) && Rows(s, n) != [] {
      assert Rows(s, n)[0].id > 0;
    }
  }

  /**
   * `AddRow` memoises the new id for the record and otherwise only ids of records nested in it;
   * without nested fields, only the record's own.
   */
  lemma AddRowMemoises(toWords: string -> string, s: SqlState, r: Record, checkExists: bool)
    requires Consistent(s) && WellTyped(r)
    requires AddRow(toWords, s, r, checkExists).result.Ok?
    ensures var a := AddRow(toWords, s, r, checkExists);
            MemoisedBelow(s.rowids, a.state.rowids, r, a.result.value)
  {
    var a := AddRow(toWords, s, r, checkExists);
    AddRowWithin(toWords, s, r, checkExists);
    MemoisedBelowHolds(s.rowids, a.state.rowids, r, a.result.value);
  }

  /**
   * From memo `m` to `m'`, `r` gained the id `id`, every other id of `m` was kept, and only
   * records nested in `r` gained one too; without nested fields, `m'` is `m` plus `r`'s id.
   */
  ghost predicate MemoisedBelow(m: RowIds, m': RowIds, r: Record, id: int)
  {
    && r.handle in m' && m'[r.handle] == id
    && MemoGrows(m - {r.handle}, m')
    && m'.Keys <= m.Keys + AddHandles(r)
    && (WellTyped(r) && Flat(r.rtype) ==> m' == m[r.handle := id])
  }

  lemma MemoisedBelowHolds(m: RowIds, m': RowIds, r: Record, id: int)
    requires r.handle in m' && m'[r.handle] == id
    requires MemoGrows(m - {r.handle}, m') && m'.Keys <= m.Keys + AddHandles(r)
    ensures MemoisedBelow(m, m', r, id)
  {
    if WellTyped(r) && Flat(r.rtype) {
      FlatHasNothingBelow(x => x, r);
      assert m' == m[r.handle := id];
    }
  }

  /** Without nested fields, no table lies below the type and no instance below the record. */
  lemma FlatHasNothingBelow(toWords: string -> string, r: Record)
    requires WellTyped(r) && Flat(r.rtype)
    ensures BelowNames(toWords, r.rtype) == {} && NestedHandles(r) == {}
  {
  }

  /**
   * `AddRow` on a record none of whose key fields is nested leaves a table for its type that
   * has its key columns (the insert accepted the key cells), unchanged if it was cached before.
   */
  lemma AddRowKeyTable(toWords: string -> string, s: SqlState, r: Record, checkExists: bool)
    requires Consistent(s) && WellTyped(r) && FlatKeys(r.rtype) && DistinctColumnNames(r.rtype)
    requires TableName(toWords, r.rtype.name) !in BelowNames(toWords, r.rtype)
    requires AddRow(toWords, s, r, checkExists).result.Ok?
    ensures var a := AddRow(toWords, s, r, checkExists);
            var n := TableName(toWords, r.rtype.name);
            && n in a.state.tables && (n in s.tables ==> a.state.tables[n] == s.tables[n])
            && KeyColumnsFrom(a.state.tables[n], r.rtype, 0)
  {
    var c := RowCellsFrom(toWords, s, r, checkExists, 0, map[]);
    assert AddRow(toWords, s, r, checkExists) == StoreRow(toWords, c.state, r, c.result.value);
    RowCellsWithin(toWords, s, r, checkExists, 0, map[]);
    RowCellsFromStoresFields(toWords, s, r, checkExists);
    forall j | 0 <= j < |r.rtype.fields| && r.rtype.fields[j].isKey
      ensures r.rtype.fields[j].name in c.result.value
    {
      assert CellHolds(c.result.value, c.state.rowids, r.rtype.fields[j], r.values[j]);
    }
    StoreRowKeyTable(toWords, c.state, r, c.result.value);
  }

  /**
   * Storing a row that holds a cell for every key field leaves a table for the type with the
   * key columns: the insert refuses a cell without a column.
   */
  lemma StoreRowKeyTable(toWords: string -> string, s: SqlState, r: Record, cells: map<string, Value>)
    requires forall j :: 0 <= j < |r.rtype.fields| && r.rtype.fields[j].isKey ==> r.rtype.fields[j].name in cells
    requires StoreRow(toWords, s, r, cells).result.Ok?
    ensures var a := StoreRow(toWords, s, r, cells);
            var n := TableName(toWords, r.rtype.name);
            && n in a.state.tables && (n in s.tables ==> a.state.tables[n] == s.tables[n])
            && KeyColumnsFrom(a.state.tables[n], r.rtype, 0)
  {
    StoreRowSteps(toWords, s, r, cells);
  }

  /** A row holding every key field's value under the field's name agrees with the record on its keys. */
  lemma CellsAgree(table: Table, r: Record, cells: map<string, Value>, id: int)
    requires |r.values| <= |r.rtype.fields|
    requires forall j :: 0 <= j < |r.values| && r.rtype.fields[j].isKey ==>
               r.rtype.fields[j].name in cells && cells[r.rtype.fields[j].name] == r.values[j]
    ensures AgreesOnKeys(table, Row(id, cells), r)
  {
    forall j | 0 <= j < |r.values| && r.rtype.fields[j].isKey
      ensures Satisfies(table, Row(id, cells), Equals(r.rtype.fields[j].name, r.values[j]))
    {
    }
  }

  /** A table of `t`'s shape has a column for every field of `t`. */
  lemma ShapedTableHasFieldColumns(toWords: string -> string, table: Table, t: RecordType)
    requires TableShape(toWords, table, t)
    ensures forall j :: 0 <= j < |t.fields| ==> HasColumn(table, ColumnName(t.fields[j]))
  {
    forall j | 0 <= j < |t.fields|
      ensures HasColumn(table, ColumnName(t.fields[j]))
    {
      assert table.columns[j + 1].name == ColumnName(t.fields[j]);
    }
  }

  /**
   * `add` of a record whose fields all have supported, non-nested types, into a store without a
   * table for its type, succeeds exactly when no field is called `id`: the table is then created,
   * and the row has a cell for each of its columns but the primary key.
   */
  lemma FlatAddRowSucceeds(toWords: string -> string, s: SqlState, r: Record, checkExists: bool)
    requires Consistent(s) && WellTyped(r) && Flat(r.rtype) && DistinctFieldNames(r.rtype)
    requires forall j :: 0 <= j < |r.rtype.fields| ==> !r.rtype.fields[j].kind.OtherKind?
    requires TableName(toWords, r.rtype.name) !in s.tables
    ensures AddRow(toWords, s, r, checkExists).result.Ok? <==> IdFree(r.rtype)
  {
    FlatRowCellsFrom(toWords, s, r, checkExists, 0, map[]);
    var cells := RowCellsFrom(toWords, s, r, checkExists, 0, map[]).result.value;
    SupportedFlatTypeCreated(toWords, s.tables, r.rtype);
    if IdFree(r.rtype) {
      CreatedTableShape(toWords, s.tables, r.rtype);
      var table := RequireTable(toWords, s.tables, r.rtype).result.value;
      ShapedTableHasFieldColumns(toWords, table, r.rtype);
      forall k | k in cells
        ensures HasColumn(table, k)
      {
        var j :| 0 <= j < |r.values| && r.rtype.fields[j].name == k;
        assert ColumnName(r.rtype.fields[j]) == k;
      }
      forall c | c in table.columns && !c.nullable && !c.primaryKey
        ensures c.name in cells
      {
        var i :| 0 <= i < |table.columns| && table.columns[i] == c;
        assert ColumnFor(toWords, r.rtype.fields[i - 1], table.columns[i]);
      }
      AddRowOkWhenAccepted(toWords, s, r, checkExists);
    } else {
      StoreRowSteps(toWords, s, r, cells);
    }
  }

  /** `AddRow` succeeds once the row is built and the table is there and accepts it. */
  lemma AddRowOkWhenAccepted(toWords: string -> string, s: SqlState, r: Record, checkExists: bool)
    requires WellTyped(r)
    requires var c := RowCellsFrom(toWords, s, r, checkExists, 0, map[]);
             var rt := RequireTable(toWords, c.state.tables, r.rtype);
             && c.result.Ok? && rt.result.Ok? && Accepts(rt.result.value, c.result.value)
    ensures AddRow(toWords, s, r, checkExists).result.Ok?
  {
    var c := RowCellsFrom(toWords, s, r, checkExists, 0, map[]);
    StoreRowSteps(toWords, c.state, r, c.result.value);
  }

  /** `StoreRow` succeeds when the table is found or made and accepts the row, and then memoises its id. */
  lemma StoreRowSteps(toWords: string -> string, s: SqlState, r: Record, cells: map<string, Value>)
    ensures var rt := RequireTable(toWords, s.tables, r.rtype);
            StoreRow(toWords, s, r, cells).result.Ok? <==>
              rt.result.Ok? && InsertRow(s.(tables := rt.tables), rt.result.value, cells).result.Ok?
    ensures var rt := RequireTable(toWords, s.tables, r.rtype);
            StoreRow(toWords, s, r, cells).result.Ok? ==>
              var ins := InsertRow(s.(tables := rt.tables), rt.result.value, cells);
              StoreRow(toWords, s, r, cells)
                == Added(Ok(ins.result.value), ins.state.(rowids := ins.state.rowids[r.handle := ins.result.value]))
  {
  }

  /** Deduplication when `r1`'s lookup found a row: `r2` finds the same row. */
  lemma DedupWhenFound(toWords: string -> string, s: SqlState, r1: Record, r2: Record)
    requires WellTyped(r1) && WellTyped(r2) && SameKeys(r1, r2) && FlatKeys(r1.rtype) && !NoKeyFields(r1.rtype)
    requires r1.handle !in s.rowids && r2.handle !in s.rowids && r1.handle != r2.handle
    requires GetRowId(toWords, s, r1).result.Ok? && GetRowId(toWords, s, r1).result.value.Some?
    ensures var a1 := Add(toWords, s, r1, true);
            var a2 := Add(toWords, a1.state, r2, true);
            a2.result == a1.result && a2.state.store == a1.state.store == s.store
  {
    DedupLookupWhenFound(toWords, s, r1, r2);
  }

  /** When `r1`'s lookup found a row, the lookup of `r2` finds the same row and memoises it for `r2`. */
  lemma DedupLookupWhenFound(toWords: string -> string, s: SqlState, r1: Record, r2: Record)
    requires WellTyped(r1) && WellTyped(r2) && SameKeys(r1, r2) && FlatKeys(r1.rtype) && !NoKeyFields(r1.rtype)
    requires r1.handle !in s.rowids && r2.handle !in s.rowids && r1.handle != r2.handle
    requires GetRowId(toWords, s, r1).result.Ok? && GetRowId(toWords, s, r1).result.value.Some?
    ensures var l1 := GetRowId(toWords, s, r1);
            var l2 := GetRowId(toWords, s.(rowids := l1.rowids), r2);
            l2.result == l1.result && l2.rowids == l1.rowids[r2.handle := l1.result.value.value]
  {
    var n := TableName(toWords, r1.rtype.name);
    var l1 := GetRowId(toWords, s, r1);
    var id := l1.result.value.value;
    var s1 := s.(rowids := l1.rowids);
    assert n in s.tables;
    var table, rows := s.tables[n], Rows(s, n);
    FlatLookupFindsFirstAgreeingRow(toWords, s, r1);
    forall row: Row ensures AgreesOnKeys(table, row, r1) <==> AgreesOnKeys(table, row, r2) {
      SameKeysSameAgreement(table, row, r1, r2);
    }
    FoundRowIsFirstAgreeing(table, rows, r1, r2, id);
    var k :| && 0 <= k < |rows| && AgreesOnKeys(table, rows[k], r2) && rows[k].id == id
             && (forall j :: 0 <= j < k ==> !AgreesOnKeys(table, rows[j], r2));
    assert Rows(s1, n) == rows;
    FlatLookupFindsRow(toWords, s1, r2, k);
  }

  /** The lookup of a record whose first agreeing row is at position `k` finds that row's id. */
  lemma FlatLookupFindsRow(toWords: string -> string, s: SqlState, r: Record, k: nat)
    requires WellTyped(r) && r.handle !in s.rowids && FlatKeys(r.rtype) && !NoKeyFields(r.rtype)
    requires var n := TableName(toWords, r.rtype.name);
             && n in s.tables && KeyColumnsFrom(s.tables[n], r.rtype, 0)
             && k < |Rows(s, n)| && AgreesOnKeys(s.tables[n], Rows(s, n)[k], r)
             && forall j :: 0 <= j < k ==> !AgreesOnKeys(s.tables[n], Rows(s, n)[j], r)
    ensures var rows := Rows(s, TableName(toWords, r.rtype.name));
            && GetRowId(toWords, s, r).result == Ok(if rows[k].id == 0 then None else Some(rows[k].id))
            && GetRowId(toWords, s, r).rowids == if rows[k].id == 0 then s.rowids else s.rowids[r.handle := rows[k].id]
  {
    FlatLookupFindsFirstAgreeingRow(toWords, s, r);
  }

  /** A lookup in a table whose last row is the first to agree with the record finds that row. */
  lemma FindsAppendedRow(toWords: string -> string, t: SqlState, r1: Record, r2: Record, prefix: seq<Row>, row: Row)
    requires WellTyped(r2) && SameKeys(r1, r2) && FlatKeys(r2.rtype) && !NoKeyFields(r2.rtype)
    requires r2.handle !in t.rowids
    requires var n := TableName(toWords, r2.rtype.name);
             && n in t.tables && KeyColumnsFrom(t.tables[n], r2.rtype, 0)
             && Rows(t, n) == prefix + [row] && row.id > 0
             && AgreesOnKeys(t.tables[n], row, r1)
             && forall k :: 0 <= k < |prefix| ==> !AgreesOnKeys(t.tables[n], prefix[k], r1)
    ensures GetRowId(toWords, t, r2).result == Ok(Some(row.id))
  {
    var n := TableName(toWords, r2.rtype.name);
    var table, rows := t.tables[n], Rows(t, n);
    FlatLookupFindsFirstAgreeingRow(toWords, t, r2);
    SameKeysSameAgreement(table, row, r1, r2);
    forall j | 0 <= j < |prefix| ensures !AgreesOnKeys(table, rows[j], r2) {
      assert rows[j] == prefix[j];
      SameKeysSameAgreement(table, rows[j], r1, r2);
    }
    assert rows[|prefix|] == row;
  }

  /**
   * Deduplication when `r1` was inserted: its new row is the first one `r2` agrees with. The
   * key fields are not nested records; other fields may be, as long as `r2` is not nested in
   * `r1` and no nested type shares `r1`'s table.
   */
  lemma DedupWhenInserted(toWords: string -> string, s: SqlState, r1: Record, r2: Record)
    requires Consistent(s) && PositiveIds(s)
    requires WellTyped(r1) && WellTyped(r2) && SameKeys(r1, r2)
    requires FlatKeys(r1.rtype) && !NoKeyFields(r1.rtype) && DistinctColumnNames(r1.rtype)
    requires TableName(toWords, r1.rtype.name) !in BelowNames(toWords, r1.rtype)
    requires r2.handle !in s.rowids && r1.handle != r2.handle && r2.handle !in NestedHandles(r1)
    requires var n := TableName(toWords, r1.rtype.name);
             n in s.tables ==> forall k :: 0 <= k < |Rows(s, n)| ==> !AgreesOnKeys(s.tables[n], Rows(s, n)[k], r1)
    requires AddRow(toWords, s, r1, true).result.Ok?
    ensures var a1 := AddRow(toWords, s, r1, true);
            var a2 := Add(toWords, a1.state, r2, true);
            a2.result == a1.result && a2.state.store == a1.state.store
  {
    var n := TableName(toWords, r1.rtype.name);
    var a1 := AddRow(toWords, s, r1, true);
    AddRowAppendsAgreeingRow(toWords, s, r1, true);
    AddRowMemoises(toWords, s, r1, true);
    var rows := Rows(a1.state, n);
    var k := |Rows(s, n)|;
    assert n !in s.tables ==> Rows(s, n) == [];
    FindsAppendedRow(toWords, a1.state, r1, r2, Rows(s, n), rows[k]);
    FlatLookupFindsFirstAgreeingRow(toWords, a1.state, r2);
  }

  /**
   * Cross-instance deduplication: after `add(r1)`, adding a distinct instance `r2` of the same
   * type with equal key values returns `r1`'s id and inserts nothing. The key fields are not
   * nested records; other fields may be, as long as `r2` is not nested in `r1` and no nested
   * type shares `r1`'s table.
   */
  lemma CrossInstanceDedup(toWords: string -> string, s: SqlState, r1: Record, r2: Record)
    requires Consistent(s) && PositiveIds(s)
    requires WellTyped(r1) && WellTyped(r2) && SameKeys(r1, r2)
    requires FlatKeys(r1.rtype) && !NoKeyFields(r1.rtype) && DistinctColumnNames(r1.rtype)
    requires TableName(toWords, r1.rtype.name) !in BelowNames(toWords, r1.rtype)
    requires r1.handle !in s.rowids && r2.handle !in s.rowids && r1.handle != r2.handle
    requires r2.handle !in NestedHandles(r1)
    requires Add(toWords, s, r1, true).result.Ok?
    ensures var a1 := Add(toWords, s, r1, true);
            var a2 := Add(toWords, a1.state, r2, true);
            a2.result == a1.result && a2.state.store == a1.state.store
  {
    var n := TableName(toWords, r1.rtype.name);
    var l1 := GetRowId(toWords, s, r1);
    if l1.result.value.Some? {
      DedupWhenFound(toWords, s, r1, r2);
    } else {
      if n in s.tables {
        FlatLookupFindsFirstAgreeingRow(toWords, s, r1);
        NoAgreeingRow(s.tables[n], Rows(s, n), r1, l1.result.value);
      }
      assert l1.rowids == s.rowids;
      assert Add(toWords, s, r1, true) == AddRow(toWords, s, r1, true);
      DedupWhenInserted(toWords, s, r1, r2);
    }
  }

  lemma FoundRowIsFirstAgreeing(table: Table, rows: seq<Row>, r1: Record, r2: Record, id: int)
    requires forall row: Row :: AgreesOnKeys(table, row, r1) <==> AgreesOnKeys(table, row, r2)
    requires forall k :: 0 <= k < |rows| && AgreesOnKeys(table, rows[k], r1)
                         && (forall j :: 0 <= j < k ==> !AgreesOnKeys(table, rows[j], r1)) ==>
               Some(id) == if rows[k].id == 0 then None else Some(rows[k].id)
    requires (forall k :: 0 <= k < |rows| ==> !AgreesOnKeys(table, rows[k], r1)) ==> Some(id) == None
    ensures exists k :: 0 <= k < |rows| && AgreesOnKeys(table, rows[k], r2) && rows[k].id == id
                        && (forall j :: 0 <= j < k ==> !AgreesOnKeys(table, rows[j], r2))
  {
    if forall k :: 0 <= k < |rows| ==> !AgreesOnKeys(table, rows[k], r1) {
      assert false;
    }
    var k := FirstAgreeing(table, rows, r1);
    assert Some(id) == if rows[k].id == 0 then None else Some(rows[k].id);
    assert AgreesOnKeys(table, rows[k], r2);
  }

  /** The position of the first row agreeing with `r`, given that one does. */
  function FirstAgreeing(table: Table, rows: seq<Row>, r: Record): (k: nat)
    requires exists k :: 0 <= k < |rows| && AgreesOnKeys(table, rows[k], r)
    ensures k < |rows| && AgreesOnKeys(table, rows[k], r)
    ensures forall j :: 0 <= j < k ==> !AgreesOnKeys(table, rows[j], r)
  {
    if AgreesOnKeys(table, rows[0], r) then 0 else 1 + FirstAgreeing(table, rows[1..], r)
  }

  lemma NoAgreeingRow(table: Table, rows: seq<Row>, r: Record, found: Option<int>)
    requires forall k :: 0 <= k < |rows| ==> rows[k].id > 0
    requires forall k :: 0 <= k < |rows| && AgreesOnKeys(table, rows[k], r)
                         && (forall j :: 0 <= j < k ==> !AgreesOnKeys(table, rows[j], r)) ==>
               found == if rows[k].id == 0 then None else Some(rows[k].id)
    requires found == None
    ensures forall k :: 0 <= k < |rows| ==> !AgreesOnKeys(table, rows[k], r)
  {
    if exists k :: 0 <= k < |rows| && AgreesOnKeys(table, rows[k], r) {
      var k := FirstAgreeing(table, rows, r);
      assert false;
    }
  }

  /** Each field of `t` gets a column name of its own, other than the primary key's `id`. */
  predicate DistinctColumnNames(t: RecordType)
  {
    && IdFree(t)
    && forall i, j :: 0 <= i < j < |t.fields| ==> ColumnName(t.fields[i]) != ColumnName(t.fields[j])
  }

  /**
   * The row holds what `add` stores for field `f` with value `v`: the value under the field's
   * name, or, for a nested record, that record's memoised id under `<name>_id`.
   */
  predicate CellHolds(cells: map<string, Value>, rowids: RowIds, f: FieldSpec, v: Value)
  {
    && ColumnName(f) in cells
    && if v.RecordV? then v.rec.handle in rowids && cells[ColumnName(f)] == IntV(rowids[v.rec.handle])
       else cells[ColumnName(f)] == v
  }

  /**
   * One turn of the loop of `add`: field `i` puts `x` under its column, in a state whose memo
   * holds, for a nested record, the id stored as `x`.
   */
  lemma RowCellsFromStep(toWords: string -> string, s: SqlState, r: Record, checkExists: bool, i: nat,
                         acc: map<string, Value>)
    returns (next: SqlState, x: Value)
    requires WellTyped(r) && i < |r.values|
    requires RowCellsFrom(toWords, s, r, checkExists, i, acc).result.Ok?
    ensures RowCellsFrom(toWords, s, r, checkExists, i, acc)
            == RowCellsFrom(toWords, next, r, checkExists, i + 1, acc[ColumnName(r.rtype.fields[i]) := x])
    ensures CellHolds(map[ColumnName(r.rtype.fields[i]) := x], next.rowids, r.rtype.fields[i], r.values[i])
  {
    var f, v := r.rtype.fields[i], r.values[i];
    assert Fits(f.kind, v);
    next, x := s, v;
    if v.RecordV? {
      var sub := Add(toWords, s, v.rec, checkExists);
      next, x := sub.state, IntV(sub.result.value);
    }
  }

  /** The value `add` stores for field value `v`, given the memo: a nested record's id, or `v` itself. */
  function CellValue(v: Value, m: RowIds): Value
  {
    if v.RecordV? && v.rec.handle in m then IntV(m[v.rec.handle]) else v
  }

  /** The cells the loop of `add` puts into `acc` from field `i` on, given the memo it ends with. */
  function FieldCells(acc: map<string, Value>, r: Record, i: nat, m: RowIds): map<string, Value>
    requires WellTyped(r) && i <= |r.values|
    decreases |r.values| - i
  {
    if i == |r.values| then acc
    else FieldCells(acc[ColumnName(r.rtype.fields[i]) := CellValue(r.values[i], m)], r, i + 1, m)
  }

  /**
   * The loop of `add` builds exactly `FieldCells` over the memo it ends with, and that memo
   * holds the id of every nested record it met.
   */
  lemma {:induction false} RowCellsFromFieldCells(toWords: string -> string, s: SqlState, r: Record,
                                                  checkExists: bool, i: nat, acc: map<string, Value>)
    requires WellTyped(r) && i <= |r.values|
    requires RowCellsFrom(toWords, s, r, checkExists, i, acc).result.Ok?
    ensures var c := RowCellsFrom(toWords, s, r, checkExists, i, acc);
            && c.result.value == FieldCells(acc, r, i, c.state.rowids)
            && forall j :: i <= j < |r.values| && r.values[j].RecordV? ==> r.values[j].rec.handle in c.state.rowids
    decreases |r.values| - i
  {
    if i < |r.values| {
      var next, x := RowCellsFromStep(toWords, s, r, checkExists, i, acc);
      var acc' := acc[ColumnName(r.rtype.fields[i]) := x];
      RowCellsFromFieldCells(toWords, next, r, checkExists, i + 1, acc');
      var c := RowCellsFrom(toWords, next, r, checkExists, i + 1, acc');
      assert MemoGrows(next.rowids, c.state.rowids);
      assert x == CellValue(r.values[i], c.state.rowids);
    }
  }

  /** The cells from field `i` on are those of `acc` and the columns of those fields, and no other. */
  lemma {:induction false} FieldCellsKeys(acc: map<string, Value>, r: Record, i: nat, m: RowIds)
    requires WellTyped(r) && i <= |r.values|
    ensures forall k :: k in FieldCells(acc, r, i, m) <==>
              k in acc || exists j :: i <= j < |r.values| && ColumnName(r.rtype.fields[j]) == k
    decreases |r.values| - i
  {
    if i < |r.values| {
      FieldCellsKeys(acc[ColumnName(r.rtype.fields[i]) := CellValue(r.values[i], m)], r, i + 1, m);
    }
  }

  /** A cell of `acc` that no field from `i` on overwrites keeps its value. */
  lemma {:induction false} FieldCellsKeep(acc: map<string, Value>, r: Record, i: nat, m: RowIds, k: string)
    requires WellTyped(r) && i <= |r.values|
    requires k in acc && forall j :: i <= j < |r.values| ==> ColumnName(r.rtype.fields[j]) != k
    ensures k in FieldCells(acc, r, i, m) && FieldCells(acc, r, i, m)[k] == acc[k]
    decreases |r.values| - i
  {
    if i < |r.values| {
      FieldCellsKeep(acc[ColumnName(r.rtype.fields[i]) := CellValue(r.values[i], m)], r, i + 1, m, k);
    }
  }

  /** With distinct column names, each field from `i` on has its cell in `FieldCells`. */
  lemma {:induction false} FieldCellsHold(acc: map<string, Value>, r: Record, i: nat, m: RowIds)
    requires WellTyped(r) && i <= |r.values| && DistinctColumnNames(r.rtype)
    requires forall j :: i <= j < |r.values| && r.values[j].RecordV? ==> r.values[j].rec.handle in m
    ensures forall j :: i <= j < |r.values| ==> CellHolds(FieldCells(acc, r, i, m), m, r.rtype.fields[j], r.values[j])
    decreases |r.values| - i
  {
    if i < |r.values| {
      var f, v := r.rtype.fields[i], r.values[i];
      var acc' := acc[ColumnName(f) := CellValue(v, m)];
      FieldCellsHold(acc', r, i + 1, m);
      FieldCellsKeep(acc', r, i + 1, m, ColumnName(f));
      assert Fits(f.kind, v);
      assert CellHolds(FieldCells(acc, r, i, m), m, f, v);
    }
  }

  /** The row the loop of `add` builds holds every field's cell, and only the fields' columns. */
  lemma RowCellsFromStoresFields(toWords: string -> string, s: SqlState, r: Record, checkExists: bool)
    requires WellTyped(r) && DistinctColumnNames(r.rtype)
    requires RowCellsFrom(toWords, s, r, checkExists, 0, map[]).result.Ok?
    ensures var c := RowCellsFrom(toWords, s, r, checkExists, 0, map[]);
            && (forall j :: 0 <= j < |r.values| ==>
                  CellHolds(c.result.value, c.state.rowids, r.rtype.fields[j], r.values[j]))
            && (forall k :: k in c.result.value <==>
                  exists j :: 0 <= j < |r.values| && ColumnName(r.rtype.fields[j]) == k)
  {
    RowCellsFromFieldCells(toWords, s, r, checkExists, 0, map[]);
    var m := RowCellsFrom(toWords, s, r, checkExists, 0, map[]).state.rowids;
    FieldCellsHold(map[], r, 0, m);
    FieldCellsKeys(map[], r, 0, m);
  }

  /**
   * Nested records are added before their parent: the parent's new row holds each scalar field's
   * value under the field's name and, for each nested record, the id memoised for it under
   * `<name>_id`, and no other column.
   */
  lemma AddRowStoresFieldsAndNestedIds(toWords: string -> string, s: SqlState, r: Record, checkExists: bool)
    requires Consistent(s) && WellTyped(r) && DistinctColumnNames(r.rtype) && r.handle !in NestedHandles(r)
    requires AddRow(toWords, s, r, checkExists).result.Ok?
    ensures var a := AddRow(toWords, s, r, checkExists);
            var rows := Rows(a.state, TableName(toWords, r.rtype.name));
            |rows| > 0 && RowStores(rows[|rows| - 1], a.result.value, a.state.rowids, r)
  {
    RowCellsFromStoresFields(toWords, s, r, checkExists);
    var cells, s1, id := AddRowSteps(toWords, s, r, checkExists);
    InsertedRowStores(cells, id, s1.rowids, r);
  }

  /**
   * A successful `AddRow` in three steps: the row's cells are built (adding nested records),
   * the row is appended to the record's table, and its id is memoised.
   */
  lemma AddRowSteps(toWords: string -> string, s: SqlState, r: Record, checkExists: bool)
    returns (cells: map<string, Value>, s1: SqlState, id: int)
    requires Consistent(s) && WellTyped(r)
    requires AddRow(toWords, s, r, checkExists).result.Ok?
    ensures RowCellsFrom(toWords, s, r, checkExists, 0, map[]) == Cells(Ok(cells), s1)
    ensures var a := AddRow(toWords, s, r, checkExists);
            var n := TableName(toWords, r.rtype.name);
            && a.result == Ok(id)
            && Rows(a.state, n) == Rows(s1, n) + [Row(id, cells)]
            && a.state.rowids == s1.rowids[r.handle := id]
            && (Rows(s1, n) == [] ==> id == 1)
            && (IdsIncreasing(Rows(s1, n)) ==> forall k :: 0 <= k < |Rows(s1, n)| ==> Rows(s1, n)[k].id < id)
  {
    var c := RowCellsFrom(toWords, s, r, checkExists, 0, map[]);
    cells, s1 := c.result.value, c.state;
    var rt := RequireTable(toWords, s1.tables, r.rtype);
    StoreRowSteps(toWords, s1, r, cells);
    var ins := InsertRow(s1.(tables := rt.tables), rt.result.value, cells);
    id := ins.result.value;
    assert rt.result.value.name == TableName(toWords, r.rtype.name);
  }

  lemma DirectlyNestedHandle(r: Record, j: nat)
    requires j < |r.values| && r.values[j].RecordV?
    ensures r.values[j].rec.handle in NestedHandles(r)
  {
    var h := r.values[j].rec.handle;
    assert h in {r.values[j].rec.handle} + NestedHandles(r.values[j].rec);
  }

  /** The row `add` inserts for `r`, with id `id`, given the memoised ids after the insert. */
  ghost predicate RowStores(row: Row, id: int, rowids: RowIds, r: Record)
  {
    && row.id == id
    && (forall j :: 0 <= j < |r.values| && j < |r.rtype.fields| ==>
          CellHolds(row.cells, rowids, r.rtype.fields[j], r.values[j]))
    && (forall k :: k in row.cells <==>
          exists j :: 0 <= j < |r.values| && j < |r.rtype.fields| && ColumnName(r.rtype.fields[j]) == k)
  }

  /** The row built for `r` still holds the right ids once `r`'s own id is memoised too. */
  lemma InsertedRowStores(cells: map<string, Value>, id: int, m: RowIds, r: Record)
    requires WellTyped(r) && r.handle !in NestedHandles(r)
    requires forall j :: 0 <= j < |r.values| ==> CellHolds(cells, m, r.rtype.fields[j], r.values[j])
    requires forall k :: k in cells <==>
               exists j :: 0 <= j < |r.values| && ColumnName(r.rtype.fields[j]) == k
    ensures RowStores(Row(id, cells), id, m[r.handle := id], r)
  {
    forall j | 0 <= j < |r.values|
      ensures CellHolds(cells, m[r.handle := id], r.rtype.fields[j], r.values[j])
    {
      if r.values[j].RecordV? {
        DirectlyNestedHandle(r, j);
      }
    }
  }

  /**
   * Without `check_exists`, `add` of an instance with no memoised id looks for no matching row:
   * it inserts or fails. On success, in a consistent store where no nested type shares the
   * record's table, that table gains exactly one row, carrying the returned id, above every id
   * already there.
   */
  lemma AddWithoutCheckInserts(toWords: string -> string, s: SqlState, r: Record)
    requires WellTyped(r) && r.handle !in s.rowids
    ensures Add(toWords, s, r, false) == AddRow(toWords, s, r, false)
    ensures var a := Add(toWords, s, r, false);
            var n := TableName(toWords, r.rtype.name);
            Consistent(s) && n !in BelowNames(toWords, r.rtype) && a.result.Ok? ==>
              InsertedAbove(s, a.state, n, a.result.value)
  {
    var n := TableName(toWords, r.rtype.name);
    if Consistent(s) && n !in BelowNames(toWords, r.rtype) && AddRow(toWords, s, r, false).result.Ok? {
      RowCellsWithin(toWords, s, r, false, 0, map[]);
      var cells, s1, id := AddRowSteps(toWords, s, r, false);
      AppendedAbove(s, s1, AddRow(toWords, s, r, false).state, n, cells, id);
    }
  }

  /** From `s` to `s'`, table `n` gained exactly one row, with id `id`, above every earlier id. */
  ghost predicate InsertedAbove(s: SqlState, s': SqlState, n: string, id: int)
  {
    && |Rows(s', n)| == |Rows(s, n)| + 1
    && Rows(s', n) == Rows(s, n) + [Rows(s', n)[|Rows(s, n)|]]
    && Rows(s', n)[|Rows(s, n)|].id == id
    && forall k :: 0 <= k < |Rows(s, n)| ==> Rows(s, n)[k].id < id
  }

  lemma AppendedAbove(s: SqlState, s1: SqlState, s': SqlState, n: string, cells: map<string, Value>, id: int)
    requires Consistent(s1) && Rows(s1, n) == Rows(s, n)
    requires Rows(s', n) == Rows(s1, n) + [Row(id, cells)]
    requires IdsIncreasing(Rows(s1, n)) ==> forall k :: 0 <= k < |Rows(s1, n)| ==> Rows(s1, n)[k].id < id
    ensures InsertedAbove(s, s', n, id)
  {
    assert Rows(s', n)[|Rows(s, n)|] == Row(id, cells);
  }

  /** When a table's rowids are 1, 2, ..., a new row's id is its position plus one. */
  lemma InsertAtPosition(s: SqlState, table: Table, cells: map<string, Value>)
    requires forall k :: 0 <= k < |Rows(s, table.name)| ==> Rows(s, table.name)[k].id == k + 1
    requires InsertRow(s, table, cells).result.Ok?
    ensures var ins := InsertRow(s, table, cells);
            var rows := Rows(ins.state, table.name);
            && ins.result.value == |rows|
            && forall k :: 0 <= k < |rows| ==> rows[k].id == k + 1
  {
  }
}
