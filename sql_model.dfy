/**
 * `SqlModel` as an object: the table cache (`metadata.tables`), the rows of every table and the
 * memoised `_rowid` of each instance are fields that its methods update in place. Each method
 * is proved to leave exactly the result and the state that the functions of `SqlSchema` and
 * `SqlStore` describe, so every property proved of those functions holds of the object.
 */
module SqlAdapter {
  import opened Results
  import opened Records
  import opened Naming
  import opened SqlSchema
  import opened SqlStore

  class SqlModel {
    /** `camelcase_to_words`, which is not part of this model. */
    const toWords: string -> string
    /** `metadata.tables`. */
    var tables: Tables
    /** The rows of every table, in rowid order. */
    var store: Store
    /** The `_rowid` attribute of each instance that has one. */
    var rowids: RowIds

    function State(): SqlState
      reads this
    {
      SqlState(tables, store, rowids)
    }

    ghost predicate Valid()
      reads this
    {
      Consistent(State())
    }

    /** `SqlModel(engine)`: the cache starts as the reflected tables; no instance has an id yet. */
    constructor (toWords: string -> string, reflected: Tables, rows: Store)
      ensures this.toWords == toWords && State() == SqlState(reflected, rows, map[])
      ensures Consistent(SqlState(reflected, rows, map[])) ==> Valid()
    {
      this.toWords := toWords;
      tables := reflected;
      store := rows;
      rowids := map[];
    }

    /** `_require_table`. */
    method RequireTable(t: RecordType) returns (res: Result<Table>)
      modifies this
      ensures var st := SqlSchema.RequireTable(toWords, old(tables), t);
              res == st.result && tables == st.tables
      ensures store == old(store) && rowids == old(rowids)
      decreases t, 3, 0
    {
      var n := TableName(toWords, t.name);
      if n in tables {
        return Ok(tables[n]);
      }
      res := CreateTable(n, t);
    }

    /** `get_table`: changes nothing. */
    method GetTable(t: RecordType) returns (res: Result<Table>)
      ensures res.Ok? <==> TableName(toWords, t.name) in tables
      ensures res.Ok? ==> res.value == tables[TableName(toWords, t.name)]
      ensures res.Err? ==> res.error == NoSuchTable(TableName(toWords, t.name))
    {
      var n := TableName(toWords, t.name);
      if n !in tables {
        return Err(NoSuchTable(n));
      }
      return Ok(tables[n]);
    }

    /**
     * `_create_table`: the `id` column and one column per field, then the table is registered
     * unless a field's column would redefine `id`.
     */
    method CreateTable(n: string, t: RecordType) returns (res: Result<Table>)
      modifies this
      ensures var st := SqlSchema.CreateTable(toWords, old(tables), n, t);
              res == st.result && tables == st.tables
      ensures store == old(store) && rowids == old(rowids)
      decreases t, 2, 0
    {
      var columns := [IdColumn];
      var i := 0;
      while i < |t.fields|
        invariant i <= |t.fields|
        invariant CreateColumnsFrom(toWords, old(tables), t, 0, [IdColumn]) == CreateColumnsFrom(toWords, tables, t, i, columns)
        invariant store == old(store) && rowids == old(rowids)
        decreases |t.fields| - i
      {
        var c := CreateColumn(t.fields[i]);
        if c.Err? {
          return Err(c.error);
        }
        columns := columns + [c.value];
        i := i + 1;
      }
      if n in tables {
        return Err(TableAlreadyDefined(n));
      }
      if !IdFree(t) {
        return Err(PrimaryKeyRedefined(n));
      }
      var table := Table(n, columns);
      tables := tables[n := table];
      return Ok(table);
    }

    /** `_create_column`. */
    method CreateColumn(f: FieldSpec) returns (res: Result<Column>)
      modifies this
      ensures var st := SqlSchema.CreateColumn(toWords, old(tables), f);
              res == st.result && tables == st.tables
      ensures store == old(store) && rowids == old(rowids)
      decreases f, 0, 0
    {
      if IsNested(f) {
        var sub := RequireTable(f.kind.rtype);
        if sub.Err? {
          return Err(sub.error);
        }
        return Ok(Column(f.name + "_id", ForeignKey(sub.value.name + ".id"), true, false));
      }
      var ct := ScalarColumnType(f);
      if ct.None? {
        return Err(UnsupportedType(f.name));
      }
      return Ok(Column(f.name, ct.value, f.defaultIsNone, false));
    }

    /** `_get_rowid`: may memoise ids, of `r` and of nested key records; changes nothing else. */
    method GetRowId(r: Record) returns (res: Result<Option<int>>)
      requires WellTyped(r)
      modifies this
      ensures var l := SqlStore.GetRowId(toWords, old(State()), r);
              res == l.result && State() == old(State()).(rowids := l.rowids)
      decreases r, 1, 0
    {
      if r.handle in rowids {
        return Ok(Some(rowids[r.handle]));
      }
      var n := TableName(toWords, r.rtype.name);
      if n !in tables {
        return Ok(None);
      }
      var table := tables[n];
      var clauses := [];
      var i := 0;
      while i < |r.values|
        invariant i <= |r.values|
        invariant tables == old(tables) && store == old(store)
        invariant KeyClausesFrom(toWords, old(State()), table, r, 0, []) == KeyClausesFrom(toWords, State(), table, r, i, clauses)
        decreases |r.values| - i
      {
        var f, v := r.rtype.fields[i], r.values[i];
        assert Fits(f.kind, v);
        if f.isKey {
          if IsNested(f) {
            var sub := GetRowId(v.rec);
            if sub.Err? {
              return Err(sub.error);
            }
            if !HasColumn(table, f.name + "_id") {
              return Err(NoSuchColumn(f.name + "_id"));
            }
            clauses := clauses + [RefersTo(f.name + "_id", sub.value)];
          } else {
            if !HasColumn(table, f.name) {
              return Err(NoSuchColumn(f.name));
            }
            clauses := clauses + [Equals(f.name, v)];
          }
        }
        i := i + 1;
      }
      if clauses == [] {
        return Ok(None);
      }
      var found := SelectId(table, Rows(State(), n), clauses);
      if found.None? || found.value == 0 {
        return Ok(None);
      }
      rowids := rowids[r.handle := found.value];
      return Ok(found);
    }

    /** `exists`. */
    method Exists(r: Record) returns (res: Result<bool>)
      requires WellTyped(r)
      modifies this
      ensures var a := SqlStore.Exists(toWords, old(State()), r);
              res == a.result && State() == old(State()).(rowids := a.rowids)
    {
      var found := GetRowId(r);
      if found.Err? {
        return Err(found.error);
      }
      return Ok(found.value.Some?);
    }

    /** `add`: nested records are added first, then the record's own row is inserted. */
    method Add(r: Record, checkExists: bool) returns (res: Result<int>)
      requires WellTyped(r)
      modifies this
      ensures var a := SqlStore.Add(toWords, old(State()), r, checkExists);
              res == a.result && State() == a.state
      ensures old(Valid()) ==> Valid()
      decreases r, 2, 0
    {
      if r.handle in rowids {
        return Ok(rowids[r.handle]);
      }
      if checkExists {
        var found := GetRowId(r);
        if found.Err? {
          return Err(found.error);
        }
        if found.value.Some? {
          return Ok(found.value.value);
        }
      }
      res := AddRow(r, checkExists);
    }

    /**
     * The rest of `add` once no id was found: build the row field by field, make sure the table
     * exists, insert the row (the database assigns its rowid) and set `_rowid`.
     */
    method AddRow(r: Record, checkExists: bool) returns (res: Result<int>)
      requires WellTyped(r)
      modifies this
      ensures var a := SqlStore.AddRow(toWords, old(State()), r, checkExists);
              res == a.result && State() == a.state
      decreases r, 1, 0
    {
      var row := BuildRow(r, checkExists);
      if row.Err? {
        return Err(row.error);
      }
      var table := RequireTable(r.rtype);
      if table.Err? {
        return Err(table.error);
      }
      var inserted := InsertRow(State(), table.value, row.value);
      if inserted.result.Err? {
        return Err(inserted.result.error);
      }
      store := inserted.state.store;
      rowids := rowids[r.handle := inserted.result.value];
      return Ok(inserted.result.value);
    }

    /** The loop of `add` over the fields: a nested record is added first and stored by its id. */
    method BuildRow(r: Record, checkExists: bool) returns (row: Result<map<string, Value>>)
      requires WellTyped(r)
      modifies this
      ensures Cells(row, State()) == RowCellsFrom(toWords, old(State()), r, checkExists, 0, map[])
      decreases r, 0, 0
    {
      var cells := map[];
      var i := 0;
      while i < |r.values|
        invariant i <= |r.values|
        invariant RowCellsFrom(toWords, old(State()), r, checkExists, 0, map[])
                  == RowCellsFrom(toWords, State(), r, checkExists, i, cells)
        decreases |r.values| - i
      {
        var f, v := r.rtype.fields[i], r.values[i];
        if v.RecordV? {
          assert Fits(f.kind, v);
          var id := Add(v.rec, checkExists);
          if id.Err? {
            return Err(id.error);
          }
          cells := cells[f.name + "_id" := IntV(id.value)];
        } else {
          cells := cells[f.name := v];
        }
        i := i + 1;
      }
      return Ok(cells);
    }
  }
}
