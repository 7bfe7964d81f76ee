/**
 * The row side of `SqlModel`: finding the row of a record by its key fields (`_get_rowid`),
 * `exists`, and `add`, which inserts nested records first and then the record's own row.
 *
 * The database is modelled as SQLite behaves for these statements: each table is a sequence
 * of rows in rowid order, a new row gets the last rowid plus one (1 in an empty table), a
 * `NOCASE` column compares with ASCII case folded, `column == None` compiles to `IS NULL`,
 * and `.scalar()` yields the id of the first matching row. The memoised `_rowid` of each
 * instance is the map `rowids`, keyed by the instance's handle.
 */
module SqlStore {
  import opened Results
  import opened Records
  import opened Naming
  import opened SqlSchema

  /** One stored row: its rowid and the values of the columns it was inserted with. */
  datatype Row = Row(id: int, cells: map<string, Value>)

  type Store = map<string, seq<Row>>

  /** The memoised `_rowid` of each instance that has one. */
  type RowIds = map<Handle, int>

  /** The cache of tables, the rows of every table, and the memoised ids. */
  datatype SqlState = SqlState(tables: Tables, store: Store, rowids: RowIds)

  function Rows(s: SqlState, n: string): seq<Row>
  {
    if n in s.store then s.store[n] else []
  }

  /** Rowids are unique and a table scan meets them in increasing order. */
  predicate IdsIncreasing(rows: seq<Row>)
  {
    forall i, j :: 0 <= i < j < |rows| ==> rows[i].id < rows[j].id
  }

  /** The cache names its tables correctly, and only cached tables hold rows. */
  predicate Consistent(s: SqlState)
  {
    && NamedTables(s.tables)
    && forall n :: n in s.store ==> n in s.tables && IdsIncreasing(s.store[n])
  }

  /** Every memoised id of `m` is still there, unchanged, in `m'`. */
  predicate MemoGrows(m: RowIds, m': RowIds)
  {
    forall h :: h in m ==> h in m' && m'[h] == m[h]
  }

  /** Rows are only ever appended: each table of `st` is a prefix of the same table in `st'`. */
  predicate StoreGrows(st: Store, st': Store)
  {
    forall n :: n in st ==> n in st' && st[n] <= st'[n]
  }

  /** Nothing is ever dropped: tables, rows and memoised ids are only added. */
  predicate Grows(s: SqlState, s': SqlState)
  {
    Extends(s.tables, s'.tables) && StoreGrows(s.store, s'.store) && MemoGrows(s.rowids, s'.rowids)
  }

  /** One condition of the `WHERE` clause built by `_get_rowid`. */
  datatype Clause =
    /** `table.c[column] == value` for a scalar key field. */
    | Equals(column: string, value: Value)
    /** `table.c[column] == row_id` for a nested key field; `None` compiles to `IS NULL`. */
    | RefersTo(column: string, id: Option<int>)

  /** The type of the first column called `name`, if there is one. */
  function ColumnTypeOf(columns: seq<Column>, name: string): (ct: Option<ColumnType>)
    ensures ct.Some? <==> exists k :: 0 <= k < |columns| && columns[k].name == name
  {
    if columns == [] then None
    else if columns[0].name == name then Some(columns[0].ctype)
    else ColumnTypeOf(columns[1..], name)
  }

  predicate HasColumn(table: Table, name: string)
  {
    ColumnTypeOf(table.columns, name).Some?
  }

  /** SQL equality of a stored value with a value, under the column's collation. */
  predicate CellEquals(ct: Option<ColumnType>, stored: Value, v: Value)
  {
    if ct == Some(NoCaseString) && stored.StrV? && v.StrV? then Lower(stored.s) == Lower(v.s)
    else stored == v
  }

  predicate Satisfies(table: Table, row: Row, c: Clause)
  {
    match c
    case Equals(col, v) =>
      col in row.cells && CellEquals(ColumnTypeOf(table.columns, col), row.cells[col], v)
    case RefersTo(col, None) => col !in row.cells
    case RefersTo(col, Some(id)) => col in row.cells && row.cells[col] == IntV(id)
  }

  /** `and_(*clauses)` holds of the row. */
  predicate MatchesAll(table: Table, row: Row, cs: seq<Clause>)
  {
    forall k :: 0 <= k < |cs| ==> Satisfies(table, row, cs[k])
  }

  /** The position of the first row satisfying every clause. */
  function FirstMatch(table: Table, rows: seq<Row>, cs: seq<Clause>): (k: Option<nat>)
    ensures k.None? <==> forall j :: 0 <= j < |rows| ==> !MatchesAll(table, rows[j], cs)
    ensures k.Some? ==> k.value < |rows| && MatchesAll(table, rows[k.value], cs)
                        && forall j :: 0 <= j < k.value ==> !MatchesAll(table, rows[j], cs)
  {
    if rows == [] then None
    else if MatchesAll(table, rows[0], cs) then Some(0)
    else match FirstMatch(table, rows[1..], cs)
      case None => None
      case Some(k) => Some(k + 1)
  }

  /** `select([table.c.id]).where(and_(*clauses))` followed by `.scalar()`. */
  function SelectId(table: Table, rows: seq<Row>, cs: seq<Clause>): Option<int>
  {
    match FirstMatch(table, rows, cs)
    case None => None
    case Some(k) => Some(rows[k].id)
  }

  /** The clauses found so far, or the error, and the memoised ids after nested lookups. */
  datatype Clauses = Clauses(result: Result<seq<Clause>>, rowids: RowIds)

  /** The memoised id when found, or `None`, and the memoised ids afterwards. */
  datatype Lookup = Lookup(result: Result<Option<int>>, rowids: RowIds)

  /**
   * The loop of `_get_rowid` over the key fields from field `i` on: a nested key field first
   * resolves the nested record and compares `<name>_id` with its id (possibly `None`); a scalar
   * key field compares its column with the value. Naming a column the table lacks is an error.
   */
  function KeyClausesFrom(toWords: string -> string, s: SqlState, table: Table, r: Record, i: nat,
                          acc: seq<Clause>): (c: Clauses)
    requires WellTyped(r) && i <= |r.values|
    ensures MemoGrows(s.rowids, c.rowids)
    decreases r, 0, |r.values| - i
  {
    if i == |r.values| then Clauses(Ok(acc), s.rowids)
    else
      var f, v := r.rtype.fields[i], r.values[i];
      assert Fits(f.kind, v);
      if !f.isKey then KeyClausesFrom(toWords, s, table, r, i + 1, acc)
      else if IsNested(f) then
        var sub := GetRowId(toWords, s, v.rec);
        if sub.result.Err? then Clauses(Err(sub.result.error), sub.rowids)
        else if !HasColumn(table, f.name + "_id") then Clauses(Err(NoSuchColumn(f.name + "_id")), sub.rowids)
        else KeyClausesFrom(toWords, s.(rowids := sub.rowids), table, r, i + 1,
                            acc + [RefersTo(f.name + "_id", sub.result.value)])
      else if !HasColumn(table, f.name) then Clauses(Err(NoSuchColumn(f.name)), s.rowids)
      else KeyClausesFrom(toWords, s, table, r, i + 1, acc + [Equals(f.name, v)])
  }

  /**
   * `_get_rowid`: the memoised id if there is one; otherwise `None` without a table or without
   * key fields; otherwise the id of the first row matching every key clause, memoised, where a
   * falsy id counts as not found.
   */
  function GetRowId(toWords: string -> string, s: SqlState, r: Record): (l: Lookup)
    requires WellTyped(r)
    ensures MemoGrows(s.rowids, l.rowids)
    ensures l.result.Ok? && l.result.value.Some? ==>
              r.handle in l.rowids && l.rowids[r.handle] == l.result.value.value
    ensures r.handle in s.rowids ==> l == Lookup(Ok(Some(s.rowids[r.handle])), s.rowids)
    decreases r, 1, 0
  {
    if r.handle in s.rowids then Lookup(Ok(Some(s.rowids[r.handle])), s.rowids)
    else
      var n := TableName(toWords, r.rtype.name);
      if n !in s.tables then Lookup(Ok(None), s.rowids)
      else
        var table := s.tables[n];
        var c := KeyClausesFrom(toWords, s, table, r, 0, []);
        if c.result.Err? then Lookup(Err(c.result.error), c.rowids)
        else if c.result.value == [] then Lookup(Ok(None), c.rowids)
        else match SelectId(table, Rows(s, n), c.result.value)
          case None => Lookup(Ok(None), c.rowids)
          case Some(id) =>
            if id == 0 then Lookup(Ok(None), c.rowids)
            else Lookup(Ok(Some(id)), c.rowids[r.handle := id])
  }

  /** Whether the record exists, and the memoised ids afterwards. */
  datatype Answer = Answer(result: Result<bool>, rowids: RowIds)

  /** `exists`: `_get_rowid(data) is not None`. */
  function Exists(toWords: string -> string, s: SqlState, r: Record): (a: Answer)
    requires WellTyped(r)
    ensures a.result.Ok? <==> GetRowId(toWords, s, r).result.Ok?
    ensures a.result == Ok(true) <==> GetRowId(toWords, s, r).result.Ok? && GetRowId(toWords, s, r).result.value.Some?
    ensures a.rowids == GetRowId(toWords, s, r).rowids
  {
    var l := GetRowId(toWords, s, r);
    if l.result.Err? then Answer(Err(l.result.error), l.rowids) else Answer(Ok(l.result.value.Some?), l.rowids)
  }

  /** The row of an insert, or the error, and the state afterwards. */
  datatype Inserted = Inserted(result: Result<int>, state: SqlState)

  /** The rowid SQLite assigns next: one past the last, or 1 in an empty table. */
  function NextId(rows: seq<Row>): int
  {
    if rows == [] then 1 else rows[|rows| - 1].id + 1
  }

  /**
   * The row `cells` fits `table`: every cell names a column, and every non-nullable column other
   * than the primary key (which SQLite fills with the next rowid) has a cell.
   */
  predicate Accepts(table: Table, cells: map<string, Value>)
  {
    && (forall k :: k in cells ==> HasColumn(table, k))
    && (forall c :: c in table.columns && !c.nullable && !c.primaryKey ==> c.name in cells)
  }

  /**
   * `conn.execute(table.insert(), row)`: refused by SQLAlchemy when the row names an unknown
   * column, and by SQLite's NOT NULL constraint when it leaves a required column empty.
   */
  function InsertRow(s: SqlState, table: Table, cells: map<string, Value>): (ins: Inserted)
    ensures ins.result.Ok? <==> Accepts(table, cells)
    ensures ins.result.Ok? ==>
              && ins.state == s.(store := s.store[table.name := Rows(s, table.name) + [Row(ins.result.value, cells)]])
              && (IdsIncreasing(Rows(s, table.name)) ==>
                    forall k :: 0 <= k < |Rows(s, table.name)| ==> Rows(s, table.name)[k].id < ins.result.value)
    ensures ins.result.Err? ==> ins.state == s
    ensures Rows(s, table.name) == [] ==> ins.result.Ok? ==> ins.result.value == 1
    ensures Grows(s, ins.state)
    ensures Consistent(s) && table.name in s.tables ==> Consistent(ins.state)
  {
    var unknown := set k | k in cells && !HasColumn(table, k);
    var empty := set c | c in table.columns && !c.nullable && !c.primaryKey && c.name !in cells :: c.name;
    if unknown != {} then
      UnknownColumnExists(table, cells, unknown);
      Inserted(Err(UnconsumedColumns(unknown)), s)
    else if empty != {} then
      Inserted(Err(NotNullFailed(empty)), s)
    else
      assert forall k :: k in cells ==> k !in unknown;
      assert forall c :: c in table.columns && !c.nullable && !c.primaryKey ==> c.name !in empty;
      var rows := Rows(s, table.name);
      var id := NextId(rows);
      var s' := s.(store := s.store[table.name := rows + [Row(id, cells)]]);
      AppendKeepsIncreasing(rows, cells);
      AppendGrows(s, table.name, rows + [Row(id, cells)]);
      Inserted(Ok(id), s')
  }

  lemma UnknownColumnExists(table: Table, cells: map<string, Value>, unknown: set<string>)
    requires unknown == set k | k in cells && !HasColumn(table, k)
    requires unknown != {}
    ensures !forall k :: k in cells ==> HasColumn(table, k)
  {
    var k :| k in unknown;
  }

  /** A row appended with the next rowid keeps the ids increasing and is above every id before it. */
  lemma AppendKeepsIncreasing(rows: seq<Row>, cells: map<string, Value>)
    ensures IdsIncreasing(rows) ==>
              && IdsIncreasing(rows + [Row(NextId(rows), cells)])
              && forall k :: 0 <= k < |rows| ==> rows[k].id < NextId(rows)
  {
    if IdsIncreasing(rows) && rows != [] {
      var all := rows + [Row(NextId(rows), cells)];
      forall k | 0 <= k < |rows|
        ensures rows[k].id < NextId(rows)
      {
        if k < |rows| - 1 {
          assert rows[k].id < rows[|rows| - 1].id;
        }
      }
      forall i, j | 0 <= i < j < |all|
        ensures all[i].id < all[j].id
      {
        if j == |rows| {
          assert all[i] == rows[i];
        }
      }
    }
  }

  /** Replacing a table's rows by an extension of them grows the state. */
  lemma AppendGrows(s: SqlState, n: string, rows': seq<Row>)
    requires Rows(s, n) <= rows'
    ensures Grows(s, s.(store := s.store[n := rows']))
    ensures Consistent(s) && n in s.tables && IdsIncreasing(rows') ==> Consistent(s.(store := s.store[n := rows']))
  {
  }

  /** The id `add` returns, or the error, and the state afterwards. */
  datatype Added = Added(result: Result<int>, state: SqlState)

  /** The row `add` is building, or the error, and the state after the nested adds so far. */
  datatype Cells = Cells(result: Result<map<string, Value>>, state: SqlState)

  /**
   * `add`: the memoised id if there is one; with `checkExists`, the id of a matching row if
   * there is one; otherwise the nested records are added and the record's own row inserted.
   */
  function Add(toWords: string -> string, s: SqlState, r: Record, checkExists: bool): (a: Added)
    requires WellTyped(r)
    ensures Grows(s, a.state)
    ensures Consistent(s) ==> Consistent(a.state)
    ensures a.result.Ok? ==> r.handle in a.state.rowids && a.state.rowids[r.handle] == a.result.value
    ensures r.handle in s.rowids ==> a == Added(Ok(s.rowids[r.handle]), s)
    decreases r, 2, 0
  {
    if r.handle in s.rowids then Added(Ok(s.rowids[r.handle]), s)
    else if checkExists then
      var l := GetRowId(toWords, s, r);
      var s1 := s.(rowids := l.rowids);
      if l.result.Err? then Added(Err(l.result.error), s1)
      else if l.result.value.Some? then Added(Ok(l.result.value.value), s1)
      else AddRow(toWords, s1, r, checkExists)
    else AddRow(toWords, s, r, checkExists)
  }

  /**
   * The part of `add` after the existence check: build the row field by field (a nested record
   * is added first, with the same `checkExists`, and its id stored under `<name>_id`), make sure
   * the table exists, insert the row and memoise its id.
   */
  function AddRow(toWords: string -> string, s: SqlState, r: Record, checkExists: bool): (a: Added)
    requires WellTyped(r)
    ensures Extends(s.tables, a.state.tables) && StoreGrows(s.store, a.state.store)
    ensures MemoGrows(s.rowids - {r.handle}, a.state.rowids)
    ensures Consistent(s) ==> Consistent(a.state)
    ensures a.result.Ok? ==> r.handle in a.state.rowids && a.state.rowids[r.handle] == a.result.value
    ensures a.result.Ok? && Consistent(s) ==>
              var n := TableName(toWords, r.rtype.name);
              && n in a.state.tables && n in a.state.store && |a.state.store[n]| > 0
              && a.state.store[n][|a.state.store[n]| - 1].id == a.result.value
    decreases r, 1, 0
  {
    var cells := RowCellsFrom(toWords, s, r, checkExists, 0, map[]);
    if cells.result.Err? then Added(Err(cells.result.error), cells.state)
    else
      var a := StoreRow(toWords, cells.state, r, cells.result.value);
      GrowsWithout(s, cells.state, a.state, r.handle);
      a
  }

  /** `Grows` followed by a step that keeps every memoised id but that of `h`. */
  lemma GrowsWithout(s: SqlState, s1: SqlState, s2: SqlState, h: Handle)
    requires Grows(s, s1)
    requires Extends(s1.tables, s2.tables) && StoreGrows(s1.store, s2.store) && MemoGrows(s1.rowids - {h}, s2.rowids)
    ensures Extends(s.tables, s2.tables) && StoreGrows(s.store, s2.store) && MemoGrows(s.rowids - {h}, s2.rowids)
  {
  }

  /**
   * The end of `add` once the row is built: make sure the table exists, insert the row and
   * memoise its id.
   */
  function StoreRow(toWords: string -> string, s: SqlState, r: Record, cells: map<string, Value>): (a: Added)
    ensures Extends(s.tables, a.state.tables) && StoreGrows(s.store, a.state.store)
    ensures MemoGrows(s.rowids - {r.handle}, a.state.rowids)
    ensures Consistent(s) ==> Consistent(a.state)
    ensures a.result.Ok? ==> r.handle in a.state.rowids && a.state.rowids[r.handle] == a.result.value
    ensures a.result.Ok? && Consistent(s) ==>
              var n := TableName(toWords, r.rtype.name);
              && n in a.state.tables && n in a.state.store && |a.state.store[n]| > 0
              && a.state.store[n][|a.state.store[n]| - 1].id == a.result.value
  {
    var rt := RequireTable(toWords, s.tables, r.rtype);
    var s1 := s.(tables := rt.tables);
    CachedTablesKeepConsistent(s, rt.tables);
    MemoGrowsWithout(s, s1, r.handle);
    if rt.result.Err? then Added(Err(rt.result.error), s1)
    else
      var a := InsertAndMemoise(s1, rt.result.value, r.handle, cells);
      GrowsWithout(s, s1, a.state, r.handle);
      RequiredTableNamed(toWords, s.tables, r.rtype);
      a
  }

  /** In a well-named cache, the table `RequireTable` yields carries the type's table name. */
  lemma RequiredTableNamed(toWords: string -> string, tables: Tables, t: RecordType)
    ensures var rt := RequireTable(toWords, tables, t);
            NamedTables(tables) && rt.result.Ok? ==>
              rt.result.value.name == TableName(toWords, t.name) && rt.result.value.name in rt.tables
  {
  }

  /** `conn.execute(table.insert(), row)` followed by setting `_rowid` of the instance `h`. */
  function InsertAndMemoise(s: SqlState, table: Table, h: Handle, cells: map<string, Value>): (a: Added)
    ensures Extends(s.tables, a.state.tables) && StoreGrows(s.store, a.state.store)
    ensures MemoGrows(s.rowids - {h}, a.state.rowids)
    ensures Consistent(s) && table.name in s.tables ==> Consistent(a.state)
    ensures a.result.Ok? ==> h in a.state.rowids && a.state.rowids[h] == a.result.value
    ensures a.result.Ok? ==>
              && a.state.tables == s.tables && table.name in a.state.store && |a.state.store[table.name]| > 0
              && a.state.store[table.name][|a.state.store[table.name]| - 1].id == a.result.value
  {
    var ins := InsertRow(s, table, cells);
    MemoGrowsWithout(s, ins.state, h);
    if ins.result.Err? then Added(Err(ins.result.error), ins.state)
    else
      MemoiseKeepsGrowth(s, ins.state, h, ins.result.value);
      Added(Ok(ins.result.value), ins.state.(rowids := ins.state.rowids[h := ins.result.value]))
  }

  /** Caching more, correctly named, tables keeps a consistent state consistent. */
  lemma CachedTablesKeepConsistent(s: SqlState, tables': Tables)
    requires Extends(s.tables, tables')
    ensures Consistent(s) && NamedTables(tables') ==> Consistent(s.(tables := tables'))
  {
  }

  /** Growth keeps every memoised id but the one of `h`. */
  lemma MemoGrowsWithout(s: SqlState, s': SqlState, h: Handle)
    requires Grows(s, s')
    ensures MemoGrows(s.rowids - {h}, s'.rowids)
  {
  }

  /** Memoising `id` for `h` after growing keeps every other memoised id and the state consistent. */
  lemma MemoiseKeepsGrowth(s: SqlState, s': SqlState, h: Handle, id: int)
    requires Grows(s, s')
    ensures MemoGrows(s.rowids - {h}, s'.rowids[h := id])
    ensures Consistent(s') ==> Consistent(s'.(rowids := s'.rowids[h := id]))
  {
  }

  /** The loop of `add` that builds the row, from field `i` on. */
  function RowCellsFrom(toWords: string -> string, s: SqlState, r: Record, checkExists: bool, i: nat,
                        acc: map<string, Value>): (c: Cells)
    requires WellTyped(r) && i <= |r.values|
    ensures Grows(s, c.state)
    ensures Consistent(s) ==> Consistent(c.state)
    decreases r, 0, |r.values| - i
  {
    if i == |r.values| then Cells(Ok(acc), s)
    else
      var f, v := r.rtype.fields[i], r.values[i];
      if v.RecordV? then
        assert Fits(f.kind, v);
        var sub := Add(toWords, s, v.rec, checkExists);
        if sub.result.Err? then Cells(Err(sub.result.error), sub.state)
        else RowCellsFrom(toWords, sub.state, r, checkExists, i + 1, acc[f.name + "_id" := IntV(sub.result.value)])
      else RowCellsFrom(toWords, s, r, checkExists, i + 1, acc[f.name := v])
  }
}
