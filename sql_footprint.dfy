/**
 * What `SqlModel.add` may touch: only the tables of the record's type and of the types nested in
 * it, and only the memoised ids of the record and of the records nested in it. Every other
 * table keeps its rows and every other instance stays without an id.
 */
module SqlFootprint {
  import opened Records
  import opened Naming
  import opened SqlSchema
  import opened SqlStore

  /** The tables `add` may create or append to for an instance of `t`. */
  function AddNames(toWords: string -> string, t: RecordType): set<string>
  {
    {TableName(toWords, t.name)} + BelowNames(toWords, t)
  }

  /** The instances `add(r)` may memoise an id for: `r` and the records nested in it. */
  function AddHandles(r: Record): set<Handle>
  {
    {r.handle} + NestedHandles(r)
  }

  /**
   * From `s` to `s'`, only the tables named in `names` gained a cache entry or rows, and only
   * the instances in `hs` gained a memoised id.
   */
  ghost predicate Within(s: SqlState, s': SqlState, names: set<string>, hs: set<Handle>)
  {
    && s'.tables.Keys <= s.tables.Keys + names
    && (forall n :: n !in names ==> Rows(s', n) == Rows(s, n))
    && s'.rowids.Keys <= s.rowids.Keys + hs
  }

  lemma WithinTransitive(a: SqlState, b: SqlState, c: SqlState, n1: set<string>, h1: set<Handle>,
                         n2: set<string>, h2: set<Handle>, names: set<string>, hs: set<Handle>)
    requires Within(a, b, n1, h1) && Within(b, c, n2, h2)
    requires n1 <= names && n2 <= names && h1 <= hs && h2 <= hs
    ensures Within(a, c, names, hs)
  {
  }

  /** A record nested in `r` reaches only tables and instances below `r`. */
  lemma NestedWithin(toWords: string -> string, r: Record, i: nat)
    requires WellTyped(r) && i < |r.values| && r.values[i].RecordV?
    ensures AddNames(toWords, r.values[i].rec.rtype) <= BelowNames(toWords, r.rtype)
    ensures AddHandles(r.values[i].rec) <= NestedHandles(r)
  {
    var f, v := r.rtype.fields[i], r.values[i];
    assert Fits(f.kind, v);
    assert KindNames(toWords, f.kind) <= BelowNames(toWords, r.rtype);
    forall h | h in AddHandles(v.rec)
      ensures h in NestedHandles(r)
    {
      assert 0 <= i < |r.values| && r.values[i].RecordV? && h in {r.values[i].rec.handle} + NestedHandles(r.values[i].rec);
    }
  }

  lemma {:induction false} KeyClausesWithin(toWords: string -> string, s: SqlState, table: Table, r: Record,
                                            i: nat, acc: seq<Clause>)
    requires WellTyped(r) && i <= |r.values|
    ensures KeyClausesFrom(toWords, s, table, r, i, acc).rowids.Keys <= s.rowids.Keys + NestedHandles(r)
    decreases r, 0, |r.values| - i
  {
    if i < |r.values| {
      var f, v := r.rtype.fields[i], r.values[i];
      assert Fits(f.kind, v);
      if !f.isKey {
        KeyClausesWithin(toWords, s, table, r, i + 1, acc);
      } else if IsNested(f) {
        var sub := GetRowId(toWords, s, v.rec);
        LookupWithin(toWords, s, v.rec);
        NestedWithin(toWords, r, i);
        if sub.result.Ok? && HasColumn(table, f.name + "_id") {
          KeyClausesWithin(toWords, s.(rowids := sub.rowids), table, r, i + 1,
                           acc + [RefersTo(f.name + "_id", sub.result.value)]);
        }
      } else if HasColumn(table, f.name) {
        KeyClausesWithin(toWords, s, table, r, i + 1, acc + [Equals(f.name, v)]);
      }
    }
  }

  /** `_get_rowid(r)` memoises ids only for `r` and the records nested in it. */
  lemma {:induction false} LookupWithin(toWords: string -> string, s: SqlState, r: Record)
    requires WellTyped(r)
    ensures GetRowId(toWords, s, r).rowids.Keys <= s.rowids.Keys + AddHandles(r)
    decreases r, 1, 0
  {
    var n := TableName(toWords, r.rtype.name);
    if r.handle !in s.rowids && n in s.tables {
      KeyClausesWithin(toWords, s, s.tables[n], r, 0, []);
    }
  }

  /** `add(r)` touches only the tables of `r`'s type and nested types, and memoises only below `r`. */
  lemma {:induction false} AddWithin(toWords: string -> string, s: SqlState, r: Record, checkExists: bool)
    requires Consistent(s) && WellTyped(r)
    ensures Within(s, Add(toWords, s, r, checkExists).state, AddNames(toWords, r.rtype), AddHandles(r))
    decreases r, 2, 0
  {
    if r.handle !in s.rowids {
      if checkExists {
        var l := GetRowId(toWords, s, r);
        LookupWithin(toWords, s, r);
        var s1 := s.(rowids := l.rowids);
        if l.result.Ok? && l.result.value.None? {
          AddRowWithin(toWords, s1, r, checkExists);
          WithinTransitive(s, s1, AddRow(toWords, s1, r, checkExists).state, {}, AddHandles(r),
                           AddNames(toWords, r.rtype), AddHandles(r), AddNames(toWords, r.rtype), AddHandles(r));
        }
      } else {
        AddRowWithin(toWords, s, r, checkExists);
      }
    }
  }

  lemma {:induction false} AddRowWithin(toWords: string -> string, s: SqlState, r: Record, checkExists: bool)
    requires Consistent(s) && WellTyped(r)
    ensures Within(s, AddRow(toWords, s, r, checkExists).state, AddNames(toWords, r.rtype), AddHandles(r))
    decreases r, 1, 0
  {
    var c := RowCellsFrom(toWords, s, r, checkExists, 0, map[]);
    RowCellsWithin(toWords, s, r, checkExists, 0, map[]);
    if c.result.Ok? {
      StoreRowWithin(toWords, c.state, r, c.result.value);
      WithinTransitive(s, c.state, AddRow(toWords, s, r, checkExists).state, BelowNames(toWords, r.rtype),
                       NestedHandles(r), AddNames(toWords, r.rtype), {r.handle}, AddNames(toWords, r.rtype), AddHandles(r));
    }
  }

  /** Storing the row touches only the type's own table, and memoises only `r`'s id. */
  lemma StoreRowWithin(toWords: string -> string, s: SqlState, r: Record, cells: map<string, Value>)
    requires Consistent(s)
    ensures Within(s, StoreRow(toWords, s, r, cells).state, AddNames(toWords, r.rtype), {r.handle})
  {
    RequiredTableNamed(toWords, s.tables, r.rtype);
  }

  lemma {:induction false} RowCellsWithin(toWords: string -> string, s: SqlState, r: Record, checkExists: bool,
                                          i: nat, acc: map<string, Value>)
    requires Consistent(s) && WellTyped(r) && i <= |r.values|
    ensures Within(s, RowCellsFrom(toWords, s, r, checkExists, i, acc).state, BelowNames(toWords, r.rtype), NestedHandles(r))
    decreases r, 0, |r.values| - i
  {
    if i < |r.values| {
      var f, v := r.rtype.fields[i], r.values[i];
      if v.RecordV? {
        assert Fits(f.kind, v);
        NestedWithin(toWords, r, i);
        var sub := Add(toWords, s, v.rec, checkExists);
        AddWithin(toWords, s, v.rec, checkExists);
        if sub.result.Ok? {
          var acc' := acc[f.name + "_id" := IntV(sub.result.value)];
          RowCellsWithin(toWords, sub.state, r, checkExists, i + 1, acc');
          WithinTransitive(s, sub.state, RowCellsFrom(toWords, sub.state, r, checkExists, i + 1, acc').state,
                           AddNames(toWords, v.rec.rtype), AddHandles(v.rec), BelowNames(toWords, r.rtype),
                           NestedHandles(r), BelowNames(toWords, r.rtype), NestedHandles(r));
        }
      } else {
        RowCellsWithin(toWords, s, r, checkExists, i + 1, acc[f.name := v]);
      }
    }
  }
}
