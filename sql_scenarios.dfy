/**
 * The outcomes the repository's tests pin for `SqlModel`, on a fresh store, proved for every
 * `camelcase_to_words`.
 */
module SqlScenarios {
  import opened Results
  import opened Records
  import opened Naming
  import opened SqlSchema
  import opened SqlStore
  import opened SqlProperties

  /**
   * `ArithmeticData(a, b, result)`, keyed by `a` and `b`. The tests show that `result` is not a
   * key and `b` is; `a` being a key is assumed, its declaration not being part of this model.
   */
  const Arithmetic := RecordType("ArithmeticData", [
    FieldSpec("a", IntKind, true, false),
    FieldSpec("b", IntKind, true, false),
    FieldSpec("result", IntKind, false, false)])

  function Arith(h: Handle, a: int, b: int, result: int): (r: Record)
    ensures WellTyped(r) && r.rtype == Arithmetic
  {
    Record(h, Arithmetic, [IntV(a), IntV(b), IntV(result)])
  }

  /** No tables, no rows, nothing memoised. */
  const Fresh := SqlState(map[], map[], map[])

  /** `exists` on a fresh store is false. */
  lemma NothingExistsWhenFresh(toWords: string -> string, r: Record)
    requires WellTyped(r)
    ensures Exists(toWords, Fresh, r).result == Ok(false)
  {
  }

  /** The table `ArithmeticData` is stored under, whatever `camelcase_to_words` does. */
  function ArithmeticTable(toWords: string -> string): string
  {
    TableName(toWords, Arithmetic.name)
  }

  /** A store holding one `ArithmeticData` row, with id 1, that agrees with `(a, b, _)` on the keys. */
  predicate HoldsOnly(toWords: string -> string, t: SqlState, a: int, b: int)
  {
    var n := ArithmeticTable(toWords);
    && n in t.tables && KeyColumnsFrom(t.tables[n], Arithmetic, 0)
    && |Rows(t, n)| == 1 && Rows(t, n)[0].id == 1
    && AgreesOnKeys(t.tables[n], Rows(t, n)[0], Arith(0, a, b, 0))
  }

  /** On a fresh store the existence check finds nothing, so `add` goes straight to inserting. */
  lemma FreshAddInserts(toWords: string -> string, r: Record, checkExists: bool)
    requires WellTyped(r)
    ensures Add(toWords, Fresh, r, checkExists) == AddRow(toWords, Fresh, r, checkExists)
  {
    if checkExists {
      MissingTableNotFound(toWords, Fresh, r);
    }
  }

  /** `ArithmeticData` has only supported scalar fields, with distinct names, none of them `id`. */
  lemma ArithmeticIsFlat()
    ensures Flat(Arithmetic) && DistinctFieldNames(Arithmetic) && IdFree(Arithmetic)
    ensures forall j :: 0 <= j < |Arithmetic.fields| ==> !Arithmetic.fields[j].kind.OtherKind?
  {
  }

  /** A store whose `ArithmeticData` table holds one row with id 1, agreeing with `r` on the keys. */
  lemma OneAgreeingRowHolds(toWords: string -> string, t: SqlState, r: Record, a: int, b: int)
    requires WellTyped(r) && r.rtype == Arithmetic && r.values[0] == IntV(a) && r.values[1] == IntV(b)
    requires var n := ArithmeticTable(toWords);
             && n in t.tables && KeyColumnsFrom(t.tables[n], Arithmetic, 0)
             && |Rows(t, n)| == 1 && Rows(t, n)[0].id == 1
             && AgreesOnKeys(t.tables[n], Rows(t, n)[0], r)
    ensures HoldsOnly(toWords, t, a, b)
  {
    var n := ArithmeticTable(toWords);
    SameKeysSameAgreement(t.tables[n], Rows(t, n)[0], r, Arith(0, a, b, 0));
  }

  /** The row `add` inserts for `ArithmeticData(a, b, result)` into a fresh store. */
  lemma ArithmeticAddRow(toWords: string -> string, r: Record, a: int, b: int)
    requires WellTyped(r) && r.rtype == Arithmetic && r.values[0] == IntV(a) && r.values[1] == IntV(b)
    ensures var ad := AddRow(toWords, Fresh, r, true);
            && ad.result == Ok(1)
            && HoldsOnly(toWords, ad.state, a, b)
            && ad.state.rowids == map[r.handle := 1]
  {
    var n := ArithmeticTable(toWords);
    ArithmeticIsFlat();
    FlatAddRowSucceeds(toWords, Fresh, r, true);
    FlatHasNothingBelow(toWords, r);
    AddRowAppendsAgreeingRow(toWords, Fresh, r, true);
    AddRowMemoises(toWords, Fresh, r, true);
    var ad := AddRow(toWords, Fresh, r, true);
    assert Rows(Fresh, n) == [];
    OneAgreeingRowHolds(toWords, ad.state, r, a, b);
  }

  /** `add(ArithmeticData(a, b, result))` on a fresh store creates the table and returns 1. */
  lemma ArithmeticAddReturnsOne(toWords: string -> string, h: Handle, a: int, b: int, result: int)
    ensures var ad := Add(toWords, Fresh, Arith(h, a, b, result), true);
            && ad.result == Ok(1)
            && HoldsOnly(toWords, ad.state, a, b)
            && ad.state.rowids == map[h := 1]
  {
    var r := Arith(h, a, b, result);
    FreshAddInserts(toWords, r, true);
    ArithmeticAddRow(toWords, r, a, b);
  }

  /** Another instance with the same keys is found: `result` is not a key field. */
  lemma SameKeysFound(toWords: string -> string, t: SqlState, a: int, b: int, h: Handle, result: int)
    requires HoldsOnly(toWords, t, a, b) && h !in t.rowids
    ensures Exists(toWords, t, Arith(h, a, b, result)).result == Ok(true)
  {
    var n := ArithmeticTable(toWords);
    assert FlatKeys(Arithmetic);
    assert Arithmetic.fields[0].isKey;
    FlatLookupFindsFirstAgreeingRow(toWords, t, Arith(h, a, b, result));
    SameKeysSameAgreement(t.tables[n], Rows(t, n)[0], Arith(0, a, b, 0), Arith(h, a, b, result));
  }

  /** An instance whose key `b` differs is not found. */
  lemma OtherKeysNotFound(toWords: string -> string, t: SqlState, a: int, b: int, h: Handle, b': int, result: int)
    requires HoldsOnly(toWords, t, a, b) && h !in t.rowids && b' != b
    ensures Exists(toWords, t, Arith(h, a, b', result)).result == Ok(false)
  {
    var n := ArithmeticTable(toWords);
    var table, row := t.tables[n], Rows(t, n)[0];
    assert FlatKeys(Arithmetic);
    assert Arithmetic.fields[0].isKey;
    var r, r0 := Arith(h, a, b', result), Arith(0, a, b, 0);
    assert Satisfies(table, row, Equals("b", IntV(b))) by {
      assert r0.rtype.fields[1].isKey && r0.rtype.fields[1].name == "b" && r0.values[1] == IntV(b);
    }
    assert !AgreesOnKeys(table, row, r) by {
      assert r.rtype.fields[1].isKey && r.rtype.fields[1].name == "b" && r.values[1] == IntV(b');
      assert !Satisfies(table, row, Equals("b", IntV(b')));
    }
    assert Rows(t, n) == [row];
    FlatLookupFindsFirstAgreeingRow(toWords, t, r);
  }

  /**
   * `add(ArithmeticData(3, 4, 7))` on a fresh store returns 1; afterwards the instance exists,
   * `ArithmeticData(3, 4, -1)` exists and `ArithmeticData(3, 99, 102)` does not.
   */
  lemma ArithmeticScenario(toWords: string -> string)
    ensures var a := Add(toWords, Fresh, Arith(1, 3, 4, 7), true);
            && a.result == Ok(1)
            && Exists(toWords, a.state, Arith(1, 3, 4, 7)).result == Ok(true)
            && Exists(toWords, a.state, Arith(2, 3, 4, -1)).result == Ok(true)
            && Exists(toWords, a.state, Arith(3, 3, 99, 102)).result == Ok(false)
  {
    ArithmeticAddReturnsOne(toWords, 1, 3, 4, 7);
    var a := Add(toWords, Fresh, Arith(1, 3, 4, 7), true);
    SameKeysFound(toWords, a.state, 3, 4, 2, -1);
    OtherKeysNotFound(toWords, a.state, 3, 4, 3, 99, 102);
  }
}
