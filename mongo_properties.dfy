/**
 * What `MongoModel` promises, proved of the model in `MongoStore`: the stored document holds
 * every field, the key query matches the document stored for the same record, the query
 * depends on the key fields only, and a second instance with the same keys is found instead of
 * inserted. The source writes the key of a field below a nested record without the dot before
 * the field's name (`KeyPath.AsWritten`): the query then misses every document with a nested key,
 * and a second instance with the same keys is inserted again. The properties that need the lookup
 * to find the stored document are proved of the corrected, `Dotted`, lookup, and carried over to
 * the lookup as written where no key field is a nested record.
 */
module MongoProperties {
  import opened Results
  import opened Records
  import opened Naming
  import opened MongoStore

  /** What `_create_row` stores for field `f` holding `v`. */
  function FieldDoc(f: FieldSpec, v: Value): DocValue
    requires Fits(f.kind, v)
  {
    if v.RecordV? then Embedded(CreateRow(v.rec)) else Scalar(ConvertValue(f, v))
  }

  lemma {:induction false} RowFromHoldsFields(r: Record, i: nat, acc: Doc)
    requires WellTyped(r) && i <= |r.values| && DistinctFieldNames(r.rtype)
    ensures var d := RowFrom(r, i, acc);
            && (forall j :: i <= j < |r.values| ==>
                  r.rtype.fields[j].name in d && d[r.rtype.fields[j].name] == FieldDoc(r.rtype.fields[j], r.values[j]))
            && (forall k :: k in d <==> k in acc || exists j :: i <= j < |r.values| && r.rtype.fields[j].name == k)
            && (forall k :: k in acc && (forall j :: i <= j < |r.values| ==> r.rtype.fields[j].name != k) ==>
                  d[k] == acc[k])
    decreases |r.values| - i
  {
    if i < |r.values| {
      var f, v := r.rtype.fields[i], r.values[i];
      assert Fits(f.kind, v);
      var acc' := acc[f.name := FieldDoc(f, v)];
      assert RowFrom(r, i, acc) == RowFrom(r, i + 1, acc');
      RowFromHoldsFields(r, i + 1, acc');
    }
  }

  /**
   * The document `_create_row` builds has one entry per field, under the field's name: the
   * converted value, or the nested record's own document embedded.
   */
  lemma CreateRowHoldsFields(r: Record)
    requires WellTyped(r) && DistinctFieldNames(r.rtype)
    ensures var d := CreateRow(r);
            && (forall j :: 0 <= j < |r.values| ==>
                  r.rtype.fields[j].name in d && d[r.rtype.fields[j].name] == FieldDoc(r.rtype.fields[j], r.values[j]))
            && (forall k :: k in d <==> exists j :: 0 <= j < |r.values| && r.rtype.fields[j].name == k)
  {
    RowFromHoldsFields(r, 0, map[]);
  }

  /**
   * Every key of `q` is a path that starts with `parents` and whose rest leads, in `doc`, to the
   * value the query asks for.
   */
  predicate ReachedBelow(doc: Doc, parents: seq<string>, q: Query)
  {
    forall k :: k in q ==>
      var path := SplitDots(k);
      |path| > |parents| && path[..|parents|] == parents && Resolve(doc, path[|parents|..]) == Some(q[k])
  }

  lemma ReachedBelowUnion(doc: Doc, parents: seq<string>, q1: Query, q2: Query)
    requires ReachedBelow(doc, parents, q1) && ReachedBelow(doc, parents, q2)
    ensures ReachedBelow(doc, parents, q1 + q2)
  {
  }

  /** What a nested record's query reaches in its own document, its parent reaches one level up. */
  lemma ReachedThroughEmbedded(doc: Doc, sub: Doc, parents: seq<string>, name: string, q: Query)
    requires name in doc && doc[name] == Embedded(sub)
    requires ReachedBelow(sub, parents + [name], q)
    ensures ReachedBelow(doc, parents, q)
  {
    forall k | k in q
      ensures var path := SplitDots(k);
              |path| > |parents| && path[..|parents|] == parents && Resolve(doc, path[|parents|..]) == Some(q[k])
    {
      var path := SplitDots(k);
      var n := |parents|;
      assert path[..n + 1] == parents + [name];
      assert path[..n] == (path[..n + 1])[..n];
      assert path[n] == name;
      assert path[n..][1..] == path[n + 1..];
    }
  }

  lemma {:induction false} QueryFromReaches(r: Record, parents: seq<string>, i: nat, acc: Query)
    requires WellTyped(r) && i <= |r.values| && GoodNames(r.rtype)
    requires forall p :: 0 <= p < |parents| ==> DotFree(parents[p])
    requires ReachedBelow(CreateRow(r), parents, acc)
    ensures ReachedBelow(CreateRow(r), parents, QueryFrom(Dotted, r, parents, i, acc))
    decreases r, |r.values| - i
  {
    if i < |r.values| {
      var f, v := r.rtype.fields[i], r.values[i];
      assert Fits(f.kind, v);
      if !f.isKey {
        QueryFromReaches(r, parents, i + 1, acc);
      } else if IsNested(f) {
        var below := parents + [f.name];
        assert GoodKindNames(f.kind);
        QueryFromReaches(v.rec, below, 0, map[]);
        NestedKeyReaches(r, parents, i, acc);
        QueryFromReaches(r, parents, i + 1, acc + QueryFrom(Dotted, v.rec, below, 0, map[]));
      } else {
        ScalarKeyReaches(r, parents, i, acc);
        QueryFromReaches(r, parents, i + 1, acc[Key(parents, f.name) := ConvertValue(f, v)]);
      }
    }
  }

  /** A scalar key field's entry leads, in the record's document, to its converted value. */
  lemma ScalarKeyReaches(r: Record, parents: seq<string>, i: nat, acc: Query)
    requires WellTyped(r) && i < |r.values| && GoodNames(r.rtype)
    requires !IsNested(r.rtype.fields[i])
    requires forall p :: 0 <= p < |parents| ==> DotFree(parents[p])
    requires ReachedBelow(CreateRow(r), parents, acc)
    ensures var f, v := r.rtype.fields[i], r.values[i];
            Fits(f.kind, v) && ReachedBelow(CreateRow(r), parents, acc[Key(parents, f.name) := ConvertValue(f, v)])
  {
    var f, v := r.rtype.fields[i], r.values[i];
    assert Fits(f.kind, v);
    var doc := CreateRow(r);
    CreateRowHoldsFields(r);
    assert doc[f.name] == Scalar(ConvertValue(f, v));
    var k := Key(parents, f.name);
    SplitJoinDots(parents + [f.name]);
    var path := SplitDots(k);
    assert path[..|parents|] == parents;
    assert path[|parents|..] == [f.name];
  }

  /** A nested key field's entries lead, through the embedded document, to their values. */
  lemma NestedKeyReaches(r: Record, parents: seq<string>, i: nat, acc: Query)
    requires WellTyped(r) && i < |r.values| && GoodNames(r.rtype)
    requires IsNested(r.rtype.fields[i])
    requires ReachedBelow(CreateRow(r), parents, acc)
    requires var v := r.values[i];
             v.RecordV? && WellTyped(v.rec)
             && ReachedBelow(CreateRow(v.rec), parents + [r.rtype.fields[i].name], QueryFrom(Dotted, v.rec, parents + [r.rtype.fields[i].name], 0, map[]))
    ensures var f, v := r.rtype.fields[i], r.values[i];
            ReachedBelow(CreateRow(r), parents, acc + QueryFrom(Dotted, v.rec, parents + [f.name], 0, map[]))
  {
    var f, v := r.rtype.fields[i], r.values[i];
    assert Fits(f.kind, v);
    var doc := CreateRow(r);
    CreateRowHoldsFields(r);
    assert doc[f.name] == Embedded(CreateRow(v.rec));
    var q := QueryFrom(Dotted, v.rec, parents + [f.name], 0, map[]);
    ReachedThroughEmbedded(doc, CreateRow(v.rec), parents, f.name, q);
    ReachedBelowUnion(doc, parents, acc, q);
  }

  /**
   * The corrected key query of a record matches the document stored for it: every dotted key
   * leads, in that document, to the value the query asks for. The query as written does not
   * (`AsWrittenQueryMissesNestedKey`) unless no key field is nested (`PathsAgreeOnFlatKeys`).
   */
  lemma QueryMatchesOwnDocument(r: Record)
    requires WellTyped(r) && GoodNames(r.rtype)
    ensures Matches(CreateRow(r), CreateQuery(Dotted, r))
  {
    QueryFromReaches(r, [], 0, map[]);
  }

  lemma {:induction false} QueryFromDependsOnKeys(path: KeyPath, r1: Record, r2: Record, parents: seq<string>, i: nat, acc: Query)
    requires WellTyped(r1) && WellTyped(r2) && SameKeys(r1, r2) && i <= |r1.values|
    ensures QueryFrom(path, r1, parents, i, acc) == QueryFrom(path, r2, parents, i, acc)
    decreases |r1.values| - i
  {
    if i < |r1.values| {
      var f := r1.rtype.fields[i];
      if f.isKey {
        assert r1.values[i] == r2.values[i];
        if IsNested(f) {
          assert Fits(f.kind, r1.values[i]);
          QueryFromDependsOnKeys(path, r1, r2, parents, i + 1, acc + QueryFrom(path, r1.values[i].rec, parents + [f.name], 0, map[]));
        } else {
          QueryFromDependsOnKeys(path, r1, r2, parents, i + 1, acc[KeyOf(path, parents, f.name) := ConvertValue(f, r1.values[i])]);
        }
      } else {
        QueryFromDependsOnKeys(path, r1, r2, parents, i + 1, acc);
      }
    }
  }

  /** The query reads only key fields: two instances with the same key values have the same query. */
  lemma QueryDependsOnKeysOnly(path: KeyPath, r1: Record, r2: Record)
    requires WellTyped(r1) && WellTyped(r2) && SameKeys(r1, r2)
    ensures CreateQuery(path, r1) == CreateQuery(path, r2)
  {
    QueryFromDependsOnKeys(path, r1, r2, [], 0, map[]);
  }

  lemma {:induction false} NoKeyQueryFrom(path: KeyPath, r: Record, parents: seq<string>, i: nat, acc: Query)
    requires WellTyped(r) && NoKeyFields(r.rtype) && i <= |r.values|
    ensures QueryFrom(path, r, parents, i, acc) == acc
    decreases |r.values| - i
  {
    if i < |r.values| {
      NoKeyQueryFrom(path, r, parents, i + 1, acc);
    }
  }

  /**
   * A type without key fields has an empty query, so an instance without a memoised id is never
   * found and `exists` is false for it.
   */
  lemma NoKeyFieldsNeverFound(toWords: string -> string, path: KeyPath, s: MongoState, r: Record)
    requires WellTyped(r) && NoKeyFields(r.rtype) && r.handle !in s.objectids
    ensures CreateQuery(path, r) == map[]
    ensures GetObjectId(toWords, path, s, r) == Found(None, s.objectids)
    ensures Exists(toWords, path, s, r) == Known(false, s.objectids)
  {
    NoKeyQueryFrom(path, r, [], 0, map[]);
  }

  /** A memoised `_objectid` is returned by `_get_objectid` and by `add`, and nothing changes. */
  lemma MemoisedObjectId(toWords: string -> string, path: KeyPath, s: MongoState, r: Record, checkExists: bool)
    requires WellTyped(r) && r.handle in s.objectids
    ensures GetObjectId(toWords, path, s, r) == Found(Some(s.objectids[r.handle]), s.objectids)
    ensures Add(toWords, path, s, r, checkExists) == Added(s.objectids[r.handle], s)
  {
  }

  /** Without a collection of the record's name, nothing is found. */
  lemma MissingCollectionNotFound(toWords: string -> string, path: KeyPath, s: MongoState, r: Record)
    requires WellTyped(r) && r.handle !in s.objectids && TableName(toWords, r.rtype.name) !in s.db
    ensures GetObjectId(toWords, path, s, r) == Found(None, s.objectids)
  {
  }

  /**
   * When nothing is found (or the check is off), `add` inserts exactly one document, the record's
   * with its nested records embedded, into the record's collection, and memoises only the
   * record's own new `_id`: nested records are not inserted and get no `_objectid`.
   */
  lemma AddInsertsOneDocument(toWords: string -> string, path: KeyPath, s: MongoState, r: Record, checkExists: bool)
    requires WellTyped(r) && r.handle !in s.objectids
    requires checkExists ==> GetObjectId(toWords, path, s, r).result.None?
    ensures var n := TableName(toWords, r.rtype.name);
            var a := Add(toWords, path, s, r, checkExists);
            && a.result == s.nextId
            && a.state.db.Keys == s.db.Keys + {n}
            && (forall m :: m in s.db && m != n ==> a.state.db[m] == s.db[m])
            && a.state.db[n] == Docs(s, n) + [Stored(s.nextId, CreateRow(r))]
            && a.state.objectids == s.objectids[r.handle := s.nextId]
  {
  }

  /** After `add`, the instance exists, and adding it again returns the same `_objectid`. */
  lemma AddThenExists(toWords: string -> string, path: KeyPath, s: MongoState, r: Record, checkExists: bool, again: bool)
    requires WellTyped(r)
    ensures var a := Add(toWords, path, s, r, checkExists);
            && Exists(toWords, path, a.state, r).result
            && Add(toWords, path, a.state, r, again) == Added(a.result, a.state)
  {
  }

  /**
   * Cross-instance deduplication, with the corrected (dotted) lookup: after `add(r1)`, adding a
   * distinct instance `r2` of the same type with equal key values returns `r1`'s `_objectid` and
   * inserts nothing. As written, this holds only where no key field is nested
   * (`AsWrittenCrossInstanceDedup`); `AsWrittenAddsDuplicate` shows it fails otherwise.
   */
  lemma CrossInstanceDedup(toWords: string -> string, s: MongoState, r1: Record, r2: Record)
    requires WellTyped(r1) && WellTyped(r2) && SameKeys(r1, r2) && GoodNames(r1.rtype)
    requires CreateQuery(Dotted, r1) != map[]
    requires r1.handle !in s.objectids && r2.handle !in s.objectids && r1.handle != r2.handle
    ensures var a1 := Add(toWords, Dotted, s, r1, true);
            var a2 := Add(toWords, Dotted, a1.state, r2, true);
            a2.result == a1.result && a2.state.db == a1.state.db
  {
    QueryDependsOnKeysOnly(Dotted, r1, r2);
    if GetObjectId(toWords, Dotted, s, r1).result.None? {
      DedupWhenInserted(toWords, s, r1, r2);
    }
  }

  /**
   * Deduplication when `r1` was inserted, with the corrected lookup: its document is the first
   * one `r2`'s query matches.
   */
  lemma DedupWhenInserted(toWords: string -> string, s: MongoState, r1: Record, r2: Record)
    requires WellTyped(r1) && WellTyped(r2) && CreateQuery(Dotted, r1) == CreateQuery(Dotted, r2) && GoodNames(r1.rtype)
    requires CreateQuery(Dotted, r1) != map[] && r1.rtype == r2.rtype
    requires r1.handle !in s.objectids && r2.handle !in s.objectids && r1.handle != r2.handle
    requires GetObjectId(toWords, Dotted, s, r1).result.None?
    ensures var a1 := Add(toWords, Dotted, s, r1, true);
            var a2 := Add(toWords, Dotted, a1.state, r2, true);
            a2.result == a1.result && a2.state.db == a1.state.db
  {
    var n := TableName(toWords, r1.rtype.name);
    var q := CreateQuery(Dotted, r1);
    var docs := Docs(s, n);
    var a1 := Add(toWords, Dotted, s, r1, true);
    var docs' := a1.state.db[n];
    assert docs' == docs + [Stored(s.nextId, CreateRow(r1))];
    QueryMatchesOwnDocument(r1);
    assert forall j :: 0 <= j < |docs| ==> !Matches(docs[j].body, q);
    FirstMatchIsAppended(docs, Stored(s.nextId, CreateRow(r1)), q);
  }

  lemma FirstMatchIsAppended(docs: seq<Stored>, d: Stored, q: Query)
    requires forall j :: 0 <= j < |docs| ==> !Matches(docs[j].body, q)
    requires Matches(d.body, q)
    ensures FindOne(docs + [d], q) == Some(|docs|)
  {
    var all := docs + [d];
    assert all[|docs|] == d;
    assert forall j :: 0 <= j < |docs| ==> all[j] == docs[j];
  }

  /** The type `Inner(x: int)` with its key `x`. */
  const Inner := RecordType("Inner", [FieldSpec("x", IntKind, true, false)])

  /** The type `Outer(sub: Inner)` whose key is the nested record. */
  const Outer := RecordType("Outer", [FieldSpec("sub", RecordKind(Inner), true, false)])

  /** `Outer(Inner(1))`. */
  const OuterOfOne := Record(1, Outer, [RecordV(Record(2, Inner, [IntV(1)]))])

  /** `Inner(1)`, the record nested in `OuterOfOne`. */
  const InnerOfOne := Record(2, Inner, [IntV(1)])

  /** A second `Outer(Inner(1))`: another instance, with the same key. */
  const OtherOuterOfOne := Record(3, Outer, [RecordV(InnerOfOne)])

  lemma OuterOfOneWellTyped()
    ensures WellTyped(InnerOfOne) && WellTyped(OuterOfOne) && OuterOfOne.values[0] == RecordV(InnerOfOne)
    ensures WellTyped(OtherOuterOfOne) && SameKeys(OuterOfOne, OtherOuterOfOne)
    ensures GoodNames(Inner) && GoodNames(Outer)
  {
    assert WellTyped(InnerOfOne);
    assert Fits(RecordKind(Inner), RecordV(InnerOfOne));
    assert GoodNames(Inner) by {
      assert DotFree("x");
    }
    assert GoodNames(Outer) by {
      assert DotFree("sub");
      assert GoodKindNames(RecordKind(Inner));
    }
  }

  /** Below `sub`, the inner record asks for `subx` as written and for `sub.x` corrected. */
  lemma InnerQueries()
    ensures WellTyped(InnerOfOne)
    ensures QueryFrom(AsWritten, InnerOfOne, ["sub"], 0, map[]) == map["subx" := IntV(1)]
    ensures QueryFrom(Dotted, InnerOfOne, ["sub"], 0, map[]) == map["sub.x" := IntV(1)]
  {
    OuterOfOneWellTyped();
    var f := Inner.fields[0];
    assert ConvertValue(f, IntV(1)) == IntV(1);
    assert KeyAsWritten(["sub"], "x") == "subx";
    assert QueryFrom(AsWritten, InnerOfOne, ["sub"], 0, map[]) == QueryFrom(AsWritten, InnerOfOne, ["sub"], 1, map["subx" := IntV(1)]);
    assert Key(["sub"], "x") == "sub.x" by {
      assert ["sub"] + ["x"] == ["sub", "x"];
      assert ["sub", "x"][1..] == ["x"];
      assert Join(".", ["sub", "x"]) == "sub" + "." + "x";
    }
    assert QueryFrom(Dotted, InnerOfOne, ["sub"], 0, map[]) == QueryFrom(Dotted, InnerOfOne, ["sub"], 1, map["sub.x" := IntV(1)]);
  }

  lemma OuterQueries()
    ensures WellTyped(OuterOfOne)
    ensures CreateQuery(AsWritten, OuterOfOne) == map["subx" := IntV(1)]
    ensures CreateQuery(Dotted, OuterOfOne) == map["sub.x" := IntV(1)]
  {
    OuterOfOneWellTyped();
    InnerQueries();
    assert [] + ["sub"] == ["sub"];
    assert map[] + map["subx" := IntV(1)] == map["subx" := IntV(1)];
    assert map[] + map["sub.x" := IntV(1)] == map["sub.x" := IntV(1)];
    assert CreateQuery(AsWritten, OuterOfOne) == QueryFrom(AsWritten, OuterOfOne, [], 1, map[] + QueryFrom(AsWritten, InnerOfOne, ["sub"], 0, map[]));
    assert CreateQuery(Dotted, OuterOfOne) == QueryFrom(Dotted, OuterOfOne, [], 1, map[] + QueryFrom(Dotted, InnerOfOne, ["sub"], 0, map[]));
  }

  /** The document stored for `Outer(Inner(1))` is `{sub: {x: 1}}`. */
  lemma OuterDocument()
    ensures WellTyped(OuterOfOne)
    ensures CreateRow(OuterOfOne) == map["sub" := Embedded(map["x" := Scalar(IntV(1))])]
  {
    OuterOfOneWellTyped();
    assert ConvertValue(Inner.fields[0], IntV(1)) == IntV(1);
    assert CreateRow(InnerOfOne) == map["x" := Scalar(IntV(1))] by {
      assert RowFrom(InnerOfOne, 0, map[]) == RowFrom(InnerOfOne, 1, map["x" := Scalar(IntV(1))]);
    }
    assert RowFrom(OuterOfOne, 0, map[]) == RowFrom(OuterOfOne, 1, map["sub" := Embedded(CreateRow(InnerOfOne))]);
  }

  /**
   * The key path as written, `'.'.join(parents) + name`, misses the dot before the nested
   * field's name: for `Outer(Inner(1))` the query asks for `subx == 1`, which the stored document
   * `{sub: {x: 1}}` does not satisfy, so `find_one` cannot find even the document stored for the
   * very same record. The dotted path `sub.x` does match it.
   */
  lemma AsWrittenQueryMissesNestedKey()
    ensures WellTyped(OuterOfOne) && GoodNames(Outer)
    ensures CreateQuery(AsWritten, OuterOfOne) == map["subx" := IntV(1)]
    ensures CreateQuery(Dotted, OuterOfOne) == map["sub.x" := IntV(1)]
    ensures !Matches(CreateRow(OuterOfOne), CreateQuery(AsWritten, OuterOfOne))
    ensures FindOne([Stored(0, CreateRow(OuterOfOne))], CreateQuery(AsWritten, OuterOfOne)) == None
    ensures Matches(CreateRow(OuterOfOne), CreateQuery(Dotted, OuterOfOne))
  {
    OuterOfOneWellTyped();
    OuterQueries();
    OuterDocument();
    var doc := CreateRow(OuterOfOne);
    assert DotFreeLength("subx") == 4;
    assert SplitDots("subx") == ["subx"];
    assert Resolve(doc, ["subx"]) == None;
    QueryMatchesOwnDocument(OuterOfOne);
  }

  /** Where no key field is a nested record, the query as written and the dotted query coincide. */
  lemma {:induction false} AsWrittenAgreesOnFlatKeys(r: Record, i: nat, acc: Query)
    requires WellTyped(r) && FlatKeys(r.rtype) && i <= |r.values|
    ensures QueryFrom(AsWritten, r, [], i, acc) == QueryFrom(Dotted, r, [], i, acc)
    decreases |r.values| - i
  {
    if i < |r.values| {
      var f := r.rtype.fields[i];
      assert KeyAsWritten([], f.name) == Key([], f.name) by {
        assert [] + [f.name] == [f.name];
      }
      if f.isKey {
        AsWrittenAgreesOnFlatKeys(r, i + 1, acc[Key([], f.name) := ConvertValue(f, r.values[i])]);
      } else {
        AsWrittenAgreesOnFlatKeys(r, i + 1, acc);
      }
    }
  }

  /**
   * Where no key field is a nested record, the lookup as written and the corrected lookup are
   * the same: `_get_objectid`, `exists` and `add` give the same result and state.
   */
  lemma PathsAgreeOnFlatKeys(toWords: string -> string, s: MongoState, r: Record, checkExists: bool)
    requires WellTyped(r) && FlatKeys(r.rtype)
    ensures CreateQuery(AsWritten, r) == CreateQuery(Dotted, r)
    ensures GetObjectId(toWords, AsWritten, s, r) == GetObjectId(toWords, Dotted, s, r)
    ensures Exists(toWords, AsWritten, s, r) == Exists(toWords, Dotted, s, r)
    ensures Add(toWords, AsWritten, s, r, checkExists) == Add(toWords, Dotted, s, r, checkExists)
  {
    AsWrittenAgreesOnFlatKeys(r, 0, map[]);
  }

  /**
   * Cross-instance deduplication of `MongoModel` as written, for types whose key fields are not
   * nested records.
   */
  lemma AsWrittenCrossInstanceDedup(toWords: string -> string, s: MongoState, r1: Record, r2: Record)
    requires WellTyped(r1) && WellTyped(r2) && SameKeys(r1, r2) && GoodNames(r1.rtype) && FlatKeys(r1.rtype)
    requires CreateQuery(AsWritten, r1) != map[]
    requires r1.handle !in s.objectids && r2.handle !in s.objectids && r1.handle != r2.handle
    ensures var a1 := Add(toWords, AsWritten, s, r1, true);
            var a2 := Add(toWords, AsWritten, a1.state, r2, true);
            a2.result == a1.result && a2.state.db == a1.state.db
  {
    var a1 := Add(toWords, AsWritten, s, r1, true);
    PathsAgreeOnFlatKeys(toWords, s, r1, true);
    PathsAgreeOnFlatKeys(toWords, a1.state, r2, true);
    CrossInstanceDedup(toWords, s, r1, r2);
  }

  /**
   * As written, a second instance with the same nested key is inserted again: into an empty
   * database, `add(Outer(Inner(1)))` inserts `_id` 0, and `add` of another `Outer(Inner(1))`,
   * with the existence check on, does not find it and inserts a second document with `_id` 1.
   * The corrected lookup returns 0 for the second instance.
   */
  lemma AsWrittenAddsDuplicate(toWords: string -> string)
    ensures WellTyped(OuterOfOne) && WellTyped(OtherOuterOfOne) && SameKeys(OuterOfOne, OtherOuterOfOne)
    ensures var n := TableName(toWords, Outer.name);
            var a1 := Add(toWords, AsWritten, MongoState(map[], map[], 0), OuterOfOne, true);
            var a2 := Add(toWords, AsWritten, a1.state, OtherOuterOfOne, true);
            && a1.result == 0 && a2.result == 1
            && a2.state.db[n] == [Stored(0, CreateRow(OuterOfOne)), Stored(1, CreateRow(OtherOuterOfOne))]
    ensures var a1 := Add(toWords, Dotted, MongoState(map[], map[], 0), OuterOfOne, true);
            var a2 := Add(toWords, Dotted, a1.state, OtherOuterOfOne, true);
            a1.result == 0 && a2.result == 0
  {
    var n := TableName(toWords, Outer.name);
    var s := MongoState(map[], map[], 0);
    OuterOfOneWellTyped();
    AsWrittenQueryMissesNestedKey();
    QueryDependsOnKeysOnly(AsWritten, OuterOfOne, OtherOuterOfOne);
    var a1 := Add(toWords, AsWritten, s, OuterOfOne, true);
    assert a1.state.db[n] == [Stored(0, CreateRow(OuterOfOne))];
    assert GetObjectId(toWords, AsWritten, a1.state, OtherOuterOfOne).result == None;
    QueryDependsOnKeysOnly(Dotted, OuterOfOne, OtherOuterOfOne);
    assert "sub.x" in CreateQuery(Dotted, OuterOfOne);
    CrossInstanceDedup(toWords, s, OuterOfOne, OtherOuterOfOne);
  }
}
