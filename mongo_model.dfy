/**
 * `MongoModel` as an object: the database (collections of documents), the memoised
 * `_objectid` of each instance and the next unused `_id` are fields its methods update in
 * place. Each method is proved to leave exactly the result and the state that the functions of
 * `MongoStore` describe, so every property proved of those functions holds of the object.
 */
module MongoAdapter {
  import opened Results
  import opened Records
  import opened Naming
  import opened MongoStore

  class MongoModel {
    /** `camelcase_to_words`, which is not part of this model. */
    const toWords: string -> string
    /** The collections of the database, by name. */
    var db: map<string, seq<Stored>>
    /** The `_objectid` attribute of each instance that has one. */
    var objectids: map<Handle, ObjectId>
    /** The `_id` the next inserted document receives. */
    var nextId: ObjectId

    function State(): MongoState
      reads this
    {
      MongoState(db, objectids, nextId)
    }

    ghost predicate Valid()
      reads this
    {
      FreshIds(State())
    }

    /** `MongoModel(database_name, ...)`: the named database, as it is when connected to. */
    constructor (toWords: string -> string, collections: map<string, seq<Stored>>, next: ObjectId)
      ensures this.toWords == toWords && State() == MongoState(collections, map[], next)
      ensures FreshIds(MongoState(collections, map[], next)) ==> Valid()
    {
      this.toWords := toWords;
      db := collections;
      objectids := map[];
      nextId := next;
    }

    /**
     * `_create_query`: the key fields below `parents`, each under `'.'.join(parents) + name`;
     * a nested key record adds its own query.
     */
    method CreateQuery(r: Record, parents: seq<string>) returns (q: Query)
      requires WellTyped(r)
      ensures q == QueryFrom(AsWritten, r, parents, 0, map[])
      decreases r
    {
      q := map[];
      var i := 0;
      while i < |r.values|
        invariant i <= |r.values|
        invariant QueryFrom(AsWritten, r, parents, 0, map[]) == QueryFrom(AsWritten, r, parents, i, q)
        decreases |r.values| - i
      {
        var f, v := r.rtype.fields[i], r.values[i];
        assert Fits(f.kind, v);
        if f.isKey {
          if IsNested(f) {
            var sub := CreateQuery(v.rec, parents + [f.name]);
            q := q + sub;
          } else {
            q := q[KeyAsWritten(parents, f.name) := ConvertValue(f, v)];
          }
        }
        i := i + 1;
      }
    }

    /** `_create_row`: every field by name, a nested record as an embedded document. */
    method CreateRow(r: Record) returns (doc: Doc)
      requires WellTyped(r)
      ensures doc == MongoStore.CreateRow(r)
      decreases r
    {
      doc := map[];
      var i := 0;
      while i < |r.values|
        invariant i <= |r.values|
        invariant MongoStore.CreateRow(r) == RowFrom(r, i, doc)
        decreases |r.values| - i
      {
        var f, v := r.rtype.fields[i], r.values[i];
        assert Fits(f.kind, v);
        if v.RecordV? {
          var sub := CreateRow(v.rec);
          doc := doc[f.name := Embedded(sub)];
        } else {
          doc := doc[f.name := Scalar(ConvertValue(f, v))];
        }
        i := i + 1;
      }
    }

    /** `_get_objectid`: may memoise the id of `r`; changes nothing else. */
    method GetObjectId(r: Record) returns (res: Option<ObjectId>)
      requires WellTyped(r)
      modifies this
      ensures var l := MongoStore.GetObjectId(toWords, AsWritten, old(State()), r);
              res == l.result && State() == old(State()).(objectids := l.objectids)
    {
      if r.handle in objectids {
        return Some(objectids[r.handle]);
      }
      var n := TableName(toWords, r.rtype.name);
      if n !in db {
        return None;
      }
      var q := CreateQuery(r, []);
      if q == map[] {
        return None;
      }
      var found := FindOne(db[n], q);
      if found.None? {
        return None;
      }
      var id := db[n][found.value].id;
      objectids := objectids[r.handle := id];
      return Some(id);
    }

    /** `exists`. */
    method Exists(r: Record) returns (res: bool)
      requires WellTyped(r)
      modifies this
      ensures var a := MongoStore.Exists(toWords, AsWritten, old(State()), r);
              res == a.result && State() == old(State()).(objectids := a.objectids)
    {
      var found := GetObjectId(r);
      return found.Some?;
    }

    /** `add`: the record's document, nested records embedded, goes into one `insert_one`. */
    method Add(r: Record, checkExists: bool) returns (res: ObjectId)
      requires WellTyped(r)
      modifies this
      ensures var a := MongoStore.Add(toWords, AsWritten, old(State()), r, checkExists);
              res == a.result && State() == a.state
      ensures old(Valid()) ==> Valid()
    {
      if r.handle in objectids {
        return objectids[r.handle];
      }
      if checkExists {
        var found := GetObjectId(r);
        if found.Some? {
          return found.value;
        }
      }
      var n := TableName(toWords, r.rtype.name);
      var doc := CreateRow(r);
      var docs := if n in db then db[n] else [];
      res := nextId;
      db := db[n := docs + [Stored(res, doc)]];
      nextId := nextId + 1;
      objectids := objectids[r.handle := res];
    }
  }
}
