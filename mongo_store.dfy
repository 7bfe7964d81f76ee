/**
 * The document side of `MongoModel`: converting values, the key query, the document `add`
 * stores, and finding, testing for and adding records in a database of collections.
 *
 * The database is modelled as MongoDB behaves for these calls: a collection holds documents in
 * insertion order and exists once a document was inserted into it; a query key is a dotted path
 * that descends into embedded documents; `find_one` yields the first document matching every
 * key of the query; `insert_one` gives the document an `_id` never used before (a counter
 * here). The memoised `_objectid` of each instance is the map `objectids`, keyed by handle.
 */
module MongoStore {
  import opened Results
  import opened Records
  import opened Naming

  /** A field value of a stored document: a converted scalar or an embedded document. */
  datatype DocValue = Scalar(value: Value) | Embedded(doc: map<string, DocValue>)

  type Doc = map<string, DocValue>

  /** A query: dotted key paths and the value each must hold. */
  type Query = map<string, Value>

  /**
   * `_convert_value`: an enum member becomes its name, a date or a datetime (a subclass of
   * date) becomes the datetime at midnight of the same day, anything else is kept.
   */
  function ConvertValue(f: FieldSpec, v: Value): (c: Value)
    requires Fits(f.kind, v)
    ensures f.kind.EnumKind? ==> c == StrV(v.member)
    ensures f.kind == DateKind || f.kind == DateTimeKind ==>
              && c.DateTimeV? && c.year == v.year && c.month == v.month && c.day == v.day
              && c.hour == 0 && c.minute == 0 && c.second == 0 && c.micro == 0
    ensures !f.kind.EnumKind? && f.kind != DateKind && f.kind != DateTimeKind ==> c == v
  {
    match f.kind
    case EnumKind(_) => StrV(v.member)
    case DateKind => DateTimeV(v.year, v.month, v.day, 0, 0, 0, 0)
    case DateTimeKind => DateTimeV(v.year, v.month, v.day, 0, 0, 0, 0)
    case _ => v
  }

  /** A datetime and a date of the same day are stored alike: the time of day is dropped. */
  lemma ConvertDropsTime(f: FieldSpec, g: FieldSpec, year: int, month: int, day: int,
                         hour: int, minute: int, second: int, micro: int)
    requires f.kind == DateTimeKind && g.kind == DateKind
    ensures ConvertValue(f, DateTimeV(year, month, day, hour, minute, second, micro))
         == ConvertValue(g, DateV(year, month, day))
  {
  }

  /** Converting a converted date or datetime again changes nothing. */
  lemma ConvertDatesIdempotent(f: FieldSpec, v: Value)
    requires (f.kind == DateKind || f.kind == DateTimeKind) && Fits(f.kind, v)
    ensures var c := ConvertValue(f, v);
            c.DateTimeV? && (f.kind == DateTimeKind ==> ConvertValue(f, c) == c)
  {
  }

  /** Length of the leading run of `k` that holds no dot. */
  function DotFreeLength(k: string): (n: nat)
    ensures n <= |k|
    ensures forall i :: 0 <= i < n ==> k[i] != '.'
    ensures n < |k| ==> k[n] == '.'
  {
    if k == [] || k[0] == '.' then 0 else 1 + DotFreeLength(k[1..])
  }

  predicate DotFree(k: string)
  {
    forall i :: 0 <= i < |k| ==> k[i] != '.'
  }

  /** The path a query key names: the key split at every dot, as MongoDB reads it. */
  function SplitDots(k: string): (path: seq<string>)
    ensures |path| > 0
    ensures forall i :: 0 <= i < |path| ==> DotFree(path[i])
    decreases |k|
  {
    var n := DotFreeLength(k);
    if n == |k| then [k] else [k[..n]] + SplitDots(k[n + 1..])
  }

  lemma {:induction false} DotFreeLengthOfWordThenDot(w: string, t: string)
    requires DotFree(w) && t != [] && t[0] == '.'
    ensures DotFreeLength(w + t) == |w|
    decreases |w|
  {
    if w != [] {
      assert (w + t)[1..] == w[1..] + t;
      DotFreeLengthOfWordThenDot(w[1..], t);
    }
  }

  /** A dot-free word followed by a dot splits off as the first path element. */
  lemma SplitDotsOfWordThenDot(w: string, rest: string)
    requires DotFree(w)
    ensures SplitDots(w + "." + rest) == [w] + SplitDots(rest)
  {
    var k := w + "." + rest;
    assert k == w + ("." + rest);
    DotFreeLengthOfWordThenDot(w, "." + rest);
    assert k[..|w|] == w;
    assert k[|w| + 1..] == rest;
  }

  /** Splitting at dots undoes joining with dots, for names that contain no dot. */
  lemma {:induction false} SplitJoinDots(path: seq<string>)
    requires |path| > 0 && forall i :: 0 <= i < |path| ==> DotFree(path[i])
    ensures SplitDots(Join(".", path)) == path
  {
    if |path| == 1 {
      assert DotFreeLength(path[0]) == |path[0]|;
    } else {
      assert Join(".", path) == path[0] + "." + Join(".", path[1..]);
      SplitDotsOfWordThenDot(path[0], Join(".", path[1..]));
      SplitJoinDots(path[1..]);
      assert path == [path[0]] + path[1..];
    }
  }

  /** The scalar a dotted path leads to in a document, descending into embedded documents. */
  function Resolve(doc: Doc, path: seq<string>): Option<Value>
    decreases |path|
  {
    if path == [] || path[0] !in doc then None
    else match doc[path[0]]
      case Scalar(v) => if |path| == 1 then Some(v) else None
      case Embedded(d) => Resolve(d, path[1..])
  }

  /** The document satisfies every key of the query. */
  predicate Matches(doc: Doc, q: Query)
  {
    forall k :: k in q ==> Resolve(doc, SplitDots(k)) == Some(q[k])
  }

  /** The key `_create_query` writes for a scalar key field below `parents`. */
  datatype KeyPath =
    /** `'.'.join(parents) + name`, as the source writes it: no dot before the field's own name. */
    | AsWritten
    /** The dotted path to the field, which MongoDB resolves through the embedded documents. */
    | Dotted

  function KeyAsWritten(parents: seq<string>, name: string): string
  {
    Join(".", parents) + name
  }

  function Key(parents: seq<string>, name: string): (k: string)
    ensures parents == [] ==> k == name
  {
    Join(".", parents + [name])
  }

  /** The two keys differ only below a nested record: a top-level key is the field's name. */
  function KeyOf(path: KeyPath, parents: seq<string>, name: string): (k: string)
    ensures parents == [] ==> k == name
  {
    match path
    case AsWritten => KeyAsWritten(parents, name)
    case Dotted => Key(parents, name)
  }

  /**
   * `_create_query` from field `i` on: only key fields, converted; a nested key field
   * contributes the query of the nested record, one level further down.
   */
  function QueryFrom(path: KeyPath, r: Record, parents: seq<string>, i: nat, acc: Query): Query
    requires WellTyped(r) && i <= |r.values|
    decreases r, |r.values| - i
  {
    if i == |r.values| then acc
    else
      var f, v := r.rtype.fields[i], r.values[i];
      assert Fits(f.kind, v);
      if !f.isKey then QueryFrom(path, r, parents, i + 1, acc)
      else if IsNested(f) then
        QueryFrom(path, r, parents, i + 1, acc + QueryFrom(path, v.rec, parents + [f.name], 0, map[]))
      else QueryFrom(path, r, parents, i + 1, acc[KeyOf(path, parents, f.name) := ConvertValue(f, v)])
  }

  /** `_create_query(data)`: the query of the record's key fields, from the top. */
  function CreateQuery(path: KeyPath, r: Record): Query
    requires WellTyped(r)
  {
    QueryFrom(path, r, [], 0, map[])
  }

  /** `_create_row` from field `i` on: every field, a nested record embedded as a document. */
  function RowFrom(r: Record, i: nat, acc: Doc): Doc
    requires WellTyped(r) && i <= |r.values|
    decreases r, 0, |r.values| - i
  {
    if i == |r.values| then acc
    else
      var f, v := r.rtype.fields[i], r.values[i];
      assert Fits(f.kind, v);
      if v.RecordV? then RowFrom(r, i + 1, acc[f.name := Embedded(CreateRow(v.rec))])
      else RowFrom(r, i + 1, acc[f.name := Scalar(ConvertValue(f, v))])
  }

  function CreateRow(r: Record): Doc
    requires WellTyped(r)
    decreases r, 1, 0
  {
    RowFrom(r, 0, map[])
  }

  /** Field names that can be read back from a dotted path: no dots, no two alike, at every depth. */
  predicate GoodNames(t: RecordType)
    decreases t, 1
  {
    && DistinctFieldNames(t)
    && forall i :: 0 <= i < |t.fields| ==> DotFree(t.fields[i].name) && GoodKindNames(t.fields[i].kind)
  }

  predicate GoodKindNames(k: Kind)
    decreases k, 0
  {
    k.RecordKind? ==> GoodNames(k.rtype)
  }

  /** A stored document and the `_id` it was given. */
  datatype Stored = Stored(id: ObjectId, body: Doc)

  type ObjectId = nat

  /** The collections by name, the memoised `_objectid`s, and the next unused `_id`. */
  datatype MongoState = MongoState(db: map<string, seq<Stored>>, objectids: map<Handle, ObjectId>, nextId: ObjectId)

  function Docs(s: MongoState, n: string): seq<Stored>
  {
    if n in s.db then s.db[n] else []
  }

  /** `find_one(query)`: the first document, in insertion order, that matches. */
  function FindOne(docs: seq<Stored>, q: Query): (found: Option<nat>)
    ensures found.None? <==> forall j :: 0 <= j < |docs| ==> !Matches(docs[j].body, q)
    ensures found.Some? ==> found.value < |docs| && Matches(docs[found.value].body, q)
                            && forall j :: 0 <= j < found.value ==> !Matches(docs[j].body, q)
  {
    if docs == [] then None
    else if Matches(docs[0].body, q) then Some(0)
    else match FindOne(docs[1..], q)
      case None => None
      case Some(k) => Some(k + 1)
  }

  /** The `_objectid` found, or `None`, and the memoised ids afterwards. */
  datatype Found = Found(result: Option<ObjectId>, objectids: map<Handle, ObjectId>)

  /**
   * `_get_objectid`: the memoised id if there is one; otherwise `None` without a collection or
   * with an empty query; otherwise the `_id` of the first matching document, memoised. The
   * source builds its query with the `AsWritten` keys; `Dotted` is the corrected lookup.
   */
  function GetObjectId(toWords: string -> string, path: KeyPath, s: MongoState, r: Record): (l: Found)
    requires WellTyped(r)
    ensures l.result.Some? ==> r.handle in l.objectids && l.objectids[r.handle] == l.result.value
    ensures l.objectids == s.objectids || (l.result.Some? && l.objectids == s.objectids[r.handle := l.result.value])
  {
    if r.handle in s.objectids then Found(Some(s.objectids[r.handle]), s.objectids)
    else
      var n := TableName(toWords, r.rtype.name);
      if n !in s.db then Found(None, s.objectids)
      else
        var q := CreateQuery(path, r);
        if q == map[] then Found(None, s.objectids)
        else match FindOne(s.db[n], q)
          case None => Found(None, s.objectids)
          case Some(k) => Found(Some(s.db[n][k].id), s.objectids[r.handle := s.db[n][k].id])
  }

  /** Whether the record exists, and the memoised ids afterwards. */
  datatype Known = Known(result: bool, objectids: map<Handle, ObjectId>)

  /** `exists`: `_get_objectid(data) is not None`. */
  function Exists(toWords: string -> string, path: KeyPath, s: MongoState, r: Record): (a: Known)
    requires WellTyped(r)
    ensures a.result <==> GetObjectId(toWords, path, s, r).result.Some?
    ensures a.objectids == GetObjectId(toWords, path, s, r).objectids
  {
    var l := GetObjectId(toWords, path, s, r);
    Known(l.result.Some?, l.objectids)
  }

  /** The `_objectid` `add` returns and the state afterwards. */
  datatype Added = Added(result: ObjectId, state: MongoState)

  /** Every `_id` in use, stored or memoised, is below `nextId`. */
  predicate FreshIds(s: MongoState)
  {
    && (forall n, j :: n in s.db && 0 <= j < |s.db[n]| ==> s.db[n][j].id < s.nextId)
    && (forall h :: h in s.objectids ==> s.objectids[h] < s.nextId)
  }

  /**
   * `add`: the memoised id if there is one; with `checkExists`, the id of a matching document
   * if there is one; otherwise `insert_one` of the record's document, nested records embedded,
   * into its collection (created on first use), and its new `_id` memoised.
   */
  function Add(toWords: string -> string, path: KeyPath, s: MongoState, r: Record, checkExists: bool): (a: Added)
    requires WellTyped(r)
    ensures r.handle in a.state.objectids && a.state.objectids[r.handle] == a.result
    ensures FreshIds(s) ==> FreshIds(a.state)
  {
    if r.handle in s.objectids then Added(s.objectids[r.handle], s)
    else
      var l := if checkExists then GetObjectId(toWords, path, s, r) else Found(None, s.objectids);
      if l.result.Some? then Added(l.result.value, s.(objectids := l.objectids))
      else
        var n := TableName(toWords, r.rtype.name);
        Added(s.nextId, MongoState(s.db[n := Docs(s, n) + [Stored(s.nextId, CreateRow(r))]],
                                   s.objectids[r.handle := s.nextId], s.nextId + 1))
  }
}
