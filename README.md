# pipeline-async record persistence, modelled in Dafny

This project models the persistence layer of pipeline-async. A pipeline hands it a dataclass
instance. The layer derives a table (SQL) or a collection (MongoDB) from the record's class. It
decides from the record's key fields whether an equal record is already stored. Otherwise it
inserts the record, after the records nested in it, and remembers the new id on the instance.

Modelled:

- `_DatabaseModel._get_table_name`, the storage name of a class (module `Naming`).
- `SqlModel`:
  - the tables and memoised ids that `add` may touch (module `SqlFootprint`);
  - the table cache with `_require_table`, `get_table`, `_create_table` and `_create_column`
    (module `SqlSchema`);
  - the key lookup `_get_rowid`, `exists` and `add` over an SQLite-like store (module `SqlStore`);
  - the adapter object itself, whose methods update its fields in place (class
    `SqlAdapter.SqlModel`).
- `MongoModel`:
  - `_convert_value`, `_create_query`, `_create_row`, `_get_objectid`, `exists` and `add` over a
    database of collections (module `MongoStore`). The key of a nested key field is built as the
    source writes it (`KeyPath.AsWritten`) or with the dot it misses (`KeyPath.Dotted`, the
    corrected lookup; see "## Findings");
  - the adapter object (class `MongoAdapter.MongoModel`), which builds its keys as written.
- Both `PassThroughModel`s (module `PassThrough`).

Records are values. `Record(handle, rtype, values)` is an instance with its object identity, its
class and its field values. The id the source stores on the instance (`_rowid`, `_objectid`) is a
map from handle to id, held by the adapter. `camelcase_to_words` is defined in a module that is
not part of this model. It is the parameter `toWords`, and every property holds whatever it
computes.

Each adapter method is proved to produce exactly the result and the new state that a function
describes. The properties are proved about those functions in `SqlProperties`, `MongoProperties`
and `SqlScenarios`.

Where the behaviour the library is meant to have and its code disagree, the model follows the code:

- `exists` of a type without key fields is false only for an instance with no remembered id.
  After `add` of that very instance, its remembered id makes `exists` true
  (model.py:128-129 and 164-165). `NoKeyFieldsNeverFound` therefore requires that no id is
  remembered for the instance.
- A nested key record that is not found does not stop the lookup. Its clause compares
  `<name>_id` with `None`, which SQL reads as `IS NULL` (model.py:141-142).
- Cross-instance deduplication on MongoDB holds only where no key field is a nested record.
  `_create_query` leaves out the dot before a nested field's name (model.py:220). The adapter
  and `MongoStore`'s lookup with `KeyPath.AsWritten` do the same, so a second instance with an
  equal nested key is inserted again (`AsWrittenAddsDuplicate`). The deduplication lemmas for
  nested keys are stated of the corrected `KeyPath.Dotted` lookup.

## Model

| member | source | states |
|---|---|---|
| Naming.LowerChar | pipeline_async/model.py:49 | lower-casing leaves no upper-case ASCII letter and keeps whitespace whitespace |
| Naming.Lower | pipeline_async/model.py:49 | `lower()` keeps the length and lower-cases each character in place |
| Naming.WordLength | pipeline_async/model.py:50 | the first word of a string is a maximal run of non-space characters |
| Naming.Split | pipeline_async/model.py:50 | every word `split()` returns is non-empty and holds no whitespace |
| Naming.Join | pipeline_async/model.py:50 | joining words without whitespace with a separator without whitespace gives a string without whitespace |
| Naming.TableName | pipeline_async/model.py:49-50 | a table name never holds whitespace |
| Naming.GetTableName | pipeline_async/model.py:45-50 | a class is named by its own `__name__`; the name holds no whitespace |
| Naming.InstanceAndClassShareName | pipeline_async/model.py:46-47 | an instance and its class get the same storage name |
| Naming.LowerIdempotent | pipeline_async/model.py:49 | lower-casing twice is lower-casing once |
| Naming.TableNameIgnoresCase | pipeline_async/model.py:49-50 | class names that differ only in ASCII case share one table, whatever `camelcase_to_words` does |
| Naming.SplitKeepsNonSpace | pipeline_async/model.py:50 | `split()` drops exactly the whitespace: its words, concatenated, are the string's non-space characters |
| Naming.SplitOfWord | pipeline_async/model.py:50 | a non-empty string without whitespace splits into itself |
| Naming.TableNameOfOneWord | pipeline_async/model.py:49-50 | when `camelcase_to_words` yields one word, that word is the table name |
| Naming.SplitJoinRoundTrip | pipeline_async/model.py:50 | `split()` undoes `" ".join` on non-empty words without whitespace |
| SqlSchema.RequireTable | pipeline_async/model.py:68-75 | keeps every cached table; on success, the result is cached under the type's name; only the type's own table and those of nested types can be added |
| SqlSchema.CreateTable | pipeline_async/model.py:86-98 | on success, the table is registered under its name and has the `id` column followed by one column per field, in field order; it succeeds only when no field's column is called `id`, which SQLAlchemy refuses to redefine |
| SqlSchema.CreateColumnsFrom | pipeline_async/model.py:88-91 | the loop keeps every cached table and the columns built so far; on success, it appends the column of each remaining field, in order |
| SqlSchema.CreateColumn | pipeline_async/model.py:100-117 | a nested record gets a nullable `<name>_id` foreign key to its table's `id`; another field gets its mapped type, nullable exactly when its default is `None`; a scalar field changes no cached table |
| SqlSchema.GetTable | pipeline_async/model.py:77-84 | succeeds exactly when the type's table is cached; otherwise fails with `No table named` and the name |
| SqlSchema.MappingComplete | pipeline_async/model.py:105-113 | exactly the fields of an unsupported type have no column type |
| SqlSchema.KeyStringsIgnoreCase | pipeline_async/model.py:107-110 | a string column is case-insensitive if and only if its field is a key field; otherwise it is a plain `String` |
| SqlSchema.RequireTableIdempotent | pipeline_async/model.py:68-75 | a second `_require_table` returns the same table and creates nothing |
| SqlSchema.GetTableAfterRequire | pipeline_async/model.py:68-84 | after `_require_table` succeeded, `get_table` returns the same table |
| SqlSchema.CreatedTableShape | pipeline_async/model.py:86-98 | a newly created table carries the type's name, the `id` column and one column per field |
| SqlSchema.FailedRequireCreatesNoOwnTable | pipeline_async/model.py:86-113 | when creation fails, the type's own table is not registered; only tables of nested types may have been created |
| SqlSchema.UnsupportedFieldFails | pipeline_async/model.py:90-91 | one field of an unsupported type makes `_create_table` fail |
| SqlSchema.ColumnsFailFrom | pipeline_async/model.py:90-91 | the column loop fails when a field of an unsupported type lies ahead |
| SqlSchema.SupportedFlatTypeCreated | pipeline_async/model.py:86-117 | a type whose fields are all of supported scalar types gets its table exactly when no field is called `id`; then no other table is created, and otherwise the refusal changes nothing |
| SqlSchema.IdFieldRefused | pipeline_async/model.py:86-94 | a type with a field whose column is called `id` never gets a table of its own: that column would redefine the primary key |
| SqlSchema.ColumnsSucceedFrom | pipeline_async/model.py:90-91 | the column loop over supported scalar fields succeeds and creates no table |
| SqlStore.ColumnTypeOf | pipeline_async/model.py:142-145 | a column type is found exactly when the table has a column of that name |
| SqlStore.FirstMatch | pipeline_async/model.py:153-157 | finds the first row satisfying every clause, and nothing exactly when no row does |
| SqlStore.KeyClausesFrom | pipeline_async/model.py:136-147 | building the clauses keeps every remembered id |
| SqlStore.GetRowId | pipeline_async/model.py:119-162 | a remembered id is returned with nothing changed; a found id is remembered for the instance; no remembered id is lost |
| SqlStore.Exists | pipeline_async/model.py:164-165 | true exactly when `_get_rowid` finds an id; fails exactly when it fails; remembers what it remembers |
| SqlStore.InsertRow | pipeline_async/model.py:191-194 | the insert succeeds exactly when every cell names a column and every non-nullable column other than the primary key has a cell (SQLite's NOT NULL constraint); it appends one row whose id is above every earlier id (1 in an empty table); a refused insert changes nothing |
| SqlStore.AppendKeepsIncreasing | pipeline_async/model.py:191-194 | a row with the next rowid keeps rowids increasing |
| SqlStore.Add | pipeline_async/model.py:167-196 | nothing is ever dropped; consistency is kept; a returned id is remembered for the instance; a remembered id is returned with nothing changed |
| SqlStore.AddRow | pipeline_async/model.py:177-196 | nothing is dropped but the instance's own old id; on success, the id is remembered and is that of the last row of the type's table |
| SqlStore.StoreRow | pipeline_async/model.py:188-196 | requiring the table, inserting and remembering drop nothing; on success, the new id is that of the table's last row |
| SqlStore.InsertAndMemoise | pipeline_async/model.py:191-196 | the insert adds no table; on success, the id is remembered and is that of the table's last row |
| SqlStore.RequiredTableNamed | pipeline_async/model.py:68-75 | in a well-named cache, the required table carries the type's name and is cached |
| SqlStore.RowCellsFrom | pipeline_async/model.py:178-186 | adding the nested records while building the row drops nothing and keeps consistency |
| SqlProperties.MemoisedLookup | pipeline_async/model.py:128-129 | a remembered id is returned without looking at the table, and `exists` is true |
| SqlProperties.MissingTableNotFound | pipeline_async/model.py:131-134 | without a table for the type, the record is not found and nothing is remembered |
| SqlProperties.NoKeyClausesFrom | pipeline_async/model.py:136-147 | a type without key fields adds no clause and remembers nothing |
| SqlProperties.NoKeyFieldsNeverFound | pipeline_async/model.py:149-151 | an instance of a type without key fields and without a remembered id is never found, whatever the table holds |
| SqlProperties.MatchesAllAppend | pipeline_async/model.py:153 | `and_` of one more clause holds exactly when the earlier clauses and the new one hold |
| SqlProperties.FlatClausesFrom | pipeline_async/model.py:136-147 | for scalar key fields, building the clauses succeeds exactly when the table has every key column; the clauses hold of a row exactly when it agrees with the record on every key field |
| SqlProperties.FlatLookupFindsFirstAgreeingRow | pipeline_async/model.py:119-162 | for scalar keys, the lookup returns the id of the first row agreeing on every key field (`None` when that id is 0 or no row agrees), fails exactly when a key column is missing, and remembers exactly the id it returns |
| SqlProperties.SelectIdFindsFirstAgreeing | pipeline_async/model.py:153-157 | clauses holding of exactly the agreeing rows select the first agreeing row's id, and nothing when none agrees |
| SqlProperties.AddMemoised | pipeline_async/model.py:169-170 | `add` of an instance with a remembered id returns it and changes nothing |
| SqlProperties.AddThenExists | pipeline_async/model.py:164-196 | after a successful `add`, the instance exists and a second `add` returns the same id with nothing changed |
| SqlProperties.FlatRowCellsFrom | pipeline_async/model.py:178-186 | for a record without nested fields, the row holds each field's value under the field's name, and no other cell |
| SqlProperties.AcceptedCellKept | pipeline_async/model.py:178-186 | a cell already in the row survives when no later field has its name |
| SqlProperties.CreatedTableHasKeyColumns | pipeline_async/model.py:86-117 | a created table has a column for every scalar key field |
| SqlProperties.SameKeysSameAgreement | pipeline_async/model.py:136-147 | instances with equal key values agree with the same rows |
| SqlProperties.AddRowAppendsAgreeingRow | pipeline_async/model.py:177-196 | for a record whose key fields are not nested records (and whose nested types do not share its table), inserting appends exactly one row to the type's table, agreeing with the record on its keys; the table is cached, unchanged if it existed, with every key column; the id is positive, and 1 in an empty table |
| SqlProperties.AddRowMemoises | pipeline_async/model.py:178-196 | inserting remembers the new id for the instance, keeps every other remembered id, and remembers ids only for records nested in it; without nested fields, only its own |
| SqlProperties.KeyCellsHeld | pipeline_async/model.py:178-186 | the row built for a record holds each key field that is not nested under its own name, with its value |
| SqlProperties.AppendedRowAgrees | pipeline_async/model.py:191-196 | a row holding the key values, appended after the rows of a consistent table, is one new agreeing row with an id above the others |
| SqlProperties.AddRowKeyTable | pipeline_async/model.py:188-196 | after an insert of a record whose key fields are not nested, the type's table is cached, unchanged if it existed, and has every key column |
| SqlProperties.StoreRowKeyTable | pipeline_async/model.py:188-194 | an accepted insert of a row holding every key field leaves the type's table cached, unchanged if it existed, with every key column |
| SqlProperties.CellsAgree | pipeline_async/model.py:178-186 | a row holding every key field's value under its name agrees with the record on its keys |
| SqlProperties.ShapedTableHasFieldColumns | pipeline_async/model.py:86-117 | a created table has the column of every field, so it accepts the row `add` builds |
| SqlProperties.FlatAddRowSucceeds | pipeline_async/model.py:177-196 | inserting a record whose fields are all supported scalars into a store without its table succeeds exactly when no field is called `id` |
| SqlProperties.AddRowOkWhenAccepted | pipeline_async/model.py:177-196 | the insert succeeds once the row is built, the table is there, it has every cell's column and every non-nullable column but the primary key has a cell |
| SqlProperties.StoreRowSteps | pipeline_async/model.py:188-196 | storing succeeds exactly when the table is found or made and the insert succeeds; the id is then remembered |
| SqlProperties.DedupWhenFound | pipeline_async/model.py:172-175 | for key fields that are not nested records: when one instance was found, another with equal keys gets the same id and nothing is inserted |
| SqlProperties.DedupLookupWhenFound | pipeline_async/model.py:119-162 | for key fields that are not nested records: when one instance was found, another with equal keys finds the same row and remembers it for itself |
| SqlProperties.FlatLookupFindsRow | pipeline_async/model.py:137-162 | the lookup of a record whose first agreeing row is at a given position returns that row's id |
| SqlProperties.FindsAppendedRow | pipeline_async/model.py:137-162 | a lookup in a table whose last row is the first agreeing one finds that row |
| SqlProperties.DedupWhenInserted | pipeline_async/model.py:167-196 | for key fields that are not nested records (other fields may be, if the second instance is not nested in the first and no nested type shares the table): after inserting one instance, another with equal keys gets the same id and inserts nothing |
| SqlProperties.CrossInstanceDedup | pipeline_async/model.py:167-196 | for key fields that are not nested records (other fields may be, if the second instance is not nested in the first and no nested type shares the table): after `add(r1)`, `add` of a distinct instance with equal key values returns `r1`'s id and inserts nothing |
| SqlProperties.FoundRowIsFirstAgreeing | pipeline_async/model.py:153-157 | an id found for one record is that of the first row agreeing with an equivalent record |
| SqlProperties.FirstAgreeing | pipeline_async/model.py:153-157 | the position of the first row that agrees with the record |
| SqlProperties.NoAgreeingRow | pipeline_async/model.py:157-159 | with positive ids, "not found" means no row agrees |
| SqlProperties.RowCellsFromStep | pipeline_async/model.py:179-186 | one turn of the row loop puts the field's value, or the nested record's remembered id, under the field's column |
| SqlProperties.RowCellsFromFieldCells | pipeline_async/model.py:178-186 | the row loop builds exactly the field cells over the ids it ends with, and remembers the id of every nested record it met |
| SqlProperties.FieldCellsKeys | pipeline_async/model.py:178-186 | the row has exactly the columns of the fields, and no other |
| SqlProperties.FieldCellsKeep | pipeline_async/model.py:178-186 | a cell no later field overwrites keeps its value |
| SqlProperties.FieldCellsHold | pipeline_async/model.py:178-186 | with distinct column names, each field has its cell |
| SqlProperties.RowCellsFromStoresFields | pipeline_async/model.py:178-186 | the built row holds every field's cell and only the fields' columns |
| SqlProperties.AddRowStoresFieldsAndNestedIds | pipeline_async/model.py:178-196 | nested records are added first; the parent's new row holds each scalar value under its name and each nested record's id under `<name>_id`, and no other column |
| SqlProperties.AddRowSteps | pipeline_async/model.py:177-196 | an insert is three steps: build the row, append it with an id above every earlier id (1 in an empty table), remember the id |
| SqlProperties.DirectlyNestedHandle | pipeline_async/model.py:183-184 | a record held by a field is nested in its parent |
| SqlProperties.InsertedRowStores | pipeline_async/model.py:194-195 | remembering the parent's own id keeps its row's nested ids right |
| SqlProperties.AddWithoutCheckInserts | pipeline_async/model.py:172-196 | with `check_exists=False`, `add` of an instance without a remembered id looks for no match: it inserts or fails; on success the type's table gains exactly one row, carrying the returned id, above every earlier id |
| SqlProperties.InsertAtPosition | pipeline_async/model.py:191-194 | when the rowids are 1, 2, and so on, a new row's id is the table's new length |
| SqlFootprint.NestedWithin | pipeline_async/model.py:183-184 | a record held by a field reaches only tables of types nested in its parent's type and instances nested in its parent |
| SqlFootprint.KeyClausesWithin | pipeline_async/model.py:136-147 | building the key clauses remembers ids only for records nested in the instance |
| SqlFootprint.LookupWithin | pipeline_async/model.py:119-162 | `_get_rowid` remembers ids only for the instance and the records nested in it |
| SqlFootprint.AddWithin | pipeline_async/model.py:167-196 | `add` creates or appends to only the tables of the record's type and nested types, and remembers ids only for the instance and the records nested in it |
| SqlFootprint.AddRowWithin | pipeline_async/model.py:177-196 | the insert part of `add` touches only those tables and those instances |
| SqlFootprint.StoreRowWithin | pipeline_async/model.py:188-196 | storing the row touches only the tables `_require_table` may create and the instance's own id |
| SqlFootprint.RowCellsWithin | pipeline_async/model.py:178-186 | the nested `add`s while building the row touch only the tables of nested types and the nested instances |
| SqlScenarios.Arith | tests/test_model.py:73-77 | `ArithmeticData(a, b, result)` is a well-typed record of its type, with `b` a key field and `result` not one, as the test's outcomes show; `a` being a key field is assumed, since the `mock` module that declares it is not part of this model |
| SqlScenarios.NothingExistsWhenFresh | tests/test_model.py:57-59 | `exists` is false on a fresh store |
| SqlScenarios.FreshAddInserts | pipeline_async/model.py:172-175 | on a fresh store, `add` goes straight to inserting |
| SqlScenarios.ArithmeticIsFlat | tests/test_model.py:70 | `ArithmeticData` has only supported scalar fields, with distinct names, none of them `id` |
| SqlScenarios.OneAgreeingRowHolds | tests/test_model.py:69-77 | a store whose table holds one row with id 1, agreeing on the keys, is the store the scenario needs |
| SqlScenarios.ArithmeticAddRow | tests/test_model.py:62-66 | inserting `ArithmeticData` into a fresh store returns 1 and stores one agreeing row |
| SqlScenarios.ArithmeticAddReturnsOne | tests/test_model.py:62-66 | `add(ArithmeticData(a, b, result))` on a fresh store creates the table and returns 1 |
| SqlScenarios.SameKeysFound | tests/test_model.py:73-74 | another instance with the same keys exists; `result` is not a key field |
| SqlScenarios.OtherKeysNotFound | tests/test_model.py:76-77 | an instance whose key `b` differs does not exist |
| SqlScenarios.ArithmeticScenario | tests/test_model.py:62-77 | `add(ArithmeticData(3, 4, 7))` returns 1; that instance and `ArithmeticData(3, 4, -1)` exist; `ArithmeticData(3, 99, 102)` does not |
| SqlAdapter.SqlModel.constructor | pipeline_async/model.py:57-61 | the cache starts as the reflected tables, and no instance has an id |
| SqlAdapter.SqlModel.RequireTable | pipeline_async/model.py:68-75 | result and cache are those of `SqlSchema.RequireTable`; rows and ids are untouched |
| SqlAdapter.SqlModel.GetTable | pipeline_async/model.py:77-84 | returns the cached table exactly when there is one; otherwise `No table named`; changes nothing |
| SqlAdapter.SqlModel.CreateTable | pipeline_async/model.py:86-98 | result and cache are those of `SqlSchema.CreateTable`; rows and ids are untouched |
| SqlAdapter.SqlModel.CreateColumn | pipeline_async/model.py:100-117 | result and cache are those of `SqlSchema.CreateColumn`; rows and ids are untouched |
| SqlAdapter.SqlModel.GetRowId | pipeline_async/model.py:119-162 | result and remembered ids are those of `SqlStore.GetRowId`; tables and rows are untouched |
| SqlAdapter.SqlModel.Exists | pipeline_async/model.py:164-165 | result and remembered ids are those of `SqlStore.Exists` |
| SqlAdapter.SqlModel.Add | pipeline_async/model.py:167-196 | result and new state are those of `SqlStore.Add`; a consistent adapter stays consistent |
| SqlAdapter.SqlModel.AddRow | pipeline_async/model.py:177-196 | result and new state are those of `SqlStore.AddRow` |
| SqlAdapter.SqlModel.BuildRow | pipeline_async/model.py:178-186 | the row and the state after the nested adds are those of `SqlStore.RowCellsFrom` |
| MongoStore.ConvertValue | pipeline_async/model.py:204-210 | an enum becomes its name; a date or a datetime becomes midnight of the same day; anything else is kept |
| MongoStore.ConvertDropsTime | pipeline_async/model.py:207-208 | a datetime and a date of the same day are stored alike |
| MongoStore.ConvertDatesIdempotent | pipeline_async/model.py:207-208 | converting a converted datetime again changes nothing |
| MongoStore.DotFreeLength | pipeline_async/model.py:220 | the first segment of a dotted key is a maximal run without dots |
| MongoStore.SplitDots | pipeline_async/model.py:220 | a dotted key names a non-empty path of dot-free names |
| MongoStore.SplitJoinDots | pipeline_async/model.py:220 | splitting at dots undoes joining with dots, for dot-free names |
| MongoStore.Key | pipeline_async/model.py:220 | the dotted key of a top-level field is its own name |
| MongoStore.KeyOf | pipeline_async/model.py:220 | as written or dotted, the key of a top-level field is its own name |
| MongoStore.FindOne | pipeline_async/model.py:241-243 | finds the first document matching every key of the query, and nothing exactly when none does |
| MongoStore.GetObjectId | pipeline_async/model.py:224-247 | with either key path: a found id is remembered for the instance; only that id may be added to the remembered ids |
| MongoStore.Exists | pipeline_async/model.py:249-250 | true exactly when `_get_objectid` with the same key path finds an id; remembers what it remembers |
| MongoStore.Add | pipeline_async/model.py:266-284 | with either key path: the returned id is remembered for the instance; ids stay fresh (every id in use is below the next one) |
| MongoProperties.RowFromHoldsFields | pipeline_async/model.py:255-262 | the document loop puts each field's entry under its name, keeps earlier entries and adds no other key |
| MongoProperties.CreateRowHoldsFields | pipeline_async/model.py:252-264 | the document has one entry per field, under the field's name: the converted value, or the nested record's own document |
| MongoProperties.ReachedBelowUnion | pipeline_async/model.py:218 | merging two queries that each match keeps them matching |
| MongoProperties.ReachedThroughEmbedded | pipeline_async/model.py:217-218 | what a nested record's query reaches in its document, its parent's query reaches one level up |
| MongoProperties.QueryFromReaches | pipeline_async/model.py:212-222 | with the dotted (corrected) key, every key the query loop adds leads, in the record's document, to the value it asks for |
| MongoProperties.ScalarKeyReaches | pipeline_async/model.py:219-220 | a scalar key's dotted entry leads, in the record's document, to its converted value |
| MongoProperties.NestedKeyReaches | pipeline_async/model.py:217-218 | a nested key's dotted entries lead, through the embedded document, to their values |
| MongoProperties.QueryMatchesOwnDocument | pipeline_async/model.py:212-264 | with the dotted key path, a record's key query matches the document stored for it |
| MongoProperties.QueryFromDependsOnKeys | pipeline_async/model.py:214-220 | with either key path, the query loop reads only key fields |
| MongoProperties.QueryDependsOnKeysOnly | pipeline_async/model.py:212-222 | with either key path, instances with equal key values have the same query |
| MongoProperties.NoKeyQueryFrom | pipeline_async/model.py:214-220 | with either key path, a type without key fields adds nothing to the query |
| MongoProperties.NoKeyFieldsNeverFound | pipeline_async/model.py:233-237 | with either key path, a type without key fields has an empty query, so an instance without a remembered id is never found |
| MongoProperties.MemoisedObjectId | pipeline_async/model.py:225-226 | with either key path, a remembered id is returned by `_get_objectid` and by `add`, and nothing changes |
| MongoProperties.MissingCollectionNotFound | pipeline_async/model.py:228-230 | with either key path, without a collection of the record's name, nothing is found |
| MongoProperties.AddInsertsOneDocument | pipeline_async/model.py:276-284 | with either key path, when nothing is found `add` inserts exactly one document, the record's with nested records embedded, into its collection; only the record's own id is remembered |
| MongoProperties.AddThenExists | pipeline_async/model.py:249-284 | with either key path, after `add` the instance exists and a second `add` returns the same id with nothing changed |
| MongoProperties.CrossInstanceDedup | pipeline_async/model.py:266-284 | with the dotted (corrected) lookup: after `add(r1)`, `add` of a distinct instance with equal key values returns `r1`'s id and inserts nothing |
| MongoProperties.DedupWhenInserted | pipeline_async/model.py:266-284 | with the dotted (corrected) lookup: after inserting one instance, another with the same query gets the same id and inserts nothing |
| MongoProperties.FirstMatchIsAppended | pipeline_async/model.py:241 | when only the appended document matches, `find_one` finds it |
| MongoProperties.OuterOfOneWellTyped | pipeline_async/model.py:212-222 | the records of the counterexample are well typed, with usable field names |
| MongoProperties.InnerQueries | pipeline_async/model.py:218-220 | below `sub`, the inner record asks for `subx` as written and for `sub.x` corrected |
| MongoProperties.OuterQueries | pipeline_async/model.py:212-222 | `Outer(Inner(1))` asks for `subx` as written and for `sub.x` corrected |
| MongoProperties.OuterDocument | pipeline_async/model.py:252-264 | the document stored for `Outer(Inner(1))` is `{sub: {x: 1}}` |
| MongoProperties.AsWrittenQueryMissesNestedKey | pipeline_async/model.py:220 | as written, the query of a nested key record does not match its own stored document; the dotted query does |
| MongoProperties.AsWrittenAgreesOnFlatKeys | pipeline_async/model.py:220 | where no key field is nested, the query loop as written and the dotted one build the same query |
| MongoProperties.PathsAgreeOnFlatKeys | pipeline_async/model.py:212-284 | where no key field is nested, `_create_query`, `_get_objectid`, `exists` and `add` as written give exactly what the corrected lookup gives |
| MongoProperties.AsWrittenCrossInstanceDedup | pipeline_async/model.py:212-284 | as written, for types whose key fields are not nested: after `add(r1)`, `add` of a distinct instance with equal key values returns `r1`'s id and inserts nothing |
| MongoProperties.AsWrittenAddsDuplicate | pipeline_async/model.py:212-284 | as written, `add` of a second `Outer(Inner(1))` after the first inserts a second document with a new id; the corrected lookup returns the first id |
| MongoAdapter.MongoModel.constructor | pipeline_async/model.py:200-202 | the adapter sees the database as it is, and no instance has an id |
| MongoAdapter.MongoModel.CreateQuery | pipeline_async/model.py:212-222 | the query is that of `MongoStore.QueryFrom` with the key as written, `'.'.join(parents) + name` |
| MongoAdapter.MongoModel.CreateRow | pipeline_async/model.py:252-264 | the document is that of `MongoStore.CreateRow` |
| MongoAdapter.MongoModel.GetObjectId | pipeline_async/model.py:224-247 | result and remembered ids are those of `MongoStore.GetObjectId` with the key path as written; the database is untouched |
| MongoAdapter.MongoModel.Exists | pipeline_async/model.py:249-250 | result and remembered ids are those of `MongoStore.Exists` with the key path as written |
| MongoAdapter.MongoModel.Add | pipeline_async/model.py:266-284 | result and new state are those of `MongoStore.Add` with the key path as written; fresh ids stay fresh |
| PassThrough.Exists | pipeline_async/model/passthrough.py:15-16 | nothing ever exists |
| PassThrough.Add | pipeline_async/model/passthrough.py:18-19 | `add` returns no ids |
| PassThrough.AddIgnoresArguments | pipeline_async/model/passthrough.py:18-19 | the result of `add` depends neither on the data nor on `check_exists` |
| PassThrough.InlineExists | pipeline_async/model.py:37-38 | the inline `exists` accepts `check_exists` and returns false |
| PassThrough.InlineAdd | pipeline_async/model.py:40-41 | the inline `add` fails with a `TypeError` exactly when `check_exists` is passed; otherwise it returns `[]` |
| PassThrough.VariantsAgree | pipeline_async/model.py:36-41 | called as the abstract `Model` allows, without `check_exists`, the two copies agree |
| PassThrough.InlineAddRejectsCheckExists | pipeline_async/model.py:31-41 | `add(data, check_exists=...)`, which `Model` declares, fails on the inline copy but returns `[]` from `passthrough.py` |

## Left out

- I/O, the SQLAlchemy engine and MetaData objects, the MongoDB client, transactions and logging are left out. The database is a value in the model: tables of rows for SQL, collections of documents for MongoDB.
- `SqlModel.from_filepath` and the client arguments of `MongoModel.__init__` are left out. They only build a connection.
- `camelcase_to_words`, `keyfields` and `iskeyfield` come from modules that are not part of this model. The first is the parameter `toWords`. The key flag of a field is the field's `isKey`.
- The remembered id lives in the adapter, not on the Python object. Two adapters given the same instance do not share it, unlike the `_rowid` attribute.
- Field values of `None` (for example a nested record left at its default) are left out. Every field holds a value of its declared type.
- Subclasses of `str`, `date` and `Enum` beyond the built-in kinds, SQLite type affinity and the storage format of `Enum` columns are left out. A value is stored and compared as it is given.
- Upper-casing and lower-casing beyond ASCII are left out, both in `lower()` and in SQLite's `NOCASE`.
- SqlProperties.AddRowStoresFieldsAndNestedIds: assumes distinct column names, none of them `id`. The source cannot create a table with a field called `id` (`SqlSchema.IdFieldRefused`), and fields `x` and `x_id` would collide in one row.
- SqlSchema.CreateTable: when two fields share a column name (a nested field `x` and a scalar field `x_id`), SQLAlchemy keeps only the later column; the model keeps both.
- SqlStore.InsertRow: a cell for the primary-key column of a reflected table (a field called `id`) sets SQLite's rowid itself; the model still appends the row with the next rowid. Server-side defaults of reflected columns are not modelled, so a non-nullable column with such a default is still refused when the row leaves it empty.
- SqlStore.NextId: rowids are unbounded; SQLite's 64-bit limit and its reuse of rowids after deletes are not modelled, since nothing here deletes.
- MongoStore.Add: the ObjectId that `insert_one` generates is a counter, so ids are only fresh, not random or time-ordered.
- MongoStore.Matches: compares values exactly. MongoDB's numeric equality across types (1 and 1.0) and its matching inside arrays are left out.
- MongoStore.GoodNames: the Mongo lemmas assume field names without dots and distinct at every depth, since MongoDB reads a dot as a path separator.
- SqlProperties.FlatLookupFindsFirstAgreeingRow: proves what the lookup means (the first row agreeing on every key field) for scalar key fields only. For a nested key field, `SqlStore.GetRowId` computes what `_get_rowid` does, but no lemma restates its meaning.
- Field annotations that are not classes, such as `List[int]` or `Optional[int]`, are left out. `issubclass` raises `TypeError` on them in both adapters (model.py:105 and 205). `OtherKind` is a class that none of the branches accepts.
- SqlProperties.DedupWhenFound: proved only for types whose key fields are not nested records. A nested key is compared by the nested record's id, and `SameKeys` compares the whole nested record, handle included.
- SqlProperties.DedupLookupWhenFound: proved only for types whose key fields are not nested records, for the same reason.
- SqlProperties.DedupWhenInserted: proved only for types whose key fields are not nested records. It also needs the second instance not to be nested in the first, and no nested type sharing the first's table.
- SqlProperties.CrossInstanceDedup: proved only for types whose key fields are not nested records, under the same two conditions as `DedupWhenInserted`.
- MongoProperties.QueryFromReaches: stated of the dotted (corrected) key. The key as written reaches the same values only where no key field is nested (`AsWrittenAgreesOnFlatKeys`).
- MongoProperties.ScalarKeyReaches: stated of the dotted (corrected) key, as `QueryFromReaches`.
- MongoProperties.NestedKeyReaches: stated of the dotted (corrected) key, as `QueryFromReaches`.
- MongoProperties.QueryMatchesOwnDocument: stated of the dotted (corrected) key. As written, the query of a nested key misses its own document (`AsWrittenQueryMissesNestedKey`).
- MongoProperties.CrossInstanceDedup: stated of the dotted (corrected) lookup. For the adapter as written it holds only where no key field is nested (`AsWrittenCrossInstanceDedup`), and `AsWrittenAddsDuplicate` shows that it fails otherwise.
- MongoProperties.DedupWhenInserted: stated of the dotted (corrected) lookup, as `CrossInstanceDedup`.
- The `Tree` scenario with a nested taxonomy is not a concrete scenario here. As described, `Tree` has a field `id`, which the source cannot store (`SqlSchema.IdFieldRefused`). A nested record under any other name is covered by `SqlProperties.AddRowStoresFieldsAndNestedIds`.

## Findings

| source | as written | input that shows it | evidently intended | confidence | as-written member | corrected member |
|---|---|---|---|---|---|---|
| pipeline_async/model.py:220 | the key of a nested scalar key field is `'.'.join(parents) + field.name`, with no dot before the field's name | `Outer(sub=Inner(x=1))` with both fields keys: the query is `{"subx": 1}`, but the stored document is `{"sub": {"x": 1}}`, so `find_one` misses the record it just stored, and `add` of a second `Outer(Inner(1))` inserts a duplicate | the dotted path `sub.x` | not executed | MongoProperties.AsWrittenAddsDuplicate | MongoProperties.CrossInstanceDedup |
| pipeline_async/model.py:36-41 | the inline `PassThroughModel` puts `check_exists` on `exists` and leaves it off `add` | `add(data, check_exists=False)`, which the abstract `Model.add` declares, raises `TypeError` | `add(data, check_exists=True)` returning `[]`, as `passthrough.py:18-19` has it | not executed | PassThrough.InlineAddRejectsCheckExists | PassThrough.AddIgnoresArguments |
