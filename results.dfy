/** Optional values, the errors the persistence layer raises, and results that carry them. */
module Results {

  datatype Option<+T> = None | Some(value: T)

  /** The exceptions the adapters let reach their caller. */
  datatype Error =
    /** `ValueError("Cannot convert <field> to SQL column")`: no storage type for the field. */
    | UnsupportedType(field: string)
    /** `ValueError('No table named: <name>')` from `get_table`. */
    | NoSuchTable(table: string)
    /** SQLAlchemy refuses a second `Table` of the same name in one `MetaData`. */
    | TableAlreadyDefined(table: string)
    /** `KeyError` from `table.c[<column>]` on a table that lacks the column. */
    | NoSuchColumn(column: string)
    /** An insert whose row names columns the table does not have. */
    | UnconsumedColumns(columns: set<string>)
    /**
     * SQLAlchemy's `ArgumentError` when a field's column is called `id`: `Table` refuses to
     * redefine the primary-key column as an ordinary one.
     */
    | PrimaryKeyRedefined(table: string)
    /** SQLite's `NOT NULL constraint failed`: the row leaves these non-nullable columns empty. */
    | NotNullFailed(columns: set<string>)

  datatype Result<+T> = Ok(value: T) | Err(error: Error)
}
