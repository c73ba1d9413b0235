/** Optional values, used where the source has `null`, `undefined` or NaN. */
module Wrappers {
  datatype Option<+T> = None | Some(value: T)
}

/**
 * The data the table shows: records, their field values and the column
 * metadata that names the fields and their types.
 */
module Values {
  import opened Wrappers

  /** The public constants of the table. */
  const UNDEFINED_INDEX := -1
  const ASCENDING_ORDER := 1
  const DESCENDING_ORDER := -1
  const DEFAULT_PAGE_SIZE := 10

  /** A field value. Dates are already-parsed millisecond timestamps. */
  datatype Value = Num(num: int) | Str(str: string) | Date(time: int)

  /** A record of the table: field name to value. A missing key is `undefined`. */
  type Record = map<string, Value>

  /** The `type` of a metadata entry. Any name other than the five known ones is `OtherType`. */
  datatype ColumnType =
    | NumberType | DoubleType | FloatType | DateType | StringType
    | OtherType(name: string)

  /** A metadata entry: the record field a column shows and the type of its values. */
  datatype Column = Column(field: string, typ: ColumnType)

  /** The three type names that are compared and filtered as numbers. */
  predicate IsNumeric(typ: ColumnType) {
    typ.NumberType? || typ.DoubleType? || typ.FloatType?
  }

  /** `record[field]`: `None` stands for `undefined`. */
  function FieldOf(record: Record, field: string): Option<Value> {
    if field in record then Some(record[field]) else None
  }

  /**
   * `new Date(v).getTime()`: a date's timestamp, a number read as a
   * timestamp, and NaN (`None`) for a string, whose parsing is not modelled.
   */
  function Timestamp(v: Value): Option<int> {
    match v
    case Num(n) => Some(n)
    case Date(t) => Some(t)
    case Str(_) => None
  }
}
