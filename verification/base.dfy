/** Shared vocabulary of the model: keys, attribute values, optional values and error kinds. */
module Base {
  /** Primary key of a stored row. */
  type Key = int

  /** Value stored in a group attribute or in a custom key column. */
  type Value = int

  /** Name of a column (attribute) of the table. */
  type Attr = string

  datatype Option<+T> = None | Some(value: T)

  /**
   * The value of attribute `a`; `None` stands for SQL NULL, which is also what
   * an unset attribute of an in-memory record reads as.
   */
  function Get(m: map<Attr, Value>, a: Attr): Option<Value>
  {
    if a in m then Some(m[a]) else None
  }

  /** The errors the core raises. */
  datatype Error =
    | InvalidArgument  // setNewOrder was given something that is neither an array nor ArrayAccess
    | NullFirstModel   // moveToStart found no first record and dereferenced null

  datatype Outcome = Pass | Fail(error: Error)
}
