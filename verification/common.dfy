/** Small vocabulary shared by every module of the model. */
module Common {

  /** An optional value: a SQL NULL, a Python `None`, or a value. */
  datatype Option<+T> = None | Some(value: T)

  /** A field of a partial-update body. `Unset` is a field the client left
      out (dropped by `model_dump(exclude_unset=True)`); `Set(v)` is a field
      the client sent, where `v` may itself be a null for an optional type. */
  datatype Patch<+T> = Unset | Set(value: T)

  /** The outcome of validating a request body against its schema: the parsed
      value, or the first field that failed (FastAPI answers 422). */
  datatype Checked<+T> = Pass(value: T) | Fail(field: string)

  /** Identifiers are UUIDs, taken here in their canonical text form, which is
      also what `str(uuid)` produces for a token subject. */
  type Uuid = string

  /** A point in time, as whole seconds since the epoch. */
  type Instant = int

  /** The value a patch leaves in a field that currently holds `current`. */
  function Patched<T>(p: Patch<T>, current: T): T
  {
    match p
    case Unset => current
    case Set(v) => v
  }

  function Min(a: int, b: int): int
  {
    if a <= b then a else b
  }
}
