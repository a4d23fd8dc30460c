/** Absent values: TypeScript's `null` and `undefined` results and optional fields. */
module Nullable {

  /** `None` stands for `null`/`undefined`, `Some(v)` for a present value. */
  datatype Option<+T> = None | Some(value: T)
}
