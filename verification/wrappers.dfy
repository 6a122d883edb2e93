/** Optional values: the model's stand-in for C# `null` references and `out`/`bool` try-patterns. */
module Wrappers {

  /** `None` plays the part of a null reference or a failed `TryXxx` call. */
  datatype Option<+T> = None | Some(value: T)
}
