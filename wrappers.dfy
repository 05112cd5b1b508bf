/** The optional result the converter returns: `Some(roman)` for a decimal in range,
    `None` for every other integer (Java's `Optional<String>`). */
module Wrappers {
  datatype Option<+T> = None | Some(value: T)
}
