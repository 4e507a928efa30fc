module Outcomes {
  /** How a call ends: with a value, with an error, or in a panic, where a slice is out of range. */
  datatype Outcome<T> = Returned(value: T) | Refused | Panics
}
