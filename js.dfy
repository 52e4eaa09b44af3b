/** Small JavaScript value shapes shared by the modules of this model. */
module Js {

  /** A value that may be JavaScript's `undefined`. */
  datatype Optional<T> = Undefined | Defined(value: T)

  /** An opaque argument value handed to an event callback. */
  type Value = int

  /** What a callback may return: `undefined`, `null` or some other value. */
  datatype JsValue = UndefinedValue | NullValue | Other(v: Value)
}
