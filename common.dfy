/** Values shared by the bot's modules. */
module Common {

  /** A value that may be absent (JavaScript's `undefined`). */
  datatype Option<+T> = None | Some(value: T)

  /** A duration in milliseconds that is strictly positive. */
  type Window = w: int | w > 0 witness 1
}
