/** The model's shared result types. */
module Wrappers {

  /** A value that may be absent: `null`/`undefined` in the bot, or a failed search. */
  datatype Option<T> = None | Some(value: T)
}
