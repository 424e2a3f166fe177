/** Types shared by the editor's components. */
module Basics {

  /** An unsigned byte, the source's U8: buffer contents and glyph code points. */
  newtype U8 = x: int | 0 <= x < 256

  /** The line separator the navigation routines look for. */
  const Newline: U8 := 10

  datatype Option<T> = None | Some(value: T)

  /**
   * The result of an operation that may stop the process: the source
   * guards these with `assert`, whose failure is fatal.
   */
  datatype Outcome<T> = Ok(value: T) | Fatal
}
