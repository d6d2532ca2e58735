/** The control characters that the terminal code names. */
module Ascii {
  const NUL: char := '\0'
  const BELL: char := '\U{0007}'
  const BACKSPACE: char := '\U{0008}'
}
