/** A value or its absence. */
module Wrappers {
  datatype Option<+T> = None | Some(value: T)
}

/** The return codes of the library. */
module ReturnCodes {
  const SR_OK := 0
  const SR_ERR := -1
  const SR_ERR_ARG := -3
  const SR_ERR_BUG := -4
  const SR_ERR_DEV_CLOSED := -7
}
