/** Types that several models share. */
module Basics {

  /** UUIDs are their text. */
  type UUID = string

  type Byte = b: int | 0 <= b < 256

  /** Nanoseconds since the zero `time.Time`. */
  type Time = int

  const ZERO_TIME: Time := 0
  const SECOND: Time := 1_000_000_000

  /** The first of January 1970. */
  const UNIX_EPOCH: Time := 62_135_596_800 * SECOND
}
