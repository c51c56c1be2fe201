/** Constants shared across libslic3r (libslic3r.h). */
module Libslic3r {

  /** EPSILON: the tolerance of coordinate and angle comparisons. */
  const Epsilon: real := 1.0 / 10000.0

  /** PI as the double the source uses. */
  const Pi: real := 3.141592653589793
}
