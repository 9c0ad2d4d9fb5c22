/** JavaScript numbers, exactly. */
module Numbers {
  /** NaN and the infinities are NotFinite. */
  datatype Number = Finite(r: real) | NotFinite
}
