/** Floating-point arguments. */
module Floats {

  /** A 32-bit float: a finite value with its sign, so that the two zeroes are told
      apart, or NaN or an infinity. */
  datatype Float = Finite(value: real, positive: bool) | NonFinite
}
