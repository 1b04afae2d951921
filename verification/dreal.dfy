/** A `dfloat` result seen only as far as the model needs: either a real
    number, or the infinity/NaN that a division by zero or the square root
    of a negative number produces in floating point. Rounding is not
    modelled. */
module DReals {
  datatype DReal = Num(value: real) | NonFinite
}
