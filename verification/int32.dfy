/** The C++ `int` of the searched routines: a 32-bit two's-complement integer.
    Arithmetic on `int32` is checked by the verifier never to leave this range,
    which is how the model shows that the index computations cannot overflow. */
module Int32 {

  const MinInt32: int := -0x8000_0000
  const MaxInt32: int := 0x7fff_ffff

  newtype int32 = x: int | -0x8000_0000 <= x < 0x8000_0000
}
