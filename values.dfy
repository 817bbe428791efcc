/** Value types shared by the model of geq2imp. */
module Values {

  /** A 32-bit float, held by its bit pattern. Frequencies, gains and filter
      samples are only ever copied by the modelled code, never computed on,
      so the bit pattern is all that matters. The value-initialised float
      (0.0f) is the all-zero pattern. */
  type Float32 = bv32

  /** An optional value: the result of a parse that may fail. */
  datatype Option<+T> = None | Some(value: T)

  /** A value or the reason it could not be produced. */
  datatype Result<+T, +E> = Success(value: T) | Failure(error: E)
}
