/** Optional values and results of operations that can raise in the source. */
module Results {

  datatype Option<T> = None | Some(value: T)

  /** The only exception the colour core can raise on string input is a
      float division by zero (in `colorsys.rgb_to_hls` and in the
      count-driven scheme loops). */
  datatype Result<T> = Ok(value: T) | DivisionByZero
}
