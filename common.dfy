/** Data shapes shared by the Hamming distance and the matcher (src/common.rs). */
module Common {

  /** An IEEE-754 single-precision value, kept as its raw bit pattern.
      The matcher only copies keypoints, so no floating-point arithmetic is modelled. */
  type F32 = bv32

  /** A detected corner: its location and its dominant orientation (radians). */
  datatype KeyPoint = KeyPoint(x: F32, y: F32, orientation: F32)

  /** A binary feature vector, one bit per sampled intensity comparison. */
  datatype Descriptor = Descriptor(bytes: seq<bv8>)

  datatype Option<T> = None | Some(value: T)

  function Min(a: int, b: int): int
  {
    if a <= b then a else b
  }
}
