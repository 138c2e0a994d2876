/** The machine types of the Go program that matter for the model. */
module GoTypes {
  /** A Go `byte` (`uint8`). */
  type byte = b: int | 0 <= b < 0x100

  /** A Go `int` on a 64-bit platform. */
  type int64 = i: int | InInt64Range(i)

  /** True of exactly the integers an `int64` can hold. */
  predicate InInt64Range(i: int) {
    -0x8000_0000_0000_0000 <= i < 0x8000_0000_0000_0000
  }
}
