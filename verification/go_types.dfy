/** The Go integer types that appear in the session package, as bounded
    subsets of Dafny's unbounded `int`. */
module GoTypes {

  /** Go `byte` (an alias of `uint8`). */
  type Byte = b: int | 0 <= b < 0x100

  /** Go `int64`; the manager's `maxLifeTime` has this type. */
  type Int64 = x: int | -0x8000_0000_0000_0000 <= x < 0x8000_0000_0000_0000
}
