/** Shared value types: optional values, results carrying an error message,
  * and the three-way ordering returned by Rust's `cmp`. */
module Common {

  datatype Option<T> = None | Some(value: T)

  /** A Rust `Result<T, Error>`; the error keeps only its message. */
  datatype Result<T> = Success(value: T) | Failure(error: string)

  datatype Ordering = Less | Equal | Greater {
    /** The ordering of the swapped comparison. */
    function Reverse(): Ordering {
      match this
      case Less => Greater
      case Equal => Equal
      case Greater => Less
    }
  }

  /** `a.cmp(&b)` on integers. */
  function CompareInt(a: int, b: int): (o: Ordering)
    ensures o == Less <==> a < b
    ensures o == Equal <==> a == b
    ensures o == Greater <==> a > b
  {
    if a < b then Less else if a == b then Equal else Greater
  }

  /** `a.cmp(&b)` on booleans, where `false < true`. */
  function CompareBool(a: bool, b: bool): (o: Ordering)
    ensures o == Equal <==> a == b
    ensures o == Less <==> !a && b
  {
    if a == b then Equal else if b then Less else Greater
  }

  /** `a.then_with(|| b)`: the first ordering unless it is `Equal`. */
  function Then(a: Ordering, b: Ordering): (o: Ordering)
    ensures a != Equal ==> o == a
    ensures a == Equal ==> o == b
  {
    if a == Equal then b else a
  }

  /** Inclusive range of a Rust `u64`. */
  const U64_MAX: int := 0xFFFF_FFFF_FFFF_FFFF
  /** Inclusive range of a Rust `i64`. */
  const I64_MIN: int := -0x8000_0000_0000_0000
  const I64_MAX: int := 0x7FFF_FFFF_FFFF_FFFF
  /** `usize::MAX` on a 64-bit target. */
  const USIZE_MAX: int := 0xFFFF_FFFF_FFFF_FFFF

  newtype u8 = x: int | 0 <= x < 256
}
