/** Fixed-width machine words of the kernel and the optional result it returns.
    Values are mathematical integers restricted to the word's range; wherever the
    C++ code wraps, the model applies `Wrap` explicitly. */
module Words {

  const TWO_63: int := 0x8000_0000_0000_0000
  const TWO_64: int := 0x1_0000_0000_0000_0000

  /** `std::uint64_t` */
  type u64 = x: int | 0 <= x < TWO_64

  /** `std::int64_t` */
  type i64 = x: int | -TWO_63 <= x < TWO_63

  /** Unsigned arithmetic modulo 2^64, as C++ performs it on `u64`. */
  function Wrap(x: int): (r: u64)
    ensures 0 <= x < TWO_64 ==> r == x
    ensures (x - r) % TWO_64 == 0
  {
    x % TWO_64
  }

  /** `static_cast<i64>` applied to a `u64`: two's complement reinterpretation. */
  function AsI64(x: u64): (r: i64)
    ensures x < TWO_63 ==> r == x
    ensures (r - x) % TWO_64 == 0
  {
    if x < TWO_63 then x else x - TWO_64
  }

  /** `std::optional<T>` */
  datatype Option<T> = None | Some(value: T)
}
