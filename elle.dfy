/** Small value types shared by the models: bytes, an optional value, the
    64-bit unsigned limit of `elle::Natural64` / `uint64_t`, and the
    calendar fields of `elle::Time`. */
module Elle {

  /** One octet of a serialised stream. */
  newtype Byte = x: int | 0 <= x < 256

  /** `2^64`: every `uint64_t` / `elle::Natural64` is below it. */
  const Natural64Limit: nat := 0x1_0000_0000_0000_0000

  /** Reduction of an exact value to its `elle::Natural64` representation. */
  function Natural64(n: nat): (r: nat)
    ensures r < Natural64Limit
    ensures n < Natural64Limit ==> r == n
  {
    n % Natural64Limit
  }

  datatype Option<+T> = None | Some(value: T) {
    predicate IsFailure() { None? }

    function PropagateFailure<U>(): Option<U>
      requires None?
    {
      None
    }

    function Extract(): T
      requires Some?
    {
      value
    }
  }

  /** The calendar fields of an `elle::Time`, as read by the expiration
      computation of a depot record. */
  datatype Time = Time(second: nat, minute: nat, hour: nat, day: nat, month: nat, year: nat)
}
