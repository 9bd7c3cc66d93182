/** Small datatypes shared by the whole project. */
module Common {
  newtype Byte = b: int | 0 <= b < 256

  type Bytes = seq<Byte>

  datatype Option<+T> = None | Some(value: T)

  /** Division rounding up. */
  function DivCeil(n: nat, d: nat): (r: nat)
    requires d > 0
    ensures n <= r * d && (r > 0 ==> (r - 1) * d < n)
  {
    if n % d == 0 then n / d else n / d + 1
  }
}
