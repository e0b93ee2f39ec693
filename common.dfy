/** Shared vocabulary of the storage engine model: optional values, results
    with the engine's error kinds, and the fixed-width integer ranges the
    engine uses. Throughout the model a `char` stands for one byte of a
    `std::string` or a page buffer; no character encoding is modelled. */
module Common {

  datatype Option<+T> = None | Some(value: T)

  /** The failure conditions of the engine. Exceptions of the source become
      `Err` values: `Overflow` (std::overflow_error), `OutOfRange`
      (std::out_of_range), `InvalidArgument` (std::invalid_argument),
      `BadVariantAccess` (a typed getter on a value of another type),
      `IoAbort` (a short page read, on which the process exits),
      `Malformed` (a number the wire-format reader cannot extract: no
      digits, or out of range) and
      `Unsupported` (a FLOAT field, which the model does not carry). */
  datatype Error =
    | Overflow
    | OutOfRange
    | InvalidArgument
    | BadVariantAccess
    | IoAbort
    | Malformed
    | Unsupported

  datatype Result<+T> = Ok(value: T) | Err(error: Error) {
    predicate IsFailure() { Err? }
    function PropagateFailure<U>(): Result<U> requires Err? { Err(error) }
    function Extract(): T requires Ok? { value }
  }

  const UINT16_LIMIT: int := 0x1_0000
  const UINT32_LIMIT: int := 0x1_0000_0000
  const INT32_MIN: int := -0x8000_0000
  const INT32_MAX: int := 0x7FFF_FFFF

  type Uint16 = x: int | 0 <= x < UINT16_LIMIT

  /** INVALID_VALUE, std::numeric_limits<uint16_t>::max(): the sentinel of a
      slot field and of "no page". */
  const INVALID: Uint16 := 0xFFFF
  type Uint32 = x: int | 0 <= x < UINT32_LIMIT
  type Int32 = x: int | INT32_MIN <= x <= INT32_MAX

  /** The C++ conversion of a 32-bit unsigned value to `int` (two's complement). */
  function ToInt32(x: Uint32): (r: Int32)
    ensures (r - x) % UINT32_LIMIT == 0
    ensures x <= INT32_MAX ==> r == x
  {
    if x <= INT32_MAX then x else x - UINT32_LIMIT
  }

  /** No element occurs twice. */
  predicate Distinct<T(==)>(s: seq<T>) {
    forall i, j :: 0 <= i < j < |s| ==> s[i] != s[j]
  }

  lemma DistinctAppend<T>(a: seq<T>, b: seq<T>)
    requires Distinct(a) && Distinct(b)
    requires forall i, j :: 0 <= i < |a| && 0 <= j < |b| ==> a[i] != b[j]
    ensures Distinct(a + b)
  {
    var c := a + b;
    forall i, j | 0 <= i < j < |c| ensures c[i] != c[j] {
      if j >= |a| {
        assert c[j] == b[j - |a|];
        if i >= |a| {
          assert c[i] == b[i - |a|];
        }
      }
    }
  }
}
