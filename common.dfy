/** Shared vocabulary: fixed-width integers as the C++ code sees them,
    failure-carrying results, and the ASCII case-insensitive comparison that
    stands in for QString::compare(..., Qt::CaseInsensitive). */
module Common {

  const TWO_32: int := 0x1_0000_0000
  const TWO_31: int := 0x8000_0000
  const TWO_63: int := 0x8000_0000_0000_0000

  /** quint32 */
  type u32 = x: int | 0 <= x < 0x1_0000_0000

  /** qint32 */
  predicate IsInt32(x: int) { -TWO_31 <= x < TWO_31 }

  /** A byte of a file. */
  type Byte = b: int | 0 <= b < 256

  /** Conversion of any integer to quint32: reduction modulo 2^32. */
  function ToU32(x: int): (r: u32)
    ensures 0 <= x < TWO_32 ==> r == x
    ensures (r - x) % TWO_32 == 0
  {
    x % TWO_32
  }

  /** Reinterpretation of a quint32 as qint32 (two's complement). */
  function AsInt32(w: u32): (r: int)
    ensures IsInt32(r)
    ensures r >= 0 <==> w < TWO_31
    ensures r >= 0 ==> r == w
  {
    if w < TWO_31 then w else w - TWO_32
  }

  /** Two's complement bits of a qint32. */
  function Int32Bits(x: int): (w: u32)
    requires IsInt32(x)
    ensures AsInt32(w) == x
  {
    if x >= 0 then x else x + TWO_32
  }

  datatype Option<+T> = None | Some(value: T)

  datatype Result<+T, +E> = Success(value: T) | Failure(error: E) {
    predicate IsFailure() { Failure? }
    function PropagateFailure<U>(): Result<U, E>
      requires Failure?
    {
      Failure(error)
    }
    function Extract(): T
      requires Success?
    {
      value
    }
  }

  /** ASCII lower-casing of one character. */
  function LowerChar(c: char): (r: char)
    ensures 'A' <= c <= 'Z' ==> r as int == c as int + 32
    ensures !('A' <= c <= 'Z') ==> r == c
  {
    if 'A' <= c <= 'Z' then (c as int + 32) as char else c
  }

  /** QString::compare(a, b, Qt::CaseInsensitive) == 0, restricted to ASCII case folding. */
  predicate EqualsIgnoreCase(a: string, b: string)
  {
    |a| == |b| && forall i :: 0 <= i < |a| ==> LowerChar(a[i]) == LowerChar(b[i])
  }

  /** QString::startsWith(prefix, Qt::CaseInsensitive), ASCII case folding. */
  predicate StartsWithIgnoreCase(s: string, prefix: string)
  {
    |prefix| <= |s| && EqualsIgnoreCase(s[..|prefix|], prefix)
  }
}
