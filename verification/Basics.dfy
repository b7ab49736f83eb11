/**
 What several of the modelled files share: bytes, times, optional values and maps of counters.
 */
module Basics {

  type Byte = b: int | 0 <= b < 256
  type Bytes = seq<Byte>

  /** Nanoseconds in a second. */
  const NANOS := 1_000_000_000

  datatype Option<+T> = None | Some(value: T)

  /** A missing counter reads as zero. */
  function Get<K>(m: map<K, int>, k: K): int {
    if k in m then m[k] else 0
  }

  function Inc<K>(m: map<K, int>, k: K): map<K, int> {
    m[k := Get(m, k) + 1]
  }

  /** One less, and no entry once the count is back to zero. */
  function Dec<K>(m: map<K, int>, k: K): map<K, int> {
    if Get(m, k) - 1 == 0 then m - {k} else m[k := Get(m, k) - 1]
  }

  ghost predicate NoZeros<K>(m: map<K, int>) {
    forall k :: k in m ==> m[k] != 0
  }
}
