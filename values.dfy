/** Machine integers and the Option wrapper shared by the RIB benchmark and the update watcher. */
module Values {

  /** An 8-bit unsigned integer (Go `byte`, `uint8`). */
  newtype byte = x: int | 0 <= x < 0x100

  /** A 32-bit unsigned integer (Go `uint32`, Rust `Ipv4Addr` as a number). */
  newtype u32 = x: int | 0 <= x < 0x1_0000_0000

  /** A 64-bit unsigned integer (Go `uint64`, Rust `u64`). */
  newtype u64 = x: int | 0 <= x < 0x1_0000_0000_0000_0000

  /** A 64-bit signed integer (Rust `i64`). */
  newtype i64 = x: int | -0x8000_0000_0000_0000 <= x < 0x8000_0000_0000_0000

  const TWO_32: int := 0x1_0000_0000
  const TWO_64: int := 0x1_0000_0000_0000_0000

  /** Rust's `x as u64` on an `i64`: the two's-complement bit pattern, read unsigned. */
  function WrapToU64(x: i64): (r: u64)
    ensures x >= 0 ==> r as int == x as int
    ensures x < 0 ==> r as int == x as int + TWO_64
    ensures (r as int - x as int) % TWO_64 == 0
  {
    if x < 0 then (x as int + TWO_64) as u64 else x as int as u64
  }

  datatype Option<T> = None | Some(value: T)

  /** Go's `v, ok := m[k]` and Rust's `HashMap::get`: the stored value, or absent. */
  function Get<K, V>(m: map<K, V>, k: K): (r: Option<V>)
    ensures r.Some? <==> k in m
    ensures r.Some? ==> r.value == m[k]
  {
    if k in m then Some(m[k]) else None
  }
}
