/** Definitions shared by the models of the store and of the executor. */
module Common {

  datatype Option<+T> = None | Some(value: T)

  datatype Result<+T> = Ok(value: T) | Err

  type byte = b: int | 0 <= b < 256

  type Bytes = seq<byte>

  /** A content digest: the 32 bytes of a BLAKE3 hash. */
  type Digest = d: Bytes | |d| == 32 witness seq(32, _ => 0)

  const U32_MAX: nat := 0xFFFF_FFFF
  const U64_MAX: nat := 0xFFFF_FFFF_FFFF_FFFF

  function Min(a: nat, b: nat): (r: nat) {
    if a <= b then a else b
  }

  function Max(a: nat, b: nat): (r: nat) {
    if a <= b then b else a
  }

  /** `u64::saturating_sub` */
  function SaturatingSub(a: nat, b: nat): (r: nat) {
    if b <= a then a - b else 0
  }

  /** `u64::saturating_add` */
  function SaturatingAdd(a: nat, b: nat): (r: nat) {
    Min(a + b, U64_MAX)
  }

  /** `u64::saturating_mul` */
  function SaturatingMul(a: nat, b: nat): (r: nat) {
    Min(a * b, U64_MAX)
  }

  /** No two elements of `s` are equal. */
  predicate Distinct<T(==)>(s: seq<T>) {
    forall i, j :: 0 <= i < j < |s| ==> s[i] != s[j]
  }

  /** Two different byte strings with one digest. */
  ghost predicate Collision(hash: Bytes -> Digest, a: Bytes, b: Bytes) {
    a != b && hash(a) == hash(b)
  }
}
