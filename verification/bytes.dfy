/** Bytes and the fixed 32-byte words that the ledger stores names and accounts in. */
module Bytes {

  /** One byte, as an unsigned value. */
  newtype uint8 = x: int | 0 <= x < 0x100

  /** `n` zero bytes. */
  function Zeros(n: nat): (z: seq<uint8>)
    ensures |z| == n
    ensures forall i :: 0 <= i < n ==> z[i] == 0
  {
    seq(n, _ => 0)
  }

  /** A 32-byte word, the width of both an ink `Hash` and an `AccountId`. */
  type Bytes32 = s: seq<uint8> | |s| == 32 witness Zeros(32)

  /** True when no byte of `b` is zero. */
  predicate ZeroFree(b: seq<uint8>) {
    forall i :: 0 <= i < |b| ==> b[i] != 0
  }
}
