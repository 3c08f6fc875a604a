/**
 * Bit-level view of Rust's `u128`: byte order and `count_ones`, as the IPv6
 * netmask uses them. Bit positions run from 0 (least significant) to 127.
 */
module U128 {

  /** A `[u8; 16]`. */
  type Bytes16 = s: seq<bv8> | |s| == 16 witness [0, 0, 0, 0, 0, 0, 0, 0, 0, 0, 0, 0, 0, 0, 0, 0]

  /** `u128::MAX` */
  const MAX: bv128 := 0xFFFF_FFFF_FFFF_FFFF_FFFF_FFFF_FFFF_FFFF

  /** Bit `i` of `x` is set. */
  predicate Bit(x: bv128, i: bv8)
    requires i < 128
  {
    (x >> i) & 1 == 1
  }

  /** `u128::from_be_bytes`: the first byte is the most significant. */
  function FromBeBytes(s: Bytes16): bv128
  {
    (s[0] as bv128 << 120) | (s[1] as bv128 << 112) | (s[2] as bv128 << 104) | (s[3] as bv128 << 96) |
    (s[4] as bv128 << 88) | (s[5] as bv128 << 80) | (s[6] as bv128 << 72) | (s[7] as bv128 << 64) |
    (s[8] as bv128 << 56) | (s[9] as bv128 << 48) | (s[10] as bv128 << 40) | (s[11] as bv128 << 32) |
    (s[12] as bv128 << 24) | (s[13] as bv128 << 16) | (s[14] as bv128 << 8) | s[15] as bv128
  }

  /** `u128::to_be_bytes` */
  function ToBeBytes(x: bv128): (r: Bytes16)
    ensures FromBeBytes(r) == x
  {
    [ ((x >> 120) & 0xFF) as bv8, ((x >> 112) & 0xFF) as bv8, ((x >> 104) & 0xFF) as bv8, ((x >> 96) & 0xFF) as bv8,
      ((x >> 88) & 0xFF) as bv8, ((x >> 80) & 0xFF) as bv8, ((x >> 72) & 0xFF) as bv8, ((x >> 64) & 0xFF) as bv8,
      ((x >> 56) & 0xFF) as bv8, ((x >> 48) & 0xFF) as bv8, ((x >> 40) & 0xFF) as bv8, ((x >> 32) & 0xFF) as bv8,
      ((x >> 24) & 0xFF) as bv8, ((x >> 16) & 0xFF) as bv8, ((x >> 8) & 0xFF) as bv8, (x & 0xFF) as bv8 ]
  }

  lemma ToBeBytesFromBeBytes(s: Bytes16)
    ensures ToBeBytes(FromBeBytes(s)) == s
  {
  }

  /** Number of set bits among bits 0 .. n-1 of `x` (at most n, so a `u8` holds it). */
  function OnesBelow(x: bv128, n: bv8): (r: bv8)
    requires n <= 128
    ensures r <= n
    decreases n as int
  {
    if n == 0 then 0 else OnesBelow(x, n - 1) + (if Bit(x, n - 1) then 1 else 0)
  }

  /** `u128::count_ones` */
  function CountOnes(x: bv128): (r: bv8)
    ensures r <= 128
  {
    OnesBelow(x, 128)
  }

  /**
   * If, below bit n, exactly the bits at positions k and above are set,
   * then n - k of them are set (none when n <= k).
   */
  lemma {:induction false} OnesBelowOfShape(x: bv128, k: bv8, n: bv8)
    requires n <= 128 && k <= 128
    requires forall i: bv8 :: i < n ==> (Bit(x, i) <==> i >= k)
    ensures OnesBelow(x, n) == if n <= k then 0 else n - k
    decreases n as int
  {
    if n > 0 {
      OnesBelowOfShape(x, k, n - 1);
    }
  }
}
