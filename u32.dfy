/**
 * Bit-level view of Rust's `u32`, and of `std::net::Ipv4Addr`, which the
 * library only ever converts to and from its `u32` bits.
 *
 * Bit positions are numbered from 0 (least significant) to 31, and are
 * written as `bv8` so that every shift stays within bit-vector arithmetic.
 */
module U32 {
  import opened Pow

  /** An IPv4 address, identified with its 32 bits (`to_bits`/`from_bits` are the identity). */
  type Ipv4Addr = bv32

  /** A `[u8; 4]`. */
  type Bytes4 = s: seq<bv8> | |s| == 4 witness [0, 0, 0, 0]

  /** `u32::MAX` */
  const MAX: bv32 := 0xFFFF_FFFF

  /** Bit `i` of `x` is set. */
  predicate Bit(x: bv32, i: bv8)
    requires i < 32
  {
    (x >> i) & 1 == 1
  }

  // ---------------------------------------------------------------------
  // Single bits of the bitwise operators

  lemma BitOfZero(i: bv8)
    requires i < 32
    ensures !Bit(0, i)
  {
  }

  lemma AndBit(x: bv32, y: bv32, i: bv8)
    requires i < 32
    ensures Bit(x & y, i) <==> Bit(x, i) && Bit(y, i)
  {
  }

  lemma OrBit(x: bv32, y: bv32, i: bv8)
    requires i < 32
    ensures Bit(x | y, i) <==> Bit(x, i) || Bit(y, i)
  {
  }

  lemma XorBit(x: bv32, y: bv32, i: bv8)
    requires i < 32
    ensures Bit(x ^ y, i) <==> Bit(x, i) != Bit(y, i)
  {
  }

  lemma NotBit(x: bv32, i: bv8)
    requires i < 32
    ensures Bit(!x, i) <==> !Bit(x, i)
  {
  }

  /** Bit j of `a >> s` is bit j + s of `a`, and zero once j + s passes bit 31. */
  lemma ShrBit(a: bv32, s: bv8, j: bv8)
    requires s <= 32 && j < 32
    ensures j < 32 - s ==> (Bit(a >> s, j) <==> Bit(a, j + s))
    ensures j >= 32 - s ==> !Bit(a >> s, j)
  {
    if j < 32 - s {
      ShrBitLow(a, s, j);
    }
  }

  /** Bit i of `a`, for i at least s, is bit i - s of `a >> s`. */
  lemma ShrBitHigh(a: bv32, s: bv8, i: bv8)
    requires s <= i < 32
    ensures Bit(a >> s, i - s) <==> Bit(a, i)
  {
  }

  lemma ShrBitTop(a: bv32, s: bv8, j: bv8)
    requires s <= 32 && 32 - s <= j < 32
    ensures !Bit(a >> s, j)
  {
  }

  lemma ShrBitLow(a: bv32, s: bv8, j: bv8)
    requires s <= 32 && j < 32 - s
    ensures Bit(a >> s, j) <==> Bit(a, j + s)
  {
  }

  // ---------------------------------------------------------------------
  // Byte order

  /** `u32::from_be_bytes`: the first byte is the most significant. */
  function FromBeBytes(s: Bytes4): bv32
  {
    (s[0] as bv32 << 24) | (s[1] as bv32 << 16) | (s[2] as bv32 << 8) | s[3] as bv32
  }

  /** `u32::to_be_bytes` */
  function ToBeBytes(x: bv32): (r: Bytes4)
    ensures FromBeBytes(r) == x
  {
    [(x >> 24) as bv8, ((x >> 16) & 0xFF) as bv8, ((x >> 8) & 0xFF) as bv8, (x & 0xFF) as bv8]
  }

  lemma ToBeBytesFromBeBytes(s: Bytes4)
    ensures ToBeBytes(FromBeBytes(s)) == s
  {
  }

  // ---------------------------------------------------------------------
  // u32::count_ones

  /** Number of set bits among bits 0 .. n-1 of `x` (at most n, so a `u8` holds it). */
  function OnesBelow(x: bv32, n: bv8): (r: bv8)
    requires n <= 32
    ensures r <= n
    decreases n as int
  {
    if n == 0 then 0 else OnesBelow(x, n - 1) + (if Bit(x, n - 1) then 1 else 0)
  }

  /** `u32::count_ones` */
  function CountOnes(x: bv32): (r: bv8)
    ensures r <= 32
  {
    OnesBelow(x, 32)
  }

  /**
   * If, below bit n, exactly the bits at positions k and above are set,
   * then n - k of them are set (none when n <= k).
   */
  lemma {:induction false} OnesBelowOfShape(x: bv32, k: bv8, n: bv8)
    requires n <= 32 && k <= 32
    requires forall i: bv8 :: i < n ==> (Bit(x, i) <==> i >= k)
    ensures OnesBelow(x, n) == if n <= k then 0 else n - k
    decreases n as int
  {
    if n > 0 {
      OnesBelowOfShape(x, k, n - 1);
    }
  }

  // ---------------------------------------------------------------------
  // u32::leading_zeros

  /** The top `k` bits of `x` are all zero. */
  ghost predicate TopZeros(x: bv32, k: bv8)
    requires k <= 32
  {
    forall i: bv8 :: 32 - k <= i < 32 ==> !Bit(x, i)
  }

  /** Leading zeros of `x`, counting on from bit 31 - k once the top `k` bits are known to be zero. */
  function LeadingZerosFrom(x: bv32, k: bv8): (r: bv8)
    requires k <= 32
    ensures k <= r <= 32
    decreases 32 - k as int
  {
    if k == 32 || Bit(x, 31 - k) then k else LeadingZerosFrom(x, k + 1)
  }

  lemma {:induction false} LeadingZerosFromCounts(x: bv32, k: bv8)
    requires k <= 32 && TopZeros(x, k)
    ensures var r := LeadingZerosFrom(x, k); TopZeros(x, r) && (r < 32 ==> Bit(x, 31 - r))
    decreases 32 - k as int
  {
    if k < 32 && !Bit(x, 31 - k) {
      assert TopZeros(x, k + 1) by {
        forall i: bv8 | 32 - (k + 1) <= i < 32
          ensures !Bit(x, i)
        {
          if i != 31 - k {
            assert 32 - k <= i;
          }
        }
      }
      LeadingZerosFromCounts(x, k + 1);
    }
  }

  /** `u32::leading_zeros`: the top `r` bits are zero and, unless `x == 0`, the next one is set. */
  function LeadingZeros(x: bv32): (r: bv32)
    ensures r <= 32
    ensures TopZeros(x, r as bv8)
    ensures r < 32 ==> Bit(x, 31 - r as bv8)
    ensures r == 32 <==> x == 0
  {
    LeadingZerosFromCounts(x, 0);
    var r := LeadingZerosFrom(x, 0);
    if r == 32 then
      forall i: bv8 | i < 32 ensures Bit(x, i) <==> Bit(0, i) {
        BitOfZero(i);
      }
      BitsEqual(x, 0);
      32
    else
      if x == 0 then BitOfZero(31 - r); r as bv32 else r as bv32
  }

  // ---------------------------------------------------------------------
  // The unsigned value of a u32

  /** The value of bits 0 .. n-1 of `x`, read as an unsigned number. */
  function ValueBelow(x: bv32, n: bv8): (r: nat)
    requires n <= 32
    ensures r < Pow2(n as int)
    decreases n as int
  {
    if n == 0 then 0 else ValueBelow(x, n - 1) + (if Bit(x, n - 1) then Pow2((n - 1) as int) else 0)
  }

  /** `x` read as an unsigned number (what `x as u64` gives in Rust). */
  function Value(x: bv32): (r: nat)
    ensures r < Pow2(32) && r <= 0xFFFF_FFFF
  {
    Pow2Of32();
    ValueBelow(x, 32)
  }

  /** Below bit n, exactly the bits under position k are set: the value is 2^min(n,k) - 1. */
  lemma {:induction false} ValueBelowOfLowOnes(x: bv32, k: bv8, n: bv8)
    requires n <= 32 && k <= 32
    requires forall i: bv8 :: i < n ==> (Bit(x, i) <==> i < k)
    ensures ValueBelow(x, n) == Pow2(if n <= k then n as int else k as int) - 1
    decreases n as int
  {
    if n > 0 {
      ValueBelowOfLowOnes(x, k, n - 1);
    }
  }

  /** The mask of bits 0 .. n-1. */
  function LowBits(n: bv8): bv32
    requires n <= 32
  {
    !(MAX << n)
  }

  lemma LowBitsBit(n: bv8, i: bv8)
    requires n <= 32 && i < 32
    ensures Bit(LowBits(n), i) <==> i < n
  {
  }

  lemma ValueOfLowBits(n: bv8)
    requires n <= 32
    ensures Value(LowBits(n)) == Pow2(n as int) - 1
  {
    forall i: bv8 | i < 32
      ensures Bit(LowBits(n), i) <==> i < n
    {
      LowBitsBit(n, i);
    }
    ValueBelowOfLowOnes(LowBits(n), n, 32);
  }

  lemma DisjointOrBit(a: bv32, b: bv32, i: bv8)
    requires i < 32 && a & b == 0
    ensures Bit(a | b, i) == (Bit(a, i) || Bit(b, i))
    ensures !(Bit(a, i) && Bit(b, i))
  {
  }

  /** On disjoint bits, `|` adds values. */
  lemma {:induction false} ValueBelowOfDisjointOr(a: bv32, b: bv32, n: bv8)
    requires n <= 32 && a & b == 0
    ensures ValueBelow(a | b, n) == ValueBelow(a, n) + ValueBelow(b, n)
    decreases n as int
  {
    if n > 0 {
      ValueBelowOfDisjointOr(a, b, n - 1);
      DisjointOrBit(a, b, n - 1);
    }
  }

  /** The lowest set bit of `y` at or above `k` (32 when there is none). */
  function LowestSetBitFrom(y: bv32, k: bv8): (t: bv8)
    requires k <= 32
    ensures k <= t <= 32
    decreases 32 - k as int
  {
    if k == 32 || Bit(y, k) then k else LowestSetBitFrom(y, k + 1)
  }

  lemma {:induction false} LowestSetBitFromFinds(y: bv32, k: bv8)
    requires y != 0 && k <= 32 && y & LowBits(k) == 0
    ensures var t := LowestSetBitFrom(y, k); t < 32 && Bit(y, t) && y & LowBits(t) == 0
    decreases 32 - k as int
  {
    LowBitsGrow(y, k);
    if !Bit(y, k) {
      LowestSetBitFromFinds(y, k + 1);
    }
  }

  lemma LowBitsGrow(y: bv32, k: bv8)
    requires y != 0 && k <= 32 && y & LowBits(k) == 0
    ensures k < 32
    ensures !Bit(y, k) ==> y & LowBits(k + 1) == 0
  {
  }

  /** Bit t alone. */
  function BitAt(t: bv8): bv32
    requires t < 32
  {
    1 << t
  }

  /** Split at its lowest set bit t, y is h | 2^t ... */
  lemma SplitAtLowestBit(y: bv32, t: bv8)
    requires t < 32 && Bit(y, t) && y & LowBits(t) == 0
    ensures y == (y & !LowBits(t + 1)) | BitAt(t)
    ensures (y & !LowBits(t + 1)) & BitAt(t) == 0
  {
  }

  /** ... and y - 1 is h | (2^t - 1). */
  lemma SplitPredAtLowestBit(y: bv32, t: bv8)
    requires t < 32 && Bit(y, t) && y & LowBits(t) == 0
    ensures y - 1 == (y & !LowBits(t + 1)) | LowBits(t)
    ensures (y & !LowBits(t + 1)) & LowBits(t) == 0
  {
  }

  lemma LowBitsStep(t: bv8)
    requires t < 32
    ensures LowBits(t + 1) == LowBits(t) | BitAt(t)
    ensures LowBits(t) & BitAt(t) == 0
  {
  }

  lemma ValueOfLowBitsStep(t: bv8)
    requires t < 32
    ensures Value(LowBits(t + 1)) == Value(LowBits(t)) + Value(BitAt(t))
  {
    LowBitsStep(t);
    ValueBelowOfDisjointOr(LowBits(t), BitAt(t), 32);
  }

  lemma ValueOfLowBitsSucc(t: bv8)
    requires t < 32
    ensures Value(LowBits(t + 1)) == 2 * Pow2(t as int) - 1
  {
    ValueOfLowBits(t + 1);
    assert (t + 1) as int == t as int + 1;
  }

  lemma ValueOfBitAt(t: bv8)
    requires t < 32
    ensures Value(BitAt(t)) == Pow2(t as int)
  {
    ValueOfLowBitsStep(t);
    ValueOfLowBitsSucc(t);
    ValueOfLowBits(t);
  }

  /** On disjoint bits, `|` adds values: `c` is `a | b`. */
  lemma ValueOfDisjointOr(a: bv32, b: bv32, c: bv32)
    requires a & b == 0 && c == a | b
    ensures Value(c) == Value(a) + Value(b)
  {
    ValueBelowOfDisjointOr(a, b, 32);
  }

  /** The value of `y`, and of `y - 1`, in terms of the bits above its lowest set bit. */
  lemma ValueAtLowestBit(y: bv32, t: bv8)
    requires t < 32 && Bit(y, t) && y & LowBits(t) == 0
    ensures Value(y) == Value(y & !LowBits(t + 1)) + Pow2(t as int)
  {
    SplitAtLowestBit(y, t);
    ValueOfDisjointOr(y & !LowBits(t + 1), BitAt(t), y);
    ValueOfBitAt(t);
  }

  lemma ValuePredAtLowestBit(y: bv32, t: bv8)
    requires t < 32 && Bit(y, t) && y & LowBits(t) == 0
    ensures Value(y - 1) == Value(y & !LowBits(t + 1)) + Pow2(t as int) - 1
  {
    SplitPredAtLowestBit(y, t);
    ValueOfDisjointOr(y & !LowBits(t + 1), LowBits(t), y - 1);
    ValueOfLowBits(t);
  }

  /** Subtracting one from a non-zero u32 subtracts one from its value. */
  lemma ValuePred(y: bv32)
    requires y != 0
    ensures Value(y - 1) == Value(y) - 1
  {
    LowestSetBitFromFinds(y, 0);
    var t := LowestSetBitFrom(y, 0);
    ValueAtLowestBit(y, t);
    ValuePredAtLowestBit(y, t);
  }

  /** Adding one to a u32 other than `u32::MAX` adds one to its value: no wrap-around. */
  lemma ValueSucc(x: bv32)
    requires x != MAX
    ensures Value(x + 1) == Value(x) + 1
  {
    ValuePred(x + 1);
  }

  lemma ValueOfZero()
    ensures Value(0) == 0
  {
    ValueBelowOfLowOnes(0, 0, 32);
  }

  lemma ValueOfMax()
    ensures Value(MAX) == Pow2(32) - 1
  {
    ValueBelowOfLowOnes(MAX, 32, 32);
  }

  /** Equal values below bit n mean equal bits below n. */
  lemma {:induction false} ValueBelowDetermines(x: bv32, y: bv32, n: bv8)
    requires n <= 32 && ValueBelow(x, n) == ValueBelow(y, n)
    ensures forall i: bv8 :: i < n ==> (Bit(x, i) <==> Bit(y, i))
    decreases n as int
  {
    if n > 0 {
      // The top bit is set exactly when the value reaches 2^(n-1).
      assert Bit(x, n - 1) <==> Bit(y, n - 1);
      ValueBelowDetermines(x, y, n - 1);
    }
  }

  /** Two different u32 differ in some bit: the lowest set bit of their xor. */
  lemma DifferingBit(x: bv32, y: bv32) returns (t: bv8)
    requires x != y
    ensures t < 32 && Bit(x, t) != Bit(y, t)
  {
    var d := x ^ y;
    assert d != 0 && d & LowBits(0) == 0;
    LowestSetBitFromFinds(d, 0);
    t := LowestSetBitFrom(d, 0);
    XorBit(x, y, t);
  }

  /** Two u32 with the same bits are equal. */
  lemma BitsEqual(x: bv32, y: bv32)
    requires forall i: bv8 :: i < 32 ==> (Bit(x, i) <==> Bit(y, i))
    ensures x == y
  {
    if x != y {
      var t := DifferingBit(x, y);
      assert false;
    }
  }

  /** Two u32 with the same value are equal: the value determines the bits. */
  lemma ValueInjective(x: bv32, y: bv32)
    requires Value(x) == Value(y)
    ensures x == y
  {
    if x != y {
      var t := DifferingBit(x, y);
      ValueBelowDetermines(x, y, 32);
      assert false;
    }
  }
}
