/**
 * `Ipv4Netmask` (src/netmask/v4.rs): an IPv4 subnet mask stored only as its
 * prefix length. Every other form (the 32-bit pattern, the four octets, the
 * wildcard) is derived from it, and the constructors from a raw pattern
 * accept exactly the contiguous masks.
 */
module NetmaskV4 {
  import opened Wrappers
  import opened Pow
  import opened U32

  /** A prefix length the constructors admit: 0 ..= 32 (the Rust field is a `u8`). */
  type Cidr = c: bv8 | c <= 32

  datatype Ipv4Netmask = Ipv4Netmask(cidr: Cidr)

  const CIDR_ERROR: string := "CIDR must be between 0 and 32!"
  const BITS_ERROR: string := "Invalid bytes"

  /** `b` is `c` one-bits followed by `32 - c` zero-bits. */
  ghost predicate PrefixShape(b: bv32, c: Cidr)
  {
    forall i: bv8 :: i < 32 ==> (Bit(b, i) <==> i >= 32 - c)
  }

  const TOP: bv32 := 0x8000_0000

  /** The /c pattern: c one-bits counted down from bit 31, one more bit for each unit of length. */
  function PrefixBits(c: Cidr): bv32
    decreases c as int
  {
    if c == 0 then 0 else TOP | (PrefixBits(c - 1) >> 1)
  }

  lemma PrefixBitsStep(y: bv32, i: bv8)
    requires i < 32
    ensures Bit(TOP | (y >> 1), i) <==> i == 31 || (i < 31 && Bit(y, i + 1))
  {
  }

  lemma {:induction false} PrefixBit(c: Cidr, i: bv8)
    requires i < 32
    ensures Bit(PrefixBits(c), i) <==> i >= 32 - c
    decreases c as int
  {
    if c == 0 {
      BitOfZero(i);
    } else {
      PrefixBitsStep(PrefixBits(c - 1), i);
      if i < 31 {
        PrefixBit(c - 1, i + 1);
      }
    }
  }

  lemma PrefixBitsShape(c: Cidr)
    ensures PrefixShape(PrefixBits(c), c)
  {
    forall i: bv8 | i < 32
      ensures Bit(PrefixBits(c), i) <==> i >= 32 - c
    {
      PrefixBit(c, i);
    }
  }

  /** The mask as `octets` computes it: `u32::MAX << (32 - c)`, and 0 for c == 0 (no shift by 32). */
  function Mask(c: Cidr): bv32
  {
    if c == 0 then 0 else MAX << (32 - c)
  }

  lemma MaskBit(c: Cidr, i: bv8)
    requires i < 32
    ensures Bit(Mask(c), i) <==> i >= 32 - c
  {
  }

  /** The shift expression is the /c pattern. */
  lemma MaskIsPrefixBits(c: Cidr)
    ensures Mask(c) == PrefixBits(c)
  {
    forall i: bv8 | i < 32
      ensures Bit(Mask(c), i) <==> Bit(PrefixBits(c), i)
    {
      MaskBit(c, i);
      PrefixBit(c, i);
    }
    BitsEqual(Mask(c), PrefixBits(c));
  }

  /** `octets()`: the big-endian bytes of the /c pattern, with no shift by 32 at /0. */
  function Octets(m: Ipv4Netmask): (r: Bytes4)
    ensures FromBeBytes(r) == PrefixBits(m.cidr)
  {
    MaskIsPrefixBits(m.cidr);
    if m.cidr == 0 then [0, 0, 0, 0] else ToBeBytes(MAX << (32 - m.cidr))
  }

  /** `to_bits()`: the integer the octets spell. */
  function ToBits(m: Ipv4Netmask): bv32
  {
    PrefixBits(m.cidr)
  }

  /** `to_bits()` is `u32::from_be_bytes(octets())`, and `octets()` is its big-endian form. */
  lemma ToBitsOctets(m: Ipv4Netmask)
    ensures ToBits(m) == FromBeBytes(Octets(m))
    ensures ToBeBytes(ToBits(m)) == Octets(m)
  {
    ToBeBytesFromBeBytes(Octets(m));
  }

  /** `to_bits()` is `cidr` leading ones followed by `32 - cidr` zeros, and 0 at /0. */
  lemma ToBitsShape(m: Ipv4Netmask)
    ensures PrefixShape(ToBits(m), m.cidr)
    ensures m.cidr == 0 ==> ToBits(m) == 0
  {
    PrefixBitsShape(m.cidr);
  }

  /** `wildcard()`: the host bits, disjoint from the mask and together with it covering all 32 bits. */
  function Wildcard(m: Ipv4Netmask): (r: bv32)
    ensures r & ToBits(m) == 0 && r | ToBits(m) == MAX
  {
    !ToBits(m)
  }

  /** The wildcard has exactly the low `32 - cidr` bits set. */
  lemma WildcardShape(m: Ipv4Netmask)
    ensures forall i: bv8 :: i < 32 ==> (Bit(Wildcard(m), i) <==> i < 32 - m.cidr)
  {
    forall i: bv8 | i < 32
      ensures Bit(Wildcard(m), i) <==> i < 32 - m.cidr
    {
      WildcardBit(m, i);
    }
  }

  lemma WildcardBit(m: Ipv4Netmask, i: bv8)
    requires i < 32
    ensures Bit(Wildcard(m), i) <==> i < 32 - m.cidr
  {
    var t := ToBits(m);
    assert Wildcard(m) == !t;
    NotBit(t, i);
    PrefixBit(m.cidr, i);
    assert Bit(t, i) <==> i >= 32 - m.cidr;
  }

  /** `from_cidr`: accepts exactly the lengths 0 ..= 32 and stores the length given. */
  function FromCidr(cidr: bv8): (r: Result<Ipv4Netmask>)
    ensures r.Ok? <==> cidr <= 32
    ensures r.Ok? ==> r.value.cidr == cidr
    ensures r.Err? ==> r.error == CIDR_ERROR
  {
    if cidr > 32 then Err(CIDR_ERROR) else Ok(Ipv4Netmask(cidr))
  }

  /** The 32-bit patterns that are the mask of some prefix length. */
  ghost predicate IsContiguous(b: bv32)
  {
    exists c: Cidr :: PrefixBits(c) == b
  }

  /** The inner `validate` of `from_bits`. */
  predicate Validate(b: bv32)
  {
    if b == 0 || b == MAX then true
    else
      var inverse := !b;
      // 0 and `u32::MAX` are handled above, so `inverse + 1` cannot overflow here.
      assert inverse != MAX;
      inverse & (inverse + 1) == 0
  }

  lemma PrefixBitsValidate(c: Cidr)
    ensures Validate(PrefixBits(c))
  {
    MaskIsPrefixBits(c);
    assert Validate(Mask(c));
  }

  /** One step down: a valid pattern that only uses the top `c` bits and is not the /c mask uses only the top `c - 1`. */
  lemma ValidateNarrows(b: bv32, c: Cidr)
    requires Validate(b) && b & !Mask(c) == 0 && b != Mask(c)
    ensures c > 0 && b & !Mask(c - 1) == 0
  {
  }

  lemma {:induction false} ValidateFindsPrefix(b: bv32, c: Cidr)
    requires Validate(b) && b & !Mask(c) == 0
    ensures IsContiguous(b)
    decreases c as int
  {
    MaskIsPrefixBits(c);
    if b != Mask(c) {
      ValidateNarrows(b, c);
      ValidateFindsPrefix(b, c - 1);
    }
  }

  /** `validate` accepts exactly the 33 contiguous masks. */
  lemma ValidateIffContiguous(b: bv32)
    ensures Validate(b) <==> IsContiguous(b)
  {
    if Validate(b) {
      assert b & !Mask(32) == 0;
      ValidateFindsPrefix(b, 32);
    }
    if IsContiguous(b) {
      var c: Cidr :| PrefixBits(c) == b;
      PrefixBitsValidate(c);
    }
  }

  /** The /c mask has exactly c ones. */
  lemma CountOnesOfPrefixBits(c: Cidr)
    ensures CountOnes(PrefixBits(c)) == c
  {
    PrefixBitsShape(c);
    OnesBelowOfShape(PrefixBits(c), 32 - c, 32);
  }

  /** A contiguous pattern is the mask of its own popcount. */
  lemma ContiguousCidr(b: bv32)
    requires IsContiguous(b)
    ensures PrefixBits(CountOnes(b)) == b
  {
    var c: Cidr :| PrefixBits(c) == b;
    CountOnesOfPrefixBits(c);
  }

  /**
   * `from_bits`: accepts exactly the contiguous patterns, and then stores their
   * popcount, so that `to_bits()` gives the pattern back.
   */
  function FromBits(bits: bv32): (r: Result<Ipv4Netmask>)
    ensures r.Ok? <==> IsContiguous(bits)
    ensures r.Ok? ==> ToBits(r.value) == bits && r.value.cidr == CountOnes(bits)
    ensures r.Err? ==> r.error == BITS_ERROR
  {
    ValidateIffContiguous(bits);
    if Validate(bits) then
      ContiguousCidr(bits);
      Ok(Ipv4Netmask(CountOnes(bits)))
    else
      Err(BITS_ERROR)
  }

  /** `from_octets`: the big-endian integer through `from_bits`; on success `octets()` gives the bytes back. */
  function FromOctets(bytes: Bytes4): (r: Result<Ipv4Netmask>)
    ensures r.Ok? <==> IsContiguous(FromBeBytes(bytes))
    ensures r.Ok? ==> Octets(r.value) == bytes
    ensures r.Err? ==> r.error == BITS_ERROR
  {
    var r := FromBits(FromBeBytes(bytes));
    ToBeBytesFromBeBytes(bytes);
    r
  }

  /** `new(a, b, c, d)`: the mask whose octets are a.b.c.d, when there is one. */
  function New(a: bv8, b: bv8, c: bv8, d: bv8): (r: Result<Ipv4Netmask>)
    ensures r.Ok? <==> IsContiguous(FromBeBytes([a, b, c, d]))
    ensures r.Ok? ==> Octets(r.value) == [a, b, c, d]
    ensures r.Err? ==> r.error == BITS_ERROR
  {
    FromOctets([a, b, c, d])
  }

  /** The wildcard of a /c mask is worth 2^(32-c) - 1 as a number. */
  lemma ValueOfWildcard(m: Ipv4Netmask)
    ensures Value(Wildcard(m)) == Pow2(32 - m.cidr as int) - 1
  {
    CidrComplement(m.cidr);
    WildcardShape(m);
    ValueBelowOfLowOnes(Wildcard(m), 32 - m.cidr, 32);
  }

  /**
   * `host_num()`: 2^(32 - cidr) addresses minus the network and broadcast
   * addresses, as a `u64`, and 0 for /31 and /32.
   */
  function HostNum(m: Ipv4Netmask): (r: nat)
    ensures r < Pow2(32)
    ensures m.cidr >= 31 ==> r == 0
  {
    if m.cidr >= 31 then 0
    else
      var k := 32 - m.cidr as int;
      Pow2Monotone(k, 32);
      Pow2(k) - 2
  }

  /** Below /31, `host_num()` counts every wildcard value but the two ends: one less than the wildcard's value. */
  lemma HostNumOfWildcard(m: Ipv4Netmask)
    requires m.cidr <= 30
    ensures HostNum(m) + 1 == Value(Wildcard(m))
  {
    ValueOfWildcard(m);
  }

  /** Restates the `u8` subtraction as an integer one, for the solver; not a property. */
  lemma CidrComplement(c: Cidr)
    ensures (32 - c) as int == 32 - c as int
  {
  }

  // ---------------------------------------------------------------------
  // Properties across operations

  /** Round trip through the bit pattern. */
  lemma FromBitsToBits(m: Ipv4Netmask)
    ensures FromBits(ToBits(m)) == Ok(m)
  {
    CountOnesOfPrefixBits(m.cidr);
  }

  /** Round trip from a prefix length through the bit pattern. */
  lemma FromCidrRoundTrip(c: bv8)
    requires c <= 32
    ensures FromCidr(c).Ok? && FromBits(ToBits(FromCidr(c).value)) == Ok(Ipv4Netmask(c))
  {
    FromBitsToBits(Ipv4Netmask(c));
  }

  /** Round trip through the octets. */
  lemma FromOctetsOctets(m: Ipv4Netmask)
    ensures FromOctets(Octets(m)) == Ok(m)
  {
    FromBitsToBits(m);
  }

  /** Distinct prefix lengths give distinct patterns, so exactly 33 patterns are accepted. */
  lemma ToBitsInjective(m: Ipv4Netmask, n: Ipv4Netmask)
    requires ToBits(m) == ToBits(n)
    ensures m == n
  {
    CountOnesOfPrefixBits(m.cidr);
    CountOnesOfPrefixBits(n.cidr);
  }

  /** A pattern with a hole is rejected, such as 255.0.255.0. */
  lemma FromBitsRejectsHole()
    ensures FromBits(0xFF00_FF00) == Err(BITS_ERROR)
  {
    ValidateIffContiguous(0xFF00_FF00);
  }

  lemma HostNumExamples()
    ensures HostNum(Ipv4Netmask(24)) == 254
    ensures HostNum(Ipv4Netmask(31)) == 0 && HostNum(Ipv4Netmask(32)) == 0
  {
    assert Pow2(8) == 256;
  }
}
