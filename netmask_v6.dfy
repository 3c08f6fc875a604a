/**
 * `Ipv6Netmask` (src/netmask/v6.rs): an IPv6 subnet mask stored only as its
 * prefix length, with the 16 octets derived from it and the constructors from
 * a raw 128-bit pattern accepting exactly the contiguous masks.
 */
module NetmaskV6 {
  import opened Wrappers
  import opened Pow
  import opened U128

  /** A prefix length the constructors admit: 0 ..= 128 (the Rust field is a `u8`). */
  type Cidr6 = c: bv8 | c <= 128

  datatype Ipv6Netmask = Ipv6Netmask(cidr: Cidr6)

  const CIDR_ERROR: string := "CIDR must be between 0 and 128!"
  const BITS_ERROR: string := "Invalid bytes"

  /** `b` is `c` one-bits followed by `128 - c` zero-bits. */
  ghost predicate PrefixShape(b: bv128, c: Cidr6)
  {
    forall i: bv8 :: i < 128 ==> (Bit(b, i) <==> i >= 128 - c)
  }

  /** The pattern `octets` serialises: `u128::MAX << (128 - c)`, and 0 for c == 0 (no shift by 128). */
  function Mask(c: Cidr6): bv128
  {
    if c == 0 then 0 else MAX << (128 - c)
  }

  lemma MaskShape(c: Cidr6)
    ensures PrefixShape(Mask(c), c)
  {
    forall i: bv8 | i < 128
      ensures Bit(Mask(c), i) <==> i >= 128 - c
    {
    }
  }

  /** `octets()`: all zeros at /0, otherwise the big-endian bytes of the /c pattern. */
  function Octets(m: Ipv6Netmask): (r: Bytes16)
    ensures FromBeBytes(r) == Mask(m.cidr)
  {
    if m.cidr == 0 then [0, 0, 0, 0, 0, 0, 0, 0, 0, 0, 0, 0, 0, 0, 0, 0]
    else ToBeBytes(MAX << (128 - m.cidr))
  }

  /** The octets spell `cidr` leading ones followed by `128 - cidr` zeros, and are all zero at /0. */
  lemma OctetsShape(m: Ipv6Netmask)
    ensures PrefixShape(FromBeBytes(Octets(m)), m.cidr)
    ensures m.cidr == 0 ==> forall j :: 0 <= j < 16 ==> Octets(m)[j] == 0
  {
    MaskShape(m.cidr);
  }

  /** `from_cidr`: accepts exactly the lengths 0 ..= 128 and stores the length given. */
  function FromCidr(cidr: bv8): (r: Result<Ipv6Netmask>)
    ensures r.Ok? <==> cidr <= 128
    ensures r.Ok? ==> r.value.cidr == cidr
    ensures r.Err? ==> r.error == CIDR_ERROR
  {
    if cidr > 128 then Err(CIDR_ERROR) else Ok(Ipv6Netmask(cidr))
  }

  /** The 128-bit patterns that are the mask of some prefix length. */
  ghost predicate IsContiguous(b: bv128)
  {
    exists c: Cidr6 :: Mask(c) == b
  }

  /** The inner `validate` of `from_bits`. */
  predicate Validate(b: bv128)
  {
    if b == 0 || b == MAX then true
    else
      var inverse := !b;
      // 0 and `u128::MAX` are handled above, so `inverse + 1` cannot overflow here.
      assert inverse != MAX;
      inverse & (inverse + 1) == 0
  }

  lemma MaskValidate(c: Cidr6)
    ensures Validate(Mask(c))
  {
  }

  /** One step down: a valid pattern that only uses the top `c` bits and is not the /c mask uses only the top `c - 1`. */
  lemma ValidateNarrows(b: bv128, c: Cidr6)
    requires Validate(b) && b & !Mask(c) == 0 && b != Mask(c)
    ensures c > 0 && b & !Mask(c - 1) == 0
  {
  }

  lemma {:induction false} ValidateFindsPrefix(b: bv128, c: Cidr6)
    requires Validate(b) && b & !Mask(c) == 0
    ensures IsContiguous(b)
    decreases c as int
  {
    if b != Mask(c) {
      ValidateNarrows(b, c);
      ValidateFindsPrefix(b, c - 1);
    }
  }

  /** `validate` accepts exactly the 129 contiguous masks. */
  lemma ValidateIffContiguous(b: bv128)
    ensures Validate(b) <==> IsContiguous(b)
  {
    if Validate(b) {
      ValidateFindsPrefix(b, 128);
    }
    if IsContiguous(b) {
      var c: Cidr6 :| Mask(c) == b;
      MaskValidate(c);
    }
  }

  /** The /c mask has exactly c ones. */
  lemma CountOnesOfMask(c: Cidr6)
    ensures CountOnes(Mask(c)) == c
  {
    MaskShape(c);
    OnesBelowOfShape(Mask(c), 128 - c, 128);
  }

  /** A contiguous pattern is the mask of its own popcount. */
  lemma ContiguousCidr(b: bv128)
    requires IsContiguous(b)
    ensures Mask(CountOnes(b)) == b
  {
    var c: Cidr6 :| Mask(c) == b;
    CountOnesOfMask(c);
  }

  /**
   * `from_bits`: accepts exactly the contiguous patterns, and then stores their
   * popcount, which is at most 128 and so fits the `u8` field.
   */
  function FromBits(bits: bv128): (r: Result<Ipv6Netmask>)
    ensures r.Ok? <==> IsContiguous(bits)
    ensures r.Ok? ==> Mask(r.value.cidr) == bits && r.value.cidr == CountOnes(bits)
    ensures r.Err? ==> r.error == BITS_ERROR
  {
    ValidateIffContiguous(bits);
    if Validate(bits) then
      ContiguousCidr(bits);
      Ok(Ipv6Netmask(CountOnes(bits)))
    else
      Err(BITS_ERROR)
  }

  /** `from_octets`: the big-endian integer through `from_bits`; on success `octets()` gives the bytes back. */
  function FromOctets(bytes: Bytes16): (r: Result<Ipv6Netmask>)
    ensures r.Ok? <==> IsContiguous(FromBeBytes(bytes))
    ensures r.Ok? ==> Octets(r.value) == bytes
    ensures r.Err? ==> r.error == BITS_ERROR
  {
    var r := FromBits(FromBeBytes(bytes));
    ToBeBytesFromBeBytes(bytes);
    r
  }

  /** The host bits of the mask: those of its 128 bits that are zero. */
  function HostBits(m: Ipv6Netmask): nat
  {
    128 - CountOnes(FromBeBytes(Octets(m))) as int
  }

  lemma HostBitsOfCidr(m: Ipv6Netmask)
    ensures HostBits(m) == 128 - m.cidr as int
  {
    CountOnesOfMask(m.cidr);
  }

  /**
   * `host_num()` as written: 0 for /127 and /128, otherwise
   * `2u128.pow(128 - cidr) - 2`. `None` stands for the overflow of
   * `2u128.pow(128)` at /0, which panics in a debug build.
   */
  function HostNumAsWritten(m: Ipv6Netmask): (r: Option<nat>)
    ensures r.None? <==> m.cidr == 0
    ensures r.Some? ==> r.value < Pow2(128)
  {
    if m.cidr >= 127 then Some(0)
    else
      var k := 128 - m.cidr as int;
      assert k < 128 ==> Pow2(k) < Pow2(128) by {
        if k < 128 { Pow2Strict(k, 128); }
      }
      if Pow2(k) >= Pow2(128) then None
      else
        assert Pow2(2) == 4;
        Pow2Monotone(2, k);
        Some(Pow2(k) - 2)
  }

  /**
   * `host_num()` with the power taken in a wider integer, as the IPv4 mask
   * does with `u64`: 2^(host bits) addresses minus the network and broadcast
   * addresses, 0 for /127 and /128, and always within a `u128`, /0 included.
   */
  function HostNum(m: Ipv6Netmask): (r: nat)
    ensures r < Pow2(128)
    ensures m.cidr <= 126 ==> r + 2 == Pow2(HostBits(m))
    ensures m.cidr >= 127 ==> r == 0
  {
    if m.cidr >= 127 then 0
    else
      var k := 128 - m.cidr as int;
      HostBitsOfCidr(m);
      assert Pow2(2) == 4;
      Pow2Monotone(2, k);
      Pow2Monotone(k, 128);
      Pow2(k) - 2
  }

  /** The source's `host_num()` gives the intended count for every mask but /0. */
  lemma HostNumAsWrittenAgrees(m: Ipv6Netmask)
    requires m.cidr >= 1
    ensures HostNumAsWritten(m) == Some(HostNum(m))
  {
  }

  /** At /0 the source overflows, where the count 2^128 - 2 still fits a `u128`. */
  lemma HostNumAsWrittenOverflowsAtZero()
    ensures HostNumAsWritten(Ipv6Netmask(0)).None?
    ensures HostNum(Ipv6Netmask(0)) + 2 == Pow2(128)
  {
    HostBitsOfCidr(Ipv6Netmask(0));
  }

  // ---------------------------------------------------------------------
  // Properties across operations

  /** Round trip through the bit pattern. */
  lemma FromBitsMask(m: Ipv6Netmask)
    ensures FromBits(Mask(m.cidr)) == Ok(m)
  {
    CountOnesOfMask(m.cidr);
  }

  /** Round trip through the octets. */
  lemma FromOctetsOctets(m: Ipv6Netmask)
    ensures FromOctets(Octets(m)) == Ok(m)
  {
    FromBitsMask(m);
  }

  /** Round trip from a prefix length through the octets. */
  lemma FromCidrRoundTrip(c: bv8)
    requires c <= 128
    ensures FromCidr(c).Ok? && FromOctets(Octets(FromCidr(c).value)) == Ok(Ipv6Netmask(c))
  {
    FromOctetsOctets(Ipv6Netmask(c));
  }

  /** Distinct prefix lengths give distinct octets, so exactly 129 patterns are accepted. */
  lemma OctetsInjective(m: Ipv6Netmask, n: Ipv6Netmask)
    requires Octets(m) == Octets(n)
    ensures m == n
  {
    assert Mask(m.cidr) == FromBeBytes(Octets(n));
    MaskInjective(m.cidr, n.cidr);
  }

  lemma MaskInjective(c: Cidr6, d: Cidr6)
    requires Mask(c) == Mask(d)
    ensures c == d
  {
    MaskShape(c);
    MaskShape(d);
    ShapeDetermines(Mask(c), c, d);
  }

  /** A pattern has the shape of at most one prefix length. */
  lemma ShapeDetermines(p: bv128, c: Cidr6, d: Cidr6)
    requires PrefixShape(p, c) && PrefixShape(p, d)
    ensures c == d
  {
    // The top bit of each shape is set in the other, so neither is shorter.
    assert c >= 1 ==> Bit(p, 128 - c);
    assert d >= 1 ==> Bit(p, 128 - d);
  }

  lemma HostNumExamples()
    ensures HostNum(Ipv6Netmask(126)) == 2
    ensures HostNum(Ipv6Netmask(127)) == 0 && HostNum(Ipv6Netmask(128)) == 0
  {
    assert Pow2(2) == 4;
  }
}
