/**
 * The first `Ipv4Netmask` and `Ipv4Network` (src/lib.rs). The mask is the
 * same prefix length as in src/netmask/v4.rs under other method names
 * (`to_bytes`, `from_integer`, `from_bytes`). The network differs from
 * src/network/mod.rs: it keeps the address as given, host bits included,
 * and masks it only when the network or broadcast address is asked for.
 */
module Legacy {
  import opened Wrappers
  import opened U32
  import NetmaskV4
  import Network

  datatype Ipv4Netmask = Ipv4Netmask(cidr: NetmaskV4.Cidr)

  /** The mask of src/netmask/v4.rs with the same prefix length. */
  function AsV4(m: Ipv4Netmask): NetmaskV4.Ipv4Netmask
  {
    NetmaskV4.Ipv4Netmask(m.cidr)
  }

  /** `to_bytes()`: all zeros at /0, otherwise the big-endian bytes of `u32::MAX << (32 - cidr)`. */
  function ToBytes(m: Ipv4Netmask): (r: Bytes4)
    ensures FromBeBytes(r) == NetmaskV4.PrefixBits(m.cidr)
  {
    NetmaskV4.MaskIsPrefixBits(m.cidr);
    if m.cidr == 0 then [0, 0, 0, 0] else ToBeBytes(MAX << (32 - m.cidr))
  }

  /** `to_bits()`: the integer the bytes spell, which is the /c pattern. */
  function ToBits(m: Ipv4Netmask): (r: bv32)
    ensures r == NetmaskV4.PrefixBits(m.cidr)
  {
    FromBeBytes(ToBytes(m))
  }

  /** `from_cidr`: accepts exactly the lengths 0 ..= 32 and stores the length given. */
  function FromCidr(cidr: bv8): (r: Result<Ipv4Netmask>)
    ensures r.Ok? <==> cidr <= 32
    ensures r.Ok? ==> r.value.cidr == cidr
    ensures r.Err? ==> r.error == NetmaskV4.CIDR_ERROR
  {
    if cidr > 32 then Err(NetmaskV4.CIDR_ERROR) else Ok(Ipv4Netmask(cidr))
  }

  /**
   * `from_integer`: its inner `validate` is the one of `from_bits` in
   * src/netmask/v4.rs (`inverse & inverse + 1` groups as
   * `inverse & (inverse + 1)` in Rust), so it accepts exactly the
   * contiguous patterns and stores their popcount.
   */
  function FromInteger(bytes: bv32): (r: Result<Ipv4Netmask>)
    ensures r.Ok? <==> NetmaskV4.IsContiguous(bytes)
    ensures r.Ok? ==> ToBits(r.value) == bytes && r.value.cidr == CountOnes(bytes)
    ensures r.Err? ==> r.error == NetmaskV4.BITS_ERROR
  {
    NetmaskV4.ValidateIffContiguous(bytes);
    if NetmaskV4.Validate(bytes) then
      NetmaskV4.ContiguousCidr(bytes);
      Ok(Ipv4Netmask(CountOnes(bytes)))
    else
      Err(NetmaskV4.BITS_ERROR)
  }

  /** `from_bytes`: the big-endian integer through `from_integer`; on success `to_bytes()` gives the bytes back. */
  function FromBytes(bytes: Bytes4): (r: Result<Ipv4Netmask>)
    ensures r.Ok? <==> NetmaskV4.IsContiguous(FromBeBytes(bytes))
    ensures r.Ok? ==> ToBytes(r.value) == bytes
    ensures r.Err? ==> r.error == NetmaskV4.BITS_ERROR
  {
    var r := FromInteger(FromBeBytes(bytes));
    ToBeBytesFromBeBytes(bytes);
    r
  }

  /** The two private fields: the address exactly as given, and the mask. */
  datatype Ipv4Network = Ipv4Network(address: Ipv4Addr, netmask: Ipv4Netmask)

  /** `new(address, netmask)`: stores both as they are; the host bits of `address` are kept. */
  function New(address: Ipv4Addr, netmask: Ipv4Netmask): Ipv4Network
  {
    Ipv4Network(address, netmask)
  }

  /** `network_addr()`: the stored address with its host bits cleared. */
  function NetworkAddr(n: Ipv4Network): Ipv4Addr
  {
    n.address & ToBits(n.netmask)
  }

  /** `broadcast_addr()`: the stored address with its host bits set. */
  function BroadcastAddr(n: Ipv4Network): Ipv4Addr
  {
    n.address | !ToBits(n.netmask)
  }

  // ---------------------------------------------------------------------
  // Properties

  /** Round trip through the integer form. */
  lemma FromIntegerToBits(m: Ipv4Netmask)
    ensures FromInteger(ToBits(m)) == Ok(m)
  {
    NetmaskV4.CountOnesOfPrefixBits(m.cidr);
  }

  /** Round trip through the byte form. */
  lemma FromBytesToBytes(m: Ipv4Netmask)
    ensures FromBytes(ToBytes(m)) == Ok(m)
  {
    FromIntegerToBits(m);
  }

  /** The mask agrees with the one of src/netmask/v4.rs, form by form. */
  lemma AgreesWithV4(m: Ipv4Netmask)
    ensures ToBits(m) == NetmaskV4.ToBits(AsV4(m))
    ensures ToBytes(m) == NetmaskV4.Octets(AsV4(m))
  {
  }

  /** The constructors accept the same inputs as those of src/netmask/v4.rs and build the same length. */
  lemma ConstructorsAgreeWithV4(cidr: bv8, bits: bv32)
    ensures FromCidr(cidr).Ok? == NetmaskV4.FromCidr(cidr).Ok?
    ensures FromCidr(cidr).Ok? ==> FromCidr(cidr).value.cidr == NetmaskV4.FromCidr(cidr).value.cidr
    ensures FromInteger(bits).Ok? == NetmaskV4.FromBits(bits).Ok?
    ensures FromInteger(bits).Ok? ==> FromInteger(bits).value.cidr == NetmaskV4.FromBits(bits).value.cidr
  {
  }

  /** `address()` and `netmask()` give back what `new` was given. */
  lemma NewAccessors(a: Ipv4Addr, m: Ipv4Netmask)
    ensures New(a, m).address == a && New(a, m).netmask == m
  {
  }

  /** `network_addr()` is the network address that src/network/mod.rs computes in `new`. */
  lemma NetworkAddrAgrees(a: Ipv4Addr, m: Ipv4Netmask)
    ensures NetworkAddr(New(a, m)) == Network.New(a, AsV4(m)).networkAddr
  {
    Network.NewDef(a, AsV4(m));
  }

  /** `broadcast_addr()` agrees with src/network/mod.rs, though it fills the unmasked address. */
  lemma BroadcastAddrAgrees(a: Ipv4Addr, m: Ipv4Netmask)
    ensures BroadcastAddr(New(a, m)) == Network.BroadcastAddr(Network.New(a, AsV4(m)))
  {
    var p := ToBits(m);
    Network.NewDef(a, AsV4(m));
    Network.BroadcastDef(Network.New(a, AsV4(m)));
    FillIgnoresMasking(a, p);
  }

  /** Filling the host bits gives the same address whether or not they were cleared first. */
  lemma FillIgnoresMasking(a: bv32, p: bv32)
    ensures a | !p == (a & p) | !p
  {
  }

  /** The stored address, host bits and all, lies between the network and broadcast addresses. */
  lemma AddressBetween(n: Ipv4Network)
    ensures NetworkAddr(n) <= n.address <= BroadcastAddr(n)
  {
    MaskedBelow(n.address, ToBits(n.netmask));
  }

  /** Clearing bits never makes a pattern larger, setting bits never makes it smaller. */
  lemma MaskedBelow(a: bv32, p: bv32)
    ensures a & p <= a <= a | !p
  {
  }

  /** The broadcast address has the prefix of the network address. */
  lemma BroadcastKeepsPrefix(n: Ipv4Network)
    ensures BroadcastAddr(n) & ToBits(n.netmask) == NetworkAddr(n)
  {
    FilledKeepsPrefix(n.address, ToBits(n.netmask));
  }

  lemma FilledKeepsPrefix(a: bv32, p: bv32)
    ensures (a | !p) & p == a & p
  {
  }

  /**
   * The stored address keeps its host bits: 192.168.3.33/23 has network
   * address 192.168.2.0 and broadcast address 192.168.3.255.
   */
  lemma KeepsHostBits()
    ensures New(0xC0A8_0321, Ipv4Netmask(23)).address == 0xC0A8_0321
    ensures NetworkAddr(New(0xC0A8_0321, Ipv4Netmask(23))) == 0xC0A8_0200
    ensures BroadcastAddr(New(0xC0A8_0321, Ipv4Netmask(23))) == 0xC0A8_03FF
  {
    NetmaskV4.MaskIsPrefixBits(23);
    assert ToBits(Ipv4Netmask(23)) == 0xFFFF_FE00;
  }
}
