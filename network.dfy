/**
 * `Ipv4Network` (src/network/mod.rs): a network address together with its
 * mask. The constructor masks the address at once, so the stored address has
 * no host bits; everything else is computed from the two fields.
 */
module Network {
  import opened Wrappers
  import opened Pow
  import opened U32
  import opened NetmaskV4
  import opened NetworkIterator

  /** The two private fields; `new` (and the `From` impls that call it) is the only way to build one. */
  datatype Ipv4Network = Ipv4Network(networkAddr: Ipv4Addr, netmask: Ipv4Netmask)

  /** The networks `new` produces: the network address has every host bit clear. */
  ghost predicate Valid(n: Ipv4Network)
  {
    NoHostBits(n.networkAddr, ToBits(n.netmask))
  }

  /** `addr` lies in the network: it has the network's prefix bits. */
  ghost predicate InNetwork(n: Ipv4Network, addr: Ipv4Addr)
  {
    HasPrefix(addr, ToBits(n.netmask), n.networkAddr)
  }

  /** `a` has no bit outside the pattern `p`. */
  ghost predicate NoHostBits(a: bv32, p: bv32)
  {
    a & !p == 0
  }

  /** The bits of `x` under the pattern `p` are those of `a`. */
  ghost predicate HasPrefix(x: bv32, p: bv32, a: bv32)
  {
    x & p == a
  }

  /** `a` and `x` are equal once their low `s` bits are shifted out. */
  predicate SameAbove(a: bv32, x: bv32, s: bv8)
    requires s <= 32
  {
    a >> s == x >> s
  }

  // ---------------------------------------------------------------------
  // Bit facts about addresses and a /c pattern `p` (one with PrefixShape(p, c))

  /** `a` and `x` agree on every bit from `s` up. */
  ghost predicate AgreeFrom(a: bv32, x: bv32, s: bv8)
  {
    forall k: bv8 :: s <= k < 32 ==> (Bit(a, k) <==> Bit(x, k))
  }

  /** A bit outside `p` is clear in an `a` that has no bits outside `p`. */
  lemma HostBitOff(a: bv32, p: bv32, i: bv8)
    requires i < 32 && a & !p == 0 && !Bit(p, i)
    ensures !Bit(a, i)
  {
    AndBit(a, !p, i);
    NotBit(p, i);
    BitOfZero(i);
  }

  lemma ShiftedEqualBit(a: bv32, x: bv32, s: bv8, i: bv8)
    requires s <= i < 32 && a >> s == x >> s
    ensures Bit(a, i) <==> Bit(x, i)
  {
    ShrBitHigh(a, s, i);
    ShrBitHigh(x, s, i);
  }

  /** Equal after shifting out `s` bits: equal in every bit from `s` up. */
  lemma ShiftEqualAgree(a: bv32, x: bv32, s: bv8)
    requires s < 32 && a >> s == x >> s
    ensures AgreeFrom(a, x, s)
  {
    forall k: bv8 | s <= k < 32
      ensures Bit(a, k) <==> Bit(x, k)
    {
      ShiftedEqualBit(a, x, s, k);
    }
  }

  lemma AgreeShiftEqualBit(a: bv32, x: bv32, s: bv8, j: bv8)
    requires s < 32 && j < 32 && AgreeFrom(a, x, s)
    ensures Bit(a >> s, j) <==> Bit(x >> s, j)
  {
    if j < 32 - s {
      assert s <= j + s < 32;
      ShrBitLow(a, s, j);
      ShrBitLow(x, s, j);
    } else {
      ShrBitTop(a, s, j);
      ShrBitTop(x, s, j);
    }
  }

  /** Equal in every bit from `s` up: equal after shifting out `s` bits. */
  lemma AgreeShiftEqual(a: bv32, x: bv32, s: bv8)
    requires s < 32 && AgreeFrom(a, x, s)
    ensures a >> s == x >> s
  {
    var u, v := a >> s, x >> s;
    forall j: bv8 | j < 32
      ensures Bit(u, j) <==> Bit(v, j)
    {
      AgreeShiftEqualBit(a, x, s, j);
    }
    BitsEqual(u, v);
  }

  lemma AgreeMaskedBit(a: bv32, x: bv32, p: bv32, c: Cidr, i: bv8)
    requires i < 32 && PrefixShape(p, c) && a & !p == 0 && AgreeFrom(a, x, 32 - c)
    ensures Bit(x & p, i) <==> Bit(a, i)
  {
    AndBit(x, p, i);
    if i < 32 - c {
      HostBitOff(a, p, i);
    }
  }

  /** An `x` that agrees with a host-bit-free `a` on the top c bits has `a` as its prefix. */
  lemma AgreeMasked(a: bv32, x: bv32, p: bv32, c: Cidr)
    requires PrefixShape(p, c) && a & !p == 0 && AgreeFrom(a, x, 32 - c)
    ensures x & p == a
  {
    var xp := x & p;
    forall i: bv8 | i < 32
      ensures Bit(xp, i) <==> Bit(a, i)
    {
      AgreeMaskedBit(a, x, p, c, i);
    }
    BitsEqual(xp, a);
  }

  /** An `x` whose prefix is `a` agrees with `a` on the top c bits. */
  lemma MaskedAgreeFrom(a: bv32, x: bv32, p: bv32, c: Cidr)
    requires PrefixShape(p, c) && x & p == a
    ensures AgreeFrom(a, x, 32 - c)
  {
    forall k: bv8 | 32 - c <= k < 32
      ensures Bit(a, k) <==> Bit(x, k)
    {
      MaskedAgreeBit(a, x, p, c, k);
    }
  }

  lemma MaskedAgreeBit(a: bv32, x: bv32, p: bv32, c: Cidr, k: bv8)
    requires PrefixShape(p, c) && x & p == a && 32 - c <= k < 32
    ensures Bit(a, k) <==> Bit(x, k)
  {
    assert Bit(p, k);
    AndBit(x, p, k);
  }

  /** Two addresses whose xor has its top c bits clear have the same /c prefix. */
  lemma AgreeUnderShape(f: bv32, l: bv32, p: bv32, c: Cidr)
    requires PrefixShape(p, c) && TopZeros(f ^ l, c)
    ensures f & p == l & p
  {
    var fp, lp := f & p, l & p;
    forall i: bv8 | i < 32
      ensures Bit(fp, i) <==> Bit(lp, i)
    {
      AndBit(f, p, i);
      AndBit(l, p, i);
      XorBit(f, l, i);
    }
    BitsEqual(fp, lp);
  }

  /** Two addresses that differ in a bit that `p` keeps have different prefixes. */
  lemma DifferUnderShape(f: bv32, l: bv32, p: bv32, c: Cidr, i: bv8)
    requires PrefixShape(p, c) && 32 - c <= i < 32 && Bit(f ^ l, i)
    ensures f & p != l & p
  {
    AndBit(f, p, i);
    AndBit(l, p, i);
    XorBit(f, l, i);
  }

  /** Comparing with the host bits shifted out implies having the prefix. */
  lemma ShiftMatchMasked(a: bv32, x: bv32, p: bv32, c: Cidr, s: bv8)
    requires 1 <= c && s == 32 - c && PrefixShape(p, c) && a & !p == 0
    requires a >> s == x >> s
    ensures x & p == a
  {
    ShiftEqualAgree(a, x, s);
    AgreeMasked(a, x, p, c);
  }

  /** Having the prefix implies comparing equal with the host bits shifted out. */
  lemma MaskedMatchShift(a: bv32, x: bv32, p: bv32, c: Cidr, s: bv8)
    requires 1 <= c && s == 32 - c && PrefixShape(p, c) && x & p == a
    ensures a >> s == x >> s
  {
    MaskedAgreeFrom(a, x, p, c);
    AgreeShiftEqual(a, x, s);
  }

  /** Under the empty pattern, only 0 has no host bits, and every address has its prefix. */
  lemma NoHostBitsOfZero(a: bv32, x: bv32, p: bv32)
    requires p == 0 && NoHostBits(a, p)
    ensures HasPrefix(x, p, a)
  {
  }

  /** `ShiftMatchMasked` in terms of the predicates. */
  lemma SameAboveHasPrefix(a: bv32, x: bv32, p: bv32, c: Cidr, s: bv8)
    requires 1 <= c && s + c == 32 && PrefixShape(p, c)
    requires NoHostBits(a, p) && SameAbove(a, x, s)
    ensures HasPrefix(x, p, a)
  {
    ShiftMatchMasked(a, x, p, c, s);
  }

  /** `MaskedMatchShift` in terms of the predicates. */
  lemma HasPrefixSameAbove(a: bv32, x: bv32, p: bv32, c: Cidr, s: bv8)
    requires 1 <= c && s + c == 32 && PrefixShape(p, c) && HasPrefix(x, p, a)
    ensures SameAbove(a, x, s)
  {
    MaskedMatchShift(a, x, p, c, s);
  }

  // ---------------------------------------------------------------------
  // Operations

  /** `new(address, netmask)`: keeps the prefix bits of `address` and clears its host bits. */
  function New(address: Ipv4Addr, netmask: Ipv4Netmask): (r: Ipv4Network)
    ensures r.netmask == netmask
  {
    Ipv4Network(address & ToBits(netmask), netmask)
  }

  /**
   * `from_hosts(first, last)`: the prefix length is the number of leading
   * zeros of `first ^ last`, the leading bits on which the two hosts agree.
   */
  function FromHosts(first: Ipv4Addr, last: Ipv4Addr): (r: Ipv4Network)
    ensures r.netmask.cidr as bv32 == LeadingZeros(first ^ last)
  {
    var lz := LeadingZeros(first ^ last);
    // `u8::try_from(..).unwrap()`: leading_zeros is at most 32, so it fits a `u8`.
    var cidr := lz as bv8;
    var mask := NetmaskV4.FromCidr(cidr);
    // `from_cidr(..).unwrap()`: a length of at most 32 is accepted.
    assert mask.Ok?;
    New(first, mask.value)
  }

  /** `broadcast_addr()`: the network address with every host bit set. */
  function BroadcastAddr(n: Ipv4Network): Ipv4Addr
  {
    n.networkAddr | !ToBits(n.netmask)
  }

  /** `min_host()`: none at /32, the network address itself at /31, and otherwise the address after it. */
  function MinHost(n: Ipv4Network): (r: Option<Ipv4Addr>)
    ensures r.None? <==> n.netmask.cidr == 32
    ensures n.netmask.cidr == 31 ==> r == Some(n.networkAddr)
  {
    match n.netmask.cidr
    case 32 => None
    case 31 => Some(n.networkAddr)
    case _ => Some(n.networkAddr + 1)
  }

  /** `max_host()`: none at /32, the broadcast address itself at /31, and otherwise the address before it. */
  function MaxHost(n: Ipv4Network): (r: Option<Ipv4Addr>)
    ensures r.None? <==> n.netmask.cidr == 32
    ensures n.netmask.cidr == 31 ==> r == Some(BroadcastAddr(n))
  {
    match n.netmask.cidr
    case 32 => None
    case 31 => Some(BroadcastAddr(n))
    case _ => Some(BroadcastAddr(n) - 1)
  }

  /** The `shift` of `contains`: the number of host bits; the `u8` subtraction cannot underflow. */
  function HostShift(m: Ipv4Netmask): (s: bv8)
    ensures s as int == 32 - m.cidr as int
  {
    32 - m.cidr
  }

  /**
   * `contains(addr)` as written: both addresses shifted right by the number
   * of host bits and compared. At /0 that shifts a `u32` by 32, which Rust
   * rejects as an arithmetic overflow (a panic); `None` stands for it.
   */
  function ContainsAsWritten(n: Ipv4Network, addr: Ipv4Addr): (r: Option<bool>)
    ensures r.None? <==> n.netmask.cidr == 0
  {
    var shift := HostShift(n.netmask);
    if shift >= 32 then None
    else Some(SameAbove(n.networkAddr, addr, shift))
  }

  /** `contains(addr)` with the /0 case answered as intended: a /0 network holds every address. */
  function Contains(n: Ipv4Network, addr: Ipv4Addr): bool
  {
    if n.netmask.cidr == 0 then true
    else SameAbove(n.networkAddr, addr, HostShift(n.netmask))
  }

  /** `From<(Ipv4Addr, Ipv4Netmask)>`: a valid network with the given mask that holds the given address. */
  function FromAddrAndMask(value: (Ipv4Addr, Ipv4Netmask)): (r: Ipv4Network)
    ensures Valid(r) && InNetwork(r, value.0) && r.netmask == value.1
  {
    NewValid(value.0, value.1);
    New(value.0, value.1)
  }

  /** `From<(Ipv4Addr, Ipv4Addr)>`: the valid network with the longest prefix that holds both hosts. */
  function FromHostPair(value: (Ipv4Addr, Ipv4Addr)): (r: Ipv4Network)
    ensures Valid(r) && InNetwork(r, value.0) && InNetwork(r, value.1)
    ensures Separated(value.0, value.1, r.netmask.cidr)
  {
    FromHostsContainsBoth(value.0, value.1);
    FromHostsSeparated(value.0, value.1);
    FromHosts(value.0, value.1)
  }

  /** `into_iter()`: a cursor from the network address to the broadcast address, the latter excluded. */
  method IntoIter(n: Ipv4Network) returns (it: NetworkIterator)
    ensures fresh(it)
    ensures it.current == Value(n.networkAddr) && it.end == Value(BroadcastAddr(n))
    ensures Valid(n) ==> it.Valid() && |it.Remaining()| == Value(Wildcard(n.netmask))
  {
    Pow2Of32();
    if Valid(n) {
      IterationCount(n);
    }
    it := new NetworkIterator(Value(n.networkAddr), Value(BroadcastAddr(n)));
  }

  // ---------------------------------------------------------------------
  // The definitions, one equation at a time. These restate a definition and
  // are no properties; they let a proof unfold one definition where needed.

  /** Solver aid: restates the definition of `Wildcard`. */
  lemma WildcardDef(m: Ipv4Netmask)
    ensures Wildcard(m) == !ToBits(m)
  {
  }

  /** No host bits means no bit in common with the wildcard. */
  lemma NoHostBitsOfWildcard(a: Ipv4Addr, m: Ipv4Netmask)
    requires NoHostBits(a, ToBits(m))
    ensures a & Wildcard(m) == 0
  {
    WildcardDef(m);
  }

  /** The broadcast address is the network address and the wildcard, which share no bit. */
  lemma BroadcastDisjointOr(n: Ipv4Network)
    requires Valid(n)
    ensures n.networkAddr & Wildcard(n.netmask) == 0 && BroadcastAddr(n) == n.networkAddr | Wildcard(n.netmask)
  {
    BroadcastDef(n);
    WildcardDef(n.netmask);
    NoHostBitsOfWildcard(n.networkAddr, n.netmask);
  }

  /** Solver aid: restates the definition of `InNetwork`. */
  lemma InNetworkDef(n: Ipv4Network, addr: Ipv4Addr)
    ensures InNetwork(n, addr) <==> addr & ToBits(n.netmask) == n.networkAddr
  {
  }

  /** Solver aid: restates the definition of `New`. */
  lemma NewDef(a: Ipv4Addr, m: Ipv4Netmask)
    ensures New(a, m) == Ipv4Network(a & ToBits(m), m)
  {
  }

  /** Solver aid: restates the definition of `BroadcastAddr`. */
  lemma BroadcastDef(n: Ipv4Network)
    ensures BroadcastAddr(n) == n.networkAddr | !ToBits(n.netmask)
  {
  }

  /** Solver aid: restates the definition of `FromHosts`. */
  lemma FromHostsDef(first: Ipv4Addr, last: Ipv4Addr)
    ensures FromHosts(first, last) == New(first, FromHosts(first, last).netmask)
    ensures TopZeros(first ^ last, FromHosts(first, last).netmask.cidr)
    ensures FromHosts(first, last).netmask.cidr < 32 ==> Bit(first ^ last, 31 - FromHosts(first, last).netmask.cidr)
  {
  }

  /** Solver aid: restates the definition of `MinHost`. */
  lemma MinHostDef(n: Ipv4Network)
    requires n.netmask.cidr <= 30
    ensures MinHost(n) == Some(n.networkAddr + 1)
  {
  }

  /** Solver aid: restates the definition of `MaxHost`. */
  lemma MaxHostDef(n: Ipv4Network)
    requires n.netmask.cidr <= 30
    ensures MaxHost(n) == Some(BroadcastAddr(n) - 1)
  {
  }

  // ---------------------------------------------------------------------
  // Masking and filling an address with a pattern `p`

  lemma MaskedNoHost(a: bv32, p: bv32)
    ensures NoHostBits(a & p, p)
  {
  }

  lemma MaskedHasPrefix(a: bv32, p: bv32)
    ensures HasPrefix(a, p, a & p)
  {
  }

  lemma MaskedIdem(a: bv32, p: bv32)
    ensures (a & p) & p == a & p
  {
  }

  lemma NoHostKeeps(a: bv32, p: bv32)
    requires NoHostBits(a, p)
    ensures a & p == a
  {
  }

  lemma FilledPrefix(a: bv32, p: bv32)
    requires NoHostBits(a, p)
    ensures HasPrefix(a | !p, p, a)
  {
  }

  lemma FilledHosts(a: bv32, p: bv32)
    ensures (a | !p) & !p == !p
  {
  }

  lemma LowBitAbstract(a: bv32, p: bv32)
    requires NoHostBits(a, p) && !Bit(p, 0)
    ensures a != MAX && a | !p != 0
  {
    HostBitOff(a, p, 0);
    NotBit(p, 0);
    OrBit(a, !p, 0);
    BitOfZero(0);
  }

  // ---------------------------------------------------------------------
  // Properties of the operations

  /** `new` clears the host bits and keeps the address in the network; the network address is the address's prefix. */
  lemma NewValid(a: Ipv4Addr, m: Ipv4Netmask)
    ensures Valid(New(a, m))
    ensures InNetwork(New(a, m), a)
  {
    NewDef(a, m);
    MaskedNoHost(a, ToBits(m));
    MaskedHasPrefix(a, ToBits(m));
  }

  /** Masking is idempotent: building a network from a network address gives the same network. */
  lemma NewIdempotent(a: Ipv4Addr, m: Ipv4Netmask)
    ensures New(New(a, m).networkAddr, m) == New(a, m)
  {
    NewDef(a, m);
    NewDef(a & ToBits(m), m);
    MaskedIdem(a, ToBits(m));
  }

  /** Building from a network address returns that network: `new` is the identity on valid networks. */
  lemma NewOfValid(n: Ipv4Network)
    requires Valid(n)
    ensures New(n.networkAddr, n.netmask) == n
  {
    NewDef(n.networkAddr, n.netmask);
    NoHostKeeps(n.networkAddr, ToBits(n.netmask));
  }

  /** Two addresses give the same network exactly when they agree on the prefix bits. */
  lemma NewAgreesOnPrefix(a: Ipv4Addr, b: Ipv4Addr, m: Ipv4Netmask)
    ensures New(a, m) == New(b, m) <==> a & ToBits(m) == b & ToBits(m)
  {
    NewDef(a, m);
    NewDef(b, m);
  }

  /** Every address lies in exactly one network per mask: the one `new` builds from it. */
  lemma InNetworkIffNew(n: Ipv4Network, addr: Ipv4Addr)
    ensures InNetwork(n, addr) <==> New(addr, n.netmask) == n
  {
    InNetworkDef(n, addr);
    NewDef(addr, n.netmask);
  }

  /** Both hosts lie in the network `from_hosts` builds, and it is a valid network. */
  lemma FromHostsContainsBoth(first: Ipv4Addr, last: Ipv4Addr)
    ensures Valid(FromHosts(first, last))
    ensures InNetwork(FromHosts(first, last), first)
    ensures InNetwork(FromHosts(first, last), last)
  {
    var r := FromHosts(first, last);
    var m := r.netmask;
    FromHostsDef(first, last);
    NewValid(first, m);
    NewDef(first, m);
    ToBitsShape(m);
    AgreeUnderShape(first, last, ToBits(m), m.cidr);
    InNetworkDef(r, last);
  }

  /** No longer prefix than the one `from_hosts` picks holds both hosts. */
  lemma FromHostsTightest(first: Ipv4Addr, last: Ipv4Addr, m: Ipv4Netmask)
    requires m.cidr > FromHosts(first, last).netmask.cidr
    ensures first & ToBits(m) != last & ToBits(m)
  {
    var c := FromHosts(first, last).netmask.cidr;
    FromHostsDef(first, last);
    ToBitsShape(m);
    DifferUnderShape(first, last, ToBits(m), m.cidr, 31 - c);
  }

  /** Every mask longer than /c tells `a` and `b` apart. */
  ghost predicate Separated(a: Ipv4Addr, b: Ipv4Addr, c: bv8)
  {
    forall m: Ipv4Netmask :: m.cidr > c ==> a & ToBits(m) != b & ToBits(m)
  }

  /** No mask longer than the one `from_hosts` picks keeps both hosts in one network. */
  lemma FromHostsSeparated(first: Ipv4Addr, last: Ipv4Addr)
    ensures Separated(first, last, FromHosts(first, last).netmask.cidr)
  {
    var c := FromHosts(first, last).netmask.cidr;
    FromHostsDef(first, last);
    if c < 32 {
      SeparatedByBit(first, last, c);
    }
  }

  /** Hosts that differ in bit 31 - c are told apart by every mask longer than /c. */
  lemma SeparatedByBit(f: Ipv4Addr, l: Ipv4Addr, c: bv8)
    requires c < 32 && Bit(f ^ l, 31 - c)
    ensures Separated(f, l, c)
  {
    forall m: Ipv4Netmask | m.cidr > c
      ensures f & ToBits(m) != l & ToBits(m)
    {
      ToBitsShape(m);
      DifferUnderShape(f, l, ToBits(m), m.cidr, 31 - c);
    }
  }

  /** Equal hosts give a /32 network, and different hosts a shorter one. */
  lemma FromHostsSame(first: Ipv4Addr, last: Ipv4Addr)
    ensures FromHosts(first, last).netmask.cidr == 32 <==> first == last
  {
    assert LeadingZeros(first ^ last) == 32 <==> first ^ last == 0;
  }

  /** The broadcast address lies in the network. */
  lemma BroadcastInNetwork(n: Ipv4Network)
    requires Valid(n)
    ensures InNetwork(n, BroadcastAddr(n))
  {
    BroadcastDef(n);
    FilledPrefix(n.networkAddr, ToBits(n.netmask));
  }

  /** The broadcast address has every host bit set. */
  lemma BroadcastHostBits(n: Ipv4Network)
    ensures BroadcastAddr(n) & Wildcard(n.netmask) == Wildcard(n.netmask)
  {
    BroadcastDef(n);
    WildcardDef(n.netmask);
    FilledHosts(n.networkAddr, ToBits(n.netmask));
  }

  /** As numbers, the broadcast address is the network address plus the wildcard. */
  lemma BroadcastValue(n: Ipv4Network)
    requires Valid(n)
    ensures Value(BroadcastAddr(n)) == Value(n.networkAddr) + Value(Wildcard(n.netmask))
  {
    BroadcastDisjointOr(n);
    ValueOfDisjointOr(n.networkAddr, Wildcard(n.netmask), BroadcastAddr(n));
  }

  /** Below /31 the network address has bit 0 clear and the broadcast address has it set. */
  lemma LowBitOfNetwork(n: Ipv4Network)
    requires Valid(n) && n.netmask.cidr <= 31
    ensures n.networkAddr != MAX && BroadcastAddr(n) != 0
  {
    BroadcastDef(n);
    ToBitsShape(n.netmask);
    LowBitAbstract(n.networkAddr, ToBits(n.netmask));
  }

  /** Below /31 the first usable host is the address after the network address, with no wrap-around. */
  lemma MinHostValue(n: Ipv4Network)
    requires Valid(n) && n.netmask.cidr <= 30
    ensures Value(MinHost(n).value) == Value(n.networkAddr) + 1
  {
    MinHostDef(n);
    LowBitOfNetwork(n);
    ValueSucc(n.networkAddr);
  }

  /** Below /31 the last usable host is the address before the broadcast address, with no wrap-around. */
  lemma MaxHostValue(n: Ipv4Network)
    requires Valid(n) && n.netmask.cidr <= 30
    ensures Value(MaxHost(n).value) + 1 == Value(BroadcastAddr(n))
  {
    MaxHostDef(n);
    LowBitOfNetwork(n);
    ValuePred(BroadcastAddr(n));
  }

  /** Below /31 the usable hosts run from `min_host` to `max_host`, and there are `host_num()` of them. */
  lemma HostsBetweenMinAndMax(n: Ipv4Network)
    requires Valid(n) && n.netmask.cidr <= 30
    ensures Value(MaxHost(n).value) - Value(MinHost(n).value) + 1 == HostNum(n.netmask)
  {
    var lo, hi, w := Value(MinHost(n).value), Value(MaxHost(n).value), Value(Wildcard(n.netmask));
    var net, bc := Value(n.networkAddr), Value(BroadcastAddr(n));
    MinHostValue(n);
    MaxHostValue(n);
    BroadcastValue(n);
    HostNumOfWildcard(n.netmask);
    assert lo == net + 1 && hi + 1 == bc && bc == net + w;
  }

  lemma ContainsSound(n: Ipv4Network, addr: Ipv4Addr)
    requires Valid(n) && Contains(n, addr)
    ensures InNetwork(n, addr)
  {
    var m := n.netmask;
    ToBitsShape(m);
    if m.cidr == 0 {
      NoHostBitsOfZero(n.networkAddr, addr, ToBits(m));
    } else {
      SameAboveHasPrefix(n.networkAddr, addr, ToBits(m), m.cidr, HostShift(m));
    }
  }

  lemma ContainsComplete(n: Ipv4Network, addr: Ipv4Addr)
    requires InNetwork(n, addr)
    ensures Contains(n, addr)
  {
    var m := n.netmask;
    if m.cidr != 0 {
      ToBitsShape(m);
      HasPrefixSameAbove(n.networkAddr, addr, ToBits(m), m.cidr, HostShift(m));
    }
  }

  /** Comparing with the host bits shifted out is exactly asking whether `addr` has the network's prefix. */
  lemma ContainsIffInNetwork(n: Ipv4Network, addr: Ipv4Addr)
    requires Valid(n)
    ensures Contains(n, addr) <==> InNetwork(n, addr)
  {
    if Contains(n, addr) {
      ContainsSound(n, addr);
    }
    if InNetwork(n, addr) {
      ContainsComplete(n, addr);
    }
  }

  /** Where the source's `contains` answers, it agrees with the corrected one. */
  lemma ContainsAsWrittenAgrees(n: Ipv4Network, addr: Ipv4Addr)
    requires n.netmask.cidr >= 1
    ensures ContainsAsWritten(n, addr) == Some(Contains(n, addr))
  {
  }

  /** The /0 network 0.0.0.0/0 holds 10.0.0.1, yet the source's `contains` overflows on it. */
  lemma ContainsAsWrittenFailsAtZero()
    ensures InNetwork(New(0, Ipv4Netmask(0)), 0x0A00_0001)
    ensures ContainsAsWritten(New(0, Ipv4Netmask(0)), 0x0A00_0001).None?
  {
  }

  /** A network contains the address it was built from, and every address that gives the same network. */
  lemma NewContains(a: Ipv4Addr, b: Ipv4Addr, m: Ipv4Netmask)
    ensures Contains(New(a, m), b) <==> New(b, m) == New(a, m)
  {
    NewValid(a, m);
    ContainsIffInNetwork(New(a, m), b);
    InNetworkIffNew(New(a, m), b);
  }

  /** At /32 a network contains nothing but its own address. */
  lemma ContainsAt32(n: Ipv4Network, addr: Ipv4Addr)
    requires Valid(n) && n.netmask.cidr == 32
    ensures Contains(n, addr) <==> addr == n.networkAddr
  {
    ContainsIffInNetwork(n, addr);
    InNetworkDef(n, addr);
    ToBitsShape(n.netmask);
    var p := ToBits(n.netmask);
    forall i: bv8 | i < 32
      ensures Bit(p, i) <==> Bit(MAX, i)
    {
    }
    BitsEqual(p, MAX);
  }

  /**
   * Iterating a network yields as many addresses as the wildcard's value
   * (2^(32-c) - 1 by `ValueOfWildcard`), from the network address on, with
   * the broadcast address excluded.
   */
  lemma IterationCount(n: Ipv4Network)
    requires Valid(n)
    ensures Value(n.networkAddr) <= Value(BroadcastAddr(n))
    ensures |Range(Value(n.networkAddr), Value(BroadcastAddr(n)))| == Value(Wildcard(n.netmask))
    ensures Value(BroadcastAddr(n)) !in Range(Value(n.networkAddr), Value(BroadcastAddr(n)))
  {
    BroadcastValue(n);
    RangeOfValues(n.networkAddr, BroadcastAddr(n), Wildcard(n.netmask));
  }

  /** `RangeOfSpan` for the values of three addresses. */
  lemma RangeOfValues(a: bv32, b: bv32, w: bv32)
    requires Value(b) == Value(a) + Value(w)
    ensures Value(a) <= Value(b)
    ensures |Range(Value(a), Value(b))| == Value(w)
    ensures Value(b) !in Range(Value(a), Value(b))
  {
    RangeOfSpan(Value(a), Value(b), Value(w));
  }

  /** A /32 network's cursor yields nothing: it starts at its end, the broadcast address. */
  lemma IterationAt32(n: Ipv4Network)
    requires Valid(n) && n.netmask.cidr == 32
    ensures Value(BroadcastAddr(n)) == Value(n.networkAddr)
  {
    BroadcastValue(n);
    ValueOfWildcard(n.netmask);
  }

  /** Below /31 iterating yields the `host_num()` usable hosts plus the network address. */
  lemma IterationHostCount(n: Ipv4Network)
    requires Valid(n) && n.netmask.cidr <= 30
    ensures Value(n.networkAddr) <= Value(BroadcastAddr(n))
    ensures |Range(Value(n.networkAddr), Value(BroadcastAddr(n)))| == HostNum(n.netmask) + 1
  {
    IterationCount(n);
    HostNumOfWildcard(n.netmask);
  }

  /** 192.168.3.33/23 has network address 192.168.2.0 and broadcast address 192.168.3.255. */
  lemma Example23()
    ensures New(0xC0A8_0321, Ipv4Netmask(23)).networkAddr == 0xC0A8_0200
    ensures BroadcastAddr(New(0xC0A8_0321, Ipv4Netmask(23))) == 0xC0A8_03FF
  {
    MaskIsPrefixBits(23);
    assert ToBits(Ipv4Netmask(23)) == 0xFFFF_FE00;
  }

  /** 192.168.3.32/23 spans 192.168.2.0 to 192.168.3.255: it holds 192.168.2.200 and not 192.168.4.0. */
  lemma ContainsExamples()
    ensures Contains(New(0xC0A8_0320, Ipv4Netmask(23)), 0xC0A8_02C8)
    ensures !Contains(New(0xC0A8_0320, Ipv4Netmask(23)), 0xC0A8_0400)
  {
    MaskIsPrefixBits(23);
    assert ToBits(Ipv4Netmask(23)) == 0xFFFF_FE00;
  }
}
