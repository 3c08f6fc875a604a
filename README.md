# ipcalc in Dafny

A model of the core of `ipcalc`, a small Rust library for IPv4 and IPv6 subnet
arithmetic, with proofs about it. It covers:

- **IPv4 subnet masks** (`src/netmask/v4.rs`). A mask is stored only as its
  prefix length, from 0 to 32. The 32-bit pattern, the four octets, the
  wildcard and the host count are all derived from that length. The
  constructors that take a raw pattern accept exactly the 33 contiguous masks.
- **IPv6 subnet masks** (`src/netmask/v6.rs`). The same idea at 128 bits, with
  129 contiguous masks.
- **IPv4 networks** (`src/network/mod.rs`). `new` masks the address eagerly.
  From the stored network address and mask the library derives:
  - the broadcast address;
  - the first and last usable hosts, with special cases at /31 and /32;
  - membership, by a shift-and-compare;
  - the tightest network holding two given hosts.
- **The host iterator** (`src/network/iterator.rs`). A cursor that yields
  every address from the network address up to the broadcast address, the
  broadcast address itself excluded.
- **The older types at the crate root** (`src/lib.rs`). They are modelled
  separately, in module `Legacy`:
  - a mask with the same behaviour under other method names;
  - a network that keeps the address as given and masks it only when asked.

Modules follow the source files:

| module | file |
|---|---|
| `NetmaskV4` | `netmask_v4.dfy` |
| `NetmaskV6` | `netmask_v6.dfy` |
| `Network` | `network.dfy` |
| `NetworkIterator` | `network_iterator.dfy` |
| `Legacy` | `legacy.dfy` |

Helper modules:

- `U32` and `U128` model the Rust integer operations the source relies on:
  - big-endian bytes;
  - `count_ones`;
  - `leading_zeros`;
  - the unsigned value of a bit pattern.
- `Pow` holds powers of two.
- `Wrappers` holds `Option` and `Result`.

Addresses and masks are bit-vectors (`bv32`, `bv128`). Prefix lengths are
`bv8`, as the Rust `u8` field is. `std::net::Ipv4Addr` is taken to be its
32-bit value.

`src/network/mod.rs` takes its mask type from the crate root (`src/lib.rs`),
but the model uses the mask of `src/netmask/v4.rs`. `Legacy.AgreesWithV4` and
`Legacy.ConstructorsAgreeWithV4` show that the two behave identically.

Two behaviours are kept as the code has them:

- **Iteration is exclusive.** The broadcast address is never yielded.
- **`contains` at /0** shifts a `u32` by 32, which overflows. For that case
  the model has both the code's version and a corrected one in which /0 holds
  every address (see Findings).

## Model

| member | source | states |
|---|---|---|
| NetmaskV4.Octets | src/netmask/v4.rs:13-20 | read big-endian, the four octets are the /c pattern (c ones, then zeros), with no shift by 32 at /0 |
| NetmaskV4.MaskIsPrefixBits | src/netmask/v4.rs:18 | `u32::MAX << (32 - c)` is exactly `c` leading ones followed by zeros |
| NetmaskV4.ToBits | src/netmask/v4.rs:22-24 | the /c pattern; its contract is stated by `ToBitsOctets` (it is `from_be_bytes(octets())`) and `ToBitsShape` |
| NetmaskV4.ToBitsOctets | src/netmask/v4.rs:22-24 | `to_bits()` is the big-endian integer of `octets()`, and `octets()` is the big-endian form of `to_bits()` |
| NetmaskV4.ToBitsShape | src/netmask/v4.rs:22-24 | bit i of `to_bits()` is set exactly when i >= 32 - cidr; the pattern is 0 at /0 |
| NetmaskV4.Wildcard | src/netmask/v4.rs:26-28 | the wildcard and the mask are disjoint and together cover all 32 bits |
| NetmaskV4.WildcardShape | src/netmask/v4.rs:26-28 | the wildcard has exactly the low 32 - cidr bits set |
| NetmaskV4.ValueOfWildcard | src/netmask/v4.rs:26-28 | as an unsigned number the wildcard is 2^(32 - cidr) - 1 |
| NetmaskV4.New | src/netmask/v4.rs:30-32 | `new(a, b, c, d)` succeeds exactly when a.b.c.d is a contiguous mask; the mask's octets are then a, b, c, d; otherwise it fails with "Invalid bytes" |
| NetmaskV4.FromCidr | src/netmask/v4.rs:34-39 | succeeds exactly for lengths up to 32 and keeps the length; otherwise fails with the range message |
| NetmaskV4.Validate | src/netmask/v4.rs:42-49 | the inner `validate`; an assertion in its body shows `inverse + 1` is reached only with `inverse != u32::MAX`; what it accepts is stated by `ValidateIffContiguous` |
| NetmaskV4.ValidateIffContiguous | src/netmask/v4.rs:42-49 | the inner `validate` accepts a pattern exactly when it is the /c mask for some c; it never computes `inverse + 1` for `inverse == u32::MAX`, because 0 and `u32::MAX` are answered first |
| NetmaskV4.CountOnesOfPrefixBits | src/netmask/v4.rs:53 | the /c mask has popcount c |
| NetmaskV4.ContiguousCidr | src/netmask/v4.rs:53 | a contiguous pattern is the mask of its own popcount |
| NetmaskV4.FromBits | src/netmask/v4.rs:41-57 | succeeds exactly on contiguous patterns, storing their popcount so that `to_bits()` gives the pattern back; otherwise fails with "Invalid bytes" |
| NetmaskV4.FromOctets | src/netmask/v4.rs:59-61 | succeeds exactly when the big-endian integer is contiguous, and `octets()` then gives the bytes back |
| NetmaskV4.HostNum | src/netmask/v4.rs:63-69 | the count fits in 32 bits and is 0 at /31 and /32 |
| NetmaskV4.HostNumOfWildcard | src/netmask/v4.rs:63-69 | up to /30 the host count is one less than the wildcard's value, i.e. 2^(32 - c) - 2 |
| NetmaskV4.HostNumExamples | src/netmask/v4.rs:63-69 | 254 hosts at /24, none at /31 and /32 |
| NetmaskV4.FromBitsToBits | src/netmask/v4.rs:41-57 | `from_bits(m.to_bits()) == Ok(m)` for every mask |
| NetmaskV4.FromCidrRoundTrip | src/netmask/v4.rs:34-39 | for each c <= 32, `from_bits(from_cidr(c).to_bits())` gives back cidr c |
| NetmaskV4.FromOctetsOctets | src/netmask/v4.rs:59-61 | `from_octets(m.octets()) == Ok(m)` for every mask |
| NetmaskV4.ToBitsInjective | src/netmask/v4.rs:22-24 | different prefix lengths give different patterns |
| NetmaskV4.FromBitsRejectsHole | src/netmask/v4.rs:41-57 | 255.0.255.0 is rejected |
| NetmaskV6.Octets | src/netmask/v6.rs:13-20 | read big-endian, the 16 octets are the /c pattern, with no shift by 128 at /0 |
| NetmaskV6.OctetsShape | src/netmask/v6.rs:13-20 | bit i of the octets' integer is set exactly when i >= 128 - cidr; at /0 every octet is 0 |
| NetmaskV6.FromCidr | src/netmask/v6.rs:30-35 | succeeds exactly for lengths up to 128 and keeps the length; otherwise fails with the range message |
| NetmaskV6.Validate | src/netmask/v6.rs:38-45 | the inner `validate`; an assertion in its body shows `inverse + 1` is reached only with `inverse != u128::MAX`; what it accepts is stated by `ValidateIffContiguous` |
| NetmaskV6.ValidateIffContiguous | src/netmask/v6.rs:38-45 | the inner `validate` accepts a pattern exactly when it is the /c mask for some c <= 128; it never computes `inverse + 1` for `inverse == u128::MAX` |
| NetmaskV6.CountOnesOfMask | src/netmask/v6.rs:49 | the /c mask has popcount c, so the `as u8` cast keeps it |
| NetmaskV6.ContiguousCidr | src/netmask/v6.rs:49 | a contiguous pattern is the mask of its own popcount |
| NetmaskV6.FromBits | src/netmask/v6.rs:37-53 | succeeds exactly on the contiguous patterns, storing their popcount, whose mask is the pattern; otherwise fails with "Invalid bytes" |
| NetmaskV6.FromOctets | src/netmask/v6.rs:55-57 | succeeds exactly when the big-endian integer is contiguous, and `octets()` then gives the bytes back |
| NetmaskV6.HostBitsOfCidr | src/netmask/v6.rs:66-72 | the mask has 128 - cidr zero bits |
| NetmaskV6.HostNumAsWritten | src/netmask/v6.rs:66-72 | the source's `host_num()` overflows exactly at /0; otherwise its value fits a `u128` |
| NetmaskV6.HostNum | src/netmask/v6.rs:66-72 | up to /126, 2^(zero bits of the mask) - 2; 0 at /127 and /128; always within a `u128`, /0 included |
| NetmaskV6.HostNumAsWrittenAgrees | src/netmask/v6.rs:66-72 | the source's `host_num()` equals the intended count on every mask from /1 up |
| NetmaskV6.HostNumAsWrittenOverflowsAtZero | src/netmask/v6.rs:71 | at /0 the source overflows although the count 2^128 - 2 fits a `u128` |
| NetmaskV6.HostNumExamples | src/netmask/v6.rs:66-72 | 2 hosts at /126, none at /127 and /128 |
| NetmaskV6.FromBitsMask | src/netmask/v6.rs:37-53 | `from_bits` of the /c pattern gives back that mask |
| NetmaskV6.FromOctetsOctets | src/netmask/v6.rs:55-57 | `from_octets(m.octets()) == Ok(m)` for every mask |
| NetmaskV6.FromCidrRoundTrip | src/netmask/v6.rs:30-35 | for each c <= 128, `from_octets(from_cidr(c).octets())` gives back cidr c |
| NetmaskV6.OctetsInjective | src/netmask/v6.rs:13-20 | different prefix lengths give different octets |
| NetmaskV6.MaskInjective | src/netmask/v6.rs:18 | different prefix lengths give different `u128::MAX << (128 - c)` patterns |
| Network.NewValid | src/network/mod.rs:26-35 | `new` leaves no host bit set, and the network holds the address it was built from |
| Network.NewIdempotent | src/network/mod.rs:26-35 | `new(new(a, m).network_addr(), m) == new(a, m)` |
| Network.NewOfValid | src/network/mod.rs:26-35 | rebuilding a network from its own fields gives the same network |
| Network.NewAgreesOnPrefix | src/network/mod.rs:26-35 | two addresses give the same network exactly when they agree on the prefix bits |
| Network.InNetworkIffNew | src/network/mod.rs:26-35 | an address has a network's prefix exactly when `new` builds that network from it |
| Network.FromHosts | src/network/mod.rs:37-43 | the prefix length is the number of leading zeros of `first ^ last` |
| Network.FromHostsContainsBoth | src/network/mod.rs:37-43 | the result is a valid network holding both hosts |
| Network.FromHostsTightest | src/network/mod.rs:38-42 | no longer prefix holds both hosts |
| Network.FromHostsSeparated | src/network/mod.rs:38-42 | every mask longer than the one picked gives the two hosts different network addresses |
| Network.FromHostsSame | src/network/mod.rs:37-43 | the result is /32 exactly when the two hosts are equal |
| Network.BroadcastAddr | src/network/mod.rs:50-56 | the network address with the host bits set; stated by `BroadcastInNetwork`, `BroadcastHostBits` and `BroadcastValue` |
| Network.BroadcastInNetwork | src/network/mod.rs:50-56 | the broadcast address has the network's prefix: `broadcast & mask == network_addr` |
| Network.BroadcastHostBits | src/network/mod.rs:50-56 | the broadcast address has every host bit set |
| Network.BroadcastValue | src/network/mod.rs:50-56 | as numbers, broadcast = network address + wildcard, so network address <= broadcast |
| Network.MinHost | src/network/mod.rs:58-64 | none exactly at /32; the network address at /31 |
| Network.MinHostValue | src/network/mod.rs:58-64 | up to /30 the first host is the network address plus one, with no wrap-around |
| Network.MaxHost | src/network/mod.rs:66-72 | none exactly at /32; the broadcast address at /31 |
| Network.MaxHostValue | src/network/mod.rs:66-72 | up to /30 the last host is the broadcast address minus one, with no wrap-around |
| Network.LowBitOfNetwork | src/network/mod.rs:58-72 | up to /31 the network address is not 255.255.255.255 and the broadcast address is not 0.0.0.0 |
| Network.HostsBetweenMinAndMax | src/network/mod.rs:58-72 | up to /30 the hosts from `min_host` to `max_host` number exactly `host_num()`, so min <= max |
| Network.HostShift | src/network/mod.rs:75 | as an integer the shift is 32 - cidr: the `u8` subtraction does not underflow |
| Network.ContainsAsWritten | src/network/mod.rs:74-80 | the source's `contains` overflows exactly at /0 |
| Network.ContainsAsWrittenAgrees | src/network/mod.rs:74-80 | from /1 up, the source's `contains` equals the corrected one |
| Network.ContainsAsWrittenFailsAtZero | src/network/mod.rs:75-77 | 0.0.0.0/0 holds 10.0.0.1, yet the source's `contains` overflows on it |
| Network.Contains | src/network/mod.rs:74-80 | the corrected `contains`, equal to the source's from /1 by `ContainsAsWrittenAgrees`; its meaning is stated by `ContainsIffInNetwork` |
| Network.ContainsSound | src/network/mod.rs:74-80 | on a valid network, if the corrected `contains(addr)` holds, then `addr & mask == network_addr` |
| Network.ContainsComplete | src/network/mod.rs:74-80 | if `addr & mask == network_addr`, then the corrected `contains(addr)` holds |
| Network.ContainsIffInNetwork | src/network/mod.rs:74-80 | on a valid network, the corrected `contains` (equal to the source's from /1 by `ContainsAsWrittenAgrees`) is exactly the prefix test `addr & mask == network_addr` |
| Network.NewContains | src/network/mod.rs:74-80 | the corrected `new(a, m).contains(b)` holds exactly when `new(b, m) == new(a, m)` |
| Network.ContainsAt32 | src/network/mod.rs:74-80 | a /32 network holds its own address and nothing else |
| Network.ContainsExamples | src/network/mod.rs:74-80 | 192.168.3.32/23 holds 192.168.2.200 and not 192.168.4.0 |
| Network.FromAddrAndMask | src/network/mod.rs:84-88 | the network is valid, has the given mask and holds the given address |
| Network.FromHostPair | src/network/mod.rs:90-94 | the network is valid and holds both hosts, and every longer mask separates them: it is the network with the longest prefix holding both |
| Network.IntoIter | src/network/mod.rs:108-116 | the cursor runs from the network address to the broadcast address; for a valid network it yields as many addresses as the wildcard's value |
| Network.IterationCount | src/network/mod.rs:113-115 | iterating yields wildcard-many addresses (2^(32 - c) - 1 by `ValueOfWildcard`), the broadcast address excluded |
| Network.IterationAt32 | src/network/mod.rs:113-115 | a /32 cursor starts at its end, so it yields nothing |
| Network.IterationHostCount | src/network/mod.rs:113-115 | up to /30, iterating yields `host_num()` + 1 addresses: the network address and every usable host |
| Network.Example23 | src/network/mod.rs:26-56 | 192.168.3.33/23 has network 192.168.2.0 and broadcast 192.168.3.255 |
| NetworkIterator.Range | src/network/iterator.rs:17-25 | what a cursor from f to l yields: l - f items, the i-th being f + i |
| NetworkIterator.RangeMembers | src/network/iterator.rs:17-25 | a cursor from f to l yields x exactly when f <= x < l, so l itself is never yielded |
| NetworkIterator.RangeOfSpan | src/network/iterator.rs:17-25 | a cursor w below its end yields w addresses |
| NetworkIterator.RangeIncreasing | src/network/iterator.rs:17-25 | the yielded addresses strictly increase, so none repeats |
| NetworkIterator.NetworkIterator.constructor | src/network/iterator.rs:9-11 | stores `first` and `last`; the cursor is valid exactly when first <= last |
| NetworkIterator.NetworkIterator.Next | src/network/iterator.rs:17-25 | `None` exactly when current == end, changing nothing, so further calls keep returning `None`; otherwise it returns the old current and steps it by one; it keeps the cursor valid and consumes the head of `Remaining()` |
| NetworkIterator.NetworkIterator.Collect | src/network/iterator.rs:14-25 | calling `next()` until `None` yields exactly the addresses from first up to, but not including, last |
| Legacy.ToBytes | src/lib.rs:23-30 | read big-endian, the bytes are the /c pattern, all zeros at /0 |
| Legacy.ToBits | src/lib.rs:32-34 | `to_bits()` is the /c pattern |
| Legacy.FromCidr | src/lib.rs:36-41 | succeeds exactly for lengths up to 32 and keeps the length; otherwise fails with the range message |
| Legacy.FromInteger | src/lib.rs:43-59 | `inverse & inverse + 1` groups as `inverse & (inverse + 1)`; succeeds exactly on contiguous patterns, storing their popcount, with `to_bits()` giving back the pattern; otherwise fails with "Invalid bytes" |
| Legacy.FromBytes | src/lib.rs:61-63 | succeeds exactly when the big-endian integer is contiguous, and `to_bytes()` then gives the bytes back |
| Legacy.FromIntegerToBits | src/lib.rs:43-59 | `from_integer(m.to_bits()) == Ok(m)` |
| Legacy.FromBytesToBytes | src/lib.rs:61-63 | `from_bytes(m.to_bytes()) == Ok(m)` |
| Legacy.AgreesWithV4 | src/lib.rs:23-34 | `to_bits`/`to_bytes` equal `to_bits`/`octets` of src/netmask/v4.rs |
| Legacy.ConstructorsAgreeWithV4 | src/lib.rs:36-59 | `from_cidr`/`from_integer` accept the same inputs as `from_cidr`/`from_bits` of src/netmask/v4.rs and give the same length |
| Legacy.NewAccessors | src/lib.rs:81-91 | `address()` and `netmask()` return exactly what `new` was given |
| Legacy.NetworkAddr | src/lib.rs:93-99 | the stored address with the host bits cleared; stated by `NetworkAddrAgrees` and `AddressBetween` |
| Legacy.BroadcastAddr | src/lib.rs:101-107 | the stored address with the host bits set; stated by `BroadcastAddrAgrees`, `BroadcastKeepsPrefix` and `AddressBetween` |
| Legacy.NetworkAddrAgrees | src/lib.rs:93-99 | the lazily computed network address is the one src/network/mod.rs stores |
| Legacy.BroadcastAddrAgrees | src/lib.rs:101-107 | filling the unmasked address gives the broadcast address of src/network/mod.rs |
| Legacy.AddressBetween | src/lib.rs:93-107 | network address <= stored address <= broadcast address |
| Legacy.BroadcastKeepsPrefix | src/lib.rs:93-107 | `broadcast_addr() & mask == network_addr()` |
| Legacy.KeepsHostBits | src/main.rs:7-9 | 192.168.3.33/23 keeps its address, with network 192.168.2.0 and broadcast 192.168.3.255 |

## Left out

- The `TryFrom<u8>`, `TryFrom<u32>` and `TryFrom<[u8; 4]>` impls (src/netmask/v4.rs:72-94) only call `from_cidr`, `from_bits` and `from_octets`. The model has those operations and no second name for them.
- The accessors `cidr()`, `as_cidr()`, `netmask()`, `network_addr()` and `address()` read a field. In the model they are the datatype fields. `as_cidr` returns a reference, which has no counterpart.
- The `Display`/`Debug` impls (src/netmask/v4.rs:96-106, src/network/mod.rs:96-106) are text formatting that relies on the standard library's address printing.
- `Ipv6Netmask::hextets` and `from_hextets` (src/netmask/v6.rs:22-28, 59-64) reinterpret memory through `unsafe` pointer casts. Their result depends on the machine's byte order.
- The `Netmask` and `Network` enums and the empty `Ipv6Network` and `Ipv6Netmask` structs (src/lib.rs:3-7, 66-72, 109; src/netmask/mod.rs; src/network/mod.rs:9-12, 117) have no behaviour.
- `src/main.rs` prints to standard output. Its example values appear in `Legacy.KeepsHostBits`.
- `std::net::Ipv4Addr` is not part of this model. An address is its 32-bit value.
- NetworkIterator.NetworkIterator.Next: requires that a step does not run past 255.255.255.255. The source's `to_bits() + 1` panics there in a debug build. A valid cursor (first <= last) never takes that step.
- NetworkIterator.NetworkIterator: keeps each address as its unsigned value, a number up to `u32::MAX`, not as a bit pattern. `Network.IntoIter` converts with `U32.Value`.
- Network.IntoIter, NetworkIterator.NetworkIterator.Next, NetworkIterator.NetworkIterator.Collect and the constructor state the new state with `fresh`/`old`. Their counting properties are proved as lemmas about `Range`.
- Network.New: its contract only fixes the mask. What it does to the address is stated by `Network.NewValid`, `Network.InNetworkIffNew` and `Network.NewAgreesOnPrefix`.
- Legacy.New: has no contract of its own. `Legacy.NewAccessors` states it.

## Findings

| source | as written | input that shows it | evidently intended | confidence | as-written member | corrected member |
|---|---|---|---|---|---|---|
| src/network/mod.rs:74-80 | `contains` shifts both `u32` values right by `32 - cidr`, which is 32 at /0: an arithmetic overflow. A debug build panics. A release build masks the shift amount to 0, so `contains` at /0 holds only for 0.0.0.0 (false for 10.0.0.1), a silent wrong answer | 0.0.0.0/0 and 10.0.0.1 | a /0 network holds every address; `contains(addr)` holds exactly when `addr & mask == network_addr` | high, not executed | Network.ContainsAsWritten, Network.ContainsAsWrittenFailsAtZero | Network.Contains, Network.ContainsIffInNetwork |
| src/netmask/v6.rs:66-72 | `host_num` computes `2u128.pow(128 - cidr) - 2`, and `2u128.pow(128)` overflows at /0. A debug build panics. A release build wraps the power to 0, and `- 2` then wraps to 2^128 - 2, which happens to be the intended count | an `Ipv6Netmask` with cidr 0 | 2^128 - 2 (`u128::MAX - 1`), which fits a `u128`, as the IPv4 mask avoids the overflow with a wider `u64` | high, not executed | NetmaskV6.HostNumAsWritten, NetmaskV6.HostNumAsWrittenOverflowsAtZero | NetmaskV6.HostNum, NetmaskV6.HostNumAsWrittenAgrees |
