/** get_network_info of backend/utils/ip_tools.py, together with the part of
    the ipaddress library it relies on: ip_network(text, strict=False), which
    reads "address[/mask]" as an IPv4 network or else an IPv6 network, and
    the attributes of the resulting network object. Addresses are numbers;
    the IPv6 literal grammar and the IPv6 text form are parameters. */
module Network {
  import opened Outcome
  import opened PyText
  import opened Radix
  import opened Dotted
  import opened Netmask

  datatype Family = V4 | V6

  /** Number of bits in an IPv6 address. */
  const V6Bits: nat := 128

  function Width(f: Family): nat {
    if f == V4 then V4Bits else V6Bits
  }

  /** A 128-bit IPv6 address value. */
  type V6Value = n: nat | n < Pow2(V6Bits)

  /** An ip_network object: its family, its network address (host bits
      already cleared, as strict=False leaves it) and its prefix length. */
  datatype IpNetwork = IpNetwork(family: Family, address: nat, prefix: nat)

  // ------------------------------------------------- blocks of addresses

  /** The address with its lowest width - p bits cleared: address & netmask. */
  function Masked(width: nat, a: nat, p: nat): nat
    requires p <= width
  {
    a / Pow2(width - p) * Pow2(width - p)
  }

  lemma DivisionBounds(a: nat, s: nat)
    requires s >= 1
    ensures a / s * s <= a < a / s * s + s
  {
  }

  lemma MultiplyMonotone(x: nat, y: nat, s: nat)
    requires x <= y
    ensures x * s <= y * s
  {
  }

  /** The only multiple k * s of s with a in [k * s, k * s + s) is a / s * s. */
  lemma {:induction false} MultipleUnique(a: nat, s: nat, k: nat)
    requires s >= 1
    requires k * s <= a < k * s + s
    ensures a / s == k
  {
    DivisionBounds(a, s);
    var q := a / s;
    if q < k {
      MultiplyMonotone(q + 1, k, s);
      assert false;
    } else if q > k {
      MultiplyMonotone(k + 1, q, s);
      assert false;
    }
  }

  /** Arithmetic of a block of size s among n blocks: a lies in the block
      starting at a / s * s, that block ends within the n blocks, and the
      block start is its own block start. */
  lemma {:induction false} BlockArithmetic(a: nat, s: nat, n: nat)
    requires s >= 1 && a < n * s
    ensures a / s * s <= a < a / s * s + s
    ensures a / s * s + s <= n * s
    ensures (a / s * s) / s == a / s
  {
    var q := a / s;
    DivisionBounds(a, s);
    if q >= n {
      MultiplyMonotone(n, q, s);
      assert false;
    }
    MultiplyMonotone(q + 1, n, s);
    assert (q + 1) * s == q * s + s;
    MultipleUnique(q * s, s, q);
  }

  /** The block of prefix p around an address lies inside the address space,
      starts at the masked address, and masking again changes nothing. */
  lemma {:induction false} MaskedBlock(width: nat, a: nat, p: nat)
    requires p <= width && a < Pow2(width)
    ensures Masked(width, a, p) <= a < Masked(width, a, p) + Pow2(width - p)
    ensures Masked(width, a, p) + Pow2(width - p) <= Pow2(width)
    ensures Masked(width, Masked(width, a, p), p) == Masked(width, a, p)
  {
    Pow2Add(p, width - p);
    BlockArithmetic(a, Pow2(width - p), Pow2(p));
  }

  /** Masking keeps exactly the addresses of one block: a lies in the block
      that starts at the multiple m of the block size exactly when masking a
      gives m. */
  lemma {:induction false} SameBlock(width: nat, m: nat, p: nat, a: nat)
    requires p <= width && m < Pow2(width) && Masked(width, m, p) == m
    ensures Masked(width, a, p) == m <==> m <= a < m + Pow2(width - p)
  {
    var s := Pow2(width - p);
    DivisionBounds(a, s);
    if m <= a < m + s {
      MultipleUnique(a, s, m / s);
    }
  }

  /** What ip_network produces: a block of the family's address space. */
  predicate Valid(n: IpNetwork) {
    && n.prefix <= Width(n.family)
    && n.address < Pow2(Width(n.family))
    && Masked(Width(n.family), n.address, n.prefix) == n.address
  }

  /** num_addresses. */
  function BlockSize(n: IpNetwork): nat
    requires Valid(n)
  {
    Pow2(Width(n.family) - n.prefix)
  }

  /** broadcast_address: the last address of the block. */
  function Broadcast(n: IpNetwork): (b: nat)
    requires Valid(n)
    ensures b < Pow2(Width(n.family))
  {
    MaskedBlock(Width(n.family), n.address, n.prefix);
    n.address + BlockSize(n) - 1
  }

  /** An address belongs to a network exactly when masking it gives the
      network address, and the network's addresses are the range from the
      network address to the broadcast address. */
  lemma {:induction false} Membership(n: IpNetwork, a: nat)
    requires Valid(n)
    ensures Masked(Width(n.family), a, n.prefix) == n.address <==> n.address <= a <= Broadcast(n)
  {
    var w := Width(n.family);
    BroadcastValue(n);
    SameBlock(w, n.address, n.prefix, a);
    BlockEnds(Masked(w, a, n.prefix), n.address, a, Pow2(w - n.prefix), Broadcast(n));
  }

  /** The broadcast address is the network address plus the block size, less one. */
  lemma BroadcastValue(n: IpNetwork)
    requires Valid(n)
    ensures Broadcast(n) == n.address + Pow2(Width(n.family) - n.prefix) - 1
  {
  }

  /** An address masks to the block of size addresses from m exactly when it
      lies between m and the block's last address m + size - 1. */
  lemma BlockEnds(masked: nat, m: nat, a: nat, size: nat, last: int)
    requires masked == m <==> m <= a < m + size
    requires last == m + size - 1
    ensures masked == m <==> m <= a <= last
  {
  }

  // ------------------------------------------- reading "address[/mask]"

  /** _prefix_from_prefix_string: ASCII digits only (at least one), and the
      number they spell at most the family's width. */
  function PrefixFromPrefixString(width: nat, s: string): (r: Option<nat>)
    ensures r.Some? ==> r.value <= width
    ensures r.Some? <==> s != [] && AllDigits(s) && DigitsValue(s) <= width
  {
    if s != [] && AllDigits(s) && DigitsValue(s) <= width then Some(DigitsValue(s)) else None
  }

  /** _prefix_from_ip_string (IPv4 only): a dotted address that is a netmask
      gives its prefix; failing that, one whose complement is a netmask (a
      hostmask) gives the complement's prefix. */
  function PrefixFromIpString(s: string): (r: Option<nat>)
    ensures r.Some? ==> r.value <= V4Bits
  {
    match ParseV4(s)
    case None => None
    case Some(m) =>
      match PrefixOfMask(V4Bits, m)
      case Some(p) => Some(p)
      case None => PrefixOfMask(V4Bits, V4Count - 1 - m)
  }

  /** _make_netmask for the text after '/': a prefix length, or for IPv4
      also a dotted netmask or hostmask. */
  function NetmaskPrefix(f: Family, s: string): (r: Option<nat>)
    ensures r.Some? ==> r.value <= Width(f)
  {
    match PrefixFromPrefixString(Width(f), s)
    case Some(p) => Some(p)
    case None => if f == V4 then PrefixFromIpString(s) else None
  }

  /** IPv4Address(s) or IPv6Address(s). */
  function ParseAddress(f: Family, s: string, parse6: string -> Option<V6Value>): (r: Option<nat>)
    ensures r.Some? ==> r.value < Pow2(Width(f))
  {
    V4CountPow2();
    if f == V4 then ParseV4(s)
    else
      match parse6(s)
      case None => None
      case Some(v) => Some(v as nat)
  }

  /** IPv4Network or IPv6Network with strict=False: the address, then the
      mask (the full width when there is none), then the host bits cleared. */
  function ParseFamily(f: Family, addr: string, mask: Option<string>, parse6: string -> Option<V6Value>): (r: Option<IpNetwork>)
    ensures r.Some? ==> Valid(r.value) && r.value.family == f
  {
    match ParseAddress(f, addr, parse6)
    case None => None
    case Some(a) =>
      var prefix := if mask.None? then Some(Width(f)) else NetmaskPrefix(f, mask.value);
      match prefix
      case None => None
      case Some(p) =>
        MaskedBlock(Width(f), a, p);
        Some(IpNetwork(f, Masked(Width(f), a, p), p))
  }

  /** ip_network(text, strict=False): at most one '/', then IPv4 is tried
      before IPv6. */
  function ParseNetwork(text: string, parse6: string -> Option<V6Value>): (r: Option<IpNetwork>)
    ensures r.Some? ==> Valid(r.value)
  {
    var parts := Split(text, '/');
    if |parts| > 2 then None
    else
      var mask := if |parts| == 2 then Some(parts[1]) else None;
      match ParseFamily(V4, parts[0], mask, parse6)
      case Some(n) => Some(n)
      case None => ParseFamily(V6, parts[0], mask, parse6)
  }

  /** "a/m" splits at the '/' into the address and the mask. */
  lemma {:induction false} SplitAddressMask(a: nat, mask: string)
    requires a < V4Count && '/' !in mask
    ensures Split(FormatV4(a) + "/" + mask, '/') == [FormatV4(a), mask]
  {
    FormatV4NoChar(a, '/');
    SplitJoin([FormatV4(a), mask], '/');
  }

  /** The text after the '/' decides the network once the dotted address
      before it has been read. */
  lemma {:induction false} ParseDottedNetwork(a: nat, mask: string, p: nat, parse6: string -> Option<V6Value>)
    requires a < V4Count && '/' !in mask
    requires NetmaskPrefix(V4, mask) == Some(p)
    ensures p <= V4Bits
    ensures ParseNetwork(FormatV4(a) + "/" + mask, parse6) == Some(IpNetwork(V4, Masked(V4Bits, a, p), p))
  {
    SplitAddressMask(a, mask);
    FormatV4Parses(a);
    assert ParseFamily(V4, FormatV4(a), Some(mask), parse6) == Some(IpNetwork(V4, Masked(V4Bits, a, p), p));
  }

  /** A decimal prefix names itself. */
  lemma {:induction false} DecimalPrefix(p: nat)
    requires p <= V4Bits
    ensures NetmaskPrefix(V4, NatToDecimal(p)) == Some(p)
    ensures '/' !in NatToDecimal(p)
  {
    DecimalHasNoSeparator(p, '/');
  }

  /** A dotted netmask names its prefix. */
  lemma {:induction false} DottedNetmaskPrefix(p: nat)
    requires p <= V4Bits
    ensures NetmaskPrefix(V4, FormatV4(V4Mask(p))) == Some(p)
    ensures '/' !in FormatV4(V4Mask(p))
  {
    var m := V4Mask(p);
    FormatV4NoChar(m, '/');
    FormatV4Parses(m);
    FormatV4HasDot(m);
    assert PrefixFromPrefixString(V4Bits, FormatV4(m)).None?;
    assert m == MaskValue(V4Bits, p);
    PrefixOfMaskValue(V4Bits, p);
  }

  /** A dotted hostmask names its prefix when the prefix is strictly between
      0 and 32. (For 0 and 32 the hostmask is the netmask of the other
      extreme and is read as that.) */
  lemma {:induction false} DottedHostmaskPrefix(p: nat)
    requires 0 < p < V4Bits
    ensures NetmaskPrefix(V4, FormatV4(V4Hostmask(p))) == Some(p)
    ensures '/' !in FormatV4(V4Hostmask(p))
  {
    var h := V4Hostmask(p);
    FormatV4NoChar(h, '/');
    FormatV4Parses(h);
    FormatV4HasDot(h);
    assert PrefixFromPrefixString(V4Bits, FormatV4(h)).None?;
    V4HostmaskComplement(p);
  }

  /** "a/p" with a dotted IPv4 address and a decimal prefix is read as the
      block of prefix p around a. */
  lemma {:induction false} ParseCidrV4(a: nat, p: nat, parse6: string -> Option<V6Value>)
    requires a < V4Count && p <= V4Bits
    ensures ParseNetwork(FormatV4(a) + "/" + NatToDecimal(p), parse6) == Some(IpNetwork(V4, Masked(V4Bits, a, p), p))
  {
    DecimalPrefix(p);
    ParseDottedNetwork(a, NatToDecimal(p), p, parse6);
  }

  /** "a/m" with m the dotted netmask of prefix p is read as "a/p". */
  lemma {:induction false} ParseNetmaskV4(a: nat, p: nat, parse6: string -> Option<V6Value>)
    requires a < V4Count && p <= V4Bits
    ensures ParseNetwork(FormatV4(a) + "/" + FormatV4(V4Mask(p)), parse6) == Some(IpNetwork(V4, Masked(V4Bits, a, p), p))
  {
    DottedNetmaskPrefix(p);
    ParseDottedNetwork(a, FormatV4(V4Mask(p)), p, parse6);
  }

  /** "a/h" with h the dotted hostmask of a prefix p strictly between 0 and
      32 is read as "a/p". */
  lemma {:induction false} ParseHostmaskV4(a: nat, p: nat, parse6: string -> Option<V6Value>)
    requires a < V4Count && 0 < p < V4Bits
    ensures ParseNetwork(FormatV4(a) + "/" + FormatV4(V4Hostmask(p)), parse6) == Some(IpNetwork(V4, Masked(V4Bits, a, p), p))
  {
    DottedHostmaskPrefix(p);
    ParseDottedNetwork(a, FormatV4(V4Hostmask(p)), p, parse6);
  }

  // -------------------------------------------------- get_network_info

  /** The numbers get_network_info reports. */
  datatype NetworkInfo = NetworkInfo(
    family: Family,
    networkAddress: nat,
    broadcastAddress: nat,
    totalIps: nat,
    usableIps: int,
    firstUsable: nat,
    lastUsable: nat,
    prefixLength: nat,
    netmask: nat,
    hostmask: nat)

  /** Every address the report prints lies in the family's address space. */
  predicate InRange(i: NetworkInfo) {
    var top := Pow2(Width(i.family));
    && i.networkAddress < top && i.broadcastAddress < top
    && i.firstUsable < top && i.lastUsable < top
    && i.netmask < top && i.hostmask < top
  }

  /** The attributes of a network object, in the order the source reads
      them. network_address + 1 and broadcast_address - 1 raise when they
      leave the address space. usable_ips is num_addresses - 2 without any
      floor, so it is -1 for a single-address block. */
  function Describe(n: IpNetwork): (r: Result<NetworkInfo>)
    requires Valid(n)
    ensures r.Ok? ==> InRange(r.value)
  {
    var w := Width(n.family);
    var size := BlockSize(n);
    var broadcast := Broadcast(n);
    var netmask := MaskValue(w, n.prefix);
    if n.address + 1 >= Pow2(w) then Err(AddressOutOfRange)
    else if broadcast < 1 then Err(AddressOutOfRange)
    else
      Ok(NetworkInfo(n.family, n.address, broadcast, size, size - 2,
                     n.address + 1, broadcast - 1, n.prefix, netmask, Pow2(w) - 1 - netmask))
  }

  /** Describing a network fails exactly for a single-address block at
      either end of the address space; otherwise the report is the block's
      range, its size, size - 2 usable addresses, the neighbours inside the
      ends, and a netmask and hostmask that are complements, the hostmask
      being one less than the size. */
  lemma {:induction false} DescribeMeaning(n: IpNetwork)
    requires Valid(n)
    ensures Describe(n).Err? <==>
      n.prefix == Width(n.family) && (n.address == 0 || n.address == Pow2(Width(n.family)) - 1)
    ensures Describe(n).Err? ==> Describe(n).error == AddressOutOfRange
    ensures Describe(n).Ok? ==>
      var i := Describe(n).value;
      && i.family == n.family
      && i.prefixLength == n.prefix
      && i.totalIps == Pow2(Width(n.family) - n.prefix)
      && i.usableIps == i.totalIps - 2
      && i.networkAddress == n.address
      && i.broadcastAddress == i.networkAddress + i.totalIps - 1
      && i.firstUsable == i.networkAddress + 1
      && i.lastUsable == i.broadcastAddress - 1
      && i.netmask == MaskValue(Width(n.family), n.prefix)
      && i.hostmask == i.totalIps - 1
      && i.netmask + i.hostmask == Pow2(Width(n.family)) - 1
  {
    DescribeFails(n);
  }

  /** A block of two or more addresses always has neighbours inside its
      ends; a single address has them unless it is the first or the last
      address of the space. */
  lemma DescribeFails(n: IpNetwork)
    requires Valid(n)
    ensures Describe(n).Err? <==>
      n.prefix == Width(n.family) && (n.address == 0 || n.address == Pow2(Width(n.family)) - 1)
    ensures Describe(n).Err? ==> Describe(n).error == AddressOutOfRange
  {
    var w := Width(n.family);
    MaskedBlock(w, n.address, n.prefix);
    if n.prefix < w {
      assert Pow2(w - n.prefix) == 2 * Pow2(w - n.prefix - 1);
    }
  }

  /** The described network holds exactly the addresses from its network
      address to its broadcast address: those that mask to the network
      address. */
  lemma DescribeMembership(n: IpNetwork)
    requires Valid(n) && Describe(n).Ok?
    ensures var i := Describe(n).value;
      forall a: nat :: Masked(Width(n.family), a, n.prefix) == n.address <==>
                     i.networkAddress <= a <= i.broadcastAddress
  {
    var w := Width(n.family);
    DescribeMeaning(n);
    forall a: nat ensures Masked(w, a, n.prefix) == n.address <==> n.address <= a <= Broadcast(n) {
      Membership(n, a);
    }
  }

  /** The report as get_network_info returns it: addresses as text. The
      is_private flag is not modelled. */
  datatype NetworkReport = NetworkReport(
    network: string,          // str(net.with_netmask)
    networkCidr: string,      // "network_address/prefixlen"
    networkAddress: string,
    broadcastAddress: string,
    totalIps: nat,
    usableIps: int,
    firstUsable: string,
    lastUsable: string,
    prefixLength: nat,
    netmask: string,
    hostmask: string)

  /** str() of an address of the family. */
  function ShowAddress(f: Family, v: nat, show6: V6Value -> string): string
    requires v < Pow2(Width(f))
  {
    V4CountPow2();
    if f == V4 then FormatV4(v) else show6(v)
  }

  function Report(i: NetworkInfo, show6: V6Value -> string): NetworkReport
    requires InRange(i)
  {
    var f := i.family;
    var network := ShowAddress(f, i.networkAddress, show6);
    NetworkReport(
      network + "/" + ShowAddress(f, i.netmask, show6),
      network + "/" + NatToDecimal(i.prefixLength),
      network,
      ShowAddress(f, i.broadcastAddress, show6),
      i.totalIps,
      i.usableIps,
      ShowAddress(f, i.firstUsable, show6),
      ShowAddress(f, i.lastUsable, show6),
      i.prefixLength,
      ShowAddress(f, i.netmask, show6),
      ShowAddress(f, i.hostmask, show6))
  }

  /** An IPv4 report prints each address in dotted form. */
  lemma ReportV4(i: NetworkInfo, show6: V6Value -> string)
    requires InRange(i) && i.family == V4
    ensures Pow2(V4Bits) == V4Count
    ensures Report(i, show6).networkAddress == FormatV4(i.networkAddress)
    ensures Report(i, show6).broadcastAddress == FormatV4(i.broadcastAddress)
    ensures Report(i, show6).networkCidr == FormatV4(i.networkAddress) + "/" + NatToDecimal(i.prefixLength)
    ensures Report(i, show6).totalIps == i.totalIps && Report(i, show6).usableIps == i.usableIps
    ensures Report(i, show6).prefixLength == i.prefixLength
  {
    V4CountPow2();
  }

  /** get_network_info(ip, mask): ip_network(f"{ip}/{mask}", strict=False),
      then the report. Every failure becomes a ValueError. */
  function GetNetworkInfo(ip: string, mask: string, parse6: string -> Option<V6Value>, show6: V6Value -> string): Result<NetworkReport>
  {
    match ParseNetwork(ip + "/" + mask, parse6)
    case None => Err(InvalidNetwork)
    case Some(n) =>
      match Describe(n)
      case Err(e) => Err(e)
      case Ok(i) => Ok(Report(i, show6))
  }

  /** Once the text has been read as a network, the report is that
      network's description. */
  lemma {:induction false} GetNetworkInfoOf(ip: string, mask: string, n: IpNetwork, parse6: string -> Option<V6Value>, show6: V6Value -> string)
    requires ParseNetwork(ip + "/" + mask, parse6) == Some(n)
    ensures Valid(n)
    ensures GetNetworkInfo(ip, mask, parse6, show6) ==
      match Describe(n)
      case Err(e) => Err(e)
      case Ok(i) => Ok(Report(i, show6))
  {
  }

  /** get_network_info for any family: once the address before the '/'
      reads as an address of family f (and, for IPv6, not as an IPv4
      network) and the text after it as a prefix of f, the call fails only
      for a single-address block at either end of the address space, and
      otherwise reports the block of that prefix containing the address:
      its first and last address as text, its size, size - 2 usable
      addresses and the prefix. */
  lemma {:induction false} GetNetworkInfoBlock(f: Family, ip: string, mask: string, a: nat, p: nat,
                                               network: nat, last: nat,
                                               parse6: string -> Option<V6Value>, show6: V6Value -> string)
    requires ParseAddress(f, ip, parse6) == Some(a)
    requires NetmaskPrefix(f, mask) == Some(p)
    requires '/' !in ip && '/' !in mask
    requires f == V6 ==> ParseAddress(V4, ip, parse6).None? || NetmaskPrefix(V4, mask).None?
    requires network == Masked(Width(f), a, p) && last == network + Pow2(Width(f) - p) - 1
    ensures p <= Width(f) && network <= a <= last < Pow2(Width(f))
    ensures ReportsBlock(GetNetworkInfo(ip, mask, parse6, show6), f, a, p, network, last, show6)
  {
    ParseSplitNetwork(f, ip, mask, a, p, parse6);
    BlockBounds(Width(f), a, p, network, last);
    GetNetworkInfoOfParsed(f, ip, mask, a, p, network, last, parse6, show6);
  }

  /** What get_network_info reports for the block of prefix p of family f
      that runs from network to last and holds a: a failure exactly when
      the block is the single address a at either end of the address space,
      and otherwise the block's ends as text, network_cidr, the size, size - 2
      usable addresses and the prefix. */
  predicate ReportsBlock(r: Result<NetworkReport>, f: Family, a: nat, p: nat, network: nat, last: nat,
                         show6: V6Value -> string)
    requires p <= Width(f) && network <= last < Pow2(Width(f))
  {
    && (r.Err? <==> p == Width(f) && (a == 0 || a == Pow2(Width(f)) - 1))
    && (r.Err? ==> r.error == AddressOutOfRange)
    && (r.Ok? ==>
          && r.value.networkAddress == ShowAddress(f, network, show6)
          && r.value.broadcastAddress == ShowAddress(f, last, show6)
          && r.value.networkCidr == ShowAddress(f, network, show6) + "/" + NatToDecimal(p)
          && r.value.totalIps == Pow2(Width(f) - p)
          && r.value.usableIps == Pow2(Width(f) - p) - 2
          && r.value.prefixLength == p)
  }

  /** The report once "ip/mask" has been read as the network of prefix p
      of family f from network to last, a block that holds a. */
  lemma GetNetworkInfoOfParsed(f: Family, ip: string, mask: string, a: nat, p: nat,
                               network: nat, last: nat,
                               parse6: string -> Option<V6Value>, show6: V6Value -> string)
    requires p <= Width(f) && last == network + Pow2(Width(f) - p) - 1
    requires network <= a <= last < Pow2(Width(f))
    requires p == Width(f) ==> network == a
    requires ParseNetwork(ip + "/" + mask, parse6) == Some(IpNetwork(f, network, p))
    ensures ReportsBlock(GetNetworkInfo(ip, mask, parse6, show6), f, a, p, network, last, show6)
  {
    var n := IpNetwork(f, network, p);
    var size := Pow2(Width(f) - p);
    DescribeBlock(f, a, p, network, size, last, n);
    GetNetworkInfoOfBlock(f, ip, mask, a, p, n, network, size, last, parse6, show6);
  }

  /** The report of a network read from "ip/mask" whose description is the
      block of size addresses from network to last: it fails as the
      description does, and otherwise prints the block's ends and counts. */
  lemma GetNetworkInfoOfBlock(f: Family, ip: string, mask: string, a: nat, p: nat, n: IpNetwork,
                              network: nat, size: nat, last: nat,
                              parse6: string -> Option<V6Value>, show6: V6Value -> string)
    requires ParseNetwork(ip + "/" + mask, parse6) == Some(n) && n.family == f
    requires p <= Width(f) && size == Pow2(Width(f) - p) && network <= last < Pow2(Width(f))
    requires Describe(n).Err? <==> p == Width(f) && (a == 0 || a == Pow2(Width(f)) - 1)
    requires Describe(n).Err? ==> Describe(n).error == AddressOutOfRange
    requires Describe(n).Ok? ==>
      var i := Describe(n).value;
      && i.family == f && i.networkAddress == network && i.broadcastAddress == last
      && i.totalIps == size && i.usableIps == size - 2 && i.prefixLength == p
    ensures ReportsBlock(GetNetworkInfo(ip, mask, parse6, show6), f, a, p, network, last, show6)
  {
    GetNetworkInfoOf(ip, mask, n, parse6, show6);
    if Describe(n).Ok? {
      ReportFields(Describe(n).value, show6);
    }
  }

  /** The fields of a report that print an address or a count. */
  lemma ReportFields(i: NetworkInfo, show6: V6Value -> string)
    requires InRange(i)
    ensures var r := Report(i, show6);
      && r.networkAddress == ShowAddress(i.family, i.networkAddress, show6)
      && r.broadcastAddress == ShowAddress(i.family, i.broadcastAddress, show6)
      && r.networkCidr == ShowAddress(i.family, i.networkAddress, show6) + "/" + NatToDecimal(i.prefixLength)
      && r.totalIps == i.totalIps && r.usableIps == i.usableIps
      && r.prefixLength == i.prefixLength
  {
  }

  /** "ip/mask" with one '/' reads as the block of family f that the
      address and the prefix denote. */
  lemma {:induction false} ParseSplitNetwork(f: Family, ip: string, mask: string, a: nat, p: nat,
                                             parse6: string -> Option<V6Value>)
    requires ParseAddress(f, ip, parse6) == Some(a)
    requires NetmaskPrefix(f, mask) == Some(p)
    requires '/' !in ip && '/' !in mask
    requires f == V6 ==> ParseAddress(V4, ip, parse6).None? || NetmaskPrefix(V4, mask).None?
    ensures p <= Width(f) && a < Pow2(Width(f))
    ensures ParseNetwork(ip + "/" + mask, parse6) == Some(IpNetwork(f, Masked(Width(f), a, p), p))
  {
    var w := Width(f);
    var n := IpNetwork(f, Masked(w, a, p), p);
    SplitSlash(ip, mask);
    ParseNetworkOfPair(ip + "/" + mask, ip, mask, parse6);
    ParseFamilyOf(f, ip, mask, a, p, parse6);
    if f == V6 {
      ParseV4Fails(ip, mask, parse6);
    }
  }

  /** Text with exactly one '/' splits into what lies on either side. */
  lemma SplitSlash(ip: string, mask: string)
    requires '/' !in ip && '/' !in mask
    ensures Split(ip + "/" + mask, '/') == [ip, mask]
  {
    assert ip + "/" + mask == ip + ['/'] + mask;
    SplitPair(ip, mask, '/');
  }

  /** Two pieces around the '/': IPv4 is tried first, then IPv6. */
  lemma ParseNetworkOfPair(text: string, ip: string, mask: string, parse6: string -> Option<V6Value>)
    requires Split(text, '/') == [ip, mask]
    ensures ParseNetwork(text, parse6) ==
      if ParseFamily(V4, ip, Some(mask), parse6).Some? then ParseFamily(V4, ip, Some(mask), parse6)
      else ParseFamily(V6, ip, Some(mask), parse6)
  {
  }

  /** An address and a mask of family f read as the block they denote. */
  lemma ParseFamilyOf(f: Family, ip: string, mask: string, a: nat, p: nat, parse6: string -> Option<V6Value>)
    requires ParseAddress(f, ip, parse6) == Some(a)
    requires NetmaskPrefix(f, mask) == Some(p)
    ensures ParseFamily(f, ip, Some(mask), parse6) == Some(IpNetwork(f, Masked(Width(f), a, p), p))
  {
  }

  /** Without an IPv4 address or an IPv4 mask there is no IPv4 network. */
  lemma ParseV4Fails(ip: string, mask: string, parse6: string -> Option<V6Value>)
    requires ParseAddress(V4, ip, parse6).None? || NetmaskPrefix(V4, mask).None?
    ensures ParseFamily(V4, ip, Some(mask), parse6).None?
  {
  }

  /** The description of a block of size addresses from network to last
      that holds a: it fails exactly when the block is the single address a
      at either end of the address space, and otherwise reports the block's
      ends and counts. */
  lemma DescribeBlock(f: Family, a: nat, p: nat, network: nat, size: nat, last: nat, n: IpNetwork)
    requires n == IpNetwork(f, network, p) && Valid(n)
    requires size == Pow2(Width(f) - p) && last == network + size - 1
    requires network <= a <= last < Pow2(Width(f))
    requires p == Width(f) ==> network == a
    ensures Describe(n).Err? <==> p == Width(f) && (a == 0 || a == Pow2(Width(f)) - 1)
    ensures Describe(n).Err? ==> Describe(n).error == AddressOutOfRange
    ensures Describe(n).Ok? ==>
      var i := Describe(n).value;
      && i.family == f
      && i.networkAddress == network
      && i.broadcastAddress == last
      && i.totalIps == size
      && i.usableIps == size - 2
      && i.prefixLength == p
  {
    DescribeMeaning(n);
  }

  /** The block of prefix p around a runs from network to last and holds a. */
  lemma BlockBounds(width: nat, a: nat, p: nat, network: nat, last: nat)
    requires a < Pow2(width) && p <= width
    requires network == Masked(width, a, p) && last == network + Pow2(width - p) - 1
    ensures network <= a <= last < Pow2(width)
    ensures p == width ==> network == a
  {
    MaskedBlock(width, a, p);
  }

  /** For a dotted IPv4 address and a decimal prefix: the call fails only for
      a /32 of 0.0.0.0 or 255.255.255.255, and otherwise reports the block
      of the prefix that contains the address, its size and size - 2 usable
      addresses. GetNetworkInfoV4Text gives the text fields. */
  lemma {:induction false} GetNetworkInfoV4(a: nat, p: nat, parse6: string -> Option<V6Value>, show6: V6Value -> string)
    requires a < V4Count && p <= V4Bits
    ensures var r := GetNetworkInfo(FormatV4(a), NatToDecimal(p), parse6, show6);
      && (r.Err? <==> p == V4Bits && (a == 0 || a == V4Count - 1))
      && (r.Err? ==> r.error == AddressOutOfRange)
      && (r.Ok? ==>
            var network := Masked(V4Bits, a, p);
            && network <= a <= network + Pow2(V4Bits - p) - 1 < V4Count
            && r.value.totalIps == Pow2(V4Bits - p)
            && r.value.usableIps == Pow2(V4Bits - p) - 2
            && r.value.prefixLength == p)
  {
    var n := IpNetwork(V4, Masked(V4Bits, a, p), p);
    CidrNetworkV4(a, p, n, parse6, show6);
    DescribeBlockV4(a, p, n);
    if Describe(n).Ok? {
      ReportV4(Describe(n).value, show6);
    }
  }

  /** The description of the IPv4 block of prefix p around a: its failure
      cases, its bounds and its counts. */
  lemma DescribeBlockV4(a: nat, p: nat, n: IpNetwork)
    requires a < V4Count && p <= V4Bits && n == IpNetwork(V4, Masked(V4Bits, a, p), p) && Valid(n)
    ensures Describe(n).Err? <==> p == V4Bits && (a == 0 || a == V4Count - 1)
    ensures Describe(n).Err? ==> Describe(n).error == AddressOutOfRange
    ensures Describe(n).Ok? ==>
      var network, i := Masked(V4Bits, a, p), Describe(n).value;
      && network <= a <= network + Pow2(V4Bits - p) - 1 < V4Count
      && i.networkAddress == network
      && i.broadcastAddress == network + Pow2(V4Bits - p) - 1
      && i.totalIps == Pow2(V4Bits - p)
      && i.usableIps == Pow2(V4Bits - p) - 2
      && i.prefixLength == p
  {
    V4CountPow2();
    MaskedBlock(V4Bits, a, p);
    DescribeMeaning(n);
  }

  /** The addresses an IPv4 report prints: the network address of the block
      containing a, and its last address, in dotted form; network_cidr is the
      network address, a slash and the prefix in decimal. */
  lemma {:induction false} GetNetworkInfoV4Text(a: nat, p: nat, network: nat, last: nat,
                                                parse6: string -> Option<V6Value>, show6: V6Value -> string)
    requires a < V4Count && p <= V4Bits
    requires network == Masked(V4Bits, a, p) && last == network + Pow2(V4Bits - p) - 1
    ensures network <= last < V4Count
    ensures var r := GetNetworkInfo(FormatV4(a), NatToDecimal(p), parse6, show6);
      r.Ok? ==>
        && r.value.networkAddress == FormatV4(network)
        && r.value.broadcastAddress == FormatV4(last)
        && r.value.networkCidr == FormatV4(network) + "/" + NatToDecimal(p)
  {
    var n := IpNetwork(V4, network, p);
    CidrNetworkV4(a, p, n, parse6, show6);
    DescribeBlockV4(a, p, n);
    if Describe(n).Ok? {
      var i := Describe(n).value;
      ReportV4(i, show6);
      assert i.broadcastAddress == last;
      assert Report(i, show6).broadcastAddress == FormatV4(last);
      assert GetNetworkInfo(FormatV4(a), NatToDecimal(p), parse6, show6) == Ok(Report(i, show6));
    }
  }

  /** The IPv4 network "a/p" denotes: the block of the prefix containing a. */
  lemma {:induction false} CidrNetworkV4(a: nat, p: nat, n: IpNetwork, parse6: string -> Option<V6Value>, show6: V6Value -> string)
    requires a < V4Count && p <= V4Bits && n == IpNetwork(V4, Masked(V4Bits, a, p), p)
    ensures Valid(n)
    ensures GetNetworkInfo(FormatV4(a), NatToDecimal(p), parse6, show6) ==
      match Describe(n)
      case Err(e) => Err(e)
      case Ok(i) => Ok(Report(i, show6))
  {
    ParseCidrV4(a, p, parse6);
    GetNetworkInfoOf(FormatV4(a), NatToDecimal(p), n, parse6, show6);
  }

  /** A dotted netmask and the equivalent prefix give the same report. */
  lemma {:induction false} NetmaskSameAsPrefix(a: nat, p: nat, parse6: string -> Option<V6Value>, show6: V6Value -> string)
    requires a < V4Count && p <= V4Bits
    ensures GetNetworkInfo(FormatV4(a), FormatV4(V4Mask(p)), parse6, show6)
         == GetNetworkInfo(FormatV4(a), NatToDecimal(p), parse6, show6)
  {
    var n := IpNetwork(V4, Masked(V4Bits, a, p), p);
    ParseNetmaskV4(a, p, parse6);
    ParseCidrV4(a, p, parse6);
    GetNetworkInfoOf(FormatV4(a), FormatV4(V4Mask(p)), n, parse6, show6);
    GetNetworkInfoOf(FormatV4(a), NatToDecimal(p), n, parse6, show6);
  }

  /** The reported network_cidr reads back as the same network: reporting
      normalises an IPv4 network, and normalising twice changes nothing. */
  lemma {:induction false} NetworkCidrReparses(ip: string, mask: string, parse6: string -> Option<V6Value>, show6: V6Value -> string)
    requires GetNetworkInfo(ip, mask, parse6, show6).Ok?
    requires ParseNetwork(ip + "/" + mask, parse6).value.family == V4
    ensures ParseNetwork(GetNetworkInfo(ip, mask, parse6, show6).value.networkCidr, parse6) == ParseNetwork(ip + "/" + mask, parse6)
  {
    var n := ParseNetwork(ip + "/" + mask, parse6).value;
    V4CountPow2();
    GetNetworkInfoOf(ip, mask, n, parse6, show6);
    ParseCidrV4(n.address, n.prefix, parse6);
  }
}
