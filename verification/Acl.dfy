/**
 Access control by address prefixes (acl_addr, match_sockaddr and block_acl, src/proxy/filters.cpp, in their
 HAVE_RFC2553 form): netmasks built from a prefix length, the octet loop that applies them, and the rule list.
 */
module Acl {
  import opened Wrappers

  type Octets = seq<bv8>

  // ----- Bits of an octet, the most significant first -----

  function Weight(j: nat): (w: bv8)
    requires j < 8
  {
    if j == 0 then 0x80
    else if j == 1 then 0x40
    else if j == 2 then 0x20
    else if j == 3 then 0x10
    else if j == 4 then 0x08
    else if j == 5 then 0x04
    else if j == 6 then 0x02
    else 0x01
  }

  predicate Bit(o: bv8, j: nat)
    requires j < 8
  {
    o & Weight(j) != 0
  }

  /** The first m bits of two addresses agree. */
  ghost predicate SamePrefix(a: Octets, b: Octets, m: nat)
    requires |a| == |b|
  {
    forall i, j :: 0 <= i < |a| && 0 <= j < 8 && 8 * i + j < m ==> Bit(a[i], j) == Bit(b[i], j)
  }

  /** An octet whose first r bits are set, as the source computes it. */
  function OctetMask(r: nat): (o: bv8)
    requires r <= 8
  {
    if r == 8 then 0xFF else if r == 0 then 0 else !(((1 as bv8) << (8 - r)) - 1)
  }

  function And(x: bv8, m: bv8): (r: bv8) {
    x & m
  }

  function Or(m: bv8, w: bv8): (r: bv8) {
    m | w
  }

  lemma OctetMaskStep(r: nat)
    requires r < 8
    ensures OctetMask(r + 1) == Or(OctetMask(r), Weight(r))
  {
  }

  lemma OctetMaskNonZero(r: nat)
    requires r <= 8
    ensures OctetMask(r) == 0 <==> r == 0
  {
  }

  lemma PartOfMask(x: bv8, m: bv8, w: bv8)
    ensures And(x, Or(m, w)) == Or(And(x, m), And(x, w))
    ensures And(And(x, Or(m, w)), m) == And(x, m) && And(And(x, Or(m, w)), w) == And(x, w)
  {
  }

  lemma JoinedMasks(x: bv8, y: bv8, m: bv8, w: bv8)
    ensures And(x, Or(m, w)) == And(y, Or(m, w)) <==> And(x, m) == And(y, m) && And(x, w) == And(y, w)
  {
    hide And, Or;
    PartOfMask(x, m, w);
    PartOfMask(y, m, w);
  }

  lemma OneBit(x: bv8, y: bv8, j: nat)
    requires j < 8
    ensures And(x, Weight(j)) == And(y, Weight(j)) <==> Bit(x, j) == Bit(y, j)
  {
  }

  lemma NoBits(x: bv8)
    ensures And(x, OctetMask(0)) == 0
  {
  }

  /** Two octets agree under the mask exactly when their first r bits do. */
  lemma {:induction false} MaskedOctets(x: bv8, y: bv8, r: nat)
    requires r <= 8
    ensures And(x, OctetMask(r)) == And(y, OctetMask(r)) <==> forall j :: 0 <= j < r ==> Bit(x, j) == Bit(y, j)
  {
    hide Bit, Weight, OctetMask, And, Or;
    if r == 0 {
      NoBits(x);
      NoBits(y);
    } else {
      MaskedOctets(x, y, r - 1);
      OctetMaskStep(r - 1);
      JoinedMasks(x, y, OctetMask(r - 1), Weight(r - 1));
      OneBit(x, y, r - 1);
    }
  }

  // ----- Netmasks -----

  /** How many of the first m bits are in octet i. */
  function Taken(m: nat, i: nat): (r: nat)
    ensures r <= 8
  {
    if m <= 8 * i then 0 else if m >= 8 * i + 8 then 8 else m - 8 * i
  }

  function MaskOf(m: nat, len: nat): (mask: Octets)
    ensures |mask| == len
  {
    seq(len, i requires 0 <= i < len => OctetMask(Taken(m, i)))
  }

  datatype Family = Inet | Inet6

  function AddrLen(f: Family): (n: nat) {
    if f.Inet? then 4 else 16
  }

  /** The netmask part of acl_addr; None is its -1. The mask comes zeroed, and octets after the prefix stay so. */
  method BuildNetmask(family: Family, length: int, maskData: array<bv8>) returns (ok: bool)
    requires maskData.Length == AddrLen(family) && forall i :: 0 <= i < maskData.Length ==> maskData[i] == 0
    modifies maskData
    ensures ok <==> 0 <= length <= 128
    ensures ok ==> maskData[..] == MaskOf(length, AddrLen(family))
    ensures !ok ==> maskData[..] == old(maskData[..])
  {
    var masklength := length;
    if masklength < 0 || masklength > 128 {
      return false;
    }
    if family.Inet? && masklength > 32 {
      masklength := 32;
    }
    hide OctetMask, Taken;
    var addrLen := AddrLen(family);
    var i := 0;
    while i < addrLen && masklength != 0
      invariant 0 <= i <= addrLen && 0 <= masklength
      invariant masklength == if length <= 8 * i then 0 else if family.Inet? && length > 32 then 32 - 8 * i else length - 8 * i
      invariant forall k :: 0 <= k < i ==> maskData[k] == OctetMask(Taken(length, k))
      invariant forall k :: i <= k < addrLen ==> maskData[k] == 0
    {
      MaskOctet(length, i, masklength);
      if masklength >= 8 {
        maskData[i] := 0xFF;
        masklength := masklength - 8;
      } else {
        maskData[i] := !(((1 as bv8) << (8 - masklength)) - 1);
        masklength := 0;
      }
      i := i + 1;
    }
    forall k | i <= k < addrLen
      ensures maskData[k] == OctetMask(Taken(length, k))
    {
      BeyondMask(length, k);
    }
    return true;
  }

  lemma MaskOctet(m: nat, i: nat, left: nat)
    requires 0 < left && (left == m - 8 * i || (i < 4 && left == 32 - 8 * i < m - 8 * i))
    ensures OctetMask(Taken(m, i)) == if left >= 8 then 0xFF else !(((1 as bv8) << (8 - left)) - 1)
  {
  }

  lemma BeyondMask(m: nat, k: nat)
    requires m <= 8 * k
    ensures OctetMask(Taken(m, k)) == 0
  {
  }

  // ----- match_sockaddr -----

  /** The octet loop: it stops at the first octet of the mask that is zero. */
  ghost predicate LoopAccepts(network: Octets, mask: Octets, address: Octets)
    requires |network| == |mask| == |address|
  {
    forall j :: 0 <= j < |mask| && (forall i :: 0 <= i <= j ==> mask[i] != 0) ==>
      And(network[j], mask[j]) == And(address[j], mask[j])
  }

  /** With a mask made from a prefix length, the loop compares exactly that prefix. */
  lemma LoopComparesPrefix(network: Octets, address: Octets, m: nat)
    requires |network| == |address|
    ensures LoopAccepts(network, MaskOf(m, |network|), address) <==> SamePrefix(network, address, m)
  {
    hide Bit, OctetMask, And;
    var mask := MaskOf(m, |network|);
    forall j | 0 <= j < |network|
      ensures And(network[j], mask[j]) == And(address[j], mask[j]) <==>
              forall b :: 0 <= b < Taken(m, j) ==> Bit(network[j], b) == Bit(address[j], b)
      ensures mask[j] != 0 <==> Taken(m, j) > 0
    {
      MaskedOctets(network[j], address[j], Taken(m, j));
      OctetMaskNonZero(Taken(m, j));
    }
    if LoopAccepts(network, mask, address) {
      forall i, b | 0 <= i < |network| && 0 <= b < 8 && 8 * i + b < m
        ensures Bit(network[i], b) == Bit(address[i], b)
      {
        assert b < Taken(m, i);
        assert forall k :: 0 <= k <= i ==> Taken(m, k) > 0 && mask[k] != 0;
      }
    }
  }

  type Port = p: int | 0 <= p < 0x1_0000

  datatype SockAddr = SockAddr(family: Family, ip: Octets, port: Port)

  predicate Valid(a: SockAddr) {
    |a.ip| == AddrLen(a.family)
  }

  const MAPPED: Octets := [0, 0, 0, 0, 0, 0, 0, 0, 0, 0, 0xFF, 0xFF]

  /** IN6_IS_ADDR_V4MAPPED */
  predicate IsMapped(ip: Octets) {
    |ip| == 16 && ip[..12] == MAPPED
  }

  /** An IPv4-mapped address: ten octets of zero, two of ones, and four more. */
  lemma MappedMeans(ip: Octets)
    ensures IsMapped(ip) <==> |ip| == 16 && (forall i :: 0 <= i < 10 ==> ip[i] == 0) && ip[10] == 0xFF && ip[11] == 0xFF
  {
    if |ip| == 16 {
      assert forall i :: 0 <= i < 12 ==> ip[..12][i] == ip[i];
    }
  }

  /** A port is compared only when the mask asks for it. */
  predicate PortAccepted(network: SockAddr, netmask: SockAddr, address: SockAddr) {
    netmask.port == 0 || network.port == address.port
  }

  ghost predicate AddressAccepted(network: SockAddr, mask: Octets, address: SockAddr)
    requires Valid(network) && |mask| == |network.ip| && Valid(address)
  {
    if network.family == address.family then LoopAccepts(network.ip, mask, address.ip)
    else if network.family.Inet? then IsMapped(address.ip) && LoopAccepts(network.ip, mask, address.ip[12..])
    else IsMapped(network.ip) && LoopAccepts(network.ip[12..], mask[12..], address.ip)
  }

  ghost predicate Matches(network: SockAddr, netmask: SockAddr, address: SockAddr)
    requires Valid(network) && Valid(netmask) && Valid(address)
  {
    && network.family == netmask.family
    && PortAccepted(network, netmask, address)
    && AddressAccepted(network, netmask.ip, address)
  }

  method MatchSockaddr(network: SockAddr, netmask: SockAddr, address: SockAddr) returns (r: bool)
    requires Valid(network) && Valid(netmask) && Valid(address)
    ensures r <==> Matches(network, netmask, address)
  {
    hide LoopAccepts;
    if network.family != netmask.family {
      return false;
    }
    var networkAddr, netmaskAddr, addressAddr := network.ip, netmask.ip, address.ip;
    var addrLen := AddrLen(network.family);
    if network.family.Inet? && address.family.Inet6? && IsMapped(address.ip) {
      addressAddr := addressAddr[12..];
      addrLen := 4;
    } else if network.family.Inet6? && address.family.Inet? && IsMapped(network.ip) {
      networkAddr := networkAddr[12..];
      netmaskAddr := netmaskAddr[12..];
      addrLen := 4;
    } else if network.family != address.family {
      return false;
    }
    if netmask.port != 0 && network.port != address.port {
      return false;
    }
    r := CompareOctets(networkAddr, netmaskAddr, addressAddr, addrLen);
  }

  method CompareOctets(network: Octets, netmask: Octets, address: Octets, addrLen: nat) returns (r: bool)
    requires |network| == |netmask| == |address| == addrLen
    ensures r <==> LoopAccepts(network, netmask, address)
  {
    hide And;
    var j := 0;
    while j < addrLen && netmask[j] != 0
      invariant j <= addrLen && forall k :: 0 <= k < j ==> netmask[k] != 0
      invariant forall k :: 0 <= k < j ==> And(network[k], netmask[k]) == And(address[k], netmask[k])
    {
      if And(network[j], netmask[j]) != And(address[j], netmask[j]) {
        return false;
      }
      j := j + 1;
    }
    return true;
  }

  /** The netmask that acl_addr makes for a network: from a prefix length, and asking for the port when one was given. */
  function Netmask(network: SockAddr, m: nat, checkPort: bool): (netmask: SockAddr)
    requires Valid(network)
    ensures Valid(netmask)
  {
    SockAddr(network.family, MaskOf(m, AddrLen(network.family)), if checkPort then 1 else 0)
  }

  /** The first m bits of the network are those of the address, an IPv4 address also being its mapped IPv6 form. */
  ghost predicate InNetwork(network: SockAddr, m: nat, address: SockAddr)
    requires Valid(network) && Valid(address)
  {
    if network.family == address.family then SamePrefix(network.ip, address.ip, m)
    else if network.family.Inet? then IsMapped(address.ip) && SamePrefix(network.ip, address.ip[12..], m)
    else IsMapped(network.ip) && SamePrefix(network.ip, MAPPED + address.ip, m)
  }

  lemma PrefixBehindMapped(a: Octets, b: Octets, m: nat)
    requires IsMapped(a) && |b| == 4
    ensures SamePrefix(a, MAPPED + b, m) <==> SamePrefix(a[12..], b, if m > 96 then m - 96 else 0)
  {
    hide Bit;
    var c := MAPPED + b;
    forall i | 0 <= i < 12
      ensures a[i] == c[i]
    {
      assert a[i] == a[..12][i];
    }
    forall i, j | 12 <= i < 16 && 0 <= j < 8 && 8 * i + j < m
      ensures Bit(a[i], j) == Bit(a[12..][i - 12], j) && Bit(c[i], j) == Bit(b[i - 12], j)
    {
    }
    if SamePrefix(a, c, m) {
      forall i, j | 0 <= i < 4 && 0 <= j < 8 && 8 * i + j < m - 96
        ensures Bit(a[12..][i], j) == Bit(b[i], j)
      {
        assert Bit(a[12 + i], j) == Bit(c[12 + i], j);
      }
    }
  }

  /** A network given by a prefix length accepts exactly the addresses that have its prefix. */
  lemma MatchIsPrefix(network: SockAddr, m: nat, checkPort: bool, address: SockAddr)
    requires Valid(network) && Valid(address)
    ensures Matches(network, Netmask(network, m, checkPort), address) <==>
            (checkPort ==> network.port == address.port) && InNetwork(network, m, address)
  {
    hide LoopAccepts, SamePrefix, OctetMask;
    if network.family == address.family {
      LoopComparesPrefix(network.ip, address.ip, m);
    } else if network.family.Inet? {
      LoopComparesPrefix(network.ip, address.ip[12..], m);
    } else if IsMapped(network.ip) {
      var rest := if m > 96 then m - 96 else 0;
      assert MaskOf(m, 16)[12..] == MaskOf(rest, 4);
      LoopComparesPrefix(network.ip[12..], address.ip, rest);
      PrefixBehindMapped(network.ip, address.ip, m);
    }
  }

  // ----- block_acl -----

  datatype Entry = Entry(src: SockAddr, srcMask: SockAddr, dst: SockAddr, dstMask: SockAddr, wildcardDst: bool, permit: bool)

  /** The destination of a wildcard entry is undefined. */
  predicate ValidEntry(e: Entry) {
    Valid(e.src) && Valid(e.srcMask) && (!e.wildcardDst ==> Valid(e.dst) && Valid(e.dstMask))
  }

  ghost predicate Applies(e: Entry, dst: Option<SockAddr>, client: SockAddr)
    requires ValidEntry(e) && Valid(client) && (dst.Some? ==> Valid(dst.value))
  {
    && Matches(e.src, e.srcMask, client)
    && (dst.None? || e.wildcardDst || Matches(e.dst, e.dstMask, dst.value))
  }

  ghost predicate Request(dst: Option<SockAddr>, acl: seq<Entry>, client: SockAddr) {
    Valid(client) && (dst.Some? ==> Valid(dst.value)) && forall i :: 0 <= i < |acl| ==> ValidEntry(acl[i])
  }

  /** The first entry that applies decides; without a destination, any entry that permits does. */
  ghost predicate Permits(dst: Option<SockAddr>, acl: seq<Entry>, client: SockAddr)
    requires Request(dst, acl, client)
  {
    || |acl| == 0
    || exists i :: && 0 <= i < |acl| && acl[i].permit && Applies(acl[i], dst, client)
                   && (dst.Some? ==> forall j :: 0 <= j < i ==> !Applies(acl[j], dst, client))
  }

  /** An empty list stands for the null pointer, no access control. */
  method BlockAcl(dst: Option<SockAddr>, acl: seq<Entry>, client: SockAddr) returns (blocked: bool)
    requires Request(dst, acl, client)
    ensures blocked <==> !Permits(dst, acl, client)
  {
    hide Matches;
    if |acl| == 0 {
      return false;
    }
    var i := 0;
    while i < |acl|
      invariant 0 <= i <= |acl|
      invariant forall j :: 0 <= j < i ==> Applies(acl[j], dst, client) ==> dst.None? && !acl[j].permit
    {
      var e := acl[i];
      var fromSource := MatchSockaddr(e.src, e.srcMask, client);
      if fromSource {
        if dst.None? {
          if e.permit {
            assert Applies(acl[i], dst, client);
            return false;
          }
        } else {
          var toDestination := e.wildcardDst;
          if !toDestination {
            toDestination := MatchSockaddr(e.dst, e.dstMask, dst.value);
          }
          if toDestination {
            assert Applies(acl[i], dst, client);
            return !e.permit;
          }
        }
      }
      i := i + 1;
    }
    return true;
  }

  /** Who may reach some destination passes the check that names none. */
  lemma PermitImpliesAccess(dst: SockAddr, acl: seq<Entry>, client: SockAddr)
    requires Request(Some(dst), acl, client) && Permits(Some(dst), acl, client)
    ensures Permits(None, acl, client)
  {
    hide Matches;
    if |acl| > 0 {
      var i :| && 0 <= i < |acl| && acl[i].permit && Applies(acl[i], Some(dst), client)
               && forall j :: 0 <= j < i ==> !Applies(acl[j], Some(dst), client);
      assert Applies(acl[i], None, client);
    }
  }

  /** The opposite fails: behind an entry that denies everything, one that permits gives access to no destination. */
  lemma AccessWithoutDestination(deny: Entry, acl: seq<Entry>, dst: SockAddr, client: SockAddr)
    requires Request(Some(dst), acl, client) && ValidEntry(deny) && !deny.permit && deny.wildcardDst
    requires Matches(deny.src, deny.srcMask, client)
    requires |acl| > 0 && Permits(None, acl, client)
    ensures Request(Some(dst), [deny] + acl, client)
    ensures Permits(None, [deny] + acl, client) && !Permits(Some(dst), [deny] + acl, client)
  {
    hide Matches;
    var all := [deny] + acl;
    var i :| 0 <= i < |acl| && acl[i].permit && Applies(acl[i], None, client);
    assert all[i + 1] == acl[i] && Applies(all[i + 1], None, client);
    assert Applies(all[0], Some(dst), client);
  }
}
