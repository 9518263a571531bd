/**
 The check of block_acl that names no destination (src/proxy/filters.cpp) lets a client in that some entry permits. When
 is there a destination the client may then reach? Adjoining entries differ in what they cover bit by bit, so a handful
 of destinations near the networks of the list decides.
 */
module Access {
  import opened Wrappers
  import opened Acl

  /** Some destination is permitted to the client. */
  ghost predicate Reaches(acl: seq<Entry>, client: SockAddr) {
    exists dst: SockAddr :: Request(Some(dst), acl, client) && Permits(Some(dst), acl, client)
  }

  // ----- The first entry for the client -----

  ghost predicate IsFirst(acl: seq<Entry>, client: SockAddr, i: nat)
    requires Request(None, acl, client)
  {
    && i < |acl| && Matches(acl[i].src, acl[i].srcMask, client)
    && forall j :: 0 <= j < i ==> !Matches(acl[j].src, acl[j].srcMask, client)
  }

  /** The first entry whose source matches the client permits. */
  ghost predicate FirstMatchPermits(acl: seq<Entry>, client: SockAddr)
    requires Request(None, acl, client)
  {
    exists i: nat :: IsFirst(acl, client, i) && acl[i].permit
  }

  lemma {:induction false} FirstMatch(acl: seq<Entry>, client: SockAddr, n: nat) returns (i: nat)
    requires Request(None, acl, client) && n < |acl| && Matches(acl[n].src, acl[n].srcMask, client)
    ensures i <= n && IsFirst(acl, client, i)
  {
    hide Matches;
    if j: nat :| j < n && Matches(acl[j].src, acl[j].srcMask, client) {
      i := FirstMatch(acl, client, j);
    } else {
      i := n;
    }
  }

  /** When no entry restricts the destination, somebody reaches something exactly if the first entry for him permits. */
  lemma WildcardAccess(acl: seq<Entry>, client: SockAddr)
    requires Request(None, acl, client) && |acl| > 0
    requires forall i :: 0 <= i < |acl| ==> acl[i].wildcardDst
    ensures Reaches(acl, client) <==> FirstMatchPermits(acl, client)
  {
    hide Matches;
    if FirstMatchPermits(acl, client) {
      var i: nat :| IsFirst(acl, client, i) && acl[i].permit;
      assert Applies(acl[i], Some(client), client);
      assert Permits(Some(client), acl, client);
    }
    if Reaches(acl, client) {
      var dst :| Request(Some(dst), acl, client) && Permits(Some(dst), acl, client);
      var i: nat :| && i < |acl| && acl[i].permit && Applies(acl[i], Some(dst), client)
                    && forall j :: 0 <= j < i ==> !Applies(acl[j], Some(dst), client);
      assert IsFirst(acl, client, i);
    }
  }

  lemma NetworkHasItself(network: SockAddr, netmask: SockAddr)
    requires Valid(network) && Valid(netmask) && network.family == netmask.family
    ensures Matches(network, netmask, network)
  {
  }

  /** With restricted destinations, a permitting first entry gives access to its own network. */
  lemma FirstPermitReaches(acl: seq<Entry>, client: SockAddr)
    requires Request(None, acl, client) && FirstMatchPermits(acl, client)
    requires forall i :: 0 <= i < |acl| && !acl[i].wildcardDst ==> acl[i].dst.family == acl[i].dstMask.family
    ensures Reaches(acl, client)
  {
    hide Matches;
    var i: nat :| IsFirst(acl, client, i) && acl[i].permit;
    var dst := if acl[i].wildcardDst then client else acl[i].dst;
    if !acl[i].wildcardDst {
      NetworkHasItself(acl[i].dst, acl[i].dstMask);
    }
    assert Applies(acl[i], Some(dst), client);
    assert Request(Some(dst), acl, client) && Permits(Some(dst), acl, client);
  }

  // ----- Networks that differ in one bit -----

  /** The address with bit p, counted from the most significant, turned over. */
  function Flip(a: Octets, p: nat): (r: Octets)
    requires p < 8 * |a|
    ensures |r| == |a|
  {
    a[p / 8 := a[p / 8] ^ Weight(p % 8)]
  }

  lemma FlippedBit(x: bv8, j: nat, b: nat)
    requires j < 8 && b < 8
    ensures Bit(x ^ Weight(j), b) == (Bit(x, b) != (j == b))
  {
    XorPart(x, Weight(j), Weight(b));
    WeightsApart(j, b);
    AllOrNothing(x, b);
    hide Weight;
  }

  lemma XorPart(x: bv8, w: bv8, v: bv8)
    ensures (x ^ w) & v == (x & v) ^ (w & v)
  {
  }

  lemma WeightsApart(j: nat, b: nat)
    requires j < 8 && b < 8
    ensures Weight(j) & Weight(b) == (if j == b then Weight(b) else 0) && Weight(b) != 0
  {
  }

  lemma AllOrNothing(x: bv8, b: nat)
    requires b < 8
    ensures x & Weight(b) == 0 || x & Weight(b) == Weight(b)
  {
  }

  ghost predicate Differ(a: Octets, b: Octets, p: nat)
    requires |a| == |b|
  {
    p < 8 * |a| && Bit(a[p / 8], p % 8) != Bit(b[p / 8], p % 8)
  }

  lemma Splits(i: nat, j: nat)
    requires j < 8
    ensures (8 * i + j) / 8 == i && (8 * i + j) % 8 == j
  {
  }

  lemma {:induction false} FirstDifference(n: Octets, d: Octets, m: nat) returns (p: nat)
    requires |n| == |d| && !SamePrefix(n, d, m)
    ensures p < m && Differ(n, d, p) && SamePrefix(n, d, p)
  {
    hide Bit;
    if SamePrefix(n, d, m - 1) {
      var i, j :| 0 <= i < |n| && 0 <= j < 8 && 8 * i + j < m && Bit(n[i], j) != Bit(d[i], j);
      Splits(i, j);
      p := m - 1;
    } else {
      p := FirstDifference(n, d, m - 1);
    }
  }

  lemma FlipAgrees(n: Octets, d: Octets, p: nat)
    requires |n| == |d| && Differ(n, d, p) && SamePrefix(n, d, p)
    ensures SamePrefix(Flip(n, p), d, p + 1)
  {
    hide Bit, Weight;
    forall i, j | 0 <= i < |n| && 0 <= j < 8 && 8 * i + j < p + 1
      ensures Bit(Flip(n, p)[i], j) == Bit(d[i], j)
    {
      Splits(i, j);
      FlippedBit(n[i], p % 8, j);
    }
  }

  /** What agrees with d on more than p bits differs, like d, from n. */
  lemma StillDiffers(n: Octets, d: Octets, p: nat, x: Octets, m: nat)
    requires |n| == |d| == |x| && Differ(n, d, p) && SamePrefix(x, d, p + 1) && p < m
    ensures !SamePrefix(n, x, m)
  {
    hide Bit;
    var i, j := p / 8, p % 8;
    assert 8 * i + j == p;
    assert Bit(x[i], j) == Bit(d[i], j) != Bit(n[i], j);
  }

  // ----- Destinations that decide -----

  /** The address of a network among those of a family, if it has any there. */
  function NetworkIn(network: SockAddr, f: Family): (ip: Option<Octets>)
    requires Valid(network)
    ensures ip.Some? ==> |ip.value| == AddrLen(f)
  {
    if network.family == f then Some(network.ip)
    else if f.Inet6? then Some(MAPPED + network.ip)
    else if IsMapped(network.ip) then Some(network.ip[12..])
    else None
  }

  /** A destination as acl_addr reads it: any, or a network with a prefix length, and perhaps a port. */
  ghost predicate FromPrefix(e: Entry) {
    e.wildcardDst || (Valid(e.dst) && exists m: nat, c: bool :: e.dstMask == Netmask(e.dst, m, c))
  }

  /** An IPv4 network among the mapped addresses: its prefix and the 96 bits before it. */
  lemma MappedNetwork(n: Octets, x: Octets, m: nat)
    requires |n| == 4 && |x| == 16 && m <= 32
    ensures SamePrefix(MAPPED + n, x, 96 + m) <==> IsMapped(x) && SamePrefix(n, x[12..], m)
  {
    hide Bit;
    var a := MAPPED + n;
    if SamePrefix(a, x, 96 + m) {
      forall i | 0 <= i < 12
        ensures x[i] == MAPPED[i]
      {
        assert forall j :: 0 <= j < 8 ==> Bit(a[i], j) == Bit(x[i], j);
        SameBits(a[i], x[i]);
      }
      assert x[..12] == MAPPED;
      forall i, j | 0 <= i < 4 && 0 <= j < 8 && 8 * i + j < m
        ensures Bit(n[i], j) == Bit(x[12..][i], j)
      {
        assert Bit(a[12 + i], j) == Bit(x[12 + i], j);
      }
    }
    if IsMapped(x) && SamePrefix(n, x[12..], m) {
      forall i, j | 0 <= i < 16 && 0 <= j < 8 && 8 * i + j < 96 + m
        ensures Bit(a[i], j) == Bit(x[i], j)
      {
        if i < 12 {
          assert x[i] == x[..12][i];
        } else {
          assert Bit(n[i - 12], j) == Bit(x[12..][i - 12], j);
        }
      }
    }
  }

  lemma SameBits(a: bv8, b: bv8)
    requires forall j :: 0 <= j < 8 ==> Bit(a, j) == Bit(b, j)
    ensures a == b
  {
    assert Bit(a, 0) == Bit(b, 0) && Bit(a, 1) == Bit(b, 1) && Bit(a, 2) == Bit(b, 2) && Bit(a, 3) == Bit(b, 3);
    assert Bit(a, 4) == Bit(b, 4) && Bit(a, 5) == Bit(b, 5) && Bit(a, 6) == Bit(b, 6) && Bit(a, 7) == Bit(b, 7);
  }

  lemma NoMoreThanAll(a: Octets, b: Octets, m: nat)
    requires |a| == |b| == 4 && m > 32
    ensures SamePrefix(a, b, m) <==> SamePrefix(a, b, 32)
  {
    hide Bit;
  }

  /** In one family a network is a prefix, whatever family it was given in. */
  lemma NetworkIsPrefix(network: SockAddr, m: nat, f: Family) returns (k: nat)
    requires Valid(network)
    ensures forall x: SockAddr :: Valid(x) && x.family == f ==>
              (InNetwork(network, m, x) <==>
               NetworkIn(network, f).Some? && SamePrefix(NetworkIn(network, f).value, x.ip, k))
  {
    hide SamePrefix;
    var short := if m > 32 then 32 else m;
    k := if network.family == f then m else if f.Inet6? then 96 + short else if m > 96 then m - 96 else 0;
    forall x: SockAddr | Valid(x) && x.family == f
      ensures InNetwork(network, m, x) <==>
              NetworkIn(network, f).Some? && SamePrefix(NetworkIn(network, f).value, x.ip, k)
    {
      if network.family == f {
      } else if f.Inet6? {
        if m > 32 {
          NoMoreThanAll(network.ip, x.ip[12..], m);
        }
        MappedNetwork(network.ip, x.ip, short);
      } else if IsMapped(network.ip) {
        PrefixBehindMapped(network.ip, x.ip, m);
      }
    }
  }

  function At(d: SockAddr, ip: Octets): (r: SockAddr) {
    d.(ip := ip)
  }

  /** All destinations that agree with d on more than its first p bits fare like d at this entry. */
  ghost predicate LikeAt(e: Entry, d: SockAddr, p: nat, client: SockAddr)
    requires ValidEntry(e) && Valid(d) && Valid(client)
  {
    forall x: Octets :: |x| == |d.ip| && SamePrefix(x, d.ip, p) ==>
      (Applies(e, Some(At(d, x)), client) <==> Applies(e, Some(d), client))
  }

  /** A destination next to a network of the list: its address, or that with one bit turned over. */
  predicate NextTo(ip: Octets, e: Entry, f: Family)
    requires ValidEntry(e)
  {
    && !e.wildcardDst && NetworkIn(e.dst, f).Some?
    && var n := NetworkIn(e.dst, f).value;
       ip == n || exists p: nat :: p < 8 * |n| && ip == Flip(n, p)
  }

  /** The candidates: the address that is all zero, and those next to a network. There are at most 1 + 129 for each entry. */
  predicate IsCandidate(ip: Octets, acl: seq<Entry>, f: Family)
    requires forall i :: 0 <= i < |acl| ==> ValidEntry(acl[i])
  {
    ip == seq(AddrLen(f), i => 0) || exists i: nat :: i < |acl| && NextTo(ip, acl[i], f)
  }

  ghost predicate OneIsPermitted(acl: seq<Entry>, client: SockAddr)
    requires Request(None, acl, client)
  {
    exists ip: Octets, f: Family, port: Port ::
      IsCandidate(ip, acl, f) && Request(Some(SockAddr(f, ip, port)), acl, client)
      && Permits(Some(SockAddr(f, ip, port)), acl, client)
  }

  lemma PrefixThrough(a: Octets, b: Octets, c: Octets, m: nat)
    requires |a| == |b| == |c| && SamePrefix(b, c, m)
    ensures SamePrefix(a, b, m) <==> SamePrefix(a, c, m)
  {
    hide Bit;
  }

  /** Where an entry's destination is a prefix, for the family and the port of d. */
  lemma EntryIsPrefix(e: Entry, d: SockAddr, client: SockAddr) returns (k: nat)
    requires ValidEntry(e) && FromPrefix(e) && !e.wildcardDst && Valid(d) && Valid(client)
    ensures forall x: Octets :: |x| == |d.ip| ==>
              (Applies(e, Some(At(d, x)), client) <==>
               && Matches(e.src, e.srcMask, client) && PortAccepted(e.dst, e.dstMask, d)
               && NetworkIn(e.dst, d.family).Some? && SamePrefix(NetworkIn(e.dst, d.family).value, x, k))
  {
    hide Matches, InNetwork, SamePrefix, NetworkIn, MaskOf;
    var m: nat, c: bool :| e.dstMask == Netmask(e.dst, m, c);
    k := NetworkIsPrefix(e.dst, m, d.family);
    forall x: Octets | |x| == |d.ip|
      ensures Matches(e.dst, e.dstMask, At(d, x)) <==>
              && PortAccepted(e.dst, e.dstMask, d)
              && NetworkIn(e.dst, d.family).Some? && SamePrefix(NetworkIn(e.dst, d.family).value, x, k)
    {
      MatchIsPrefix(e.dst, m, c, At(d, x));
      assert Valid(At(d, x));
    }
  }

  /** One entry tells the destinations that agree with d on p bits apart from no other, with a candidate among them. */
  lemma OneEntry(e: Entry, d: SockAddr, client: SockAddr) returns (c: Octets, p: nat)
    requires ValidEntry(e) && FromPrefix(e) && Valid(d) && Valid(client)
    ensures LikeAt(e, d, p, client)
    ensures |c| == |d.ip| && SamePrefix(c, d.ip, p) && (p > 0 ==> NextTo(c, e, d.family))
  {
    hide Matches, SamePrefix, Flip, NetworkIn;
    c, p := d.ip, 0;
    PrefixOfItself(c);
    if !e.wildcardDst {
      var k := EntryIsPrefix(e, d, client);
      assert At(d, d.ip) == d;
      var n := NetworkIn(e.dst, d.family);
      if Matches(e.src, e.srcMask, client) && PortAccepted(e.dst, e.dstMask, d) && n.Some? {
        if SamePrefix(n.value, d.ip, k) {
          c, p := n.value, k;
          forall x: Octets | |x| == |d.ip| && SamePrefix(x, d.ip, p)
            ensures SamePrefix(n.value, x, k)
          {
            PrefixThrough(n.value, x, d.ip, k);
          }
        } else {
          var q := FirstDifference(n.value, d.ip, k);
          FlipAgrees(n.value, d.ip, q);
          c, p := Flip(n.value, q), q + 1;
          forall x: Octets | |x| == |d.ip| && SamePrefix(x, d.ip, p)
            ensures !SamePrefix(n.value, x, k)
          {
            StillDiffers(n.value, d.ip, q, x, k);
          }
        }
      }
    }
  }

  lemma PrefixOfItself(a: Octets)
    ensures SamePrefix(a, a, 0)
  {
  }

  lemma FewerBits(a: Octets, b: Octets, m: nat, k: nat)
    requires |a| == |b| && SamePrefix(a, b, m) && k <= m
    ensures SamePrefix(a, b, k)
  {
    hide Bit;
  }

  lemma LikeLonger(e: Entry, d: SockAddr, p: nat, q: nat, client: SockAddr)
    requires ValidEntry(e) && Valid(d) && Valid(client) && LikeAt(e, d, p, client) && p <= q
    ensures LikeAt(e, d, q, client)
  {
    hide Applies, SamePrefix;
    forall x: Octets | |x| == |d.ip| && SamePrefix(x, d.ip, q)
      ensures Applies(e, Some(At(d, x)), client) <==> Applies(e, Some(d), client)
    {
      FewerBits(x, d.ip, q, p);
    }
  }

  /** A candidate that fares like d at the first n entries. */
  lemma {:induction false} SomeCandidate(acl: seq<Entry>, client: SockAddr, d: SockAddr, n: nat) returns (c: Octets, p: nat)
    requires Request(Some(d), acl, client) && n <= |acl| && forall i :: 0 <= i < |acl| ==> FromPrefix(acl[i])
    ensures |c| == |d.ip| && SamePrefix(c, d.ip, p) && IsCandidate(c, acl, d.family)
    ensures forall i :: 0 <= i < n ==> LikeAt(acl[i], d, p, client)
  {
    hide SamePrefix, LikeAt, NextTo;
    if n == 0 {
      c, p := seq(AddrLen(d.family), i => 0), 0;
      NoPrefix(c, d.ip);
    } else {
      c, p := SomeCandidate(acl, client, d, n - 1);
      var c', p' := OneEntry(acl[n - 1], d, client);
      var longest := if p' > p then p' else p;
      LikeLonger(acl[n - 1], d, p', longest, client);
      forall i | 0 <= i < n - 1
        ensures LikeAt(acl[i], d, longest, client)
      {
        LikeLonger(acl[i], d, p, longest, client);
      }
      if p' > p {
        c, p := c', p';
      }
    }
  }

  lemma NoPrefix(a: Octets, b: Octets)
    requires |a| == |b|
    ensures SamePrefix(a, b, 0)
  {
  }

  /**
   The client reaches something exactly if one of the candidates is permitted to him, on some port. So the check without
   a destination is to be trusted for a client exactly if it refuses him or one of the candidates is permitted.
   */
  lemma AccessByCandidates(acl: seq<Entry>, client: SockAddr)
    requires Request(None, acl, client) && forall i :: 0 <= i < |acl| ==> FromPrefix(acl[i])
    ensures Reaches(acl, client) <==> OneIsPermitted(acl, client)
    ensures (Permits(None, acl, client) <==> Reaches(acl, client)) <==>
            (Permits(None, acl, client) ==> OneIsPermitted(acl, client))
  {
    hide Matches, FromPrefix;
    if OneIsPermitted(acl, client) {
      var ip: Octets, f: Family, port: Port :|
        IsCandidate(ip, acl, f) && Request(Some(SockAddr(f, ip, port)), acl, client)
        && Permits(Some(SockAddr(f, ip, port)), acl, client);
      assert Reaches(acl, client);
    }
    if Reaches(acl, client) {
      var d :| Request(Some(d), acl, client) && Permits(Some(d), acl, client);
      PermitImpliesAccess(d, acl, client);
      var c := CandidatePermitted(acl, client, d);
    }
  }

  lemma CandidatePermitted(acl: seq<Entry>, client: SockAddr, d: SockAddr) returns (c: Octets)
    requires Request(Some(d), acl, client) && Permits(Some(d), acl, client)
    requires forall i :: 0 <= i < |acl| ==> FromPrefix(acl[i])
    ensures IsCandidate(c, acl, d.family) && Request(Some(SockAddr(d.family, c, d.port)), acl, client)
    ensures Permits(Some(SockAddr(d.family, c, d.port)), acl, client)
  {
    var p;
    c, p := SomeCandidate(acl, client, d, |acl|);
    hide Applies, SamePrefix, IsCandidate, FromPrefix;
    assert At(d, c) == SockAddr(d.family, c, d.port);
    assert forall i :: 0 <= i < |acl| ==> (Applies(acl[i], Some(At(d, c)), client) <==> Applies(acl[i], Some(d), client));
  }

  // ----- A list where the check misleads -----

  const ANYWHERE: SockAddr := SockAddr(Inet, [0, 0, 0, 0], 0)
  const DENY_ALL: Entry := Entry(ANYWHERE, ANYWHERE, ANYWHERE, ANYWHERE, true, false)
  const PERMIT_ALL: Entry := Entry(ANYWHERE, ANYWHERE, ANYWHERE, ANYWHERE, true, true)

  /** Everything is denied and then permitted: every IPv4 client passes the check, and reaches nothing. */
  lemma CheckMisleads(client: SockAddr)
    requires Valid(client) && client.family.Inet?
    ensures Request(None, [DENY_ALL, PERMIT_ALL], client) && Permits(None, [DENY_ALL, PERMIT_ALL], client)
    ensures !Reaches([DENY_ALL, PERMIT_ALL], client)
  {
    var acl := [DENY_ALL, PERMIT_ALL];
    assert LoopAccepts(ANYWHERE.ip, ANYWHERE.ip, client.ip);
    assert Matches(ANYWHERE, ANYWHERE, client);
    hide Matches;
    assert Applies(acl[1], None, client);
    assert IsFirst(acl, client, 0);
    WildcardAccess(acl, client);
  }

  /** A permitting entry for one network in front of the denial: that network is reached. */
  lemma NetworkReached(client: SockAddr, network: SockAddr, m: nat)
    requires Valid(client) && client.family.Inet? && Valid(network)
    ensures Reaches([Entry(ANYWHERE, ANYWHERE, network, Netmask(network, m, false), false, true), DENY_ALL], client)
  {
    var acl := [Entry(ANYWHERE, ANYWHERE, network, Netmask(network, m, false), false, true), DENY_ALL];
    assert LoopAccepts(ANYWHERE.ip, ANYWHERE.ip, client.ip);
    assert Matches(ANYWHERE, ANYWHERE, client);
    assert acl[0].dst.family == acl[0].dstMask.family;
    hide Matches, MaskOf;
    assert IsFirst(acl, client, 0) && acl[0].permit;
    FirstPermitReaches(acl, client);
  }
}
