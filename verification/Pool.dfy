/**
 The pool of reusable server connections (src/proxy/gateway.cpp): a fixed array of slots. Each method is one section that
 runs under the lock; its effect is a function of the slots.
 */
module Pool {
  import opened Wrappers
  import CText

  const MAX_REUSABLE_CONNECTIONS: nat := 100
  const INVALID_SOCKET: int := -1

  datatype Forwarder = SocksNone | Socks4 | Socks4A | Socks5

  /** An http_request's host and port, and a forward_spec: what a connection was made for. */
  datatype Destination = Destination(host: string, port: int, forwarder: Forwarder,
                                     gatewayHost: Option<string>, gatewayPort: int,
                                     forwardHost: Option<string>, forwardPort: int)

  /** A reusable_connection. */
  datatype Connection = Connection(sfd: int, inUse: bool, timestamp: int, requestSent: int, responseReceived: int,
                                   keepAliveTimeout: nat,
                                   host: Option<string>, port: int, forwarder: Forwarder,
                                   gatewayHost: Option<string>, gatewayPort: int,
                                   forwardHost: Option<string>, forwardPort: int)

  const CLOSED: Connection :=
    Connection(INVALID_SOCKET, false, 0, 0, 0, 0, None, 0, SocksNone, None, 0, None, 0)

  type Slots = seq<Connection>

  predicate Occupied(c: Connection) {
    c.sfd != INVALID_SOCKET
  }

  predicate Idle(c: Connection) {
    Occupied(c) && !c.inUse
  }

  /** What the asserts of remember_connection expect of a free slot; the latency fields do not matter. */
  predicate Clean(c: Connection) {
    && !c.inUse
    && c.gatewayHost == None && c.gatewayPort == 0 && c.forwarder == SocksNone
    && c.forwardHost == None && c.forwardPort == 0
  }

  predicate FreeAreClean(slots: Slots) {
    forall i :: 0 <= i < |slots| && !Occupied(slots[i]) ==> Clean(slots[i])
  }

  predicate SocketsDistinct(slots: Slots) {
    forall i, j :: 0 <= i < j < |slots| && Occupied(slots[i]) ==> slots[i].sfd != slots[j].sfd
  }

  // ----- Matching destinations -----

  /** strcmpic(a, b) == 0 */
  predicate SameText(a: string, b: string) {
    |a| == |b| && forall i :: 0 <= i < |a| ==> CText.ToLower(a[i]) == CText.ToLower(b[i])
  }

  /** Both hosts are given and differ. */
  predicate HostsClash(a: Option<string>, b: Option<string>) {
    a.Some? && b.Some? && !SameText(a.value, b.value)
  }

  /** connection_destination_matches, for a connection whose host is known. */
  predicate DestinationMatches(c: Connection, d: Destination)
    requires c.host.Some?
  {
    && c.forwarder == d.forwarder && c.gatewayPort == d.gatewayPort && c.forwardPort == d.forwardPort
    && c.port == d.port
    && !HostsClash(c.gatewayHost, d.gatewayHost)
    && !HostsClash(c.forwardHost, d.forwardHost)
    && SameText(c.host.value, d.host)
  }

  /** Texts of one length whose characters are equal, or a capital letter against its small one, at every position. */
  lemma SameTextMeans(a: string, b: string)
    ensures SameText(a, b) <==>
            && |a| == |b|
            && forall i :: 0 <= i < |a| ==>
                 || a[i] == b[i]
                 || ('A' <= a[i] <= 'Z' && b[i] as int == a[i] as int + 32)
                 || ('A' <= b[i] <= 'Z' && a[i] as int == b[i] as int + 32)
  {
    forall i | 0 <= i < |a| && i < |b|
      ensures CText.ToLower(a[i]) == CText.ToLower(b[i]) <==>
              || a[i] == b[i]
              || ('A' <= a[i] <= 'Z' && b[i] as int == a[i] as int + 32)
              || ('A' <= b[i] <= 'Z' && a[i] as int == b[i] as int + 32)
    {
      CText.LowerAlike(a[i], b[i]);
    }
  }

  /** Hosts to go through clash when both are given and differ other than in case. */
  lemma HostsClashMeans(a: Option<string>, b: Option<string>)
    ensures HostsClash(a, b) <==>
            && a.Some? && b.Some?
            && (|a.value| != |b.value|
                || exists i :: && 0 <= i < |a.value|
                               && a.value[i] != b.value[i]
                               && !('A' <= a.value[i] <= 'Z' && b.value[i] as int == a.value[i] as int + 32)
                               && !('A' <= b.value[i] <= 'Z' && a.value[i] as int == b.value[i] as int + 32))
  {
    if a.Some? && b.Some? {
      SameTextMeans(a.value, b.value);
    }
  }

  /** What a matching connection and the request for it have in common. */
  lemma MatchMeans(c: Connection, d: Destination)
    requires c.host.Some? && DestinationMatches(c, d)
    ensures c.port == d.port && c.forwarder == d.forwarder
    ensures c.gatewayPort == d.gatewayPort && c.forwardPort == d.forwardPort
    ensures |c.host.value| == |d.host|
    ensures forall i :: 0 <= i < |d.host| ==>
              || c.host.value[i] == d.host[i]
              || ('A' <= c.host.value[i] <= 'Z' && d.host[i] as int == c.host.value[i] as int + 32)
              || ('A' <= d.host[i] <= 'Z' && c.host.value[i] as int == d.host[i] as int + 32)
    ensures c.gatewayHost.Some? && d.gatewayHost.Some? ==> |c.gatewayHost.value| == |d.gatewayHost.value|
    ensures c.forwardHost.Some? && d.forwardHost.Some? ==> |c.forwardHost.value| == |d.forwardHost.value|
  {
    SameTextMeans(c.host.value, d.host);
  }

  /** An idle connection with such a host, the same ports and the same kind of forwarder is offered, unless the two name
      different hosts to go through. */
  lemma SuchIsOffered(c: Connection, d: Destination)
    requires !c.inUse && c.sfd != -1 && c.host.Some?
    requires c.port == d.port && c.forwarder == d.forwarder
    requires c.gatewayPort == d.gatewayPort && c.forwardPort == d.forwardPort
    requires c.gatewayHost.None? || d.gatewayHost.None? || c.gatewayHost == d.gatewayHost
    requires c.forwardHost.None? || d.forwardHost.None? || c.forwardHost == d.forwardHost
    requires |c.host.value| == |d.host|
    requires forall i :: 0 <= i < |d.host| ==>
               || c.host.value[i] == d.host[i]
               || ('A' <= c.host.value[i] <= 'Z' && d.host[i] as int == c.host.value[i] as int + 32)
               || ('A' <= d.host[i] <= 'Z' && c.host.value[i] as int == d.host[i] as int + 32)
    ensures Offers(c, d)
  {
    SameTextMeans(c.host.value, d.host);
  }

  // ----- The sections as functions of the slots -----

  /** The first slot with the socket, or the number of slots. */
  function FindSocket(slots: Slots, sfd: int): (i: nat)
    ensures i <= |slots|
    ensures i < |slots| ==> slots[i].sfd == sfd
    ensures forall j :: 0 <= j < i ==> slots[j].sfd != sfd
  {
    if |slots| == 0 || slots[0].sfd == sfd then 0
    else
      var i := 1 + FindSocket(slots[1..], sfd);
      assert forall j :: 0 < j < i ==> slots[j] == slots[1..][j - 1];
      i
  }

  function Released(slots: Slots, sfd: int, timestamp: int): (r: Slots)
    ensures |r| == |slots|
  {
    var i := FindSocket(slots, sfd);
    if i < |slots| then slots[i := slots[i].(inUse := false, timestamp := timestamp)] else slots
  }

  function Forgotten(slots: Slots, sfd: int): (r: Slots)
    ensures |r| == |slots|
  {
    var i := FindSocket(slots, sfd);
    if i < |slots| then slots[i := CLOSED] else slots
  }

  /** What a client knows about the socket it stores. */
  datatype Timing = Timing(timestamp: int, requestSent: int, responseReceived: int, keepAliveTimeout: nat)

  function Described(sfd: int, t: Timing, d: Destination, was: Connection): (c: Connection) {
    Connection(sfd, false, t.timestamp, was.requestSent, was.responseReceived, t.keepAliveTimeout,
               Some(d.host), d.port, d.forwarder, d.gatewayHost, d.gatewayPort, d.forwardHost, d.forwardPort)
  }

  /** The latency fields land in slot 0, whichever slot was found. */
  function Stored(slots: Slots, sfd: int, t: Timing, d: Destination): (r: Slots)
    ensures |r| == |slots|
  {
    var i := FindSocket(slots, INVALID_SOCKET);
    if i < |slots| then
      var filled := slots[i := Described(sfd, t, d, slots[i])];
      filled[0 := filled[0].(requestSent := t.requestSent, responseReceived := t.responseReceived)]
    else slots
  }

  /** Idle connections that are dead are dropped. */
  function Swept(slots: Slots, dead: nat -> bool): (r: Slots)
    ensures |r| == |slots|
    ensures forall i :: 0 <= i < |slots| ==> r[i] == if Idle(slots[i]) && dead(i) then CLOSED else slots[i]
  {
    seq(|slots|, i requires 0 <= i < |slots| => if Idle(slots[i]) && dead(i) then CLOSED else slots[i])
  }

  predicate Offers(c: Connection, d: Destination) {
    Idle(c) && c.host.Some? && DestinationMatches(c, d)
  }

  /** The first idle slot that matches, or the number of slots. */
  function FindMatch(slots: Slots, d: Destination): (i: nat)
    ensures i <= |slots|
    ensures i < |slots| ==> Offers(slots[i], d)
    ensures forall j :: 0 <= j < i ==> !Offers(slots[j], d)
  {
    if |slots| == 0 || Offers(slots[0], d) then 0
    else
      var i := 1 + FindMatch(slots[1..], d);
      assert forall j :: 0 < j < i ==> slots[j] == slots[1..][j - 1];
      i
  }

  function Claimed(slots: Slots, d: Destination): (r: Slots)
    ensures |r| == |slots|
  {
    var i := FindMatch(slots, d);
    if i < |slots| then slots[i := slots[i].(inUse := true)] else slots
  }

  /** Slot i is the first that has the socket. */
  ghost predicate FirstWith(slots: Slots, sfd: int, i: nat) {
    i < |slots| && slots[i].sfd == sfd && forall j :: 0 <= j < i ==> slots[j].sfd != sfd
  }

  /** Releasing makes the first slot with the socket idle and dates it anew, forgetting closes it; the others stay. */
  lemma ReleaseAndForgetMean(slots: Slots, sfd: int, timestamp: int)
    ensures forall i: nat :: FirstWith(slots, sfd, i) ==>
              && Released(slots, sfd, timestamp) == slots[i := slots[i].(inUse := false, timestamp := timestamp)]
              && Forgotten(slots, sfd) == slots[i := Connection(-1, false, 0, 0, 0, 0, None, 0, SocksNone, None, 0, None, 0)]
    ensures (forall i :: 0 <= i < |slots| ==> slots[i].sfd != sfd) ==>
              Released(slots, sfd, timestamp) == slots && Forgotten(slots, sfd) == slots
  {
    forall i: nat | FirstWith(slots, sfd, i)
      ensures FindSocket(slots, sfd) == i
    {
      FoundAt(slots, sfd, i);
    }
  }

  /** Storing describes the connection in the first free slot, but for the latency, which goes to slot 0. */
  lemma StoreMeans(slots: Slots, sfd: int, t: Timing, d: Destination)
    ensures forall i: nat :: FirstWith(slots, -1, i) ==>
              var r := Stored(slots, sfd, t, d);
              && r[i].sfd == sfd && !r[i].inUse && r[i].timestamp == t.timestamp
              && r[i].keepAliveTimeout == t.keepAliveTimeout && r[i].host == Some(d.host) && r[i].port == d.port
              && r[i].forwarder == d.forwarder && r[i].gatewayHost == d.gatewayHost && r[i].gatewayPort == d.gatewayPort
              && r[i].forwardHost == d.forwardHost && r[i].forwardPort == d.forwardPort
              && r[0].requestSent == t.requestSent && r[0].responseReceived == t.responseReceived
              && (i > 0 ==> r[i].requestSent == slots[i].requestSent && r[i].responseReceived == slots[i].responseReceived)
              && (i > 0 ==> r[0] == slots[0].(requestSent := t.requestSent, responseReceived := t.responseReceived))
              && forall j :: 0 < j < |slots| && j != i ==> r[j] == slots[j]
    ensures (forall i :: 0 <= i < |slots| ==> slots[i].sfd != -1) ==> Stored(slots, sfd, t, d) == slots
  {
    forall i: nat | FirstWith(slots, -1, i)
      ensures FindSocket(slots, -1) == i
    {
      FoundAt(slots, -1, i);
    }
  }

  // ----- The sections as code -----

  class Gateway {
    const connections: array<Connection>

    constructor ()
      ensures fresh(connections) && connections.Length == MAX_REUSABLE_CONNECTIONS
    {
      connections := new Connection[MAX_REUSABLE_CONNECTIONS];
    }

    method MarkConnectionClosed(slot: nat)
      requires slot < connections.Length
      modifies connections
      ensures connections[..] == old(connections[..])[slot := CLOSED]
    {
      connections[slot] := CLOSED;
    }

    method InitializeReusableConnections()
      modifies connections
      ensures forall i :: 0 <= i < connections.Length ==> connections[i] == CLOSED
      ensures FreeAreClean(connections[..]) && SocketsDistinct(connections[..])
    {
      for slot := 0 to connections.Length
        invariant forall i :: 0 <= i < slot ==> connections[i] == CLOSED
      {
        MarkConnectionClosed(slot);
      }
    }

    /** The section of mark_connection_unused; its assert holds when no idle slot has the socket. */
    method MarkConnectionUnused(sfd: int, timestamp: int) returns (found: bool)
      requires sfd != INVALID_SOCKET
      requires forall i :: 0 <= i < connections.Length && connections[i].sfd == sfd ==> connections[i].inUse
      modifies connections
      ensures connections[..] == Released(old(connections[..]), sfd, timestamp)
      ensures found <==> FindSocket(old(connections[..]), sfd) < connections.Length
    {
      var slot := 0;
      while slot < connections.Length
        invariant 0 <= slot <= connections.Length && connections[..] == old(connections[..])
        invariant forall j :: 0 <= j < slot ==> connections[j].sfd != sfd
      {
        if connections[slot].sfd == sfd {
          assert connections[slot].inUse;
          FoundAt(connections[..], sfd, slot);
          connections[slot] := connections[slot].(inUse := false, timestamp := timestamp);
          return true;
        }
        slot := slot + 1;
      }
      return false;
    }

    /** The second section of remember_connection: the socket into the first free slot, or not at all. */
    method StoreConnection(sfd: int, t: Timing, d: Destination) returns (stored: bool)
      requires FreeAreClean(connections[..]) && connections.Length > 0
      modifies connections
      ensures connections[..] == Stored(old(connections[..]), sfd, t, d)
      ensures stored <==> FindSocket(old(connections[..]), INVALID_SOCKET) < connections.Length
    {
      ghost var slots := connections[..];
      var slot := 0;
      var freeSlotFound := false;
      while slot < connections.Length
        invariant 0 <= slot <= connections.Length && connections[..] == slots && !freeSlotFound
        invariant forall j :: 0 <= j < slot ==> connections[j].sfd != INVALID_SOCKET
      {
        if connections[slot].sfd == INVALID_SOCKET {
          assert slots[slot] == connections[slot] && !connections[slot].inUse;
          freeSlotFound := true;
          break;
        }
        slot := slot + 1;
      }
      if !freeSlotFound {
        return false;
      }
      FoundAt(slots, INVALID_SOCKET, slot);
      assert Clean(slots[slot]);
      connections[slot] := connections[slot].(host := Some(d.host));
      connections[slot] := connections[slot].(sfd := sfd, port := d.port, inUse := false, timestamp := t.timestamp);
      connections[0] := connections[0].(requestSent := t.requestSent, responseReceived := t.responseReceived);
      connections[slot] := connections[slot].(keepAliveTimeout := t.keepAliveTimeout);
      assert connections[slot].gatewayHost == None && connections[slot].gatewayPort == 0;
      assert connections[slot].forwarder == SocksNone;
      assert connections[slot].forwardHost == None && connections[slot].forwardPort == 0;
      connections[slot] := connections[slot].(forwarder := d.forwarder, gatewayHost := d.gatewayHost,
                                              gatewayPort := d.gatewayPort);
      connections[slot] := connections[slot].(forwardHost := d.forwardHost, forwardPort := d.forwardPort);
      assert connections[..] == Stored(slots, sfd, t, d);
      return true;
    }

    /** The section of forget_connection; its assert holds when no idle slot has the socket. */
    method ForgetConnection(sfd: int)
      requires sfd != INVALID_SOCKET
      requires forall i :: 0 <= i < connections.Length && connections[i].sfd == sfd ==> connections[i].inUse
      modifies connections
      ensures connections[..] == Forgotten(old(connections[..]), sfd)
    {
      var slot := 0;
      while slot < connections.Length
        invariant 0 <= slot <= connections.Length && connections[..] == old(connections[..])
        invariant forall j :: 0 <= j < slot ==> connections[j].sfd != sfd
      {
        if connections[slot].sfd == sfd {
          assert connections[slot].inUse;
          FoundAt(connections[..], sfd, slot);
          MarkConnectionClosed(slot);
          return;
        }
        slot := slot + 1;
      }
    }

    /** close_unusable_connections: clock and socket state are read slot by slot, so they are parameters. */
    method CloseUnusableConnections(now: nat -> int, usable: nat -> bool) returns (alive: nat, closed: seq<int>)
      modifies connections
      ensures var dead := Verdict(old(connections[..]), now, usable);
              && connections[..] == Swept(old(connections[..]), dead)
              && closed == SocketsOf(old(connections[..]), dead, connections.Length)
      ensures alive == IdleCount(connections[..], connections.Length)
    {
      ghost var slots := connections[..];
      ghost var dead := Verdict(slots, now, usable);
      alive, closed := 0, [];
      for slot := 0 to connections.Length
        invariant forall i :: 0 <= i < slot ==> connections[i] == if Idle(slots[i]) && dead(i) then CLOSED else slots[i]
        invariant forall i :: slot <= i < connections.Length ==> connections[i] == slots[i]
        invariant closed == SocketsOf(slots, dead, slot)
        invariant alive == IdleCount(connections[..], slot)
      {
        ghost var before := connections[..];
        var c := connections[slot];
        if !c.inUse && c.sfd != INVALID_SOCKET {
          var timeOpen := now(slot) - c.timestamp;
          var latency := c.responseReceived - c.requestSent;
          if c.keepAliveTimeout < timeOpen + latency {
            closed := closed + [c.sfd];
            MarkConnectionClosed(slot);
          } else if !usable(slot) {
            closed := closed + [c.sfd];
            MarkConnectionClosed(slot);
          } else {
            alive := alive + 1;
          }
        }
        IdleCountKept(before, connections[..], slot);
      }
      assert connections[..] == Swept(slots, dead);
    }

    /** The second section of get_reusable_connection: the first idle match is claimed. */
    method ClaimConnection(d: Destination) returns (sfd: int)
      requires forall i :: 0 <= i < connections.Length && Occupied(connections[i]) ==> connections[i].host.Some?
      modifies connections
      ensures connections[..] == Claimed(old(connections[..]), d)
      ensures var i := FindMatch(old(connections[..]), d);
              sfd == if i < connections.Length then old(connections[..])[i].sfd else INVALID_SOCKET
    {
      sfd := INVALID_SOCKET;
      var slot := 0;
      while slot < connections.Length
        invariant 0 <= slot <= connections.Length && connections[..] == old(connections[..])
        invariant forall j :: 0 <= j < slot ==> !Offers(connections[j], d)
      {
        if !connections[slot].inUse && connections[slot].sfd != INVALID_SOCKET {
          if DestinationMatches(connections[slot], d) {
            MatchAt(connections[..], d, slot);
            sfd := connections[slot].sfd;
            connections[slot] := connections[slot].(inUse := true);
            return;
          }
        }
        slot := slot + 1;
      }
    }
  }

  lemma FoundAt(slots: Slots, sfd: int, i: nat)
    requires i < |slots| && slots[i].sfd == sfd && forall j :: 0 <= j < i ==> slots[j].sfd != sfd
    ensures FindSocket(slots, sfd) == i
  {
  }

  lemma MatchAt(slots: Slots, d: Destination, i: nat)
    requires i < |slots| && Offers(slots[i], d) && forall j :: 0 <= j < i ==> !Offers(slots[j], d)
    ensures FindMatch(slots, d) == i
  {
  }

  /** An idle connection past its keep-alive time, or whose socket is no longer usable. */
  predicate IsDead(slots: Slots, i: nat, now: int, usable: bool) {
    i < |slots|
    && var c := slots[i];
       c.keepAliveTimeout < now - c.timestamp + (c.responseReceived - c.requestSent) || !usable
  }

  function Verdict(slots: Slots, now: nat -> int, usable: nat -> bool): (dead: nat -> bool) {
    (i: nat) => IsDead(slots, i, now(i), usable(i))
  }

  /** A connection is dead when its keep-alive time is less than its age and latency together, or its socket unusable. */
  lemma DeadMeans(slots: Slots, i: nat, now: nat -> int, usable: nat -> bool)
    requires i < |slots|
    ensures Verdict(slots, now, usable)(i) <==>
            || !usable(i)
            || slots[i].keepAliveTimeout
               < (now(i) - slots[i].timestamp) + (slots[i].responseReceived - slots[i].requestSent)
  {
  }

  /** The sockets of the dead idle connections among the first n slots. */
  function SocketsOf(slots: Slots, dead: nat -> bool, n: nat): (s: seq<int>)
    requires n <= |slots|
  {
    if n == 0 then []
    else SocketsOf(slots, dead, n - 1) + if Idle(slots[n - 1]) && dead(n - 1) then [slots[n - 1].sfd] else []
  }

  function IdleCount(slots: Slots, n: nat): (c: nat)
    requires n <= |slots|
  {
    if n == 0 then 0 else IdleCount(slots, n - 1) + if Idle(slots[n - 1]) then 1 else 0
  }

  lemma {:induction false} IdleCountKept(a: Slots, b: Slots, n: nat)
    requires n <= |a| && n <= |b| && a[..n] == b[..n]
    ensures IdleCount(a, n) == IdleCount(b, n)
  {
    if n > 0 {
      assert a[..n - 1] == a[..n][..n - 1] && b[..n - 1] == b[..n][..n - 1];
      assert a[n - 1] == a[..n][n - 1] && b[n - 1] == b[..n][n - 1];
      IdleCountKept(a, b, n - 1);
    }
  }
}
