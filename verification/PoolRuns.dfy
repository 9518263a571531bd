/**
 All interleavings of the pool's locked sections. remember_connection and get_reusable_connection take the lock twice, and
 sockets are closed outside it, so a client passes through the states in between. Descriptors are recycled: a socket may
 be opened under a number that was closed before.
 */
module PoolRuns {
  import opened Wrappers
  import opened Pool

  /** A client thread: without a server socket, or on its way between two sections. */
  datatype Client =
    | Away
    | Holding(sfd: int, dest: Destination)
    | Releasing(sfd: int, t: Timing, dest: Destination)
    | Dropping(sfd: int)
    | Seeking(want: Destination)

  /** The socket a client is responsible for. */
  function SocketOf(c: Client): (s: int) {
    match c
    case Holding(sfd, _) => sfd
    case Releasing(sfd, _, _) => sfd
    case Dropping(sfd) => sfd
    case _ => INVALID_SOCKET
  }

  /** The slots, the clients, and the open sockets with what each was opened for. */
  datatype World = World(slots: Slots, clients: seq<Client>, open: map<int, Destination>)

  datatype Action =
    | Connect(c: nat, sfd: int, d: Destination)
    | NextRequest(c: nat, d: Destination)
    | Release(c: nat, t: Timing)
    | Store(c: nat)
    | Forget(c: nat)
    | CloseSocket(c: nat)
    | Seek(c: nat, d: Destination, dead: set<nat>)
    | Claim(c: nat)
    | Sweep(dead: set<nat>)

  /** The same port and forwarding ports, and the same host but for case. */
  predicate SameDestination(a: Destination, b: Destination) {
    && a.port == b.port && a.forwarder == b.forwarder
    && a.gatewayPort == b.gatewayPort && a.forwardPort == b.forwardPort
    && SameText(a.host, b.host)
  }

  function Dead(dead: set<nat>): (f: nat -> bool) {
    (i: nat) => i in dead
  }

  function Closing(slots: Slots, dead: set<nat>): (s: set<int>) {
    set i | 0 <= i < |slots| && Idle(slots[i]) && i in dead :: slots[i].sfd
  }

  /**
   When an action can happen. The clients' part of the bargain: a new socket is not one that is open, and a socket is
   used again only for the destination it was opened for.
   */
  predicate Enabled(w: World, a: Action) {
    match a
    case Connect(c, sfd, d) => c < |w.clients| && w.clients[c] == Away && sfd != INVALID_SOCKET && sfd !in w.open
    case NextRequest(c, d) => c < |w.clients| && w.clients[c].Holding? && SameDestination(w.clients[c].dest, d)
    case Release(c, t) => c < |w.clients| && w.clients[c].Holding?
    case Store(c) => c < |w.clients| && w.clients[c].Releasing?
    case Forget(c) => c < |w.clients| && w.clients[c].Holding?
    case CloseSocket(c) => c < |w.clients| && w.clients[c].Dropping?
    case Seek(c, d, dead) => c < |w.clients| && w.clients[c] == Away
    case Claim(c) => c < |w.clients| && w.clients[c].Seeking?
    case Sweep(dead) => true
  }

  function After(w: World, a: Action): (r: World)
    requires Enabled(w, a)
  {
    match a
    case Connect(c, sfd, d) => World(w.slots, w.clients[c := Holding(sfd, d)], w.open[sfd := d])
    case NextRequest(c, d) => w.(clients := w.clients[c := Holding(w.clients[c].sfd, d)])
    case Release(c, t) =>
      var Holding(sfd, dest) := w.clients[c];
      var known := FindSocket(w.slots, sfd) < |w.slots|;
      World(Released(w.slots, sfd, t.timestamp), w.clients[c := if known then Away else Releasing(sfd, t, dest)], w.open)
    case Store(c) =>
      var Releasing(sfd, t, dest) := w.clients[c];
      var stored := FindSocket(w.slots, INVALID_SOCKET) < |w.slots|;
      World(Stored(w.slots, sfd, t, dest), w.clients[c := if stored then Away else Dropping(sfd)], w.open)
    case Forget(c) =>
      World(Forgotten(w.slots, w.clients[c].sfd), w.clients[c := Dropping(w.clients[c].sfd)], w.open)
    case CloseSocket(c) => World(w.slots, w.clients[c := Away], w.open - {w.clients[c].sfd})
    case Seek(c, d, dead) =>
      World(Swept(w.slots, Dead(dead)), w.clients[c := Seeking(d)], w.open - Closing(w.slots, dead))
    case Claim(c) =>
      var i := FindMatch(w.slots, w.clients[c].want);
      World(Claimed(w.slots, w.clients[c].want),
            w.clients[c := if i < |w.slots| then Holding(w.slots[i].sfd, w.clients[c].want) else Away], w.open)
    case Sweep(dead) => World(Swept(w.slots, Dead(dead)), w.clients, w.open - Closing(w.slots, dead))
  }

  // ----- The invariant -----

  function SlotDestination(s: Connection): (d: Destination)
    requires s.host.Some?
  {
    Destination(s.host.value, s.port, s.forwarder, s.gatewayHost, s.gatewayPort, s.forwardHost, s.forwardPort)
  }

  /** An occupied slot has an open socket and describes what it was opened for. */
  predicate SlotOk(s: Connection, open: map<int, Destination>) {
    Occupied(s) ==> s.sfd in open && s.host.Some? && SameDestination(open[s.sfd], SlotDestination(s))
  }

  predicate SlotsOk(slots: Slots, open: map<int, Destination>) {
    forall i :: 0 <= i < |slots| ==> SlotOk(slots[i], open)
  }

  /** A client's socket is open, for the destination the client uses it for. */
  predicate ClientOk(c: Client, open: map<int, Destination>) {
    SocketOf(c) != INVALID_SOCKET ==>
      && SocketOf(c) in open
      && (c.Holding? || c.Releasing? ==> SameDestination(open[SocketOf(c)], c.dest))
  }

  predicate ClientsOk(clients: seq<Client>, open: map<int, Destination>) {
    && (forall c :: 0 <= c < |clients| ==> ClientOk(clients[c], open))
    && (forall c :: 0 <= c < |clients| ==> clients[c].Holding? || clients[c].Releasing? || clients[c].Dropping? ==>
                                             SocketOf(clients[c]) != INVALID_SOCKET)
    && (forall c, c' :: 0 <= c < c' < |clients| && SocketOf(clients[c]) != INVALID_SOCKET ==>
                          SocketOf(clients[c]) != SocketOf(clients[c']))
  }

  /** No idle socket is held, and no slot knows a socket that is being released or dropped. */
  predicate Apart(slots: Slots, clients: seq<Client>) {
    forall i, c :: 0 <= i < |slots| && 0 <= c < |clients| && Occupied(slots[i]) && slots[i].sfd == SocketOf(clients[c]) ==>
                     slots[i].inUse && clients[c].Holding?
  }

  predicate HeldBySome(s: int, clients: seq<Client>) {
    exists c :: 0 <= c < |clients| && SocketOf(clients[c]) == s
  }

  predicate IdleInSome(s: int, slots: Slots) {
    exists i :: 0 <= i < |slots| && Idle(slots[i]) && slots[i].sfd == s
  }

  /** No open socket is lost. */
  predicate Accounted(w: World) {
    forall s :: s in w.open ==> s != INVALID_SOCKET && (HeldBySome(s, w.clients) || IdleInSome(s, w.slots))
  }

  predicate Inv(w: World) {
    && FreeAreClean(w.slots) && SocketsDistinct(w.slots) && SlotsOk(w.slots, w.open)
    && ClientsOk(w.clients, w.open)
    && Apart(w.slots, w.clients)
    && Accounted(w)
  }

  function Start(slots: nat, clients: nat): (w: World) {
    World(seq(slots, i => CLOSED), seq(clients, i => Away), map[])
  }

  lemma StartIsFine(slots: nat, clients: nat)
    ensures Inv(Start(slots, clients))
  {
  }

  // ----- Each step keeps it -----

  lemma ConnectKeeps(w: World, c: nat, sfd: int, d: Destination)
    requires Inv(w) && Enabled(w, Connect(c, sfd, d))
    ensures Inv(After(w, Connect(c, sfd, d)))
  {
    var w' := After(w, Connect(c, sfd, d));
    assert forall i :: 0 <= i < |w.slots| && Occupied(w.slots[i]) ==> w.slots[i].sfd != sfd;
    assert forall k :: 0 <= k < |w.clients| ==> SocketOf(w.clients[k]) != sfd;
    HolderKept(w, w', c);
    assert w'.clients[c].sfd == sfd;
  }

  /** Clients other than c hold what they held. */
  lemma HolderKept(w: World, w': World, c: nat)
    requires c < |w.clients| && |w'.clients| == |w.clients|
    requires forall k :: 0 <= k < |w.clients| && k != c ==> w'.clients[k] == w.clients[k]
    ensures forall s :: HeldBySome(s, w.clients) && s != SocketOf(w.clients[c]) ==> HeldBySome(s, w'.clients)
  {
    forall s | HeldBySome(s, w.clients) && s != SocketOf(w.clients[c])
      ensures HeldBySome(s, w'.clients)
    {
      var k :| 0 <= k < |w.clients| && SocketOf(w.clients[k]) == s;
      assert SocketOf(w'.clients[k]) == s;
    }
  }

  /** Idle slots other than i stay idle with their sockets. */
  lemma IdleKept(slots: Slots, slots': Slots, i: nat)
    requires |slots'| == |slots| && i < |slots|
    requires forall j :: 0 <= j < |slots| && j != i && Idle(slots[j]) ==> Idle(slots'[j]) && slots'[j].sfd == slots[j].sfd
    ensures forall s :: IdleInSome(s, slots) && s != slots[i].sfd ==> IdleInSome(s, slots')
  {
    forall s | IdleInSome(s, slots) && s != slots[i].sfd
      ensures IdleInSome(s, slots')
    {
      var j :| 0 <= j < |slots| && Idle(slots[j]) && slots[j].sfd == s;
      assert Idle(slots'[j]);
    }
  }

  lemma SameDestinationTransitive(a: Destination, b: Destination, c: Destination)
    requires SameDestination(a, b)
    ensures SameDestination(b, c) <==> SameDestination(a, c)
  {
  }

  lemma NextRequestKeeps(w: World, c: nat, d: Destination)
    requires Inv(w) && Enabled(w, NextRequest(c, d))
    ensures Inv(After(w, NextRequest(c, d)))
  {
    var w' := After(w, NextRequest(c, d));
    SameDestinationTransitive(w.open[w.clients[c].sfd], w.clients[c].dest, d);
    HolderKept(w, w', c);
    assert SocketOf(w'.clients[c]) == SocketOf(w.clients[c]);
  }

  lemma ReleaseKeeps(w: World, c: nat, t: Timing)
    requires Inv(w) && Enabled(w, Release(c, t))
    ensures Inv(After(w, Release(c, t)))
  {
    var w' := After(w, Release(c, t));
    var sfd := w.clients[c].sfd;
    var i := FindSocket(w.slots, sfd);
    HolderKept(w, w', c);
    if i < |w.slots| {
      IdleKept(w.slots, w'.slots, i);
      assert Idle(w'.slots[i]) && w'.slots[i].sfd == sfd;
    } else {
      assert SocketOf(w'.clients[c]) == sfd;
    }
  }

  lemma StoreKeeps(w: World, c: nat)
    requires Inv(w) && Enabled(w, Store(c))
    ensures Inv(After(w, Store(c)))
  {
    if FindSocket(w.slots, INVALID_SOCKET) < |w.slots| {
      StoreFindsSlot(w, c);
    } else {
      var w' := After(w, Store(c));
      HolderKept(w, w', c);
      assert SocketOf(w'.clients[c]) == w.clients[c].sfd;
    }
  }

  lemma StoreFindsSlot(w: World, c: nat)
    requires Inv(w) && Enabled(w, Store(c)) && FindSocket(w.slots, INVALID_SOCKET) < |w.slots|
    ensures Inv(After(w, Store(c)))
  {
    var Releasing(sfd, t, dest) := w.clients[c];
    assert forall j :: 0 <= j < |w.slots| ==> w.slots[j].sfd != sfd;
    StoredSlotsFine(w.slots, w.open, sfd, t, dest);
    StoredSlots(w.slots, sfd, t, dest);
    hide Stored, SlotsOk, FreeAreClean, SocketsDistinct;
    StoredApart(w, c);
    StoredAccounted(w, c);
    GoneAway(w.clients, w.open, c);
    hide ClientsOk, Apart, Accounted;
  }

  lemma GoneAway(clients: seq<Client>, open: map<int, Destination>, c: nat)
    requires ClientsOk(clients, open) && c < |clients|
    ensures ClientsOk(clients[c := Away], open)
  {
  }

  lemma StoredApart(w: World, c: nat)
    requires Inv(w) && Enabled(w, Store(c)) && FindSocket(w.slots, INVALID_SOCKET) < |w.slots|
    ensures Apart(After(w, Store(c)).slots, After(w, Store(c)).clients)
  {
    var Releasing(sfd, t, dest) := w.clients[c];
    StoredSlots(w.slots, sfd, t, dest);
    hide Stored, SlotsOk, FreeAreClean, SocketsDistinct, Accounted;
  }

  lemma StoredAccounted(w: World, c: nat)
    requires Inv(w) && Enabled(w, Store(c)) && FindSocket(w.slots, INVALID_SOCKET) < |w.slots|
    ensures Accounted(After(w, Store(c)))
  {
    var Releasing(sfd, t, dest) := w.clients[c];
    var w' := After(w, Store(c));
    var i := FindSocket(w.slots, INVALID_SOCKET);
    StoredSlots(w.slots, sfd, t, dest);
    hide Stored, SlotsOk, FreeAreClean, SocketsDistinct, ClientsOk, Apart;
    HolderKept(w, w', c);
    IdleKept(w.slots, w'.slots, i);
    assert Idle(w'.slots[i]) && w'.slots[i].sfd == sfd;
  }

  lemma StoredSlotsFine(slots: Slots, open: map<int, Destination>, sfd: int, t: Timing, d: Destination)
    requires FreeAreClean(slots) && SocketsDistinct(slots) && SlotsOk(slots, open)
    requires sfd in open && SameDestination(open[sfd], d)
    requires forall j :: 0 <= j < |slots| ==> slots[j].sfd != sfd
    ensures var r := Stored(slots, sfd, t, d);
            FreeAreClean(r) && SocketsDistinct(r) && SlotsOk(r, open)
  {
    if FindSocket(slots, INVALID_SOCKET) < |slots| {
      StoredSlots(slots, sfd, t, d);
      hide Stored, SameDestination;
    }
  }

  /** Storing changes the free slot found and, in slot 0, at most the latency. */
  lemma StoredSlots(slots: Slots, sfd: int, t: Timing, d: Destination)
    requires FindSocket(slots, INVALID_SOCKET) < |slots|
    ensures var i, r := FindSocket(slots, INVALID_SOCKET), Stored(slots, sfd, t, d);
            && r[i].sfd == sfd && !r[i].inUse && r[i].host.Some? && SlotDestination(r[i]) == d
            && forall j :: 0 <= j < |slots| && j != i ==>
                 && r[j].sfd == slots[j].sfd && r[j].inUse == slots[j].inUse && r[j].host == slots[j].host
                 && (r[j].host.Some? ==> SlotDestination(r[j]) == SlotDestination(slots[j]))
                 && (Clean(slots[j]) ==> Clean(r[j]))
  {
  }

  lemma ForgetKeeps(w: World, c: nat)
    requires Inv(w) && Enabled(w, Forget(c))
    ensures Inv(After(w, Forget(c)))
  {
    var w' := After(w, Forget(c));
    var sfd := w.clients[c].sfd;
    var i := FindSocket(w.slots, sfd);
    HolderKept(w, w', c);
    if i < |w.slots| {
      IdleKept(w.slots, w'.slots, i);
    }
    assert SocketOf(w'.clients[c]) == sfd;
  }

  lemma CloseSocketKeeps(w: World, c: nat)
    requires Inv(w) && Enabled(w, CloseSocket(c))
    ensures Inv(After(w, CloseSocket(c)))
  {
    HolderKept(w, After(w, CloseSocket(c)), c);
  }

  lemma NotClosing(slots: Slots, dead: set<nat>, i: nat)
    requires SocketsDistinct(slots) && i < |slots| && Occupied(slots[i]) && !(Idle(slots[i]) && i in dead)
    ensures slots[i].sfd !in Closing(slots, dead)
  {
    forall j | 0 <= j < |slots| && Idle(slots[j]) && j in dead
      ensures slots[j].sfd != slots[i].sfd
    {
    }
  }

  /** What a sweep leaves: the idle slots that were not dead, and all sockets but theirs. */
  lemma SweepKeeps(w: World, dead: set<nat>)
    requires Inv(w)
    ensures Inv(World(Swept(w.slots, Dead(dead)), w.clients, w.open - Closing(w.slots, dead)))
  {
    var slots', open' := Swept(w.slots, Dead(dead)), w.open - Closing(w.slots, dead);
    forall i | 0 <= i < |w.slots| && Occupied(slots'[i])
      ensures slots'[i] == w.slots[i] && w.slots[i].sfd in open'
    {
      NotClosing(w.slots, dead, i);
    }
    forall c | 0 <= c < |w.clients| && SocketOf(w.clients[c]) != INVALID_SOCKET
      ensures SocketOf(w.clients[c]) in open'
    {
    }
    forall s | s in open'
      ensures HeldBySome(s, w.clients) || IdleInSome(s, slots')
    {
      if !HeldBySome(s, w.clients) {
        var i :| 0 <= i < |w.slots| && Idle(w.slots[i]) && w.slots[i].sfd == s;
        assert i !in dead;
        assert Idle(slots'[i]);
      }
    }
  }

  lemma SeekKeeps(w: World, c: nat, d: Destination, dead: set<nat>)
    requires Inv(w) && Enabled(w, Seek(c, d, dead))
    ensures Inv(After(w, Seek(c, d, dead)))
  {
    SweepKeeps(w, dead);
    var swept := World(Swept(w.slots, Dead(dead)), w.clients, w.open - Closing(w.slots, dead));
    HolderKept(swept, After(w, Seek(c, d, dead)), c);
  }

  /** A match is for the destination wanted. */
  lemma MatchIsSame(s: Connection, d: Destination)
    requires s.host.Some? && DestinationMatches(s, d)
    ensures SameDestination(SlotDestination(s), d)
  {
  }

  lemma ClaimKeeps(w: World, c: nat)
    requires Inv(w) && Enabled(w, Claim(c))
    ensures Inv(After(w, Claim(c)))
  {
    var w' := After(w, Claim(c));
    var d := w.clients[c].want;
    var i := FindMatch(w.slots, d);
    HolderKept(w, w', c);
    if i < |w.slots| {
      var sfd := w.slots[i].sfd;
      MatchIsSame(w.slots[i], d);
      SameDestinationTransitive(w.open[sfd], SlotDestination(w.slots[i]), d);
      IdleKept(w.slots, w'.slots, i);
      assert SocketOf(w'.clients[c]) == sfd;
      assert forall k :: 0 <= k < |w.clients| ==> SocketOf(w.clients[k]) != sfd;
    }
  }

  lemma StepKeeps(w: World, a: Action)
    requires Inv(w) && Enabled(w, a)
    ensures Inv(After(w, a))
  {
    match a
    case Connect(c, sfd, d) => ConnectKeeps(w, c, sfd, d);
    case NextRequest(c, d) => NextRequestKeeps(w, c, d);
    case Release(c, t) => ReleaseKeeps(w, c, t);
    case Store(c) => StoreKeeps(w, c);
    case Forget(c) => ForgetKeeps(w, c);
    case CloseSocket(c) => CloseSocketKeeps(w, c);
    case Seek(c, d, dead) => SeekKeeps(w, c, d, dead);
    case Claim(c) => ClaimKeeps(w, c);
    case Sweep(dead) => SweepKeeps(w, dead);
  }

  // ----- Whole runs -----

  predicate IsRun(w: World, run: seq<Action>)
    decreases |run|
  {
    |run| == 0 || (Enabled(w, run[0]) && IsRun(After(w, run[0]), run[1..]))
  }

  function AfterRun(w: World, run: seq<Action>): (r: World)
    requires IsRun(w, run)
    decreases |run|
  {
    if |run| == 0 then w else AfterRun(After(w, run[0]), run[1..])
  }

  lemma {:induction false} RunKeeps(w: World, run: seq<Action>)
    requires Inv(w) && IsRun(w, run)
    ensures Inv(AfterRun(w, run))
    decreases |run|
  {
    if |run| > 0 {
      StepKeeps(w, run[0]);
      RunKeeps(After(w, run[0]), run[1..]);
    }
  }

  predicate HeldBy(s: int, clients: seq<Client>, c: nat) {
    c < |clients| && SocketOf(clients[c]) == s
  }

  predicate IdleIn(s: int, slots: Slots, i: nat) {
    i < |slots| && Idle(slots[i]) && slots[i].sfd == s
  }

  /** After any interleaving an open socket is in one place: with one client, or idle in one slot. */
  lemma OnePlace(slots: nat, clients: nat, run: seq<Action>, s: int)
    requires IsRun(Start(slots, clients), run)
    requires s in AfterRun(Start(slots, clients), run).open
    ensures var w := AfterRun(Start(slots, clients), run);
            && (HeldBySome(s, w.clients) <==> !IdleInSome(s, w.slots))
            && (forall c: nat, c': nat :: HeldBy(s, w.clients, c) && HeldBy(s, w.clients, c') ==> c == c')
            && (forall i: nat, i': nat :: IdleIn(s, w.slots, i) && IdleIn(s, w.slots, i') ==> i == i')
  {
    StartIsFine(slots, clients);
    RunKeeps(Start(slots, clients), run);
  }

  /** What gets closed is open, and is forgotten everywhere: no descriptor is closed twice or kept after closing. */
  lemma ClosedOnce(w: World, a: Action, s: int)
    requires Inv(w) && Enabled(w, a)
    requires || (a.CloseSocket? && s == SocketOf(w.clients[a.c]))
             || ((a.Sweep? || a.Seek?) && s in Closing(w.slots, a.dead))
    ensures s in w.open && s !in After(w, a).open
    ensures !HeldBySome(s, After(w, a).clients)
    ensures forall i :: 0 <= i < |w.slots| ==> After(w, a).slots[i].sfd != s
  {
    StepKeeps(w, a);
    if !a.CloseSocket? {
      var i :| 0 <= i < |w.slots| && Idle(w.slots[i]) && i in a.dead && w.slots[i].sfd == s;
      assert SlotOk(w.slots[i], w.open);
    }
    var w' := After(w, a);
    forall i | 0 <= i < |w.slots|
      ensures w'.slots[i].sfd != s
    {
      assert SlotOk(w'.slots[i], w'.open);
    }
    forall c | 0 <= c < |w'.clients|
      ensures SocketOf(w'.clients[c]) != s
    {
      assert ClientOk(w'.clients[c], w'.open);
    }
  }

  /** The socket get_reusable_connection returns was opened for the destination asked for. */
  lemma ClaimedSocketFits(w: World, c: nat)
    requires Inv(w) && Enabled(w, Claim(c))
    ensures var r := After(w, Claim(c)).clients[c];
            r.Holding? ==> r.sfd in w.open && SameDestination(w.open[r.sfd], w.clients[c].want)
  {
    ClaimKeeps(w, c);
  }

  /** Its host and that of the request are of one length and equal but for the case of letters, its ports are the same. */
  lemma ClaimedForSameHost(w: World, c: nat)
    requires Inv(w) && Enabled(w, Claim(c)) && After(w, Claim(c)).clients[c].Holding?
    ensures var s := After(w, Claim(c)).clients[c].sfd;
            && s in w.open
            && var was, want := w.open[s], w.clients[c].want;
               && was.port == want.port && was.forwarder == want.forwarder
               && was.gatewayPort == want.gatewayPort && was.forwardPort == want.forwardPort
               && |was.host| == |want.host|
               && forall i :: 0 <= i < |want.host| ==>
                    || was.host[i] == want.host[i]
                    || ('A' <= was.host[i] <= 'Z' && want.host[i] as int == was.host[i] as int + 32)
                    || ('A' <= want.host[i] <= 'Z' && was.host[i] as int == want.host[i] as int + 32)
  {
    ClaimedSocketFits(w, c);
    var s := After(w, Claim(c)).clients[c].sfd;
    hide Inv, After, SameText;
    SameTextMeans(w.open[s].host, w.clients[c].want.host);
  }

  /** The pool's own assertions: the preconditions of the sections hold wherever a client can run them. */
  lemma AssertionsHold(w: World, c: nat)
    requires Inv(w) && c < |w.clients|
    ensures FreeAreClean(w.slots)
    ensures w.clients[c].Holding? ==>
              forall i :: 0 <= i < |w.slots| && w.slots[i].sfd == w.clients[c].sfd ==> w.slots[i].inUse
    ensures forall i :: 0 <= i < |w.slots| && Occupied(w.slots[i]) ==> w.slots[i].host.Some?
  {
    assert forall i :: 0 <= i < |w.slots| ==> SlotOk(w.slots[i], w.open);
  }

  // ----- Closing without forgetting -----

  /** What chat does when the next request is for another destination: the socket is closed, the pool is not told. */
  function DirectlyClosed(w: World, c: nat): (r: World)
    requires c < |w.clients| && w.clients[c].Holding?
  {
    World(w.slots, w.clients[c := Away], w.open - {w.clients[c].sfd})
  }

  /** It keeps the pool sound exactly when no slot has the socket, that is when it did not come from the pool. */
  lemma DirectCloseIsSafe(w: World, c: nat)
    requires Inv(w) && c < |w.clients| && w.clients[c].Holding?
    ensures Inv(DirectlyClosed(w, c)) <==> FindSocket(w.slots, w.clients[c].sfd) == |w.slots|
  {
    var sfd, w' := w.clients[c].sfd, DirectlyClosed(w, c);
    var i := FindSocket(w.slots, sfd);
    if i < |w.slots| {
      assert !SlotOk(w'.slots[i], w'.open);
    } else {
      HolderKept(w, w', c);
    }
  }

  lemma RunOf(w: World, a: Action, rest: seq<Action>)
    requires Enabled(w, a) && IsRun(After(w, a), rest)
    ensures IsRun(w, [a] + rest) && AfterRun(w, [a] + rest) == AfterRun(After(w, a), rest)
  {
    assert ([a] + rest)[1..] == rest;
  }

  /** A slot is offered for what it describes. */
  lemma OffersItself(s: Connection)
    requires Idle(s) && s.host.Some?
    ensures Offers(s, SlotDestination(s))
  {
  }

  predicate IsOther(j: nat, i: nat) {
    j != i
  }

  /** The slots other than i. */
  function Rest(slots: Slots, i: nat): (js: set<nat>) {
    set j: nat | j < |slots| && IsOther(j, i)
  }

  /** The number is opened again for b, and the connection released: the slot left behind is idle, for what it says. */
  lemma SlotRevives(w: World, c: nat, b: Destination, t: Timing) returns (r: World)
    requires Inv(w) && c < |w.clients| && w.clients[c].Holding? && FindSocket(w.slots, w.clients[c].sfd) < |w.slots|
    ensures var w', sfd := DirectlyClosed(w, c), w.clients[c].sfd;
            && Enabled(w', Connect(c, sfd, b)) && Enabled(After(w', Connect(c, sfd, b)), Release(c, t))
            && r == After(After(w', Connect(c, sfd, b)), Release(c, t))
    ensures var i := FindSocket(w.slots, w.clients[c].sfd);
            && r.clients == w.clients[c := Away] && r.open == w.open[w.clients[c].sfd := b]
            && r.slots == w.slots[i := w.slots[i].(inUse := false, timestamp := t.timestamp)]
            && Idle(r.slots[i]) && r.slots[i].host.Some? && r.slots[i].sfd == w.clients[c].sfd
            && SlotDestination(r.slots[i]) == SlotDestination(w.slots[i])
  {
    var sfd := w.clients[c].sfd;
    var i := FindSocket(w.slots, sfd);
    assert ClientOk(w.clients[c], w.open) && SlotOk(w.slots[i], w.open);
    r := After(After(DirectlyClosed(w, c), Connect(c, sfd, b)), Release(c, t));
    assert (w.open - {sfd})[sfd := b] == w.open[sfd := b];
  }

  /** With the other idle slots swept, a client that wants what the slot describes gets it. */
  lemma SlotIsClaimed(w: World, c: nat, i: nat)
    requires c < |w.clients| && w.clients[c] == Away && SocketsDistinct(w.slots)
    requires i < |w.slots| && Idle(w.slots[i]) && w.slots[i].host.Some?
    ensures var want := SlotDestination(w.slots[i]);
            var swept := After(w, Seek(c, want, Rest(w.slots, i)));
            && After(swept, Claim(c)).clients[c] == Holding(w.slots[i].sfd, want)
            && (w.slots[i].sfd in w.open ==>
                  w.slots[i].sfd in After(swept, Claim(c)).open
                  && After(swept, Claim(c)).open[w.slots[i].sfd] == w.open[w.slots[i].sfd])
  {
    var want := SlotDestination(w.slots[i]);
    var swept := After(w, Seek(c, want, Rest(w.slots, i)));
    assert swept.slots[i] == w.slots[i];
    OffersItself(w.slots[i]);
    forall j | 0 <= j < i
      ensures !Offers(swept.slots[j], want)
    {
      assert j in Rest(w.slots, i);
    }
    MatchAt(swept.slots, want, i);
    NotClosing(w.slots, Rest(w.slots, i), i);
  }

  /**
   Why it matters: a pooled socket closed directly leaves its slot behind. Whatever the number is opened for next, its
   release revives the slot, and who wants what the slot describes is handed that connection.
   */
  lemma StaleSlotMisleads(w: World, c: nat, b: Destination, t: Timing) returns (run: seq<Action>)
    requires Inv(w) && c < |w.clients| && w.clients[c].Holding? && FindSocket(w.slots, w.clients[c].sfd) < |w.slots|
    ensures IsRun(DirectlyClosed(w, c), run)
    ensures var sfd, r := w.clients[c].sfd, AfterRun(DirectlyClosed(w, c), run);
            && w.slots[FindSocket(w.slots, sfd)].host.Some? && |r.clients| == |w.clients|
            && r.clients[c] == Holding(sfd, SlotDestination(w.slots[FindSocket(w.slots, sfd)]))
            && sfd in r.open && r.open[sfd] == b
  {
    var sfd := w.clients[c].sfd;
    var i := FindSocket(w.slots, sfd);
    var w' := DirectlyClosed(w, c);
    var r := SlotRevives(w, c, b, t);
    SlotIsClaimed(r, c, i);
    var want := SlotDestination(w.slots[i]);
    var seek, connect := Seek(c, want, Rest(r.slots, i)), Connect(c, sfd, b);
    hide After, DirectlyClosed, SlotDestination;
    assert Enabled(After(r, seek), Claim(c)) by {
      SeekLeadsToClaim(r, c, want, Rest(r.slots, i));
    }
    RunOf(After(r, seek), Claim(c), []);
    RunOf(r, seek, [Claim(c)] + []);
    RunOf(After(w', connect), Release(c, t), [seek] + ([Claim(c)] + []));
    RunOf(w', connect, [Release(c, t)] + ([seek] + ([Claim(c)] + [])));
    run := [connect] + ([Release(c, t)] + ([seek] + ([Claim(c)] + [])));
  }

  lemma SeekLeadsToClaim(w: World, c: nat, d: Destination, dead: set<nat>)
    requires Enabled(w, Seek(c, d, dead))
    ensures Enabled(After(w, Seek(c, d, dead)), Claim(c))
  {
  }

  /** Every client holds a socket that was opened for what the client uses it for. */
  predicate Fits(w: World) {
    forall c :: 0 <= c < |w.clients| && w.clients[c].Holding? ==>
      w.clients[c].sfd in w.open && SameDestination(w.open[w.clients[c].sfd], w.clients[c].dest)
  }

  /** Whatever happens from here on, no client is handed a socket that was opened for something else. */
  ghost predicate NeverMisleads(w: World) {
    forall run: seq<Action> :: IsRun(w, run) ==> Fits(AfterRun(w, run))
  }

  lemma InvFits(w: World)
    requires Inv(w)
    ensures Fits(w)
  {
    assert forall c :: 0 <= c < |w.clients| ==> ClientOk(w.clients[c], w.open);
  }

  lemma SoundNeverMisleads(w: World)
    requires Inv(w)
    ensures NeverMisleads(w)
  {
    forall run: seq<Action> | IsRun(w, run)
      ensures Fits(AfterRun(w, run))
    {
      RunKeeps(w, run);
      InvFits(AfterRun(w, run));
    }
  }

  /** A held socket may be closed directly, without anybody ever being misled, exactly when no slot has it. */
  lemma DirectCloseMisleads(w: World, c: nat)
    requires Inv(w) && c < |w.clients| && w.clients[c].Holding?
    ensures NeverMisleads(DirectlyClosed(w, c)) <==> FindSocket(w.slots, w.clients[c].sfd) == |w.slots|
  {
    var sfd := w.clients[c].sfd;
    var i := FindSocket(w.slots, sfd);
    DirectCloseIsSafe(w, c);
    if i == |w.slots| {
      SoundNeverMisleads(DirectlyClosed(w, c));
    } else {
      assert SlotOk(w.slots[i], w.open);
      var d := SlotDestination(w.slots[i]);
      var run := StaleSlotMisleads(w, c, d.(port := d.port + 1), Timing(0, 0, 0, 0));
      assert !Fits(AfterRun(DirectlyClosed(w, c), run));
    }
  }

  const HOST_A: Destination := Destination("a", 80, SocksNone, None, 0, None, 0)
  const TIMING: Timing := Timing(0, 0, 0, 60)

  /** One slot, in use by the first of two clients. */
  function OneInUse(): (w: World) {
    World([Described(5, TIMING, HOST_A, CLOSED).(inUse := true)], [Holding(5, HOST_A), Away], map[5 := HOST_A])
  }

  lemma OneInUseIsFine()
    ensures Inv(OneInUse())
  {
    var w := OneInUse();
    assert SocketOf(w.clients[0]) == 5;
    assert SlotOk(w.slots[0], w.open);
    assert HeldBySome(5, w.clients);
  }

  /** A client opens a socket and releases it into the pool. */
  lemma ReleasedIntoPool()
    ensures var w1 := World([CLOSED], [Holding(5, HOST_A), Away], map[5 := HOST_A]);
            var w2 := World([CLOSED], [Releasing(5, TIMING, HOST_A), Away], map[5 := HOST_A]);
            && Enabled(Start(1, 2), Connect(0, 5, HOST_A)) && After(Start(1, 2), Connect(0, 5, HOST_A)) == w1
            && Enabled(w1, Release(0, TIMING)) && After(w1, Release(0, TIMING)) == w2
            && Enabled(w2, Store(0)) && After(w2, Store(0)) == IdleInPool()
  {
    assert Start(1, 2) == World([CLOSED], [Away, Away], map[]);
  }

  function IdleInPool(): (w: World) {
    World([Described(5, TIMING, HOST_A, CLOSED)], [Away, Away], map[5 := HOST_A])
  }

  /** The client is handed the socket again. */
  lemma ClaimedFromPool()
    ensures var w := World([Described(5, TIMING, HOST_A, CLOSED)], [Seeking(HOST_A), Away], map[5 := HOST_A]);
            && Enabled(IdleInPool(), Seek(0, HOST_A, {})) && After(IdleInPool(), Seek(0, HOST_A, {})) == w
            && Enabled(w, Claim(0)) && After(w, Claim(0)) == OneInUse()
  {
    OffersItself(Described(5, TIMING, HOST_A, CLOSED));
  }

  /** So such a slot comes about, and closing its socket directly does mislead. */
  lemma OneInUseIsReached()
    ensures var run := [Connect(0, 5, HOST_A), Release(0, TIMING), Store(0), Seek(0, HOST_A, {}), Claim(0)];
            IsRun(Start(1, 2), run) && AfterRun(Start(1, 2), run) == OneInUse()
    ensures !NeverMisleads(DirectlyClosed(OneInUse(), 0))
  {
    OneInUseIsFine();
    assert FindSocket(OneInUse().slots, 5) == 0;
    DirectCloseMisleads(OneInUse(), 0);
    ReleasedIntoPool();
    ClaimedFromPool();
    hide After, Enabled, Start, IdleInPool, OneInUse, NeverMisleads;
    var seek, w := Seek(0, HOST_A, {}), World([CLOSED], [Holding(5, HOST_A), Away], map[5 := HOST_A]);
    RunOf(After(IdleInPool(), seek), Claim(0), []);
    RunOf(IdleInPool(), seek, [Claim(0)] + []);
    RunOf(After(w, Release(0, TIMING)), Store(0), [seek] + ([Claim(0)] + []));
    RunOf(w, Release(0, TIMING), [Store(0)] + ([seek] + ([Claim(0)] + [])));
    var run := [Release(0, TIMING)] + ([Store(0)] + ([seek] + ([Claim(0)] + [])));
    RunOf(Start(1, 2), Connect(0, 5, HOST_A), run);
    assert [Connect(0, 5, HOST_A)] + run == [Connect(0, 5, HOST_A), Release(0, TIMING), Store(0), seek, Claim(0)];
  }
}
