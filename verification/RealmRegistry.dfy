/** The logon server's list of realms: realm servers connect, register under a name, fall silent,
    and come back on new sockets while their old ones are still being cleared away. */
module RealmRegistry {
  import opened Options

  type SocketId = nat
  type RealmId = nat

  const REALMCOLOUR_GREEN: nat := 0
  const REALMCOLOUR_OFFLINE: nat := 2
  const PING_TIMEOUT: nat := 60

  /** A realm; the socket it was registered through, or none when it is offline. */
  datatype Realm = Realm(name: string, address: string, colour: nat, serverSocket: Option<SocketId>)

  /** The fields of a realm server's socket that the registry looks at. */
  datatype Socket = Socket(removed: bool, serverIds: set<RealmId>, lastPing: nat)

  datatype Registry = Registry(realms: map<RealmId, Realm>, sockets: map<SocketId, Socket>,
                               registered: set<SocketId>, realmHigh: nat)

  datatype Event =
    | Connect(socket: SocketId, allowed: bool, now: nat)
    | Register(socket: SocketId, name: string, address: string)
    | Ping(socket: SocketId, now: nat)
    | Timeout(now: nat)
    | Disconnect(socket: SocketId)

  // ----- The steps as functions

  function Offline(r: Realm): Realm {
    r.(colour := REALMCOLOUR_OFFLINE, serverSocket := None)
  }

  /** Seconds since the last ping in 32-bit unsigned arithmetic. */
  function Silence(now: nat, lastPing: nat): nat {
    (now - lastPing) % 0x1_0000_0000
  }

  predicate Stale(s: Socket, now: nat) {
    !s.removed && Silence(now, s.lastPing) > PING_TIMEOUT
  }

  /** The realms after one socket has taken those it lists, and still owns, offline. */
  function TakenOffline(realms: map<RealmId, Realm>, ids: set<RealmId>, socket: SocketId): map<RealmId, Realm> {
    map id | id in realms ::
      if id in ids && realms[id].serverSocket == Some(socket) then Offline(realms[id]) else realms[id]
  }

  function IdByName(realms: map<RealmId, Realm>, name: string): set<RealmId> {
    set id | id in realms && realms[id].name == name
  }

  /** A constructed socket is marked removed; connecting from an allowed address enters it. */
  function AfterConnect(r: Registry, s: SocketId, allowed: bool, now: nat): Registry {
    if s in r.sockets then r
    else if allowed then r.(sockets := r.sockets[s := Socket(false, {}, now)], registered := r.registered + {s})
    else r.(sockets := r.sockets[s := Socket(true, {}, now)])
  }

  /** Whatever had the name is dropped, and the realm gets an id never used before. The socket need
      not be registered any more: packets already read are handled after a disconnect or timeout too. */
  function AfterRegister(r: Registry, s: SocketId, name: string, address: string): Registry {
    if s !in r.sockets then r
    else
      var id := r.realmHigh + 1;
      var sock := r.sockets[s];
      r.(realms := (r.realms - IdByName(r.realms, name))[id := Realm(name, address, REALMCOLOUR_GREEN, Some(s))],
         sockets := r.sockets[s := sock.(serverIds := sock.serverIds + {id})],
         realmHigh := id)
  }

  function AfterPing(r: Registry, s: SocketId, now: nat): Registry {
    if s in r.sockets then r.(sockets := r.sockets[s := r.sockets[s].(lastPing := now)]) else r
  }

  function StaleSockets(r: Registry, now: nat): set<SocketId> {
    set s | s in r.registered && s in r.sockets && Stale(r.sockets[s], now)
  }

  /** All of the given sockets time out: marked, their realms offline, no longer registered. */
  function TimedOut(r: Registry, gone: set<SocketId>): Registry {
    Registry(
      map id | id in r.realms ::
        var owner := r.realms[id].serverSocket;
        if owner.Some? && owner.value in gone && owner.value in r.sockets && id in r.sockets[owner.value].serverIds
        then Offline(r.realms[id]) else r.realms[id],
      map s | s in r.sockets :: if s in gone then r.sockets[s].(removed := true) else r.sockets[s],
      r.registered - gone,
      r.realmHigh)
  }

  function AfterTimeout(r: Registry, now: nat): Registry {
    TimedOut(r, StaleSockets(r, now))
  }

  /** May come late, and more than once. */
  function AfterDisconnect(r: Registry, s: SocketId): Registry {
    if s !in r.sockets || r.sockets[s].removed then r
    else r.(realms := TakenOffline(r.realms, r.sockets[s].serverIds, s), registered := r.registered - {s})
  }

  function Step(r: Registry, e: Event): Registry {
    match e
    case Connect(s, allowed, now) => AfterConnect(r, s, allowed, now)
    case Register(s, name, address) => AfterRegister(r, s, name, address)
    case Ping(s, now) => AfterPing(r, s, now)
    case Timeout(now) => AfterTimeout(r, now)
    case Disconnect(s) => AfterDisconnect(r, s)
  }

  const EMPTY: Registry := Registry(map[], map[], {}, 0)

  function Run(events: seq<Event>): Registry {
    if events == [] then EMPTY else Step(Run(events[..|events| - 1]), events[|events| - 1])
  }

  // ----- What every reachable registry keeps

  /** Ids are fresh and names distinct; an online realm's socket exists and lists it; a realm is
      offline exactly when it has no socket; a registered socket has not been removed. */
  ghost predicate Coherent(r: Registry) {
    && (forall id :: id in r.realms ==> 0 < id <= r.realmHigh)
    && (forall i, j :: i in r.realms && j in r.realms && r.realms[i].name == r.realms[j].name ==> i == j)
    && (forall id :: id in r.realms && r.realms[id].serverSocket.Some? ==>
          var s := r.realms[id].serverSocket.value;
          s in r.sockets && id in r.sockets[s].serverIds)
    && (forall id :: id in r.realms ==>
          (r.realms[id].colour == REALMCOLOUR_OFFLINE <==> r.realms[id].serverSocket.None?))
    && (forall s :: s in r.registered ==> s in r.sockets && !r.sockets[s].removed)
    && (forall s, id :: s in r.sockets && id in r.sockets[s].serverIds ==> id <= r.realmHigh)
  }

  /** Every online realm is looked after: its socket is still registered. */
  ghost predicate LookedAfter(r: Registry) {
    forall id :: id in r.realms && r.realms[id].serverSocket.Some? ==> r.realms[id].serverSocket.value in r.registered
  }

  ghost predicate Inv(r: Registry) {
    Coherent(r) && LookedAfter(r)
  }

  /** A registration keeps the registry coherent, and keeps its realms looked after exactly when it
      comes from a socket that is still registered. */
  lemma {:induction false} RegisterKeepsInvIff(r: Registry, s: SocketId, name: string, address: string)
    requires Coherent(r) && s in r.sockets
    ensures Coherent(AfterRegister(r, s, name, address))
    ensures LookedAfter(r) ==> (LookedAfter(AfterRegister(r, s, name, address)) <==> s in r.registered)
  {
    var q := AfterRegister(r, s, name, address);
    assert q.realms[q.realmHigh].serverSocket == Some(s);
  }

  lemma {:induction false} ConnectKeepsInv(r: Registry, s: SocketId, allowed: bool, now: nat)
    requires Coherent(r)
    ensures Coherent(AfterConnect(r, s, allowed, now)) && Coherent(AfterPing(r, s, now))
    ensures LookedAfter(r) ==> LookedAfter(AfterConnect(r, s, allowed, now)) && LookedAfter(AfterPing(r, s, now))
  {
  }

  lemma {:induction false} TimeoutKeepsInv(r: Registry, gone: set<SocketId>)
    requires Coherent(r)
    ensures Coherent(TimedOut(r, gone))
    ensures LookedAfter(r) ==> LookedAfter(TimedOut(r, gone))
  {
  }

  lemma {:induction false} DisconnectKeepsInv(r: Registry, s: SocketId)
    requires Coherent(r)
    ensures Coherent(AfterDisconnect(r, s))
    ensures LookedAfter(r) ==> LookedAfter(AfterDisconnect(r, s))
  {
  }

  /** The event registers a realm from a socket that is registered no more, or never was. */
  predicate Stray(r: Registry, e: Event) {
    e.Register? && e.socket in r.sockets && e.socket !in r.registered
  }

  lemma {:induction false} StepKeepsInvIff(r: Registry, e: Event)
    requires Coherent(r)
    ensures Coherent(Step(r, e))
    ensures LookedAfter(r) ==> (LookedAfter(Step(r, e)) <==> !Stray(r, e))
  {
    hide Coherent, LookedAfter, AfterConnect, AfterPing, TimedOut, AfterDisconnect;
    match e
    case Connect(s, allowed, now) => ConnectKeepsInv(r, s, allowed, now);
    case Register(s, name, address) => if s in r.sockets { RegisterKeepsInvIff(r, s, name, address); }
    case Ping(s, now) => ConnectKeepsInv(r, s, true, now);
    case Timeout(now) => TimeoutKeepsInv(r, StaleSockets(r, now));
    case Disconnect(s) => DisconnectKeepsInv(r, s);
  }

  /** Every run stays coherent, whatever its events and their order. */
  lemma {:induction false} RunStaysCoherent(events: seq<Event>)
    ensures Coherent(Run(events))
    decreases |events|
  {
    hide Step, Coherent;
    if events == [] {
      EmptyInv();
    } else {
      RunStaysCoherent(events[..|events| - 1]);
      StepKeepsInvIff(Run(events[..|events| - 1]), events[|events| - 1]);
    }
  }

  ghost predicate NoStray(events: seq<Event>) {
    forall i :: 0 <= i < |events| ==> !Stray(Run(events[..i]), events[i])
  }

  ghost predicate InvThroughout(events: seq<Event>) {
    forall i :: 0 <= i <= |events| ==> Inv(Run(events[..i]))
  }

  /** The full invariant holds throughout a run exactly when no registration in it comes from a
      socket that has already been disconnected, timed out or turned away. */
  lemma {:induction false} RunKeepsInvIff(events: seq<Event>)
    ensures InvThroughout(events) <==> NoStray(events)
    decreases |events|
  {
    hide Coherent, LookedAfter, Step, Stray;
    if events == [] {
      EmptyInv();
      assert events[..0] == [];
    } else {
      var n := |events| - 1;
      var init := events[..n];
      RunKeepsInvIff(init);
      RunStaysCoherent(init);
      StepKeepsInvIff(Run(init), events[n]);
      RunStaysCoherent(events);
      assert events[..n + 1] == events;
      assert forall i :: 0 <= i <= n ==> init[..i] == events[..i];
      InvToTheEnd(events);
    }
  }

  lemma {:induction false} InvToTheEnd(events: seq<Event>)
    requires events != []
    ensures InvThroughout(events) <==> InvThroughout(events[..|events| - 1]) && Inv(Run(events))
    ensures NoStray(events) <==> NoStray(events[..|events| - 1]) && !Stray(Run(events[..|events| - 1]), events[|events| - 1])
  {
    hide Inv, Stray, Run;
    var n := |events| - 1;
    var init := events[..n];
    assert events[..n + 1] == events;
    assert forall i :: 0 <= i <= n ==> init[..i] == events[..i];
    assert forall i :: 0 <= i < n ==> init[i] == events[i];
  }

  lemma {:induction false} EmptyInv()
    ensures Inv(EMPTY)
  {
  }

  /** Such runs exist: a socket that has been disconnected, or has timed out, registers a realm. */
  lemma {:induction false} StrayRegistrationBreaksInv(s: SocketId, name: string, address: string, late: Event)
    requires late == Disconnect(s) || late == Timeout(PING_TIMEOUT + 1)
    ensures var r := Run([Connect(s, true, 0), late, Register(s, name, address)]);
      && !Inv(r) && 1 in r.realms && r.realms[1].serverSocket == Some(s) && s !in r.registered
      && (late.Timeout? ==> s in r.sockets && r.sockets[s].removed)
  {
    var e := [Connect(s, true, 0), late, Register(s, name, address)];
    assert e[..2] == [Connect(s, true, 0), late];
    assert e[..2][..1] == [Connect(s, true, 0)];
    assert Run(e[..2][..1][..0]) == EMPTY;
    var r1 := Run(e[..2][..1]);
    assert r1 == Registry(map[], map[s := Socket(false, {}, 0)], {s}, 0);
    var r2 := Run(e[..2]);
    assert r2.realms == map[] && r2.registered == {} && s in r2.sockets && r2.realmHigh == 0;
    var r3 := Run(e);
    assert r3.realms[1].serverSocket == Some(s) && s !in r3.registered;
    assert !LookedAfter(r3);
  }

  /** The events that end a realm's time online: its own socket's disconnect or timeout, or a new
      registration of its name from whatever socket. */
  predicate Touches(r: Registry, e: Event, id: RealmId)
    requires id in r.realms
  {
    match e
    case Connect(_, _, _) => false
    case Ping(_, _) => false
    case Register(s, name, _) => s in r.sockets && name == r.realms[id].name
    case Timeout(now) =>
      r.realms[id].serverSocket.Some? && r.realms[id].serverSocket.value in StaleSockets(r, now)
    case Disconnect(s) => r.realms[id].serverSocket == Some(s) && s in r.sockets && !r.sockets[s].removed
  }

  /** A realm that is online stays exactly as it is until an event touches it; an event that does
      takes it offline or, when its name registers anew, drops its old id for a fresh one. */
  lemma {:induction false} OnlineUntilTouched(r: Registry, e: Event, id: RealmId)
    requires Coherent(r) && id in r.realms && r.realms[id].serverSocket.Some?
    ensures id in Step(r, e).realms && Step(r, e).realms[id] == r.realms[id] <==> !Touches(r, e, id)
    ensures Touches(r, e, id) && !e.Register? ==>
      id in Step(r, e).realms && Step(r, e).realms[id] == Offline(r.realms[id])
    ensures Touches(r, e, id) && e.Register? ==>
      && id !in Step(r, e).realms
      && Step(r, e).realmHigh in Step(r, e).realms
      && Step(r, e).realms[Step(r, e).realmHigh].serverSocket == Some(e.socket)
  {
  }

  /** The events of a run from a given registry. */
  function RunFrom(r: Registry, events: seq<Event>): Registry
    decreases |events|
  {
    if events == [] then r else RunFrom(Step(r, events[0]), events[1..])
  }

  ghost predicate TouchedIn(r: Registry, events: seq<Event>, id: RealmId)
    decreases |events|
  {
    events != [] && id in r.realms &&
      (Touches(r, events[0], id) || TouchedIn(Step(r, events[0]), events[1..], id))
  }

  /** A realm that has come back on a new socket is not disturbed by anything that happens to its
      old sockets, however late and however often. */
  lemma {:induction false} StaysOnline(r: Registry, events: seq<Event>, id: RealmId)
    requires Coherent(r) && id in r.realms && r.realms[id].serverSocket.Some?
    requires !TouchedIn(r, events, id)
    ensures id in RunFrom(r, events).realms && RunFrom(r, events).realms[id] == r.realms[id]
    decreases |events|
  {
    hide Step, Coherent, Touches;
    if events != [] {
      OnlineUntilTouched(r, events[0], id);
      StepKeepsInvIff(r, events[0]);
      StaysOnline(Step(r, events[0]), events[1..], id);
    }
  }

  /** A realm registered from a socket that had already timed out stays online for ever, until its
      name is registered again: no timeout and no disconnect takes it offline any more. */
  lemma {:induction false} StrayRealmStaysOnline(r: Registry, events: seq<Event>, id: RealmId)
    requires Coherent(r) && id in r.realms && r.realms[id].serverSocket.Some?
    requires var s := r.realms[id].serverSocket.value; s in r.sockets && r.sockets[s].removed
    requires forall e :: e in events && e.Register? ==> e.name != r.realms[id].name
    ensures id in RunFrom(r, events).realms && RunFrom(r, events).realms[id] == r.realms[id]
    decreases |events|
  {
    hide Coherent, Step;
    if events != [] {
      NeverTouched(r, events[0], id);
      OnlineUntilTouched(r, events[0], id);
      StepKeepsInvIff(r, events[0]);
      RemovedForGood(r, events[0], r.realms[id].serverSocket.value);
      StrayRealmStaysOnline(Step(r, events[0]), events[1..], id);
    }
  }

  lemma {:induction false} NeverTouched(r: Registry, e: Event, id: RealmId)
    requires Coherent(r) && id in r.realms && r.realms[id].serverSocket.Some?
    requires var s := r.realms[id].serverSocket.value; s in r.sockets && r.sockets[s].removed
    requires e.Register? ==> e.name != r.realms[id].name
    ensures !Touches(r, e, id)
  {
  }

  lemma {:induction false} RemovedForGood(r: Registry, e: Event, s: SocketId)
    requires s in r.sockets && r.sockets[s].removed
    ensures s in Step(r, e).sockets && Step(r, e).sockets[s].removed
  {
  }

  /** After the disconnect or timeout of a socket not removed before, no realm is online through it;
      its own realms, and only they, have changed. */
  lemma {:induction false} GoneSocketOwnsNothing(r: Registry, e: Event, s: SocketId)
    requires Coherent(r) && s in r.sockets && !r.sockets[s].removed
    requires e == Disconnect(s) || (e.Timeout? && s in StaleSockets(r, e.now))
    ensures s !in Step(r, e).registered
    ensures forall id :: id in r.realms && r.realms[id].serverSocket == Some(s) ==>
      id in Step(r, e).realms && Step(r, e).realms[id] == Offline(r.realms[id])
    ensures forall id :: id in Step(r, e).realms ==> Step(r, e).realms[id].serverSocket != Some(s)
    ensures Step(r, e).realms.Keys == r.realms.Keys
    ensures e.Disconnect? ==> forall id :: id in r.realms && r.realms[id].serverSocket != Some(s) ==> Step(r, e).realms[id] == r.realms[id]
  {
  }

  lemma {:induction false} OneRealmPerName(r: Registry, name: string)
    requires Coherent(r)
    ensures forall id :: id in IdByName(r.realms, name) ==> IdByName(r.realms, name) == {id}
    ensures r.realmHigh + 1 !in r.realms
  {
  }

  // ----- What a run says of sockets and realms, read off its events alone

  /** When a socket was last heard of: at its first connect, allowed or not, or at a ping after it. */
  function LastSeen(events: seq<Event>, s: SocketId): Option<nat>
    decreases |events|
  {
    if events == [] then None
    else Seen(LastSeen(events[..|events| - 1], s), events[|events| - 1], s)
  }

  /** When a socket was last heard of after one event more. */
  function Seen(before: Option<nat>, e: Event, s: SocketId): Option<nat> {
    match e
    case Connect(c, _, now) => if c == s && before.None? then Some(now) else before
    case Ping(c, now) => if c == s && before.Some? then Some(now) else before
    case _ => before
  }

  lemma {:induction false} SeenWhen(events: seq<Event>, s: SocketId)
    ensures s in Run(events).sockets <==> LastSeen(events, s).Some?
    ensures s in Run(events).sockets ==> Run(events).sockets[s].lastPing == LastSeen(events, s).value
    decreases |events|
  {
    hide Run, LastSeen, Step;
    if events == [] {
      NothingSeen(s);
    } else {
      var n := |events| - 1;
      SeenWhen(events[..n], s);
      OneSeen(Run(events[..n]), events[n], s);
      OneMore(events, s);
    }
  }

  lemma {:induction false} NothingSeen(s: SocketId)
    ensures Run([]) == EMPTY && LastSeen([], s).None?
  {
  }

  lemma {:induction false} OneMore(events: seq<Event>, s: SocketId)
    requires events != []
    ensures var n := |events| - 1;
      Run(events) == Step(Run(events[..n]), events[n]) && LastSeen(events, s) == Seen(LastSeen(events[..n], s), events[n], s)
  {
  }

  function Noted(r: Registry, s: SocketId): Option<nat> {
    if s in r.sockets then Some(r.sockets[s].lastPing) else None
  }

  lemma {:induction false} OneSeen(r: Registry, e: Event, s: SocketId)
    ensures Noted(Step(r, e), s) == Seen(Noted(r, s), e, s)
  {
  }

  /** Over every run: a timeout drops a registered socket exactly when its last connect or ping lies
      more than 60 seconds back, in 32-bit arithmetic. */
  lemma {:induction false} TimeoutDropsIff(events: seq<Event>, s: SocketId, now: nat)
    requires s in Run(events).registered
    ensures LastSeen(events, s).Some?
    ensures s !in Run(events + [Timeout(now)]).registered <==> (now - LastSeen(events, s).value) % 0x1_0000_0000 > 60
  {
    hide LastSeen;
    RunStaysCoherent(events);
    SeenWhen(events, s);
    assert (events + [Timeout(now)])[..|events|] == events;
  }

  /** A ping keeps a socket registered, and its realms as they are, for 60 seconds. */
  lemma {:induction false} PingKeepsOnline(events: seq<Event>, s: SocketId, t: nat, now: nat)
    requires s in Run(events).registered && t <= now <= t + 60
    ensures var r := Run(events + [Ping(s, t), Timeout(now)]);
      && s in r.registered
      && forall id :: id in Run(events).realms && Run(events).realms[id].serverSocket == Some(s) ==>
           id in r.realms && r.realms[id] == Run(events).realms[id]
  {
    RunStaysCoherent(events);
    var e := events + [Ping(s, t), Timeout(now)];
    assert e[..|e| - 1][..|e| - 2] == events;
  }

  /** A socket never heard of before is registered by its connect exactly when its address is allowed. */
  lemma {:induction false} EnteredIff(events: seq<Event>, s: SocketId, allowed: bool, now: nat)
    requires LastSeen(events, s).None?
    ensures s in Run(events + [Connect(s, allowed, now)]).registered <==> allowed
  {
    hide LastSeen;
    RunStaysCoherent(events);
    SeenWhen(events, s);
    assert (events + [Connect(s, allowed, now)])[..|events|] == events;
  }

  /** The last registration of a name that was not ignored: its socket had been heard of. */
  function LastRegistered(events: seq<Event>, name: string): Option<Event>
    decreases |events|
  {
    if events == [] then None
    else
      var before, e := events[..|events| - 1], events[|events| - 1];
      if e.Register? && e.name == name && LastSeen(before, e.socket).Some? then Some(e) else LastRegistered(before, name)
  }

  /** The realm is as an event registered it, or else offline. */
  predicate RegisteredBy(realm: Realm, e: Event) {
    e.Register? && realm.name == e.name && realm.address == e.address &&
      ((realm.colour == 0 && realm.serverSocket == Some(e.socket)) || (realm.colour == 2 && realm.serverSocket == None))
  }

  /** A name has a realm exactly when it has registered, and only one; the realm is as the last
      registration had it: online through that socket, or offline. */
  predicate AsRegistered(realms: map<RealmId, Realm>, name: string, last: Option<Event>) {
    match last
    case None => IdByName(realms, name) == {}
    case Some(e) => exists id :: id in realms && IdByName(realms, name) == {id} && RegisteredBy(realms[id], e)
  }

  /** So it is after every run. */
  lemma {:induction false} RealmsAsRegistered(events: seq<Event>, name: string)
    ensures AsRegistered(Run(events).realms, name, LastRegistered(events, name))
    decreases |events|
  {
    hide AsRegistered, Coherent, Step, LastSeen;
    if events == [] {
      NoRealms(name);
    } else {
      var n := |events| - 1;
      var r := Run(events[..n]);
      RealmsAsRegistered(events[..n], name);
      RunStaysCoherent(events[..n]);
      if events[n].Register? {
        SeenWhen(events[..n], events[n].socket);
        OneRegistered(r, events[n].socket, events[n].name, events[n].address, name, LastRegistered(events[..n], name));
      } else {
        OthersKeepRegistered(r, events[n], name, LastRegistered(events[..n], name));
      }
    }
  }

  lemma {:induction false} NoRealms(name: string)
    ensures AsRegistered(EMPTY.realms, name, None)
  {
  }

  lemma {:induction false} OneRegistered(r: Registry, s: SocketId, named: string, address: string, name: string, last: Option<Event>)
    requires Coherent(r) && AsRegistered(r.realms, name, last)
    ensures var e := Register(s, named, address);
      AsRegistered(Step(r, e).realms, name, if s in r.sockets && named == name then Some(e) else last)
  {
    var e := Register(s, named, address);
    var q := Step(r, e).realms;
    if s in r.sockets {
      var id := r.realmHigh + 1;
      OneRealmPerName(r, named);
      if named == name {
        assert IdByName(q, name) == {id} && RegisteredBy(q[id], e);
      } else {
        assert IdByName(q, name) == IdByName(r.realms, name);
        if last.Some? {
          var i :| i in r.realms && IdByName(r.realms, name) == {i} && RegisteredBy(r.realms[i], last.value);
          assert i in IdByName(q, name) && q[i] == r.realms[i];
        }
      }
    }
  }

  lemma {:induction false} OthersKeepRegistered(r: Registry, e: Event, name: string, last: Option<Event>)
    requires AsRegistered(r.realms, name, last) && !e.Register?
    ensures AsRegistered(Step(r, e).realms, name, last)
  {
    hide AsRegistered;
    OthersOnlyTakeOffline(r, e);
    SameOrOffline(r.realms, Step(r, e).realms, name, last);
  }

  lemma {:induction false} OthersOnlyTakeOffline(r: Registry, e: Event)
    requires !e.Register?
    ensures Step(r, e).realms.Keys == r.realms.Keys
    ensures forall id :: id in r.realms ==> Step(r, e).realms[id] in {r.realms[id], Offline(r.realms[id])}
  {
  }

  lemma {:induction false} SameOrOffline(before: map<RealmId, Realm>, after: map<RealmId, Realm>, name: string, last: Option<Event>)
    requires AsRegistered(before, name, last) && after.Keys == before.Keys
    requires forall id :: id in before ==> after[id] in {before[id], Offline(before[id])}
    ensures AsRegistered(after, name, last)
  {
    assert IdByName(after, name) == IdByName(before, name);
    if last.Some? {
      var i :| i in before && IdByName(before, name) == {i} && RegisteredBy(before[i], last.value);
      assert RegisteredBy(after[i], last.value);
    }
  }

  // ----- The registry that is updated in place

  class InformationCore {
    var realms: map<RealmId, Realm>
    var sockets: map<SocketId, Socket>
    var registered: set<SocketId>
    var realmHigh: nat
    const usePings: bool

    ghost function State(): Registry
      reads this
    {
      Registry(realms, sockets, registered, realmHigh)
    }

    constructor (usePings: bool)
      ensures State() == EMPTY && this.usePings == usePings
    {
      realms, sockets, registered, realmHigh := map[], map[], {}, 0;
      this.usePings := usePings;
    }

    /** A new socket is constructed and, if its address is allowed, entered. */
    method OnConnect(s: SocketId, allowed: bool, now: nat)
      requires s !in sockets
      modifies this
      ensures State() == AfterConnect(old(State()), s, allowed, now)
    {
      sockets := sockets[s := Socket(true, {}, now)];
      if !allowed {
        return;
      }
      registered := registered + {s};
      sockets := sockets[s := sockets[s].(removed := false)];
    }

    method HandlePing(s: SocketId, now: nat)
      requires s in sockets
      modifies this`sockets
      ensures State() == AfterPing(old(State()), s, now)
    {
      sockets := sockets[s := sockets[s].(lastPing := now)];
    }

    method GetRealmIdByName(name: string) returns (id: int)
      ensures id == -1 ==> IdByName(realms, name) == {}
      ensures id != -1 ==> id in realms && realms[id].name == name
    {
      var left := realms.Keys;
      while left != {}
        invariant left <= realms.Keys
        invariant forall i :: i in realms && i !in left ==> realms[i].name != name
      {
        var i :| i in left;
        if realms[i].name == name {
          return i;
        }
        left := left - {i};
      }
      return -1;
    }

    method GenerateRealmID() returns (id: RealmId)
      modifies this`realmHigh
      ensures id == realmHigh == old(realmHigh) + 1
    {
      realmHigh := realmHigh + 1;
      id := realmHigh;
    }

    /** An id that is taken keeps its realm. */
    method AddRealm(id: RealmId, realm: Realm)
      modifies this`realms
      ensures realms == if id in old(realms) then old(realms) else old(realms)[id := realm]
    {
      if id !in realms {
        realms := realms[id := realm];
      }
    }

    method RemoveRealm(id: RealmId)
      modifies this`realms
      ensures realms == old(realms) - {id}
    {
      if id in realms {
        realms := realms - {id};
      }
    }

    method HandleRegister(s: SocketId, name: string, address: string) returns (id: int)
      requires Coherent(State()) && s in sockets
      modifies this
      ensures State() == AfterRegister(old(State()), s, name, address) && id == realmHigh
      ensures Coherent(State())
      ensures old(LookedAfter(State())) ==> (LookedAfter(State()) <==> s in registered)
    {
      hide Coherent, LookedAfter;
      RegisterKeepsInvIff(State(), s, name, address);
      OneRealmPerName(State(), name);
      ghost var before := realms;
      id := GetRealmIdByName(name);
      if id == -1 {
        id := GenerateRealmID();
        assert before - IdByName(before, name) == before;
      } else {
        assert id in IdByName(before, name);
        RemoveRealm(id);
        id := GenerateRealmID();
      }
      AddRealm(id, Realm(name, address, REALMCOLOUR_GREEN, Some(s)));
      sockets := sockets[s := sockets[s].(serverIds := sockets[s].serverIds + {id})];
    }

    /** Only the socket that a realm was registered through can take it offline. */
    method SetRealmOffline(id: RealmId, s: SocketId)
      modifies this`realms
      ensures realms == TakenOffline(old(realms), {id}, s)
    {
      if id in realms && realms[id].serverSocket == Some(s) {
        realms := realms[id := Offline(realms[id])];
      }
    }

    method SetRealmsOffline(s: SocketId)
      requires s in sockets
      modifies this`realms
      ensures realms == TakenOffline(old(realms), sockets[s].serverIds, s)
    {
      var left := sockets[s].serverIds;
      assert realms == TakenOffline(realms, {}, s);
      while left != {}
        invariant left <= sockets[s].serverIds
        invariant realms == TakenOffline(old(realms), sockets[s].serverIds - left, s)
      {
        var id :| id in left;
        SetRealmOffline(id, s);
        left := left - {id};
      }
      assert sockets[s].serverIds - {} == sockets[s].serverIds;
    }

    method OnDisconnect(s: SocketId)
      requires s in sockets
      modifies this
      ensures State() == AfterDisconnect(old(State()), s)
    {
      if !sockets[s].removed {
        SetRealmsOffline(s);
        registered := registered - {s};
      }
    }

    /** What a ping timeout does to one socket; the disconnect it sets off finds it removed. */
    method DropSocket(s: SocketId)
      requires s in sockets
      modifies this
      ensures State() == old(Registry(TakenOffline(realms, sockets[s].serverIds, s),
                                      sockets[s := sockets[s].(removed := true)], registered - {s}, realmHigh))
    {
      hide TakenOffline;
      sockets := sockets[s := sockets[s].(removed := true)];
      SetRealmsOffline(s);
      registered := registered - {s};
      OnDisconnect(s);
    }

    /** Takes every silent socket out while walking over the set of them. */
    method TimeoutSockets(now: nat)
      requires Coherent(State())
      modifies this
      ensures Coherent(State()) && (old(LookedAfter(State())) ==> LookedAfter(State()))
      ensures State() == if usePings then AfterTimeout(old(State()), now) else old(State())
    {
      if !usePings {
        return;
      }
      hide TimedOut, Coherent, LookedAfter, StaleSockets, AfterTimeout;
      ghost var r := State();
      ghost var stale := StaleSockets(r, now);
      StaleAreRegistered(r, now);
      TimeoutKeepsInv(r, stale);
      NoneTimedOut(r);
      var left := registered;
      ghost var gone := {};
      while left != {}
        invariant left <= r.registered && State() == TimedOut(r, gone)
        invariant gone <= stale <= gone + left && gone !! left
      {
        var s :| s in left;
        CheckSocket(s, now, r, gone);
        gone := gone + if s in stale then {s} else {};
        left := left - {s};
      }
      assert gone == stale;
    }

    /** One turn of the walk: the others in `gone` have been dropped before. */
    method CheckSocket(s: SocketId, now: nat, ghost r: Registry, ghost gone: set<SocketId>)
      requires Coherent(r) && s in r.registered && s !in gone && State() == TimedOut(r, gone)
      modifies this
      ensures State() == TimedOut(r, gone + if s in StaleSockets(r, now) then {s} else {})
    {
      hide TimedOut, TakenOffline;
      TimeOutOne(r, gone, s);
      if !sockets[s].removed && Silence(now, sockets[s].lastPing) > PING_TIMEOUT {
        DropSocket(s);
      } else {
        assert gone + {} == gone;
      }
    }
  }

  lemma {:induction false} StaleAreRegistered(r: Registry, now: nat)
    ensures StaleSockets(r, now) <= r.registered
    ensures AfterTimeout(r, now) == TimedOut(r, StaleSockets(r, now))
  {
  }

  lemma {:induction false} NoneTimedOut(r: Registry)
    requires Coherent(r)
    ensures TimedOut(r, {}) == r
  {
  }

  /** Timing out one socket more. */
  lemma {:induction false} TimeOutOne(r: Registry, gone: set<SocketId>, s: SocketId)
    requires Coherent(r) && s in r.registered && s !in gone
    ensures s in r.sockets && s in TimedOut(r, gone).sockets && TimedOut(r, gone).sockets[s] == r.sockets[s]
    ensures var t := TimedOut(r, gone);
      TimedOut(r, gone + {s}) ==
        Registry(TakenOffline(t.realms, r.sockets[s].serverIds, s),
                 t.sockets[s := r.sockets[s].(removed := true)], t.registered - {s}, t.realmHigh)
  {
  }
}
