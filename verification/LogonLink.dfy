/** Both ends of the logon link together: two sockets, and the bytes under way between them. */
module LogonLink {
  import opened Bytes
  import opened Rc4
  import opened CircularBuffer
  import opened LinkProtocol
  import opened LogonSocket

  /** The sending half of one socket and the receiving half of the other share nothing. */
  ghost predicate Apart(s: LogonCommSocket, r: LogonCommSocket)
    reads s, s.readBuffer, s.writeBuffer, s.recvCrypto, s.sendCrypto
    reads r, r.readBuffer, r.writeBuffer, r.recvCrypto, r.sendCrypto
  {
    && s != r && s.Valid() && r.Valid() && s.useCrypto == r.useCrypto
    && s.writeBuffer != r.readBuffer && s.sendCrypto != r.recvCrypto
    && s.writeBuffer.buffer != r.readBuffer.buffer && s.writeBuffer.buffer != r.recvCrypto.perm
    && s.sendCrypto.perm != r.readBuffer.buffer && s.sendCrypto.perm != r.recvCrypto.perm
    && s.readBuffer !in {r.readBuffer, r.writeBuffer} && s.recvCrypto !in {r.recvCrypto, r.sendCrypto}
    && s.writeBuffer != r.writeBuffer && s.sendCrypto != r.sendCrypto
  }

  /** The two sockets and the bytes between them as a state of the protocol. */
  ghost function AsLink(s: LogonCommSocket, r: LogonCommSocket, key: Cipher, sent: seq<Packet>, flight: seq<byte>): Link
    reads s, s.writeBuffer, s.writeBuffer.buffer, s.sendCrypto, s.sendCrypto.perm
    reads r, r.readBuffer, r.readBuffer.buffer, r.recvCrypto, r.recvCrypto.perm
    requires s.writeBuffer.Valid() && s.sendCrypto.Valid() && r.readBuffer.Valid() && r.recvCrypto.Valid()
  {
    Link(s.useCrypto, key, sent, s.sendCrypto.State(), flight + s.writeBuffer.Contents(), r.Receiving())
  }

  /** Queues a packet at the sending end. */
  method SendOne(s: LogonCommSocket, r: LogonCommSocket, p: Packet, ghost key: Cipher, ghost sent: seq<Packet>, ghost flight: seq<byte>)
    returns (ok: bool)
    requires Apart(s, r) && Inv(AsLink(s, r, key, sent, flight))
    modifies s.writeBuffer, s.writeBuffer.buffer, s.sendCrypto, s.sendCrypto.perm
    ensures Apart(s, r) && r.handled == old(r.handled)
    ensures ok ==> AsLink(s, r, key, sent + [p], flight) == Step(old(AsLink(s, r, key, sent, flight)), Event.Send(p))
    ensures ok ==> Inv(AsLink(s, r, key, sent + [p], flight))
  {
    hide Code, Turn, Inv, Step, Frame, View;
    ghost var l := AsLink(s, r, key, sent, flight);
    InvForms(l);
    StepKeepsInv(l, Event.Send(p));
    SendIs(l, p, flight, s.writeBuffer.Contents());
    var contents := new byte[|p.body|](i requires 0 <= i < |p.body| => p.body[i]);
    assert Packet(p.opcode, contents[..]) == p;
    ok := s.SendPacket(p.opcode, contents);
  }

  lemma {:induction false} SendIs(l: Link, p: Packet, flight: seq<byte>, queued: seq<byte>)
    requires CiphersFormed(l) && l.flight == flight + queued
    ensures Step(l, Event.Send(p)) ==
      l.(sent := l.sent + [p], sendCipher := Turn(l.on, l.sendCipher, 6 + |p.body|),
         flight := flight + (queued + Code(l.on, l.sendCipher, Frame(p))))
  {
    hide Code, Turn;
    assert |Frame(p)| == 6 + |p.body|;
    assert flight + queued + Code(l.on, l.sendCipher, Frame(p)) == flight + (queued + Code(l.on, l.sendCipher, Frame(p)));
  }

  /** Some of the bytes queued leave the sending end. */
  method Transmit(s: LogonCommSocket, r: LogonCommSocket, n: nat, flight: seq<byte>, ghost key: Cipher, ghost sent: seq<Packet>)
    returns (more: seq<byte>)
    requires Apart(s, r)
    modifies s.writeBuffer, s.writeBuffer.buffer
    ensures Apart(s, r) && AsLink(s, r, key, sent, more) == old(AsLink(s, r, key, sent, flight))
    ensures n >= |old(s.writeBuffer.Contents())| ==> s.writeBuffer.Contents() == []
  {
    hide View;
    var queued := s.writeBuffer.GetSize();
    ghost var waiting := s.writeBuffer.Contents();
    var ready, bytes := s.writeBuffer.Read(if n < queued then n else queued);
    more := flight + bytes;
    Regroup(flight, bytes, s.writeBuffer.Contents());
    assert waiting == bytes + s.writeBuffer.Contents();
  }

  lemma {:induction false} Regroup(a: seq<byte>, b: seq<byte>, c: seq<byte>)
    ensures a + (b + c) == a + b + c
  {
  }

  /** The receiving end takes what it has room for. */
  method Deliver(s: LogonCommSocket, r: LogonCommSocket, flight: seq<byte>, ghost key: Cipher, ghost sent: seq<Packet>)
    returns (taken: nat)
    requires Apart(s, r) && Inv(AsLink(s, r, key, sent, flight)) && flight != [] && Waits(r.Receiving())
    modifies r, r.readBuffer, r.readBuffer.buffer, r.recvCrypto, r.recvCrypto.perm
    ensures Apart(s, r) && taken <= |flight| && Inv(AsLink(s, r, key, sent, flight[taken..]))
    ensures Waits(r.Receiving())
  {
    hide Inv, Step, Drain, Waits;
    ghost var l := AsLink(s, r, key, sent, flight);
    InvForms(l);
    taken := r.ReadCallback(flight);
    if taken > 0 {
      StepKeepsInv(l, Event.Arrive(taken));
      ArriveIs(l, flight, s.writeBuffer.Contents(), taken);
      DrainWaits(l.on, l.receiver.(buffer := l.receiver.buffer + flight[..taken]));
    }
  }

  lemma {:induction false} InvForms(l: Link)
    requires Inv(l)
    ensures CiphersFormed(l)
  {
  }

  lemma {:induction false} ArriveIs(l: Link, flight: seq<byte>, queued: seq<byte>, taken: nat)
    requires CiphersFormed(l) && l.flight == flight + queued && taken <= |flight|
    ensures Step(l, Event.Arrive(taken)) ==
      l.(flight := flight[taken..] + queued, receiver := Drain(l.on, l.receiver.(buffer := l.receiver.buffer + flight[..taken])))
  {
    assert (flight + queued)[..taken] == flight[..taken];
    assert (flight + queued)[taken..] == flight[taken..] + queued;
  }

  lemma {:induction false} StartInv(key: Cipher)
    requires WellFormed(key)
    ensures Inv(Start(true, key))
  {
    TurnSplits(true, key, 0, 0);
  }

  /** Two new sockets whose ciphers are set up alike, as the handshake leaves them. */
  method Open(key: seq<byte>, receiveSize: nat, sendSize: nat) returns (s: LogonCommSocket, r: LogonCommSocket)
    requires key != []
    ensures fresh(s) && fresh(s.writeBuffer) && fresh(s.writeBuffer.buffer) && fresh(s.sendCrypto) && fresh(s.sendCrypto.perm)
    ensures fresh(r) && fresh(r.readBuffer) && fresh(r.readBuffer.buffer) && fresh(r.recvCrypto) && fresh(r.recvCrypto.perm)
    ensures Apart(s, r) && Inv(AsLink(s, r, KeySchedule(key), [], [])) && Waits(r.Receiving())
  {
    hide Inv, KeySchedule, View;
    s := new LogonCommSocket(sendSize, sendSize);
    s.useCrypto := true;
    s.sendCrypto.Setup(key);
    r := new LogonCommSocket(receiveSize, receiveSize);
    r.useCrypto := true;
    r.recvCrypto.Setup(key);
    StartInv(KeySchedule(key));
    assert AsLink(s, r, KeySchedule(key), [], []) == Start(true, KeySchedule(key));
  }

  /** One event at the two sockets; not done when a write is refused or there is no room to receive. */
  method Drive(s: LogonCommSocket, r: LogonCommSocket, e: Event, flight: seq<byte>, ghost key: Cipher, ghost sent: seq<Packet>)
    returns (ok: bool, left: seq<byte>, ghost now: seq<Packet>)
    requires Apart(s, r) && Inv(AsLink(s, r, key, sent, flight)) && Waits(r.Receiving())
    modifies s.writeBuffer, s.writeBuffer.buffer, s.sendCrypto, s.sendCrypto.perm
    modifies r, r.readBuffer, r.readBuffer.buffer, r.recvCrypto, r.recvCrypto.perm
    ensures Apart(s, r) && (ok ==> Inv(AsLink(s, r, key, now, left)) && Waits(r.Receiving()))
    ensures r.handled <= now && (ok ==> now == sent + if e.Send? then [e.packet] else [])
  {
    hide Inv, Step, Waits;
    ok, left, now := true, flight, sent;
    HandedIsPrefix(AsLink(s, r, key, sent, flight));
    match e
    case Send(p) =>
      ok := SendOne(s, r, p, key, sent, flight);
      now := sent + if ok then [p] else [];
    case Arrive(n) =>
      left := Transmit(s, r, n, flight, key, sent);
      if left != [] {
        var taken := Deliver(s, r, left, key, sent);
        HandedIsPrefix(AsLink(s, r, key, sent, left[taken..]));
        ok, left := taken > 0, left[taken..];
      }
  }

  lemma {:induction false} HandedIsPrefix(l: Link)
    requires Inv(l)
    ensures l.receiver.handed <= l.sent
    ensures l.flight == [] && Waits(l.receiver) ==> l.receiver.handed == l.sent && l.receiver.buffer == []
  {
    MoreToCome(l.on, l.key, l.sent, l.flight, l.receiver);
  }

  /** Two sockets after the handshake, driven by any list of sends and arrivals, until a write is
      refused or the receiver has no room: the receiver has handed over a prefix of the packets
      accepted, and all of them once no byte is left on the way. */
  method Exchange(key: seq<byte>, receiveSize: nat, sendSize: nat, events: seq<Event>)
    returns (s: LogonCommSocket, r: LogonCommSocket, up: bool, flight: seq<byte>, ghost sent: seq<Packet>)
    requires key != []
    ensures Apart(s, r) && r.handled <= sent && (up ==> sent == SentBy(events))
    ensures up && flight == [] && s.writeBuffer.Contents() == [] ==> r.handled == SentBy(events)
  {
    hide Inv, SentBy, Waits;
    s, r := Open(key, receiveSize, sendSize);
    ghost var k := KeySchedule(key);
    up, flight, sent := true, [], [];
    NothingSent();
    HandedIsPrefix(AsLink(s, r, k, sent, flight));
    for i := 0 to |events|
      invariant up && Apart(s, r) && Inv(AsLink(s, r, k, sent, flight)) && Waits(r.Receiving())
      invariant sent == SentBy(events[..i]) && r.handled <= sent
      invariant fresh(s) && fresh(s.writeBuffer) && fresh(s.writeBuffer.buffer) && fresh(s.sendCrypto) && fresh(s.sendCrypto.perm)
      invariant fresh(r) && fresh(r.readBuffer) && fresh(r.readBuffer.buffer) && fresh(r.recvCrypto) && fresh(r.recvCrypto.perm)
    {
      OneMoreEvent(events, i);
      up, flight, sent := Drive(s, r, events[i], flight, k, sent);
      if !up {
        return;
      }
    }
    assert events[..|events|] == events;
    HandedIsPrefix(AsLink(s, r, k, sent, flight));
  }

  lemma {:induction false} NothingSent()
    ensures SentBy([]) == []
  {
  }

  lemma {:induction false} OneMoreEvent(events: seq<Event>, i: nat)
    requires i < |events|
    ensures SentBy(events[..i + 1]) == SentBy(events[..i]) + if events[i].Send? then [events[i].packet] else []
  {
    assert events[..i + 1][..i] == events[..i];
  }
}
