/** The packet link between logon server and realm server after the handshake: length-prefixed
    frames under a stream cipher, over a byte stream that arrives cut in any way. */
module LinkProtocol {
  import opened Bytes
  import opened Rc4

  /** The C types of the header fields. */
  type uint16 = x: int | 0 <= x < 0x1_0000
  type uint32 = x: int | 0 <= x < 0x1_0000_0000

  /** A packet; the length field of its header has 32 bits. */
  datatype PacketData = Packet(opcode: uint16, body: seq<byte>)

  type Packet = p: PacketData | |p.body| < 0x1_0000_0000 witness Packet(0, [])

  // ----- Words in memory and on the wire

  function FromLe16(s: seq<byte>): uint16
    requires |s| == 2
  {
    FromLeBound(s);
    assert Pow256(2) == 0x1_0000;
    FromLe(s)
  }

  function FromLe32(s: seq<byte>): uint32
    requires |s| == 4
  {
    FromLeBound(s);
    assert Pow256(4) == 0x1_0000_0000;
    FromLe(s)
  }

  /** The byte swap of the header size: shifts and masks, written as division and remainder. */
  function Swap32(p: uint32): uint32 {
    p / 0x100_0000 % 0x100 + p / 0x1_0000 % 0x100 * 0x100 + p / 0x100 % 0x100 * 0x1_0000 + p % 0x100 * 0x100_0000
  }

  lemma {:induction false} BytesOfNumber(n: uint32)
    ensures n == n % 0x100 + 0x100 * (n / 0x100 % 0x100) + 0x1_0000 * (n / 0x1_0000 % 0x100)
                 + 0x100_0000 * (n / 0x100_0000 % 0x100)
  {
  }

  lemma {:induction false} HalfRoundTrip(x: uint16)
    ensures FromLe16(LeBytes(x, 2)) == x
  {
    assert Pow256(2) == 0x1_0000;
    LeRoundTrip(x, 2);
  }

  lemma {:induction false} WordRoundTrip(x: uint32)
    ensures FromLe32(LeBytes(x, 4)) == x
  {
    assert Pow256(4) == 0x1_0000_0000;
    LeRoundTrip(x, 4);
  }

  /** Four digits to the base 256 are determined by their number. */
  lemma {:induction false} Digits(a: nat, b: nat, c: nat, d: nat)
    requires a < 0x100 && b < 0x100 && c < 0x100 && d < 0x100
    ensures var n := a + b * 0x100 + c * 0x1_0000 + d * 0x100_0000;
      && n % 0x100 == a && n / 0x100 % 0x100 == b && n / 0x1_0000 % 0x100 == c && n / 0x100_0000 % 0x100 == d
  {
  }

  lemma {:induction false} SwapRoundTrip(x: uint32)
    ensures Swap32(Swap32(x)) == x
  {
    Digits(x / 0x100_0000 % 0x100, x / 0x1_0000 % 0x100, x / 0x100 % 0x100, x % 0x100);
    BytesOfNumber(x);
  }

  /** The swap reverses the bytes: in memory the highest stands first. */
  lemma {:induction false} SwapReverses(x: uint32)
    ensures LeBytes(Swap32(x), 4) == [x / 0x100_0000, x / 0x1_0000 % 0x100, x / 0x100 % 0x100, x % 0x100]
  {
    var d3, d2, d1, d0 := x / 0x100_0000 % 0x100, x / 0x1_0000 % 0x100, x / 0x100 % 0x100, x % 0x100;
    Digits(d3, d2, d1, d0);
    hide LeBytes;
    LeFour(Swap32(x));
  }

  lemma {:induction false} LeFour(y: uint32)
    ensures LeBytes(y, 4) == [y % 0x100, y / 0x100 % 0x100, y / 0x1_0000 % 0x100, y / 0x100_0000 % 0x100]
  {
    LeBytesAt(y, 4, 0);
    LeBytesAt(y, 4, 1);
    LeBytesAt(y, 4, 2);
    LeBytesAt(y, 4, 3);
    assert Pow256(1) == 0x100 && Pow256(2) == 0x1_0000 && Pow256(3) == 0x100_0000;
  }

  /** The packed header in memory, with the size field in network order. */
  function Header(p: Packet): (h: seq<byte>)
    ensures |h| == 6
  {
    LeBytes(p.opcode, 2) + LeBytes(Swap32(|p.body|), 4)
  }

  function Frame(p: Packet): (f: seq<byte>)
    ensures |f| == 6 + |p.body|
  {
    Header(p) + p.body
  }

  /** What a packet looks like on the wire: the opcode with its low byte first, the length of the body
      with its high byte first, the body. */
  lemma {:induction false} FrameBytes(p: Packet)
    ensures p.opcode / 0x100 < 0x100 && |p.body| / 0x100_0000 < 0x100
    ensures var n := |p.body|;
      Frame(p) == [p.opcode % 0x100, p.opcode / 0x100, n / 0x100_0000, n / 0x1_0000 % 0x100, n / 0x100 % 0x100, n % 0x100] + p.body
  {
    hide Swap32, LeBytes;
    SwapReverses(|p.body|);
    LeTwo(p.opcode);
  }

  lemma {:induction false} LeTwo(y: uint16)
    ensures LeBytes(y, 2) == [y % 0x100, y / 0x100]
  {
    LeBytesAt(y, 2, 0);
    LeBytesAt(y, 2, 1);
    assert Pow256(1) == 0x100;
  }

  /** And what six bytes mean to a receiver that does not decipher. */
  lemma {:induction false} HeaderMeaning(r: Receiver)
    requires WellFormed(r.cipher) && |r.buffer| >= 6
    ensures var b0: int, b1: int, b2: int, b3: int, b4: int, b5: int :=
      r.buffer[0], r.buffer[1], r.buffer[2], r.buffer[3], r.buffer[4], r.buffer[5];
      && TakeHeader(false, r).opcode == b0 + 0x100 * b1
      && TakeHeader(false, r).remaining == 0x100_0000 * b2 + 0x1_0000 * b3 + 0x100 * b4 + b5
  {
    var b := r.buffer;
    FromLeTwo(b[..2]);
    FromLeFour(b[2..6]);
    hide FromLe;
    Digits(b[2], b[3], b[4], b[5]);
  }

  lemma {:induction false} FromLeTwo(s: seq<byte>)
    requires |s| == 2
    ensures var b0: int, b1: int := s[0], s[1]; FromLe(s) == b0 + 0x100 * b1
  {
    var b1: int := s[1];
    assert s[1..][1..] == [] && FromLe([]) == 0;
    assert FromLe(s[1..]) == b1;
  }

  lemma {:induction false} FromLeFour(s: seq<byte>)
    requires |s| == 4
    ensures var b0: int, b1: int, b2: int, b3: int := s[0], s[1], s[2], s[3];
      FromLe(s) == b0 + 0x100 * b1 + 0x1_0000 * b2 + 0x100_0000 * b3
  {
    FromLeTwo(s[2..]);
    assert s[1..][1..] == s[2..];
  }

  /** The plain text of a list of packets. */
  function Plain(sent: seq<Packet>): seq<byte> {
    if sent == [] then [] else Plain(sent[..|sent| - 1]) + Frame(sent[|sent| - 1])
  }

  // ----- A cipher that may be switched off

  function Code(on: bool, c: Cipher, data: seq<byte>): (out: seq<byte>)
    requires WellFormed(c)
    ensures |out| == |data|
  {
    if on then Crypt(c, data) else data
  }

  function Turn(on: bool, c: Cipher, n: nat): (d: Cipher)
    requires WellFormed(c)
    ensures WellFormed(d)
  {
    if on then After(c, n) else c
  }

  lemma {:induction false} TurnSplits(on: bool, c: Cipher, m: nat, n: nat)
    requires WellFormed(c)
    ensures Turn(on, c, m + n) == Turn(on, Turn(on, c, m), n)
    ensures Turn(on, c, 0) == c
  {
    hide Advance;
    if on {
      AfterSplits(c, m, n);
    }
  }

  lemma {:induction false} CodeSplits(on: bool, c: Cipher, a: seq<byte>, b: seq<byte>)
    requires WellFormed(c)
    ensures Code(on, c, a + b) == Code(on, c, a) + Code(on, Turn(on, c, |a|), b)
  {
    hide Crypt, After;
    if on {
      CryptSplits(c, a, b);
    }
  }

  /** What one end codes from a position on, the other end decodes from the same position. */
  lemma {:induction false} DecodeSlice(on: bool, c: Cipher, plain: seq<byte>, k: nat, n: nat)
    requires WellFormed(c) && k + n <= |plain|
    ensures Code(on, Turn(on, c, k), Code(on, c, plain)[k..k + n]) == plain[k..k + n]
  {
    hide Crypt, After;
    var before, here, later := plain[..k], plain[k..k + n], plain[k + n..];
    assert plain == before + (here + later);
    CodeSplits(on, c, before, here + later);
    CodeSplits(on, Turn(on, c, k), here, later);
    assert Code(on, c, plain)[k..k + n] == Code(on, Turn(on, c, k), here);
    if on {
      CryptUndoes(Turn(on, c, k), here);
    }
  }

  // ----- The receiving end

  datatype Receiver = Receiver(cipher: Cipher, remaining: uint32, opcode: uint16, buffer: seq<byte>, handed: seq<Packet>)

  /** The header of the next packet, taken off the buffer and deciphered in two pieces. */
  function TakeHeader(on: bool, r: Receiver): (t: Receiver)
    requires WellFormed(r.cipher) && |r.buffer| >= 6
    ensures WellFormed(t.cipher) && t.handed == r.handed && t.buffer == r.buffer[6..]
  {
    var op := Code(on, r.cipher, r.buffer[..2]);
    var c := Turn(on, r.cipher, 2);
    var sz := Code(on, c, r.buffer[2..6]);
    Receiver(Turn(on, c, 4), Swap32(FromLe32(sz)), FromLe16(op), r.buffer[6..], r.handed)
  }

  /** The body of the packet whose header was read, and the packet handed over. */
  function TakeBody(on: bool, r: Receiver): (t: Receiver)
    requires WellFormed(r.cipher) && |r.buffer| >= r.remaining
    ensures WellFormed(t.cipher) && |t.buffer| == |r.buffer| - r.remaining
  {
    var n := r.remaining;
    var packet: Packet := Packet(r.opcode, Code(on, r.cipher, r.buffer[..n]));
    Receiver(Turn(on, r.cipher, n), 0, 0, r.buffer[n..], r.handed + [packet])
  }

  /** Whether the read loop returns here. */
  predicate Waits(r: Receiver) {
    if r.remaining == 0 then |r.buffer| < 6 else |r.buffer| < r.remaining
  }

  function WithHeader(on: bool, r: Receiver): (t: Receiver)
    requires WellFormed(r.cipher) && !Waits(r)
    ensures WellFormed(t.cipher)
  {
    if r.remaining == 0 then TakeHeader(on, r) else r
  }

  /** The read loop: packets are handed over until too few bytes are left. */
  function Drain(on: bool, r: Receiver): (t: Receiver)
    requires WellFormed(r.cipher)
    ensures WellFormed(t.cipher)
    decreases |r.buffer|
  {
    if Waits(r) then r
    else
      var h := WithHeader(on, r);
      if |h.buffer| < h.remaining then h
      else
        Drain(on, TakeBody(on, h))
  }

  lemma {:induction false} DrainUnfolds(on: bool, r: Receiver)
    requires WellFormed(r.cipher)
    ensures Waits(r) ==> Drain(on, r) == r
    ensures !Waits(r) ==> var h := WithHeader(on, r);
      Drain(on, r) == if |h.buffer| < h.remaining then h else Drain(on, TakeBody(on, h))
  {
    hide TakeHeader, TakeBody;
  }

  lemma {:induction false} DrainWaits(on: bool, r: Receiver)
    requires WellFormed(r.cipher)
    ensures Waits(Drain(on, r))
    decreases |r.buffer|
  {
    hide TakeHeader, TakeBody;
    if !Waits(r) && |WithHeader(on, r).buffer| >= WithHeader(on, r).remaining {
      DrainWaits(on, TakeBody(on, WithHeader(on, r)));
    }
  }

  // ----- The whole link

  /** One direction of the link: what was sent, the bytes under way, and both ends. */
  datatype Link = Link(on: bool, key: Cipher, sent: seq<Packet>, sendCipher: Cipher,
                       flight: seq<byte>, receiver: Receiver)

  datatype Event = Send(packet: Packet) | Arrive(n: nat)

  function Start(on: bool, key: Cipher): Link {
    Link(on, key, [], key, [], Receiver(key, 0, 0, [], []))
  }

  predicate CiphersFormed(l: Link) {
    WellFormed(l.key) && WellFormed(l.sendCipher) && WellFormed(l.receiver.cipher)
  }

  /** Sending puts the coded frame on the wire; some bytes arriving sets off the read loop. */
  function Step(l: Link, e: Event): (m: Link)
    requires CiphersFormed(l)
    ensures CiphersFormed(m)
  {
    match e
    case Send(p) =>
      l.(sent := l.sent + [p],
         sendCipher := Turn(l.on, l.sendCipher, |Frame(p)|),
         flight := l.flight + Code(l.on, l.sendCipher, Frame(p)))
    case Arrive(n) =>
      var k := if n <= |l.flight| then n else |l.flight|;
      l.(flight := l.flight[k..],
         receiver := Drain(l.on, l.receiver.(buffer := l.receiver.buffer + l.flight[..k])))
  }

  function Run(l: Link, events: seq<Event>): (m: Link)
    requires CiphersFormed(l)
    ensures CiphersFormed(m)
  {
    if events == [] then l else Step(Run(l, events[..|events| - 1]), events[|events| - 1])
  }

  /** Bytes of plain text the receiver has taken off its buffer. */
  function Consumed(r: Receiver): nat {
    |Plain(r.handed)| + if r.remaining == 0 then 0 else 6
  }

  ghost predicate InStep(on: bool, key: Cipher, sent: seq<Packet>, flight: seq<byte>, r: Receiver)
    requires WellFormed(key)
  {
    && r.handed <= sent
    && (r.remaining != 0 ==>
          && |r.handed| < |sent|
          && r.opcode == sent[|r.handed|].opcode && r.remaining == |sent[|r.handed|].body|)
    && r.cipher == Turn(on, key, Consumed(r))
    && Consumed(r) <= |Plain(sent)|
    && Code(on, key, Plain(sent))[Consumed(r)..] == r.buffer + flight
  }

  /** What every reachable state of the link keeps. */
  ghost predicate Inv(l: Link) {
    && CiphersFormed(l)
    && l.sendCipher == Turn(l.on, l.key, |Plain(l.sent)|)
    && InStep(l.on, l.key, l.sent, l.flight, l.receiver)
  }

  lemma {:induction false} PlainPrefix(sent: seq<Packet>, m: nat)
    requires m <= |sent|
    ensures Plain(sent[..m]) <= Plain(sent)
    decreases |sent|
  {
    hide Frame, Header;
    if m < |sent| {
      PlainPrefix(sent[..|sent| - 1], m);
      assert sent[..|sent| - 1][..m] == sent[..m];
    } else {
      assert sent[..m] == sent;
    }
  }

  /** Where the m-th frame lies in the plain text. */
  lemma {:induction false} FrameAt(sent: seq<Packet>, m: nat)
    requires m < |sent|
    ensures var k := |Plain(sent[..m])|; var f := Frame(sent[m]);
      && k + |f| <= |Plain(sent)| && Plain(sent)[k..k + |f|] == f && |Plain(sent[..m + 1])| == k + |f|
  {
    hide Header;
    PlainPrefix(sent, m + 1);
    assert sent[..m + 1][..m] == sent[..m];
    assert Plain(sent[..m + 1]) == Plain(sent[..m]) + Frame(sent[m]);
  }

  /** While bytes are left there is a packet not yet handed over. */
  lemma {:induction false} MoreToCome(on: bool, key: Cipher, sent: seq<Packet>, flight: seq<byte>, r: Receiver)
    requires WellFormed(key) && InStep(on, key, sent, flight, r)
    ensures r.handed == sent[..|r.handed|]
    ensures |r.buffer + flight| == |Plain(sent)| - Consumed(r)
    ensures |r.buffer + flight| > 0 ==> |r.handed| < |sent|
    ensures |r.handed| < |sent| ==>
      var f := Frame(sent[|r.handed|]);
      |r.buffer + flight| >= if r.remaining == 0 then |f| else |f| - 6
  {
    hide Code, Turn, Header;
    if |r.handed| < |sent| {
      FrameAt(sent, |r.handed|);
    } else {
      assert r.handed == sent;
    }
  }

  lemma {:induction false} HeaderKeepsStep(on: bool, key: Cipher, sent: seq<Packet>, flight: seq<byte>, r: Receiver)
    requires WellFormed(key) && InStep(on, key, sent, flight, r)
    requires r.remaining == 0 && |r.buffer| >= 6
    ensures |r.handed| < |sent|
    ensures var t := TakeHeader(on, r); var p := sent[|r.handed|];
      && t.opcode == p.opcode && t.remaining == |p.body|
      && t.cipher == Turn(on, key, |Plain(r.handed)| + 6)
      && Code(on, key, Plain(sent))[|Plain(r.handed)| + 6..] == t.buffer + flight
  {
    hide Code, Turn, Swap32, LeBytes, FromLe16, FromLe32;
    MoreToCome(on, key, sent, flight, r);
    var m, k := |r.handed|, Consumed(r);
    var p := sent[m];
    var wire := Code(on, key, Plain(sent));
    FrameAt(sent, m);
    assert r.buffer[..6] == wire[k..k + 6];
    assert wire[k + 6..] == wire[k..][6..] == r.buffer[6..] + flight;
    assert Plain(sent)[k..k + 6] == Header(p) by {
      assert Plain(sent)[k..k + 6] == Frame(p)[..6];
    }
    DecodeSlice(on, key, Plain(sent), k, 6);
    assert r.buffer[..6] == r.buffer[..2] + r.buffer[2..6];
    CodeSplits(on, r.cipher, r.buffer[..2], r.buffer[2..6]);
    assert Code(on, r.cipher, r.buffer[..2]) == Header(p)[..2] == LeBytes(p.opcode, 2);
    assert Code(on, Turn(on, r.cipher, 2), r.buffer[2..6]) == Header(p)[2..] == LeBytes(Swap32(|p.body|), 4);
    HalfRoundTrip(p.opcode);
    WordRoundTrip(Swap32(|p.body|));
    SwapRoundTrip(|p.body|);
    TurnSplits(on, r.cipher, 2, 4);
    TurnSplits(on, key, k, 6);
  }

  lemma {:induction false} FrontOf(wire: seq<byte>, k: nat, n: nat, buffer: seq<byte>, flight: seq<byte>)
    requires k <= |wire| && wire[k..] == buffer + flight && n <= |buffer|
    ensures k + n <= |wire| && wire[k..k + n] == buffer[..n] && wire[k + n..] == buffer[n..] + flight
  {
    assert wire[k..k + n] == wire[k..][..n];
    assert wire[k + n..] == wire[k..][n..];
  }

  lemma {:induction false} BodyKeepsStep(on: bool, key: Cipher, sent: seq<Packet>, flight: seq<byte>, r: Receiver)
    requires WellFormed(key) && r.handed < sent
    requires r.handed == sent[..|r.handed|]
    requires r.opcode == sent[|r.handed|].opcode && r.remaining == |sent[|r.handed|].body|
    requires r.cipher == Turn(on, key, |Plain(r.handed)| + 6)
    requires |Plain(r.handed)| + 6 <= |Plain(sent)|
    requires Code(on, key, Plain(sent))[|Plain(r.handed)| + 6..] == r.buffer + flight
    requires |r.buffer| >= r.remaining
    ensures InStep(on, key, sent, flight, TakeBody(on, r))
  {
    hide Code, Turn, Header;
    var m, k := |r.handed|, |Plain(r.handed)| + 6;
    var p := sent[m];
    var n := |p.body|;
    FrameAt(sent, m);
    assert Plain(sent)[k..k + n] == p.body by {
      assert Plain(sent)[k..k + n] == Frame(p)[6..];
    }
    DecodeSlice(on, key, Plain(sent), k, n);
    FrontOf(Code(on, key, Plain(sent)), k, n, r.buffer, flight);
    TurnSplits(on, key, k, n);
    var t := TakeBody(on, r);
    assert t.handed == sent[..m + 1];
  }

  /** The read loop keeps both ends in step, and stops only for want of bytes. */
  lemma {:induction false} DrainKeepsStep(on: bool, key: Cipher, sent: seq<Packet>, flight: seq<byte>, r: Receiver)
    requires WellFormed(key) && InStep(on, key, sent, flight, r)
    ensures WellFormed(r.cipher)
    ensures InStep(on, key, sent, flight, Drain(on, r)) && Waits(Drain(on, r))
    decreases |r.buffer|
  {
    hide Code, Turn, Header, TakeHeader, TakeBody;
    if !Waits(r) {
      MoreToCome(on, key, sent, flight, r);
      var m := |r.handed|;
      if r.remaining == 0 {
        HeaderKeepsStep(on, key, sent, flight, r);
      }
      var h := WithHeader(on, r);
      FrameAt(sent, m);
      if |h.buffer| >= h.remaining {
        BodyKeepsStep(on, key, sent, flight, h);
        DrainKeepsStep(on, key, sent, flight, TakeBody(on, h));
      }
    }
  }

  lemma {:induction false} StepKeepsInv(l: Link, e: Event)
    requires Inv(l)
    ensures Inv(Step(l, e))
  {
    hide Code, Turn, Header, Drain, Waits;
    match e
    case Send(p) =>
      var sent := l.sent + [p];
      assert sent[..|sent| - 1] == l.sent;
      CodeSplits(l.on, l.key, Plain(l.sent), Frame(p));
      TurnSplits(l.on, l.key, |Plain(l.sent)|, |Frame(p)|);
      var k := Consumed(l.receiver);
      assert Code(l.on, l.key, Plain(sent))[k..] ==
        Code(l.on, l.key, Plain(l.sent))[k..] + Code(l.on, l.sendCipher, Frame(p));
    case Arrive(n) =>
      var k := if n <= |l.flight| then n else |l.flight|;
      var r := l.receiver.(buffer := l.receiver.buffer + l.flight[..k]);
      assert l.receiver.buffer + l.flight == r.buffer + l.flight[k..];
      DrainKeepsStep(l.on, l.key, l.sent, l.flight[k..], r);
  }

  lemma {:induction false} RunKeepsInv(on: bool, key: Cipher, events: seq<Event>)
    requires WellFormed(key)
    ensures Inv(Run(Start(on, key), events))
    decreases |events|
  {
    hide Step;
    if events == [] {
      TurnSplits(on, key, 0, 0);
    } else {
      RunKeepsInv(on, key, events[..|events| - 1]);
      StepKeepsInv(Run(Start(on, key), events[..|events| - 1]), events[|events| - 1]);
    }
  }

  /** The packets that a run sends, in order. */
  function SentBy(events: seq<Event>): seq<Packet> {
    if events == [] then []
    else
      var before := SentBy(events[..|events| - 1]);
      var e := events[|events| - 1];
      if e.Send? then before + [e.packet] else before
  }

  lemma {:induction false} RunSends(on: bool, key: Cipher, events: seq<Event>)
    requires WellFormed(key)
    ensures Run(Start(on, key), events).sent == SentBy(events)
    ensures Run(Start(on, key), events).on == on && Run(Start(on, key), events).key == key
    decreases |events|
  {
    if events != [] {
      RunSends(on, key, events[..|events| - 1]);
    }
  }

  /** However the stream is cut and sends are interleaved, the receiver has handed over a prefix of
      exactly the packets sent, and its cipher stands where the sender's stood at that byte. */
  lemma {:induction false} HandsOverPrefix(on: bool, key: Cipher, events: seq<Event>)
    requires WellFormed(key)
    ensures var l := Run(Start(on, key), events);
      && l.receiver.handed <= SentBy(events)
      && l.sendCipher == Turn(on, key, |Plain(SentBy(events))|)
      && l.receiver.cipher == Turn(on, key, Consumed(l.receiver))
  {
    RunKeepsInv(on, key, events);
    RunSends(on, key, events);
  }

  /** Once every byte has arrived, exactly the packets sent have been handed over, nothing is left
      in the buffer, and both ciphers agree. */
  lemma {:induction false} HandsOverAll(on: bool, key: Cipher, events: seq<Event>, n: nat)
    requires WellFormed(key)
    requires n >= |Run(Start(on, key), events).flight|
    ensures var l := Run(Start(on, key), events + [Arrive(n)]);
      && l.receiver.handed == SentBy(events)
      && l.receiver.buffer == [] && l.receiver.remaining == 0 && l.receiver.cipher == l.sendCipher
  {
    hide Code, Turn, Drain, Plain;
    var all := events + [Arrive(n)];
    assert all[..|all| - 1] == events;
    RunKeepsInv(on, key, events);
    RunKeepsInv(on, key, all);
    RunSends(on, key, events);
    var before, l := Run(Start(on, key), events), Run(Start(on, key), all);
    var r := before.receiver.(buffer := before.receiver.buffer + before.flight);
    assert before.flight[..|before.flight|] == before.flight;
    assert r.buffer + [] == r.buffer;
    assert l.receiver == Drain(on, r) && l.flight == [];
    DrainKeepsStep(on, key, before.sent, [], r);
    MoreToCome(on, key, l.sent, [], l.receiver);
  }

  /** How the first bytes of a short packet and a long one leave the receiver: with the short packet
      handed over, the long one's header read, and one byte of its body waiting. */
  lemma {:induction false} LongBodyWaits(on: bool, key: Cipher, first: Packet, second: Packet, n: nat)
    requires WellFormed(key) && n == |Frame(first)| + 7 && |second.body| >= 2
    ensures n <= |Plain([first, second])|
    ensures var r := Drain(on, Receiver(key, 0, 0, Code(on, key, Plain([first, second]))[..n], []));
      && r.handed == [first] && r.remaining == |second.body| && |r.buffer| == 1
  {
    hide Code, Turn, Drain, Header;
    var sent := [first, second];
    assert sent[..1] == [first] && [first][..0] == [];
    assert Plain([first]) == Plain([]) + Frame(first);
    assert Plain(sent) == Plain([first]) + Frame(second);
    var wire := Code(on, key, Plain(sent));
    TurnSplits(on, key, 0, 0);
    var start := Receiver(key, 0, 0, wire[..n], []);
    assert wire[0..] == start.buffer + wire[n..];
    DrainKeepsStep(on, key, sent, wire[n..], start);
    var r := Drain(on, start);
    MoreToCome(on, key, sent, wire[n..], r);
    assert |r.handed| <= 1;
    assert r.handed == [] || r.handed == [first];
  }

  lemma {:induction false} DrainOnlyAdds(on: bool, r: Receiver)
    requires WellFormed(r.cipher)
    ensures r.handed <= Drain(on, r).handed
    decreases |r.buffer|
  {
    hide TakeHeader, Code, Turn;
    if !Waits(r) && |WithHeader(on, r).buffer| >= WithHeader(on, r).remaining {
      DrainOnlyAdds(on, TakeBody(on, WithHeader(on, r)));
    }
  }

  /** What a receiver whose cipher is not the sender's makes of the bytes of a packet. */
  function Misread(c: Cipher, d: Cipher, p: Packet): (plain: seq<byte>)
    requires WellFormed(c) && WellFormed(d)
    ensures |plain| == |Frame(p)|
  {
    Crypt(c, Crypt(d, Frame(p)))
  }

  lemma {:induction false} HeaderReadsIff(plain: seq<byte>, p: Packet)
    requires |plain| == 6
    ensures FromLe16(plain[..2]) == p.opcode && Swap32(FromLe32(plain[2..])) == |p.body| <==> plain == Header(p)
  {
    hide Swap32, LeBytes, FromLe;
    HalfRoundTrip(p.opcode);
    WordRoundTrip(Swap32(|p.body|));
    SwapRoundTrip(|p.body|);
    SwapRoundTrip(FromLe32(plain[2..]));
    BytesAreLe(plain[..2]);
    BytesAreLe(plain[2..]);
    assert plain == plain[..2] + plain[2..];
  }

  /** After a refused write the sender's cipher is ahead. The next packet is then handed over, first
      and unharmed, exactly when the two key streams happen to agree over its whole frame. */
  lemma {:induction false} NextHandedOverIff(c: Cipher, d: Cipher, p: Packet)
    requires WellFormed(c) && WellFormed(d)
    ensures var r := Drain(true, Receiver(c, 0, 0, Crypt(d, Frame(p)), []));
      [p] <= r.handed <==> KeyStream(c, |Frame(p)|) == KeyStream(d, |Frame(p)|)
  {
    var start := Receiver(c, 0, 0, Crypt(d, Frame(p)), []);
    UndoesIffKeysAgree(c, d, Frame(p));
    hide Crypt, After, KeyStream, Drain, Header;
    MisreadHeader(c, d, p);
    var h := TakeHeader(true, start);
    DrainUnfolds(true, start);
    if |h.buffer| >= h.remaining {
      DrainOnlyAdds(true, TakeBody(true, h));
      MisreadBody(c, d, p);
    }
  }

  lemma {:induction false} MisreadHeader(c: Cipher, d: Cipher, p: Packet)
    requires WellFormed(c) && WellFormed(d)
    ensures var h := TakeHeader(true, Receiver(c, 0, 0, Crypt(d, Frame(p)), []));
      && h.cipher == After(c, 6) && h.buffer == Crypt(d, Frame(p))[6..]
      && (h.opcode == p.opcode && h.remaining == |p.body| <==> Misread(c, d, p)[..6] == Header(p))
      && Misread(c, d, p)[6..] == Crypt(After(c, 6), Crypt(d, Frame(p))[6..])
  {
    hide Crypt, After, Header, FromLe16, FromLe32, Swap32;
    var coded := Crypt(d, Frame(p));
    assert coded == coded[..6] + coded[6..] && coded[..6] == coded[..2] + coded[2..6];
    CryptSplits(c, coded[..6], coded[6..]);
    CryptSplits(c, coded[..2], coded[2..6]);
    AfterSplits(c, 2, 4);
    var plain := Misread(c, d, p)[..6];
    assert plain == Crypt(c, coded[..6]);
    assert plain[..2] == Crypt(c, coded[..2]) && plain[2..] == Crypt(After(c, 2), coded[2..6]);
    HeaderReadsIff(plain, p);
  }

  lemma {:induction false} MisreadBody(c: Cipher, d: Cipher, p: Packet)
    requires WellFormed(c) && WellFormed(d)
    ensures var h := TakeHeader(true, Receiver(c, 0, 0, Crypt(d, Frame(p)), []));
      |h.buffer| >= h.remaining ==> (TakeBody(true, h).handed == [p] <==> Misread(c, d, p) == Frame(p))
  {
    hide Crypt, After, Header, FromLe16, FromLe32, Swap32;
    MisreadHeader(c, d, p);
    var h := TakeHeader(true, Receiver(c, 0, 0, Crypt(d, Frame(p)), []));
    var plain := Misread(c, d, p);
    assert Frame(p)[..6] == Header(p) && Frame(p)[6..] == p.body;
    assert plain == plain[..6] + plain[6..];
    if |h.buffer| >= h.remaining {
      var body := Code(true, h.cipher, h.buffer[..h.remaining]);
      assert TakeBody(true, h).handed == [Packet(h.opcode, body)];
      assert |body| == h.remaining;
      assert h.remaining == |p.body| ==> h.buffer[..h.remaining] == h.buffer && body == plain[6..];
    }
  }
}
