/** The socket code at both ends of the logon link: reading, and sending, over the byte queues. */
module LogonSocket {
  import opened Bytes
  import opened Rc4
  import opened CircularBuffer
  import opened LinkProtocol

  class LogonCommSocket {
    const readBuffer: CircularBuffer<byte>
    const writeBuffer: CircularBuffer<byte>
    const recvCrypto: RC4Engine
    const sendCrypto: RC4Engine
    var useCrypto: bool
    var remaining: uint32
    var opcode: uint16
    var handled: seq<Packet>     // what was passed to the packet handlers

    ghost predicate Valid()
      reads this, readBuffer, writeBuffer, recvCrypto, sendCrypto
    {
      && readBuffer.Valid() && writeBuffer.Valid() && recvCrypto.Valid() && sendCrypto.Valid()
      && readBuffer != writeBuffer && recvCrypto != sendCrypto
      && readBuffer.buffer != writeBuffer.buffer && recvCrypto.perm != sendCrypto.perm
      && recvCrypto.perm !in {readBuffer.buffer, writeBuffer.buffer}
      && sendCrypto.perm !in {readBuffer.buffer, writeBuffer.buffer}
    }

    /** The receiving half as a value of the protocol. */
    ghost function Receiving(): (r: Receiver)
      reads this, readBuffer, readBuffer.buffer, recvCrypto, recvCrypto.perm
      requires readBuffer.Valid() && recvCrypto.Valid()
      ensures WellFormed(r.cipher)
    {
      Receiver(recvCrypto.State(), remaining, opcode, readBuffer.Contents(), handled)
    }

    constructor (receiveSize: nat, sendSize: nat)
      ensures Valid() && !useCrypto && remaining == 0 && opcode == 0 && handled == []
      ensures readBuffer.Contents() == [] && writeBuffer.Contents() == []
      ensures readBuffer.buffer.Length == receiveSize && writeBuffer.buffer.Length == sendSize
      ensures !readBuffer.hasB && readBuffer.regionA == 0
      ensures fresh(readBuffer) && fresh(readBuffer.buffer) && fresh(writeBuffer) && fresh(writeBuffer.buffer)
      ensures fresh(recvCrypto) && fresh(recvCrypto.perm) && fresh(sendCrypto) && fresh(sendCrypto.perm)
    {
      readBuffer := new CircularBuffer<byte>(receiveSize);
      writeBuffer := new CircularBuffer<byte>(sendSize);
      recvCrypto := new RC4Engine();
      sendCrypto := new RC4Engine();
      useCrypto, remaining, opcode, handled := false, 0, 0, [];
    }

    /** Takes n bytes off the read buffer and deciphers them where they stand. */
    method ReadDeciphered(n: nat) returns (data: seq<byte>)
      requires Valid() && n <= |readBuffer.Contents()|
      modifies readBuffer, readBuffer.buffer, recvCrypto, recvCrypto.perm
      ensures Valid()
      ensures data == Code(useCrypto, old(recvCrypto.State()), old(readBuffer.Contents())[..n])
      ensures recvCrypto.State() == Turn(useCrypto, old(recvCrypto.State()), n)
      ensures readBuffer.Contents() == old(readBuffer.Contents())[n..]
      ensures !old(readBuffer.hasB) && readBuffer.Contents() != [] ==>
        !readBuffer.hasB && readBuffer.AFreeSpace() == old(readBuffer.AFreeSpace())
    {
      hide After, Crypt;
      var ok, raw := readBuffer.Read(n);
      data := raw;
      if useCrypto {
        var cell := new byte[n](k requires 0 <= k < n => raw[k]);
        assert cell[..n] == raw;
        recvCrypto.Process(cell, cell, n);
        data := cell[..n];
      }
    }

    method ReadHeader()
      requires Valid() && |readBuffer.Contents()| >= 6
      modifies this, readBuffer, readBuffer.buffer, recvCrypto, recvCrypto.perm
      ensures Valid() && useCrypto == old(useCrypto)
      ensures Receiving() == TakeHeader(useCrypto, old(Receiving()))
      ensures !old(readBuffer.hasB) && readBuffer.Contents() != [] ==>
        !readBuffer.hasB && readBuffer.AFreeSpace() == old(readBuffer.AFreeSpace())
    {
      hide Code, Turn, FromLe16, FromLe32, Swap32;
      ghost var queued := readBuffer.Contents();
      assert queued[2..][..4] == queued[2..6] && queued[2..][4..] == queued[6..];
      var op := ReadDeciphered(2);
      var sz := ReadDeciphered(4);
      opcode := FromLe16(op);
      remaining := Swap32(FromLe32(sz));
    }

    method ReadBody()
      requires Valid() && |readBuffer.Contents()| >= remaining
      modifies this, readBuffer, readBuffer.buffer, recvCrypto, recvCrypto.perm
      ensures Valid() && useCrypto == old(useCrypto)
      ensures Receiving() == TakeBody(useCrypto, old(Receiving()))
      ensures !old(readBuffer.hasB) && readBuffer.Contents() != [] ==>
        !readBuffer.hasB && readBuffer.AFreeSpace() == old(readBuffer.AFreeSpace())
    {
      hide Code, Turn;
      var contents := ReadDeciphered(remaining);
      HandlePacket(Packet(opcode, contents));
      remaining := 0;
      opcode := 0;
    }

    /** Dispatch to the handlers; here only the order and content of the packets matter. */
    method HandlePacket(p: Packet)
      modifies this`handled
      ensures handled == old(handled) + [p]
    {
      handled := handled + [p];
    }

    /** The read callback: hands over every packet that is complete. */
    method OnRead()
      requires Valid()
      modifies this, readBuffer, readBuffer.buffer, recvCrypto, recvCrypto.perm
      ensures Valid() && useCrypto == old(useCrypto)
      ensures Receiving() == Drain(useCrypto, old(Receiving()))
      ensures old(Waits(Receiving())) ==> readBuffer.hasB == old(readBuffer.hasB) && readBuffer.Space() == old(readBuffer.Space())
      ensures !old(readBuffer.hasB) && readBuffer.Contents() != [] ==>
        !readBuffer.hasB && readBuffer.AFreeSpace() == old(readBuffer.AFreeSpace())
    {
      hide Drain, Waits;
      while true
        invariant Valid() && useCrypto == old(useCrypto)
        invariant Drain(useCrypto, Receiving()) == Drain(useCrypto, old(Receiving()))
        invariant old(Waits(Receiving())) ==>
          && Receiving() == old(Receiving())
          && readBuffer.hasB == old(readBuffer.hasB) && readBuffer.Space() == old(readBuffer.Space())
        invariant !old(readBuffer.hasB) && readBuffer.Contents() != [] ==>
          !readBuffer.hasB && readBuffer.AFreeSpace() == old(readBuffer.AFreeSpace())
        decreases |readBuffer.Contents()|
      {
        var more := ReadPacket();
        if !more {
          return;
        }
      }
    }

    /** One turn of the loop: header, unless it has been read before, and body. */
    method ReadPacket() returns (more: bool)
      requires Valid()
      modifies this, readBuffer, readBuffer.buffer, recvCrypto, recvCrypto.perm
      ensures Valid() && useCrypto == old(useCrypto)
      ensures if more then Drain(useCrypto, Receiving()) == Drain(useCrypto, old(Receiving()))
              else Receiving() == Drain(useCrypto, old(Receiving()))
      ensures more ==> |readBuffer.Contents()| < |old(readBuffer.Contents())|
      ensures old(Waits(Receiving())) ==> !more && readBuffer.hasB == old(readBuffer.hasB) && readBuffer.Space() == old(readBuffer.Space())
      ensures !old(readBuffer.hasB) && readBuffer.Contents() != [] ==>
        !readBuffer.hasB && readBuffer.AFreeSpace() == old(readBuffer.AFreeSpace())
    {
      hide TakeHeader, TakeBody, Drain;
      DrainUnfolds(useCrypto, Receiving());
      if remaining == 0 {
        var waiting := readBuffer.GetSize();
        if waiting < 6 {
          return false;
        }
        ghost var r := Receiving();
        ReadHeader();
        assert Receiving() == WithHeader(useCrypto, r);
      }
      var size := readBuffer.GetSize();
      if size < remaining {
        return false;
      }
      ReadBody();
      more := true;
    }

    /** The receive event: as many of the bytes under way as the queue has room for, then the read
        loop. Taking nothing makes the caller drop the connection. */
    method ReadCallback(flight: seq<byte>) returns (taken: nat)
      requires Valid() && flight != []
      modifies this, readBuffer, readBuffer.buffer, recvCrypto, recvCrypto.perm
      ensures Valid() && useCrypto == old(useCrypto)
      ensures taken == if |flight| < old(readBuffer.Space()) then |flight| else old(readBuffer.Space())
      ensures taken > 0 ==>
        Receiving() == Drain(useCrypto, old(Receiving().(buffer := readBuffer.Contents() + flight[..taken])))
      ensures taken == 0 ==> Receiving() == old(Receiving())
      ensures old(Waits(Receiving())) && 12 <= readBuffer.buffer.Length && 2 * old(remaining) <= readBuffer.buffer.Length + 2
        ==> taken > 0
      ensures !old(readBuffer.hasB || readBuffer.AFreeSpace() < readBuffer.regionA) && taken > 0 && readBuffer.Contents() != [] ==>
        !readBuffer.hasB && readBuffer.AFreeSpace() == old(readBuffer.AFreeSpace()) - taken
      ensures (old(readBuffer.hasB || readBuffer.AFreeSpace() < readBuffer.regionA) && taken > 0
        && old(Waits(Receiving().(buffer := readBuffer.Contents() + flight[..taken])))) ==>
        readBuffer.Space() == old(readBuffer.Space()) - taken
    {
      hide Drain, Code, Turn;
      if Waits(Receiving()) && readBuffer.buffer.Length >= 12 {
        NoRoomMeansLongBody();
      }
      var space := readBuffer.GetSpace();
      taken := if |flight| < space then |flight| else space;
      if taken == 0 {
        return;
      }
      readBuffer.Commit(flight[..taken]);
      OnRead();
    }

    /** A socket that waits has room unless it waits for a body more than one byte longer than half
        its queue. */
    lemma {:induction false} NoRoomMeansLongBody()
      requires Valid() && Waits(Receiving()) && readBuffer.buffer.Length >= 12
      ensures readBuffer.Space() == 0 ==> 2 * remaining > readBuffer.buffer.Length + 2
    {
      readBuffer.NoSpaceMeansHalfFull();
    }

    /** Ciphers data in place and puts it on the write buffer. */
    method Burst(data: array<byte>) returns (rv: bool)
      requires Valid()
      requires data !in {sendCrypto.perm, recvCrypto.perm, writeBuffer.buffer, readBuffer.buffer}
      modifies data, writeBuffer, writeBuffer.buffer, sendCrypto, sendCrypto.perm
      ensures Valid()
      ensures data[..] == Code(useCrypto, old(sendCrypto.State()), old(data[..]))
      ensures sendCrypto.State() == Turn(useCrypto, old(sendCrypto.State()), data.Length)
      ensures writeBuffer.Contents() == if rv then old(writeBuffer.Contents()) + data[..] else old(writeBuffer.Contents())
      ensures |old(writeBuffer.Contents())| + data.Length <= writeBuffer.buffer.Length / 2 ==> rv
    {
      hide Crypt, After;
      assert data[..data.Length] == data[..];
      if useCrypto {
        sendCrypto.Process(data, data, data.Length);
        assert data[..data.Length] == data[..];
      }
      rv := writeBuffer.Write(data[..]);
    }

    /** The coded form of a packet, were it sent now. */
    ghost function Wire(op: uint16, body: seq<byte>): (w: seq<byte>)
      reads this, sendCrypto, sendCrypto.perm
      requires sendCrypto.Valid() && |body| < 0x1_0000_0000
      ensures |w| == 6 + |body|
    {
      Code(useCrypto, sendCrypto.State(), Frame(Packet(op, body)))
    }

    /** The two bursts of a frame, one after the other, code the frame. */
    lemma {:induction false} WireInTwo(op: uint16, body: seq<byte>)
      requires sendCrypto.Valid() && |body| < 0x1_0000_0000
      ensures var h := Header(Packet(op, body)); var c := sendCrypto.State();
        && Wire(op, body)[..6] == Code(useCrypto, c, h)
        && Wire(op, body)[6..] == Code(useCrypto, Turn(useCrypto, c, 6), body)
        && Wire(op, body) == Wire(op, body)[..6] + Wire(op, body)[6..]
        && Turn(useCrypto, c, 6 + |body|) == Turn(useCrypto, Turn(useCrypto, c, 6), |body|)
        && (body == [] ==> Turn(useCrypto, c, 6 + |body|) == Turn(useCrypto, c, 6))
    {
      hide Code, Turn, Header;
      var h := Header(Packet(op, body));
      CodeSplits(useCrypto, sendCrypto.State(), h, body);
      TurnSplits(useCrypto, sendCrypto.State(), 6, |body|);
    }

    method NewHeader(op: uint16, size: uint32, ghost body: seq<byte>) returns (header: array<byte>)
      requires |body| == size
      ensures fresh(header) && header[..] == Header(Packet(op, body))
    {
      hide LeBytes, Swap32;
      var bytes := LeBytes(op, 2) + LeBytes(Swap32(size), 4);
      header := new byte[6](k requires 0 <= k < 6 => bytes[k]);
    }

    /** Nothing was queued, and yet the cipher is six bytes on. */
    ghost predicate HeaderRefused(queued: seq<byte>, c: Cipher)
      reads this, writeBuffer, writeBuffer.buffer, sendCrypto, sendCrypto.perm
      requires writeBuffer.Valid() && sendCrypto.Valid() && WellFormed(c)
    {
      writeBuffer.Contents() == queued && sendCrypto.State() == Turn(useCrypto, c, 6)
    }

    /** The header alone was queued, and the cipher is a whole frame on. */
    ghost predicate BodyRefused(queued: seq<byte>, c: Cipher, wire: seq<byte>)
      reads this, writeBuffer, writeBuffer.buffer, sendCrypto, sendCrypto.perm
      requires writeBuffer.Valid() && sendCrypto.Valid() && WellFormed(c) && |wire| >= 6
    {
      |wire| > 6 && writeBuffer.Contents() == queued + wire[..6] && sendCrypto.State() == Turn(useCrypto, c, |wire|)
    }

    /** Puts a packet on the write buffer, ciphering the caller's own copy of the body in place. */
    method SendPacket(op: uint16, contents: array<byte>) returns (rv: bool)
      requires Valid() && contents.Length < 0x1_0000_0000
      requires contents !in {sendCrypto.perm, recvCrypto.perm, writeBuffer.buffer, readBuffer.buffer}
      modifies contents, writeBuffer, writeBuffer.buffer, sendCrypto, sendCrypto.perm
      ensures Valid()
      ensures rv ==> writeBuffer.Contents() == old(writeBuffer.Contents() + Wire(op, contents[..]))
      ensures rv ==> sendCrypto.State() == Turn(useCrypto, old(sendCrypto.State()), 6 + contents.Length)
      ensures rv ==> contents[..] == old(Wire(op, contents[..])[6..])
      ensures rv || HeaderRefused(old(writeBuffer.Contents()), old(sendCrypto.State()))
                 || BodyRefused(old(writeBuffer.Contents()), old(sendCrypto.State()), old(Wire(op, contents[..])))
      ensures |old(writeBuffer.Contents())| + 6 + contents.Length <= writeBuffer.buffer.Length / 2 ==> rv
    {
      hide Code, Turn, Header, Wire, View, After, Crypt;
      WireInTwo(op, contents[..]);
      ghost var queued, wire := writeBuffer.Contents(), Wire(op, contents[..]);
      var header := NewHeader(op, contents.Length, contents[..]);
      rv := Burst(header);
      assert header[..] == wire[..6];
      if contents.Length > 0 && rv {
        rv := Burst(contents);
        assert contents[..] == wire[6..];
        assert queued + wire[..6] + wire[6..] == queued + wire;
      } else {
        assert contents.Length == 0 ==> wire == wire[..6];
      }
    }
  }

  /** And for every body that is longer the link can stall: a block of 2h bytes is filled, by the
      read loop's own reads, so that it has no room left while the body is incomplete. Whatever
      bytes come next are not taken. */
  method StalledSocket(h: nat, op: uint16, length: uint32, sendSize: nat, more: seq<byte>, yetMore: seq<byte>)
    returns (s: LogonCommSocket, taken: nat)
    requires h >= 12 && length >= h + 2 && |more| >= h && yetMore != []
    ensures s.Valid() && s.readBuffer.buffer.Length == 2 * h
    ensures s.remaining == length && |s.readBuffer.Contents()| == h + 1 && Waits(s.Receiving()) && taken == 0
  {
    s := HalfUsed(h, op, length, sendSize);
    hide Drain;
    ghost var r := s.Receiving().(buffer := s.readBuffer.Contents() + more[..h]);
    DrainUnfolds(s.useCrypto, r);
    assert Waits(r);
    taken := s.ReadCallback(more);
    assert taken == h && s.readBuffer.Space() == 0;
    taken := s.ReadCallback(yetMore);
  }

  /** A socket that has read a packet and the next header in one go, with one byte left at the
      middle of its block. */
  method HalfUsed(h: nat, op: uint16, length: uint32, sendSize: nat) returns (s: LogonCommSocket)
    requires h >= 12 && length >= h + 2
    ensures fresh(s) && fresh(s.readBuffer) && fresh(s.readBuffer.buffer) && fresh(s.recvCrypto) && fresh(s.recvCrypto.perm)
    ensures s.Valid() && s.readBuffer.buffer.Length == 2 * h
    ensures s.handled == [Packet(op, seq(h - 12, _ => 0))] && s.remaining == length
    ensures !s.readBuffer.hasB && s.readBuffer.sizeA == 1 && s.readBuffer.regionA == h && |s.readBuffer.Contents()| == 1
  {
    s := new LogonCommSocket(2 * h, sendSize);
    hide Drain, Opening;
    OpeningWaits(s.recvCrypto.State(), h, op, length);
    var wire := Opening(h, op, length);
    var taken := s.ReadCallback(wire);
    assert wire[..taken] == wire && [] + wire == wire;
    s.readBuffer.NoSpaceMeansHalfFull();
  }

  /** The first h + 1 bytes of a packet of h - 6 bytes and a packet with a body of the given length. */
  function Opening(h: nat, op: uint16, length: uint32): (wire: seq<byte>)
    requires h >= 12 && length >= h + 2
    ensures |wire| == h + 1
  {
    var first: Packet, second: Packet := Packet(op, seq(h - 12, _ => 0)), Packet(op, seq(length, _ => 0));
    PlainOfTwo(first, second);
    Plain([first, second])[..h + 1]
  }

  lemma {:induction false} PlainOfTwo(first: Packet, second: Packet)
    ensures |Plain([first, second])| == 12 + |first.body| + |second.body|
  {
    hide Header;
    var one: seq<Packet>, two: seq<Packet> := [first], [first, second];
    assert two[..1] == one && one[..0] == [];
    assert Plain(one) == Plain([]) + Frame(first);
  }

  lemma {:induction false} OpeningWaits(key: Cipher, h: nat, op: uint16, length: uint32)
    requires WellFormed(key) && h >= 12 && length >= h + 2
    ensures var r := Drain(false, Receiver(key, 0, 0, Opening(h, op, length), []));
      && r.handed == [Packet(op, seq(h - 12, _ => 0))] && r.remaining == length && |r.buffer| == 1
  {
    hide Drain, Plain;
    var first: Packet, second: Packet := Packet(op, seq(h - 12, _ => 0)), Packet(op, seq(length, _ => 0));
    LongBodyWaits(false, key, first, second, h + 1);
  }
}
