/** The byte queue under every socket: one fixed block holding an older region A and, once the
    free room in front of A exceeds the room behind it, a younger region B at the block's start. */
module CircularBuffer {

  /** What the two regions of a block hold, oldest first. */
  ghost function View<T>(block: seq<T>, a: nat, sizeA: nat, b: nat, sizeB: nat): seq<T>
    requires a + sizeA <= |block| && b + sizeB <= |block|
  {
    block[a..a + sizeA] + block[b..b + sizeB]
  }

  lemma {:induction false} ViewFront<T>(block: seq<T>, a: nat, sizeA: nat, b: nat, sizeB: nat, k: nat)
    requires a + sizeA <= |block| && b + sizeB <= |block| && k <= sizeA + sizeB
    ensures |View(block, a, sizeA, b, sizeB)| == sizeA + sizeB
    ensures var m := if k > sizeA then sizeA else k; var n := k - m;
      View(block, a, sizeA, b, sizeB) ==
        block[a..a + m] + block[b..b + n] + View(block, a + m, sizeA - m, b + n, sizeB - n)
  {
  }

  ghost function Overwrite<T>(block: seq<T>, at: nat, data: seq<T>): (after: seq<T>)
    requires at + |data| <= |block|
    ensures |after| == |block|
  {
    block[..at] + data + block[at + |data|..]
  }

  /** Bytes written behind region B are appended, region B ending before A begins. */
  lemma {:induction false} ViewBackB<T>(block: seq<T>, a: nat, sizeA: nat, b: nat, sizeB: nat, data: seq<T>)
    requires a + sizeA <= |block| && b + sizeB + |data| <= a
    ensures View(Overwrite(block, b + sizeB, data), a, sizeA, b, sizeB + |data|)
      == View(block, a, sizeA, b, sizeB) + data
  {
    var after := Overwrite(block, b + sizeB, data);
    assert after[a..a + sizeA] == block[a..a + sizeA];
    assert after[b..b + sizeB + |data|] == block[b..b + sizeB] + data;
  }

  /** Without a region B, bytes written behind region A are appended. */
  lemma {:induction false} ViewBackA<T>(block: seq<T>, a: nat, sizeA: nat, data: seq<T>)
    requires a + sizeA + |data| <= |block|
    ensures View(Overwrite(block, a + sizeA, data), a, sizeA + |data|, 0, 0)
      == View(block, a, sizeA, 0, 0) + data
  {
    var after := Overwrite(block, a + sizeA, data);
    assert after[a..a + sizeA + |data|] == block[a..a + sizeA] + data;
  }

  class CircularBuffer<T(0)> {
    const buffer: array<T>
    var regionA: nat          // offset of region A
    var sizeA: nat
    var hasB: bool            // whether region B is allocated
    var regionB: nat          // offset of region B
    var sizeB: nat

    ghost predicate Valid()
      reads this
    {
      && regionA + sizeA <= buffer.Length
      && (sizeA == 0 ==> regionA == 0 && !hasB)
      && (hasB ==> regionB == 0 && sizeB <= regionA && AFreeSpace() < regionA)
      && (!hasB ==> regionB == sizeB == 0)
    }

    /** The bytes queued, oldest first. */
    ghost function Contents(): (s: seq<T>)
      reads this, buffer
      requires Valid()
    {
      View(buffer[..], regionA, sizeA, regionB, sizeB)
    }

    function AFreeSpace(): int
      reads this
    {
      buffer.Length - regionA - sizeA
    }

    function BFreeSpace(): int
      reads this
    {
      if hasB then regionA - regionB - sizeB else 0
    }

    /** The number of bytes that may be put at the write position. */
    function Room(): int
      reads this
    {
      if hasB then BFreeSpace() else AFreeSpace()
    }

    /** The room that the next receive will find: region B is opened when it promises more. */
    function Space(): int
      reads this
    {
      if !hasB && AFreeSpace() < regionA then regionA else Room()
    }

    constructor (size: nat)
      ensures Valid() && Contents() == [] && !hasB && regionA == sizeA == 0 && fresh(buffer) && buffer.Length == size
    {
      buffer := new T[size];
      regionA, sizeA := 0, 0;
      hasB, regionB, sizeB := false, 0, 0;
    }

    method GetSize() returns (n: nat)
      requires Valid()
      ensures n == |Contents()|
    {
      n := sizeA + sizeB;
    }

    /** Moves region B to the start of the block and makes it region A, once A is used up. */
    method Settle()
      requires regionA <= buffer.Length && sizeA == 0 && regionB + sizeB <= buffer.Length
      modifies this, buffer
      ensures Valid()
      ensures Contents() == old(View(buffer[..], regionA, sizeA, regionB, sizeB))
    {
      if sizeB > 0 {
        if regionB != 0 {
          forall k | 0 <= k < sizeB {
            buffer[k] := buffer[regionB + k];
          }
        }
        regionA, sizeA := 0, sizeB;
      } else {
        regionA, sizeA := 0, 0;
      }
      hasB, regionB, sizeB := false, 0, 0;
    }

    /** Takes len bytes off the front: first from A, then from B. */
    method TakeFront(len: nat) returns (taken: seq<T>)
      requires Valid() && len <= sizeA + sizeB
      modifies this, buffer
      ensures Valid()
      ensures old(Contents()) == taken + Contents() && |taken| == len
      ensures !old(hasB) && len < old(sizeA) ==>
        !hasB && regionA == old(regionA) + len && sizeA == old(sizeA) - len
    {
      hide View;
      ghost var block, a, b := buffer[..], regionA, regionB;
      ghost var inA := if len > sizeA then sizeA else len;
      ghost var inB := len - inA;
      ViewFront(block, regionA, sizeA, regionB, sizeB, len);
      taken := [];
      var cnt := len;
      if sizeA > 0 {
        var aRead := if cnt > sizeA then sizeA else cnt;
        taken := buffer[regionA..regionA + aRead];
        sizeA := sizeA - aRead;
        regionA := regionA + aRead;
        cnt := cnt - aRead;
      }
      if cnt > 0 && sizeB > 0 {
        var bRead := if cnt > sizeB then sizeB else cnt;
        taken := taken + buffer[regionB..regionB + bRead];
        sizeB := sizeB - bRead;
        regionB := regionB + bRead;
      }
      assert taken == block[a..a + inA] + block[b..b + inB];
      assert old(Contents()) == taken + View(block, regionA, sizeA, regionB, sizeB);
      if sizeA == 0 {
        Settle();
      }
    }

    /** Drops len bytes from the front, or all there are. */
    method Remove(len: nat)
      requires Valid()
      modifies this, buffer
      ensures Valid()
      ensures Contents() == if len <= |old(Contents())| then old(Contents())[len..] else []
    {
      var taken := TakeFront(if len > sizeA + sizeB then sizeA + sizeB else len);
    }

    /** Takes the oldest bytes out; nothing changes when there are too few. */
    method Read(bytes: nat) returns (ok: bool, destination: seq<T>)
      requires Valid()
      modifies this, buffer
      ensures Valid()
      ensures ok <==> bytes <= |old(Contents())|
      ensures ok ==> old(Contents()) == destination + Contents() && |destination| == bytes
      ensures !ok ==> Contents() == old(Contents())
      ensures !old(hasB) && bytes < old(sizeA) ==>
        !hasB && regionA == old(regionA) + bytes && sizeA == old(sizeA) - bytes
    {
      if sizeA + sizeB < bytes {
        return false, [];
      }
      destination := TakeFront(bytes);
      ok := true;
    }

    method AllocateB()
      requires Valid() && !hasB && AFreeSpace() < regionA
      modifies this
      ensures Valid() && hasB && sizeB == 0 && Contents() == old(Contents())
      ensures regionA == old(regionA) && sizeA == old(sizeA)
    {
      hasB, regionB := true, 0;
    }

    /** Puts data at the write position. */
    method Commit(data: seq<T>)
      requires Valid() && |data| <= Room()
      modifies this, buffer
      ensures Valid() && Contents() == old(Contents()) + data
      ensures regionA == old(regionA) && hasB == old(hasB) && Room() == old(Room()) - |data|
      ensures sizeA == old(sizeA) + if hasB then 0 else |data|
    {
      var at := if hasB then regionB + sizeB else regionA + sizeA;
      hide View;
      ghost var before := buffer[..];
      forall k | 0 <= k < |data| {
        buffer[at + k] := data[k];
      }
      assert buffer[..] == Overwrite(before, at, data);
      if hasB {
        ViewBackB(before, regionA, sizeA, regionB, sizeB, data);
        sizeB := sizeB + |data|;
      } else {
        ViewBackA(before, regionA, sizeA, data);
        sizeA := sizeA + |data|;
      }
    }

    /** Appends all of data or nothing. */
    method Write(data: seq<T>) returns (ok: bool)
      requires Valid()
      modifies this, buffer
      ensures Valid()
      ensures Contents() == if ok then old(Contents()) + data else old(Contents())
      ensures |old(Contents())| + |data| <= buffer.Length / 2 ==> ok
      ensures ok ==> |Contents()| <= buffer.Length
    {
      if !hasB && AFreeSpace() < regionA {
        AllocateB();
      }
      if Room() < |data| {
        return false;
      }
      Commit(data);
      ok := true;
    }

    lemma {:induction false} NoSpaceMeansHalfFull()
      requires Valid()
      ensures Space() == 0 && buffer.Length > 0 ==> 2 * |Contents()| > buffer.Length
      ensures |Contents()| == sizeA + sizeB
    {
    }

    /** The room for the next receive. A buffer that has none is more than half full: the rest
        is room behind A that region B can never use. */
    method GetSpace() returns (n: nat)
      requires Valid()
      modifies this
      ensures Valid() && Contents() == old(Contents()) && n == Room() == old(Space())
      ensures n == 0 && buffer.Length > 0 ==> 2 * |Contents()| > buffer.Length
      ensures regionA == old(regionA) && sizeA == old(sizeA) && sizeB == old(sizeB)
      ensures hasB <==> old(hasB) || old(AFreeSpace()) < old(regionA)
    {
      if !hasB && AFreeSpace() < regionA {
        AllocateB();
      }
      n := Room();
    }
  }

  /** The bound of GetSpace is sharp: every block of 2h bytes can be driven to refuse further bytes
      while it holds only h + 1. */
  method FullJustPastHalf<T(0)>(h: nat, some: T) returns (b: CircularBuffer<T>, n: nat)
    requires h >= 2
    ensures fresh(b) && b.Valid() && b.buffer.Length == 2 * h
    ensures n == b.Room() == 0 && |b.Contents()| == h + 1
  {
    b := new CircularBuffer<T>(2 * h);
    b.Commit(seq(h + 1, _ => some));
    var ok, front := b.Read(h);
    n := b.GetSpace();
    b.Commit(seq(h, _ => some));
    n := b.GetSpace();
  }
}
