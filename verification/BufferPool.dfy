/** The pool that packets are borrowed from and returned to: who owns which packet, on every run. */
module BufferPool {

  type PacketId = nat

  const BUCKETS: nat := 8
  const INITIAL: nat := 100
  const RESERVE: nat := 100
  const NO_POOL: int := -1

  /** Bytes a packet of each bucket is made for. */
  const SIZES: seq<nat> := [20, 50, 100, 200, 500, 1000, 5000, 10000]

  /** One bucket: its stack of spare packets, the length of the vector that holds it, and its counters. */
  datatype Bucket = Bucket(stack: seq<PacketId>, capacity: nat, used: int, allocCounter: int)

  /** All buckets, the tag that each packet ever made carries, the packets in the hands of callers,
      and those deleted. A new packet takes the next number. */
  datatype Pool = Pool(buckets: seq<Bucket>, tag: seq<int>, out: set<PacketId>, deleted: set<PacketId>)

  datatype Event = Allocate(sz: nat) | Deallocate(packet: PacketId) | Optimize

  // ----- The steps as functions

  /** The first bucket whose packets are large enough. */
  function SmallestFrom(sz: nat, x: nat): (b: int)
    requires x <= BUCKETS
    ensures b == NO_POOL || x <= b < BUCKETS
    decreases BUCKETS - x
  {
    if x == BUCKETS then NO_POOL else if SIZES[x] >= sz then x else SmallestFrom(sz, x + 1)
  }

  function Elems(s: seq<PacketId>): set<PacketId> {
    set id | id in s
  }

  /** Takes the packet queued last, or the one made for this. */
  function Dequeued(b: Bucket, new_: PacketId): (Bucket, PacketId) {
    var n := |b.stack|;
    var c := b.(used := b.used + 1, allocCounter := b.allocCounter + 1);
    if n == 0 then (c, new_) else (c.(stack := b.stack[..n - 1]), b.stack[n - 1])
  }

  /** Puts a packet back on the stack, growing the vector when every slot is taken. */
  function Queued(b: Bucket, id: PacketId): Bucket {
    Bucket(b.stack + [id], if b.capacity == |b.stack| then RESERVE + b.capacity else b.capacity,
           b.used - 1, b.allocCounter - 1)
  }

  function Abs(n: int): nat {
    if n < 0 then -n else n
  }

  /** The number of spare packets kept when there has been no more returning than taking. */
  function Keep(b: Bucket): (n: nat)
    ensures n <= |b.stack|
  {
    var y := Abs(b.allocCounter) + 50;
    if |b.stack| > y then y else |b.stack|
  }

  /** The number of packets made for reserve when there has been more. */
  function Made(b: Bucket): nat {
    if b.allocCounter < 0 && |b.stack| <= b.capacity then Abs(b.allocCounter) + 50 + b.capacity - |b.stack| else 0
  }

  /** The packets made for reserve go past the stack, where nothing is ever taken from; the others
      are dropped from its top. */
  function OptimizedBucket(b: Bucket): Bucket {
    if b.allocCounter < 0 then b.(capacity := Abs(b.allocCounter) + 50 + b.capacity, allocCounter := 0)
    else b.(stack := b.stack[..Keep(b)], allocCounter := 0)
  }

  function Dropped(b: Bucket): set<PacketId> {
    if b.allocCounter < 0 then {} else Elems(b.stack[Keep(b)..])
  }

  function TakenFrom(p: Pool, x: nat): (Pool, PacketId)
    requires x < |p.buckets|
  {
    var new_ := |p.tag|;
    var (b, id) := Dequeued(p.buckets[x], new_);
    (p.(buckets := p.buckets[x := b], tag := if id == new_ then p.tag + [x] else p.tag, out := p.out + {id}), id)
  }

  /** A packet too large for every bucket is made for the purpose. */
  function MadeLoose(p: Pool): (Pool, PacketId) {
    (p.(tag := p.tag + [NO_POOL], out := p.out + {|p.tag|}), |p.tag|)
  }

  function Allocated(p: Pool, sz: nat): (r: (Pool, PacketId))
    requires |p.buckets| == BUCKETS
    ensures |r.0.buckets| == BUCKETS
  {
    var x := SmallestFrom(sz, 0);
    if x == NO_POOL then MadeLoose(p) else TakenFrom(p, x)
  }

  function Deallocated(p: Pool, id: PacketId): Pool
    requires id < |p.tag| && (p.tag[id] == NO_POOL || 0 <= p.tag[id] < |p.buckets|)
  {
    var x := p.tag[id];
    if x == NO_POOL then p.(out := p.out - {id}, deleted := p.deleted + {id})
    else p.(buckets := p.buckets[x := Queued(p.buckets[x], id)], out := p.out - {id})
  }

  function OptimizedOne(p: Pool, x: nat): Pool
    requires x < |p.buckets|
  {
    var b := p.buckets[x];
    p.(buckets := p.buckets[x := OptimizedBucket(b)], tag := p.tag + seq(Made(b), _ => NO_POOL),
       deleted := p.deleted + Dropped(b))
  }

  // ----- Ownership

  ghost predicate Distinct(s: seq<PacketId>) {
    forall i, j :: 0 <= i < j < |s| ==> s[i] != s[j]
  }

  /** The packets of one bucket that callers hold. */
  ghost function OutOf(p: Pool, x: int): set<PacketId> {
    set id | id in p.out && id < |p.tag| && p.tag[id] == x
  }

  /** A spare packet of a bucket carries its tag, is in nobody's hands and is not deleted. */
  ghost predicate SpareOf(p: Pool, x: int, id: PacketId) {
    id < |p.tag| && p.tag[id] == x && id !in p.out && id !in p.deleted
  }

  ghost predicate BucketInv(p: Pool, x: nat)
    requires x < |p.buckets|
  {
    var b := p.buckets[x];
    && |b.stack| <= b.capacity
    && Distinct(b.stack)
    && (forall id :: id in b.stack ==> SpareOf(p, x, id))
    && b.used == |OutOf(p, x)|
  }

  ghost predicate Inv(p: Pool) {
    && |p.buckets| == BUCKETS
    && (forall id :: 0 <= id < |p.tag| ==> p.tag[id] == NO_POOL || 0 <= p.tag[id] < BUCKETS)
    && (forall id :: id in p.out ==> id < |p.tag| && id !in p.deleted)
    && (forall id :: id in p.deleted ==> id < |p.tag|)
    && (forall x :: 0 <= x < BUCKETS ==> BucketInv(p, x))
  }

  lemma {:induction false} SmallestIsLeast(sz: nat, x: nat)
    requires x <= BUCKETS
    ensures var b := SmallestFrom(sz, x);
      && (b == NO_POOL ==> forall y :: x <= y < BUCKETS ==> SIZES[y] < sz)
      && (b != NO_POOL ==> SIZES[b] >= sz && forall y :: x <= y < b ==> SIZES[y] < sz)
    decreases BUCKETS - x
  {
    if x < BUCKETS && SIZES[x] < sz {
      SmallestIsLeast(sz, x + 1);
    }
  }

  /** The other buckets do not notice that a packet of this one changes hands. */
  lemma {:induction false} OtherBucketKept(p: Pool, x: nat, y: nat)
    requires Inv(p) && x < BUCKETS && y < BUCKETS && x != y
    ensures var (q, id) := TakenFrom(p, x); |q.buckets| == BUCKETS && BucketInv(q, y)
  {
    var (q, id) := TakenFrom(p, x);
    assert BucketInv(p, x) && BucketInv(p, y);
    assert |p.buckets[x].stack| > 0 ==> id in p.buckets[x].stack && SpareOf(p, x, id);
    assert OutOf(q, y) == OutOf(p, y);
    forall k | k in q.buckets[y].stack
      ensures SpareOf(q, y, k)
    {
      assert SpareOf(p, y, k);
    }
  }

  lemma {:induction false} OwnBucketKept(p: Pool, x: nat)
    requires Inv(p) && x < BUCKETS
    ensures var (q, id) := TakenFrom(p, x);
      && |q.buckets| == BUCKETS && BucketInv(q, x) && id !in p.out && id !in p.deleted
      && id < |q.tag| && q.tag[id] == x && (id < |p.tag| ==> SpareOf(p, x, id))
  {
    var (q, id) := TakenFrom(p, x);
    assert BucketInv(p, x);
    var s := p.buckets[x].stack;
    if s != [] {
      assert id in s && SpareOf(p, x, id);
      KeepOrDrop(s, |s| - 1);
      assert id in s[|s| - 1..];
    }
    assert OutOf(q, x) == OutOf(p, x) + {id};
    forall k | k in q.buckets[x].stack
      ensures SpareOf(q, x, k)
    {
      assert k in s && SpareOf(p, x, k);
    }
  }

  lemma {:induction false} TakeKeepsInv(p: Pool, x: nat)
    requires Inv(p) && x < BUCKETS
    ensures var (q, id) := TakenFrom(p, x);
      && Inv(q) && id !in p.out && id !in p.deleted && q.out == p.out + {id} && q.deleted == p.deleted
      && id < |q.tag| && q.tag[id] == x && (id < |p.tag| ==> SpareOf(p, x, id))
  {
    hide BucketInv;
    OwnBucketKept(p, x);
    forall y | 0 <= y < BUCKETS
      ensures BucketInv(TakenFrom(p, x).0, y)
    {
      if y != x {
        OtherBucketKept(p, x, y);
      }
    }
  }

  lemma {:induction false} LooseKeepsInv(p: Pool)
    requires Inv(p)
    ensures var (q, id) := MadeLoose(p);
      && Inv(q) && id !in p.out && id !in p.deleted && q.out == p.out + {id} && q.deleted == p.deleted
      && id < |q.tag| && q.tag[id] == NO_POOL && id == |p.tag|
  {
    var (q, id) := MadeLoose(p);
    forall y | 0 <= y < BUCKETS
      ensures BucketInv(q, y)
    {
      assert BucketInv(p, y);
      assert OutOf(q, y) == OutOf(p, y);
      forall k | k in q.buckets[y].stack
        ensures SpareOf(q, y, k)
      {
        assert SpareOf(p, y, k);
      }
    }
  }

  /** A packet handed out was in nobody's hands before, is not deleted, and comes from the smallest
      bucket that holds the size, or is made for this size when none does. */
  lemma {:induction false} AllocateKeepsInv(p: Pool, sz: nat)
    requires Inv(p)
    ensures |p.buckets| == BUCKETS
    ensures var (q, id) := Allocated(p, sz);
      && Inv(q) && id !in p.out && id !in p.deleted && q.out == p.out + {id} && q.deleted == p.deleted
      && id < |q.tag| && q.tag[id] == SmallestFrom(sz, 0)
      && (id < |p.tag| ==> SpareOf(p, q.tag[id], id))
  {
    hide TakenFrom, MadeLoose, BucketInv, SmallestFrom, SpareOf;
    if SmallestFrom(sz, 0) == NO_POOL {
      LooseKeepsInv(p);
    } else {
      TakeKeepsInv(p, SmallestFrom(sz, 0));
    }
  }

  lemma {:induction false} DeallocateKeepsInv(p: Pool, id: PacketId)
    requires Inv(p) && id in p.out
    ensures var q := Deallocated(p, id); var x := p.tag[id];
      && Inv(q) && q.out == p.out - {id}
      && (if x == NO_POOL then id in q.deleted else q.deleted == p.deleted && SpareOf(q, x, id) && id in q.buckets[x].stack)
  {
    hide BucketInv, Queued;
    forall y | 0 <= y < BUCKETS
      ensures BucketInv(Deallocated(p, id), y)
    {
      if y == p.tag[id] {
        BucketTakesBack(p, id);
      } else {
        OtherTakesNothing(p, id, y);
      }
    }
    if p.tag[id] != NO_POOL {
      BucketTakesBack(p, id);
    }
  }

  lemma {:induction false} BucketTakesBack(p: Pool, id: PacketId)
    requires Inv(p) && id in p.out && p.tag[id] != NO_POOL
    ensures BucketInv(Deallocated(p, id), p.tag[id]) && id in Deallocated(p, id).buckets[p.tag[id]].stack
  {
    var x := p.tag[id];
    var q := Deallocated(p, id);
    assert BucketInv(p, x);
    assert OutOf(q, x) == OutOf(p, x) - {id};
    assert forall k :: k in p.buckets[x].stack ==> SpareOf(p, x, k);
    assert id !in p.buckets[x].stack;
  }

  lemma {:induction false} OtherTakesNothing(p: Pool, id: PacketId, y: nat)
    requires Inv(p) && id in p.out && y < BUCKETS && p.tag[id] != y
    ensures BucketInv(Deallocated(p, id), y)
  {
    var q := Deallocated(p, id);
    assert BucketInv(p, y);
    assert OutOf(q, y) == OutOf(p, y);
    assert q.buckets[y] == p.buckets[y];
    forall k | k in q.buckets[y].stack
      ensures SpareOf(q, y, k)
    {
      assert SpareOf(p, y, k);
    }
  }

  lemma {:induction false} OptimizedBucketKept(p: Pool, x: nat)
    requires Inv(p) && x < BUCKETS
    ensures BucketInv(OptimizedOne(p, x), x)
    ensures forall id :: id in Dropped(p.buckets[x]) ==> SpareOf(p, x, id)
    ensures Dropped(p.buckets[x]) <= Elems(p.buckets[x].stack)
    ensures OptimizedOne(p, x).buckets[x].stack <= p.buckets[x].stack
  {
    assert BucketInv(p, x);
    var q := OptimizedOne(p, x);
    var s, k := p.buckets[x].stack, Keep(p.buckets[x]);
    KeepOrDrop(s, k);
    assert OutOf(q, x) == OutOf(p, x);
    forall id | id in q.buckets[x].stack
      ensures SpareOf(q, x, id)
    {
      assert id in s && SpareOf(p, x, id);
    }
  }

  lemma {:induction false} UnoptimizedBucketKept(p: Pool, x: nat, y: nat)
    requires Inv(p) && x < BUCKETS && y < BUCKETS && x != y
    requires forall id :: id in Dropped(p.buckets[x]) ==> SpareOf(p, x, id)
    ensures BucketInv(OptimizedOne(p, x), y)
  {
    hide Dropped, Made;
    assert BucketInv(p, y);
    var q := OptimizedOne(p, x);
    assert OutOf(q, y) == OutOf(p, y);
    forall id | id in q.buckets[y].stack
      ensures SpareOf(q, y, id)
    {
      assert SpareOf(p, y, id);
    }
  }

  /** Optimizing a bucket deletes only spare packets, takes none from a caller, and never leaves more
      spare packets than there were, not even when it makes some for reserve. */
  lemma {:induction false} OptimizeOneKeepsInv(p: Pool, x: nat)
    requires Inv(p) && x < BUCKETS
    ensures var q := OptimizedOne(p, x);
      && Inv(q) && q.out == p.out
      && q.deleted <= p.deleted + Elems(p.buckets[x].stack)
      && q.buckets[x].stack <= p.buckets[x].stack
  {
    hide BucketInv, Dropped, Made, OptimizedBucket, Elems;
    OptimizedBucketKept(p, x);
    forall y | 0 <= y < BUCKETS
      ensures BucketInv(OptimizedOne(p, x), y)
    {
      if y != x {
        UnoptimizedBucketKept(p, x, y);
      }
    }
  }

  lemma {:induction false} KeepOrDrop(s: seq<PacketId>, k: nat)
    requires Distinct(s) && k <= |s|
    ensures Distinct(s[..k]) && forall id :: id in s <==> id in s[..k] || id in s[k..]
    ensures forall id :: id in s[..k] ==> id !in s[k..]
  {
    assert s == s[..k] + s[k..];
  }

  /** All buckets from the first to the x-th, one after the other. */
  function OptimizedTo(p: Pool, x: nat): (q: Pool)
    requires x <= |p.buckets|
    ensures |q.buckets| == |p.buckets|
  {
    if x == 0 then p else OptimizedOne(OptimizedTo(p, x - 1), x - 1)
  }

  lemma {:induction false} OptimizeKeepsInv(p: Pool, x: nat)
    requires Inv(p) && x <= BUCKETS
    ensures |p.buckets| == BUCKETS
    ensures Inv(OptimizedTo(p, x)) && OptimizedTo(p, x).out == p.out
  {
    hide OptimizedOne, BucketInv;
    if x > 0 {
      OptimizeKeepsInv(p, x - 1);
      OptimizeOneKeepsInv(OptimizedTo(p, x - 1), x - 1);
    }
  }

  // ----- What the pool saves, and what it gives up

  /** Which bucket a size goes to. */
  lemma {:induction false} BucketFor(sz: nat)
    ensures SmallestFrom(sz, 0) ==
      (if sz <= 20 then 0 else if sz <= 50 then 1 else if sz <= 100 then 2 else if sz <= 200 then 3
       else if sz <= 500 then 4 else if sz <= 1000 then 5 else if sz <= 5000 then 6 else if sz <= 10000 then 7 else -1)
  {
    SmallestIsLeast(sz, 0);
  }

  /** A new packet is made only when the bucket has none to spare. */
  lemma {:induction false} MadeOnlyIfNone(p: Pool, sz: nat)
    requires Inv(p) && sz <= 10000
    ensures |p.buckets| == BUCKETS && 0 <= SmallestFrom(sz, 0) < BUCKETS
    ensures var (q, id) := Allocated(p, sz); var spare := p.buckets[SmallestFrom(sz, 0)].stack;
      && (id == |p.tag| <==> spare == [])
      && |q.tag| == |p.tag| + (if spare == [] then 1 else 0)
  {
    BucketFor(sz);
    var x := SmallestFrom(sz, 0);
    assert BucketInv(p, x);
    var spare := p.buckets[x].stack;
    if spare != [] {
      assert SpareOf(p, x, spare[|spare| - 1]);
    }
  }

  /** The packet returned last is the first to go out again, and then everything is as it was. */
  lemma {:induction false} LastBackFirstOut(p: Pool, id: PacketId, sz: nat)
    requires Inv(p) && id in p.out && p.tag[id] == SmallestFrom(sz, 0) != NO_POOL
    ensures |p.buckets| == BUCKETS
    ensures var x := SmallestFrom(sz, 0); var (q, again) := Allocated(Deallocated(p, id), sz);
      && again == id && q == p.(buckets := p.buckets[x := p.buckets[x].(capacity := q.buckets[x].capacity)])
      && q.buckets[x].capacity == p.buckets[x].capacity + (if |p.buckets[x].stack| == p.buckets[x].capacity then 100 else 0)
  {
    hide SmallestFrom;
    var x := SmallestFrom(sz, 0);
    var b := p.buckets[x];
    assert BucketInv(p, x);
    assert (b.stack + [id])[..|b.stack|] == b.stack;
    assert p.out - {id} + {id} == p.out;
  }

  lemma {:induction false} OptimizedEach(p: Pool, x: nat, y: nat)
    requires x <= |p.buckets| && y < |p.buckets|
    ensures OptimizedTo(p, x).buckets[y] == if y < x then OptimizedBucket(p.buckets[y]) else p.buckets[y]
    decreases x
  {
    hide OptimizedBucket, Made, Dropped;
    if x > 0 {
      OptimizedEach(p, x - 1, y);
      OptimizedEach(p, x - 1, x - 1);
    }
  }

  /** What optimizing leaves: a bucket that has given out no less than it took back keeps as many spare
      packets as the difference and fifty; one that took back more keeps all and its vector grows. */
  lemma {:induction false} OptimizeLeaves(p: Pool, x: nat)
    requires Inv(p) && x < BUCKETS
    ensures |p.buckets| == |OptimizedTo(p, BUCKETS).buckets| == BUCKETS
    ensures var b, c := p.buckets[x], OptimizedTo(p, BUCKETS).buckets[x];
      && c.allocCounter == 0 && c.used == b.used && c.stack <= b.stack
      && (b.allocCounter >= 0 ==>
            c.capacity == b.capacity && |c.stack| == if |b.stack| <= b.allocCounter + 50 then |b.stack| else b.allocCounter + 50)
      && (b.allocCounter < 0 ==> c.stack == b.stack && c.capacity == b.capacity - b.allocCounter + 50)
  {
    OptimizedEach(p, BUCKETS, x);
  }

  /** The packets made for reserve fill the vector behind the stack; those dropped are deleted. */
  lemma {:induction false} OptimizeMakes(p: Pool, x: nat)
    requires Inv(p) && x < BUCKETS
    ensures |p.buckets| == |OptimizedOne(p, x).buckets| == BUCKETS
    ensures var q := OptimizedOne(p, x); var b, c := p.buckets[x], q.buckets[x];
      && |q.tag| == |p.tag| + (if b.allocCounter < 0 then c.capacity - |b.stack| else 0)
      && p.tag <= q.tag && (forall id :: |p.tag| <= id < |q.tag| ==> q.tag[id] == -1)
      && (forall id :: id in q.deleted <==> id in p.deleted || (id in b.stack && id !in c.stack))
  {
    assert BucketInv(p, x);
    var b := p.buckets[x];
    KeepOrDrop(b.stack, Keep(b));
  }

  // ----- Runs

  /** A fresh pool: every bucket holds its first packets, numbered in the order they were made. */
  function Fresh(): Pool {
    Pool(seq(BUCKETS, x requires x >= 0 => Bucket(seq(INITIAL, i requires i >= 0 => INITIAL * x + i), INITIAL + RESERVE, 0, 0)),
         seq(BUCKETS * INITIAL, id requires id >= 0 => id / INITIAL), {}, {})
  }

  lemma {:induction false} FreshInv()
    ensures Inv(Fresh())
  {
    var p := Fresh();
    forall x | 0 <= x < BUCKETS
      ensures BucketInv(p, x)
    {
      var b := p.buckets[x];
      forall id | id in b.stack
        ensures SpareOf(p, x, id)
      {
        var i :| 0 <= i < INITIAL && b.stack[i] == id;
        Quotient(x, i);
      }
      assert OutOf(p, x) == {};
    }
  }

  lemma {:induction false} Quotient(x: nat, i: nat)
    requires i < INITIAL
    ensures (INITIAL * x + i) / INITIAL == x
  {
  }

  /** Callers return only what they hold. */
  function Step(p: Pool, e: Event): (q: Pool)
    requires |p.buckets| == BUCKETS
    ensures |q.buckets| == BUCKETS
  {
    match e
    case Allocate(sz) => Allocated(p, sz).0
    case Deallocate(id) =>
      if id in p.out && id < |p.tag| && NO_POOL <= p.tag[id] < BUCKETS then Deallocated(p, id) else p
    case Optimize => OptimizedTo(p, BUCKETS)
  }

  function Run(events: seq<Event>): (p: Pool)
    ensures |p.buckets| == BUCKETS
  {
    if events == [] then Fresh() else Step(Run(events[..|events| - 1]), events[|events| - 1])
  }

  lemma {:induction false} StepKeepsInv(p: Pool, e: Event)
    requires Inv(p)
    ensures |p.buckets| == BUCKETS && Inv(Step(p, e))
    ensures forall id :: id in p.out && e != Deallocate(id) ==> id in Step(p, e).out
  {
    hide Allocated, Deallocated, OptimizedTo, BucketInv;
    match e
    case Allocate(sz) => AllocateKeepsInv(p, sz);
    case Deallocate(id) => if id in p.out { DeallocateKeepsInv(p, id); }
    case Optimize => OptimizeKeepsInv(p, BUCKETS);
  }

  lemma {:induction false} RunKeepsInv(events: seq<Event>)
    ensures Inv(Run(events))
    decreases |events|
  {
    hide Inv, Step;
    if events == [] {
      FreshInv();
    } else {
      RunKeepsInv(events[..|events| - 1]);
      StepKeepsInv(Run(events[..|events| - 1]), events[|events| - 1]);
    }
  }

  /** The packet that the i-th event of a run hands out, if it is an allocation. */
  function HandedOut(events: seq<Event>, i: nat): (id: PacketId)
    requires i < |events| && events[i].Allocate?
  {
    Allocated(Run(events[..i]), events[i].sz).1
  }

  /** Between two times that a packet is handed out it has been returned: no packet is in two hands. */
  lemma {:induction false} NeverHandedOutTwice(events: seq<Event>, i: nat, j: nat)
    requires i < j < |events| && events[i].Allocate? && events[j].Allocate?
    requires HandedOut(events, i) == HandedOut(events, j)
    ensures exists k :: i < k < j && events[k] == Deallocate(HandedOut(events, i))
  {
    if !exists k :: i < k < j && events[k] == Deallocate(HandedOut(events, i)) {
      StaysOut(events, i, j);
      RunKeepsInv(events[..j]);
      AllocateKeepsInv(Run(events[..j]), events[j].sz);
    }
  }

  lemma {:induction false} StaysOut(events: seq<Event>, i: nat, j: nat)
    requires i < j <= |events| && events[i].Allocate?
    requires forall k :: i < k < j ==> events[k] != Deallocate(HandedOut(events, i))
    ensures HandedOut(events, i) in Run(events[..j]).out
    decreases j
  {
    hide Inv, Allocated, Deallocated, OptimizedTo;
    var before := events[..j - 1];
    assert events[..j][..j - 1] == before && events[..j][j - 1] == events[j - 1];
    RunKeepsInv(before);
    if i == j - 1 {
      AllocateKeepsInv(Run(before), events[i].sz);
    } else {
      StaysOut(events, i, j - 1);
      StepKeepsInv(Run(before), events[j - 1]);
    }
  }

  /** On every run a packet in a caller's hands has not been deleted, and the counters of a bucket
      count exactly the packets of it that callers hold. */
  lemma {:induction false} CountersCount(events: seq<Event>, x: nat)
    requires x < BUCKETS
    ensures var p := Run(events);
      && (forall id :: id in p.out ==> id !in p.deleted)
      && p.buckets[x].used == |OutOf(p, x)|
  {
    RunKeepsInv(events);
    assert BucketInv(Run(events), x);
  }

  /** A packet that carries no bucket's tag, as those that optimizing makes for reserve, is never
      handed out again: every allocation too large for the buckets makes its own. */
  lemma {:induction false} ReserveNeverHandedOut(p: Pool, sz: nat, id: PacketId)
    requires Inv(p) && id < |p.tag| && p.tag[id] == NO_POOL
    ensures |p.buckets| == BUCKETS && Allocated(p, sz).1 != id
  {
    AllocateKeepsInv(p, sz);
  }

  // ----- The classes

  /** A vector of packets, of which the first so many are spare. */
  class BufferBucket {
    var packetBuffer: seq<PacketId>
    var packetBufferCount: nat
    var used: int
    var allocCounter: int

    ghost predicate Valid()
      reads this
    {
      packetBufferCount <= |packetBuffer|
    }

    ghost function View(): Bucket
      requires Valid()
      reads this
    {
      Bucket(packetBuffer[..packetBufferCount], |packetBuffer|, used, allocCounter)
    }

    /** Fills the bucket with its first packets, numbered from `first`. */
    constructor (first: nat)
      ensures Valid()
      ensures View() == Bucket(seq(INITIAL, i requires i >= 0 => first + i), INITIAL + RESERVE, 0, 0)
    {
      packetBufferCount := INITIAL;
      allocCounter := 0;
      used := 0;
      packetBuffer := seq(INITIAL + RESERVE, _ => 0);
      new;
      for x := 0 to INITIAL
        invariant |packetBuffer| == INITIAL + RESERVE && packetBufferCount == INITIAL
        invariant used == 0 && allocCounter == 0
        invariant forall i :: 0 <= i < x ==> packetBuffer[i] == first + i
      {
        packetBuffer := packetBuffer[x := first + x];
      }
    }

    method Queue(data: PacketId)
      requires Valid()
      modifies this
      ensures Valid() && View() == Queued(old(View()), data)
    {
      allocCounter := allocCounter - 1;
      used := used - 1;
      if |packetBuffer| == packetBufferCount {
        packetBuffer := packetBuffer + seq(RESERVE, _ => 0);
      }
      packetBuffer := packetBuffer[packetBufferCount := data];
      packetBufferCount := packetBufferCount + 1;
    }

    /** A packet that has to be made takes the number given. */
    method Dequeue(new_: PacketId) returns (ret: PacketId)
      requires Valid()
      modifies this
      ensures Valid() && (View(), ret) == Dequeued(old(View()), new_)
    {
      allocCounter := allocCounter + 1;
      used := used + 1;
      if packetBufferCount == 0 {
        return new_;
      }
      packetBufferCount := packetBufferCount - 1;
      ret := packetBuffer[packetBufferCount];
      assert View().stack == old(View()).stack[..packetBufferCount];
    }

    /** Packets made for reserve are numbered from `next`; returns how many were made and which were deleted. */
    method Optimize(next: nat) returns (made: nat, dropped: set<PacketId>)
      requires Valid()
      modifies this
      ensures Valid() && View() == OptimizedBucket(old(View()))
      ensures made == Made(old(View())) && dropped == Dropped(old(View()))
    {
      var y := Abs(allocCounter) + 50;
      made, dropped := 0, {};
      if allocCounter < 0 {
        made := Reserve(y + |packetBuffer|, next);
      } else {
        dropped := Drop(if packetBufferCount > y then y else packetBufferCount);
      }
      allocCounter := 0;
    }

    /** Makes packets for every slot past the spare ones. */
    method Reserve(cnt: nat, next: nat) returns (made: nat)
      requires Valid() && |packetBuffer| < cnt
      modifies this
      ensures Valid() && View() == old(View()).(capacity := cnt)
      ensures made == cnt - packetBufferCount
      ensures forall i :: packetBufferCount <= i < cnt ==> packetBuffer[i] == next + i - packetBufferCount
    {
      packetBuffer := packetBuffer + seq(cnt - |packetBuffer|, _ => 0);
      made := 0;
      for x := packetBufferCount to cnt
        invariant |packetBuffer| == cnt && made == x - packetBufferCount
        invariant packetBufferCount == old(packetBufferCount) && used == old(used) && allocCounter == old(allocCounter)
        invariant packetBuffer[..packetBufferCount] == old(packetBuffer[..packetBufferCount])
        invariant forall i :: packetBufferCount <= i < x ==> packetBuffer[i] == next + i - packetBufferCount
      {
        packetBuffer := packetBuffer[x := next + made];
        made := made + 1;
      }
    }

    /** Deletes spare packets from the top until so many are left. */
    method Drop(cnt: nat) returns (dropped: set<PacketId>)
      requires Valid() && cnt <= packetBufferCount
      modifies this`packetBufferCount
      ensures Valid() && View() == old(View()).(stack := old(packetBuffer[..cnt]))
      ensures dropped == Elems(old(View()).stack[cnt..])
    {
      dropped := {};
      var x := packetBufferCount;
      while x > cnt
        invariant cnt <= x == packetBufferCount <= old(packetBufferCount)
        invariant dropped == Elems(packetBuffer[x..old(packetBufferCount)])
      {
        packetBufferCount := packetBufferCount - 1;
        assert packetBuffer[x - 1..old(packetBufferCount)] == [packetBuffer[x - 1]] + packetBuffer[x..old(packetBufferCount)];
        dropped := dropped + {packetBuffer[packetBufferCount]};
        x := x - 1;
      }
      assert old(View()).stack[cnt..] == packetBuffer[cnt..old(packetBufferCount)];
    }
  }

  /** The pool. The bucket number that a packet carries is kept by packet; who holds a packet and
      which are deleted is known to the proof only. */
  class PacketPool {
    var buckets: seq<BufferBucket>
    var bufferPool: seq<int>
    ghost var out: set<PacketId>
    ghost var deleted: set<PacketId>

    ghost predicate Valid()
      reads this, buckets
    {
      && |buckets| == BUCKETS
      && (forall i, j :: 0 <= i < j < |buckets| ==> buckets[i] != buckets[j])
      && (forall i :: 0 <= i < |buckets| ==> buckets[i].Valid())
    }

    ghost function View(): (p: Pool)
      requires Valid()
      reads this, buckets
    {
      Pool(seq(BUCKETS, i requires 0 <= i < BUCKETS && Valid() reads this, buckets => buckets[i].View()), bufferPool, out, deleted)
    }

    constructor ()
      ensures Valid() && View() == Fresh() && (forall i :: 0 <= i < |buckets| ==> fresh(buckets[i]))
    {
      bufferPool := seq(BUCKETS * INITIAL, id requires id >= 0 => id / INITIAL);
      out, deleted, buckets := {}, {}, [];
      new;
      for x := 0 to BUCKETS
        invariant |buckets| == x && bufferPool == Fresh().tag && out == {} && deleted == {}
        invariant forall i :: 0 <= i < x ==> fresh(buckets[i]) && buckets[i].Valid()
        invariant forall i, j :: 0 <= i < j < x ==> buckets[i] != buckets[j]
        invariant forall i :: 0 <= i < x ==> buckets[i].View() == Fresh().buckets[i]
      {
        var bucket := new BufferBucket(INITIAL * x);
        buckets := buckets + [bucket];
      }
    }

    method GetBufferPool(sz: nat) returns (x: int)
      ensures x == SmallestFrom(sz, 0)
    {
      x := 0;
      while x < BUCKETS
        invariant 0 <= x <= BUCKETS && SmallestFrom(sz, 0) == SmallestFrom(sz, x)
      {
        if SIZES[x] >= sz {
          return;
        }
        x := x + 1;
      }
      return NO_POOL;
    }

    method Allocate(sz: nat) returns (ret: PacketId)
      requires Valid()
      modifies this, buckets
      ensures Valid() && buckets == old(buckets) && (View(), ret) == Allocated(old(View()), sz)
    {
      hide TakenFrom, SmallestFrom;
      var bufPool := GetBufferPool(sz);
      if bufPool == NO_POOL {
        ret := |bufferPool|;
        bufferPool, out := bufferPool + [NO_POOL], out + {ret};
        assert View().buckets == old(View()).buckets;
        return;
      }
      ret := TakeFrom(bufPool);
    }

    method TakeFrom(x: nat) returns (ret: PacketId)
      requires Valid() && x < BUCKETS
      modifies this, buckets
      ensures Valid() && buckets == old(buckets) && (View(), ret) == TakenFrom(old(View()), x)
    {
      ghost var was := View();
      ret := buckets[x].Dequeue(|bufferPool|);
      if ret == |bufferPool| {
        bufferPool := bufferPool + [x];
      }
      out := out + {ret};
      assert View().buckets == was.buckets[x := Dequeued(was.buckets[x], |was.tag|).0];
    }

    method Deallocate(pck: PacketId)
      requires Valid() && pck < |bufferPool| && NO_POOL <= bufferPool[pck] < BUCKETS
      modifies this, buckets
      ensures Valid() && buckets == old(buckets) && View() == Deallocated(old(View()), pck)
    {
      out := out - {pck};
      if bufferPool[pck] == NO_POOL {
        deleted := deleted + {pck};
        return;
      }
      buckets[bufferPool[pck]].Queue(pck);
    }

    method Optimize()
      requires Valid()
      modifies this, buckets
      ensures Valid() && buckets == old(buckets) && View() == OptimizedTo(old(View()), BUCKETS)
    {
      for x := 0 to BUCKETS
        invariant Valid() && buckets == old(buckets) && View() == OptimizedTo(old(View()), x)
      {
        OptimizeBucket(x);
      }
    }

    method OptimizeBucket(x: nat)
      requires Valid() && x < BUCKETS
      modifies this, buckets
      ensures Valid() && buckets == old(buckets) && View() == OptimizedOne(old(View()), x)
    {
      var made, dropped := buckets[x].Optimize(|bufferPool|);
      bufferPool := bufferPool + seq(made, _ => NO_POOL);
      deleted := deleted + dropped;
    }
  }

  /** On a valid pool: a packet is handed out, returned, the pool tidied up, and another taken. The
      invariant holds throughout, so the calls are allowed and the two packets differ unless the
      first was returned. */
  method BorrowTwice(sz: nat, giveBack: bool) returns (first: PacketId, second: PacketId)
    ensures !giveBack ==> first != second
  {
    var pool := new PacketPool();
    FreshInv();
    AllocateKeepsInv(pool.View(), sz);
    first := pool.Allocate(sz);
    ghost var p := pool.View();
    if giveBack {
      DeallocateKeepsInv(p, first);
      pool.Deallocate(first);
    }
    OptimizeKeepsInv(pool.View(), BUCKETS);
    pool.Optimize();
    AllocateKeepsInv(pool.View(), sz);
    second := pool.Allocate(sz);
  }
}
