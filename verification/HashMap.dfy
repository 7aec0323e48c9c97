/** The open-addressing hash map: cyclic probing from the hash, removal that leaves holes, and
    doubling, against the finite map it stands for. */
module HashMap {
  import opened Options
  import opened Words

  /** The C int. */
  type Key = k: int | -0x8000_0000 <= k < 0x8000_0000

  datatype Element<V> = Free | Used(key: Key, data: V)

  datatype Status = OK | MISSING | OMEM

  const INITIAL_SIZE: nat := 1024

  // The steps of Robert Jenkins' 32 bit mix.
  function Add12(k: word): word { k + (k << 12) }

  function Xor22(k: word): word { Xor(k, Down22(k)) }

  function Add4(k: word): word { k + (k << 4) }

  function Xor9(k: word): word { Xor(k, Down9(k)) }

  function Add10(k: word): word { k + (k << 10) }

  function Xor2(k: word): word { Xor(k, Down2(k)) }

  function Add7(k: word): word { k + (k << 7) }

  function Xor12(k: word): word { Xor(k, Down12(k)) }

  function Down22(k: word): word { k >> 22 }

  function Down9(k: word): word { k >> 9 }

  function Down2(k: word): word { k >> 2 }

  function Down12(k: word): word { k >> 12 }

  function Jenkins(k: word): word {
    Xor12(Add7(Xor2(Add10(Xor9(Add4(Xor22(Add12(k))))))))
  }

  function Down3(k: word): word { k >> 3 }

  /** Knuth's multiplicative step. */
  function Knuth(k: word): word { k * 2654435761 }

  /** The mix without its three lowest bits, multiplied. */
  function Mix(k: word): word {
    Knuth(Down3(Jenkins(k)))
  }

  function Hash(key: Key, tableSize: nat): (h: nat)
    requires tableSize > 0
    ensures h < tableSize
  {
    (Mix((key % 0x1_0000_0000) as bv32) as int) % tableSize
  }

  // ----- What the hash loses

  lemma {:induction false} Down22OfXor(a: word, b: word)
    ensures Down22(Xor(a, b)) == Xor(Down22(a), Down22(b))
  {
  }

  lemma {:induction false} Down9OfXor(a: word, b: word)
    ensures Down9(Xor(a, b)) == Xor(Down9(a), Down9(b))
  {
  }

  lemma {:induction false} Down2OfXor(a: word, b: word)
    ensures Down2(Xor(a, b)) == Xor(Down2(a), Down2(b))
  {
  }

  lemma {:induction false} Down12OfXor(a: word, b: word)
    ensures Down12(Xor(a, b)) == Xor(Down12(a), Down12(b))
  {
  }

  lemma {:induction false} DownLowers(d: word)
    requires d != 0
    ensures Down22(d) != d && Down9(d) != d && Down2(d) != d && Down12(d) != d
  {
  }

  /** The steps that shift to the right are linear, and take only zero to zero. */
  lemma {:induction false} ShiftsInjective(a: word, b: word)
    requires a != b
    ensures Xor22(a) != Xor22(b) && Xor9(a) != Xor9(b) && Xor2(a) != Xor2(b) && Xor12(a) != Xor12(b)
  {
    hide Xor, Down22, Down9, Down2, Down12;
    Down22OfXor(a, b);
    Down9OfXor(a, b);
    Down2OfXor(a, b);
    Down12OfXor(a, b);
    XorZeroIffSame(a, b);
    DownLowers(Xor(a, b));
    Differ(a, b, Down22(a), Down22(b));
    Differ(a, b, Down9(a), Down9(b));
    Differ(a, b, Down2(a), Down2(b));
    Differ(a, b, Down12(a), Down12(b));
  }

  lemma {:induction false} Differ(a: word, b: word, c: word, d: word)
    ensures Xor(a, b) != Xor(c, d) ==> Xor(a, c) != Xor(b, d)
  {
    hide Xor;
    XorSwaps(a, b, c, d);
    XorZeroIffSame(Xor(a, b), Xor(c, d));
    XorZeroIffSame(Xor(a, c), Xor(b, d));
  }

  // The other steps multiply by an odd number, and so have an inverse.
  function Less12(k: word): word { k * 0xfff001 }

  function Less4(k: word): word { k * 0xf0f0_f0f1 }

  function Less10(k: word): word { k * 0xc00f_fc01 }

  function Less7(k: word): word { k * 0x0fe0_3f81 }

  function Unknuth(k: word): word { k * 0x0e8b_2f51 }

  lemma {:induction false} Product12(k: word)
    ensures Add12(k) == k * 4097
  {
  }

  lemma {:induction false} Inverse12(k: word)
    ensures Less12(k * 4097) == k
  {
  }

  lemma {:induction false} Undo12(k: word)
    ensures Less12(Add12(k)) == k
  {
    hide Add12, Less12;
    Product12(k);
    Inverse12(k);
  }

  lemma {:induction false} Product4(k: word)
    ensures Add4(k) == k * 17
  {
  }

  lemma {:induction false} Inverse4(k: word)
    ensures Less4(k * 17) == k
  {
  }

  lemma {:induction false} Undo4(k: word)
    ensures Less4(Add4(k)) == k
  {
    hide Add4, Less4;
    Product4(k);
    Inverse4(k);
  }

  lemma {:induction false} Product10(k: word)
    ensures Add10(k) == k * 1025
  {
  }

  lemma {:induction false} Inverse10(k: word)
    ensures Less10(k * 1025) == k
  {
  }

  lemma {:induction false} Undo10(k: word)
    ensures Less10(Add10(k)) == k
  {
    hide Add10, Less10;
    Product10(k);
    Inverse10(k);
  }

  lemma {:induction false} Product7(k: word)
    ensures Add7(k) == k * 129
  {
  }

  lemma {:induction false} Inverse7(k: word)
    ensures Less7(k * 129) == k
  {
  }

  lemma {:induction false} Undo7(k: word)
    ensures Less7(Add7(k)) == k
  {
    hide Add7, Less7;
    Product7(k);
    Inverse7(k);
  }

  lemma {:induction false} SumsInjective(a: word, b: word)
    requires a != b
    ensures Add12(a) != Add12(b) && Add4(a) != Add4(b) && Add10(a) != Add10(b) && Add7(a) != Add7(b)
  {
    hide Add12, Add4, Add10, Add7, Less12, Less4, Less10, Less7;
    Undo12(a);
    Undo12(b);
    Undo4(a);
    Undo4(b);
    Undo10(a);
    Undo10(b);
    Undo7(a);
    Undo7(b);
  }

  /** Before the shift nothing of a key is lost: the mix is injective on machine words. */
  lemma {:induction false} JenkinsInjective(a: word, b: word)
    requires a != b
    ensures Jenkins(a) != Jenkins(b)
  {
    hide Add12, Xor22, Add4, Xor9, Add10, Xor2, Add7, Xor12;
    SumsInjective(a, b);
    var a1, b1 := Add12(a), Add12(b);
    ShiftsInjective(a1, b1);
    SumsInjective(Xor22(a1), Xor22(b1));
    var a2, b2 := Add4(Xor22(a1)), Add4(Xor22(b1));
    ShiftsInjective(a2, b2);
    SumsInjective(Xor9(a2), Xor9(b2));
    var a3, b3 := Add10(Xor9(a2)), Add10(Xor9(b2));
    ShiftsInjective(a3, b3);
    SumsInjective(Xor2(a3), Xor2(b3));
    ShiftsInjective(Add7(Xor2(a3)), Add7(Xor2(b3)));
  }

  lemma {:induction false} KnuthProduct(k: word)
    ensures Knuth(k) == k * 2654435761
  {
  }

  lemma {:induction false} KnuthInverse(k: word)
    ensures Unknuth(k * 2654435761) == k
  {
  }

  lemma {:induction false} UndoKnuth(k: word)
    ensures Unknuth(Knuth(k)) == k
  {
    hide Knuth, Unknuth;
    KnuthProduct(k);
    KnuthInverse(k);
  }

  function Low3(k: word): word { k & 7 }

  lemma {:induction false} HighAndLow(x: word, y: word)
    ensures Down3(x) == Down3(y) && Low3(x) == Low3(y) ==> x == y
  {
  }

  /** Two keys share their word exactly when their mixes differ in the three lowest bits at most: so no
      more than eight keys do. */
  lemma {:induction false} MixesMeetIff(a: word, b: word)
    ensures Mix(a) == Mix(b) <==> Down3(Jenkins(a)) == Down3(Jenkins(b))
    ensures Mix(a) == Mix(b) && Low3(Jenkins(a)) == Low3(Jenkins(b)) ==> a == b
  {
    hide Jenkins, Knuth, Unknuth, Down3, Low3;
    UndoKnuth(Down3(Jenkins(a)));
    UndoKnuth(Down3(Jenkins(b)));
    HighAndLow(Jenkins(a), Jenkins(b));
    if a != b {
      JenkinsInjective(a, b);
    }
  }

  /** The words of some keys. */
  lemma {:induction false} KnownMixes()
    ensures Mix(0) == 0 && Mix(1) == 4072912534 && Mix(1000) == 2778304340 && Mix(0xffff_ffff) == 3911147051
  {
  }

  /** The word hashed is the key's two's complement. */
  lemma {:induction false} HashOfWord(key: Key, w: word, tableSize: nat)
    requires tableSize > 0 && key % 0x1_0000_0000 == w as int
    ensures Hash(key, tableSize) == Mix(w) as int % tableSize
  {
    hide Mix;
    WordBack(w);
  }

  lemma {:induction false} WordBack(w: word)
    ensures (w as int) as word == w
  {
  }

  /** Where two keys go in a new table, and in one grown once. */
  lemma {:induction false} KnownHashes()
    ensures Hash(1, 1024) == 662 && Hash(-1, 1024) == 555 && Hash(1, 2048) == 1686
  {
    hide Mix, Hash;
    KnownMixes();
    HashOfWord(1, 1, 1024);
    HashOfWord(-1, 0xffff_ffff, 1024);
    HashOfWord(1, 1, 2048);
  }

  // ----- Tables as sequences of slots

  /** How many slots are in use. */
  function Count<V>(s: seq<Element<V>>): (n: nat)
    ensures n <= |s|
  {
    if s == [] then 0 else Count(s[..|s| - 1]) + if s[|s| - 1].Used? then 1 else 0
  }

  lemma {:induction false} CountUpdate<V>(s: seq<Element<V>>, i: nat, e: Element<V>)
    requires i < |s|
    ensures Count(s[i := e]) == Count(s) - (if s[i].Used? then 1 else 0) + if e.Used? then 1 else 0
    decreases |s|
  {
    var last := |s| - 1;
    if i == last {
      assert s[i := e][..last] == s[..last];
    } else {
      CountUpdate(s[..last], i, e);
      assert s[i := e][..last] == s[..last][i := e];
    }
  }

  lemma {:induction false} CountFull<V>(s: seq<Element<V>>)
    ensures Count(s) == |s| <==> forall i :: 0 <= i < |s| ==> s[i].Used?
    decreases |s|
  {
    if s != [] {
      var last := |s| - 1;
      CountFull(s[..last]);
      assert s == s[..last] + [s[last]];
    }
  }

  lemma {:induction false} CountEmpty<V>(s: seq<Element<V>>)
    requires forall i :: 0 <= i < |s| ==> s[i].Free?
    ensures Count(s) == 0
    decreases |s|
  {
    if s != [] {
      CountEmpty(s[..|s| - 1]);
    }
  }

  ghost predicate Holds<V>(s: seq<Element<V>>, key: Key) {
    exists i :: 0 <= i < |s| && s[i].Used? && s[i].key == key
  }

  ghost predicate UniqueKeys<V>(s: seq<Element<V>>) {
    forall i, j :: 0 <= i < j < |s| && s[i].Used? && s[j].Used? ==> s[i].key != s[j].key
  }

  /** The finite map that a table with unique keys stands for. */
  ghost function Contents<V>(s: seq<Element<V>>): (m: map<Key, V>)
    requires UniqueKeys(s)
  {
    map i | 0 <= i < |s| && s[i].Used? :: s[i].key := s[i].data
  }

  lemma {:induction false} ContentsHold<V>(s: seq<Element<V>>, key: Key)
    requires UniqueKeys(s)
    ensures key in Contents(s) <==> Holds(s, key)
  {
  }

  lemma {:induction false} ContentsAt<V>(s: seq<Element<V>>, i: nat)
    requires UniqueKeys(s) && i < |s| && s[i].Used?
    ensures s[i].key in Contents(s) && Contents(s)[s[i].key] == s[i].data
  {
  }

  /** Every used slot agrees with the map and every entry of the map has a slot. */
  ghost predicate Describes<V>(s: seq<Element<V>>, m: map<Key, V>) {
    && (forall i :: 0 <= i < |s| && s[i].Used? ==> s[i].key in m && m[s[i].key] == s[i].data)
    && (forall k :: k in m ==> Holds(s, k))
  }

  lemma {:induction false} ContentsAre<V>(s: seq<Element<V>>, m: map<Key, V>)
    requires UniqueKeys(s) && Describes(s, m)
    ensures Contents(s) == m
  {
    forall k
      ensures k in Contents(s) <==> k in m
    {
      ContentsHold(s, k);
    }
    forall k | k in m
      ensures Contents(s)[k] == m[k]
    {
      var i :| 0 <= i < |s| && s[i].Used? && s[i].key == k;
      ContentsAt(s, i);
    }
  }

  lemma {:induction false} ContentsDescribe<V>(s: seq<Element<V>>)
    requires UniqueKeys(s)
    ensures Describes(s, Contents(s))
  {
    forall i | 0 <= i < |s| && s[i].Used?
      ensures s[i].key in Contents(s) && Contents(s)[s[i].key] == s[i].data
    {
      ContentsAt(s, i);
    }
    forall k | k in Contents(s)
      ensures Holds(s, k)
    {
      ContentsHold(s, k);
    }
  }

  /** Using a free slot for a new key adds one entry. */
  lemma {:induction false} UseSlot<V>(s: seq<Element<V>>, i: nat, key: Key, data: V)
    requires UniqueKeys(s) && i < |s| && s[i].Free? && !Holds(s, key)
    ensures UniqueKeys(s[i := Used(key, data)])
    ensures Contents(s[i := Used(key, data)]) == Contents(s)[key := data]
  {
    hide Contents;
    var t := s[i := Used(key, data)];
    var m := Contents(s)[key := data];
    ContentsDescribe(s);
    forall k | k in m
      ensures Holds(t, k)
    {
      if k == key {
        assert t[i].key == k;
      } else {
        var j :| 0 <= j < |s| && s[j].Used? && s[j].key == k;
        assert t[j] == s[j];
      }
    }
    ContentsAre(t, m);
  }

  /** Freeing the slot of a key removes its entry. */
  lemma {:induction false} FreeSlot<V>(s: seq<Element<V>>, i: nat)
    requires UniqueKeys(s) && i < |s| && s[i].Used?
    ensures UniqueKeys(s[i := Free])
    ensures Contents(s[i := Free]) == Contents(s) - {s[i].key}
  {
    hide Contents;
    var t := s[i := Free];
    var m := Contents(s) - {s[i].key};
    ContentsDescribe(s);
    forall k | k in m
      ensures Holds(t, k)
    {
      var j :| 0 <= j < |s| && s[j].Used? && s[j].key == k;
      assert t[j] == s[j];
    }
    ContentsAre(t, m);
  }

  lemma {:induction false} EmptyTable<V>(s: seq<Element<V>>)
    requires forall i :: 0 <= i < |s| ==> s[i].Free?
    ensures Count(s) == 0 && UniqueKeys(s) && Contents(s) == map[]
  {
    hide Contents;
    CountEmpty(s);
    ContentsAre(s, map[]);
  }

  /** The number of used slots is the number of entries. */
  lemma {:induction false} CountIsSize<V>(s: seq<Element<V>>)
    requires UniqueKeys(s)
    ensures |Contents(s)| == Count(s)
    decreases |s|
  {
    if s == [] {
      EmptyTable(s);
    } else {
      var last := |s| - 1;
      var t := s[..last];
      CountIsSize(t);
      if s[last].Used? {
        PrefixContents(s);
        assert !Holds(t, s[last].key);
      } else {
        PrefixContents(s);
      }
    }
  }

  lemma {:induction false} PrefixContents<V>(s: seq<Element<V>>)
    requires UniqueKeys(s) && s != []
    ensures var last := |s| - 1; var t := s[..last];
      && UniqueKeys(t)
      && (s[last].Used? ==> !Holds(t, s[last].key) && Contents(s) == Contents(t)[s[last].key := s[last].data])
      && (s[last].Free? ==> Contents(s) == Contents(t))
  {
    hide Contents;
    var last := |s| - 1;
    var t := s[..last];
    ContentsDescribe(t);
    var m := if s[last].Used? then Contents(t)[s[last].key := s[last].data] else Contents(t);
    forall k | k in m
      ensures Holds(s, k)
    {
      if s[last].Free? || k != s[last].key {
        var j :| 0 <= j < |t| && t[j].Used? && t[j].key == k;
        assert s[j] == t[j];
      }
    }
    ContentsAre(s, m);
  }

  predicate TakesKey<V>(e: Element<V>, key: Key) {
    e.Free? || e.key == key
  }

  /** Filling the slot that the scan stops at and counting one entry more keeps the table in order
      exactly when the key was absent: the callers' discipline is needed, not only sufficient. */
  lemma {:induction false} FillKeepsOrderIff<V>(s: seq<Element<V>>, slot: nat, key: Key, data: V)
    requires UniqueKeys(s) && slot < |s| && TakesKey(s[slot], key)
    ensures var t := s[slot := Used(key, data)];
      UniqueKeys(t) && Count(t) == Count(s) + 1 <==> !Holds(s, key)
  {
    var t := s[slot := Used(key, data)];
    CountUpdate(s, slot, Used(key, data));
    if s[slot].Free? {
      if Holds(s, key) {
        var j :| 0 <= j < |s| && s[j].Used? && s[j].key == key;
        assert t[j].key == t[slot].key;
      } else {
        UseSlot(s, slot, key, data);
      }
    }
  }

  /** The index of a used slot in the enumeration: each is met once, and all below the size. */
  lemma {:induction false} EachSlotOnce<V>(s: seq<Element<V>>, p: nat, q: nat)
    requires p <= q < |s| && s[p].Used? && s[q].Used?
    ensures Count(s[..q]) < Count(s)
    ensures Count(s[..p]) == Count(s[..q]) <==> p == q
    decreases |s|
  {
    var last := |s| - 1;
    if q < last {
      EachSlotOnce(s[..last], p, q);
      assert s[..last][..q] == s[..q] && s[..last][..p] == s[..p];
    } else if p < q {
      CountBefore(s[..q], p);
      assert s[..q][..p] == s[..p];
    }
  }

  lemma {:induction false} CountBefore<V>(s: seq<Element<V>>, p: nat)
    requires p < |s| && s[p].Used?
    ensures Count(s[..p]) < Count(s)
    decreases |s|
  {
    var last := |s| - 1;
    if p < last {
      CountBefore(s[..last], p);
      assert s[..last][..p] == s[..p];
    }
  }

  // ----- The cyclic scan

  /** The slot visited after i steps from start. */
  function Probe(start: nat, i: nat, size: nat): (p: nat)
    requires size > 0
    ensures p < size
  {
    (start + i) % size
  }

  /** The slot takes the key, and none that the probe visits before it does. */
  ghost predicate FirstFor<V>(s: seq<Element<V>>, start: nat, key: Key, slot: nat)
    requires start < |s| && slot < |s|
  {
    && TakesKey(s[slot], key)
    && exists i :: 0 <= i < |s| && Probe(start, i, |s|) == slot
                   && forall j :: 0 <= j < i ==> !TakesKey(s[Probe(start, j, |s|)], key)
  }

  /** A scan of as many steps as there are slots passes every slot. */
  lemma {:induction false} ProbeReaches(start: nat, size: nat, slot: nat) returns (i: nat)
    requires start < size && slot < size
    ensures i < size && Probe(start, i, size) == slot
  {
    i := if slot >= start then slot - start else slot + size - start;
    if slot < start {
      assert start + i == slot + size;
      Wrap(slot, size);
    } else {
      Small(slot, size);
    }
  }

  lemma {:induction false} Wrap(x: nat, size: nat)
    requires x < size
    ensures (x + size) % size == x
  {
  }

  lemma {:induction false} Small(x: nat, size: nat)
    requires x < size
    ensures x % size == x
  {
  }

  lemma {:induction false} ProbeStep(start: nat, i: nat, size: nat)
    requires start < size && i < size
    ensures (Probe(start, i, size) + 1) % size == Probe(start, i + 1, size)
  {
    if start + i < size {
      Small(start + i, size);
    } else {
      Wrap(start + i - size, size);
      if start + i + 1 - size < size {
        Wrap(start + i + 1 - size, size);
        Small(start + i + 1 - size, size);
      }
    }
  }

  /** A scan that meets no slot of the key in as many steps as there are slots misses nothing. */
  lemma {:induction false} ScanMisses<V>(s: seq<Element<V>>, start: nat, key: Key)
    requires start < |s|
    requires forall j :: 0 <= j < |s| ==> var e := s[Probe(start, j, |s|)]; e.Free? || e.key != key
    ensures !Holds(s, key)
  {
    hide Probe;
    if Holds(s, key) {
      var k :| 0 <= k < |s| && s[k].Used? && s[k].key == key;
      var j := ProbeReaches(start, |s|, k);
    }
  }

  /** A scan that meets only used slots has met a full table. */
  lemma {:induction false} ScanFull<V>(s: seq<Element<V>>, start: nat)
    requires start < |s|
    requires forall j :: 0 <= j < |s| ==> s[Probe(start, j, |s|)].Used?
    ensures Count(s) == |s|
  {
    hide Probe;
    CountFull(s);
    forall slot | 0 <= slot < |s|
      ensures s[slot].Used?
    {
      var j := ProbeReaches(start, |s|, slot);
    }
  }

  lemma {:induction false} FreeIfAbsent<V>(s: seq<Element<V>>, slot: nat, key: Key)
    requires UniqueKeys(s) && slot < |s| && TakesKey(s[slot], key) && key !in Contents(s)
    ensures s[slot].Free? && !Holds(s, key)
  {
    ContentsHold(s, key);
    if s[slot].Used? {
      ContentsAt(s, slot);
    }
  }

  // ----- The map

  class HashMap<V(0)> {
    var data: array<Element<V>>
    var size: nat

    ghost predicate Valid()
      reads this, data
    {
      data.Length > 0 && UniqueKeys(data[..]) && size == Count(data[..])
    }

    ghost function Map(): map<Key, V>
      reads this, data
      requires Valid()
    {
      Contents(data[..])
    }

    constructor ()
      ensures Valid() && Map() == map[] && fresh(data) && data.Length == INITIAL_SIZE
    {
      data := new Element<V>[INITIAL_SIZE](_ => Free);
      size := 0;
      new;
      EmptyTable(data[..]);
    }

    method Length() returns (n: nat)
      requires Valid()
      ensures n == |Map()|
    {
      CountIsSize(data[..]);
      n := size;
    }

    /** The first slot on the scan that is free or holds the key; none when the map is full. */
    method FindSlot(key: Key) returns (slot: int)
      requires Valid()
      ensures slot == -1 <==> size == data.Length
      ensures slot != -1 ==> 0 <= slot < data.Length && FirstFor(data[..], Hash(key, data.Length), key, slot)
    {
      hide Hash, Probe, Contents, UniqueKeys;
      if size == data.Length {
        return -1;
      }
      ghost var s := data[..];
      var start := Hash(key, data.Length);
      var curr := start;
      ProbeStart(start, data.Length);
      var i := 0;
      while i < data.Length
        invariant 0 <= i <= data.Length && curr == Probe(start, i, data.Length)
        invariant forall j :: 0 <= j < i ==> !TakesKey(s[Probe(start, j, data.Length)], key)
      {
        assert s[curr] == data[curr];
        if data[curr].Free? {
          return curr;
        }
        if data[curr].key == key {
          return curr;
        }
        ProbeStep(start, i, data.Length);
        curr := (curr + 1) % data.Length;
        i := i + 1;
      }
      ScanFull(s, start);
      return -1;
    }

    /** The full scan that lookup and removal share. */
    method Locate(key: Key) returns (slot: int)
      requires Valid()
      ensures slot == -1 <==> key !in Map()
      ensures slot != -1 ==> 0 <= slot < data.Length && data[..][slot].Used? && data[..][slot].key == key
    {
      hide Hash, Probe, Contents;
      ghost var s := data[..];
      ContentsHold(s, key);
      var start := Hash(key, data.Length);
      var curr := start;
      ProbeStart(start, data.Length);
      var i := 0;
      while i < data.Length
        invariant 0 <= i <= data.Length && curr == Probe(start, i, data.Length)
        invariant forall j :: 0 <= j < i ==> var e := s[Probe(start, j, data.Length)]; e.Free? || e.key != key
      {
        assert s[curr] == data[curr];
        if data[curr].Used? && data[curr].key == key {
          return curr;
        }
        ProbeStep(start, i, data.Length);
        curr := (curr + 1) % data.Length;
        i := i + 1;
      }
      ScanMisses(s, start, key);
      return -1;
    }

    method Get(key: Key) returns (status: Status, value: Option<V>)
      requires Valid()
      ensures status == if key in Map() then OK else MISSING
      ensures value == if key in Map() then Some(Map()[key]) else None
    {
      hide Contents;
      var slot := Locate(key);
      if slot != -1 {
        ContentsAt(data[..], slot);
        return OK, Some(data[slot].data);
      }
      return MISSING, None;
    }

    method Remove(key: Key) returns (status: Status)
      requires Valid()
      modifies this, data
      ensures Valid() && data == old(data)
      ensures status == if key in old(Map()) then OK else MISSING
      ensures Map() == old(Map()) - {key}
    {
      hide Contents;
      var slot := Locate(key);
      if slot != -1 {
        FreeSlot(data[..], slot);
        CountUpdate(data[..], slot, Free);
        ghost var t := data[..][slot := Free];
        data[slot] := Free;
        assert data[..] == t;
        size := size - 1;
        return OK;
      }
      status := MISSING;
    }

    /** The index-th entry in table order: the used slot with that many used slots before it. */
    method GetIndex(index: int) returns (status: Status, key: Key, value: Option<V>, ghost slot: nat)
      requires Valid()
      ensures status == if 0 <= index < |Map()| then OK else MISSING
      ensures status == OK ==>
                && slot < data.Length && Count(data[..][..slot]) == index
                && value.Some? && data[..][slot] == Used(key, value.value)
                && key in Map() && Map()[key] == value.value
    {
      hide Contents;
      CountIsSize(data[..]);
      key, value, slot := 0, None, 0;
      if index > size {
        return MISSING, key, value, slot;
      }
      ghost var s := data[..];
      var i, j := 0, 0;
      while i < data.Length
        invariant 0 <= i <= data.Length && j == Count(s[..i])
        invariant 0 <= index ==> j <= index
      {
        assert s[..i + 1][..i] == s[..i] && s[i] == data[i];
        if data[i].Used? {
          if j == index {
            ContentsAt(s, i);
            CountBefore(s, i);
            return OK, data[i].key, Some(data[i].data), i;
          }
          j := j + 1;
        }
        i := i + 1;
      }
      assert s[..i] == s;
      return MISSING, key, value, slot;
    }

    /** The last lines of Put: the slot is filled and counted. */
    method Fill(slot: nat, key: Key, value: V)
      requires Valid() && slot < data.Length && TakesKey(data[..][slot], key)
      modifies this`size, data
      ensures size == old(size) + 1 && data[..] == old(data[..])[slot := Used(key, value)]
      ensures Valid() <==> key !in old(Map())
      ensures key !in old(Map()) ==> Map() == old(Map())[key := value]
    {
      hide Contents, UniqueKeys, Count;
      ghost var s := data[..];
      ContentsHold(s, key);
      FillKeepsOrderIff(s, slot, key, value);
      if key !in Map() {
        FreeIfAbsent(s, slot, key);
        UseSlot(s, slot, key, value);
      }
      data[slot] := Used(key, value);
      assert data[..] == s[slot := Used(key, value)];
      size := size + 1;
    }

    /** Adds an entry. Memory for a larger table may be lacking; then, and only when the table is
        full, nothing changes. Otherwise the table is left in order exactly when the key was new,
        whether it had to grow or not. */
    method Put(key: Key, value: V, memory: bool) returns (status: Status)
      requires Valid()
      modifies this, data
      ensures var grows := old(size == data.Length);
        && status == (if grows && !memory then OMEM else OK)
        && size == old(size) + (if status == OK then 1 else 0)
        && (if grows && memory then fresh(data) && data.Length == 2 * old(data.Length) else data == old(data))
      ensures status == OMEM ==> Valid() && Map() == old(Map())
      ensures status == OK ==> (Valid() <==> key !in old(Map()))
      ensures status == OK && key !in old(Map()) ==> Map() == old(Map())[key := value]
      decreases if size == data.Length then 2 else 0
    {
      hide Contents, UniqueKeys, Count;
      var index := FindSlot(key);
      while index == -1
        invariant Valid() && Map() == old(Map()) && size == old(size)
        invariant index == -1 <==> size == data.Length
        invariant index != -1 ==> 0 <= index < data.Length && TakesKey(data[..][index], key)
        invariant if old(size == data.Length) && index != -1
                  then memory && fresh(data) && data.Length == 2 * old(data.Length) else data == old(data)
        decreases if index == -1 then 1 else 0
      {
        var st := Rehash(memory);
        if st == OMEM {
          return OMEM;
        }
        index := FindSlot(key);
      }
      Fill(index, key, value);
      return OK;
    }

    /** Doubles a full table and puts every element in again. */
    method Rehash(memory: bool) returns (status: Status)
      requires Valid() && size == data.Length
      modifies this
      ensures Valid() && Map() == old(Map()) && size == old(size)
      ensures status == if memory then OK else OMEM
      ensures if memory then fresh(data) && data.Length == 2 * old(data.Length) else data == old(data)
      decreases 1
    {
      hide Contents, UniqueKeys;
      if !memory {
        return OMEM;
      }
      var temp := new Element<V>[2 * data.Length](_ => Free);
      var curr := data;
      ghost var before := data[..];
      CountFull(before);
      data := temp;
      size := 0;
      EmptyTable(data[..]);
      EmptyTable(before[..0]);
      var i := 0;
      while i < curr.Length
        invariant 0 <= i <= curr.Length == |before| && curr[..] == before
        invariant fresh(data) && data.Length == 2 * curr.Length && Valid() && size == i
        invariant UniqueKeys(before[..i]) && Map() == Contents(before[..i])
        decreases curr.Length - i
      {
        NextElement(before, i);
        assert curr[i] == before[i];
        var st := Put(curr[i].key, curr[i].data, memory);
        i := i + 1;
      }
      assert before[..i] == before;
      return OK;
    }
  }

  // ----- Whole runs

  /** What a caller does: put when the key is absent, with or without memory to grow, look up, or remove. */
  datatype Op<V> = PutIfAbsent(key: Key, data: V, memory: bool) | Lookup(key: Key) | Delete(key: Key)

  /** What a run gives on a finite map that holds so many entries before it must grow. */
  datatype Outcome<V> = Outcome(answers: seq<Option<V>>, m: map<Key, V>, capacity: nat)

  function MapRun<V>(ops: seq<Op<V>>): (r: Outcome<V>) {
    if ops == [] then Outcome([], map[], INITIAL_SIZE)
    else
      var before := MapRun(ops[..|ops| - 1]);
      var m := before.m;
      var op := ops[|ops| - 1];
      var after := before.(answers := before.answers + [if op.key in m then Some(m[op.key]) else None]);
      match op
      case PutIfAbsent(k, v, memory) =>
        if k in m || (|m| == before.capacity && !memory) then after
        else after.(m := m[k := v], capacity := if |m| == before.capacity then 2 * before.capacity else before.capacity)
      case Lookup(_) => after
      case Delete(k) => after.(m := m - {k})
  }

  /** Any run on a fresh table gives the answers of the finite map and ends in its state, across any
      number of doublings and of refusals for want of memory. */
  method Replay<V(0)>(ops: seq<Op<V>>) returns (table: HashMap<V>, answers: seq<Option<V>>)
    ensures table.Valid() && fresh(table) && fresh(table.data)
    ensures Outcome(answers, table.Map(), table.data.Length) == MapRun(ops)
  {
    hide Contents, UniqueKeys, Count;
    table := new HashMap<V>();
    answers := [];
    var i := 0;
    while i < |ops|
      invariant 0 <= i <= |ops| && table.Valid() && fresh(table) && fresh(table.data)
      invariant Outcome(answers, table.Map(), table.data.Length) == MapRun(ops[..i])
    {
      assert ops[..i + 1][..i] == ops[..i];
      CountIsSize(table.data[..]);
      var st, found := table.Get(ops[i].key);
      answers := answers + [found];
      match ops[i] {
        case PutIfAbsent(k, v, memory) =>
          if st != OK {
            st := table.Put(k, v, memory);
          }
        case Lookup(_) =>
        case Delete(k) =>
          st := table.Remove(k);
      }
      i := i + 1;
    }
    assert ops[..i] == ops;
  }

  lemma {:induction false} ProbeStart(start: nat, size: nat)
    requires start < size
    ensures Probe(start, 0, size) == start
  {
    Small(start, size);
  }

  lemma {:induction false} NextElement<V>(s: seq<Element<V>>, i: nat)
    requires UniqueKeys(s) && i < |s| && s[i].Used?
    ensures UniqueKeys(s[..i]) && UniqueKeys(s[..i + 1])
    ensures s[i].key !in Contents(s[..i])
    ensures Contents(s[..i + 1]) == Contents(s[..i])[s[i].key := s[i].data]
  {
    hide Contents;
    assert s[..i + 1][..i] == s[..i];
    PrefixContents(s[..i + 1]);
    ContentsHold(s[..i], s[i].key);
  }
}
