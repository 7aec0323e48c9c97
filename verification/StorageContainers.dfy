/** The two containers of table rows, by entry number: an array with a maximum and a hash map without. */
module StorageContainers {
  import opened Options

  /** A pointer to a row; `NULL` points to none. */
  type Pointer = nat

  const NULL: Pointer := 0

  datatype Operation =
    | Allocate(entry: nat, new_: Pointer)
    | Deallocate(entry: nat)
    | Lookup(entry: nat)
    | Set(entry: nat, pointer: Pointer)
    | LookupAllocate(entry: nat, new_: Pointer)
    | Clear

  // ----- What the operations do to the entries in use

  predicate Fits(limit: Option<nat>, entry: nat) {
    limit.None? || entry < limit.value
  }

  function Allocated(m: map<nat, Pointer>, limit: Option<nat>, entry: nat, new_: Pointer): (map<nat, Pointer>, Pointer) {
    if Fits(limit, entry) && entry !in m then (m[entry := new_], new_) else (m, NULL)
  }

  function Deallocated(m: map<nat, Pointer>, entry: nat): (map<nat, Pointer>, bool) {
    (m - {entry}, entry in m)
  }

  function Found(m: map<nat, Pointer>, entry: nat): Pointer {
    if entry in m then m[entry] else NULL
  }

  /** The hash map stores a null pointer like any other; in the array it empties the entry. */
  function SetTo(m: map<nat, Pointer>, limit: Option<nat>, entry: nat, pointer: Pointer): (map<nat, Pointer>, bool) {
    if !Fits(limit, entry) then (m, false)
    else if limit.Some? && pointer == NULL then (m - {entry}, true)
    else (m[entry := pointer], true)
  }

  function FoundOrAllocated(m: map<nat, Pointer>, limit: Option<nat>, entry: nat, new_: Pointer): (map<nat, Pointer>, Pointer) {
    if Found(m, entry) != NULL then (m, Found(m, entry)) else Allocated(m, limit, entry, new_)
  }

  // ----- The array

  class ArrayStorageContainer {
    var entries: array<Pointer>
    var max: nat

    ghost predicate Valid()
      reads this
    {
      entries.Length == max
    }

    ghost function Contents(): map<nat, Pointer>
      reads this, entries
    {
      InUse(entries[..])
    }

    constructor (max: nat)
      ensures Valid() && fresh(entries) && this.max == max && entries[..] == seq(max, _ => NULL)
    {
      entries := new Pointer[max](_ => NULL);
      this.max := max;
    }

    /** A larger maximum; the entries stay. */
    method Resetup(newMax: nat)
      requires Valid()
      modifies this
      ensures Valid() && Contents() == old(Contents())
      ensures max == (if newMax < old(max) then old(max) else newMax)
      ensures entries == old(entries) || fresh(entries)
    {
      if newMax < max {
        return;
      }
      var a := new Pointer[newMax](_ => NULL);
      for i := 0 to max
        invariant entries[..] == old(entries[..])
        invariant forall j :: 0 <= j < i ==> a[j] == entries[j]
        invariant forall j :: i <= j < newMax ==> a[j] == NULL
      {
        a[i] := entries[i];
      }
      assert forall e :: e in InUse(a[..]) <==> e in InUse(entries[..]);
      entries := a;
      max := newMax;
    }

    method AllocateEntry(entry: nat, new_: Pointer) returns (p: Pointer)
      requires Valid() && new_ != NULL
      modifies entries
      ensures Valid() && (Contents(), p) == Allocated(old(Contents()), Some(max), entry, new_)
      ensures if p == NULL then entries[..] == old(entries[..]) else entry < max && entries[..] == old(entries[..])[entry := new_]
    {
      if entry >= max || entries[entry] != NULL {
        return NULL;
      }
      entries[entry] := new_;
      p := entries[entry];
      assert Contents() == old(Contents())[entry := new_];
    }

    method DeallocateEntry(entry: nat) returns (ok: bool)
      requires Valid()
      modifies entries
      ensures Valid() && (Contents(), ok) == Deallocated(old(Contents()), entry)
    {
      if entry >= max || entries[entry] == NULL {
        assert Contents() - {entry} == Contents();
        return false;
      }
      entries[entry] := NULL;
      ok := true;
      assert Contents() == old(Contents()) - {entry};
    }

    method LookupEntry(entry: nat) returns (p: Pointer)
      requires Valid()
      ensures p == Found(Contents(), entry)
    {
      if entry >= max {
        p := NULL;
      } else {
        p := entries[entry];
      }
    }

    /** The bound is off by one: setting the entry just past the last would write outside the array. */
    method SetEntry(entry: nat, pointer: Pointer) returns (ok: bool)
      requires Valid() && entry != max
      modifies entries
      ensures Valid() && (Contents(), ok) == SetTo(old(Contents()), Some(max), entry, pointer)
    {
      if entry > max {
        return false;
      }
      entries[entry] := pointer;
      ok := true;
      assert Contents() == if pointer == NULL then old(Contents()) - {entry} else old(Contents())[entry := pointer];
    }

    method LookupEntryAllocate(entry: nat, new_: Pointer) returns (p: Pointer)
      requires Valid() && new_ != NULL
      modifies entries
      ensures Valid() && (Contents(), p) == FoundOrAllocated(old(Contents()), Some(max), entry, new_)
    {
      p := LookupEntry(entry);
      if p == NULL {
        p := AllocateEntry(entry, new_);
      }
    }

    method Clear()
      requires Valid()
      modifies entries
      ensures Valid() && entries[..] == seq(max, _ => NULL) && Contents() == map[]
    {
      for i := 0 to max
        invariant forall j :: 0 <= j < i ==> entries[j] == NULL
      {
        entries[i] := NULL;
      }
    }
  }

  function InUse(s: seq<Pointer>): map<nat, Pointer> {
    map e: nat | e < |s| && s[e] != NULL :: s[e]
  }

  // ----- The hash map

  class HashMapStorageContainer {
    var m: map<nat, Pointer>

    constructor ()
      ensures m == map[]
    {
      m := map[];
    }

    method AllocateEntry(entry: nat, new_: Pointer) returns (p: Pointer)
      requires new_ != NULL
      modifies this
      ensures (m, p) == Allocated(old(m), None, entry, new_)
    {
      if entry in m {
        return NULL;
      }
      m := m[entry := new_];
      p := new_;
    }

    method DeallocateEntry(entry: nat) returns (ok: bool)
      modifies this
      ensures (m, ok) == Deallocated(old(m), entry)
    {
      if entry !in m {
        assert m - {entry} == m;
        return false;
      }
      m := m - {entry};
      ok := true;
    }

    method LookupEntry(entry: nat) returns (p: Pointer)
      ensures p == Found(m, entry)
    {
      if entry !in m {
        return NULL;
      }
      p := m[entry];
    }

    method SetEntry(entry: nat, pointer: Pointer) returns (ok: bool)
      modifies this
      ensures (m, ok) == SetTo(old(m), None, entry, pointer)
    {
      m := m[entry := pointer];
      ok := true;
    }

    method LookupEntryAllocate(entry: nat, new_: Pointer) returns (p: Pointer)
      requires new_ != NULL
      modifies this
      ensures (m, p) == FoundOrAllocated(old(m), None, entry, new_)
    {
      p := LookupEntry(entry);
      if p == NULL {
        p := AllocateEntry(entry, new_);
      }
    }

    method Clear()
      modifies this
      ensures m == map[]
    {
      m := map[];
    }
  }

  // ----- Runs of both

  /** An operation's new entries and its answer, a pointer or a flag. */
  function Apply(m: map<nat, Pointer>, limit: Option<nat>, op: Operation): (map<nat, Pointer>, Pointer) {
    match op
    case Allocate(e, n) => Allocated(m, limit, e, n)
    case Deallocate(e) => var (q, ok) := Deallocated(m, e); (q, if ok then 1 else 0)
    case Lookup(e) => (m, Found(m, e))
    case Set(e, p) => var (q, ok) := SetTo(m, limit, e, p); (q, if ok then 1 else 0)
    case LookupAllocate(e, n) => FoundOrAllocated(m, limit, e, n)
    case Clear => (map[], 0)
  }

  function Run(limit: Option<nat>, ops: seq<Operation>): map<nat, Pointer> {
    if ops == [] then map[] else Apply(Run(limit, ops[..|ops| - 1]), limit, ops[|ops| - 1]).0
  }

  function Below(m: map<nat, Pointer>, max: nat): map<nat, Pointer> {
    map e | e in m && e < max :: m[e]
  }

  /** New rows are real, and nothing is set just past the array's end; null pointers may be put in. */
  ghost predicate Proper(op: Operation, max: nat) {
    && (op.Allocate? || op.LookupAllocate? ==> op.new_ != NULL)
    && (op.Set? ==> op.entry != max)
  }

  ghost predicate About(op: Operation, max: nat) {
    op.Clear? || op.entry < max
  }

  ghost predicate NoNullBelow(h: map<nat, Pointer>, max: nat) {
    forall e :: e in h && e < max ==> h[e] != NULL
  }

  /** Entry by entry below the maximum, the hash map holds a null pointer or what the array holds. */
  ghost predicate Alike(a: map<nat, Pointer>, h: map<nat, Pointer>, max: nat) {
    && (forall e :: e in a ==> e < max && a[e] != NULL)
    && (forall e :: 0 <= e < max ==> (e in h && h[e] == NULL) || ((e in a <==> e in h) && Found(a, e) == Found(h, e)))
  }

  lemma {:induction false} StepKeepsAlike(a: map<nat, Pointer>, h: map<nat, Pointer>, max: nat, op: Operation)
    requires Proper(op, max) && Alike(a, h, max)
    ensures Alike(Apply(a, Some(max), op).0, Apply(h, None, op).0, max)
  {
  }

  lemma {:induction false} RunKeepsAlike(ops: seq<Operation>, max: nat)
    requires forall op :: op in ops ==> Proper(op, max)
    ensures Alike(Run(Some(max), ops), Run(None, ops), max)
    decreases |ops|
  {
    if ops != [] {
      hide Alike, Apply;
      RunKeepsAlike(ops[..|ops| - 1], max);
      StepKeepsAlike(Run(Some(max), ops[..|ops| - 1]), Run(None, ops[..|ops| - 1]), max, ops[|ops| - 1]);
    }
  }

  ghost predicate SameAnswer(a: map<nat, Pointer>, h: map<nat, Pointer>, max: nat, op: Operation) {
    Apply(a, Some(max), op).1 == Apply(h, None, op).1
  }

  /** After any run, whatever was asked at or above the maximum, the two containers answer every
      next question about entries below it alike exactly when the hash map holds no null pointer
      there; and exactly then the array holds what the hash map holds below the maximum. */
  lemma {:induction false} ContainersAgreeIff(ops: seq<Operation>, max: nat)
    requires forall op :: op in ops ==> Proper(op, max)
    ensures var a, h := Run(Some(max), ops), Run(None, ops);
      && ((forall next :: Proper(next, max) && About(next, max) ==> SameAnswer(a, h, max, next)) <==> NoNullBelow(h, max))
      && (a == Below(h, max) <==> NoNullBelow(h, max))
  {
    var a, h := Run(Some(max), ops), Run(None, ops);
    RunKeepsAlike(ops, max);
    if NoNullBelow(h, max) {
      forall next | Proper(next, max) && About(next, max)
        ensures SameAnswer(a, h, max, next)
      {
        AlikeAnswers(a, h, max, next);
      }
    } else {
      var e :| e in h && e < max && h[e] == NULL;
      NullAnswersDiffer(a, h, max, e);
      assert e in Below(h, max) && Below(h, max)[e] == NULL;
    }
  }

  lemma {:induction false} AlikeAnswers(a: map<nat, Pointer>, h: map<nat, Pointer>, max: nat, next: Operation)
    requires Alike(a, h, max) && NoNullBelow(h, max) && Proper(next, max) && About(next, max)
    ensures SameAnswer(a, h, max, next)
  {
  }

  /** For an entry where the hash map holds a null pointer one of two questions tells them apart. */
  lemma {:induction false} NullAnswersDiffer(a: map<nat, Pointer>, h: map<nat, Pointer>, max: nat, e: nat)
    requires Alike(a, h, max) && e < max && e in h && h[e] == NULL
    ensures !SameAnswer(a, h, max, Lookup(e)) || !SameAnswer(a, h, max, Deallocate(e))
    ensures Proper(Lookup(e), max) && About(Lookup(e), max) && Proper(Deallocate(e), max) && About(Deallocate(e), max)
  {
  }

  /** With a null pointer put in they part: the array takes a new row for the entry, the hash map does not. */
  lemma {:induction false} NullPartsThem(max: nat, entry: nat, new_: Pointer)
    requires entry < max && new_ != NULL
    ensures var ops := [Set(entry, NULL)];
      && Apply(Run(Some(max), ops), Some(max), Allocate(entry, new_)).1 == new_
      && Apply(Run(None, ops), None, Allocate(entry, new_)).1 == NULL
  {
    var ops := [Set(entry, NULL)];
    assert ops[..|ops| - 1] == [];
    assert Run(Some(max), []) == map[] && Run(None, []) == map[];
  }

  // ----- The iterator

  /** The entries in use from a position on, in order. */
  function LiveFrom(s: seq<Pointer>, i: nat): (r: seq<nat>)
    requires i <= |s|
    decreases |s| - i
  {
    if i == |s| then []
    else if s[i] == NULL then LiveFrom(s, i + 1)
    else [i] + LiveFrom(s, i + 1)
  }

  /** Each entry in use from a position on is listed once: the list climbs, and holds exactly those. */
  ghost predicate ListsOnce(r: seq<nat>, s: seq<Pointer>, from: nat) {
    && (forall j, k :: 0 <= j < k < |r| ==> r[j] < r[k])
    && (forall e :: e in r <==> from <= e < |s| && s[e] != NULL)
  }

  lemma {:induction false} LiveOnce(s: seq<Pointer>, i: nat)
    requires i <= |s|
    ensures ListsOnce(LiveFrom(s, i), s, i)
    decreases |s| - i
  {
    if i < |s| {
      hide ListsOnce;
      LiveOnce(s, i + 1);
      OneMoreListed(LiveFrom(s, i + 1), s, i);
    }
  }

  lemma {:induction false} OneMoreListed(rest: seq<nat>, s: seq<Pointer>, i: nat)
    requires i < |s| && ListsOnce(rest, s, i + 1)
    ensures ListsOnce(if s[i] == NULL then rest else [i] + rest, s, i)
  {
    var r := [i] + rest;
    forall j, k | 0 <= j < k < |r|
      ensures r[j] < r[k]
    {
      assert rest[k - 1] in rest;
    }
  }

  class ArrayStorageIterator {
    const source: ArrayStorageContainer
    var pointer: Pointer
    var myIndex: nat

    ghost predicate Valid()
      reads this, source, source.entries
    {
      && source.Valid() && myIndex <= source.max
      && (pointer != NULL ==> myIndex > 0 && pointer == source.entries[myIndex - 1])
    }

    /** The entries still to be visited, the current one first. */
    ghost function ToVisit(): seq<nat>
      requires Valid()
      reads this, source, source.entries
    {
      (if pointer != NULL then [myIndex - 1] else []) + LiveFrom(source.entries[..], myIndex)
    }

    constructor (s: ArrayStorageContainer)
      requires s.Valid()
      ensures Valid() && source == s && ToVisit() == LiveFrom(s.entries[..], 0)
      ensures pointer == NULL ==> ToVisit() == []
    {
      source := s;
      myIndex := 0;
      pointer := NULL;
      new;
      GetNextElement();
    }

    method Inc() returns (more: bool)
      requires Valid() && pointer != NULL
      modifies this
      ensures Valid() && ToVisit() == old(ToVisit())[1..]
      ensures more == (pointer != NULL) == (ToVisit() != [])
    {
      GetNextElement();
      more := pointer != NULL;
    }

    /** Moves to the next entry in use; past the last, the pointer is null. */
    method GetNextElement()
      requires Valid()
      modifies this
      ensures Valid() && ToVisit() == old(LiveFrom(source.entries[..], myIndex))
      ensures pointer == NULL ==> ToVisit() == []
    {
      while myIndex < source.max
        invariant source.Valid() && myIndex <= source.max
        invariant LiveFrom(source.entries[..], myIndex) == old(LiveFrom(source.entries[..], myIndex))
        decreases source.max - myIndex
      {
        if source.entries[myIndex] != NULL {
          pointer := source.entries[myIndex];
          myIndex := myIndex + 1;
          return;
        }
        myIndex := myIndex + 1;
      }
      pointer := NULL;
    }
  }

  // ----- The hash map's iterator

  /** An order in which the library may walk over the entries: each once. */
  ghost predicate Orders(order: seq<nat>, m: map<nat, Pointer>) {
    && (forall e :: e in order <==> e in m)
    && (forall i, j :: 0 <= i < j < |order| ==> order[i] != order[j])
  }

  /** The entries before the first that holds a null pointer. */
  function UpToNull(order: seq<nat>, m: map<nat, Pointer>): (visited: seq<nat>)
    ensures |visited| <= |order|
  {
    if order == [] || Found(m, order[0]) == NULL then [] else [order[0]] + UpToNull(order[1..], m)
  }

  class HashMapStorageIterator {
    const source: HashMapStorageContainer
    const order: seq<nat>
    var at: nat
    var pointer: Pointer

    ghost predicate Valid()
      reads this, source
    {
      && Orders(order, source.m) && at <= |order|
      && pointer == if at == |order| then NULL else Found(source.m, order[at])
    }

    constructor (s: HashMapStorageContainer, order: seq<nat>)
      requires Orders(order, s.m)
      ensures Valid() && source == s && this.order == order && at == 0
    {
      source := s;
      this.order := order;
      at := 0;
      pointer := if order == [] then NULL else if order[0] in s.m then s.m[order[0]] else NULL;
    }

    method Inc() returns (more: bool)
      requires Valid() && at < |order|
      modifies this
      ensures Valid() && at == old(at) + 1 && more == (pointer != NULL)
    {
      at := at + 1;
      pointer := NULL;
      if at < |order| {
        assert order[at] in order;
        pointer := source.m[order[at]];
      }
      more := pointer != NULL;
    }
  }

  /** The loop over an iterator that the users of a container write. */
  method Walk(container: HashMapStorageContainer, order: seq<nat>) returns (visited: seq<nat>)
    requires Orders(order, container.m)
    ensures visited == UpToNull(order, container.m)
  {
    var itr := new HashMapStorageIterator(container, order);
    visited := [];
    hide UpToNull, Orders;
    while itr.pointer != NULL
      invariant itr.Valid() && itr.source == container && itr.order == order && fresh(itr)
      invariant visited == order[..itr.at] && forall k :: 0 <= k < itr.at ==> Found(container.m, order[k]) != NULL
      decreases |order| - itr.at
    {
      visited := visited + [order[itr.at]];
      var more := itr.Inc();
      if !more {
        break;
      }
    }
    UpToNullIs(order, itr.at, container.m);
  }

  lemma {:induction false} UpToNullIs(order: seq<nat>, at: nat, m: map<nat, Pointer>)
    requires at <= |order| && (at < |order| ==> Found(m, order[at]) == NULL)
    requires forall k :: 0 <= k < at ==> Found(m, order[k]) != NULL
    ensures UpToNull(order, m) == order[..at]
    decreases at
  {
    if at > 0 {
      UpToNullIs(order[1..], at - 1, m);
      assert order[..at] == [order[0]] + order[1..][..at - 1];
    }
  }

  /** The walk visits every row exactly when no null pointer comes before a row in the order. */
  lemma {:induction false} WalkVisitsAllIff(order: seq<nat>, m: map<nat, Pointer>)
    requires forall i, j :: 0 <= i < j < |order| ==> order[i] != order[j]
    ensures (forall e :: e in order && Found(m, e) != NULL ==> e in UpToNull(order, m)) <==>
      (forall i, j :: 0 <= i < j < |order| && Found(m, order[i]) == NULL ==> Found(m, order[j]) == NULL)
    decreases |order|
  {
    if order != [] && Found(m, order[0]) != NULL {
      WalkVisitsAllIff(order[1..], m);
      FirstAside(order, m);
    } else if order != [] {
      assert UpToNull(order, m) == [];
      assert forall e :: e in order <==> exists j :: 0 <= j < |order| && order[j] == e;
    }
  }

  lemma {:induction false} FirstAside(order: seq<nat>, m: map<nat, Pointer>)
    requires order != [] && Found(m, order[0]) != NULL
    ensures (forall e :: e in order && Found(m, e) != NULL ==> e in UpToNull(order, m)) <==>
      (forall e :: e in order[1..] && Found(m, e) != NULL ==> e in UpToNull(order[1..], m) || e == order[0])
    ensures (forall i, j :: 0 <= i < j < |order| && Found(m, order[i]) == NULL ==> Found(m, order[j]) == NULL) <==>
      (forall i, j :: 0 <= i < j < |order[1..]| && Found(m, order[1..][i]) == NULL ==> Found(m, order[1..][j]) == NULL)
  {
    var rest := order[1..];
    assert forall e :: e in order <==> e == order[0] || e in rest;
    assert forall i :: 1 <= i < |order| ==> order[i] == rest[i - 1];
    assert forall i :: 0 <= i < |rest| ==> rest[i] == order[i + 1];
  }
}
