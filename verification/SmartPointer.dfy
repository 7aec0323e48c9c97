/** Handles that share an object through a counted reference: the object lives while a handle does.
    Handles may be members of objects themselves, and go down with them. */
module SmartPointer {

  /** An object pointer of zero. */
  const NULL: nat := 0

  /** The counted reference, with the handles that are members of its object. */
  class PointerReference {
    const pT: nat
    const members: set<SharedPointer>
    var count: nat
    var deleted: bool     // what the allocator knows

    constructor (pT: nat, members: set<SharedPointer>)
      requires pT != NULL
      ensures this.pT == pT && this.members == members && count == 0 && !deleted
    {
      this.pT := pT;
      this.members := members;
      count := 0;
      deleted := false;
    }

    method GetRef() returns (n: nat)
      requires !deleted
      modifies this`count
      ensures n == count == old(count) + 1
    {
      count := count + 1;
      n := count;
    }

    method FreeRef() returns (n: nat)
      requires !deleted && count != 0
      modifies this`count
      ensures n == count == old(count) - 1
    {
      count := count - 1;
      n := count;
    }

    /** Nothing is deleted twice, or while it is counted. */
    method Delete()
      requires !deleted && count == 0
      modifies this`deleted
      ensures deleted
    {
      deleted := true;
    }

    /** The destructor of the object: its members go, one after the other, and with them whatever
        they alone kept. */
    method DestroyMembers(ghost live: set<SharedPointer>, ghost made: set<PointerReference>, ghost extra: multiset<PointerReference>,
                          ghost dying: set<SharedPointer>, ghost busy: set<SharedPointer>, ghost doom: set<PointerReference>, ghost watch: SharedPointer)
      returns (ghost left: set<SharedPointer>)
      requires this in doom && members !! dying && World(live, made, extra, dying + members, busy)
      requires Closed(doom, Held(live), Existing(made), extra) && busy !! Members(doom)
      modifies live, made
      ensures left <= live && World(left, made, extra, dying, busy) && (watch in live - left ==> watch.reference == null)
      ensures Sank(old(Held(live)), old(Existing(made)), Held(left), Existing(made), doom)
      decreases Existing(made), 2
    {
      ghost var held, existing := Held(live), Existing(made);
      assert members <= Members(doom) && members <= live;
      hide World, Closed, Members, Held, Existing, Sank;
      SankNothing(held, existing, doom);
      left := live;
      var todo := members;
      while todo != {}
        invariant todo <= members && left <= live && World(left, made, extra, dying + todo, busy)
        invariant watch in live - left ==> watch.reference == null
        invariant Sank(held, existing, Held(left), Existing(made), doom) && Existing(made) <= existing
        decreases |todo|
      {
        var h :| h in todo;
        OneOf(dying, todo, h);
        todo := todo - {h};
        left := h.GoDown(live, left, made, extra, dying + todo, busy, doom, held, existing, watch);
      }
      assert dying + {} == dying;
    }
  }

  // ----- What is counted

  function HandlesOf(live: set<SharedPointer>, r: PointerReference): set<SharedPointer>
    reads live
  {
    set h | h in live && h.reference == r
  }

  function Members(rs: set<PointerReference>): set<SharedPointer> {
    set r, h | r in rs && h in r.members :: h
  }

  function Existing(made: set<PointerReference>): set<PointerReference>
    reads made
  {
    set r | r in made && !r.deleted
  }

  /** The count is the number of live handles, and of counts that are no live handle's; the reference
      is deleted exactly when the count is zero. */
  ghost predicate Counted(live: set<SharedPointer>, r: PointerReference, extra: multiset<PointerReference>)
    reads live, r
  {
    && r.count == |HandlesOf(live, r)| + extra[r]
    && (r.deleted <==> r.count == 0)
  }

  ghost predicate Counts(live: set<SharedPointer>, made: set<PointerReference>, extra: multiset<PointerReference>)
    reads live, made
  {
    && (forall h :: h in live && h.reference != null ==> h.reference in made)
    && (forall r :: r in made ==> Counted(live, r, extra))
  }

  /** Members live as long as their object; of deleted objects only the dying are left, and a handle
      at work is set aside. */
  ghost predicate Housed(live: set<SharedPointer>, made: set<PointerReference>, existing: set<PointerReference>,
                         dying: set<SharedPointer>, busy: set<SharedPointer>)
  {
    && dying <= live && busy !! live
    && (forall r :: r in existing ==> r.members <= live + busy && r.members !! dying)
    && (forall r :: r in made - existing ==> r.members * live <= dying)
    && (forall q, r :: q in made && r in made && q != r ==> q.members !! r.members)
  }

  ghost predicate World(live: set<SharedPointer>, made: set<PointerReference>, extra: multiset<PointerReference>,
                        dying: set<SharedPointer>, busy: set<SharedPointer>)
    reads live, made
  {
    Counts(live, made, extra) && Housed(live, made, Existing(made), dying, busy)
  }

  /** All references ever made are counted right: each object lives exactly as long as it has a handle. */
  ghost predicate Sound(live: set<SharedPointer>, made: set<PointerReference>)
    reads live, made
  {
    World(live, made, multiset{}, {}, {})
  }

  function One(r: PointerReference?): multiset<PointerReference> {
    if r == null then multiset{} else multiset{r}
  }

  /** A handle about to let go is counted, but not among the live any more. */
  lemma {:induction false} OneFewer(live: set<SharedPointer>, h: SharedPointer, made: set<PointerReference>, extra: multiset<PointerReference>)
    requires h in live && Counts(live, made, extra)
    ensures Counts(live - {h}, made, extra + One(h.reference))
  {
    forall r | r in made
      ensures Counted(live - {h}, r, extra + One(h.reference))
    {
      assert Counted(live, r, extra);
      assert HandlesOf(live - {h}, r) == HandlesOf(live, r) - {h};
    }
  }

  lemma {:induction false} SetAside(live: set<SharedPointer>, h: SharedPointer, made: set<PointerReference>, extra: multiset<PointerReference>, stays: bool)
    requires World(live, made, extra, {}, {}) && h in live && (!stays ==> h !in Members(Existing(made)))
    ensures World(live - {h}, made, extra + One(h.reference), {}, if stays then {h} else {})
    ensures h.reference != null ==> h.reference in made
  {
    OneFewer(live, h, made, extra);
  }

  lemma {:induction false} OneDying(live: set<SharedPointer>, h: SharedPointer, made: set<PointerReference>, extra: multiset<PointerReference>,
                                    dying: set<SharedPointer>, busy: set<SharedPointer>)
    requires h !in dying && World(live, made, extra, dying + {h}, busy)
    ensures h in live && World(live - {h}, made, extra + One(h.reference), dying, busy)
    ensures h.reference != null ==> h.reference in made
  {
    OneFewer(live, h, made, extra);
  }

  /** A handle that holds nothing comes back among the live. */
  lemma {:induction false} BackAgain(live: set<SharedPointer>, h: SharedPointer, made: set<PointerReference>, extra: multiset<PointerReference>)
    requires World(live, made, extra, {}, {h}) && h.reference == null && h !in Members(made - Existing(made))
    ensures World(live + {h}, made, extra, {}, {})
  {
    forall r | r in made
      ensures Counted(live + {h}, r, extra)
    {
      assert Counted(live, r, extra);
      assert HandlesOf(live + {h}, r) == HandlesOf(live, r);
    }
  }

  // ----- What goes down together

  function Held(live: set<SharedPointer>): map<SharedPointer, PointerReference?>
    reads live
  {
    map h | h in live :: h.reference
  }

  /** Every object whose handles all lie inside objects of the set is in the set. */
  ghost predicate Closed(doom: set<PointerReference>, held: map<SharedPointer, PointerReference?>, existing: set<PointerReference>,
                         extra: multiset<PointerReference>)
  {
    forall r :: r in existing && extra[r] == 0 && (forall h :: h in held && held[h] == r ==> h in Members(doom)) ==> r in doom
  }

  /** The objects that nothing keeps: those in every closed set. An object that only they hold is one
      of them; objects that hold each other in a circle are not. */
  ghost function Doomed(held: map<SharedPointer, PointerReference?>, existing: set<PointerReference>, extra: multiset<PointerReference>)
    : set<PointerReference>
  {
    set r | r in existing && forall doom :: doom <= existing && Closed(doom, held, existing, extra) ==> r in doom
  }

  lemma {:induction false} DoomedClosed(held: map<SharedPointer, PointerReference?>, existing: set<PointerReference>, extra: multiset<PointerReference>)
    ensures Closed(Doomed(held, existing, extra), held, existing, extra)
  {
    var d := Doomed(held, existing, extra);
    forall r | r in existing && extra[r] == 0 && forall h :: h in held && held[h] == r ==> h in Members(d)
      ensures r in d
    {
      forall doom | doom <= existing && Closed(doom, held, existing, extra)
        ensures r in doom
      {
        assert Members(d) <= Members(doom);
      }
    }
  }

  /** From one state to a later one only doomed objects, and members of doomed objects, are gone. */
  ghost predicate Sank(held: map<SharedPointer, PointerReference?>, existing: set<PointerReference>,
                       held': map<SharedPointer, PointerReference?>, existing': set<PointerReference>, doom: set<PointerReference>)
  {
    && held'.Keys <= held.Keys <= held'.Keys + Members(doom)
    && (forall h :: h in held' ==> held'[h] == held[h])
    && existing' <= existing <= existing' + doom
  }

  lemma {:induction false} OneOf(dying: set<SharedPointer>, todo: set<SharedPointer>, h: SharedPointer)
    requires h in todo
    ensures dying + todo == dying + (todo - {h}) + {h}
  {
  }

  lemma {:induction false} SankNothing(held: map<SharedPointer, PointerReference?>, existing: set<PointerReference>, doom: set<PointerReference>)
    ensures Sank(held, existing, held, existing, doom)
  {
  }

  lemma {:induction false} SankDelete(held: map<SharedPointer, PointerReference?>, existing: set<PointerReference>, r: PointerReference, doom: set<PointerReference>)
    requires r in doom
    ensures Sank(held, existing, held, existing - {r}, doom)
  {
  }

  lemma {:induction false} SankFurther(held: map<SharedPointer, PointerReference?>, existing: set<PointerReference>,
                                       held': map<SharedPointer, PointerReference?>, existing': set<PointerReference>,
                                       held'': map<SharedPointer, PointerReference?>, existing'': set<PointerReference>, doom: set<PointerReference>)
    requires Sank(held, existing, held', existing', doom) && Sank(held', existing', held'', existing'', doom)
    ensures Sank(held, existing, held'', existing'', doom)
  {
    hide Members;
  }

  lemma {:induction false} ClosedStays(doom: set<PointerReference>, held: map<SharedPointer, PointerReference?>, existing: set<PointerReference>,
                                       held': map<SharedPointer, PointerReference?>, existing': set<PointerReference>, extra: multiset<PointerReference>)
    requires Closed(doom, held, existing, extra) && Sank(held, existing, held', existing', doom)
    ensures Closed(doom, held', existing', extra)
  {
    hide Members;
  }

  lemma {:induction false} SankOne(live: set<SharedPointer>, h: SharedPointer, existing: set<PointerReference>, doom: set<PointerReference>)
    requires h in Members(doom)
    ensures Sank(Held(live), existing, Held(live - {h}), existing, doom)
  {
    hide Members;
  }

  lemma {:induction false} NotAmong(live: set<SharedPointer>, r: PointerReference, h: SharedPointer)
    requires |HandlesOf(live, r)| == 0 && h in live
    ensures h.reference != r
  {
    assert h !in HandlesOf(live, r);
  }

  /** An object whose last count went is doomed. */
  lemma {:induction false} LastOne(live: set<SharedPointer>, r: PointerReference, existing: set<PointerReference>, extra: multiset<PointerReference>,
                                   doom: set<PointerReference>)
    requires |HandlesOf(live, r)| + extra[r] == 0 && r in existing && Closed(doom, Held(live), existing, extra)
    ensures r in doom
  {
    forall h | h in Held(live)
      ensures Held(live)[h] != r
    {
      NotAmong(live, r, h);
    }
  }

  lemma {:induction false} NotHoused(left: set<SharedPointer>, made: set<PointerReference>, existing: set<PointerReference>,
                                     busy: set<SharedPointer>, q: PointerReference, h: SharedPointer)
    requires Housed(left, made, existing, {}, busy) && q in made - existing && h in left
    ensures h !in q.members
  {
    assert h !in q.members * left;
  }

  /** The members of an object just deleted are dying. */
  lemma {:induction false} HousedAfterDelete(live: set<SharedPointer>, made: set<PointerReference>, existing: set<PointerReference>,
                                             dying: set<SharedPointer>, busy: set<SharedPointer>, r: PointerReference, doom: set<PointerReference>)
    requires Housed(live, made, existing, dying, busy) && existing <= made && r in existing && r in doom && busy !! Members(doom)
    ensures Housed(live, made, existing - {r}, dying + r.members, busy) && r.members !! dying
  {
    assert r.members <= Members(doom);
  }

  /** What has been deleted is a closed set: an object that exists has a handle outside it. */
  lemma {:induction false} DeletedClosed(held: map<SharedPointer, PointerReference?>, existing: set<PointerReference>, left: set<SharedPointer>,
                                         made: set<PointerReference>, extra: multiset<PointerReference>, busy: set<SharedPointer>)
    requires World(left, made, extra, {}, busy) && existing <= made
    requires left <= held.Keys && forall h :: h in left ==> held[h] == h.reference
    ensures Closed(existing - Existing(made), held, existing, extra)
  {
    var deleted := existing - Existing(made);
    forall r | r in Existing(made) && extra[r] == 0
      ensures exists h :: h in held && held[h] == r && h !in Members(deleted)
    {
      assert Counted(left, r, extra);
      assert HandlesOf(left, r) != {};
      var h :| h in HandlesOf(left, r);
      forall q | q in deleted
        ensures h !in q.members
      {
        NotHoused(left, made, Existing(made), busy, q, h);
      }
    }
  }

  /** Exactly the doomed objects have been deleted, and exactly their members are gone. */
  lemma {:induction false} ExactlyDoomed(held: map<SharedPointer, PointerReference?>, existing: set<PointerReference>, left: set<SharedPointer>,
                                         made: set<PointerReference>, extra: multiset<PointerReference>, busy: set<SharedPointer>)
    requires World(left, made, extra, {}, busy) && existing <= made
    requires Sank(held, existing, Held(left), Existing(made), Doomed(held, existing, extra))
    ensures var doom := Doomed(held, existing, extra);
      && Existing(made) == existing - doom && left == held.Keys - Members(doom)
      && forall h :: h in left ==> held[h] == h.reference
  {
    var doom := Doomed(held, existing, extra);
    assert forall h :: h in left ==> Held(left)[h] == h.reference;
    DeletedClosed(held, existing, left, made, extra, busy);
    assert doom <= existing - Existing(made);
    forall h, q | h in left && q in doom
      ensures h !in q.members
    {
      NotHoused(left, made, Existing(made), busy, q, h);
    }
  }

  /** A handle. The methods are told which handles are live and which references were ever made. */
  class SharedPointer {
    var reference: PointerReference?

    /** Lets go, and deletes the object with its last handle. The handle itself is not among the live. */
    method UnBind(ghost live: set<SharedPointer>, ghost made: set<PointerReference>, ghost extra: multiset<PointerReference>,
                  ghost dying: set<SharedPointer>, ghost busy: set<SharedPointer>, ghost doom: set<PointerReference>, ghost watch: SharedPointer)
      returns (ghost left: set<SharedPointer>)
      requires this !in live && (reference != null ==> reference in made)
      requires World(live, made, extra + One(reference), dying, busy)
      requires Closed(doom, Held(live), Existing(made), extra) && busy !! Members(doom)
      modifies this, live, made
      ensures reference == null && left <= live && World(left, made, extra, dying, busy)
      ensures watch in live - left ==> watch.reference == null
      ensures Sank(old(Held(live)), old(Existing(made)), Held(left), Existing(made), doom)
      decreases Existing(made), 0
    {
      hide World, Closed, Members, Sank;
      left := live;
      ghost var held, existing := Held(live), Existing(made);
      SankNothing(held, existing, doom);
      assert extra + multiset{} == extra;
      if reference != null {
        var last := Release(live, made, extra, dying, busy, doom);
        assert Held(live) == held;
        if last {
          left := reference.DestroyMembers(live, made, extra, dying, busy, doom, watch);
          SankFurther(held, existing, held, existing - {reference}, Held(left), Existing(made), doom);
        }
      }
      reference := null;
    }

    /** Takes back one count, and deletes the reference with the last. */
    method Release(ghost live: set<SharedPointer>, ghost made: set<PointerReference>, ghost extra: multiset<PointerReference>,
                   ghost dying: set<SharedPointer>, ghost busy: set<SharedPointer>, ghost doom: set<PointerReference>)
      returns (last: bool)
      requires reference != null && reference in made
      requires World(live, made, extra + multiset{reference}, dying, busy) && Closed(doom, Held(live), Existing(made), extra) && busy !! Members(doom)
      modifies reference
      ensures last == reference.deleted && (last ==> reference in doom && reference.members !! dying)
      ensures World(live, made, extra, if last then dying + reference.members else dying, busy)
      ensures Existing(made) == if last then old(Existing(made)) - {reference} else old(Existing(made))
      ensures last ==> reference in old(Existing(made))
      ensures Closed(doom, Held(live), Existing(made), extra)
      ensures last ==> Sank(Held(live), old(Existing(made)), Held(live), Existing(made), doom)
    {
      assert Counted(live, reference, extra + multiset{reference});
      assert forall r :: r in made && r != reference ==> Counted(live, r, extra);
      ghost var held, existing := Held(live), Existing(made);
      hide Housed, Closed, Members, Sank;
      var n := reference.FreeRef();
      assert Existing(made) == existing && Held(live) == held;
      last := n == 0;
      SankNothing(held, existing, doom);
      if last {
        LastOne(live, reference, existing, extra, doom);
        HousedAfterDelete(live, made, existing, dying, busy, reference, doom);
        reference.Delete();
        SankDelete(held, existing, reference, doom);
        ClosedStays(doom, held, existing, held, existing - {reference}, extra);
        assert Existing(made) == existing - {reference} && Held(live) == held;
      }
      assert forall r :: r in made ==> Counted(live, r, extra);
    }

    /** The destructor of a member of an object that is being destroyed; other members have gone down
        before, since the live handles were those in `from`. */
    method GoDown(ghost from: set<SharedPointer>, ghost live: set<SharedPointer>, ghost made: set<PointerReference>,
                  ghost extra: multiset<PointerReference>, ghost dying: set<SharedPointer>, ghost busy: set<SharedPointer>,
                  ghost doom: set<PointerReference>, ghost held: map<SharedPointer, PointerReference?>, ghost existing: set<PointerReference>,
                  ghost watch: SharedPointer)
      returns (ghost left: set<SharedPointer>)
      requires this !in dying && World(live, made, extra, dying + {this}, busy) && this in Members(doom) && live <= from
      requires Closed(doom, held, existing, extra) && Sank(held, existing, Held(live), Existing(made), doom) && busy !! Members(doom)
      requires watch in from - live ==> watch.reference == null
      modifies this, live, made
      ensures left <= live && World(left, made, extra, dying, busy)
      ensures watch in from - left ==> watch.reference == null
      ensures Sank(held, existing, Held(left), Existing(made), doom)
      ensures Existing(made) <= old(Existing(made))
      decreases Existing(made), 1
    {
      OneDying(live, this, made, extra, dying, busy);
      SankOne(live, this, Existing(made), doom);
      SankFurther(held, existing, Held(live), Existing(made), Held(live - {this}), Existing(made), doom);
      hide World, Closed, Members, Held;
      ClosedStays(doom, held, existing, Held(live - {this}), Existing(made), extra);
      ghost var held', existing' := Held(live - {this}), Existing(made);
      left := UnBind(live - {this}, made, extra, dying, busy, doom, watch);
      SankFurther(held, existing, held', existing', Held(left), Existing(made), doom);
    }

    /** What a release of this handle brings down while further counts are held. */
    ghost function Brought(live: set<SharedPointer>, made: set<PointerReference>, extra: multiset<PointerReference>): set<PointerReference>
      reads live, made
    {
      Doomed(Held(live - {this}), Existing(made), extra)
    }

    /** Lets go, for a handle that stays or is destroyed: exactly the doomed objects are deleted, and
        their members are gone. The handle must not lie inside one of them: its reference would be
        freed a second time. */
    method LetGo(ghost live: set<SharedPointer>, ghost made: set<PointerReference>, ghost extra: multiset<PointerReference>, ghost stays: bool,
                 ghost watch: SharedPointer)
      returns (ghost left: set<SharedPointer>)
      requires World(live, made, extra, {}, {}) && this in live && this !in Members(Brought(live, made, extra))
      requires !stays ==> this !in Members(Existing(made))
      modifies this, live, made
      ensures reference == null && World(left, made, extra, {}, {})
      ensures left == live - Members(old(Brought(live, made, extra))) - (if stays then {} else {this})
      ensures Existing(made) == old(Existing(made)) - old(Brought(live, made, extra))
      ensures forall h :: h in left && h != this ==> h.reference == old(h.reference)
      ensures watch in live - left ==> watch.reference == null
    {
      ghost var doom := Brought(live, made, extra);
      ghost var busy := if stays then {this} else {};
      ghost var held, existing := Held(live - {this}), Existing(made);
      SetAside(live, this, made, extra, stays);
      DoomedClosed(held, existing, extra);
      ghost var dead := made - (existing - doom);
      NotMember(live, made, extra, this, doom);
      hide World, Closed, Doomed, Members, Sank;
      left := UnBind(live - {this}, made, extra, {}, busy, doom, watch);
      ExactlyDoomed(held, existing, left, made, extra, busy);
      if stays {
        BackAgain(left, this, made, extra);
        left := left + {this};
      }
    }

    constructor Null()
      ensures reference == null
    {
      reference := null;
    }

    /** The first handle of an object, or of none. The members of a new object hold nothing yet. */
    constructor FromObject(pT: nat, members: set<SharedPointer>, ghost live: set<SharedPointer>, ghost made: set<PointerReference>)
      requires Sound(live, made) && members !! live && (pT == NULL ==> members == {})
      requires (forall m :: m in members ==> m.reference == null) && members !! Members(made)
      ensures this !in live && this !in members && this !in Members(made)
      ensures pT == NULL ==> reference == null && Sound(live + {this}, made)
      ensures pT != NULL ==> reference != null && fresh(reference) && reference.pT == pT && reference.members == members
      ensures pT != NULL ==> Sound(live + {this} + members, made + {reference})
    {
      reference := null;
      new;
      if pT == NULL {
        MoreIdle(live, {this}, made);
        return;
      }
      reference := new PointerReference(pT, members);
      var _ := reference.GetRef();
      FirstHandle(live, this, made, reference);
    }

    constructor Copy(other: SharedPointer, ghost live: set<SharedPointer>, ghost made: set<PointerReference>)
      requires Sound(live, made) && other in live
      modifies other.reference
      ensures reference == other.reference == old(other.reference) && this !in live && this !in Members(made)
      ensures Sound(live + {this}, made)
    {
      reference := null;
      new;
      MoreIdle(live, {this}, made);
      assert other != this;
      other.Share(live + {this}, made);
      Bind(other.reference, live + {this}, made, One(other.reference));
    }

    /** Counts this handle's reference once more, for a handle yet to take it. */
    method Share(ghost live: set<SharedPointer>, ghost made: set<PointerReference>)
      requires Sound(live, made) && this in live
      modifies reference
      ensures World(live, made, One(reference), {}, {})
      ensures reference != null ==> reference in made
      ensures Existing(made) == old(Existing(made))
    {
      if reference != null {
        assert this in HandlesOf(live, reference) && Counted(live, reference, multiset{});
        assert forall r :: r in made && r != reference ==> Counted(live, r, multiset{});
        var _ := reference.GetRef();
        assert forall r :: r in made ==> Counted(live, r, One(reference));
      }
    }

    /** Takes the reference counted for this handle, or none. */
    method Bind(r: PointerReference?, ghost live: set<SharedPointer>, ghost made: set<PointerReference>, ghost extra: multiset<PointerReference>)
      requires World(live, made, extra, {}, {}) && this in live && reference == null
      requires r == null || (extra == multiset{r} && r in made)
      modifies this
      ensures reference == r && World(live, made, if r == null then extra else multiset{}, {}, {})
    {
      reference := r;
      forall q | q in made
        ensures Counted(live, q, if r == null then extra else multiset{})
      {
        assert old(Counted(live, q, extra));
        assert HandlesOf(live, q) == old(HandlesOf(live, q)) + if q == r then {this} else {};
      }
    }

    /** Assignment keeps every count right exactly when the other handle is null, or it is another
        handle and no member of an object that goes down when this one lets go. Otherwise this handle
        ends null, and the reference it should have is counted once too often, for ever. */
    method Assign(other: SharedPointer, ghost live: set<SharedPointer>, ghost made: set<PointerReference>)
      returns (ghost left: set<SharedPointer>)
      requires Sound(live, made) && this in live && other in live
      requires this !in Members(Brought(live, made, One(other.reference)))
      modifies this, live, made
      ensures var given := old(other.reference); var doom := old(Brought(live, made, One(other.reference)));
        var fine := given == null || (this != other && other !in Members(doom));
        && left == live - Members(doom) && Existing(made) == old(Existing(made)) - doom
        && (Sound(left, made) <==> fine)
        && reference == (if fine then given else null)
        && (!fine ==> World(left, made, multiset{given}, {}, {}))
      ensures forall h :: h in left && h != this ==> h.reference == old(h.reference)
    {
      hide World, Doomed, Members;
      ghost var given := other.reference;
      left := ShareAndLetGo(other, live, made);
      Bind(other.reference, left, made, One(given));
      if reference == null && given != null {
        OnceTooOften(left, made, given);
      }
    }

    /** The first two steps of an assignment: the other reference is counted, then this one let go. */
    method ShareAndLetGo(other: SharedPointer, ghost live: set<SharedPointer>, ghost made: set<PointerReference>)
      returns (ghost left: set<SharedPointer>)
      requires Sound(live, made) && this in live && other in live
      requires this !in Members(Brought(live, made, One(other.reference)))
      modifies this, live, made
      ensures var given := old(other.reference); var doom := old(Brought(live, made, One(other.reference)));
        && (given != null ==> given in made) && reference == null && World(left, made, One(given), {}, {})
        && left == live - Members(doom) && Existing(made) == old(Existing(made)) - doom
        && other.reference == (if this != other && other !in Members(doom) then given else null)
      ensures forall h :: h in left && h != this ==> h.reference == old(h.reference)
    {
      assert other.reference != null ==> other.reference in made;
      hide World, Doomed, Members;
      ghost var given := other.reference;
      ghost var held, existing := Held(live - {this}), Existing(made);
      other.Share(live, made);
      assert Held(live - {this}) == held && Existing(made) == existing;
      left := LetGo(live, made, One(given), true, other);
    }

    method SetNull(ghost live: set<SharedPointer>, ghost made: set<PointerReference>) returns (ghost left: set<SharedPointer>)
      requires Sound(live, made) && this in live && this !in Members(Brought(live, made, multiset{}))
      modifies this, live, made
      ensures reference == null && Sound(left, made)
      ensures var doom := old(Brought(live, made, multiset{}));
        left == live - Members(doom) && Existing(made) == old(Existing(made)) - doom
      ensures forall h :: h in left && h != this ==> h.reference == old(h.reference)
    {
      left := LetGo(live, made, multiset{}, true, this);
    }

    /** The destructor of a handle that is no object's member: afterwards it is live no more. */
    method Destroy(ghost live: set<SharedPointer>, ghost made: set<PointerReference>) returns (ghost left: set<SharedPointer>)
      requires Sound(live, made) && this in live && this !in Members(Existing(made))
      modifies this, live, made
      ensures reference == null && Sound(left, made)
      ensures var doom := old(Brought(live, made, multiset{}));
        left == live - {this} - Members(doom) && Existing(made) == old(Existing(made)) - doom
      ensures forall h :: h in left && h != this ==> h.reference == old(h.reference)
    {
      left := LetGo(live, made, multiset{}, false, this);
    }
  }

  lemma {:induction false} OnceTooOften(live: set<SharedPointer>, made: set<PointerReference>, r: PointerReference)
    requires World(live, made, multiset{r}, {}, {}) && r in made
    ensures !Sound(live, made)
  {
    assert Counted(live, r, multiset{r});
    assert !Counted(live, r, multiset{});
  }

  /** New handles that hold nothing. */
  lemma {:induction false} MoreIdle(live: set<SharedPointer>, idle: set<SharedPointer>, made: set<PointerReference>)
    requires Sound(live, made) && idle !! Members(made) && forall h :: h in idle ==> h.reference == null
    ensures Sound(live + idle, made)
  {
    forall r | r in made
      ensures Counted(live + idle, r, multiset{})
    {
      assert Counted(live, r, multiset{});
      assert HandlesOf(live + idle, r) == HandlesOf(live, r);
    }
    assert forall r :: r in made ==> r.members <= Members(made);
  }

  lemma {:induction false} FirstHandle(live: set<SharedPointer>, h: SharedPointer, made: set<PointerReference>, r: PointerReference)
    requires Sound(live, made) && h !in live && h !in Members(made) && h !in r.members && r !in made
    requires r.members !! live && r.members !! Members(made) && forall m :: m in r.members ==> m.reference == null
    requires h.reference == r && r.count == 1 && !r.deleted
    ensures Sound(live + {h} + r.members, made + {r})
  {
    var now := live + {h} + r.members;
    forall q | q in made
      ensures Counted(now, q, multiset{})
    {
      assert Counted(live, q, multiset{});
      assert HandlesOf(now, q) == HandlesOf(live, q);
    }
    assert HandlesOf(now, r) == {h};
    assert Counts(now, made + {r}, multiset{});
    hide Counts, Counted, HandlesOf;
    assert forall q :: q in made ==> q.members <= Members(made);
    assert Existing(made + {r}) == Existing(made) + {r};
  }

  lemma {:induction false} NotMember(live: set<SharedPointer>, made: set<PointerReference>, extra: multiset<PointerReference>, h: SharedPointer, doom: set<PointerReference>)
    requires World(live, made, extra, {}, {}) && h in live && h !in Members(doom)
    ensures h !in Members(made - (Existing(made) - doom))
  {
    forall r | r in made - Existing(made)
      ensures h !in r.members
    {
      NotHoused(live, made, Existing(made), {}, r, h);
    }
  }

  // ----- What a caller can find out beforehand

  lemma {:induction false} NothingDoomed(held: map<SharedPointer, PointerReference?>, existing: set<PointerReference>, extra: multiset<PointerReference>)
    requires Closed({}, held, existing, extra)
    ensures Doomed(held, existing, extra) == {} && Members({}) == {}
  {
    var none: set<PointerReference> := {};
    assert none <= existing && Closed(none, held, existing, extra);
  }

  /** Objects without members take nothing along: then assignment fails for a handle and itself only. */
  lemma {:induction false} NoMembersGone(held: map<SharedPointer, PointerReference?>, existing: set<PointerReference>, extra: multiset<PointerReference>)
    requires forall r :: r in existing ==> r.members == {}
    ensures Members(Doomed(held, existing, extra)) == {}
  {
  }

  /** Adds object after object that has no handle elsewhere, until there is none. */
  method FindDoomed(held: map<SharedPointer, PointerReference?>, existing: set<PointerReference>, extra: multiset<PointerReference>)
    returns (doom: set<PointerReference>)
    ensures doom == Doomed(held, existing, extra)
  {
    doom := {};
    var rest := existing;
    while exists r :: r in rest && Falls(r, held, extra, doom)
      invariant doom + rest == existing && doom !! rest
      invariant forall closed :: closed <= existing && Closed(closed, held, existing, extra) ==> doom <= closed
      decreases rest
    {
      var r :| r in rest && Falls(r, held, extra, doom);
      FallsInto(r, held, existing, extra, doom);
      doom, rest := doom + {r}, rest - {r};
    }
    assert Closed(doom, held, existing, extra);
  }

  predicate Falls(r: PointerReference, held: map<SharedPointer, PointerReference?>, extra: multiset<PointerReference>, doom: set<PointerReference>) {
    extra[r] == 0 && forall h :: h in held && held[h] == r ==> h in Members(doom)
  }

  lemma {:induction false} FallsInto(r: PointerReference, held: map<SharedPointer, PointerReference?>, existing: set<PointerReference>,
                                     extra: multiset<PointerReference>, doom: set<PointerReference>)
    requires r in existing && Falls(r, held, extra, doom)
    requires forall closed :: closed <= existing && Closed(closed, held, existing, extra) ==> doom <= closed
    ensures forall closed :: closed <= existing && Closed(closed, held, existing, extra) ==> doom + {r} <= closed
  {
    forall closed | closed <= existing && Closed(closed, held, existing, extra)
      ensures r in closed
    {
      assert Members(doom) <= Members(closed);
    }
  }

  /** A list of two objects: a handle on the first, whose member holds the second. */
  method ListOfTwo() returns (head: SharedPointer, next: SharedPointer, first: PointerReference, second: PointerReference)
    ensures fresh(head) && fresh(next) && fresh(first) && fresh(second) && head != next && first != second
    ensures first.members == {next} && second.members == {} && head.reference == first && next.reference == second
    ensures Sound({head, next}, {first, second})
  {
    hide World;
    next := new SharedPointer.Null();
    NothingYet();
    head := new SharedPointer.FromObject(1, {next}, {}, {});
    first := head.reference;
    assert {} + {head} + {next} == {head, next} && {} + {first} == {first};
    var tail := new SharedPointer.FromObject(2, {}, {head, next}, {first});
    second := tail.reference;
    ghost var live, made := {head, next, tail}, {first, second};
    assert {head, next} + {tail} + {} == live && {first} + {second} == made;
    NothingDoomed(Held(live - {next}), Existing(made), One(second));
    live := next.Assign(tail, live, made);
    NothingDoomed(Held(live - {tail}), Existing(made), multiset{});
    live := tail.Destroy(live, made);
    assert live == {head, next};
  }

  lemma {:induction false} NothingYet()
    ensures Sound({}, {}) && Members({}) == {}
  {
  }

  /** Taking the head off such a list by assigning it its own successor: the successor is a member of
      the object that goes down, the second object is counted once too often and the head is lost. */
  method HeadBecomesNext() returns (head: SharedPointer, second: PointerReference, ghost left: set<SharedPointer>, ghost made: set<PointerReference>)
    ensures left == {head} && head.reference == null && second in made && second in Existing(made)
    ensures !Sound(left, made)
  {
    hide World, Doomed, Members;
    var next, first;
    head, next, first, second := ListOfTwo();
    ghost var live := {head, next};
    made := {first, second};
    FirstGoesDown(head, next, first, second);
    assert {next} == Members({first});
    left := head.Assign(next, live, made);
    assert second in Existing(made);
  }

  lemma {:induction false} FirstGoesDown(head: SharedPointer, next: SharedPointer, first: PointerReference, second: PointerReference)
    requires head != next && first != second && first.members == {next} && second.members == {}
    requires head.reference == first && next.reference == second && Sound({head, next}, {first, second})
    ensures head.Brought({head, next}, {first, second}, One(second)) == {first}
    ensures Members({first}) == {next} && Existing({first, second}) == {first, second}
  {
    var held, existing := Held({head, next} - {head}), {first, second};
    assert Counted({head, next}, first, multiset{}) && Counted({head, next}, second, multiset{});
    assert head in HandlesOf({head, next}, first) && next in HandlesOf({head, next}, second);
    assert Existing({first, second}) == existing;
    assert Closed({first}, held, existing, One(second)) && {first} <= existing;
    assert forall doom :: doom <= existing && Closed(doom, held, existing, One(second)) ==> first in doom;
  }

  // ----- Runs

  datatype Event = FromObject(pT: nat, members: nat) | Copy(of: nat) | Assign(to: nat, from: nat) | SetNull(i: nat) | Destroy(i: nat)

  /** The live handles by number; numbers are given out in order. */
  function Live(table: map<nat, SharedPointer>): set<SharedPointer> {
    set i | i in table :: table[i]
  }

  ghost predicate Numbered(table: map<nat, SharedPointer>, next: nat) {
    && (forall i :: i in table ==> i < next)
    && (forall i, j :: i in table && j in table && table[i] == table[j] ==> i == j)
  }

  ghost predicate Ready(table: map<nat, SharedPointer>, next: nat, made: set<PointerReference>)
    reads Live(table), made
  {
    Numbered(table, next) && Sound(Live(table), made)
  }

  function Without(table: map<nat, SharedPointer>, gone: set<SharedPointer>): map<nat, SharedPointer> {
    map i | i in table && table[i] !in gone :: table[i]
  }

  lemma {:induction false} NumberedWithout(table: map<nat, SharedPointer>, next: nat, gone: set<SharedPointer>)
    requires Numbered(table, next)
    ensures Numbered(Without(table, gone), next) && Live(Without(table, gone)) == Live(table) - gone
  {
    var left := Without(table, gone);
    forall h | h in Live(table) - gone
      ensures h in Live(left)
    {
      var i :| i in table && table[i] == h;
      assert i in left && left[i] == h;
    }
  }

  lemma {:induction false} NumberedWith(table: map<nat, SharedPointer>, next: nat, h: SharedPointer)
    requires Numbered(table, next) && h !in Live(table)
    ensures Numbered(table[next := h], next + 1) && Live(table[next := h]) == Live(table) + {h}
  {
    var more := table[next := h];
    assert more[next] == h;
    forall g | g in Live(table)
      ensures g in Live(more)
    {
      var i :| i in table && table[i] == g;
      assert more[i] == g;
    }
  }

  /** An assignment, unless a caller can tell beforehand that it must not be. */
  method AssignIfFine(to: nat, from: nat, table: map<nat, SharedPointer>, next: nat, made: set<PointerReference>)
    returns (left: map<nat, SharedPointer>)
    requires Ready(table, next, made) && to in table && from in table
    modifies Live(table), made
    ensures Ready(left, next, made) && Live(left) <= Live(table)
  {
    hide World, Doomed, Members, Numbered;
    var h, other := table[to], table[from];
    assert h in Live(table) && other in Live(table);
    var doom := FindDoomed(Held(Live(table) - {h}), Existing(made), One(other.reference));
    left := table;
    if h !in Members(doom) && (other.reference == null || (h != other && other !in Members(doom))) {
      NumberedWithout(table, next, Members(doom));
      ghost var live := h.Assign(other, Live(table), made);
      left := Without(table, Members(doom));
    }
  }

  method NullIfFine(i: nat, table: map<nat, SharedPointer>, next: nat, made: set<PointerReference>)
    returns (left: map<nat, SharedPointer>)
    requires Ready(table, next, made) && i in table
    modifies Live(table), made
    ensures Ready(left, next, made) && Live(left) <= Live(table)
  {
    hide World, Doomed, Members, Numbered;
    var h := table[i];
    assert h in Live(table);
    var doom := FindDoomed(Held(Live(table) - {h}), Existing(made), multiset{});
    left := table;
    if h !in Members(doom) {
      NumberedWithout(table, next, Members(doom));
      ghost var live := h.SetNull(Live(table), made);
      left := Without(table, Members(doom));
    }
  }

  /** Members are destroyed with their object only. */
  method DestroyIfFree(i: nat, table: map<nat, SharedPointer>, next: nat, made: set<PointerReference>)
    returns (left: map<nat, SharedPointer>)
    requires Ready(table, next, made) && i in table
    modifies Live(table), made
    ensures Ready(left, next, made) && Live(left) <= Live(table) && Existing(made) <= old(Existing(made))
    ensures table[i] !in Members(old(Existing(made))) ==> table[i] !in Live(left)
  {
    hide World, Doomed, Members, Numbered;
    var h := table[i];
    assert h in Live(table);
    left := table;
    if h !in Members(Existing(made)) {
      var doom := FindDoomed(Held(Live(table) - {h}), Existing(made), multiset{});
      NumberedWithout(table, next, Members(doom) + {h});
      ghost var live := h.Destroy(Live(table), made);
      left := Without(table, Members(doom) + {h});
      assert Live(left) == live;
    }
  }

  /** A new object, unless the pointer is null, with so many members, and its first handle. */
  method Create(pT: nat, members: nat, table: map<nat, SharedPointer>, next: nat, made: set<PointerReference>)
    returns (more: map<nat, SharedPointer>, after: nat, all: set<PointerReference>)
    requires Ready(table, next, made)
    ensures Ready(more, after, all) && made <= all && |all| == |made| + (if pT == NULL then 0 else 1)
    ensures forall h :: h in Live(more) ==> h in Live(table) || fresh(h)
    ensures forall r :: r in all ==> r in made || (fresh(r) && (members == 0 ==> r.members == {}))
  {
    hide Sound, Numbered, Members;
    if pT == NULL {
      var h := new SharedPointer.FromObject(NULL, {}, Live(table), made);
      NumberedWith(table, next, h);
      more, after, all := table[next := h], next + 1, made;
    } else {
      var h, ms := CreateReal(pT, members, Live(table), made);
      hide Live;
      NumberedWith(table, next, h);
      NumberedWithAll(table[next := h], next + 1, ms);
      more, after := Extended(table[next := h], next + 1, ms), next + 1 + |ms|;
      all := made + {h.reference};
    }
  }

  function Elems(hs: seq<SharedPointer>): set<SharedPointer> {
    set h | h in hs
  }

  method CreateReal(pT: nat, members: nat, ghost live: set<SharedPointer>, ghost made: set<PointerReference>)
    returns (h: SharedPointer, ms: seq<SharedPointer>)
    requires Sound(live, made) && pT != NULL
    ensures fresh(h) && h.reference != null && fresh(h.reference) && h.reference.members == Elems(ms) && |ms| == members
    ensures h !in live && h !in ms && Elems(ms) !! live && forall m :: m in ms ==> fresh(m)
    ensures forall j, k :: 0 <= j < k < |ms| ==> ms[j] != ms[k]
    ensures Sound(live + {h} + Elems(ms), made + {h.reference})
  {
    hide Sound, Members;
    ms := MakeMembers(members, live, made);
    h := new SharedPointer.FromObject(pT, Elems(ms), live, made);
  }

  method MakeMembers(n: nat, ghost live: set<SharedPointer>, ghost made: set<PointerReference>) returns (ms: seq<SharedPointer>)
    ensures |ms| == n && forall m :: m in ms ==> fresh(m) && m.reference == null
    ensures Elems(ms) !! live && Elems(ms) !! Members(made)
    ensures forall j, k :: 0 <= j < k < |ms| ==> ms[j] != ms[k]
  {
    ms := [];
    for k := 0 to n
      invariant |ms| == k && forall m :: m in ms ==> fresh(m) && m.reference == null
      invariant Elems(ms) !! live && Elems(ms) !! Members(made)
      invariant forall j, k :: 0 <= j < k < |ms| ==> ms[j] != ms[k]
    {
      var m := new SharedPointer.Null();
      ms := ms + [m];
    }
  }

  function Extended(table: map<nat, SharedPointer>, next: nat, hs: seq<SharedPointer>): map<nat, SharedPointer> {
    if hs == [] then table else Extended(table, next, hs[..|hs| - 1])[next + |hs| - 1 := hs[|hs| - 1]]
  }

  lemma {:induction false} NumberedWithAll(table: map<nat, SharedPointer>, next: nat, hs: seq<SharedPointer>)
    requires Numbered(table, next) && Elems(hs) !! Live(table)
    requires forall j, k :: 0 <= j < k < |hs| ==> hs[j] != hs[k]
    ensures Numbered(Extended(table, next, hs), next + |hs|) && Live(Extended(table, next, hs)) == Live(table) + Elems(hs)
    decreases |hs|
  {
    if hs != [] {
      hide Numbered, Live;
      var n := |hs| - 1;
      assert hs == hs[..n] + [hs[n]];
      assert Elems(hs) == Elems(hs[..n]) + {hs[n]};
      NumberedWithAll(table, next, hs[..n]);
      NumberedWith(Extended(table, next, hs[..n]), next + n, hs[n]);
    }
  }

  method CopyOf(of: nat, table: map<nat, SharedPointer>, next: nat, made: set<PointerReference>) returns (more: map<nat, SharedPointer>)
    requires Ready(table, next, made) && of in table
    modifies made
    ensures Ready(more, next + 1, made)
    ensures forall h :: h in Live(more) ==> h in Live(table) || fresh(h)
  {
    hide Numbered;
    var other := table[of];
    assert other in Live(table);
    assert other.reference != null ==> other.reference in made;
    hide World;
    var h := new SharedPointer.Copy(other, Live(table), made);
    NumberedWith(table, next, h);
    more := table[next := h];
  }

  /** The number of events that give an object to its first handle. */
  function Objects(events: seq<Event>): nat {
    if events == [] then 0 else
      var e := events[|events| - 1];
      Objects(events[..|events| - 1]) + if e.FromObject? && e.pT != NULL then 1 else 0
  }

  /** One event; events about handles that are not there, or that must not be, do nothing. */
  method Step(e: Event, table: map<nat, SharedPointer>, next: nat, made: set<PointerReference>)
    returns (now: map<nat, SharedPointer>, after: nat, all: set<PointerReference>)
    requires Ready(table, next, made)
    modifies Live(table), made
    ensures Ready(now, after, all) && made <= all && |all| == |made| + Objects([e])
    ensures forall h :: h in Live(now) ==> h in Live(table) || fresh(h)
    ensures forall r :: r in all ==> r in made || (fresh(r) && e.FromObject? && (e.members == 0 ==> r.members == {}))
  {
    hide Sound, Numbered;
    now, after, all := table, next, made;
    if e.FromObject? {
      now, after, all := Create(e.pT, e.members, table, next, made);
    } else if e.Copy? && e.of in table {
      now := CopyOf(e.of, table, next, made);
      after := next + 1;
    } else if e.Assign? && e.to in table && e.from in table {
      now := AssignIfFine(e.to, e.from, table, next, made);
    } else if e.SetNull? && e.i in table {
      now := NullIfFine(e.i, table, next, made);
    } else if e.Destroy? && e.i in table {
      now := DestroyIfFree(e.i, table, next, made);
    }
  }

  /** Destroys the handles that are no members, until there is none. */
  method DestroyAll(table: map<nat, SharedPointer>, next: nat, made: set<PointerReference>) returns (left: map<nat, SharedPointer>)
    requires Ready(table, next, made)
    modifies Live(table), made
    ensures Ready(left, next, made) && Live(left) <= Live(table) && Live(left) <= Members(Existing(made))
  {
    hide Sound, Numbered;
    left := table;
    while exists i :: i in left && left[i] !in Members(Existing(made))
      invariant Ready(left, next, made) && Live(left) <= Live(table)
      decreases Live(left)
    {
      var i :| i in left && left[i] !in Members(Existing(made));
      assert left[i] in Live(left);
      left := DestroyIfFree(i, left, next, made);
    }
    assert forall h :: h in Live(left) ==> h in Members(Existing(made));
  }

  /** What still exists when all handles left are members is held by members: in a circle, at the end. */
  lemma {:induction false} KeptByMembers(live: set<SharedPointer>, made: set<PointerReference>)
    requires Sound(live, made) && live <= Members(Existing(made))
    ensures forall r :: r in Existing(made) ==> exists h :: h in live && h in Members(Existing(made)) && h.reference == r
  {
    forall r | r in Existing(made)
      ensures exists h :: h in live && h in Members(Existing(made)) && h.reference == r
    {
      assert Counted(live, r, multiset{});
      assert HandlesOf(live, r) != {};
      var h :| h in HandlesOf(live, r);
    }
  }

  /** After any run every count is right; and once the handles that are no members go too, all that
      exists of the objects made on the way is held by members of others: nothing, if no object has
      members. */
  method Replay(events: seq<Event>) returns (left: map<nat, SharedPointer>, next: nat, made: set<PointerReference>)
    ensures Ready(left, next, made) && |made| == Objects(events)
    ensures forall r :: r in Existing(made) ==> exists h :: h in Live(left) && h in Members(Existing(made)) && h.reference == r
    ensures (forall e :: e in events && e.FromObject? ==> e.members == 0) ==> forall r :: r in made ==> r.deleted
  {
    hide World, Numbered, Sound;
    left, next, made := map[], 0, {};
    StartsReady();
    for n := 0 to |events|
      invariant Ready(left, next, made) && |made| == Objects(events[..n])
      invariant forall h :: h in Live(left) ==> fresh(h)
      invariant forall r :: r in made ==> fresh(r)
      invariant (forall e :: e in events && e.FromObject? ==> e.members == 0) ==> forall r :: r in made ==> r.members == {}
    {
      assert events[..n + 1][..n] == events[..n] && events[n] in events;
      left, next, made := Step(events[n], left, next, made);
    }
    assert events[..|events|] == events;
    left := DestroyAll(left, next, made);
    KeptByMembers(Live(left), made);
    if forall r :: r in made ==> r.members == {} {
      NoneKept(Live(left), made);
    }
  }

  lemma {:induction false} NoneKept(live: set<SharedPointer>, made: set<PointerReference>)
    requires forall r :: r in made ==> r.members == {}
    requires forall r :: r in Existing(made) ==> exists h :: h in live && h in Members(Existing(made)) && h.reference == r
    ensures forall r :: r in made ==> r.deleted
  {
    assert Members(Existing(made)) == {};
    assert forall r :: r in made && !r.deleted ==> r in Existing(made);
  }

  lemma {:induction false} StartsReady()
    ensures Ready(map[], 0, {}) && Live(map[]) == {}
  {
  }
}
