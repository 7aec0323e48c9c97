/** Packed 64-bit identifiers: a mask of the non-zero bytes, then those bytes. */
module WoWGuid {
  import opened Bytes

  /** A 64-bit identifier by its bytes in memory, lowest first. */
  type Guid = g: seq<byte> | |g| == 8 witness [0, 0, 0, 0, 0, 0, 0, 0]

  const ZERO: Guid := [0, 0, 0, 0, 0, 0, 0, 0]

  /** The packed form: bit k of the mask says whether byte k is among the fields. */
  datatype Packed = Packed(mask: seq<bool>, fields: seq<byte>)

  function BitCount(mask: seq<bool>): (n: nat)
    ensures n <= |mask|
  {
    if mask == [] then 0 else BitCount(mask[..|mask| - 1]) + if mask[|mask| - 1] then 1 else 0
  }

  function MaskOf(g: seq<byte>): (mask: seq<bool>)
    ensures |mask| == |g|
  {
    seq(|g|, k requires 0 <= k < |g| => g[k] != 0)
  }

  function FieldsOf(g: seq<byte>): seq<byte> {
    if g == [] then []
    else FieldsOf(g[..|g| - 1]) + if g[|g| - 1] != 0 then [g[|g| - 1]] else []
  }

  /** Byte k is the field whose place is the number of mask bits below k, or zero. */
  function Spread(mask: seq<bool>, fields: seq<byte>): (g: seq<byte>)
    requires |fields| >= BitCount(mask)
    ensures |g| == |mask|
  {
    if mask == [] then []
    else
      var last := |mask| - 1;
      Spread(mask[..last], fields) + [if mask[last] then fields[BitCount(mask[..last])] else 0]
  }

  // ----- Properties of the packed form

  /** Packed forms are canonical: as many fields as mask bits, and none of them zero. */
  lemma {:induction false} PackedCanonical(g: seq<byte>)
    ensures |FieldsOf(g)| == BitCount(MaskOf(g))
    ensures forall k :: 0 <= k < |FieldsOf(g)| ==> FieldsOf(g)[k] != 0
    decreases |g|
  {
    if g != [] {
      PackedCanonical(g[..|g| - 1]);
      assert MaskOf(g)[..|g| - 1] == MaskOf(g[..|g| - 1]);
    }
  }

  /** Fields beyond those a mask needs are not looked at. */
  lemma {:induction false} SpreadPrefix(mask: seq<bool>, fields: seq<byte>, more: seq<byte>)
    requires |fields| >= BitCount(mask)
    ensures Spread(mask, fields + more) == Spread(mask, fields)
    decreases |mask|
  {
    if mask != [] {
      SpreadPrefix(mask[..|mask| - 1], fields, more);
    }
  }

  lemma {:induction false} UnpackPacked(g: seq<byte>)
    ensures |FieldsOf(g)| == BitCount(MaskOf(g))
    ensures Spread(MaskOf(g), FieldsOf(g)) == g
    decreases |g|
  {
    PackedCanonical(g);
    if g != [] {
      var h := g[..|g| - 1];
      UnpackPacked(h);
      assert MaskOf(g)[..|g| - 1] == MaskOf(h);
      SpreadPrefix(MaskOf(h), FieldsOf(h), if g[|g| - 1] != 0 then [g[|g| - 1]] else []);
    }
  }

  /** Packing a decoded form again gives it back exactly when none of its fields is zero. */
  lemma {:induction false} RepackIff(mask: seq<bool>, fields: seq<byte>)
    requires |fields| == BitCount(mask)
    ensures (MaskOf(Spread(mask, fields)) == mask && FieldsOf(Spread(mask, fields)) == fields)
      <==> (forall k :: 0 <= k < |fields| ==> fields[k] != 0)
    decreases |mask|
  {
    var g := Spread(mask, fields);
    if forall k :: 0 <= k < |fields| ==> fields[k] != 0 {
      RepackNonzero(mask, fields);
    } else if MaskOf(g) == mask && FieldsOf(g) == fields {
      PackedCanonical(g);
    }
  }

  lemma {:induction false} RepackNonzero(mask: seq<bool>, fields: seq<byte>)
    requires |fields| == BitCount(mask)
    requires forall k :: 0 <= k < |fields| ==> fields[k] != 0
    ensures MaskOf(Spread(mask, fields)) == mask && FieldsOf(Spread(mask, fields)) == fields
    decreases |mask|
  {
    if mask != [] {
      var last := |mask| - 1;
      var n := BitCount(mask[..last]);
      var g := Spread(mask, fields);
      RepackNonzero(mask[..last], fields[..n]);
      SpreadPrefix(mask[..last], fields[..n], fields[n..]);
      assert fields[..n] + fields[n..] == fields;
      assert g[..last] == Spread(mask[..last], fields[..n]);
      assert MaskOf(g)[..last] == MaskOf(g[..last]) == mask[..last];
      assert MaskOf(g) == MaskOf(g)[..last] + [MaskOf(g)[last]];
      assert mask == mask[..last] + [mask[last]];
    }
  }

  /** Which byte is which field: each one that is not zero stands behind those of the bytes below it. */
  lemma {:induction false} FieldAt(g: seq<byte>, k: nat)
    requires k < |g| && g[k] != 0
    ensures var i := |set j | 0 <= j < k && g[j] != 0|;
      i < |FieldsOf(g)| && FieldsOf(g)[i] == g[k]
    decreases |g|
  {
    var last := |g| - 1;
    if k < last {
      FieldAt(g[..last], k);
      assert (set j | 0 <= j < k && g[..last][j] != 0) == (set j | 0 <= j < k && g[j] != 0);
    } else {
      FieldsCounted(g, k);
    }
  }

  lemma {:induction false} FieldsCounted(g: seq<byte>, n: nat)
    requires n <= |g|
    ensures |FieldsOf(g[..n])| == |set j | 0 <= j < n && g[j] != 0|
    decreases n
  {
    if n > 0 {
      FieldsCounted(g, n - 1);
      assert g[..n][..n - 1] == g[..n - 1];
      var before := set j | 0 <= j < n - 1 && g[j] != 0;
      assert (set j | 0 <= j < n && g[j] != 0) == before + if g[n - 1] != 0 then {n - 1} else {};
    }
  }

  // ----- The mask as a byte

  function BitsValue(mask: seq<bool>): (m: nat)
    decreases |mask|
  {
    if mask == [] then 0 else (if mask[0] then 1 else 0) + 2 * BitsValue(mask[1..])
  }

  function MaskBits(m: nat, n: nat): (mask: seq<bool>)
    ensures |mask| == n
  {
    if n == 0 then [] else [m % 2 == 1] + MaskBits(m / 2, n - 1)
  }

  lemma {:induction false} BitsValueBound(mask: seq<bool>)
    ensures BitsValue(mask) < Pow2(|mask|)
    decreases |mask|
  {
    if mask != [] {
      BitsValueBound(mask[1..]);
    }
  }

  lemma {:induction false} MaskRoundTrip(mask: seq<bool>)
    ensures MaskBits(BitsValue(mask), |mask|) == mask
    decreases |mask|
  {
    if mask != [] {
      MaskRoundTrip(mask[1..]);
    }
  }

  function MaskByte(mask: seq<bool>): byte
    requires |mask| == 8
  {
    BitsValueBound(mask);
    assert Pow2(8) == 256;
    BitsValue(mask)
  }

  /** Bit k of the mask byte says whether byte k is not zero. */
  lemma {:induction false} MaskBitIff(g: Guid, k: nat)
    requires k < 8
    ensures Pow2(k) > 0 && (MaskByte(MaskOf(g)) / Pow2(k) % 2 == 1 <==> g[k] != 0)
  {
    hide BitsValue;
    BitAt(MaskOf(g), k);
  }

  lemma {:induction false} BitAt(mask: seq<bool>, k: nat)
    requires k < |mask|
    ensures Pow2(k) > 0 && (BitsValue(mask) / Pow2(k) % 2 == 1 <==> mask[k])
    decreases |mask|
  {
    if k > 0 {
      BitAt(mask[1..], k - 1);
      assert BitsValue(mask) / 2 == BitsValue(mask[1..]);
      DivTwice(BitsValue(mask), 2, Pow2(k - 1));
    }
  }

  // ----- The class

  class WoWGuid {
    var oldguid: Guid
    var guidmask: seq<bool>
    const guidfields: array<byte>
    var fieldcount: nat
    var compiled: bool

    ghost predicate Valid()
      reads this
    {
      && guidfields.Length == 8 && |guidmask| == 8 && fieldcount <= 8
      && (!compiled ==> oldguid == ZERO)
    }

    constructor ()
      ensures Valid() && fresh(guidfields)
    {
      oldguid := ZERO;
      guidmask := seq(8, _ => false);
      guidfields := new byte[8](_ => 0);
      fieldcount, compiled := 0, false;
    }

    method Clear()
      requires Valid()
      modifies this, guidfields
      ensures Valid() && oldguid == ZERO && guidmask == seq(8, _ => false) && fieldcount == 0 && !compiled
    {
      oldguid := ZERO;
      guidmask := seq(8, _ => false);
      forall k | 0 <= k < 8 {
        guidfields[k] := 0;
      }
      compiled := false;
      fieldcount := 0;
    }

    /** Packs an identifier. */
    method InitGuid(guid: Guid)
      requires Valid()
      modifies this, guidfields
      ensures Valid() && oldguid == guid && compiled
      ensures guidmask == MaskOf(guid)
      ensures fieldcount == |FieldsOf(guid)| == BitCount(guidmask) && guidfields[..fieldcount] == FieldsOf(guid)
    {
      Clear();
      oldguid := guid;
      compiled := true;
      CompileByOld();
    }

    method CompileByOld()
      requires Valid() && compiled && guidmask == seq(8, _ => false)
      modifies `guidmask, `fieldcount, guidfields
      ensures Valid()
      ensures guidmask == MaskOf(oldguid)
      ensures fieldcount == |FieldsOf(oldguid)| == BitCount(guidmask)
      ensures guidfields[..fieldcount] == FieldsOf(oldguid)
    {
      fieldcount := 0;
      var x := 0;
      while x < 8
        invariant 0 <= x <= 8 && |guidmask| == 8
        invariant fieldcount == |FieldsOf(oldguid[..x])| <= x
        invariant guidfields[..fieldcount] == FieldsOf(oldguid[..x])
        invariant forall k :: 0 <= k < 8 ==> guidmask[k] == (k < x && oldguid[k] != 0)
      {
        assert oldguid[..x + 1][..x] == oldguid[..x];
        var p := oldguid[x];
        if p != 0 {
          guidfields[fieldcount] := p;
          fieldcount := fieldcount + 1;
          guidmask := guidmask[x := true];
        }
        x := x + 1;
      }
      assert oldguid[..8] == oldguid;
      PackedCanonical(oldguid);
    }

    /** Begins decoding: the mask is known, its fields are still to come. */
    method InitMask(mask: seq<bool>)
      requires Valid() && |mask| == 8
      modifies this, guidfields
      ensures Valid() && guidmask == mask && fieldcount == 0
      ensures compiled <==> BitCount(mask) == 0
      ensures compiled ==> oldguid == Spread(mask, [])
    {
      Clear();
      guidmask := mask;
      if BitCount(guidmask) == 0 {
        CompileByNew();
      }
    }

    /** Takes the next field; the last one completes the identifier. */
    method AppendField(field: byte)
      requires Valid() && !compiled && fieldcount < BitCount(guidmask)
      modifies this, guidfields
      ensures Valid() && guidmask == old(guidmask) && fieldcount == old(fieldcount) + 1
      ensures guidfields[..fieldcount] == old(guidfields[..fieldcount]) + [field]
      ensures compiled <==> fieldcount == BitCount(guidmask)
      ensures compiled ==> oldguid == Spread(guidmask, guidfields[..fieldcount])
    {
      guidfields[fieldcount] := field;
      fieldcount := fieldcount + 1;
      if fieldcount == BitCount(guidmask) {
        CompileByNew();
      }
    }

    method CompileByNew()
      requires Valid() && !compiled && fieldcount == BitCount(guidmask)
      modifies `oldguid, `compiled
      ensures Valid() && compiled && oldguid == Spread(guidmask, guidfields[..fieldcount])
    {
      ghost var fields := guidfields[..fieldcount];
      var j := 0;
      var x := 0;
      while x < 8
        invariant 0 <= x <= 8 && j == BitCount(guidmask[..x]) && |fields| == BitCount(guidmask)
        invariant j <= |fields| && oldguid[..x] == Spread(guidmask[..x], fields)
        invariant forall k :: x <= k < 8 ==> oldguid[k] == 0
      {
        BitCountGrows(guidmask, x + 1);
        assert guidmask[..x + 1][..x] == guidmask[..x];
        if guidmask[x] {
          oldguid := oldguid[x := guidfields[j]];
          j := j + 1;
        }
        assert oldguid[..x + 1] == oldguid[..x] + [oldguid[x]];
        x := x + 1;
      }
      assert guidmask[..8] == guidmask && oldguid[..8] == oldguid;
      compiled := true;
    }
  }

  lemma {:induction false} BitCountGrows(mask: seq<bool>, n: nat)
    requires n <= |mask|
    ensures BitCount(mask[..n]) <= BitCount(mask)
    decreases |mask|
  {
    if n < |mask| {
      BitCountGrows(mask[..|mask| - 1], n);
      assert mask[..|mask| - 1][..n] == mask[..n];
    } else {
      assert mask[..n] == mask;
    }
  }
}
