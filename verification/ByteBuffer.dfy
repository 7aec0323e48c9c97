/** The packet buffer: typed values written one after the other and read back. */
module ByteBuffer {
  import opened Bytes
  import opened WoWGuid

  /** The types that the stream operators read and write. */
  datatype Type =
    | Unsigned(width: nat)
    | Signed(width: nat)
    | Bool
    | Text
    | Identifier
    | Vector(elem: Type)
    | Dict(key: Type, val: Type)

  datatype Value =
    | Number(n: int)
    | Flag(b: bool)
    | Chars(s: seq<byte>)
    | Id(guid: Guid)
    | Many(elems: seq<Value>)
    | Entries(pairs: seq<(Value, Value)>)

  // ----- Machine numbers

  /** Two's complement. */
  function ToUnsigned(n: int, w: nat): (u: nat)
    requires 0 <= n + Pow256(w)
  {
    if n < 0 then n + Pow256(w) else n
  }

  function ToSigned(u: nat, w: nat): int {
    if 2 * u >= Pow256(w) then u - Pow256(w) else u
  }

  // ----- Which values have which type

  predicate Distinct(pairs: seq<(Value, Value)>) {
    forall i, j :: 0 <= i < j < |pairs| ==> pairs[i].0 != pairs[j].0
  }

  predicate HasType(v: Value, t: Type)
    decreases t, 1
  {
    match (t, v)
    case (Unsigned(w), Number(n)) => 0 <= n < Pow256(w)
    case (Signed(w), Number(n)) => 0 <= 2 * n + Pow256(w) && 2 * n < Pow256(w)
    case (Bool, Flag(_)) => true
    case (Text, Chars(s)) => 0 !in s
    case (Identifier, Id(_)) => true
    case (Vector(e), Many(elems)) => |elems| < Pow256(4) && ElemsTyped(elems, e)
    case (Dict(k, e), Entries(pairs)) => |pairs| < Pow256(4) && Distinct(pairs) && PairsTyped(pairs, k, e)
    case _ => false
  }

  predicate ElemsTyped(elems: seq<Value>, e: Type)
    decreases e, 2
  {
    forall i :: 0 <= i < |elems| ==> HasType(elems[i], e)
  }

  predicate PairsTyped(pairs: seq<(Value, Value)>, k: Type, e: Type)
    decreases Dict(k, e), 0
  {
    forall i :: 0 <= i < |pairs| ==> HasType(pairs[i].0, k) && HasType(pairs[i].1, e)
  }

  predicate AllTyped(vs: seq<Value>, ts: seq<Type>) {
    |vs| == |ts| && forall i :: 0 <= i < |vs| ==> HasType(vs[i], ts[i])
  }

  // ----- Writing, as a function

  function EncodeGuid(g: Guid): seq<byte> {
    [MaskByte(MaskOf(g))] + FieldsOf(g)
  }

  function Encode(v: Value, t: Type): seq<byte>
    requires HasType(v, t)
    decreases t, 1, 0
  {
    match t
    case Unsigned(w) => LeBytes(v.n, w)
    case Signed(w) => LeBytes(ToUnsigned(v.n, w), w)
    case Bool => [if v.b then 1 else 0]
    case Text => v.s + [0]
    case Identifier => EncodeGuid(v.guid)
    case Vector(e) => LeBytes(|v.elems|, 4) + EncodeMany(v.elems, e)
    case Dict(k, e) => LeBytes(|v.pairs|, 4) + EncodePairs(v.pairs, k, e)
  }

  function EncodeMany(elems: seq<Value>, e: Type): seq<byte>
    requires ElemsTyped(elems, e)
    decreases e, 2, |elems|
  {
    if elems == [] then []
    else EncodeMany(elems[..|elems| - 1], e) + Encode(elems[|elems| - 1], e)
  }

  function EncodePair(pair: (Value, Value), k: Type, e: Type): seq<byte>
    requires HasType(pair.0, k) && HasType(pair.1, e)
    decreases Dict(k, e), 0, 0
  {
    Encode(pair.0, k) + Encode(pair.1, e)
  }

  function EncodePairs(pairs: seq<(Value, Value)>, k: Type, e: Type): seq<byte>
    requires PairsTyped(pairs, k, e)
    decreases Dict(k, e), 0, |pairs|
  {
    if pairs == [] then []
    else EncodePairs(pairs[..|pairs| - 1], k, e) + EncodePair(pairs[|pairs| - 1], k, e)
  }

  // ----- Reading, as a function: every read moves the position, also past the end

  /** A fixed-width read: zero when the value does not lie wholly inside the buffer. */
  function Peek(buf: seq<byte>, pos: nat, w: nat): nat {
    if pos + w > |buf| then 0 else FromLe(buf[pos..pos + w])
  }

  /** Characters up to the first zero; past the end every character reads as zero. */
  function DecodeText(buf: seq<byte>, pos: nat): (r: (seq<byte>, nat))
    decreases |buf| - pos
  {
    if pos >= |buf| || buf[pos] == 0 then ([], pos + 1)
    else
      var (rest, end) := DecodeText(buf, pos + 1);
      ([buf[pos]] + rest, end)
  }

  function DecodeFields(buf: seq<byte>, pos: nat, n: nat): (fields: seq<byte>)
    ensures |fields| == n
  {
    seq(n, i requires 0 <= i < n => if pos + i < |buf| then buf[pos + i] else 0)
  }

  function DecodeGuid(buf: seq<byte>, pos: nat): (Guid, nat) {
    var mask := MaskBits(Peek(buf, pos, 1), 8);
    (Spread(mask, DecodeFields(buf, pos + 1, BitCount(mask))), pos + 1 + BitCount(mask))
  }

  function Decode(t: Type, buf: seq<byte>, pos: nat): (Value, nat)
    decreases t, 1, 0
  {
    match t
    case Unsigned(w) => (Number(Peek(buf, pos, w)), pos + w)
    case Signed(w) => (Number(ToSigned(Peek(buf, pos, w), w)), pos + w)
    case Bool => (Flag(ToSigned(Peek(buf, pos, 1), 1) > 0), pos + 1)
    case Text => var (s, end) := DecodeText(buf, pos); (Chars(s), end)
    case Identifier => var (g, end) := DecodeGuid(buf, pos); (Id(g), end)
    case Vector(e) => var (elems, end) := DecodeMany(e, Peek(buf, pos, 4), buf, pos + 4); (Many(elems), end)
    case Dict(k, e) => var (pairs, end) := DecodePairs(k, e, Peek(buf, pos, 4), buf, pos + 4); (Entries(pairs), end)
  }

  function DecodeMany(e: Type, n: nat, buf: seq<byte>, pos: nat): (seq<Value>, nat)
    decreases e, 2, n
  {
    if n == 0 then ([], pos)
    else
      var (elems, mid) := DecodeMany(e, n - 1, buf, pos);
      var (v, end) := Decode(e, buf, mid);
      (elems + [v], end)
  }

  /** A key that is already present keeps its first value. */
  function Insert(pairs: seq<(Value, Value)>, k: Value, v: Value): seq<(Value, Value)> {
    if exists i :: 0 <= i < |pairs| && pairs[i].0 == k then pairs else pairs + [(k, v)]
  }

  function DecodePair(k: Type, e: Type, buf: seq<byte>, pos: nat): ((Value, Value), nat)
    decreases Dict(k, e), 0, 0
  {
    var (key, mid) := Decode(k, buf, pos);
    var (val, end) := Decode(e, buf, mid);
    ((key, val), end)
  }

  function DecodePairs(k: Type, e: Type, n: nat, buf: seq<byte>, pos: nat): (seq<(Value, Value)>, nat)
    decreases Dict(k, e), 0, n
  {
    if n == 0 then ([], pos)
    else
      var (pairs, mid) := DecodePairs(k, e, n - 1, buf, pos);
      var (pair, end) := DecodePair(k, e, buf, mid);
      (Insert(pairs, pair.0, pair.1), end)
  }

  // ----- The formats themselves

  /** Each byte of a number: its digit to the base 256, lowest first, of the remainder if it is negative. */
  lemma {:induction false} NumberBytes(n: int, t: Type, k: nat)
    requires t.Unsigned? || t.Signed?
    requires HasType(Number(n), t) && k < t.width
    ensures Pow256(k) > 0 && Pow256(t.width) > 0 && |Encode(Number(n), t)| == t.width
    ensures Encode(Number(n), t)[k] == n % Pow256(t.width) / Pow256(k) % 256
  {
    var w := t.width;
    PowerPositive(w);
    Remainder(n, Pow256(w));
    LeBytesAt(n % Pow256(w), w, k);
  }

  lemma {:induction false} PowerPositive(w: nat)
    ensures Pow256(w) > 0
  {
    FromLeBound(LeBytes(0, w));
  }

  lemma {:induction false} Remainder(n: int, m: nat)
    requires m > 0 && 0 <= n + m && n < m
    ensures n % m == if n < 0 then n + m else n
  {
  }

  /** The bytes of the other values: a flag is one or zero, a string ends with a zero, an identifier has
      the mask of its bytes before those that are not zero, and lists have their length in four bytes,
      lowest first, before their elements in order. */
  lemma {:induction false} OtherBytes(v: Value, t: Type)
    requires HasType(v, t) && !t.Unsigned? && !t.Signed?
    ensures var e := Encode(v, t);
      && (t.Bool? ==> e == if v.b then [1] else [0])
      && (t.Text? ==> |e| == |v.s| + 1 && e[..|v.s|] == v.s && e[|v.s|] == 0)
      && (t.Vector? ==> |e| >= 4 && FromLe(e[..4]) == |v.elems| && e[4..] == EncodeMany(v.elems, t.elem))
      && (t.Dict? ==> |e| >= 4 && FromLe(e[..4]) == |v.pairs| && e[4..] == EncodePairs(v.pairs, t.key, t.val))
  {
    match t
    case Vector(_) => LeRoundTrip(|v.elems|, 4);
    case Dict(_, _) => LeRoundTrip(|v.pairs|, 4);
    case _ =>
  }

  lemma {:induction false} IdentifierBytes(g: Guid, k: nat)
    requires k < 8
    ensures var e := Encode(Id(g), Identifier); var i := |set j | 0 <= j < k && g[j] != 0|;
      && |e| > 0 && Pow2(k) > 0 && (e[0] / Pow2(k) % 2 == 1 <==> g[k] != 0)
      && (g[k] != 0 ==> 1 + i < |e| && e[1 + i] == g[k])
  {
    hide MaskByte, MaskOf, FieldsOf;
    MaskBitIff(g, k);
    if g[k] != 0 {
      FieldAt(g, k);
    }
  }

  /** The element at index i stands behind those before it. */
  lemma {:induction false} ElementAt(elems: seq<Value>, e: Type, i: nat)
    requires ElemsTyped(elems, e) && i < |elems|
    ensures EncodeMany(elems[..i], e) + Encode(elems[i], e) <= EncodeMany(elems, e)
    decreases |elems|
  {
    hide Encode, HasType;
    var n := |elems| - 1;
    if i < n {
      ElementAt(elems[..n], e, i);
      assert elems[..n][..i] == elems[..i];
    }
  }

  /** A list of two short numbers, and a negative number, in bytes. */
  lemma {:induction false} KnownList()
    ensures HasType(Many([Number(258), Number(3)]), Vector(Unsigned(2)))
    ensures Encode(Many([Number(258), Number(3)]), Vector(Unsigned(2))) == [2, 0, 0, 0, 2, 1, 3, 0]
  {
    assert Pow256(2) == 65536;
    assert Pow256(4) == 256 * (256 * Pow256(2));
    var s := [Number(258), Number(3)];
    assert s[..1] == [Number(258)] && s[..1][..0] == [];
    assert LeBytes(258, 2) == [2, 1] && LeBytes(3, 2) == [3, 0];
    assert EncodeMany(s[..1], Unsigned(2)) == [2, 1];
  }

  lemma {:induction false} KnownNegative()
    ensures HasType(Number(-2), Signed(4)) && Encode(Number(-2), Signed(4)) == [254, 255, 255, 255]
  {
    assert Pow256(4) == 0x1_0000_0000;
  }

  // ----- Round trips

  /** The bytes s stand in the buffer at pos. */
  ghost predicate At(buf: seq<byte>, pos: nat, s: seq<byte>) {
    pos + |s| <= |buf| && buf[pos..pos + |s|] == s
  }

  lemma {:induction false} AtParts(buf: seq<byte>, pos: nat, a: seq<byte>, b: seq<byte>)
    requires At(buf, pos, a + b)
    ensures At(buf, pos, a) && At(buf, pos + |a|, b)
  {
    assert buf[pos..pos + |a|] == (a + b)[..|a|];
    assert buf[pos + |a|..pos + |a| + |b|] == (a + b)[|a|..];
  }

  lemma {:induction false} PeekBack(buf: seq<byte>, pos: nat, n: nat, w: nat)
    requires n < Pow256(w) && At(buf, pos, LeBytes(n, w))
    ensures Peek(buf, pos, w) == n
  {
    LeRoundTrip(n, w);
  }

  lemma {:induction false} SignBack(n: int, w: nat)
    requires 0 <= 2 * n + Pow256(w) && 2 * n < Pow256(w)
    ensures 0 <= n + Pow256(w) && ToUnsigned(n, w) < Pow256(w) && ToSigned(ToUnsigned(n, w), w) == n
  {
  }

  /** What a string read gives back is the part before the first zero. */
  lemma {:induction false} TextPrefix(buf: seq<byte>, pos: nat, s: seq<byte>)
    requires At(buf, pos, s + [0])
    ensures 0 !in s ==> DecodeText(buf, pos) == (s, pos + |s| + 1)
    ensures 0 in s ==> DecodeText(buf, pos).0 != s
    decreases |s|
  {
    AtParts(buf, pos, s, [0]);
    if s == [] {
      assert buf[pos] == 0;
    } else {
      assert s + [0] == [s[0]] + (s[1..] + [0]);
      AtParts(buf, pos, [s[0]], s[1..] + [0]);
      assert buf[pos] == s[0];
      TextPrefix(buf, pos + 1, s[1..]);
      assert s == [s[0]] + s[1..];
    }
  }

  /** A string comes back exactly when it holds no zero byte. */
  lemma {:induction false} TextRoundTripIff(pre: seq<byte>, s: seq<byte>, post: seq<byte>)
    ensures DecodeText(pre + (s + [0]) + post, |pre|).0 == s <==> 0 !in s
  {
    TextPrefix(pre + (s + [0]) + post, |pre|, s);
  }

  /** A string read ends on every buffer, truncated or not, at most one step past the end or where it began. */
  lemma {:induction false} TextEnds(buf: seq<byte>, pos: nat)
    ensures var (s, end) := DecodeText(buf, pos);
      end == pos + |s| + 1 && 0 !in s && (end <= |buf| + 1 || end == pos + 1)
    decreases |buf| - pos
  {
    if pos < |buf| && buf[pos] != 0 {
      TextEnds(buf, pos + 1);
    }
  }

  lemma {:induction false} GuidBack(buf: seq<byte>, pos: nat, g: Guid)
    requires At(buf, pos, EncodeGuid(g))
    ensures DecodeGuid(buf, pos) == (g, pos + |EncodeGuid(g)|)
  {
    hide MaskBits, BitsValue, MaskOf, FieldsOf, BitCount, Spread;
    var mask, fields := MaskOf(g), FieldsOf(g);
    AtParts(buf, pos, [MaskByte(mask)], fields);
    assert Peek(buf, pos, 1) == MaskByte(mask) by {
      assert buf[pos..pos + 1] == [MaskByte(mask)];
      FromLeOne(MaskByte(mask));
    }
    MaskRoundTrip(mask);
    UnpackPacked(g);
    assert DecodeFields(buf, pos + 1, |fields|) == fields;
  }

  lemma {:induction false} FromLeOne(c: byte)
    ensures FromLe([c]) == c
  {
  }

  lemma {:induction false} RoundTrip(v: Value, t: Type, buf: seq<byte>, pos: nat)
    requires HasType(v, t) && At(buf, pos, Encode(v, t))
    ensures Decode(t, buf, pos) == (v, pos + |Encode(v, t)|)
    decreases t, 1, 0
  {
    hide Peek, EncodeGuid, DecodeGuid, ToUnsigned, ToSigned, At, LeBytes;
    match t
    case Unsigned(w) =>
      PeekBack(buf, pos, v.n, w);
    case Signed(w) =>
      SignBack(v.n, w);
      PeekBack(buf, pos, ToUnsigned(v.n, w), w);
    case Bool =>
      BoolBack(buf, pos, v.b);
    case Text =>
      TextPrefix(buf, pos, v.s);
    case Identifier =>
      GuidBack(buf, pos, v.guid);
    case Vector(e) =>
      AtParts(buf, pos, LeBytes(|v.elems|, 4), EncodeMany(v.elems, e));
      PeekBack(buf, pos, |v.elems|, 4);
      RoundTripMany(v.elems, e, buf, pos + 4);
    case Dict(k, e) =>
      AtParts(buf, pos, LeBytes(|v.pairs|, 4), EncodePairs(v.pairs, k, e));
      PeekBack(buf, pos, |v.pairs|, 4);
      RoundTripPairs(v.pairs, k, e, buf, pos + 4);
  }

  lemma {:induction false} BoolBack(buf: seq<byte>, pos: nat, b: bool)
    requires At(buf, pos, [if b then 1 else 0])
    ensures ToSigned(Peek(buf, pos, 1), 1) > 0 <==> b
  {
    var c: byte := if b then 1 else 0;
    FromLeOne(c);
  }

  lemma {:induction false} RoundTripMany(elems: seq<Value>, e: Type, buf: seq<byte>, pos: nat)
    requires ElemsTyped(elems, e)
    requires At(buf, pos, EncodeMany(elems, e))
    ensures DecodeMany(e, |elems|, buf, pos) == (elems, pos + |EncodeMany(elems, e)|)
    decreases e, 2, |elems|
  {
    hide Encode, Decode, At, HasType;
    if elems != [] {
      var n := |elems| - 1;
      AtParts(buf, pos, EncodeMany(elems[..n], e), Encode(elems[n], e));
      RoundTripMany(elems[..n], e, buf, pos);
      RoundTrip(elems[n], e, buf, pos + |EncodeMany(elems[..n], e)|);
      assert elems == elems[..n] + [elems[n]];
    }
  }

  lemma {:induction false} RoundTripPair(pair: (Value, Value), k: Type, e: Type, buf: seq<byte>, pos: nat)
    requires HasType(pair.0, k) && HasType(pair.1, e)
    requires At(buf, pos, EncodePair(pair, k, e))
    ensures DecodePair(k, e, buf, pos) == (pair, pos + |EncodePair(pair, k, e)|)
    decreases Dict(k, e), 0, 0
  {
    hide Encode, Decode, At, HasType;
    AtParts(buf, pos, Encode(pair.0, k), Encode(pair.1, e));
    RoundTrip(pair.0, k, buf, pos);
    RoundTrip(pair.1, e, buf, pos + |Encode(pair.0, k)|);
  }

  lemma {:induction false} InsertNew(pairs: seq<(Value, Value)>)
    requires pairs != [] && Distinct(pairs)
    ensures var n := |pairs| - 1; Distinct(pairs[..n]) && Insert(pairs[..n], pairs[n].0, pairs[n].1) == pairs
  {
    var n := |pairs| - 1;
    assert pairs == pairs[..n] + [pairs[n]];
  }

  lemma {:induction false} RoundTripPairs(pairs: seq<(Value, Value)>, k: Type, e: Type, buf: seq<byte>, pos: nat)
    requires PairsTyped(pairs, k, e)
    requires Distinct(pairs) && At(buf, pos, EncodePairs(pairs, k, e))
    ensures DecodePairs(k, e, |pairs|, buf, pos) == (pairs, pos + |EncodePairs(pairs, k, e)|)
    decreases Dict(k, e), 0, |pairs|
  {
    hide EncodePair, DecodePair, At, HasType, Insert, Distinct;
    if pairs != [] {
      var n := |pairs| - 1;
      AtParts(buf, pos, EncodePairs(pairs[..n], k, e), EncodePair(pairs[n], k, e));
      InsertNew(pairs);
      RoundTripPairs(pairs[..n], k, e, buf, pos);
      RoundTripPair(pairs[n], k, e, buf, pos + |EncodePairs(pairs[..n], k, e)|);
    }
  }

  // ----- Lists of values

  function EncodeAll(vs: seq<Value>, ts: seq<Type>): seq<byte>
    requires AllTyped(vs, ts)
    decreases |vs|
  {
    if vs == [] then [] else EncodeAll(vs[..|vs| - 1], ts[..|vs| - 1]) + Encode(vs[|vs| - 1], ts[|vs| - 1])
  }

  function DecodeAll(ts: seq<Type>, buf: seq<byte>, pos: nat): (seq<Value>, nat)
    decreases |ts|
  {
    if ts == [] then ([], pos)
    else
      var (vs, mid) := DecodeAll(ts[..|ts| - 1], buf, pos);
      var (v, end) := Decode(ts[|ts| - 1], buf, mid);
      (vs + [v], end)
  }

  lemma {:induction false} RoundTripAll(vs: seq<Value>, ts: seq<Type>, buf: seq<byte>, pos: nat)
    requires AllTyped(vs, ts)
    requires At(buf, pos, EncodeAll(vs, ts))
    ensures DecodeAll(ts, buf, pos) == (vs, pos + |EncodeAll(vs, ts)|)
    decreases |vs|
  {
    hide Encode, Decode, At, HasType;
    if vs != [] {
      var n := |vs| - 1;
      AtParts(buf, pos, EncodeAll(vs[..n], ts[..n]), Encode(vs[n], ts[n]));
      RoundTripAll(vs[..n], ts[..n], buf, pos);
      RoundTrip(vs[n], ts[n], buf, pos + |EncodeAll(vs[..n], ts[..n])|);
      assert vs == vs[..n] + [vs[n]];
    }
  }

  /** Every list of typed values comes back from a fresh buffer, and the position ends at its end. */
  lemma {:induction false} FreshBufferRoundTrip(vs: seq<Value>, ts: seq<Type>)
    requires AllTyped(vs, ts)
    ensures DecodeAll(ts, EncodeAll(vs, ts), 0) == (vs, |EncodeAll(vs, ts)|)
  {
    var buf := EncodeAll(vs, ts);
    assert buf[0..|buf|] == buf;
    RoundTripAll(vs, ts, buf, 0);
  }

  // ----- The buffer

  const LIMIT: nat := 10_000_000

  /** Data put over a buffer from a position on, growing it with zeros as far as needed. */
  function Overlay(s: seq<byte>, at: nat, data: seq<byte>): (t: seq<byte>)
    ensures |t| == if data == [] || at + |data| <= |s| then |s| else at + |data|
  {
    seq(if data == [] || at + |data| <= |s| then |s| else at + |data|,
      i requires i >= 0 => if at <= i < at + |data| then data[i - at] else if i < |s| then s[i] else 0)
  }

  lemma {:induction false} OverlayTwice(s: seq<byte>, at: nat, a: seq<byte>, b: seq<byte>)
    ensures Overlay(Overlay(s, at, a), at + |a|, b) == Overlay(s, at, a + b)
  {
  }

  /** At the end of a buffer, putting data over it appends. */
  lemma {:induction false} OverlayAppends(s: seq<byte>, data: seq<byte>)
    ensures Overlay(s, |s|, data) == s + data
  {
  }

  lemma {:induction false} OverlayLength(s: seq<byte>, at: nat, data: seq<byte>)
    ensures |Overlay(s, at, data)| == if data == [] || at + |data| <= |s| then |s| else at + |data|
  {
  }

  lemma {:induction false} OneByte(buf: seq<byte>, pos: nat)
    ensures Peek(buf, pos, 1) == if pos < |buf| then buf[pos] else 0
  {
    if pos < |buf| {
      assert buf[pos..pos + 1] == [buf[pos]];
      FromLeOne(buf[pos]);
    }
  }

  lemma {:induction false} ManyGrows(elems: seq<Value>, e: Type, i: nat)
    requires ElemsTyped(elems, e)
    requires i <= |elems|
    ensures |EncodeMany(elems[..i], e)| <= |EncodeMany(elems, e)|
    decreases |elems|
  {
    hide Encode, HasType;
    if i < |elems| {
      ManyGrows(elems[..|elems| - 1], e, i);
      assert elems[..|elems| - 1][..i] == elems[..i];
    } else {
      assert elems[..i] == elems;
    }
  }

  lemma {:induction false} PairsGrow(pairs: seq<(Value, Value)>, k: Type, e: Type, i: nat)
    requires PairsTyped(pairs, k, e) && i <= |pairs|
    ensures PairsTyped(pairs[..i], k, e)
    ensures |EncodePairs(pairs[..i], k, e)| <= |EncodePairs(pairs, k, e)|
    decreases |pairs|
  {
    hide EncodePair, HasType;
    if i < |pairs| {
      PairsGrow(pairs[..|pairs| - 1], k, e, i);
      assert pairs[..|pairs| - 1][..i] == pairs[..i];
    } else {
      assert pairs[..i] == pairs;
    }
  }

  lemma {:induction false} NoPairsYet(pairs: seq<(Value, Value)>, k: Type, e: Type)
    requires PairsTyped(pairs, k, e)
    ensures PairsTyped(pairs[..0], k, e) && EncodePairs(pairs[..0], k, e) == []
  {
  }

  lemma {:induction false} NextPair(pairs: seq<(Value, Value)>, k: Type, e: Type, i: nat)
    requires PairsTyped(pairs, k, e) && i < |pairs|
    ensures PairsTyped(pairs[..i], k, e) && PairsTyped(pairs[..i + 1], k, e)
    ensures HasType(pairs[i].0, k) && HasType(pairs[i].1, e)
    ensures EncodePairs(pairs[..i + 1], k, e) == EncodePairs(pairs[..i], k, e) + EncodePair(pairs[i], k, e)
    ensures |EncodePairs(pairs[..i + 1], k, e)| <= |EncodePairs(pairs, k, e)|
  {
    hide EncodePair, HasType;
    PairsGrow(pairs, k, e, i + 1);
    assert pairs[..i + 1][..i] == pairs[..i];
  }

  class ByteBuffer {
    var storage: seq<byte>
    var rpos: nat
    var wpos: nat

    constructor ()
      ensures storage == [] && rpos == wpos == 0
    {
      storage, rpos, wpos := [], 0, 0;
    }

    method Append(src: seq<byte>)
      requires src != [] ==> |storage| < LIMIT
      modifies `storage, `wpos
      ensures storage == Overlay(old(storage), old(wpos), src) && wpos == old(wpos) + |src|
    {
      if |src| == 0 {
        return;
      }
      if |storage| < wpos + |src| {
        storage := storage + seq(wpos + |src| - |storage|, _ => 0);
      }
      storage := storage[..wpos] + src + storage[wpos + |src|..];
      wpos := wpos + |src|;
    }

    method ReadNumber(w: nat) returns (n: nat)
      modifies `rpos
      ensures n == Peek(storage, old(rpos), w) && rpos == old(rpos) + w
    {
      n := if rpos + w > |storage| then 0 else FromLe(storage[rpos..rpos + w]);
      rpos := rpos + w;
    }

    method ReadText() returns (s: seq<byte>)
      modifies `rpos
      ensures (s, rpos) == DecodeText(storage, old(rpos))
    {
      s := [];
      assert s + DecodeText(storage, rpos).0 == DecodeText(storage, rpos).0;
      while true
        invariant old(rpos) <= rpos
        invariant var (rest, end) := DecodeText(storage, rpos);
          (s + rest, end) == DecodeText(storage, old(rpos))
        decreases |storage| - rpos
      {
        OneByte(storage, rpos);
        var c := ReadNumber(1);
        if c == 0 {
          assert s + [] == s;
          break;
        }
        assert s + ([c] + DecodeText(storage, rpos).0) == s + [c] + DecodeText(storage, rpos).0;
        s := s + [c];
      }
    }

    method WriteGuid(g: Guid)
      requires |storage| < LIMIT && wpos + |EncodeGuid(g)| < LIMIT
      modifies `storage, `wpos
      ensures storage == Overlay(old(storage), old(wpos), EncodeGuid(g)) && wpos == old(wpos) + |EncodeGuid(g)|
    {
      hide BitsValue, Overlay;
      var w := new WoWGuid();
      w.InitGuid(g);
      OverlayTwice(storage, wpos, [MaskByte(w.guidmask)], w.guidfields[..w.fieldcount]);
      OverlayLength(storage, wpos, [MaskByte(w.guidmask)]);
      Append([MaskByte(w.guidmask)]);
      Append(w.guidfields[..w.fieldcount]);
    }

    method ReadGuid() returns (g: Guid)
      modifies `rpos
      ensures (g, rpos) == DecodeGuid(storage, old(rpos))
    {
      hide MaskBits, Spread, BitCount, Peek;
      var m := ReadNumber(1);
      var mask := MaskBits(m, 8);
      var w := new WoWGuid();
      w.InitMask(mask);
      var i := 0;
      ghost var fields := DecodeFields(storage, old(rpos) + 1, BitCount(mask));
      while i < BitCount(mask)
        invariant 0 <= i <= BitCount(mask) && w.Valid() && fresh(w) && fresh(w.guidfields)
        invariant w.guidmask == mask && w.fieldcount == i && rpos == old(rpos) + 1 + i
        invariant w.compiled <==> i == BitCount(mask)
        invariant w.guidfields[..i] == fields[..i]
        invariant w.compiled ==> w.oldguid == Spread(mask, fields[..i])
      {
        OneByte(storage, rpos);
        var field := ReadNumber(1);
        w.AppendField(field);
        assert fields[..i + 1] == fields[..i] + [fields[i]];
        i := i + 1;
      }
      assert fields[..i] == fields;
      g := w.oldguid;
    }

    /** Writes a value by the operator of its type. */
    method Write(v: Value, t: Type)
      requires HasType(v, t)
      requires |storage| < LIMIT && wpos + |Encode(v, t)| < LIMIT
      modifies `storage, `wpos
      ensures storage == Overlay(old(storage), old(wpos), Encode(v, t)) && wpos == old(wpos) + |Encode(v, t)|
      decreases t, 1, 0
    {
      hide Overlay, EncodeGuid, LeBytes;
      match t {
        case Unsigned(w) => Append(LeBytes(v.n, w));
        case Signed(w) => Append(LeBytes(ToUnsigned(v.n, w), w));
        case Bool => Append([if v.b then 1 else 0]);
        case Text =>
          OverlayTwice(storage, wpos, v.s, [0]);
          OverlayLength(storage, wpos, v.s);
          Append(v.s);
          Append([0]);
        case Identifier =>
          WriteGuid(v.guid);
        case Vector(e) =>
          OverlayTwice(storage, wpos, LeBytes(|v.elems|, 4), EncodeMany(v.elems, e));
          OverlayLength(storage, wpos, LeBytes(|v.elems|, 4));
          Append(LeBytes(|v.elems|, 4));
          WriteMany(v.elems, e);
        case Dict(k, e) =>
          OverlayTwice(storage, wpos, LeBytes(|v.pairs|, 4), EncodePairs(v.pairs, k, e));
          OverlayLength(storage, wpos, LeBytes(|v.pairs|, 4));
          Append(LeBytes(|v.pairs|, 4));
          WritePairs(v.pairs, k, e);
      }
    }

    method WriteMany(elems: seq<Value>, e: Type)
      requires ElemsTyped(elems, e)
      requires |storage| < LIMIT && wpos + |EncodeMany(elems, e)| < LIMIT
      modifies `storage, `wpos
      ensures storage == Overlay(old(storage), old(wpos), EncodeMany(elems, e))
      ensures wpos == old(wpos) + |EncodeMany(elems, e)|
      decreases e, 2, |elems|
    {
      hide Overlay, Encode, HasType;
      ghost var s, w := storage, wpos;
      var i := 0;
      OverlayOfNothing(s, w);
      while i < |elems|
        invariant 0 <= i <= |elems|
        invariant storage == Overlay(s, w, EncodeMany(elems[..i], e)) && wpos == w + |EncodeMany(elems[..i], e)|
      {
        ghost var a, b := EncodeMany(elems[..i], e), Encode(elems[i], e);
        assert elems[..i + 1][..i] == elems[..i];
        ManyGrows(elems, e, i + 1);
        OverlayLength(s, w, a);
        OverlayTwice(s, w, a, b);
        Write(elems[i], e);
        i := i + 1;
      }
      assert elems[..i] == elems;
    }

    method WritePair(pair: (Value, Value), k: Type, e: Type)
      requires HasType(pair.0, k) && HasType(pair.1, e)
      requires |storage| < LIMIT && wpos + |EncodePair(pair, k, e)| < LIMIT
      modifies `storage, `wpos
      ensures storage == Overlay(old(storage), old(wpos), EncodePair(pair, k, e))
      ensures wpos == old(wpos) + |EncodePair(pair, k, e)|
      decreases Dict(k, e), 0, 0
    {
      hide Overlay, Encode, HasType;
      OverlayLength(storage, wpos, Encode(pair.0, k));
      OverlayTwice(storage, wpos, Encode(pair.0, k), Encode(pair.1, e));
      Write(pair.0, k);
      Write(pair.1, e);
    }

    method WritePairs(pairs: seq<(Value, Value)>, k: Type, e: Type)
      requires PairsTyped(pairs, k, e)
      requires |storage| < LIMIT && wpos + |EncodePairs(pairs, k, e)| < LIMIT
      modifies `storage, `wpos
      ensures storage == Overlay(old(storage), old(wpos), EncodePairs(pairs, k, e))
      ensures wpos == old(wpos) + |EncodePairs(pairs, k, e)|
      decreases Dict(k, e), 0, 1
    {
      hide Overlay, EncodePair, EncodePairs, HasType, PairsTyped;
      OverlayOfNothing(storage, wpos);
      NoPairsYet(pairs, k, e);
      ghost var s, w, done: seq<byte> := storage, wpos, [];
      var i := 0;
      while i < |pairs|
        invariant 0 <= i <= |pairs| && PairsTyped(pairs[..i], k, e)
        invariant done == EncodePairs(pairs[..i], k, e)
        invariant storage == Overlay(s, w, done) && wpos == w + |done|
      {
        NextPair(pairs, k, e, i);
        ghost var more := EncodePair(pairs[i], k, e);
        OverlayLength(s, w, done);
        OverlayTwice(s, w, done, more);
        WritePair(pairs[i], k, e);
        done := done + more;
        i := i + 1;
      }
      assert pairs[..i] == pairs;
    }

    /** Reads a value by the operator of its type. */
    method Read(t: Type) returns (v: Value)
      modifies `rpos
      ensures (v, rpos) == Decode(t, storage, old(rpos))
      decreases t, 1, 0
    {
      hide Peek, DecodeGuid;
      match t {
        case Unsigned(w) =>
          var n := ReadNumber(w);
          v := Number(n);
        case Signed(w) =>
          var n := ReadNumber(w);
          v := Number(ToSigned(n, w));
        case Bool =>
          var n := ReadNumber(1);
          v := Flag(ToSigned(n, 1) > 0);
        case Text =>
          var s := ReadText();
          v := Chars(s);
        case Identifier =>
          var g := ReadGuid();
          v := Id(g);
        case Vector(e) =>
          var n := ReadNumber(4);
          var elems := ReadMany(e, n);
          v := Many(elems);
        case Dict(k, e) =>
          var n := ReadNumber(4);
          var pairs := ReadPairs(k, e, n);
          v := Entries(pairs);
      }
    }

    method ReadMany(e: Type, n: nat) returns (elems: seq<Value>)
      modifies `rpos
      ensures (elems, rpos) == DecodeMany(e, n, storage, old(rpos))
      decreases e, 2, n
    {
      hide Decode;
      elems := [];
      var i := 0;
      while i < n
        invariant 0 <= i <= n && (elems, rpos) == DecodeMany(e, i, storage, old(rpos))
      {
        var v := Read(e);
        elems := elems + [v];
        i := i + 1;
      }
    }

    method ReadPairs(k: Type, e: Type, n: nat) returns (pairs: seq<(Value, Value)>)
      modifies `rpos
      ensures (pairs, rpos) == DecodePairs(k, e, n, storage, old(rpos))
      decreases Dict(k, e), 0, n
    {
      hide Decode, Insert;
      pairs := [];
      var i := 0;
      while i < n
        invariant 0 <= i <= n && (pairs, rpos) == DecodePairs(k, e, i, storage, old(rpos))
      {
        var key := Read(k);
        var val := Read(e);
        assert ((key, val), rpos) == DecodePair(k, e, storage, DecodePairs(k, e, i, storage, old(rpos)).1);
        pairs := Insert(pairs, key, val);
        i := i + 1;
      }
    }
  }

  lemma {:induction false} OverlayOfNothing(s: seq<byte>, at: nat)
    ensures Overlay(s, at, []) == s
  {
  }

  method WriteAll(b: ByteBuffer, vs: seq<Value>, ts: seq<Type>)
    requires AllTyped(vs, ts)
    requires b.storage == [] && b.wpos == 0 && |EncodeAll(vs, ts)| < LIMIT
    modifies b`storage, b`wpos
    ensures b.storage == EncodeAll(vs, ts)
  {
    hide Encode, HasType, Overlay;
    var i := 0;
    while i < |vs|
      invariant 0 <= i <= |vs|
      invariant b.wpos == |b.storage| && b.storage == EncodeAll(vs[..i], ts[..i])
    {
      assert vs[..i + 1][..i] == vs[..i] && ts[..i + 1][..i] == ts[..i];
      AllGrows(vs, ts, i + 1);
      OverlayAppends(b.storage, Encode(vs[i], ts[i]));
      b.Write(vs[i], ts[i]);
      i := i + 1;
    }
    assert vs[..i] == vs && ts[..i] == ts;
  }

  method ReadAll(b: ByteBuffer, ts: seq<Type>) returns (back: seq<Value>)
    modifies b`rpos
    ensures (back, b.rpos) == DecodeAll(ts, b.storage, old(b.rpos))
  {
    hide Decode;
    back := [];
    var i := 0;
    while i < |ts|
      invariant 0 <= i <= |ts| && (back, b.rpos) == DecodeAll(ts[..i], b.storage, old(b.rpos))
    {
      assert ts[..i + 1][..i] == ts[..i];
      var v := b.Read(ts[i]);
      back := back + [v];
      i := i + 1;
    }
    assert ts[..i] == ts;
  }

  /** A run on a fresh buffer: all values are written, then read back by their types. */
  method WriteThenRead(vs: seq<Value>, ts: seq<Type>) returns (b: ByteBuffer, back: seq<Value>)
    requires AllTyped(vs, ts)
    requires |EncodeAll(vs, ts)| < LIMIT
    ensures back == vs && b.rpos == |b.storage| && b.storage == EncodeAll(vs, ts)
  {
    hide Encode, Decode, HasType;
    b := new ByteBuffer();
    WriteAll(b, vs, ts);
    FreshBufferRoundTrip(vs, ts);
    back := ReadAll(b, ts);
  }

  lemma {:induction false} AllGrows(vs: seq<Value>, ts: seq<Type>, i: nat)
    requires AllTyped(vs, ts)
    requires i <= |vs|
    ensures |EncodeAll(vs[..i], ts[..i])| <= |EncodeAll(vs, ts)|
    decreases |vs|
  {
    hide Encode, HasType;
    if i < |vs| {
      var n := |vs| - 1;
      AllGrows(vs[..n], ts[..n], i);
      assert vs[..n][..i] == vs[..i] && ts[..n][..i] == ts[..i];
    } else {
      assert vs[..i] == vs && ts[..i] == ts;
    }
  }
}
