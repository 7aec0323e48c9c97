/** The stream cipher of the logon link: key schedule and in-place processing. */
module Rc4 {
  import opened Bytes

  /** Exclusive or of the lowest k bits. */
  function XorBits(x: nat, y: nat, k: nat): (z: nat) {
    if k == 0 then 0 else (x + y) % 2 + 2 * XorBits(x / 2, y / 2, k - 1)
  }

  lemma {:induction false} XorBitsBound(x: nat, y: nat, k: nat)
    ensures XorBits(x, y, k) < Pow2(k)
    decreases k
  {
    if k > 0 {
      XorBitsBound(x / 2, y / 2, k - 1);
    }
  }

  lemma {:induction false} ParityCancels(x: nat, y: nat, z: nat)
    requires z % 2 == (x + y) % 2
    ensures (z + y) % 2 == x % 2
  {
  }

  lemma {:induction false} XorBitsCancels(x: nat, y: nat, k: nat)
    requires x < Pow2(k)
    ensures XorBits(XorBits(x, y, k), y, k) == x
    decreases k
  {
    if k > 0 {
      var z := XorBits(x, y, k);
      assert z / 2 == XorBits(x / 2, y / 2, k - 1) && z % 2 == (x + y) % 2;
      XorBitsCancels(x / 2, y / 2, k - 1);
      ParityCancels(x, y, z);
    }
  }

  function Xor(x: byte, y: byte): byte {
    XorBitsBound(x, y, 8);
    assert Pow2(8) == 256;
    XorBits(x, y, 8)
  }

  /** Addition as unsigned char does it. */
  function Plus(a: byte, b: byte): byte {
    (a + b) % 256
  }

  /** The state of an engine as a value: the permutation and the two running indexes. */
  datatype Cipher = Cipher(perm: seq<byte>, index1: byte, index2: byte)

  predicate WellFormed(c: Cipher) {
    |c.perm| == 256
  }

  function Swap(s: seq<byte>, a: byte, b: byte): (t: seq<byte>)
    requires |s| == 256
    ensures |t| == 256
  {
    s[a := s[b]][b := s[a]]
  }

  /** One turn of the generator. */
  function Advance(c: Cipher): (d: Cipher)
    requires WellFormed(c)
    ensures WellFormed(d)
  {
    var i := Plus(c.index1, 1);
    var j := Plus(c.index2, c.perm[i]);
    Cipher(Swap(c.perm, i, j), i, j)
  }

  /** The byte of key stream that a state just turned gives. */
  function KeyByte(c: Cipher): byte
    requires WellFormed(c)
  {
    c.perm[Plus(c.perm[c.index1], c.perm[c.index2])]
  }

  /** The state after n bytes. */
  function After(c: Cipher, n: nat): (d: Cipher)
    requires WellFormed(c)
    ensures WellFormed(d)
    decreases n
  {
    if n == 0 then c else After(Advance(c), n - 1)
  }

  /** The next n bytes of key stream. */
  function KeyStream(c: Cipher, n: nat): (ks: seq<byte>)
    requires WellFormed(c)
    ensures |ks| == n
    decreases n
  {
    if n == 0 then [] else [KeyByte(Advance(c))] + KeyStream(Advance(c), n - 1)
  }

  function Mask(data: seq<byte>, ks: seq<byte>): (out: seq<byte>)
    requires |data| == |ks|
    ensures |out| == |data|
  {
    seq(|data|, k requires 0 <= k < |data| => Xor(data[k], ks[k]))
  }

  /** A message under the key stream; encryption and decryption alike. */
  function Crypt(c: Cipher, data: seq<byte>): (out: seq<byte>)
    requires WellFormed(c)
    ensures |out| == |data|
  {
    Mask(data, KeyStream(c, |data|))
  }

  // ----- Properties of the stream

  lemma {:induction false} AfterSplits(c: Cipher, m: nat, n: nat)
    requires WellFormed(c)
    ensures After(c, m + n) == After(After(c, m), n)
    decreases m
  {
    hide Advance;
    if m > 0 {
      AfterSplits(Advance(c), m - 1, n);
    }
  }

  lemma {:induction false} KeyStreamSplits(c: Cipher, m: nat, n: nat)
    requires WellFormed(c)
    ensures KeyStream(c, m + n) == KeyStream(c, m) + KeyStream(After(c, m), n)
    decreases m
  {
    hide Advance, KeyByte;
    if m > 0 {
      KeyStreamSplits(Advance(c), m - 1, n);
    }
  }

  lemma {:induction false} MaskSplits(a: seq<byte>, b: seq<byte>, ka: seq<byte>, kb: seq<byte>)
    requires |a| == |ka| && |b| == |kb|
    ensures Mask(a + b, ka + kb) == Mask(a, ka) + Mask(b, kb)
  {
    hide Xor;
  }

  /** Processing in pieces equals processing whole. */
  lemma {:induction false} CryptSplits(c: Cipher, a: seq<byte>, b: seq<byte>)
    requires WellFormed(c)
    ensures Crypt(c, a + b) == Crypt(c, a) + Crypt(After(c, |a|), b)
  {
    hide Mask, KeyStream, After;
    KeyStreamSplits(c, |a|, |b|);
    MaskSplits(a, b, KeyStream(c, |a|), KeyStream(After(c, |a|), |b|));
  }

  lemma {:induction false} OneByteMore(c: Cipher, data: seq<byte>, i: nat)
    requires WellFormed(c) && i < |data|
    ensures After(c, i + 1) == Advance(After(c, i))
    ensures Crypt(c, data[..i + 1]) == Crypt(c, data[..i]) + [Xor(data[i], KeyByte(Advance(After(c, i))))]
  {
    hide Advance, KeyByte, Xor;
    AfterSplits(c, i, 1);
    CryptSplits(c, data[..i], [data[i]]);
    assert data[..i + 1] == data[..i] + [data[i]];
    assert KeyStream(After(c, i), 1) == [KeyByte(Advance(After(c, i)))];
  }

  /** Any cutting of a message into chunks, one call of the engine for each. */
  function CryptChunks(c: Cipher, chunks: seq<seq<byte>>): (seq<byte>, Cipher)
    requires WellFormed(c)
    decreases |chunks|
  {
    if chunks == [] then ([], c)
    else
      var (rest, last) := CryptChunks(After(c, |chunks[0]|), chunks[1..]);
      (Crypt(c, chunks[0]) + rest, last)
  }

  function Flatten(chunks: seq<seq<byte>>): seq<byte> {
    if chunks == [] then [] else chunks[0] + Flatten(chunks[1..])
  }

  lemma {:induction false} ChunkingIsInvisible(c: Cipher, chunks: seq<seq<byte>>)
    requires WellFormed(c)
    ensures CryptChunks(c, chunks) == (Crypt(c, Flatten(chunks)), After(c, |Flatten(chunks)|))
    decreases |chunks|
  {
    if chunks != [] {
      var d := After(c, |chunks[0]|);
      ChunkingIsInvisible(d, chunks[1..]);
      CryptSplits(c, chunks[0], Flatten(chunks[1..]));
      AfterSplits(c, |chunks[0]|, |Flatten(chunks[1..])|);
    }
  }

  lemma {:induction false} XorCancels(x: byte, y: byte)
    ensures Xor(Xor(x, y), y) == x
  {
    assert Pow2(8) == 256;
    XorBitsCancels(x, y, 8);
  }

  lemma {:induction false} XorBitsCommutes(x: nat, y: nat, k: nat)
    ensures XorBits(x, y, k) == XorBits(y, x, k)
    decreases k
  {
    if k > 0 {
      XorBitsCommutes(x / 2, y / 2, k - 1);
    }
  }

  lemma {:induction false} XorDetermines(x: byte, y: byte, z: byte)
    ensures Xor(Xor(x, y), z) == x <==> y == z
  {
    hide XorBits;
    XorCancels(x, y);
    XorCancels(Xor(x, y), z);
    XorBitsCommutes(x, y, 8);
    XorBitsCommutes(x, z, 8);
    XorCancels(y, x);
    XorCancels(z, x);
  }

  /** Engines in different states undo each other on a message exactly when their key streams happen
      to agree over its length. */
  lemma {:induction false} UndoesIffKeysAgree(c: Cipher, d: Cipher, data: seq<byte>)
    requires WellFormed(c) && WellFormed(d)
    ensures Crypt(c, Crypt(d, data)) == data <==> KeyStream(c, |data|) == KeyStream(d, |data|)
  {
    hide Xor, KeyStream;
    var n := |data|;
    var kc, kd := KeyStream(c, n), KeyStream(d, n);
    var twice := Crypt(c, Crypt(d, data));
    forall i | 0 <= i < n
      ensures twice[i] == data[i] <==> kc[i] == kd[i]
    {
      XorDetermines(data[i], kd[i], kc[i]);
    }
    if twice == data {
      assert forall i :: 0 <= i < n ==> kc[i] == kd[i];
    }
  }

  /** Two engines in equal states undo each other. */
  lemma {:induction false} CryptUndoes(c: Cipher, data: seq<byte>)
    requires WellFormed(c)
    ensures Crypt(c, Crypt(c, data)) == data
  {
    hide KeyStream, Xor;
    var ks := KeyStream(c, |data|);
    forall k | 0 <= k < |data|
      ensures Mask(Mask(data, ks), ks)[k] == data[k]
    {
      XorCancels(data[k], ks[k]);
    }
  }

  /** Sender and receiver may cut the message differently and still agree. */
  lemma {:induction false} EnginesUndoEachOther(c: Cipher, sent: seq<seq<byte>>, received: seq<seq<byte>>)
    requires WellFormed(c)
    requires Flatten(received) == CryptChunks(c, sent).0
    ensures CryptChunks(c, received).0 == Flatten(sent)
    ensures CryptChunks(c, received).1 == CryptChunks(c, sent).1
  {
    ChunkingIsInvisible(c, sent);
    ChunkingIsInvisible(c, received);
    CryptUndoes(c, Flatten(sent));
  }

  // ----- The permutation

  /** Every byte value stands at exactly one place. */
  ghost predicate IsPermutation(s: seq<byte>) {
    |s| == 256 && forall v: byte :: multiset(s)[v] == 1
  }

  lemma {:induction false} SwapKeepsPermutation(s: seq<byte>, a: byte, b: byte)
    requires |s| == 256
    ensures multiset(Swap(s, a, b)) == multiset(s)
  {
  }

  lemma {:induction false} AfterKeepsPermutation(c: Cipher, n: nat)
    requires IsPermutation(c.perm)
    ensures IsPermutation(After(c, n).perm)
    decreases n
  {
    if n > 0 {
      var i := Plus(c.index1, 1);
      SwapKeepsPermutation(c.perm, i, Plus(c.index2, c.perm[i]));
      AfterKeepsPermutation(Advance(c), n - 1);
    }
  }

  /** The bytes 0, 1, ..., n - 1. */
  function Identity(n: nat): (s: seq<byte>)
    requires n <= 256
    ensures |s| == n
  {
    if n == 0 then [] else Identity(n - 1) + [n - 1]
  }

  lemma {:induction false} IdentityCounts(n: nat, v: byte)
    requires n <= 256
    ensures multiset(Identity(n))[v] == if v < n then 1 else 0
  {
    if n > 0 {
      IdentityCounts(n - 1, v);
    }
  }

  /** The key byte that the n-th swap uses. */
  function KeyAt(key: seq<byte>, n: nat): byte
    requires key != []
  {
    key[n % |key|]
  }

  /** The state of the key schedule after n of its 256 swaps: permutation and index j. */
  function Scheduled(key: seq<byte>, n: nat): (r: (seq<byte>, byte))
    requires key != [] && n <= 256
    ensures |r.0| == 256
  {
    if n == 0 then (Identity(256), 0)
    else
      var (p, j) := Scheduled(key, n - 1);
      var j' := Plus(j, Plus(p[n - 1], KeyAt(key, n - 1)));
      (Swap(p, n - 1, j'), j')
  }

  function KeySchedule(key: seq<byte>): (c: Cipher)
    requires key != []
    ensures WellFormed(c)
  {
    Cipher(Scheduled(key, 256).0, 0, 0)
  }

  lemma {:induction false} ScheduledIsPermutation(key: seq<byte>, n: nat)
    requires key != [] && n <= 256
    ensures IsPermutation(Scheduled(key, n).0)
  {
    if n == 0 {
      forall v: byte ensures multiset(Identity(256))[v] == 1 {
        IdentityCounts(256, v);
      }
    } else {
      ScheduledIsPermutation(key, n - 1);
      var (p, j) := Scheduled(key, n - 1);
      SwapKeepsPermutation(p, n - 1, Plus(j, Plus(p[n - 1], KeyAt(key, n - 1))));
    }
  }

  /** After Setup and any number of processed bytes the table is a permutation of 0..255. */
  lemma {:induction false} PermutationOnEveryRun(key: seq<byte>, n: nat)
    requires key != []
    ensures IsPermutation(After(KeySchedule(key), n).perm)
  {
    ScheduledIsPermutation(key, 256);
    AfterKeepsPermutation(KeySchedule(key), n);
  }

  // ----- The engine

  // ----- Which stream it is

  function BitOf(x: nat, k: nat): nat {
    if k == 0 then x % 2 else BitOf(x / 2, k - 1)
  }

  /** Each bit of the exclusive or is set when exactly one of the two is. */
  lemma {:induction false} XorBitsAt(x: nat, y: nat, n: nat, k: nat)
    requires k < n
    ensures BitOf(XorBits(x, y, n), k) == if BitOf(x, k) == BitOf(y, k) then 0 else 1
    decreases k
  {
    XorBitsParts(x, y, n);
    if k > 0 {
      hide XorBits;
      XorBitsAt(x / 2, y / 2, n - 1, k - 1);
    }
  }

  lemma {:induction false} XorBitsParts(x: nat, y: nat, n: nat)
    requires n > 0
    ensures XorBits(x, y, n) % 2 == (if x % 2 == y % 2 then 0 else 1) && XorBits(x, y, n) / 2 == XorBits(x / 2, y / 2, n - 1)
  {
    Halve((x + y) % 2, XorBits(x / 2, y / 2, n - 1));
  }

  lemma {:induction false} Halve(low: nat, high: nat)
    requires low < 2
    ensures (low + 2 * high) % 2 == low && (low + 2 * high) / 2 == high
  {
  }

  lemma {:induction false} XorAt(x: byte, y: byte, k: nat)
    requires k < 8
    ensures BitOf(Xor(x, y), k) == if BitOf(x, k) == BitOf(y, k) then 0 else 1
  {
    XorBitsAt(x, y, 8, k);
  }

  /** Of states fresh from set-up, those with a zero in place 2 and no 2 in place 1 give zero as their
      second byte. */
  lemma {:induction false} SecondByteZero(c: Cipher)
    requires IsPermutation(c.perm) && c.index1 == c.index2 == 0 && c.perm[2] == 0 && c.perm[1] != 2
    ensures KeyStream(c, 2)[1] == 0
  {
    var first := Advance(c);
    var second := Advance(first);
    var x := c.perm[1];
    PermutationInjective(c.perm, 1, 2);
    assert first.index1 == 1 && first.index2 == x && first.perm[x] == x && first.perm[2] == 0;
    assert second.index1 == 2 && second.index2 == x && second.perm[2] == x && second.perm[x] == 0;
    assert KeyStream(c, 2)[1] == KeyStream(first, 1)[0] == KeyByte(second);
  }

  lemma {:induction false} PermutationInjective(s: seq<byte>, i: nat, j: nat)
    requires IsPermutation(s) && i < j < 256
    ensures s[i] != s[j]
  {
    var v := s[j];
    assert s == s[..j] + [v] + s[j + 1..];
    assert multiset(s) == multiset(s[..j]) + multiset{v} + multiset(s[j + 1..]);
    assert multiset(s)[v] == multiset(s[..j])[v] + 1 + multiset(s[j + 1..])[v];
    assert s[..j][i] == s[i] && s[i] in multiset(s[..j]);
  }

  /** States whose second index is one ahead of the first and points to a one. */
  predicate Trapped(c: Cipher)
    requires WellFormed(c)
  {
    c.index2 == Plus(c.index1, 1) && c.perm[c.index2] == 1
  }

  /** Turning a state keeps it in or out of the trap. */
  lemma {:induction false} TrapClosed(c: Cipher)
    requires WellFormed(c)
    ensures Trapped(c) <==> Trapped(Advance(c))
  {
  }

  /** So the generator is never trapped, whatever the key and however much it has given. */
  lemma {:induction false} NeverTrapped(key: seq<byte>, n: nat)
    requires key != []
    ensures !Trapped(After(KeySchedule(key), n))
    decreases n
  {
    hide Advance, Scheduled;
    if n > 0 {
      NeverTrapped(key, n - 1);
      AfterSplits(KeySchedule(key), n - 1, 1);
      TrapClosed(After(KeySchedule(key), n - 1));
    }
  }

  lemma {:induction false} IdentityAt(n: nat, k: nat)
    requires k < n <= 256
    ensures Identity(n)[k] == k
    decreases n
  {
    if k < n - 1 {
      IdentityAt(n - 1, k);
    }
  }

  lemma {:induction false} IdentityIs()
    ensures forall k :: 0 <= k < 256 ==> Identity(256)[k] == k
  {
    forall k | 0 <= k < 256
      ensures Identity(256)[k] == k
    {
      IdentityAt(256, k);
    }
  }

  lemma {:induction false} ScheduledUnfolds(key: seq<byte>, n: nat)
    requires key != [] && 0 < n <= 256
    ensures var (p, j) := Scheduled(key, n - 1);
      var j' := Plus(j, Plus(p[n - 1], KeyAt(key, n - 1)));
      Scheduled(key, n).1 == j' && forall k :: 0 <= k < 256 ==>
        Scheduled(key, n).0[k] == if k == n - 1 then p[j'] else if k == j' then p[n - 1] else p[k]
  {
  }

  /** A key that makes every swap one of a place with itself: the permutation stays the identity. */
  lemma {:induction false} IdentityKey(key: seq<byte>, n: nat)
    requires |key| == 256 && n <= 256 && forall i :: 0 <= i < 256 ==> key[i] == if i == 0 then 0 else (257 - i) % 256
    ensures forall k :: 0 <= k < 256 ==> Scheduled(key, n).0[k] == k
    ensures Scheduled(key, n).1 == if n == 0 then 0 else n - 1
    decreases n
  {
    if n == 0 {
      IdentityIs();
    } else {
      IdentityKey(key, n - 1);
      ScheduledUnfolds(key, n);
      hide Scheduled, Plus;
      SmallIndex(n - 1);
      assert KeyAt(key, n - 1) == key[n - 1];
      BackToPlace(n);
    }
  }

  lemma {:induction false} SmallIndex(i: nat)
    requires i < 256
    ensures i % 256 == i
  {
  }

  lemma {:induction false} BackToPlace(n: nat)
    requires 0 < n <= 256
    ensures var i: byte := n - 1;
      Plus(if n == 1 then 0 else n - 2, Plus(i, if i == 0 then 0 else (257 - i) % 256)) == i
  {
  }

  /** A key of ones, of whatever length, carries the zero up: after n swaps the first n values have
      moved down by one place. */
  lemma {:induction false} OnesCarry(key: seq<byte>, n: nat)
    requires key != [] && n <= 255 && forall i :: 0 <= i < |key| ==> key[i] == 1
    ensures Scheduled(key, n).1 == n
    ensures forall k :: 0 <= k < 256 ==> Scheduled(key, n).0[k] == if k < n then k + 1 else if k == n then 0 else k
    decreases n
  {
    if n == 0 {
      IdentityIs();
    } else {
      hide Scheduled, KeyAt, Plus;
      OnesCarry(key, n - 1);
      ScheduledUnfolds(key, n);
      AllOnes(key, n - 1);
      OneFurther(n);
      var p, q := Scheduled(key, n - 1).0, Scheduled(key, n).0;
      assert p[n - 1] == 0 && p[n] == n;
      forall k | 0 <= k < 256
        ensures q[k] == if k < n then k + 1 else if k == n then 0 else k
      {
        assert q[k] == if k == n - 1 then p[n] else if k == n then p[n - 1] else p[k];
      }
    }
  }

  lemma {:induction false} OneFurther(n: nat)
    requires 0 < n <= 255
    ensures Plus(n - 1, Plus(0, 1)) == n
  {
  }

  lemma {:induction false} AllOnes(key: seq<byte>, n: nat)
    requires key != [] && forall i :: 0 <= i < |key| ==> key[i] == 1
    ensures KeyAt(key, n) == 1
  {
  }

  lemma {:induction false} OnesSchedule(key: seq<byte>)
    requires key != [] && forall i :: 0 <= i < |key| ==> key[i] == 1
    ensures var c := KeySchedule(key);
      && c.index1 == c.index2 == 0 && c.perm[0] == 0 && c.perm[255] == 1
      && forall k :: 1 <= k < 255 ==> c.perm[k] == k + 1
  {
    OnesCarry(key, 255);
    ScheduledUnfolds(key, 256);
    AllOnes(key, 255);
    hide Scheduled, KeyAt;
  }

  /** And its stream begins with 6, 8, 14, 14. */
  lemma {:induction false} OnesStream(key: seq<byte>)
    requires key != [] && forall i :: 0 <= i < |key| ==> key[i] == 1
    ensures KeyStream(KeySchedule(key), 4) == [6, 8, 14, 14]
  {
    var c0 := KeySchedule(key);
    OnesSchedule(key);
    hide KeySchedule, Advance, KeyByte, KeyStream;
    var c1, c2 := Advance(c0), Advance(Advance(c0));
    var c3, c4 := Advance(c2), Advance(Advance(c2));
    TurnGives(c0, 1, 2, 2, 3, 6);
    TurnGives(c1, 2, 4, 2, 5, 8);
    TurnGives(c2, 3, 8, 4, 9, 14);
    TurnGives(c3, 4, 10, 2, 11, 14);
    FourBytes(c0);
  }

  /** A turn of which the two indexes and the two values that change places are known. */
  lemma {:induction false} TurnGives(c: Cipher, i: byte, j: byte, a: byte, b: byte, out: byte)
    requires WellFormed(c) && i != j && c.perm[i] == a && c.perm[j] == b
    requires Plus(c.index1, 1) == i && Plus(c.index2, a) == j && Plus(a, b) !in {i, j} && c.perm[Plus(a, b)] == out
    ensures Advance(c) == Cipher(c.perm[i := b][j := a], i, j) && KeyByte(Advance(c)) == out
  {
  }

  lemma {:induction false} FourBytes(c: Cipher)
    requires WellFormed(c)
    ensures var c1 := Advance(c); var c2 := Advance(c1); var c3 := Advance(c2); var c4 := Advance(c3);
      KeyStream(c, 4) == [KeyByte(c1), KeyByte(c2), KeyByte(c3), KeyByte(c4)]
  {
    hide Advance, KeyByte;
    var c1 := Advance(c);
    var c2 := Advance(c1);
    var c3 := Advance(c2);
    assert KeyStream(c3, 1) == [KeyByte(Advance(c3))] + KeyStream(Advance(c3), 0);
    assert KeyStream(c2, 2) == [KeyByte(c3)] + KeyStream(c3, 1);
    assert KeyStream(c1, 3) == [KeyByte(c2)] + KeyStream(c2, 2);
  }

  class RC4Engine {
    const perm: array<byte>
    var index1: byte
    var index2: byte

    ghost predicate Valid()
      reads this
    {
      perm.Length == 256
    }

    ghost function State(): (c: Cipher)
      reads this, perm
      requires Valid()
      ensures WellFormed(c)
    {
      Cipher(perm[..], index1, index2)
    }

    constructor ()
      ensures Valid() && fresh(perm)
    {
      perm := new byte[256];
      index1 := 0;
      index2 := 0;
    }

    method Setup(keybytes: seq<byte>)
      requires Valid() && keybytes != []
      modifies this, perm
      ensures Valid() && State() == KeySchedule(keybytes)
    {
      var i := 0;
      while i < 256
        invariant 0 <= i <= 256
        invariant perm[..i] == Identity(i)
      {
        perm[i] := i;
        assert perm[..i + 1] == perm[..i] + [perm[i]];
        i := i + 1;
      }
      assert perm[..] == perm[..256];
      index1 := 0;
      index2 := 0;
      var j: byte := 0;
      i := 0;
      while i < 256
        invariant 0 <= i <= 256
        invariant (perm[..], j) == Scheduled(keybytes, i)
        invariant index1 == 0 && index2 == 0
      {
        j := Plus(j, Plus(perm[i], KeyAt(keybytes, i)));
        var k := perm[i];
        perm[i] := perm[j];
        perm[j] := k;
        i := i + 1;
      }
    }

    /** The body of the processing loop for one byte. */
    method Next(c: byte) returns (out: byte)
      requires Valid()
      modifies this, perm
      ensures State() == Advance(old(State()))
      ensures out == Xor(c, KeyByte(State()))
    {
      index1 := Plus(index1, 1);
      index2 := Plus(index2, perm[index1]);
      var k := perm[index1];
      perm[index1] := perm[index2];
      perm[index2] := k;
      var j := Plus(perm[index1], perm[index2]);
      out := Xor(c, perm[j]);
    }

    /** Input and output may be the same array. */
    method Process(input: array<byte>, output: array<byte>, len: nat)
      requires Valid() && input != perm && output != perm
      requires len <= input.Length && len <= output.Length
      modifies this, perm, output
      ensures Valid() && State() == After(old(State()), len)
      ensures output[..len] == Crypt(old(State()), old(input[..len]))
      ensures output[len..] == old(output[len..])
    {
      ghost var start, plain := State(), input[..];
      assert After(start, 0) == start && Crypt(start, plain[..0]) == [];
      hide Advance, After, Crypt, KeyByte, Xor;
      var i := 0;
      while i < len
        invariant 0 <= i <= len && Valid()
        invariant State() == After(start, i)
        invariant output[..i] == Crypt(start, plain[..i])
        invariant forall k :: i <= k < output.Length ==> output[k] == old(output[k])
        invariant forall k :: i <= k < input.Length ==> input[k] == plain[k]
      {
        OneByteMore(start, plain, i);
        var out := Next(input[i]);
        output[i] := out;
        i := i + 1;
      }
    }
  }
}
