/** The key agreement of the logon: the server's formulas against the client's, for every modulus,
    generator and secret. */
module Srp6 {
  import opened Bytes

  function Pow(b: int, e: nat): int {
    if e == 0 then 1 else b * Pow(b, e - 1)
  }

  /** Modular exponentiation as the big-number library gives it. */
  function ModExp(b: int, e: nat, n: int): (r: int)
    requires n > 0
    ensures 0 <= r < n
  {
    Pow(b, e) % n
  }

  // ----- Powers

  lemma {:induction false} PowAdd(b: int, m: nat, n: nat)
    ensures Pow(b, m + n) == Pow(b, m) * Pow(b, n)
    decreases m
  {
    if m > 0 {
      PowAdd(b, m - 1, n);
      Associate(b, Pow(b, m - 1), Pow(b, n));
    }
  }

  lemma {:induction false} Associate(x: int, y: int, z: int)
    ensures x * y * z == x * (y * z)
  {
  }

  lemma {:induction false} PowMul(b: int, m: nat, n: nat)
    ensures m * n >= 0
    ensures Pow(Pow(b, m), n) == Pow(b, m * n)
    decreases n
  {
    if n > 0 {
      PowMul(b, m, n - 1);
      PowAdd(b, m, m * (n - 1));
      assert m + m * (n - 1) == m * n;
    }
  }

  lemma {:induction false} PowProduct(a: int, b: int, e: nat)
    ensures Pow(a * b, e) == Pow(a, e) * Pow(b, e)
    decreases e
  {
    if e > 0 {
      PowProduct(a, b, e - 1);
      Rearrange(a, b, Pow(a, e - 1), Pow(b, e - 1));
    }
  }

  lemma {:induction false} Rearrange(a: int, b: int, c: int, d: int)
    ensures a * b * (c * d) == a * c * (b * d)
  {
    Associate(a, b, c * d);
    Associate(b, c, d);
    assert b * c == c * b;
    Associate(c, b, d);
    Associate(a, c, b * d);
  }

  // ----- Congruence

  predicate Cong(x: int, y: int, n: int)
    requires n > 0
  {
    x % n == y % n
  }

  lemma {:induction false} RemainderIsUnique(x: int, q: int, r: int, n: int)
    requires n > 0 && 0 <= r < n && x == q * n + r
    ensures x % n == r
  {
    var q', r' := x / n, x % n;
    assert x == q' * n + r';
    if q < q' {
      Gap(q, q', n);
    } else if q' < q {
      Gap(q', q, n);
    }
  }

  lemma {:induction false} Gap(a: int, b: int, n: int)
    requires a < b && n > 0
    ensures a * n + n <= b * n
  {
    NonNegativeProduct(b - a - 1, n);
    Distribute(b, a, n);
    Distribute(b - a, 1, n);
  }

  lemma {:induction false} NonNegativeProduct(x: nat, y: nat)
    ensures x * y >= 0
  {
  }

  lemma {:induction false} AddMultiple(x: int, k: int, n: int)
    requires n > 0
    ensures Cong(x + k * n, x, n)
  {
    var q, r := x / n, x % n;
    assert (q + k) * n == q * n + k * n;
    RemainderIsUnique(x + k * n, q + k, r, n);
  }

  /** Congruent numbers differ by a multiple. */
  lemma {:induction false} CongMultiple(x: int, y: int, n: int) returns (k: int)
    requires n > 0 && Cong(x, y, n)
    ensures x == y + k * n
  {
    k := x / n - y / n;
    assert k * n == x / n * n - y / n * n;
  }

  lemma {:induction false} CongMul(a: int, b: int, c: int, d: int, n: int)
    requires n > 0 && Cong(a, b, n) && Cong(c, d, n)
    ensures Cong(a * c, b * d, n)
  {
    var i := CongMultiple(a, b, n);
    var j := CongMultiple(c, d, n);
    Expand(b, i, d, j, n);
    AddMultiple(b * d, b * j + i * d + i * j * n, n);
  }

  lemma {:induction false} Expand(b: int, i: int, d: int, j: int, n: int)
    ensures (b + i * n) * (d + j * n) == b * d + (b * j + i * d + i * j * n) * n
  {
    assert (b + i * n) * (d + j * n) == b * d + b * (j * n) + i * n * d + i * n * (j * n);
    assert b * (j * n) == b * j * n;
    assert i * n * d == i * d * n;
    assert i * n * (j * n) == i * j * n * n;
  }

  lemma {:induction false} Distribute(i: int, j: int, n: int)
    ensures (i + j) * n == i * n + j * n && (i - j) * n == i * n - j * n
  {
  }

  lemma {:induction false} CongAdd(a: int, b: int, c: int, d: int, n: int)
    requires n > 0 && Cong(a, b, n) && Cong(c, d, n)
    ensures Cong(a + c, b + d, n)
  {
    hide Cong;
    var i := CongMultiple(a, b, n);
    var j := CongMultiple(c, d, n);
    Distribute(i, j, n);
    AddMultiple(b + d, i + j, n);
  }

  lemma {:induction false} CongSubtract(a: int, b: int, c: int, d: int, n: int)
    requires n > 0 && Cong(a, b, n) && Cong(c, d, n)
    ensures Cong(a - c, b - d, n)
  {
    hide Cong;
    var i := CongMultiple(a, b, n);
    var j := CongMultiple(c, d, n);
    Distribute(i, j, n);
    AddMultiple(b - d, i - j, n);
  }

  lemma {:induction false} CongPow(a: int, b: int, e: nat, n: int)
    requires n > 0 && Cong(a, b, n)
    ensures Cong(Pow(a, e), Pow(b, e), n)
    decreases e
  {
    hide Cong;
    if e > 0 {
      CongPow(a, b, e - 1, n);
      CongMul(a, b, Pow(a, e - 1), Pow(b, e - 1), n);
    } else {
      CongSelf(1, n);
    }
  }

  lemma {:induction false} CongSelf(x: int, n: int)
    requires n > 0
    ensures Cong(x, x, n)
  {
  }

  /** A remainder is congruent to the number. */
  lemma {:induction false} CongMod(x: int, n: int)
    requires n > 0
    ensures Cong(x % n, x, n)
  {
    RemainderIsUnique(x % n, 0, x % n, n);
  }

  // ----- The two sides

  function Verifier(g: int, x: nat, n: int): int
    requires n > 0
  {
    ModExp(g, x, n)
  }

  function ServerPublic(g: int, v: int, b: nat, n: int): nat
    requires n > 0
  {
    (v * 3 + ModExp(g, b, n)) % n
  }

  function ServerSecret(a: int, v: int, u: nat, b: nat, n: int): nat
    requires n > 0
  {
    ModExp(a * ModExp(v, u, n), b, n)
  }

  /** The client's formula, section 2.6 of RFC 5054 with the multiplier 3. */
  function ClientSecret(serverPublic: int, g: int, a: nat, x: nat, u: nat, n: int): nat
    requires n > 0
  {
    assert u * x >= 0;
    ModExp(serverPublic - 3 * Pow(g, x), a + u * x, n)
  }

  /** The server's value is the generator to the power (a + x u) b. */
  lemma {:induction false} ServerMeaning(g: int, a: nat, x: nat, u: nat, b: nat, n: int)
    requires n > 0
    ensures x * u >= 0 && (a + x * u) * b >= 0
    ensures ServerSecret(ModExp(g, a, n), Verifier(g, x, n), u, b, n) == Pow(g, (a + x * u) * b) % n
  {
    hide Cong;
    var A, v := ModExp(g, a, n), Verifier(g, x, n);
    PowMul(g, x, u);
    PowMul(g, a + x * u, b);
    CongMod(Pow(g, a), n);
    CongMod(Pow(g, x), n);
    CongPow(v, Pow(g, x), u, n);
    CongMod(Pow(v, u), n);
    CongTrans(ModExp(v, u, n), Pow(v, u), Pow(g, x * u), n);
    CongMul(A, Pow(g, a), ModExp(v, u, n), Pow(g, x * u), n);
    PowAdd(g, a, x * u);
    CongPow(A * ModExp(v, u, n), Pow(g, a + x * u), b, n);
    CongRemainders(Pow(A * ModExp(v, u, n), b), Pow(g, (a + x * u) * b), n);
  }

  lemma {:induction false} CongTrans(x: int, y: int, z: int, n: int)
    requires n > 0 && Cong(x, y, n) && Cong(y, z, n)
    ensures Cong(x, z, n)
  {
  }

  lemma {:induction false} CongRemainders(x: int, y: int, n: int)
    requires n > 0 && Cong(x, y, n)
    ensures x % n == y % n
  {
  }

  /** So is the client's, from the public value the server sent; its base may be negative. */
  lemma {:induction false} ClientMeaning(g: int, a: nat, x: nat, u: nat, b: nat, n: int)
    requires n > 0
    ensures u * x >= 0 && b * (a + u * x) >= 0
    ensures ClientSecret(ServerPublic(g, Verifier(g, x, n), b, n), g, a, x, u, n) == Pow(g, b * (a + u * x)) % n
  {
    hide Cong;
    assert u * x >= 0;
    var v := Verifier(g, x, n);
    var B := ServerPublic(g, v, b, n);
    CongMod(Pow(g, x), n);
    CongSelf(3, n);
    CongMul(v, Pow(g, x), 3, 3, n);
    CongMod(Pow(g, b), n);
    CongAdd(v * 3, Pow(g, x) * 3, ModExp(g, b, n), Pow(g, b), n);
    CongMod(v * 3 + ModExp(g, b, n), n);
    CongTrans(B, v * 3 + ModExp(g, b, n), Pow(g, x) * 3 + Pow(g, b), n);
    CongSelf(3 * Pow(g, x), n);
    CongSubtract(B, Pow(g, x) * 3 + Pow(g, b), 3 * Pow(g, x), 3 * Pow(g, x), n);
    CongPow(B - 3 * Pow(g, x), Pow(g, b), a + u * x, n);
    PowMul(g, b, a + u * x);
    CongRemainders(Pow(B - 3 * Pow(g, x), a + u * x), Pow(g, b * (a + u * x)), n);
  }

  /** Both sides arrive at the same secret, for every modulus, generator, password value, scrambler
      and pair of private exponents. */
  lemma {:induction false} Agreement(g: int, a: nat, x: nat, u: nat, b: nat, n: int)
    requires n > 0
    ensures var v := Verifier(g, x, n);
      ServerSecret(ModExp(g, a, n), v, u, b, n) == ClientSecret(ServerPublic(g, v, b, n), g, a, x, u, n)
  {
    ServerMeaning(g, a, x, u, b, n);
    ClientMeaning(g, a, x, u, b, n);
    assert (a + x * u) * b == b * (a + u * x);
  }

  /** The handler takes any public value: one that is a multiple of the modulus fixes the secret,
      whatever the verifier is. */
  lemma {:induction false} MultipleFixesSecret(k: int, v: int, u: nat, b: nat, n: int)
    requires n > 0
    ensures ServerSecret(k * n, v, u, b, n) == if b == 0 then 1 % n else 0
  {
    hide Cong;
    var w := ModExp(v, u, n);
    Associate(k, n, w);
    Associate(k, w, n);
    assert k * n * w == k * w * n;
    AddMultiple(0, k * w, n);
    CongPow(k * n * w, 0, b, n);
    CongRemainders(Pow(k * n * w, b), Pow(0, b), n);
  }

  // ----- The session key

  /** The bytes at even places, or at odd ones. */
  function Every(t: seq<byte>, odd: nat): (h: seq<byte>)
    requires odd <= 1 && |t| % 2 == 0
    ensures |h| == |t| / 2
  {
    seq(|t| / 2, i requires 0 <= i < |t| / 2 => t[2 * i + odd])
  }

  function Interleave(even: seq<byte>, odd: seq<byte>): (t: seq<byte>)
    requires |even| == |odd|
    ensures |t| == 2 * |even|
  {
    seq(2 * |even|, i requires 0 <= i < 2 * |even| => if i % 2 == 0 then even[i / 2] else odd[i / 2])
  }

  /** Splitting and interleaving are inverse, so the key takes in every byte of the secret. */
  lemma {:induction false} InterleaveUndoesSplit(t: seq<byte>, even: seq<byte>, odd: seq<byte>)
    requires |t| % 2 == 0 && |even| == |odd|
    ensures Interleave(Every(t, 0), Every(t, 1)) == t
    ensures Every(Interleave(even, odd), 0) == even && Every(Interleave(even, odd), 1) == odd
  {
    forall i | 0 <= i < |t|
      ensures Interleave(Every(t, 0), Every(t, 1))[i] == t[i]
    {
      assert i == 2 * (i / 2) + i % 2;
    }
    forall i | 0 <= i < |even|
      ensures Every(Interleave(even, odd), 0)[i] == even[i] && Every(Interleave(even, odd), 1)[i] == odd[i]
    {
      assert (2 * i) / 2 == i && (2 * i + 1) / 2 == i && (2 * i) % 2 == 0 && (2 * i + 1) % 2 == 1;
    }
  }

  /** The bytes that a big number hands out: no more than it needs, lowest first. */
  function Significant(n: nat): seq<byte> {
    if n == 0 then [] else [n % 256] + Significant(n / 256)
  }

  /** What is copied from there: behind the number's own bytes, whatever memory holds at that place. */
  function Copied(n: nat, k: nat, slack: seq<byte>): (t: seq<byte>)
    requires |slack| == k
    ensures |t| == k
  {
    var s := Significant(n);
    seq(k, i requires 0 <= i < k => if i < |s| then s[i] else slack[i])
  }

  /** The number fills all the bytes copied, or memory holds zeros behind it. */
  ghost predicate Clean(n: nat, k: nat, slack: seq<byte>)
    requires |slack| == k
  {
    forall i :: |Significant(n)| <= i < k ==> slack[i] == 0
  }

  lemma {:induction false} SignificantAt(n: nat, k: nat, i: nat)
    requires i < k
    ensures LeBytes(n, k)[i] == if i < |Significant(n)| then Significant(n)[i] else 0
    decreases k
  {
    if i > 0 {
      SignificantAt(n / 256, k - 1, i - 1);
    }
  }

  /** The copy is the number's fixed-width form exactly when it is clean. */
  lemma {:induction false} CopiedIff(n: nat, k: nat, slack: seq<byte>)
    requires |slack| == k
    ensures Copied(n, k, slack) == LeBytes(n, k) <==> Clean(n, k, slack)
  {
    forall i | 0 <= i < k
      ensures LeBytes(n, k)[i] == if i < |Significant(n)| then Significant(n)[i] else 0
    {
      SignificantAt(n, k, i);
    }
    if Copied(n, k, slack) == LeBytes(n, k) {
      forall i | |Significant(n)| <= i < k
        ensures slack[i] == 0
      {
        assert Copied(n, k, slack)[i] == slack[i];
      }
    }
  }

  /** Read back as a number, the copy is the number exactly when it is clean. */
  lemma {:induction false} SeenIff(n: nat, k: nat, slack: seq<byte>)
    requires |slack| == k && n < Pow256(k)
    ensures FromLe(Copied(n, k, slack)) == n <==> Clean(n, k, slack)
  {
    CopiedIff(n, k, slack);
    LeRoundTrip(n, k);
    BytesAreLe(Copied(n, k, slack));
  }

  /** What memory holds behind the bytes of the public value sent, of the secret, of the digest and
      of the session key stored. */
  datatype Memory = Memory(shown: seq<byte>, beyond: seq<byte>, after: seq<byte>, stored: seq<byte>)

  predicate Fits(m: Memory) {
    |m.shown| == |m.beyond| == 32 && |m.after| == 20 && |m.stored| == 40
  }

  /** The number fills so many bytes. */
  predicate Full(n: nat, k: nat) {
    |Significant(n)| == k
  }

  lemma {:induction false} SignificantBound(n: nat, k: nat)
    requires n < Pow256(k)
    ensures |Significant(n)| <= k
    decreases k
  {
    if k > 0 && n > 0 {
      SignificantBound(n / 256, k - 1);
    }
  }

  lemma {:induction false} FullIsFixed(n: nat, k: nat)
    requires Full(n, k)
    ensures Significant(n) == LeBytes(n, k)
  {
    forall i | 0 <= i < k
      ensures LeBytes(n, k)[i] == Significant(n)[i]
    {
      SignificantAt(n, k, i);
    }
  }

  /** What a hash takes in of a number: all bytes of the width agreed, as RFC 5054 pads it, or as the
      server has it only those the number needs. */
  function Fed(n: nat, k: nat, pads: bool): seq<byte> {
    if pads then LeBytes(n, k) else Significant(n)
  }

  lemma {:induction false} FedBound(n: nat, k: nat)
    requires n < Pow256(k)
    ensures |Fed(n, k, false)| <= k == |Fed(n, k, true)|
    ensures Fed(n, k, false) == Fed(n, k, true) <==> Full(n, k)
    ensures Full(n, k) <==> |Fed(n, k, false)| == k
  {
    SignificantBound(n, k);
    if Full(n, k) {
      FullIsFixed(n, k);
    }
  }

  /** A number's own bytes: they give it back, and none is spent on a leading zero. */
  lemma {:induction false} SignificantReads(n: nat)
    ensures FromLe(Significant(n)) == n
    ensures n > 0 ==> Significant(n)[|Significant(n)| - 1] != 0
    decreases n
  {
    if n > 0 {
      SignificantReads(n / 256);
      assert Significant(n)[1..] == Significant(n / 256);
      assert n == n % 256 + 256 * (n / 256);
    }
  }

  lemma {:induction false} FedReads(n: nat, k: nat, pads: bool)
    requires n < Pow256(k)
    ensures FromLe(Fed(n, k, pads)) == n
  {
    SignificantReads(n);
    LeRoundTrip(n, k);
  }

  /** What a copy amounts to: the number, and above its own bytes what memory held. */
  lemma {:induction false} CopiedReads(n: nat, k: nat, slack: seq<byte>)
    requires |slack| == k && n < Pow256(k)
    ensures |Significant(n)| <= k
    ensures FromLe(Copied(n, k, slack)) == n + Pow256(|Significant(n)|) * FromLe(slack[|Significant(n)|..])
  {
    hide LeBytes, FromLe;
    SignificantBound(n, k);
    SignificantReads(n);
    FromLeConcat(Significant(n), slack[|Significant(n)|..]);
    assert Copied(n, k, slack) == Significant(n) + slack[|Significant(n)|..];
  }

  /** Foreign code and data, taken as they come: the hash, the numbers made from modulus and base and
      from the user's name, and the salt. */
  datatype Foreign = Foreign(sha: seq<byte> -> seq<byte>, group: nat, user: nat, salt: nat)

  ghost predicate HashSized(f: Foreign) {
    forall s :: |f.sha(s)| == 20
  }

  ghost predicate Sized(f: Foreign) {
    && HashSized(f)
    && f.group < Pow256(20) && f.user < Pow256(20) && f.salt < Pow256(32)
  }

  function ScrambleInput(A: nat, B: nat, pads: bool): seq<byte> {
    Fed(A, 32, pads) + Fed(B, 32, pads)
  }

  /** The scrambler, made from the two public values. */
  function Scramble(f: Foreign, A: nat, B: nat, pads: bool): nat {
    FromLe(f.sha(ScrambleInput(A, B, pads)))
  }

  function ProofInput(f: Foreign, A: nat, B: nat, key: nat, pads: bool): seq<byte> {
    Fed(f.group, 20, pads) + Fed(f.user, 20, pads) + Fed(f.salt, 32, pads) + ScrambleInput(A, B, pads) + Fed(key, 40, pads)
  }

  /** The client's proof, which the server makes for itself and compares. */
  function Proof(f: Foreign, A: nat, B: nat, key: nat, pads: bool): seq<byte> {
    f.sha(ProofInput(f, A, B, key, pads))
  }

  /** The numbers hashed for the scrambler: the client's public value below, the server's above it. */
  lemma {:induction false} ScrambleReads(A: nat, B: nat, pads: bool)
    requires A < Pow256(32) && B < Pow256(32)
    ensures FromLe(ScrambleInput(A, B, pads)) == A + Pow256(|Fed(A, 32, pads)|) * B
    ensures |ScrambleInput(A, B, true)| == 64
    ensures FromLe(ScrambleInput(A, B, true)[..32]) == A && FromLe(ScrambleInput(A, B, true)[32..]) == B
  {
    hide Fed, FromLe;
    FedReads(A, 32, pads);
    FedReads(B, 32, pads);
    FedReads(A, 32, true);
    FedReads(B, 32, true);
    FedBound(A, 32);
    FedBound(B, 32);
    FromLeConcat(Fed(A, 32, pads), Fed(B, 32, pads));
    assert ScrambleInput(A, B, true)[..32] == Fed(A, 32, true);
    assert ScrambleInput(A, B, true)[32..] == Fed(B, 32, true);
  }

  /** Server and client hash the same bytes for the scrambler exactly when the client sees the right
      public value or, if it pads, when both public values fill their width. */
  lemma {:induction false} ScrambleInputsIff(A: nat, B: nat, slack: seq<byte>, pads: bool)
    requires A < Pow256(32) && B < Pow256(32) && |slack| == 32
    ensures var seen := FromLe(Copied(B, 32, slack));
      ScrambleInput(A, B, false) == ScrambleInput(A, seen, pads) <==>
        if pads then Full(A, 32) && Full(B, 32) else Clean(B, 32, slack)
  {
    hide Copied, Significant, LeBytes, FromLe;
    var seen := FromLe(Copied(B, 32, slack));
    SeenIff(B, 32, slack);
    FedBound(A, 32);
    FedBound(B, 32);
    if pads {
      if Full(B, 32) {
        assert Clean(B, 32, slack);
      }
    } else if ScrambleInput(A, B, false) == ScrambleInput(A, seen, false) {
      assert Significant(B) == ScrambleInput(A, B, false)[|Significant(A)|..] == Significant(seen);
      SignificantDetermines(B, seen);
    }
  }

  lemma {:induction false} SignificantDetermines(n: nat, k: nat)
    requires Significant(n) == Significant(k)
    ensures n == k
    decreases n
  {
    if n > 0 {
      assert Significant(n)[0] == Significant(k)[0] && Significant(n)[1..] == Significant(k)[1..];
      SignificantDetermines(n / 256, k / 256);
    }
  }

  /** For the proof a client that pads hashes the server's bytes exactly when every number fills its width. */
  lemma {:induction false} ProofInputsIff(f: Foreign, A: nat, B: nat, key: nat)
    requires Sized(f) && A < Pow256(32) && B < Pow256(32) && key < Pow256(40)
    ensures ProofInput(f, A, B, key, false) == ProofInput(f, A, B, key, true) <==>
      Full(f.group, 20) && Full(f.user, 20) && Full(f.salt, 32) && Full(A, 32) && Full(B, 32) && Full(key, 40)
  {
    hide Significant, LeBytes, Fed;
    FedBound(f.group, 20);
    FedBound(f.user, 20);
    FedBound(f.salt, 32);
    FedBound(A, 32);
    FedBound(B, 32);
    FedBound(key, 40);
    LengthsAdd(f, A, B, key, false);
    LengthsAdd(f, A, B, key, true);
  }

  /** The numbers hashed for the proof, from the lowest bytes up: those made from modulus and base and
      from the user's name, the salt, the two public values and the session key. */
  lemma {:induction false} ProofReads(f: Foreign, A: nat, B: nat, key: nat, pads: bool)
    requires Sized(f) && A < Pow256(32) && B < Pow256(32) && key < Pow256(40)
    ensures FromLe(ProofInput(f, A, B, key, pads)) ==
      Above(f.group, 20, pads, Above(f.user, 20, pads, Above(f.salt, 32, pads, Above(A, 32, pads, Above(B, 32, pads, key)))))
  {
    hide Fed, FromLe, Above;
    var six := Fed(key, 40, pads);
    var five := Fed(B, 32, pads) + six;
    var four := Fed(A, 32, pads) + five;
    var three := Fed(f.salt, 32, pads) + four;
    var two := Fed(f.user, 20, pads) + three;
    FedReads(key, 40, pads);
    OneAbove(B, 32, pads, six);
    OneAbove(A, 32, pads, five);
    OneAbove(f.salt, 32, pads, four);
    OneAbove(f.user, 20, pads, three);
    OneAbove(f.group, 20, pads, two);
    assert ProofInput(f, A, B, key, pads) == Fed(f.group, 20, pads) + two;
  }

  /** A number with another one above the bytes it is fed as. */
  function Above(n: nat, k: nat, pads: bool, higher: nat): nat {
    n + Pow256(|Fed(n, k, pads)|) * higher
  }

  lemma {:induction false} OneAbove(n: nat, k: nat, pads: bool, s: seq<byte>)
    requires n < Pow256(k)
    ensures FromLe(Fed(n, k, pads) + s) == Above(n, k, pads, FromLe(s))
  {
    FedReads(n, k, pads);
    FromLeConcat(Fed(n, k, pads), s);
  }

  /** Padded, each of the six numbers has its place. */
  lemma {:induction false} PaddedProofReads(f: Foreign, A: nat, B: nat, key: nat)
    requires Sized(f) && A < Pow256(32) && B < Pow256(32) && key < Pow256(40)
    ensures var p := ProofInput(f, A, B, key, true);
      && |p| == 176 && FromLe(p[..20]) == f.group && FromLe(p[20..40]) == f.user && FromLe(p[40..72]) == f.salt
      && FromLe(p[72..104]) == A && FromLe(p[104..136]) == B && FromLe(p[136..]) == key
  {
    hide FromLe, LeBytes;
    LeRoundTrip(f.group, 20);
    LeRoundTrip(f.user, 20);
    LeRoundTrip(f.salt, 32);
    LeRoundTrip(A, 32);
    LeRoundTrip(B, 32);
    LeRoundTrip(key, 40);
    SixParts(LeBytes(f.group, 20), LeBytes(f.user, 20), LeBytes(f.salt, 32), LeBytes(A, 32), LeBytes(B, 32), LeBytes(key, 40));
  }

  lemma {:induction false} SixParts(a: seq<byte>, b: seq<byte>, c: seq<byte>, d: seq<byte>, e: seq<byte>, g: seq<byte>)
    requires |a| == |b| == 20 && |c| == |d| == |e| == 32 && |g| == 40
    ensures var p := a + b + c + (d + e) + g;
      p[..20] == a && p[20..40] == b && p[40..72] == c && p[72..104] == d && p[104..136] == e && p[136..] == g
  {
    var p := a + b + c + (d + e) + g;
    var q := d + e + g;
    ThreeParts(a, b, c, q);
    ThreeParts(d, e, g, []);
    assert p == a + b + c + q && q == d + e + g + [];
    Later(p, 72, 0, 32);
    Later(p, 72, 32, 64);
    Later(p, 72, 64, 104);
  }

  lemma {:induction false} ThreeParts(a: seq<byte>, b: seq<byte>, c: seq<byte>, rest: seq<byte>)
    ensures var p := a + b + c + rest;
      && p[..|a|] == a && p[|a|..|a| + |b|] == b && p[|a| + |b|..|a| + |b| + |c|] == c
      && p[|a| + |b| + |c|..] == rest
  {
  }

  lemma {:induction false} Later(p: seq<byte>, k: nat, i: nat, j: nat)
    requires k <= |p| && i <= j <= |p| - k
    ensures p[k..][i..j] == p[k + i..k + j]
  {
  }

  lemma {:induction false} LengthsAdd(f: Foreign, A: nat, B: nat, key: nat, pads: bool)
    ensures |ProofInput(f, A, B, key, pads)| ==
      |Fed(f.group, 20, pads)| + |Fed(f.user, 20, pads)| + |Fed(f.salt, 32, pads)| + |Fed(A, 32, pads)| + |Fed(B, 32, pads)| + |Fed(key, 40, pads)|
  {
    hide Fed;
  }

  /** The hash tells the halves of a secret apart. */
  ghost predicate CollisionFree(f: Foreign) {
    forall s, t :: |s| == |t| == 16 && f.sha(s) == f.sha(t) ==> s == t
  }

  function SessionKey(f: Foreign, t: seq<byte>): (key: seq<byte>)
    requires |t| == 32 && |f.sha(Every(t, 0))| == |f.sha(Every(t, 1))| == 20
    ensures |key| == 40
  {
    Interleave(f.sha(Every(t, 0)), f.sha(Every(t, 1)))
  }

  /** Which digest stands where: at the even places that of the secret's even bytes. */
  lemma {:induction false} SessionKeyAt(f: Foreign, t: seq<byte>, even: seq<byte>, odd: seq<byte>, i: nat)
    requires HashSized(f) && |t| == 32 && |even| == |odd| == 16 && i < 20
    requires forall k :: 0 <= k < 16 ==> even[k] == t[2 * k] && odd[k] == t[2 * k + 1]
    ensures SessionKey(f, t)[2 * i] == f.sha(even)[i] && SessionKey(f, t)[2 * i + 1] == f.sha(odd)[i]
  {
    assert Every(t, 0) == even && Every(t, 1) == odd;
    assert (2 * i) / 2 == i && (2 * i + 1) / 2 == i && (2 * i) % 2 == 0 && (2 * i + 1) % 2 == 1;
  }

  /** With a hash without collisions different secrets have different session keys. */
  lemma {:induction false} SessionKeyInjective(f: Foreign, t: seq<byte>, t': seq<byte>)
    requires Sized(f) && CollisionFree(f) && |t| == |t'| == 32
    ensures FromLe(SessionKey(f, t)) == FromLe(SessionKey(f, t')) <==> t == t'
  {
    BytesAreLe(SessionKey(f, t));
    BytesAreLe(SessionKey(f, t'));
    InterleaveUndoesSplit(t, f.sha(Every(t, 0)), f.sha(Every(t, 1)));
    InterleaveUndoesSplit(t', f.sha(Every(t', 0)), f.sha(Every(t', 1)));
  }

  /** The server's session key is made from what it copies, the client's from all 32 bytes of the
      same number: they agree when the copy is clean and, short of a collision, only then. */
  lemma {:induction false} KeysAgreeIff(f: Foreign, secret: nat, slack: seq<byte>)
    requires Sized(f) && |slack| == 32
    ensures var server, client := FromLe(SessionKey(f, Copied(secret, 32, slack))), FromLe(SessionKey(f, LeBytes(secret, 32)));
      && (Clean(secret, 32, slack) ==> server == client)
      && (CollisionFree(f) ==> (server == client <==> Clean(secret, 32, slack)))
  {
    CopiedIff(secret, 32, slack);
    if CollisionFree(f) {
      SessionKeyInjective(f, Copied(secret, 32, slack), LeBytes(secret, 32));
    }
  }

  /** The digest passes through a big number before it is compared: it still equals itself exactly
      when its last byte is not zero or the copy is clean. */
  lemma {:induction false} DigestComparesIff(digest: seq<byte>, slack: seq<byte>)
    requires |digest| == |slack|
    ensures Copied(FromLe(digest), |digest|, slack) == digest <==> Clean(FromLe(digest), |digest|, slack)
    ensures digest != [] && digest[|digest| - 1] != 0 ==> Clean(FromLe(digest), |digest|, slack)
  {
    BytesAreLe(digest);
    CopiedIff(FromLe(digest), |digest|, slack);
    if digest != [] && digest[|digest| - 1] != 0 {
      LastByteCounts(digest);
    }
  }

  lemma {:induction false} LastByteCounts(s: seq<byte>)
    requires s != [] && s[|s| - 1] != 0
    ensures FromLe(s) > 0 && |Significant(FromLe(s))| == |s|
    decreases |s|
  {
    assert s[0] + 256 * FromLe(s[1..]) == FromLe(s);
    if |s| > 1 {
      LastByteCounts(s[1..]);
    }
    assert FromLe(s) / 256 == FromLe(s[1..]);
  }

  class AuthSocket {
    const N: int
    const g: int
    var v: int
    var b: nat
    var B: nat
    var sessionKey: nat
    var accountKey: seq<byte>     // the session key that the account keeps for the realm servers

    constructor ()
      ensures N == 0x894B645E89E1535BBDAD5B8B290650530801B18EBFBF5E8FAB3C82872A3E9BB7 && g == 7
    {
      N := 0x894B645E89E1535BBDAD5B8B290650530801B18EBFBF5E8FAB3C82872A3E9BB7;
      g := 7;
      v, b, B, sessionKey, accountKey := 0, 0, 0, 0, [];
    }

    /** The arithmetic of the challenge: password value and random exponent in, public value out, and
        32 bytes of it to the client. */
    method HandleChallenge(x: nat, random: nat, m: Memory) returns (sent: seq<byte>)
      requires N > 0 && Fits(m)
      modifies this
      ensures v == Verifier(g, x, N) && b == random && B == ServerPublic(g, v, b, N) && accountKey == old(accountKey)
      ensures sent == Copied(B, 32, m.shown)
    {
      v := ModExp(g, x, N);
      b := random;
      var gmod := ModExp(g, b, N);
      B := (v * 3 + gmod) % N;
      sent := Copied(B, 32, m.shown);
    }

    /** The arithmetic of the proof: the session key, whether the client's proof is the same, and if
        so the key stored. */
    method HandleProof(f: Foreign, A: nat, M1: seq<byte>, m: Memory) returns (accepted: bool)
      requires N > 0 && Sized(f) && Fits(m) && |M1| == 20
      modifies this`sessionKey, this`accountKey
      ensures sessionKey == FromLe(SessionKey(f, Copied(ServerSecret(A, v, Scramble(f, A, B, false), b, N), 32, m.beyond)))
      ensures accepted <==> M1 == Copied(FromLe(Proof(f, A, B, sessionKey, false)), 20, m.after)
      ensures accountKey == if accepted then Copied(sessionKey, 40, m.stored) else old(accountKey)
    {
      hide Copied;
      var u := Scramble(f, A, B, false);
      var S := ModExp(A * ModExp(v, u, N), b, N);
      var vK := InterleavedKey(f, Copied(S, 32, m.beyond));
      sessionKey := FromLe(vK);
      accepted := M1 == Copied(FromLe(Proof(f, A, B, sessionKey, false)), 20, m.after);
      if accepted {
        accountKey := Copied(sessionKey, 40, m.stored);
      }
    }
  }

  /** Hashes the even and the odd bytes of the secret and puts the digests together, byte by byte. */
  method InterleavedKey(f: Foreign, t: seq<byte>) returns (key: seq<byte>)
    requires HashSized(f) && |t| == 32
    ensures key == SessionKey(f, t)
  {
    hide FromLe;
    var t1 := new byte[16];
    var vK := new byte[40];
    var i := 0;
    while i < 16
      invariant 0 <= i <= 16
      invariant forall k :: 0 <= k < i ==> t1[k] == t[2 * k]
    {
      t1[i] := t[i * 2];
      i := i + 1;
    }
    assert t1[..] == Every(t, 0);
    var digest := f.sha(t1[..]);
    ghost var even := digest;
    i := 0;
    while i < 20
      invariant 0 <= i <= 20
      invariant forall k :: 0 <= k < i ==> vK[2 * k] == even[k]
    {
      vK[i * 2] := digest[i];
      i := i + 1;
    }
    i := 0;
    while i < 16
      invariant 0 <= i <= 16
      invariant forall k :: 0 <= k < i ==> t1[k] == t[2 * k + 1]
      invariant forall k :: 0 <= k < 20 ==> vK[2 * k] == even[k]
    {
      t1[i] := t[i * 2 + 1];
      i := i + 1;
    }
    assert t1[..] == Every(t, 1);
    digest := f.sha(t1[..]);
    i := 0;
    while i < 20
      invariant 0 <= i <= 20
      invariant forall k :: 0 <= k < 20 ==> vK[2 * k] == even[k]
      invariant forall k :: 0 <= k < i ==> vK[2 * k + 1] == digest[k]
    {
      vK[i * 2 + 1] := digest[i];
      i := i + 1;
    }
    forall k | 0 <= k < 40
      ensures vK[k] == Interleave(even, digest)[k]
    {
      assert k == 2 * (k / 2) + k % 2;
    }
    assert vK[..] == Interleave(even, digest);
    key := vK[..];
  }

  // ----- A whole logon

  /** What a client that knows the password makes of the public value it sees. */
  function ClientKey(f: Foreign, socket: AuthSocket, seen: nat, a: nat, x: nat, pads: bool): (key: seq<byte>)
    requires socket.N > 0 && Sized(f)
    ensures |key| == 40
  {
    SessionKey(f, LeBytes(SecretSeen(f, socket, seen, a, x, pads), 32))
  }

  function SecretSeen(f: Foreign, socket: AuthSocket, seen: nat, a: nat, x: nat, pads: bool): nat
    requires socket.N > 0
  {
    var A := ModExp(socket.g, a, socket.N);
    ClientSecret(seen, socket.g, a, x, Scramble(f, A, seen, pads), socket.N)
  }

  /** The logon of a client that knows the password and pads what it hashes, or does not. It sees the
      server's public value exactly when the copy sent is clean. It hashes the server's bytes for the
      scrambler exactly as `ScrambleInputsIff` says; then both hold the same session key when the
      secret's copy is clean and, short of a collision, only then. If it hashes the server's bytes for
      the proof too, it is accepted exactly when the digest's copy is clean, and the key that the
      account keeps is the client's exactly when the stored copy is clean. In every case, short of a
      collision, the keys are the same exactly when both sides hash the same 32 bytes. */
  method HonestLogon(socket: AuthSocket, f: Foreign, x: nat, a: nat, random: nat, pads: bool, m: Memory)
    returns (accepted: bool, clientKey: seq<byte>, seen: nat)
    requires 0 < socket.N <= Pow256(32) && Sized(f) && Fits(m)
    modifies socket
    ensures socket.v == Verifier(socket.g, x, socket.N) && socket.b == random
    ensures socket.B == ServerPublic(socket.g, socket.v, random, socket.N)
    ensures seen == FromLe(Copied(socket.B, 32, m.shown)) && (seen == socket.B <==> Clean(socket.B, 32, m.shown))
    ensures clientKey == ClientKey(f, socket, seen, a, x, pads)
    ensures var A := ModExp(socket.g, a, socket.N);
      var own := Proof(f, A, socket.B, socket.sessionKey, false);
      accepted <==> Proof(f, A, seen, FromLe(clientKey), pads) == Copied(FromLe(own), 20, m.after)
    ensures var A := ModExp(socket.g, a, socket.N);
      var secret := ServerSecret(A, socket.v, Scramble(f, A, socket.B, false), socket.b, socket.N);
      var sameKey := socket.sessionKey == FromLe(clientKey);
      var sameScramble := if pads then Full(A, 32) && Full(socket.B, 32) else Clean(socket.B, 32, m.shown);
      var sameProof := sameScramble && sameKey && (pads ==> AllFull(f, socket.sessionKey));
      && (sameScramble && Clean(secret, 32, m.beyond) ==> sameKey)
      && (sameScramble && CollisionFree(f) ==> (sameKey <==> Clean(secret, 32, m.beyond)))
      && (sameProof ==> (accepted <==> Clean(FromLe(Proof(f, A, socket.B, socket.sessionKey, false)), 20, m.after)))
      && (accepted && sameKey ==> (socket.accountKey == clientKey <==> Clean(socket.sessionKey, 40, m.stored)))
      && (CollisionFree(f) ==> (sameKey <==>
            Copied(secret, 32, m.beyond) == LeBytes(SecretSeen(f, socket, seen, a, x, pads), 32)))
  {
    hide ModExp, Copied, Clean, SessionKey, ServerSecret, ClientSecret, ServerPublic, ScrambleInput, ProofInput, Full, AllFull, FromLe;
    var sent := socket.HandleChallenge(x, random, m);
    PublicInRange(socket.g, socket.v, random, socket.N);
    SeenIff(socket.B, 32, m.shown);
    seen := FromLe(sent);
    var A := ModExp(socket.g, a, socket.N);
    ScrambleInputsIff(A, socket.B, m.shown, pads);
    FullIsClean(socket.B, 32, m.shown);
    clientKey := ClientKey(f, socket, seen, a, x, pads);
    ghost var u := Scramble(f, A, socket.B, false);
    ghost var secret := ServerSecret(A, socket.v, u, socket.b, socket.N);
    Agreement(socket.g, a, x, u, random, socket.N);
    KeysAgreeIff(f, secret, m.beyond);
    if CollisionFree(f) {
      SessionKeyInjective(f, Copied(secret, 32, m.beyond), LeBytes(SecretSeen(f, socket, seen, a, x, pads), 32));
    }
    var digest := Proof(f, A, seen, FromLe(clientKey), pads);
    FromLeBound(clientKey);
    SameProofIf(f, A, seen, FromLe(clientKey), pads);
    DigestComparesIff(digest, m.after);
    accepted := socket.HandleProof(f, A, digest, m);
    DigestComparesIff(clientKey, m.stored);
  }

  /** The account's numbers, the salt and the session key fill their widths. */
  predicate AllFull(f: Foreign, key: nat) {
    Full(f.group, 20) && Full(f.user, 20) && Full(f.salt, 32) && Full(key, 40)
  }

  lemma {:induction false} SameProofIf(f: Foreign, A: nat, B: nat, key: nat, pads: bool)
    requires Sized(f) && A < Pow256(32) && key < Pow256(40)
    ensures (pads ==> B < Pow256(32) && Full(A, 32) && Full(B, 32) && AllFull(f, key)) ==>
      Proof(f, A, B, key, pads) == Proof(f, A, B, key, false)
  {
    if pads && B < Pow256(32) {
      ProofInputsIff(f, A, B, key);
    }
  }

  lemma {:induction false} FullIsClean(n: nat, k: nat, slack: seq<byte>)
    requires |slack| == k
    ensures Full(n, k) ==> Clean(n, k, slack)
  {
  }

  lemma {:induction false} PublicInRange(g: int, v: int, b: nat, n: int)
    requires n > 0
    ensures ServerPublic(g, v, b, n) < n
  {
  }

  lemma {:induction false} WidthOfModulus()
    ensures Pow256(32) == 0x1_0000_0000_0000_0000_0000_0000_0000_0000_0000_0000_0000_0000_0000_0000_0000_0000
  {
    assert Pow256(4) == 0x1_0000_0000;
    Pow256Add(4, 4);
    Pow256Add(8, 8);
    Pow256Add(16, 16);
  }

  lemma {:induction false} SecretOfNothing(B: int, g: int, u: nat, n: int)
    requires n > 1
    ensures ClientSecret(B, g, 0, 0, u, n) == 1
  {
    assert u * 0 == 0;
    assert Pow(B - 3 * Pow(g, 0), 0) == 1;
  }

  /** A secret of one byte: the client's session key is the server's exactly when memory behind it
      holds nothing but zeros, short of a collision. */
  method ShortSecretLogon(f: Foreign, random: nat, pads: bool, m: Memory)
    returns (socket: AuthSocket, accepted: bool, clientKey: seq<byte>)
    requires Sized(f) && CollisionFree(f) && Fits(m)
    ensures socket.sessionKey == FromLe(clientKey) <==> forall i :: 1 <= i < 32 ==> m.beyond[i] == 0
  {
    hide ClientSecret, ServerSecret, ServerPublic, SessionKey, Copied;
    socket := new AuthSocket();
    WidthOfModulus();
    var seen;
    accepted, clientKey, seen := HonestLogon(socket, f, 0, 0, random, pads, m);
    ghost var A := ModExp(socket.g, 0, socket.N);
    Agreement(socket.g, 0, 0, Scramble(f, A, socket.B, false), random, socket.N);
    SecretOfNothing(socket.B, socket.g, Scramble(f, A, socket.B, false), socket.N);
    SecretOfNothing(seen, socket.g, Scramble(f, A, seen, pads), socket.N);
    CopiedIff(1, 32, m.beyond);
    assert Significant(1) == [1];
  }

  /** A public value of one byte, with nothing but zeros behind the secret: the client's session key
      is the server's exactly when nothing but zeros lies behind the public value, short of a collision. */
  method ShortPublicLogon(f: Foreign, pads: bool, m: Memory) returns (socket: AuthSocket, accepted: bool, clientKey: seq<byte>)
    requires Sized(f) && CollisionFree(f) && Fits(m) && forall i :: 0 <= i < 32 ==> m.beyond[i] == 0
    ensures socket.B == 4
    ensures socket.sessionKey == FromLe(clientKey) <==> forall i :: 1 <= i < 32 ==> m.shown[i] == 0
  {
    hide Verifier, ServerSecret, ServerPublic, SecretSeen, Scramble, ClientKey, Copied, Clean, ModExp, FromLe, LeBytes, CollisionFree, Sized, Full, AllFull, Proof;
    socket := new AuthSocket();
    WidthOfModulus();
    var seen;
    accepted, clientKey, seen := HonestLogon(socket, f, 0, 1, 0, pads, m);
    ghost var A := ModExp(socket.g, 1, socket.N);
    SmallLogon(socket.g, A, Scramble(f, A, socket.B, false), socket.N);
    SmallLogonSeen(f, socket, seen, pads);
    ShortPublicKeys(m, socket.N);
  }

  lemma {:induction false} ShortPublicKeys(m: Memory, n: int)
    requires Fits(m) && n == 0x894B645E89E1535BBDAD5B8B290650530801B18EBFBF5E8FAB3C82872A3E9BB7
    requires forall i :: 0 <= i < 32 ==> m.beyond[i] == 0
    ensures Copied(1, 32, m.beyond) == LeBytes((FromLe(Copied(4, 32, m.shown)) - 3) % n, 32)
      <==> forall i :: 1 <= i < 32 ==> m.shown[i] == 0
  {
    hide Copied, LeBytes, FromLe;
    WidthOfModulus();
    SeenBehindFour(m.shown);
    SeenSecret(m.shown, n);
    OneIffOne(m.beyond, (FromLe(Copied(4, 32, m.shown)) - 3) % n);
  }

  lemma {:induction false} OneIffOne(slack: seq<byte>, other: nat)
    requires |slack| == 32 && other < Pow256(32) && forall i :: 0 <= i < 32 ==> slack[i] == 0
    ensures Copied(1, 32, slack) == LeBytes(other, 32) <==> other == 1
  {
    hide Copied, Clean, LeBytes;
    CleanOfZeros(1, 32, slack);
    CopiedIff(1, 32, slack);
    WidthOfModulus();
    LeRoundTrip(1, 32);
    LeRoundTrip(other, 32);
  }

  lemma {:induction false} CleanOfZeros(n: nat, k: nat, slack: seq<byte>)
    requires |slack| == k && forall i :: 0 <= i < k ==> slack[i] == 0
    ensures Clean(n, k, slack)
  {
  }

  /** With password value and server exponent zero and client exponent one. */
  lemma {:induction false} SmallLogon(g: int, A: int, u: nat, n: int)
    requires n > 4
    ensures Verifier(g, 0, n) == 1 && ServerPublic(g, 1, 0, n) == 4
    ensures ServerSecret(A, 1, u, 0, n) == 1
  {
  }

  lemma {:induction false} SmallLogonSeen(f: Foreign, socket: AuthSocket, seen: nat, pads: bool)
    requires socket.N > 0
    ensures SecretSeen(f, socket, seen, 1, 0, pads) == (seen - 3) % socket.N
  {
    var u := Scramble(f, ModExp(socket.g, 1, socket.N), seen, pads);
    assert u * 0 == 0;
    assert Pow(seen - 3 * Pow(socket.g, 0), 1) == seen - 3;
  }

  lemma {:induction false} SeenBehindFour(shown: seq<byte>)
    requires |shown| == 32
    ensures FromLe(Copied(4, 32, shown)) == 4 + 256 * FromLe(shown[1..])
    ensures FromLe(shown[1..]) < Pow256(31)
    ensures FromLe(shown[1..]) == 0 <==> forall i :: 1 <= i < 32 ==> shown[i] == 0
  {
    assert Significant(4) == [4];
    assert Copied(4, 32, shown) == [4] + shown[1..];
    FromLeBound(shown[1..]);
    ZeroIffZeros(shown[1..]);
    assert forall i :: 1 <= i < 32 ==> shown[i] == shown[1..][i - 1];
  }

  lemma {:induction false} ZeroIffZeros(s: seq<byte>)
    ensures FromLe(s) == 0 <==> forall i :: 0 <= i < |s| ==> s[i] == 0
    decreases |s|
  {
    if s != [] {
      ZeroIffZeros(s[1..]);
      assert forall i :: 1 <= i < |s| ==> s[i] == s[1..][i - 1];
    }
  }

  /** What lies behind the public value changes the client's secret: the modulus is no multiple of 256. */
  lemma {:induction false} SeenSecret(shown: seq<byte>, n: int)
    requires |shown| == 32 && n == 0x894B645E89E1535BBDAD5B8B290650530801B18EBFBF5E8FAB3C82872A3E9BB7
    ensures (FromLe(Copied(4, 32, shown)) - 3) % n == 1 <==> FromLe(shown[1..]) == 0
  {
    SeenBehindFour(shown);
    WidthOfModulus();
    assert Pow256(32) == 256 * Pow256(31);
    var t := 1 + 256 * FromLe(shown[1..]);
    assert t < 2 * n;
    assert t % n == if t < n then t else t - n;
  }
}
