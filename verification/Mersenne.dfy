/** The Mersenne twister: block regeneration in place against the recurrence it stands for. */
module Mersenne {
  import opened Options
  import opened Words
  import U = Uniform

  const N: nat := 624
  const M: nat := 397
  const UPPER: word := 0x8000_0000
  const LOWER: word := 0x7fff_ffff

  /** The new word made from two neighbouring words and the one M places on. */
  function Mix(a: word, b: word, far: word): word {
    var y := Join(a, b);
    Xor(Xor(far, y >> 1), Twist(y))
  }

  function Join(a: word, b: word): word { (a & UPPER) | (b & LOWER) }

  function Twist(y: word): word { if y & 1 == 1 then 0x9908_b0df else 0 }

  function Down11(x: word): word { x >> 11 }

  function Up7(x: word): word { (x << 7) & 0x9d2c_5680 }

  function Up15(x: word): word { (x << 15) & 0xefc6_0000 }

  function Down18(x: word): word { x >> 18 }

  function Temper(x: word): word {
    var y0 := Xor(x, Down11(x));
    var y1 := Xor(y0, Up7(y0));
    var y2 := Xor(y1, Up15(y1));
    Xor(y2, Down18(y2))
  }

  // ----- The recurrence

  /** The k-th term of the unbounded sequence whose first N terms are s. */
  function Term(s: seq<word>, k: nat): word
    requires |s| == N
    decreases k
  {
    if k < N then s[k] else Mix(Term(s, k - N), Term(s, k - N + 1), Term(s, k - N + M))
  }

  /** A new term from the words N, N - 1 and N - M places before it. */
  lemma {:induction false} TermUnfolds(s: seq<word>, k: nat)
    requires |s| == N
    ensures Term(s, N + k) == Mix(Term(s, k), Term(s, k + 1), Term(s, k + M))
    ensures forall i :: 0 <= i < N ==> Term(s, i) == s[i]
  {
    hide Mix;
  }

  /** A block of which the first kk words have been made new. */
  ghost predicate Partly(s: seq<word>, mt: seq<word>, kk: nat) {
    && |s| == |mt| == N && kk <= N
    && (forall i :: 0 <= i < kk ==> mt[i] == Term(s, N + i))
    && (forall i :: kk <= i < N ==> mt[i] == s[i])
  }

  /** The N terms from the k-th on. */
  function Window(s: seq<word>, k: nat): (w: seq<word>)
    requires |s| == N
    ensures |w| == N
  {
    seq(N, i requires 0 <= i < N => Term(s, k + i))
  }

  /** A window determines the rest of the sequence. */
  lemma {:induction false} TermOfWindow(s: seq<word>, k: nat, i: nat)
    requires |s| == N
    ensures Term(Window(s, k), i) == Term(s, k + i)
    decreases i
  {
    hide Mix;
    if i >= N {
      TermOfWindow(s, k, i - N);
      TermOfWindow(s, k, i - N + 1);
      TermOfWindow(s, k, i - N + M);
      assert k + (i - N) == k + i - N;
    }
  }

  // ----- The generator as a value

  datatype Generator = Generator(mt: seq<word>, mti: nat)

  predicate InBounds(g: Generator) {
    |g.mt| == N && g.mti <= N
  }

  /** One call of the generator: a fresh block when the old one is used up, then the next word. */
  function Draw(g: Generator): (r: (word, Generator))
    requires InBounds(g)
    ensures InBounds(r.1)
  {
    var h := if g.mti >= N then Generator(Window(g.mt, N), 0) else g;
    (Temper(h.mt[h.mti]), Generator(h.mt, h.mti + 1))
  }

  function DrawMany(g: Generator, n: nat): (h: Generator)
    requires InBounds(g)
    ensures InBounds(h)
  {
    if n == 0 then g else Draw(DrawMany(g, n - 1)).1
  }

  /** The n-th word drawn from a generator, counted from 0. */
  function Output(g: Generator, n: nat): word
    requires InBounds(g)
  {
    Draw(DrawMany(g, n)).0
  }

  /** A generator whose block starts at the k-th term of the sequence of s. */
  ghost predicate Follows(s: seq<word>, k: nat, g: Generator) {
    InBounds(g) && |s| == N && g.mt == Window(s, k)
  }

  lemma {:induction false} DrawFollows(s: seq<word>, k: nat, g: Generator)
    requires Follows(s, k, g)
    ensures Draw(g).0 == Temper(Term(s, k + g.mti))
    ensures g.mti < N ==> Follows(s, k, Draw(g).1) && Draw(g).1.mti == g.mti + 1
    ensures g.mti == N ==> Follows(s, k + N, Draw(g).1) && Draw(g).1.mti == 1
  {
    hide Mix, Temper;
    if g.mti == N {
      forall i | 0 <= i < N
        ensures Window(g.mt, N)[i] == Window(s, k + N)[i]
      {
        TermOfWindow(s, k, N + i);
      }
      assert Window(g.mt, N) == Window(s, k + N);
    }
  }

  lemma {:induction false} DrawManyFollows(s: seq<word>, g: Generator, n: nat) returns (k: nat)
    requires Follows(s, 0, g)
    ensures Follows(s, k, DrawMany(g, n)) && k + DrawMany(g, n).mti == g.mti + n
  {
    hide Draw;
    if n == 0 {
      k := 0;
    } else {
      k := DrawManyFollows(s, g, n - 1);
      DrawFollows(s, k, DrawMany(g, n - 1));
      if DrawMany(g, n - 1).mti == N {
        k := k + N;
      }
    }
  }

  /** From any state of the array and any index, the n-th word drawn is the tempered term of the
      unbounded recurrence at that index plus n. */
  lemma {:induction false} OutputIsRecurrence(g: Generator, n: nat)
    requires InBounds(g)
    ensures Output(g, n) == Temper(Term(g.mt, g.mti + n))
  {
    hide Draw, Mix, Temper;
    assert Window(g.mt, 0) == g.mt;
    var k := DrawManyFollows(g.mt, g, n);
    DrawFollows(g.mt, k, DrawMany(g, n));
  }

  // ----- Back from the output to the state

  /** The four steps of tempering undone, the last first. Two of them take several turns. */
  function Untemper(y: word): word {
    Undo1(Undo2(Undo3(Undo4(y))))
  }

  function Undo4(y: word): word { Xor(y, Down18(y)) }

  function Undo3(y: word): word { Xor(y, Up15(y)) }

  function Undo2(y: word): word {
    var a := Xor(y, Up7(y));
    var b := Xor(a, Up14(a));
    Xor(b, Up28(b))
  }

  function Undo1(y: word): word {
    var a := Xor(y, Down11(y));
    Xor(a, Down22(a))
  }

  function Up14(x: word): word { (x << 14) & 0x9428_4000 }

  function Up28(x: word): word { (x << 28) & 0x1000_0000 }

  function Down22(x: word): word { x >> 22 }

  lemma {:induction false} Down11OfXor(x: word, y: word)
    ensures Down11(Xor(x, y)) == Xor(Down11(x), Down11(y))
  {
  }

  lemma {:induction false} Down18OfXor(x: word, y: word)
    ensures Down18(Xor(x, y)) == Xor(Down18(x), Down18(y))
  {
  }

  lemma {:induction false} Down22OfXor(x: word, y: word)
    ensures Down22(Xor(x, y)) == Xor(Down22(x), Down22(y))
  {
  }

  lemma {:induction false} Up7OfXor(x: word, y: word)
    ensures Up7(Xor(x, y)) == Xor(Up7(x), Up7(y))
  {
  }

  lemma {:induction false} Up14OfXor(x: word, y: word)
    ensures Up14(Xor(x, y)) == Xor(Up14(x), Up14(y))
  {
  }

  lemma {:induction false} Up28OfXor(x: word, y: word)
    ensures Up28(Xor(x, y)) == Xor(Up28(x), Up28(y))
  {
  }

  lemma {:induction false} Up15OfXor(x: word, y: word)
    ensures Up15(Xor(x, y)) == Xor(Up15(x), Up15(y))
  {
  }

  lemma {:induction false} DownTwice(x: word)
    ensures Down18(Down18(x)) == 0 && Down11(Down11(x)) == Down22(x) && Down22(Down22(x)) == 0
  {
  }

  lemma {:induction false} UpTwice(x: word)
    ensures Up15(Up15(x)) == 0 && Up7(Up7(x)) == Up14(x) && Up14(Up14(x)) == Up28(x) && Up28(Up28(x)) == 0
  {
  }

  lemma {:induction false} UndoneLast(x: word)
    ensures Undo4(Xor(x, Down18(x))) == x
  {
    hide Xor, Down18;
    DownTwice(x);
    Down18OfXor(x, Down18(x));
    XorMeets(x, Down18(x), 0);
    XorUnits(x);
  }

  lemma {:induction false} UndoneThird(x: word)
    ensures Undo3(Xor(x, Up15(x))) == x
  {
    hide Xor, Up15;
    UpTwice(x);
    Up15OfXor(x, Up15(x));
    XorMeets(x, Up15(x), 0);
    XorUnits(x);
  }

  lemma {:induction false} UndoneSecond(x: word)
    ensures Undo2(Xor(x, Up7(x))) == x
  {
    hide Xor, Up7, Up14, Up28;
    UpTwice(x);
    Up7OfXor(x, Up7(x));
    XorMeets(x, Up7(x), Up14(x));
    Up14OfXor(x, Up14(x));
    XorMeets(x, Up14(x), Up28(x));
    Up28OfXor(x, Up28(x));
    XorMeets(x, Up28(x), 0);
    XorUnits(x);
  }

  lemma {:induction false} UndoneFirst(x: word)
    ensures Undo1(Xor(x, Down11(x))) == x
  {
    hide Xor, Down11, Down22;
    DownTwice(x);
    Down11OfXor(x, Down11(x));
    XorMeets(x, Down11(x), Down22(x));
    Down22OfXor(x, Down22(x));
    XorMeets(x, Down22(x), 0);
    XorUnits(x);
  }

  /** Every word comes back from its tempered form. */
  lemma {:induction false} UntemperTemper(x: word)
    ensures Untemper(Temper(x)) == x
  {
    hide Xor, Down11, Up7, Up15, Down18, Undo1, Undo2, Undo3, Undo4;
    var y0 := Xor(x, Down11(x));
    var y1 := Xor(y0, Up7(y0));
    var y2 := Xor(y1, Up15(y1));
    UndoneLast(y2);
    UndoneThird(y1);
    UndoneSecond(y0);
    UndoneFirst(x);
  }

  /** As many outputs as the state has words are the state, and so all that follows. */
  lemma {:induction false} OutputsDetermine(g: Generator, h: Generator, n: nat)
    requires InBounds(g) && InBounds(h) && forall i :: 0 <= i < 624 ==> Output(g, i) == Output(h, i)
    ensures forall i :: 0 <= i < 624 ==> Window(g.mt, g.mti)[i] == Untemper(Output(g, i))
    ensures Window(g.mt, g.mti) == Window(h.mt, h.mti) && Output(g, n) == Output(h, n)
  {
    hide Temper, Untemper, Output;
    forall i | 0 <= i < 624
      ensures Window(g.mt, g.mti)[i] == Untemper(Output(g, i)) && Window(h.mt, h.mti)[i] == Untemper(Output(h, i))
    {
      OutputIsRecurrence(g, i);
      OutputIsRecurrence(h, i);
      UntemperTemper(Term(g.mt, g.mti + i));
      UntemperTemper(Term(h.mt, h.mti + i));
    }
    assert Window(g.mt, g.mti) == Window(h.mt, h.mti);
    OutputIsRecurrence(g, n);
    OutputIsRecurrence(h, n);
    TermOfWindow(g.mt, g.mti, n);
    TermOfWindow(h.mt, h.mti, n);
  }

  /** The first word drawn after seeding with an array, whatever the array. */
  lemma {:induction false} FirstAfterArray(seeds: seq<word>)
    requires seeds != []
    ensures Output(Generator(ArraySeeded(seeds), 0), 0) == 0x8810_2204
  {
    hide Temper, Output;
    OutputIsRecurrence(Generator(ArraySeeded(seeds), 0), 0);
    TemperOfTop();
    ArrayTop(seeds);
  }

  lemma {:induction false} TemperOfTop()
    ensures Temper(0x8000_0000) == 0x8810_2204
  {
  }

  lemma {:induction false} ArrayTop(seeds: seq<word>)
    requires seeds != []
    ensures ArraySeeded(seeds)[0] == 0x8000_0000
  {
  }

  // ----- The recurrence run backwards

  /** From the new word without the one far away: the top bit of the old word, the low bits of its neighbour. */
  function Unmix(t: word): word {
    if t & 0x8000_0000 == 0 then t << 1 else ((t ^ 0x9908_b0df) << 1) | 1
  }

  lemma {:induction false} UnmixShift(y: word)
    ensures y & 1 == 0 ==> Unmix(y >> 1) == y
    ensures y & 1 == 1 ==> Unmix(Xor(y >> 1, 0x9908_b0df)) == y
  {
  }

  lemma {:induction false} LowBit(y: word)
    ensures y & 1 == 1 || y & 1 == 0
  {
  }

  lemma {:induction false} UnmixMix(a: word, b: word, far: word)
    ensures Unmix(Xor(far, Mix(a, b, far))) == Join(a, b)
  {
    hide Join;
    UnmixOf(Join(a, b), far);
  }

  lemma {:induction false} UnmixOf(y: word, far: word)
    ensures Unmix(Xor(far, Xor(Xor(far, y >> 1), Twist(y)))) == y
  {
    hide Xor, Unmix;
    var p, q: word := y >> 1, Twist(y);
    LowBit(y);
    UnmixShift(y);
    XorAssociates(far, p, q);
    XorAssociates(far, far, Xor(p, q));
    XorUnits(far);
    XorUnits(Xor(p, q));
    XorUnits(p);
  }

  lemma {:induction false} Joined(a: word, b: word)
    ensures Join(a, b) & 0x8000_0000 == a & 0x8000_0000
    ensures Join(a, b) & 0x7fff_ffff == b & 0x7fff_ffff
    ensures (a & 0x8000_0000) | (a & 0x7fff_ffff) == a
  {
  }

  /** A term from the 624 that follow it: its top bit from the step that used it first, its low bits
      from the step before. The first words of all are not asked for: their step lies before the start. */
  lemma {:induction false} TermFromLater(s: seq<word>, k: nat)
    requires |s| == 624 && k >= 1
    ensures Term(s, k) ==
      (Unmix(Xor(Term(s, k + 397), Term(s, k + 624))) & 0x8000_0000)
      | (Unmix(Xor(Term(s, k + 396), Term(s, k + 623))) & 0x7fff_ffff)
  {
    hide Xor, Unmix, Mix, Join;
    TermUnfolds(s, k);
    TermUnfolds(s, k - 1);
    UnmixMix(Term(s, k), Term(s, k + 1), Term(s, k + 397));
    UnmixMix(Term(s, k - 1), Term(s, k), Term(s, k + 396));
    Joined(Term(s, k), Term(s, k + 1));
    Joined(Term(s, k - 1), Term(s, k));
    Joined(Term(s, k), Term(s, k));
  }

  /** So two sequences that agree over a block have agreed ever since their first words. */
  lemma {:induction false} BlocksGoBack(s: seq<word>, t: seq<word>, k: nat)
    requires |s| == |t| == 624 && Window(s, k + 1) == Window(t, k + 1) && k >= 1
    ensures Window(s, k) == Window(t, k)
  {
    hide Unmix, Xor, Term;
    SameWindow(s, t, k + 1, 623);
    SameWindow(s, t, k + 1, 622);
    SameWindow(s, t, k + 1, 396);
    SameWindow(s, t, k + 1, 395);
    TermFromLater(s, k);
    TermFromLater(t, k);
    forall i | 0 <= i < 624
      ensures Window(s, k)[i] == Window(t, k)[i]
    {
      if i > 0 {
        SameWindow(s, t, k + 1, i - 1);
      }
    }
  }

  lemma {:induction false} SameWindow(s: seq<word>, t: seq<word>, k: nat, i: nat)
    requires |s| == |t| == 624 && Window(s, k) == Window(t, k) && i < 624
    ensures Term(s, k + i) == Term(t, k + i)
  {
    hide Term;
    assert Window(s, k)[i] == Window(t, k)[i];
  }

  // ----- Known values

  /** The first words of the standard generator's default seed. */
  lemma {:induction false} DefaultSeed()
    ensures Seeded(5489, 3) == [5489, 1301868182, 2938499221]
  {
    assert Seeded(5489, 1) == [5489];
    assert NextSeed(5489, 1) == 1301868182 && NextSeed(1301868182, 2) == 2938499221;
    assert Seeded(5489, 2) == [5489, 1301868182];
  }

  /** The first words of the two mixing passes from known words. */
  lemma {:induction false} KnownMixing()
    ensures NextSeed(19650218, 1) == 2194844435 && StirWord(2194844435, 19650218, 0x123, 0) == 4287171284
    ensures BlendWord(1, 1, 1) == 1566083939
  {
  }

  // ----- The sequence never dies out

  /** Only the top bit of the first word of a window enters what follows. */
  predicate Dead(w: seq<word>)
    requires |w| == N
  {
    w[0] & UPPER == 0 && forall i :: 1 <= i < N ==> w[i] == 0
  }

  /** One step of the recurrence loses nothing: the new word, the word M places on and the top bit
      of the neighbour give back the top bit of the old word and the low bits of its neighbour. */
  lemma {:induction false} MixRevealsZero(a: word, b: word)
    requires Mix(a, b, 0) == 0 && b & UPPER == 0
    ensures a & UPPER == 0 && b == 0
  {
  }

  lemma {:induction false} DeathGoesBack(s: seq<word>, k: nat)
    requires |s| == N && Dead(Window(s, k + 1))
    ensures Dead(Window(s, k))
  {
    hide Mix;
    var w := Window(s, k + 1);
    assert forall i :: 1 <= i < N ==> Term(s, k + 1 + i) == w[i] == 0;
    assert Term(s, k + N) == w[N - 1] && Term(s, k + M) == w[M - 1];
    assert Term(s, k + N) == Mix(Term(s, k), Term(s, k + 1), Term(s, k + M));
    MixRevealsZero(Term(s, k), Term(s, k + 1));
    forall i | 1 <= i < N
      ensures Window(s, k)[i] == 0
    {
      if i >= 2 {
        assert Term(s, k + 1 + (i - 1)) == w[i - 1];
      }
    }
  }

  /** A seeded state that is not dead never reaches a dead one. */
  lemma {:induction false} NeverDies(s: seq<word>, k: nat)
    requires |s| == N && !Dead(s)
    ensures !Dead(Window(s, k))
  {
    if k == 0 {
      assert Window(s, 0) == s;
    } else {
      NeverDies(s, k - 1);
      if Dead(Window(s, k)) {
        DeathGoesBack(s, k - 1);
      }
    }
  }

  // ----- Seeding

  /** A loop counter as a machine word. */
  function Counter(n: nat): word {
    if n == 0 then 0 else Counter(n - 1) + 1
  }

  /** The seeding recurrence. */
  function NextSeed(before: word, count: word): word {
    1812433253 * (before ^ (before >> 30)) + count
  }

  lemma {:induction false} NextSeedOfZero(count: word)
    ensures NextSeed(0, count) == count
  {
  }

  /** The first n words of the state for a seed. */
  function Seeded(seed: word, n: nat): (s: seq<word>)
    requires n >= 1
    ensures |s| == n
  {
    if n == 1 then [seed]
    else
      var s := Seeded(seed, n - 1);
      s + [NextSeed(s[n - 2], Counter(n - 1))]
  }

  lemma {:induction false} SeededPrefix(seed: word, m: nat, n: nat)
    requires 1 <= m <= n
    ensures Seeded(seed, n)[..m] == Seeded(seed, m)
    decreases n
  {
    if m < n {
      SeededPrefix(seed, m, n - 1);
    }
  }

  /** No seed gives a dead state. */
  lemma {:induction false} SeedAlive(seed: word)
    ensures !Dead(Seeded(seed, N))
  {
    hide NextSeed;
    var s := Seeded(seed, N);
    SeededPrefix(seed, 3, N);
    SeededPrefix(seed, 2, N);
    assert s[..3][2] == s[2] && s[..2][1] == s[1];
    assert Seeded(seed, 3)[1] == Seeded(seed, 2)[1];
    assert Counter(2) == 2;
    if s[1] == 0 {
      NextSeedOfZero(2);
      assert s[2] == 2;
    }
  }

  /** However long it runs, a generator seeded by one word gives the tempered recurrence from that
      seed, and the words its next block is made from are never all dead. */
  lemma {:induction false} SeededForEver(seed: word, n: nat)
    ensures Output(Generator(Seeded(seed, N), N), n) == Temper(Term(Seeded(seed, N), N + n))
    ensures !Dead(Window(Seeded(seed, N), n))
  {
    hide Mix, Temper, Draw;
    OutputIsRecurrence(Generator(Seeded(seed, N), N), n);
    SeedAlive(seed);
    NeverDies(Seeded(seed, N), n);
  }

  // ----- Seeding by an array

  /** The non-linear steps of the two passes over the state. */
  function StirWord(x: word, before: word, seed: word, j: nat): word {
    (x ^ ((before ^ (before >> 30)) * 1664525)) + seed + Counter(j)
  }

  function BlendWord(x: word, before: word, i: nat): word {
    (x ^ ((before ^ (before >> 30)) * 1566083941)) - Counter(i)
  }

  /** Replaces word i and moves on, carrying the last word over to the front at the end. */
  function Place(s: seq<word>, i: nat, x: word): (r: (seq<word>, nat))
    requires |s| == N && 1 <= i < N
    ensures |r.0| == N && 1 <= r.1 < N
  {
    var t := s[i := x];
    if i + 1 >= N then (t[0 := t[N - 1]], 1) else (t, i + 1)
  }

  /** The state, its index and the index into the seeds after so many turns of the first pass. */
  function Stirred(s: seq<word>, seeds: seq<word>, turns: nat): (r: (seq<word>, nat, nat))
    requires |s| == N && seeds != []
    ensures |r.0| == N && 1 <= r.1 < N && r.2 < |seeds|
  {
    if turns == 0 then (s, 1, 0)
    else
      var (t, i, j) := Stirred(s, seeds, turns - 1);
      var (u, i') := Place(t, i, StirWord(t[i], t[i - 1], seeds[j], j));
      (u, i', if j + 1 >= |seeds| then 0 else j + 1)
  }

  function Blended(s: seq<word>, from: nat, turns: nat): (r: (seq<word>, nat))
    requires |s| == N && 1 <= from < N
    ensures |r.0| == N && 1 <= r.1 < N
  {
    if turns == 0 then (s, from)
    else
      var (t, i) := Blended(s, from, turns - 1);
      Place(t, i, BlendWord(t[i], t[i - 1], i))
  }

  function ArraySeeded(seeds: seq<word>): (s: seq<word>)
    requires seeds != []
    ensures |s| == N
  {
    var (t, i, j) := Stirred(Seeded(19650218, N), seeds, if N > |seeds| then N else |seeds|);
    Blended(t, i, N - 1).0[0 := 0x8000_0000]
  }

  /** Whatever the seeds, the state is alive and stays so. */
  lemma {:induction false} ArraySeededForEver(seeds: seq<word>, n: nat)
    requires seeds != []
    ensures Output(Generator(ArraySeeded(seeds), 0), n) == Temper(Term(ArraySeeded(seeds), n))
    ensures !Dead(Window(ArraySeeded(seeds), n))
  {
    hide Mix, Temper, Draw, Stirred, Blended;
    OutputIsRecurrence(Generator(ArraySeeded(seeds), 0), n);
    assert 0x8000_0000 & UPPER != 0;
    NeverDies(ArraySeeded(seeds), n);
  }

  class CRandomMersenne {
    const mt: array<word>
    var mti: nat
    var lastInterval: nat
    var rLimit: nat

    ghost predicate Valid()
      reads this
    {
      mt.Length == N && mti <= N
    }

    /** The rejection limit kept from the last call belongs to the interval kept with it. */
    ghost predicate LimitCached()
      reads this
    {
      lastInterval < U.RAW && (lastInterval > 0 ==> rLimit == U.Limit(lastInterval))
    }

    ghost function State(): (g: Generator)
      reads this, mt
      requires Valid()
      ensures InBounds(g)
    {
      Generator(mt[..], mti)
    }

    constructor (seed: word)
      ensures Valid() && fresh(mt) && LimitCached()
      ensures State() == DrawMany(Generator(Seeded(seed, N), N), 37)
    {
      mt := new word[N];
      mti := 0;
      new;
      RandomInit(seed);
      lastInterval := 0;
    }

    method Init0(seed: word)
      requires Valid()
      modifies `mti, mt
      ensures Valid() && State() == Generator(Seeded(seed, N), N)
    {
      hide NextSeed, Counter;
      mt[0] := seed;
      mti := 1;
      assert mt[..1] == Seeded(seed, 1);
      while mti < N
        invariant 1 <= mti <= N
        invariant mt[..mti] == Seeded(seed, mti)
      {
        mt[mti] := NextSeed(mt[mti - 1], Counter(mti));
        assert mt[..mti + 1] == mt[..mti] + [mt[mti]];
        mti := mti + 1;
      }
      assert mt[..] == mt[..N];
    }

    method RandomInit(seed: word)
      requires Valid()
      modifies `mti, mt
      ensures Valid() && State() == DrawMany(Generator(Seeded(seed, N), N), 37)
    {
      hide Draw;
      Init0(seed);
      ghost var start := State();
      for i := 0 to 37
        invariant Valid() && State() == DrawMany(start, i)
      {
        var y := BRandom();
      }
    }

    /** Makes the next N words over the old ones. */
    method Regenerate()
      requires Valid()
      modifies `mti, mt
      ensures Valid() && State() == Generator(Window(old(mt[..]), N), 0)
    {
      hide Mix, Term;
      ghost var s := mt[..];
      var kk := 0;
      while kk < N - M
        invariant 0 <= kk <= N - M
        invariant Partly(s, mt[..], kk)
      {
        TermUnfolds(s, kk);
        mt[kk] := Mix(mt[kk], mt[kk + 1], mt[kk + M]);
        kk := kk + 1;
      }
      while kk < N - 1
        invariant N - M <= kk <= N - 1
        invariant Partly(s, mt[..], kk)
      {
        TermUnfolds(s, kk);
        assert mt[..][kk + M - N] == Term(s, N + (kk + M - N));
        mt[kk] := Mix(mt[kk], mt[kk + 1], mt[kk + M - N]);
        kk := kk + 1;
      }
      TermUnfolds(s, N - 1);
      assert mt[..][0] == Term(s, N + 0) && mt[..][M - 1] == Term(s, N + (M - 1));
      mt[N - 1] := Mix(mt[N - 1], mt[0], mt[M - 1]);
      mti := 0;
      assert Partly(s, mt[..], N);
      assert mt[..] == Window(s, N);
    }

    /** Thirty-two random bits. */
    method BRandom() returns (y: word)
      requires Valid()
      modifies `mti, mt
      ensures Valid() && (y, State()) == Draw(old(State()))
      ensures y == Temper(Term(old(mt[..]), old(mti)))
    {
      hide Mix, Temper;
      ghost var g := State();
      assert Window(g.mt, 0) == g.mt;
      DrawFollows(g.mt, 0, g);
      if mti >= N {
        Regenerate();
      }
      y := mt[mti];
      mti := mti + 1;
      y := Temper(y);
    }

    /** The first pass over the state, as many turns as there are words or seeds. */
    method Stir(seeds: seq<word>) returns (i: nat)
      requires Valid() && seeds != []
      modifies mt
      ensures (mt[..], i) == var r := Stirred(old(mt[..]), seeds, if N > |seeds| then N else |seeds|); (r.0, r.1)
    {
      hide StirWord;
      var j := 0;
      var k := if N > |seeds| then N else |seeds|;
      ghost var turns := k;
      i := 1;
      while k != 0
        invariant 1 <= i < N && 0 <= j < |seeds| && 0 <= k <= turns
        invariant Stirred(old(mt[..]), seeds, turns - k) == (mt[..], i, j)
        decreases k
      {
        mt[i] := StirWord(mt[i], mt[i - 1], seeds[j], j);
        i := i + 1;
        j := j + 1;
        if i >= N {
          mt[0] := mt[N - 1];
          i := 1;
        }
        if j >= |seeds| {
          j := 0;
        }
        k := k - 1;
      }
    }

    /** The second pass, one turn for every word but one. */
    method Blend(from: nat)
      requires Valid() && 1 <= from < N
      modifies mt
      ensures mt[..] == Blended(old(mt[..]), from, N - 1).0
    {
      hide BlendWord;
      var i := from;
      var k := N - 1;
      while k != 0
        invariant 1 <= i < N && 0 <= k <= N - 1
        invariant Blended(old(mt[..]), from, N - 1 - k) == (mt[..], i)
        decreases k
      {
        mt[i] := BlendWord(mt[i], mt[i - 1], i);
        i := i + 1;
        if i >= N {
          mt[0] := mt[N - 1];
          i := 1;
        }
        k := k - 1;
      }
    }

    /** Seeding by a whole array. */
    method RandomInitByArray(seeds: seq<word>)
      requires Valid()
      modifies `mti, mt
      ensures Valid()
      ensures State() == if seeds == [] then Generator(Seeded(19650218, N), N)
                         else DrawMany(Generator(ArraySeeded(seeds), 0), N + 1)
    {
      hide Draw, Stirred, Blended, Seeded;
      Init0(19650218);
      if |seeds| == 0 {
        return;
      }
      var i := Stir(seeds);
      Blend(i);
      mt[0] := 0x8000_0000;
      mti := 0;
      ghost var s := mt[..];
      assert s == ArraySeeded(seeds);
      for n := 0 to N + 1
        invariant Valid() && State() == DrawMany(Generator(s, 0), n)
      {
        var y := BRandom();
      }
    }

    /** One turn of the loop: a word is drawn, and rejected when the lower half of its product with
        the interval is past the limit. */
    method TryOnce(interval: int) returns (iran: Option<int>)
      requires Valid() && 0 < interval && rLimit == U.Limit(interval)
      modifies `mti, mt
      ensures Valid() && State() == DrawMany(old(State()), 1)
      ensures var w := Output(old(State()), 0) as int;
        iran == if U.Accepted(w, interval) then Some(U.Result(w, interval)) else None
      ensures iran.Some? ==> 0 <= iran.value < interval
    {
      hide Draw;
      var word := BRandom();
      U.ResultInRange(word as int, interval);
      var longran := (word as int) * interval;
      var remainder := longran % U.RAW;
      iran := if remainder <= rLimit then Some(longran / U.RAW) else None;
    }

    /** A random integer from min to max, each with exactly the same probability. The source draws
        until a word is accepted; here it gives up after patience words. */
    method IRandomX(min: int, max: int, patience: nat) returns (r: Option<int>, ghost tries: nat)
      requires Valid() && LimitCached()
      requires -0x8000_0000 <= min < 0x8000_0000 && -0x8000_0000 <= max < 0x8000_0000
      requires max - min < 0x7fff_ffff
      modifies this, mt
      ensures Valid() && LimitCached()
      ensures max <= min ==> State() == old(State()) && r == Some(if max == min then min else -0x8000_0000)
      ensures min < max ==> var n := max - min + 1; var g := old(State());
        && tries <= patience
        && (forall i :: 0 <= i < tries ==> !U.Accepted(Output(g, i) as int, n))
        && (r.None? ==> tries == patience && State() == DrawMany(g, patience))
        && (r.Some? ==>
              && U.Accepted(Output(g, tries) as int, n) && State() == DrawMany(g, tries + 1)
              && r.value == min + U.Result(Output(g, tries) as int, n) && min <= r.value <= max)
    {
      hide Draw, U.Accepted, U.Result, U.Limit;
      tries := 0;
      if max <= min {
        return Some(if max == min then min else -0x8000_0000), 0;
      }
      var interval := max - min + 1;
      if interval != lastInterval {
        rLimit := U.Limit(interval);
        lastInterval := interval;
      }
      ghost var g := State();
      var left := patience;
      while left > 0
        invariant Valid() && LimitCached() && rLimit == U.Limit(interval)
        invariant tries == patience - left && State() == DrawMany(g, tries)
        invariant forall i :: 0 <= i < tries ==> !U.Accepted(Output(g, i) as int, interval)
      {
        var iran := TryOnce(interval);
        if iran.Some? {
          return Some(iran.value + min), tries;
        }
        left := left - 1;
        tries := tries + 1;
      }
      r := None;
    }
  }
}
