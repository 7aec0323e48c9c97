/** How often each result of the integer samplers is hit: counting raw 32-bit words. */
module Uniform {

  /** The number of raw words. */
  const RAW: nat := 0x1_0000_0000

  /** The upper half of the 64-bit product of a raw word and the interval length. */
  function Result(w: nat, n: nat): nat {
    w * n / RAW
  }

  /** The lower half. */
  function Remainder(w: nat, n: nat): nat {
    w * n % RAW
  }

  /** How many times the interval goes into the raw words. */
  function Quota(n: nat): nat
    requires n > 0
  {
    RAW / n
  }

  /** The rejection limit in 32-bit arithmetic: quota times interval may wrap to 0, and one is taken off. */
  function Limit(n: nat): nat
    requires n > 0
  {
    (Quota(n) % RAW * n - 1) % RAW
  }

  predicate Accepted(w: nat, n: nat)
    requires n > 0
  {
    Remainder(w, n) <= Limit(n)
  }

  /** The wrap is harmless: the limit is one below the largest multiple of the interval. */
  lemma {:induction false} LimitMeaning(n: nat)
    requires 0 < n < RAW
    ensures Limit(n) == Quota(n) * n - 1
    ensures 0 < Quota(n) * n <= RAW < Quota(n) * n + n
  {
    var q := Quota(n);
    DivMod(RAW, n);
    if n == 1 {
      assert q == RAW;
    } else {
      Halving(q, n);
      assert q % RAW == q;
      assert q * n >= n by { AtLeastOnce(q, n); }
    }
  }

  lemma {:induction false} DivMod(x: nat, n: nat)
    requires n > 0
    ensures x / n * n <= x < x / n * n + n
    ensures n <= x ==> x / n >= 1
  {
  }

  lemma {:induction false} Halving(q: nat, n: nat)
    requires n >= 2 && q * n <= RAW
    ensures q < RAW
  {
    assert q * n >= q * 2;
  }

  lemma {:induction false} AtLeastOnce(q: nat, n: nat)
    requires q >= 1
    ensures q * n >= n
  {
    assert (q - 1) * n >= 0;
  }

  // ----- The raw words with a given result form a run

  /** The least w with w * n at least x. */
  function CeilDiv(x: nat, n: nat): (c: nat)
    requires n > 0
  {
    (x + n - 1) / n
  }

  lemma {:induction false} CeilDivIsLeast(x: nat, n: nat, w: nat)
    requires n > 0
    ensures w * n >= x <==> w >= CeilDiv(x, n)
  {
    var c := CeilDiv(x, n);
    DivMod(x + n - 1, n);
    if w >= c {
      Monotone(c, w, n);
    } else {
      Monotone(w + 1, c, n);
      assert (w + 1) * n == w * n + n;
    }
  }

  lemma {:induction false} OneMore(a: int, n: int)
    ensures (a + 1) * n == a * n + n
  {
  }

  lemma {:induction false} Difference(a: int, b: int, n: int)
    ensures (a - b) * n == a * n - b * n
  {
  }

  lemma {:induction false} Monotone(a: int, b: int, n: nat)
    requires a <= b
    ensures a * n <= b * n
  {
    assert (b - a) * n >= 0;
  }

  /** A word hits r with its remainder below m exactly when its product lies in [r * 2^32, r * 2^32 + m). */
  lemma {:induction false} HitMeaning(w: nat, n: nat, r: nat, m: nat)
    requires m <= RAW
    ensures Result(w, n) == r && Remainder(w, n) < m <==> r * RAW <= w * n < r * RAW + m
  {
  }

  /** The first word that hits r. */
  function First(n: nat, r: nat): nat
    requires n > 0
  {
    CeilDiv(r * RAW, n)
  }

  /** The numbers from lo up to, but not including, hi. */
  ghost function Range(lo: nat, hi: nat): set<nat>
    decreases hi - lo
  {
    if lo >= hi then {} else Range(lo, hi - 1) + {hi - 1}
  }

  lemma {:induction false} RangeHolds(lo: nat, hi: nat, w: nat)
    ensures w in Range(lo, hi) <==> lo <= w < hi
    decreases hi - lo
  {
    if lo < hi {
      RangeHolds(lo, hi - 1, w);
    }
  }

  lemma {:induction false} RangeSize(lo: nat, hi: nat)
    requires lo <= hi
    ensures |Range(lo, hi)| == hi - lo
    decreases hi - lo
  {
    if lo < hi {
      RangeSize(lo, hi - 1);
      RangeHolds(lo, hi - 1, hi - 1);
    }
  }

  // ----- The exact sampler

  /** The raw words that are accepted with result r. */
  ghost function Hits(n: nat, r: nat): set<nat>
    requires n > 0
  {
    set w: nat | w < RAW && Accepted(w, n) && Result(w, n) == r
  }

  lemma {:induction false} HitsAreRun(n: nat, r: nat)
    requires 0 < n < RAW && r < n
    ensures Hits(n, r) == Range(First(n, r), First(n, r) + Quota(n))
  {
    hide Result, Remainder, Limit, CeilDiv;
    var c, q := First(n, r), Quota(n);
    LimitMeaning(n);
    forall w: nat
      ensures w in Hits(n, r) <==> w in Range(c, c + q)
    {
      RangeHolds(c, c + q, w);
      HitMeaning(w, n, r, q * n);
      CeilDivIsLeast(r * RAW, n, w);
      if w >= q {
        Difference(w, q, n);
        CeilDivIsLeast(r * RAW, n, w - q);
      } else {
        OneMore(q - 1, n);
        Monotone(w, q - 1, n);
      }
      if r * RAW <= w * n < r * RAW + q * n {
        Monotone(r + 1, n, RAW);
        assert w * n < n * RAW;
        if w >= RAW {
          Monotone(RAW, w, n);
        }
      }
    }
  }

  /** Every result of the interval is hit by the same number of accepted raw words. */
  lemma {:induction false} ExactlyUniform(n: nat, r: nat)
    requires 0 < n < RAW && r < n
    ensures |Hits(n, r)| == Quota(n)
  {
    HitsAreRun(n, r);
    RangeSize(First(n, r), First(n, r) + Quota(n));
  }

  lemma {:induction false} ResultInRange(w: nat, n: nat)
    requires w < RAW && n > 0
    ensures Result(w, n) < n
  {
    Monotone(w + 1, RAW, n);
    assert (w + 1) * n == w * n + n;
    HitMeaning(w, n, Result(w, n), RAW);
    if Result(w, n) >= n {
      Monotone(n, Result(w, n), RAW);
    }
  }

  ghost function AcceptedBelow(n: nat, r: nat): set<nat>
    requires n > 0
  {
    set w: nat | w < RAW && Accepted(w, n) && Result(w, n) < r
  }

  lemma {:induction false} CountAcceptedBelow(n: nat, r: nat)
    requires 0 < n < RAW && r <= n
    ensures |AcceptedBelow(n, r)| == r * Quota(n)
  {
    hide Result, Remainder, Limit, Quota;
    if r > 0 {
      CountAcceptedBelow(n, r - 1);
      ExactlyUniform(n, r - 1);
      assert AcceptedBelow(n, r) == AcceptedBelow(n, r - 1) + Hits(n, r - 1);
      assert AcceptedBelow(n, r - 1) !! Hits(n, r - 1);
      assert r * Quota(n) == (r - 1) * Quota(n) + Quota(n);
    } else {
      assert AcceptedBelow(n, 0) == {};
    }
  }

  /** More than half of all raw words are accepted. */
  lemma {:induction false} MajorityAccepted(n: nat)
    requires 0 < n < RAW
    ensures 2 * |set w: nat | w < RAW && Accepted(w, n)| > RAW
  {
    hide Result, Remainder, Limit, Quota;
    var all := set w: nat | w < RAW && Accepted(w, n);
    CountAcceptedBelow(n, n);
    forall w: nat | w in all
      ensures w in AcceptedBelow(n, n)
    {
      ResultInRange(w, n);
    }
    assert all == AcceptedBelow(n, n);
    LimitMeaning(n);
    QuotaOnce(n);
    AtLeastOnce(Quota(n), n);
  }

  lemma {:induction false} QuotaOnce(n: nat)
    requires 0 < n < RAW
    ensures Quota(n) >= 1
  {
    DivMod(RAW, n);
  }

  // ----- The plain sampler, which rejects nothing

  ghost function PlainHits(n: nat, r: nat): set<nat> {
    set w: nat | w < RAW && Result(w, n) == r
  }

  lemma {:induction false} PlainHitsAreRun(n: nat, r: nat)
    requires 0 < n < RAW && r < n
    ensures First(n, r) <= First(n, r + 1)
    ensures PlainHits(n, r) == Range(First(n, r), First(n, r + 1))
    ensures |PlainHits(n, r)| == First(n, r + 1) - First(n, r)
  {
    hide Result, CeilDiv;
    forall w: nat
      ensures w in PlainHits(n, r) <==> w in Range(First(n, r), First(n, r + 1))
    {
      RangeHolds(First(n, r), First(n, r + 1), w);
      HitMeaning(w, n, r, RAW);
      CeilDivIsLeast(r * RAW, n, w);
      CeilDivIsLeast((r + 1) * RAW, n, w);
      if w * n < (r + 1) * RAW {
        Monotone(r + 1, n, RAW);
        if w >= RAW {
          Monotone(RAW, w, n);
        }
      }
    }
    CeilDivIsLeast(r * RAW, n, First(n, r + 1));
    CeilDivIsLeast((r + 1) * RAW, n, First(n, r + 1));
    RangeSize(First(n, r), First(n, r + 1));
  }

  lemma {:induction false} GapAtLeast(x: nat, d: nat, q: nat, n: nat)
    requires n > 0 && q * n <= d
    ensures CeilDiv(x, n) + q <= CeilDiv(x + d, n)
  {
    hide CeilDiv;
    var b := CeilDiv(x + d, n);
    CeilDivIsLeast(x + d, n, b);
    if b >= q {
      Difference(b, q, n);
      CeilDivIsLeast(x, n, b - q);
    } else {
      OneMore(q - 1, n);
      Monotone(b, q - 1, n);
    }
  }

  lemma {:induction false} GapAtMost(x: nat, d: nat, q: nat, n: nat)
    requires n > 0 && d < q * n + n
    ensures CeilDiv(x + d, n) <= CeilDiv(x, n) + q + 1
  {
    hide CeilDiv;
    var a := CeilDiv(x, n);
    CeilDivIsLeast(x, n, a);
    CeilDivIsLeast(x + d, n, a + q + 1);
    assert (a + q + 1) * n == a * n + (q * n + n);
  }

  /** The frequencies of two results differ by at most one raw word in 2^32. */
  lemma {:induction false} AlmostUniform(n: nat, r: nat)
    requires 0 < n < RAW && r < n
    ensures Quota(n) <= |PlainHits(n, r)| <= Quota(n) + 1
  {
    hide CeilDiv, PlainHits;
    PlainHitsAreRun(n, r);
    DivMod(RAW, n);
    assert (r + 1) * RAW == r * RAW + RAW;
    GapAtLeast(r * RAW, RAW, Quota(n), n);
    GapAtMost(r * RAW, RAW, Quota(n), n);
  }

  /** The frequencies are all equal exactly when the interval divides 2^32, that is, when it is a
      power of two. */
  lemma {:induction false} UniformIffDivides(n: nat)
    requires 0 < n < RAW
    ensures (forall r: nat :: r < n ==> |PlainHits(n, r)| == Quota(n)) <==> RAW % n == 0
  {
    var q := Quota(n);
    if forall r: nat :: r < n ==> |PlainHits(n, r)| == q {
      FirstIfUniform(n, n);
      CeilDivIsLeast(n * RAW, n, RAW);
      CeilDivIsLeast(n * RAW, n, n * q);
      if n * q < RAW {
        OneMore(n * q, n);
        Monotone(n * q + 1, RAW, n);
      }
      DivMod(RAW, n);
      assert q * n == RAW;
      DividesFromProduct(q, n);
    }
    if RAW % n == 0 {
      forall r: nat | r < n
        ensures |PlainHits(n, r)| == q
      {
        PlainHitsAreRun(n, r);
        FirstIfDivides(n, r);
        FirstIfDivides(n, r + 1);
        assert (r + 1) * q == r * q + q;
      }
    }
  }

  lemma {:induction false} DividesFromProduct(q: nat, n: nat)
    requires n > 0 && q * n == RAW
    ensures RAW % n == 0
  {
    DivMod(RAW, n);
    var d := RAW / n;
    if d > q {
      OneMore(q, n);
      Monotone(q + 1, d, n);
    } else if d < q {
      OneMore(d, n);
      Monotone(d + 1, q, n);
    }
  }

  lemma {:induction false} FirstIfUniform(n: nat, k: nat)
    requires 0 < n < RAW && k <= n
    requires forall r: nat :: r < n ==> |PlainHits(n, r)| == Quota(n)
    ensures First(n, k) == k * Quota(n)
  {
    hide CeilDiv, Quota;
    if k > 0 {
      FirstIfUniform(n, k - 1);
      PlainHitsAreRun(n, k - 1);
      OneMore(k - 1, Quota(n));
    } else {
      CeilDivIsLeast(0, n, 0);
    }
  }

  lemma {:induction false} FirstIfDivides(n: nat, k: nat)
    requires 0 < n < RAW && RAW % n == 0
    ensures First(n, k) == k * Quota(n)
  {
    hide CeilDiv;
    var q := Quota(n);
    assert q * n == RAW;
    assert k * q * n == k * RAW;
    CeilDivIsLeast(k * RAW, n, k * q);
    var f := First(n, k);
    if f < k * q {
      CeilDivIsLeast(k * RAW, n, f);
      OneMore(f, n);
      Monotone(f + 1, k * q, n);
    }
  }
}
