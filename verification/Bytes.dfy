/** The unsigned char, and numbers as the bytes that hold them. */
module Bytes {
  type byte = x: int | 0 <= x < 256

  function Pow2(n: nat): nat {
    if n == 0 then 1 else 2 * Pow2(n - 1)
  }

  function Pow256(w: nat): nat {
    if w == 0 then 1 else 256 * Pow256(w - 1)
  }

  lemma {:induction false} Pow256Add(m: nat, n: nat)
    ensures Pow256(m + n) == Pow256(m) * Pow256(n)
    decreases m
  {
    if m > 0 {
      Pow256Add(m - 1, n);
      assert 256 * (Pow256(m - 1) * Pow256(n)) == 256 * Pow256(m - 1) * Pow256(n);
    }
  }

  /** A number in memory, lowest byte first. */
  function LeBytes(n: nat, w: nat): (s: seq<byte>)
    ensures |s| == w
  {
    if w == 0 then [] else [n % 256] + LeBytes(n / 256, w - 1)
  }

  function FromLe(s: seq<byte>): (n: nat)
    decreases |s|
  {
    if s == [] then 0 else s[0] + 256 * FromLe(s[1..])
  }

  lemma {:induction false} FromLeBound(s: seq<byte>)
    ensures FromLe(s) < Pow256(|s|)
    decreases |s|
  {
    if s != [] {
      FromLeBound(s[1..]);
    }
  }

  lemma {:induction false} LeRoundTrip(n: nat, w: nat)
    requires n < Pow256(w)
    ensures FromLe(LeBytes(n, w)) == n
    decreases w
  {
    if w > 0 {
      LeRoundTrip(n / 256, w - 1);
    }
  }

  lemma {:induction false} BytesAreLe(s: seq<byte>)
    ensures LeBytes(FromLe(s), |s|) == s
    decreases |s|
  {
    if s != [] {
      BytesAreLe(s[1..]);
      assert FromLe(s) % 256 == s[0] && FromLe(s) / 256 == FromLe(s[1..]);
    }
  }

  /** Which byte holds which digit: the lowest first. */
  lemma {:induction false} LeBytesAt(n: nat, w: nat, k: nat)
    requires k < w
    ensures Pow256(k) > 0 && LeBytes(n, w)[k] == n / Pow256(k) % 256
    decreases k
  {
    if k > 0 {
      LeBytesAt(n / 256, w - 1, k - 1);
      DivTwice(n, 256, Pow256(k - 1));
    }
  }

  lemma {:induction false} DivTwice(n: nat, a: nat, b: nat)
    requires a > 0 && b > 0
    ensures a * b > 0 && n / a / b == n / (a * b)
  {
    var q := n / a / b;
    var r := n / a % b;
    assert n / a == q * b + r;
    assert n == (q * b + r) * a + n % a;
    assert (q * b + r) * a == q * (a * b) + r * a;
    var t := r * a + n % a;
    Below(r, b, a);
    assert n == q * (a * b) + t && 0 <= t < a * b;
    QuotientIs(n, a * b, q, t);
  }

  lemma {:induction false} Below(r: nat, b: nat, a: nat)
    requires r < b && a > 0
    ensures r * a + a <= a * b
  {
    assert (b - r - 1) * a >= 0;
    assert a * b == r * a + a + (b - r - 1) * a;
  }

  lemma {:induction false} QuotientIs(n: nat, d: nat, q: nat, t: nat)
    requires d > 0 && n == q * d + t && t < d
    ensures n / d == q
  {
    var e := n / d - q;
    assert n == n / d * d + n % d;
    assert (n / d - q) * d == n / d * d - q * d;
    assert e * d == t - n % d;
    if e >= 1 {
      AtLeast(e, d);
    } else if e <= -1 {
      AtLeast(-e, d);
    }
  }

  lemma {:induction false} AtLeast(e: int, d: int)
    requires e >= 1 && d >= 0
    ensures e * d >= d && -e * d <= -d
  {
    assert (e - 1) * d >= 0;
  }

  lemma {:induction false} FromLeConcat(a: seq<byte>, b: seq<byte>)
    ensures FromLe(a + b) == FromLe(a) + Pow256(|a|) * FromLe(b)
    decreases |a|
  {
    if a == [] {
      assert a + b == b;
    } else {
      assert (a + b)[0] == a[0] && (a + b)[1..] == a[1..] + b;
      FromLeConcat(a[1..], b);
      assert 256 * (Pow256(|a| - 1) * FromLe(b)) == 256 * Pow256(|a| - 1) * FromLe(b);
    }
  }
}
