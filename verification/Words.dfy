/** The 32-bit machine word and its exclusive or. */
module Words {
  type word = bv32

  function Xor(x: word, y: word): word { x ^ y }

  lemma {:induction false} XorAssociates(x: word, y: word, z: word)
    ensures Xor(Xor(x, y), z) == Xor(x, Xor(y, z))
  {
  }

  lemma {:induction false} XorCommutes(x: word, y: word)
    ensures Xor(x, y) == Xor(y, x)
  {
  }

  lemma {:induction false} XorUnits(x: word)
    ensures Xor(x, 0) == x && Xor(0, x) == x && Xor(x, x) == 0
  {
  }

  /** The middle two of four terms may change places. */
  lemma {:induction false} XorSwaps(a: word, b: word, c: word, d: word)
    ensures Xor(Xor(a, b), Xor(c, d)) == Xor(Xor(a, c), Xor(b, d))
  {
    hide Xor;
    XorAssociates(a, b, Xor(c, d));
    XorAssociates(b, c, d);
    XorCommutes(b, c);
    XorAssociates(c, b, d);
    XorAssociates(a, c, Xor(b, d));
  }

  lemma {:induction false} XorInjective(x: word, y: word, z: word)
    requires Xor(x, y) == Xor(x, z)
    ensures y == z
  {
    hide Xor;
    XorAssociates(x, x, y);
    XorAssociates(x, x, z);
    XorUnits(x);
    XorUnits(y);
    XorUnits(z);
  }

  /** The middle word cancels. */
  lemma {:induction false} XorMeets(x: word, y: word, z: word)
    ensures Xor(Xor(x, y), Xor(y, z)) == Xor(x, z)
  {
    hide Xor;
    XorAssociates(x, y, Xor(y, z));
    XorAssociates(y, y, z);
    XorUnits(y);
    XorUnits(z);
  }

  lemma {:induction false} XorZeroIffSame(x: word, y: word)
    ensures Xor(x, y) == 0 <==> x == y
  {
  }
}
