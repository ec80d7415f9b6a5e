/**
 * 32-bit words as vectors over GF(2). Exclusive or and the shifts are named, so that proofs can `hide` them
 * and rest on the algebra below instead of on single bits.
 */
module Words {
  type word = bv32
  type octet = bv8

  function Xor(a: word, b: word): word {
    a ^ b
  }

  lemma XorCommutes(a: word, b: word)
    ensures Xor(a, b) == Xor(b, a)
  {
  }

  lemma XorZero(a: word, b: word)
    ensures Xor(a, 0) == a && Xor(0, a) == a
    ensures Xor(a, b) == 0 <==> a == b
  {
    assert a ^ 0 == a && 0 ^ a == a;
    if a ^ b == 0 {
      calc {
        a;
        (a ^ b) ^ b;
        b;
      }
    }
  }

  lemma XorRegroup(a: word, b: word, c: word, d: word)
    ensures Xor(Xor(a, b), Xor(c, d)) == Xor(Xor(a, c), Xor(b, d))
  {
    calc {
      Xor(Xor(a, b), Xor(c, d));
      Xor(a ^ b, Xor(c, d));
      Xor(a ^ b, c ^ d);
      (a ^ b) ^ (c ^ d);
      (a ^ c) ^ (b ^ d);
      Xor(a ^ c, b ^ d);
      Xor(Xor(a, c), b ^ d);
      Xor(Xor(a, c), Xor(b, d));
    }
  }
}
