/** The generator of request IDs: 32-bit xorshift (libhoth_generate_pseudorandom_u32). */
module Xorshift {
  import opened Words
  import Integers = Bytes

  function Shl13(x: word): word {
    x << 13
  }

  function Shr17(x: word): word {
    x >> 17
  }

  function Shl5(x: word): word {
    x << 5
  }

  /** One draw: `seed ^= seed << 13; seed ^= seed >> 17; seed ^= seed << 5`. */
  function Next(seed: word): word {
    var a := Xor(seed, Shl13(seed));
    var b := Xor(a, Shr17(a));
    Xor(b, Shl5(b))
  }

  /** `(uint8_t)` of a draw. */
  function LowByte(x: word): bv8 {
    (x & 0xFF) as bv8
  }

  /** The low bytes of the next `n` draws. */
  function Bytes(seed: word, n: nat): (id: seq<bv8>)
    ensures |id| == n
    decreases n
  {
    if n == 0 then [] else [LowByte(Next(seed))] + Bytes(Next(seed), n - 1)
  }

  /** The seed after `n` draws. */
  function Draw(seed: word, n: nat): word
    decreases n
  {
    if n == 0 then seed else Draw(Next(seed), n - 1)
  }

  /** One draw taken off the front. */
  lemma OneDraw(seed: word, n: nat)
    requires n > 0
    ensures Bytes(seed, n) == [LowByte(Next(seed))] + Bytes(Next(seed), n - 1)
    ensures Draw(seed, n) == Draw(Next(seed), n - 1)
  {
  }

  lemma NoDraw(seed: word)
    ensures Bytes(seed, 0) == [] && Draw(seed, 0) == seed
  {
  }

  lemma Shl13Linear(x: word, y: word)
    ensures Shl13(Xor(x, y)) == Xor(Shl13(x), Shl13(y))
  {
    calc {
      Shl13(Xor(x, y));
      Shl13(x ^ y);
      (x ^ y) << 13;
      (x << 13) ^ (y << 13);
      Shl13(x) ^ (y << 13);
      Shl13(x) ^ Shl13(y);
      Xor(Shl13(x), Shl13(y));
    }
  }

  lemma Shr17Linear(x: word, y: word)
    ensures Shr17(Xor(x, y)) == Xor(Shr17(x), Shr17(y))
  {
    calc {
      Shr17(Xor(x, y));
      Shr17(x ^ y);
      (x ^ y) >> 17;
      (x >> 17) ^ (y >> 17);
      Shr17(x) ^ (y >> 17);
      Shr17(x) ^ Shr17(y);
      Xor(Shr17(x), Shr17(y));
    }
  }

  lemma Shl5Linear(x: word, y: word)
    ensures Shl5(Xor(x, y)) == Xor(Shl5(x), Shl5(y))
  {
    calc {
      Shl5(Xor(x, y));
      Shl5(x ^ y);
      (x ^ y) << 5;
      (x << 5) ^ (y << 5);
      Shl5(x) ^ (y << 5);
      Shl5(x) ^ Shl5(y);
      Xor(Shl5(x), Shl5(y));
    }
  }

  lemma SameLowByte(x: word, y: word)
    requires LowByte(x) == LowByte(y)
    ensures LowByte(Xor(x, y)) == 0
  {
    assert x & 0xFF == y & 0xFF;
    assert (x ^ y) & 0xFF == 0;
  }

  lemma NextIsLinear(x: word, y: word)
    ensures Next(Xor(x, y)) == Xor(Next(x), Next(y))
  {
    hide Xor, Shl13, Shr17, Shl5;
    var (a, a') := (Xor(x, Shl13(x)), Xor(y, Shl13(y)));
    var (b, b') := (Xor(a, Shr17(a)), Xor(a', Shr17(a')));
    Shl13Linear(x, y);
    XorRegroup(x, y, Shl13(x), Shl13(y));
    Shr17Linear(a, a');
    XorRegroup(a, a', Shr17(a), Shr17(a'));
    Shl5Linear(b, b');
    XorRegroup(b, b', Shl5(b), Shl5(b'));
  }

  /** A seed other than zero never becomes zero. */
  lemma NextNonZero(x: word)
    requires x != 0
    ensures Next(x) != 0
  {
  }

  lemma {:induction false} DrawNonZero(seed: word, n: nat)
    requires seed != 0
    ensures Draw(seed, n) != 0
    decreases n
  {
    if n != 0 {
      NextNonZero(seed);
      DrawNonZero(Next(seed), n - 1);
    }
  }

  /** No two seeds have the same successor. */
  lemma NextInjective(x: word, y: word)
    requires Next(x) == Next(y)
    ensures x == y
  {
    hide Next, Xor;
    NextIsLinear(x, y);
    XorZero(Next(x), Next(y));
    XorZero(x, y);
    if Xor(x, y) != 0 {
      NextNonZero(Xor(x, y));
    }
  }

  lemma FiveZeroBytes(x: word)
    requires LowByte(Next(x)) == 0 && LowByte(Next(Next(x))) == 0 && LowByte(Next(Next(Next(x)))) == 0
    requires LowByte(Next(Next(Next(Next(x))))) == 0
    requires LowByte(Next(Next(Next(Next(Next(x)))))) == 0
    ensures x == 0
  {
  }

  lemma {:induction false} SameBytes(x: word, y: word, n: nat, k: nat)
    requires Bytes(x, n) == Bytes(y, n) && k < n
    ensures LowByte(Draw(Xor(x, y), k + 1)) == 0
    decreases n
  {
    hide Next, Xor, LowByte;
    NextIsLinear(x, y);
    assert Bytes(x, n)[0] == LowByte(Next(x)) && Bytes(y, n)[0] == LowByte(Next(y));
    if k == 0 {
      SameLowByte(Next(x), Next(y));
      assert Draw(Xor(x, y), 1) == Draw(Next(Xor(x, y)), 0);
    } else {
      assert Bytes(x, n)[1..] == Bytes(Next(x), n - 1) && Bytes(y, n)[1..] == Bytes(Next(y), n - 1);
      SameBytes(Next(x), Next(y), n - 1, k - 1);
    }
  }

  /** Requests sent from different seeds have different IDs: already their first five bytes differ. */
  lemma IdsDetermineSeeds(x: word, y: word, n: nat)
    requires n >= 5 && Bytes(x, n) == Bytes(y, n)
    ensures x == y
  {
    hide Next, LowByte, Xor;
    var d := Xor(x, y);
    SameBytes(x, y, n, 0);
    SameBytes(x, y, n, 1);
    SameBytes(x, y, n, 2);
    SameBytes(x, y, n, 3);
    SameBytes(x, y, n, 4);
    FirstDraws(d);
    FiveZeroBytes(d);
    XorZero(x, y);
  }

  lemma FirstDraws(d: word)
    ensures Draw(d, 1) == Next(d) && Draw(d, 2) == Next(Next(d)) && Draw(d, 3) == Next(Next(Next(d)))
    ensures Draw(d, 4) == Next(Next(Next(Next(d)))) && Draw(d, 5) == Next(Next(Next(Next(Next(d)))))
  {
    hide Next;
    assert Draw(d, 2) == Draw(Next(d), 1);
    assert Draw(d, 3) == Draw(Next(d), 2) == Draw(Next(Next(d)), 1);
    assert Draw(d, 4) == Draw(Next(d), 3) == Draw(Next(Next(d)), 2) == Draw(Next(Next(Next(d))), 1);
    assert Draw(d, 5) == Draw(Next(d), 4) == Draw(Next(Next(d)), 3) == Draw(Next(Next(Next(d))), 2);
  }

  // ---- the generator moves on ----

  /** No seed but zero is its own successor. */
  lemma NextMoves(x: word)
    requires Next(x) == x
    ensures x == 0
  {
  }

  lemma {:induction false} DrawIsLinear(x: word, y: word, n: nat)
    ensures Draw(Xor(x, y), n) == Xor(Draw(x, n), Draw(y, n))
    decreases n
  {
    hide Next, Xor;
    if n != 0 {
      NextIsLinear(x, y);
      DrawIsLinear(Next(x), Next(y), n - 1);
    }
  }

  lemma {:induction false} DrawTwice(x: word, m: nat, n: nat)
    ensures Draw(x, m + n) == Draw(Draw(x, m), n)
    decreases m
  {
    hide Next;
    if m != 0 {
      DrawTwice(Next(x), m - 1, n);
    }
  }

  /**
   * However many times it doubles, no power of two of draws leads a seed other than zero back to itself: over
   * GF(2), where squaring is additive, "draw and take the difference" applied so often is injective.
   */
  lemma {:induction false} DrawMoves(x: word, k: nat)
    requires Draw(x, Integers.Pow2(k)) == x
    ensures x == 0
    decreases k
  {
    hide Next, Xor;
    if k == 0 {
      assert Integers.Pow2(0) == 1 && Draw(x, 1) == Draw(Next(x), 0) == Next(x);
      NextMoves(x);
    } else {
      var m := Integers.Pow2(k - 1);
      var y := Draw(x, m);
      DrawTwice(x, m, m);
      DrawIsLinear(y, x, m);
      XorCommutes(x, y);
      assert Draw(y, m) == x && Draw(Xor(y, x), m) == Xor(x, y) == Xor(y, x);
      DrawMoves(Xor(y, x), k - 1);
      XorZero(y, x);
      DrawMoves(x, k - 1);
    }
  }

  /** IDs drawn a power of two of draws apart, such as those of successive requests, differ. */
  lemma LaterIdsDiffer(seed: word, k: nat)
    requires seed != 0
    ensures Bytes(Draw(seed, Integers.Pow2(k)), 16) != Bytes(seed, 16)
  {
    hide Bytes, Draw;
    if Bytes(Draw(seed, Integers.Pow2(k)), 16) == Bytes(seed, 16) {
      IdsDetermineSeeds(Draw(seed, Integers.Pow2(k)), seed, 16);
      DrawMoves(seed, k);
    }
  }

  /** The first draws from the seed 1, as published for this generator. */
  lemma KnownDraws()
    ensures Next(1) == 270369 && Next(270369) == 67634689 && Next(67634689) == 2647435461
    ensures LowByte(270369) == 0x21 && LowByte(67634689) == 0x01 && LowByte(2647435461) == 0xC5
  {
  }
}
