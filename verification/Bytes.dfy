/** Bytes, the bitwise AND a NOR cell performs, and the fixed-width integers of the wire formats. */
module Bytes {
  type byte = n: int | 0 <= n < 256

  /** LIBHOTH_MAILBOX_SIZE: a request or a response with all its headers. */
  const MAILBOX_SIZE := 1024

  datatype Option<+T> = None | Some(value: T)

  /** Bitwise AND, bit by bit from the least significant end. */
  function And(a: nat, b: nat): (r: nat)
    ensures r <= a && r <= b
  {
    if a == 0 || b == 0 then 0
    else 2 * And(a / 2, b / 2) + (if a % 2 == 1 && b % 2 == 1 then 1 else 0)
  }

  /** ANDing with a run of ones wide enough leaves a number as it was. */
  lemma {:induction false} AndOnes(a: nat, ones: nat, bits: nat)
    requires a < Pow2(bits) && ones == Pow2(bits) - 1
    ensures And(a, ones) == a && And(ones, a) == a
  {
    if bits != 0 && a != 0 {
      assert ones / 2 == Pow2(bits - 1) - 1 && ones % 2 == 1;
      AndOnes(a / 2, ones / 2, bits - 1);
    }
  }

  function Pow2(n: nat): (p: nat)
    ensures p > 0
  {
    if n == 0 then 1 else 2 * Pow2(n - 1)
  }

  lemma AndFF(b: byte)
    ensures And(b, 0xFF) == b && And(0xFF, b) == b
  {
    assert Pow2(8) == 256 by { assert Pow2(4) == 16; assert Pow2(6) == 64; }
    AndOnes(b, 255, 8);
  }

  /** A 16-bit integer, least significant byte first. */
  function Le16(n: nat): (s: seq<byte>)
    ensures |s| == 2
  {
    [n % 256, n / 256 % 256]
  }

  /** A longer integer from its more and less significant parts. */
  function Join(hi: nat, lo: nat): nat {
    256 * hi + lo
  }

  function FromLe16(lo: byte, hi: byte): nat {
    Join(hi, lo)
  }

  lemma Le16RoundTrip(n: nat)
    requires n < 0x1_0000
    ensures FromLe16(Le16(n)[0], Le16(n)[1]) == n
  {
  }

  lemma Le16Canonical(lo: byte, hi: byte)
    ensures Le16(FromLe16(lo, hi)) == [lo, hi] && FromLe16(lo, hi) < 0x1_0000
  {
    var n := FromLe16(lo, hi);
    assert n / 256 == hi && n % 256 == lo;
  }

  function Min(a: nat, b: nat): nat {
    if a < b then a else b
  }

  /** A slice of a slice. */
  lemma SliceOfSlice<T>(s: seq<T>, a: nat, b: nat, c: nat, d: nat)
    requires a <= b <= |s| && c <= d <= b - a
    ensures s[a..b][c..d] == s[a + c..a + d]
  {
    forall i | 0 <= i < d - c ensures s[a..b][c..d][i] == s[a + c..a + d][i] {
      assert s[a..b][c + i] == s[a + (c + i)];
    }
  }

  function Flatten(parts: seq<seq<byte>>): seq<byte> {
    if parts == [] then [] else parts[0] + Flatten(parts[1..])
  }
}
