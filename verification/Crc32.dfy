/** The provisioning log's CRC-32 (libhoth_provisioning_crc32), bit by bit and by table. */
module Crc32 {
  import opened Words

  function Shr1(c: word): word {
    c >> 1
  }

  function Feedback(c: word): word {
    if c & 1 == 1 then 0xEDB88320 else 0
  }

  /** One bit: `crc = (crc >> 1) ^ ((crc & 1) ? polynomial : 0)`. */
  function Step(c: word): word {
    Xor(Shr1(c), Feedback(c))
  }

  /** One byte's worth of bits. */
  function Eight(c: word): word {
    Step(Step(Step(Step(Step(Step(Step(Step(c))))))))
  }

  function Widen(b: octet): word {
    b as word
  }

  function Fold(c: word, buf: seq<octet>): word
    decreases |buf|
  {
    if buf == [] then c else Fold(Eight(Xor(c, Widen(buf[0]))), buf[1..])
  }

  function Not(c: word): word {
    !c
  }

  function Crc(initial: word, buf: seq<octet>): word {
    Not(Fold(Not(initial), buf))
  }

  lemma NotLaws(c: word)
    ensures Not(Not(c)) == c && Not(c) == Xor(c, 0xFFFF_FFFF)
  {
  }

  // ---- linearity ----

  lemma Shr1Linear(x: word, y: word)
    ensures Shr1(Xor(x, y)) == Xor(Shr1(x), Shr1(y))
  {
    calc {
      Shr1(Xor(x, y));
      Shr1(x ^ y);
      (x ^ y) >> 1;
      (x >> 1) ^ (y >> 1);
      Shr1(x) ^ (y >> 1);
      Shr1(x) ^ Shr1(y);
      Xor(Shr1(x), Shr1(y));
    }
  }

  lemma FeedbackLinear(x: word, y: word)
    ensures Feedback(Xor(x, y)) == Xor(Feedback(x), Feedback(y))
  {
    assert Xor(x, y) & 1 == (x & 1) ^ (y & 1);
  }

  lemma StepLinear(x: word, y: word)
    ensures Step(Xor(x, y)) == Xor(Step(x), Step(y))
  {
    hide Xor, Shr1, Feedback;
    Shr1Linear(x, y);
    FeedbackLinear(x, y);
    XorRegroup(Shr1(x), Shr1(y), Feedback(x), Feedback(y));
  }

  lemma EightLinear(x: word, y: word)
    ensures Eight(Xor(x, y)) == Xor(Eight(x), Eight(y))
  {
    hide Xor, Step;
    var x1, y1 := Step(x), Step(y);
    var x2, y2 := Step(x1), Step(y1);
    var x3, y3 := Step(x2), Step(y2);
    var x4, y4 := Step(x3), Step(y3);
    var x5, y5 := Step(x4), Step(y4);
    var x6, y6 := Step(x5), Step(y5);
    var x7, y7 := Step(x6), Step(y6);
    StepLinear(x, y);
    StepLinear(x1, y1);
    StepLinear(x2, y2);
    StepLinear(x3, y3);
    StepLinear(x4, y4);
    StepLinear(x5, y5);
    StepLinear(x6, y6);
    StepLinear(x7, y7);
  }

  // ---- the table-driven form of section 8 of RFC 1952 ----

  /** `make_crc_table`: one bit of the entry for a byte. */
  function TableStep(c: word): word {
    if c & 1 == 1 then 0xedb88320 ^ (c >> 1) else c >> 1
  }

  function Table(n: octet): word {
    var c := Widen(n);
    TableStep(TableStep(TableStep(TableStep(TableStep(TableStep(TableStep(TableStep(c))))))))
  }

  function LowOctet(c: word): octet {
    (c & 0xFF) as octet
  }

  function Shr8(c: word): word {
    c >> 8
  }

  /** `update_crc`: `c = crc_table[(c ^ buf[n]) & 0xff] ^ (c >> 8)`. */
  function TableUpdate(c: word, b: octet): word {
    Xor(Table(LowOctet(Xor(c, Widen(b)))), Shr8(c))
  }

  function TableFold(c: word, buf: seq<octet>): word
    decreases |buf|
  {
    if buf == [] then c else TableFold(TableUpdate(c, buf[0]), buf[1..])
  }

  function TableCrc(initial: word, buf: seq<octet>): word {
    Xor(TableFold(Xor(initial, 0xFFFF_FFFF), buf), 0xFFFF_FFFF)
  }

  lemma TableStepShifts(c: word)
    ensures TableStep(c) == if Feedback(c) == 0 then Shr1(c) else Xor(0xEDB88320, Shr1(c))
    ensures Feedback(c) == 0 || Feedback(c) == 0xEDB88320
  {
  }

  lemma TableStepIsStep(c: word)
    ensures TableStep(c) == Step(c)
  {
    hide TableStep, Feedback, Shr1, Xor;
    TableStepShifts(c);
    XorCommutes(0xEDB88320, Shr1(c));
    XorZero(Shr1(c), 0);
  }

  /** No bit of `mask` is set. */
  predicate Clear(c: word, mask: word) {
    c & mask == 0
  }

  /** An even word is only shifted. */
  lemma StepOfEven(c: word, mask: word, rest: word)
    requires mask & 1 == 1 && rest == mask >> 1 && Clear(c, mask)
    ensures Step(c) == Shr1(c) && Clear(Shr1(c), rest)
  {
    assert c & 1 == 0;
  }

  lemma EightShifts(c: word)
    ensures Shr1(Shr1(Shr1(Shr1(Shr1(Shr1(Shr1(Shr1(c)))))))) == Shr8(c)
  {
  }

  /** The upper 24 bits reach the lower ones unchanged. */
  lemma EightOfHigh(c: word)
    requires Clear(c, 0xFF)
    ensures Eight(c) == Shr8(c)
  {
    hide Step, Shr1, Clear, Shr8;
    StepOfEven(c, 0xFF, 0x7F);
    StepOfEven(Shr1(c), 0x7F, 0x3F);
    StepOfEven(Shr1(Shr1(c)), 0x3F, 0x1F);
    StepOfEven(Shr1(Shr1(Shr1(c))), 0x1F, 0x0F);
    StepOfEven(Shr1(Shr1(Shr1(Shr1(c)))), 0x0F, 0x07);
    StepOfEven(Shr1(Shr1(Shr1(Shr1(Shr1(c))))), 0x07, 0x03);
    StepOfEven(Shr1(Shr1(Shr1(Shr1(Shr1(Shr1(c)))))), 0x03, 0x01);
    StepOfEven(Shr1(Shr1(Shr1(Shr1(Shr1(Shr1(Shr1(c))))))), 0x01, 0x00);
    EightShifts(c);
  }

  lemma TableIsEight(n: octet)
    ensures Table(n) == Eight(Widen(n))
  {
    hide Step, TableStep, Widen;
    var c := Widen(n);
    TableStepIsStep(c);
    TableStepIsStep(Step(c));
    TableStepIsStep(Step(Step(c)));
    TableStepIsStep(Step(Step(Step(c))));
    TableStepIsStep(Step(Step(Step(Step(c)))));
    TableStepIsStep(Step(Step(Step(Step(Step(c))))));
    TableStepIsStep(Step(Step(Step(Step(Step(Step(c)))))));
    TableStepIsStep(Step(Step(Step(Step(Step(Step(Step(c))))))));
  }

  function High(c: word): word {
    c & 0xFFFF_FF00
  }

  /** A word is its low byte and the rest. */
  lemma SplitWord(x: word)
    ensures x == Xor(Widen(LowOctet(x)), High(x))
    ensures Clear(High(x), 0xFF) && Shr8(High(x)) == Shr8(x)
  {
  }

  lemma ByteIsLow(c: word, b: octet)
    ensures Shr8(Xor(c, Widen(b))) == Shr8(c)
  {
  }

  lemma TableUpdateIsEight(c: word, b: octet)
    ensures TableUpdate(c, b) == Eight(Xor(c, Widen(b)))
  {
    hide Eight, Widen, Table, Xor, Shr8, High, LowOctet, Clear;
    var x := Xor(c, Widen(b));
    SplitWord(x);
    ByteIsLow(c, b);
    TableIsEight(LowOctet(x));
    EightOfHigh(High(x));
    EightLinear(Widen(LowOctet(x)), High(x));
  }

  /** The bit-serial CRC is the table-driven one, whatever the initial value. */
  lemma CrcIsTableCrc(initial: word, buf: seq<octet>)
    ensures Crc(initial, buf) == TableCrc(initial, buf)
  {
    hide Not, Xor, Fold, TableFold;
    FoldIsTableFold(Not(initial), buf);
    NotLaws(initial);
    NotLaws(Fold(Not(initial), buf));
  }

  lemma {:induction false} FoldIsTableFold(c: word, buf: seq<octet>)
    ensures Fold(c, buf) == TableFold(c, buf)
    decreases |buf|
  {
    hide Eight, TableUpdate, Widen, Xor;
    if buf != [] {
      TableUpdateIsEight(c, buf[0]);
      FoldIsTableFold(TableUpdate(c, buf[0]), buf[1..]);
    }
  }

  /** Published check values: the CRC of one zero byte, and of the letter a. */
  lemma KnownAnswers()
    ensures Crc(0, [0]) == 0xD202EF8D && Crc(0, [0x61]) == 0xE8B7BE43
  {
    OneByte(0, 0);
    OneByte(0, 0x61);
    assert Eight(0xFFFF_FFFF) == 0x2DFD_1072;
    assert Eight(0xFFFF_FF9E) == 0x1748_41BC;
  }

  lemma OneByte(initial: word, b: octet)
    ensures Crc(initial, [b]) == Not(Eight(Xor(Not(initial), Widen(b))))
  {
    hide Eight, Xor, Not, Widen;
    var c := Eight(Xor(Not(initial), Widen(b)));
    assert [b][1..] == [];
    assert Fold(Not(initial), [b]) == Fold(c, []) == c;
  }

  // ---- chunks ----

  lemma {:induction false} FoldAppend(c: word, a: seq<octet>, b: seq<octet>)
    ensures Fold(c, a + b) == Fold(Fold(c, a), b)
    decreases |a|
  {
    hide Eight, Widen, Xor;
    if a == [] {
      assert a + b == b;
    } else {
      assert (a + b)[1..] == a[1..] + b;
      FoldAppend(Eight(Xor(c, Widen(a[0]))), a[1..], b);
    }
  }

  /** Continuing from the CRC of one piece gives the CRC of both. */
  lemma CrcOfChunks(initial: word, a: seq<octet>, b: seq<octet>)
    ensures Crc(Crc(initial, a), b) == Crc(initial, a + b)
  {
    hide Not, Fold;
    FoldAppend(Not(initial), a, b);
    NotLaws(Fold(Not(initial), a));
  }

  // ---- error bursts ----

  function Shl1(c: word): word {
    c << 1
  }

  function Shl8(c: word): word {
    c << 8
  }

  /** When its top bit is clear, a step can be taken back: nothing was fed back. */
  lemma StepBackTop(c: word)
    requires Clear(Step(c), 0x8000_0000)
    ensures c == Shl1(Step(c))
  {
    assert c & 1 == 0;
  }

  lemma MaskLaws(s: word, mask: word, rest: word)
    requires mask & 0x8000_0000 != 0 && rest == mask << 1 && Clear(s, mask)
    ensures Clear(s, 0x8000_0000) && Clear(Shl1(s), rest)
  {
  }

  lemma StepBack(c: word, mask: word, rest: word)
    requires mask & 0x8000_0000 != 0 && rest == mask << 1 && Clear(Step(c), mask)
    ensures c == Shl1(Step(c)) && Clear(c, rest)
  {
    hide Step, Clear, Shl1;
    MaskLaws(Step(c), mask, rest);
    StepBackTop(c);
  }

  lemma EightShiftsBack(c: word)
    ensures Shl1(Shl1(Shl1(Shl1(Shl1(Shl1(Shl1(Shl1(c)))))))) == Shl8(c)
  {
  }

  lemma EightBack(c: word)
    requires Clear(Eight(c), 0xFF00_0000)
    ensures c == Shl8(Eight(c))
  {
    hide Step, Clear, Shl1, Shl8;
    var c1 := Step(c);
    var c2 := Step(c1);
    var c3 := Step(c2);
    var c4 := Step(c3);
    var c5 := Step(c4);
    var c6 := Step(c5);
    var c7 := Step(c6);
    StepBack(c7, 0xFF00_0000, 0xFE00_0000);
    StepBack(c6, 0xFE00_0000, 0xFC00_0000);
    StepBack(c5, 0xFC00_0000, 0xF800_0000);
    StepBack(c4, 0xF800_0000, 0xF000_0000);
    StepBack(c3, 0xF000_0000, 0xE000_0000);
    StepBack(c2, 0xE000_0000, 0xC000_0000);
    StepBack(c1, 0xC000_0000, 0x8000_0000);
    StepBack(c, 0x8000_0000, 0);
    EightShiftsBack(Eight(c));
  }

  lemma EightInjective(x: word, y: word)
    requires Eight(x) == Eight(y)
    ensures x == y
  {
    hide Eight, Xor, Clear, Shl8;
    EightLinear(x, y);
    XorZero(Eight(x), Eight(y));
    XorZero(x, y);
    ZeroLaws();
    EightBack(Xor(x, y));
  }

  lemma ZeroLaws()
    ensures Clear(0, 0xFF00_0000) && Shl8(0) == 0
  {
  }

  /** How the CRC states of two buffers differ, from how they differed before and from the bytes. */
  function Delta(d: word, a: seq<octet>, b: seq<octet>): word
    requires |a| == |b|
    decreases |a|
  {
    if a == [] then d else Delta(Eight(Xor(d, Xor(Widen(a[0]), Widen(b[0])))), a[1..], b[1..])
  }

  lemma {:induction false} FoldsDiffer(c: word, c': word, a: seq<octet>, b: seq<octet>)
    requires |a| == |b|
    ensures Xor(Fold(c, a), Fold(c', b)) == Delta(Xor(c, c'), a, b)
    decreases |a|
  {
    hide Xor, Eight, Widen;
    if a != [] {
      var (x, y) := (Widen(a[0]), Widen(b[0]));
      XorRegroup(c, x, c', y);
      EightLinear(Xor(c, x), Xor(c', y));
      FoldsDiffer(Eight(Xor(c, x)), Eight(Xor(c', y)), a[1..], b[1..]);
    }
  }

  /** The bits at or above position 8n, for n up to 3. */
  function Above(n: nat): word
    requires n <= 3
  {
    if n == 0 then 0xFFFF_FFFF else if n == 1 then 0xFFFF_FF00 else if n == 2 then 0xFFFF_0000 else 0xFF00_0000
  }

  lemma BackOneByte(d: word, e: word, s: word, n: nat)
    requires n <= 2 && Clear(s, Above(n)) && Xor(d, e) == Shl8(s) && Clear(e, 0xFFFF_FF00)
    ensures Clear(d, Above(n + 1))
  {
  }

  function Difference(x: octet, y: octet): word {
    Xor(Widen(x), Widen(y))
  }

  lemma DifferenceLaws(x: octet, y: octet)
    ensures Clear(Difference(x, y), 0xFFFF_FF00) && (Difference(x, y) == 0 <==> x == y)
  {
  }

  lemma AboveLaws(s: word, n: nat)
    requires n <= 3 && Clear(s, Above(n))
    ensures Clear(s, 0xFF00_0000) && (n == 0 ==> s == 0)
  {
  }

  lemma ZeroIsClear(n: nat)
    requires n <= 3
    ensures Clear(0, Above(n))
  {
  }

  /** If n further bytes, at most three, make the states meet, they differed in their last n bytes only. */
  lemma {:induction false} DeltaBack(d: word, a: seq<octet>, b: seq<octet>)
    requires |a| == |b| <= 3 && Delta(d, a, b) == 0
    ensures Clear(d, Above(|a|))
    decreases |a|
  {
    hide Xor, Eight, Widen, Clear, Above, Shl8;
    if a == [] {
      ZeroIsClear(0);
    } else {
      var e := Difference(a[0], b[0]);
      var s := Eight(Xor(d, e));
      DifferenceLaws(a[0], b[0]);
      DeltaBack(s, a[1..], b[1..]);
      AboveLaws(s, |a| - 1);
      EightBack(Xor(d, e));
      BackOneByte(d, e, s, |a| - 1);
    }
  }

  lemma ShiftedByteIsZero(e: word, s: word)
    requires Clear(e, 0xFFFF_FF00) && Clear(s, 0xFF00_0000) && e == Shl8(s)
    ensures e == 0 && s == 0
  {
  }

  /** Up to four bytes take equal states to equal states only if they are the same bytes. */
  lemma {:induction false} ShortDifference(a: seq<octet>, b: seq<octet>)
    requires |a| == |b| <= 4 && Delta(0, a, b) == 0
    ensures a == b
    decreases |a|
  {
    hide Xor, Eight, Widen, Clear, Above, Shl8;
    if a != [] {
      var e := Difference(a[0], b[0]);
      var s := Eight(Xor(0, e));
      XorZero(e, 0);
      DifferenceLaws(a[0], b[0]);
      DeltaBack(s, a[1..], b[1..]);
      AboveLaws(s, |a| - 1);
      EightBack(e);
      ShiftedByteIsZero(e, s);
      ShortDifference(a[1..], b[1..]);
      assert a == [a[0]] + a[1..] && b == [b[0]] + b[1..];
    }
  }

  lemma {:induction false} FoldInjective(x: word, y: word, buf: seq<octet>)
    requires Fold(x, buf) == Fold(y, buf)
    ensures x == y
    decreases |buf|
  {
    hide Xor, Eight, Widen;
    if buf != [] {
      var w := Widen(buf[0]);
      FoldInjective(Eight(Xor(x, w)), Eight(Xor(y, w)), buf[1..]);
      EightInjective(Xor(x, w), Xor(y, w));
      XorRegroup(x, w, y, w);
      XorZero(Xor(x, w), Xor(y, w));
      XorZero(w, w);
      XorZero(Xor(x, y), 0);
      XorZero(x, y);
    }
  }

  /** Buffers that differ, but only within four consecutive bytes, have different CRCs. */
  lemma BurstsAreDetected(initial: word, a: seq<octet>, b: seq<octet>, start: nat)
    requires |a| == |b| && a != b
    requires forall i :: 0 <= i < |a| && a[i] != b[i] ==> start <= i < start + 4
    ensures Crc(initial, a) != Crc(initial, b)
  {
    hide Fold, Not, Xor;
    var lo, hi := if start < |a| then start else |a|, if start + 4 < |a| then start + 4 else |a|;
    var pre, post := a[..lo], a[hi..];
    assert pre == b[..lo] && post == b[hi..];
    assert a == pre + a[lo..hi] + post && b == pre + b[lo..hi] + post;
    var c := Fold(Not(initial), pre);
    var x, y := Fold(c, a[lo..hi]), Fold(c, b[lo..hi]);
    FoldAppend(Not(initial), pre, a[lo..hi]);
    FoldAppend(Not(initial), pre + a[lo..hi], post);
    FoldAppend(Not(initial), pre, b[lo..hi]);
    FoldAppend(Not(initial), pre + b[lo..hi], post);
    if Crc(initial, a) == Crc(initial, b) {
      NotLaws(Fold(x, post));
      NotLaws(Fold(y, post));
      FoldInjective(x, y, post);
      FoldsDiffer(c, c, a[lo..hi], b[lo..hi]);
      XorZero(c, c);
      XorZero(x, y);
      ShortDifference(a[lo..hi], b[lo..hi]);
    }
  }

  // ---- the code ----

  /** libhoth_provisioning_crc32 */
  method Compute(initial: word, buf: seq<octet>) returns (crc: word)
    ensures crc == Crc(initial, buf)
  {
    hide Fold, Eight, Xor, Widen, Step;
    crc := !initial;
    for i := 0 to |buf|
      invariant Fold(crc, buf[i..]) == Fold(!initial, buf)
    {
      ghost var before := crc;
      crc := crc ^ (buf[i] as word);
      crc := EightBits(crc);
      FoldStep(before, buf, i);
    }
    FoldEnd(crc, buf);
    crc := !crc;
  }

  lemma FoldStep(c: word, buf: seq<octet>, i: nat)
    requires i < |buf|
    ensures Fold(c, buf[i..]) == Fold(Eight(c ^ (buf[i] as word)), buf[i + 1..])
  {
    hide Eight;
    assert buf[i..][0] == buf[i] && buf[i..][1..] == buf[i + 1..];
  }

  lemma FoldEnd(c: word, buf: seq<octet>)
    ensures Fold(c, buf[|buf|..]) == c
  {
  }

  /** `n` bits of the inner loop. */
  function Steps(c: word, n: nat): word
    decreases n
  {
    if n == 0 then c else Steps(Step(c), n - 1)
  }

  /** The inner loop of libhoth_provisioning_crc32. */
  method EightBits(c: word) returns (crc: word)
    ensures crc == Eight(c)
  {
    hide Steps, Eight;
    crc := c;
    StepsAreEight(c);
    for j := 0 to 8
      invariant Steps(crc, 8 - j) == Eight(c)
    {
      StepsStep(crc, 8 - j);
      crc := (crc >> 1) ^ (if crc & 1 != 0 then 0xEDB88320 else 0);
    }
    StepsEnd(crc);
  }

  lemma StepsStep(c: word, n: nat)
    requires n > 0
    ensures Steps(c, n) == Steps((c >> 1) ^ (if c & 1 != 0 then 0xEDB88320 else 0), n - 1)
  {
    hide Step;
    StepIs(c);
  }

  lemma StepIs(c: word)
    ensures Step(c) == (c >> 1) ^ (if c & 1 != 0 then 0xEDB88320 else 0)
  {
    FeedbackIs(c);
    hide Feedback;
    calc {
      Step(c);
      Xor(Shr1(c), Feedback(c));
      Shr1(c) ^ Feedback(c);
      (c >> 1) ^ Feedback(c);
    }
  }

  lemma FeedbackIs(c: word)
    ensures Feedback(c) == if c & 1 != 0 then 0xEDB88320 else 0
  {
    OddBit(c);
  }

  lemma OddBit(c: word)
    ensures c & 1 != 0 <==> c & 1 == 1
  {
  }

  lemma StepsEnd(c: word)
    ensures Steps(c, 0) == c
  {
  }

  lemma StepsAreEight(c: word)
    ensures Steps(c, 8) == Eight(c)
  {
    hide Step;
    assert Steps(c, 8) == Steps(Step(c), 7) == Steps(Step(Step(c)), 6) == Steps(Step(Step(Step(c))), 5)
        == Steps(Step(Step(Step(Step(c)))), 4);
  }
}
