/** Images of more than 2^32 bytes, whose last packets are sent with offsets that have wrapped. */
module PayloadWrap {
  import opened Bytes
  import opened PayloadPackets

  /** Where the packet of a chunk past 2^32 goes, it clears no bit that the image has there itself. */
  predicate Harmless(image: seq<byte>, c: Packet) {
    c.offset >= 0x1_0000_0000 ==>
      var start := c.offset % 0x1_0000_0000;
      forall k :: 0 <= k < |c.data| && start + k < 0x1_0000_0000 && start + k < |image| ==>
        And(image[start + k], c.data[k]) == image[start + k]
  }

  predicate WrapsHarmlessly(image: seq<byte>) {
    forall c :: c in Chunks(image, 0) ==> Harmless(image, c)
  }

  lemma {:induction false} AllWrittenAppend(mem: seq<byte>, a: seq<Packet>, b: seq<Packet>)
    ensures AllWritten(mem, a + b) == AllWritten(AllWritten(mem, a), b)
    decreases |a|
  {
    hide Written;
    if a == [] {
      assert a + b == b;
    } else {
      assert (a + b)[1..] == a[1..] + b;
      AllWrittenAppend(Written(mem, a[0]), a[1..], b);
    }
  }

  /** The chunks below 2^32, and where the others begin. */
  lemma {:induction false} Split(image: seq<byte>, offset: nat) returns (early: seq<Packet>, late: nat)
    ensures Chunks(image, offset) == early + Chunks(image, late)
    ensures forall c :: c in early ==> c.offset < 0x1_0000_0000
    ensures late >= 0x1_0000_0000 || late >= |image|
    decreases |image| - offset
  {
    hide ChunkLen, Tight;
    early, late := [], offset;
    if offset < 0x1_0000_0000 && offset < |image| {
      if image[offset] == 0xFF {
        early, late := Split(image, offset + 1);
      } else {
        ChunkStep(image, offset);
        var p, n := ChunkAt(image, offset), ChunkLen(image, offset);
        hide Chunks, ChunkAt;
        early, late := Split(image, offset + n);
        assert [p] + (early + Chunks(image, late)) == [p] + early + Chunks(image, late);
        early := [p] + early;
      }
    } else {
      assert [] + Chunks(image, offset) == Chunks(image, offset);
    }
  }

  lemma SentTogether(early: seq<Packet>, rest: seq<Packet>)
    requires forall c :: c in early ==> c.offset < 0x1_0000_0000
    ensures AllSent(early + rest) == early + AllSent(rest)
  {
    forall k | 0 <= k < |early| ensures AllSent(early + rest)[k] == early[k] {
      assert early[k] in early;
    }
  }

  lemma {:induction false} BeyondTheEnd(mem: seq<byte>, ps: seq<Packet>)
    requires forall p :: p in ps ==> p.offset >= |mem|
    ensures AllWritten(mem, ps) == mem
    decreases |ps|
  {
    if ps != [] {
      assert ps[0] in ps && Written(mem, ps[0]) == mem;
      BeyondTheEnd(mem, ps[1..]);
    }
  }

  /** Packets only clear bits; a byte stays as it is exactly when each of them leaves it alone. */
  lemma {:induction false} KeepsIff(m: seq<byte>, ps: seq<Packet>, i: nat)
    requires i < |m|
    ensures AllWritten(m, ps)[i] <= m[i]
    ensures AllWritten(m, ps)[i] == m[i] <==>
      forall p :: p in ps && Holds(p, i) ==> And(m[i], p.data[i - p.offset]) == m[i]
    decreases |ps|
  {
    hide And;
    if ps != [] {
      var m1 := Written(m, ps[0]);
      assert ps == [ps[0]] + ps[1..];
      KeepsIff(m1, ps[1..], i);
      AndShrinks(m[i], if Holds(ps[0], i) then ps[0].data[i - ps[0].offset] else 0);
      hide AllWritten, Written;
    }
  }

  lemma AndShrinks(a: nat, b: nat)
    ensures And(a, b) <= a
  {
  }

  lemma AndBits(a: nat, b: nat)
    ensures And(a, b) / 2 == And(a / 2, b / 2)
    ensures And(a, b) % 2 == if a % 2 == 1 && b % 2 == 1 then 1 else 0
  {
  }

  lemma {:induction false} AndAssociates(a: nat, b: nat, c: nat)
    ensures And(And(a, b), c) == And(a, And(b, c))
    decreases a
  {
    AndBits(a, b);
    AndBits(And(a, b), c);
    AndBits(b, c);
    AndBits(a, And(b, c));
    if a != 0 {
      AndAssociates(a / 2, b / 2, c / 2);
      hide And;
    } else {
      AndShrinks(0, b);
      AndShrinks(And(0, b), c);
      AndShrinks(0, And(b, c));
      hide And;
    }
  }

  /** All of an image's packets are those below 2^32, which merge it, and the ones that have wrapped. */
  lemma EarlyAndLate(mem: seq<byte>, image: seq<byte>) returns (late: seq<Packet>)
    requires |mem| <= 0x1_0000_0000
    ensures AllWritten(mem, Packets(image, 0)) == AllWritten(Merged(mem, image, 0), AllSent(late))
    ensures forall c :: c in late <==> c in Chunks(image, 0) && c.offset >= 0x1_0000_0000
    ensures forall c :: c in late ==> Tight(c, image)
  {
    hide AllWritten, Merged, Chunks, AllSent, Tight;
    var early, start := Split(image, 0);
    late := Chunks(image, start);
    SentTogether(early, late);
    AllWrittenAppend(mem, early, AllSent(late));
    AllWrittenAppend(mem, early, late);
    ChunksMerge(mem, image, 0);
    ChunksAreTight(image, start);
    forall c | c in late ensures c.offset >= 0x1_0000_0000 {
      TightFits(c, image);
    }
    BeyondTheEnd(AllWritten(mem, early), late);
  }

  /** Writing the packets of any image is ANDing it into the staging area if the wrapped ones do no harm. */
  lemma HarmlessPacketsMerge(mem: seq<byte>, image: seq<byte>)
    requires |mem| <= 0x1_0000_0000 && WrapsHarmlessly(image)
    ensures AllWritten(mem, Packets(image, 0)) == Merged(mem, image, 0)
  {
    hide AllWritten, Chunks, And, Packets, Tight;
    var late := EarlyAndLate(mem, image);
    var m := Merged(mem, image, 0);
    forall i | 0 <= i < |m| ensures AllWritten(m, AllSent(late))[i] == m[i] {
      forall p | p in AllSent(late) && Holds(p, i) ensures And(m[i], p.data[i - p.offset]) == m[i] {
        var c :| c in late && p == Sent(c);
        TightFits(c, image);
        assert Harmless(image, c);
        var b := c.data[i - p.offset];
        assert And(image[p.offset + (i - p.offset)], b) == image[i];
        AndAssociates(mem[i], image[i], b);
      }
      KeepsIff(m, AllSent(late), i);
    }
  }

  /** Some staging area does not hold the merged image when a wrapped packet does harm: an erased one. */
  lemma HarmIsDone(image: seq<byte>, c: Packet)
    requires c in Chunks(image, 0) && !Harmless(image, c)
    ensures
      var erased := seq<byte>(0x1_0000_0000, i => 0xFF);
      AllWritten(erased, Packets(image, 0)) != Merged(erased, image, 0)
  {
    hide AllWritten, Chunks, And, Packets, Tight;
    var erased := seq<byte>(0x1_0000_0000, i => 0xFF);
    var late := EarlyAndLate(erased, image);
    var m, p := Merged(erased, image, 0), Sent(c);
    TightFits(c, image);
    var k :| 0 <= k < |c.data| && p.offset + k < 0x1_0000_0000 && p.offset + k < |image|
      && And(image[p.offset + k], c.data[k]) != image[p.offset + k];
    var i := p.offset + k;
    AndFF(image[i]);
    assert m[i] == image[i];
    SentIsIn(late, c);
    KeepsIff(m, AllSent(late), i);
  }

  lemma SentIsIn(cs: seq<Packet>, c: Packet)
    requires c in cs
    ensures Sent(c) in AllSent(cs)
  {
    var k :| 0 <= k < |cs| && cs[k] == c;
    assert AllSent(cs)[k] == Sent(c);
  }

  /** Writing the packets of the image ANDs it into every staging area of 2^32 bytes. */
  ghost predicate AlwaysMerges(image: seq<byte>) {
    forall mem: seq<byte> | |mem| == 0x1_0000_0000 :: AllWritten(mem, Packets(image, 0)) == Merged(mem, image, 0)
  }

  lemma PacketsMergeIff(image: seq<byte>)
    ensures AlwaysMerges(image) <==> WrapsHarmlessly(image)
  {
    hide AllWritten, Chunks, Packets, Merged, Harmless;
    if WrapsHarmlessly(image) {
      forall mem: seq<byte> | |mem| == 0x1_0000_0000
        ensures AllWritten(mem, Packets(image, 0)) == Merged(mem, image, 0)
      {
        HarmlessPacketsMerge(mem, image);
      }
    } else {
      var c :| c in Chunks(image, 0) && !Harmless(image, c);
      HarmIsDone(image, c);
      var erased := seq<byte>(0x1_0000_0000, i => 0xFF);
      assert AllWritten(erased, Packets(image, 0)) != Merged(erased, image, 0);
    }
  }

  /** Up to 2^32 bytes nothing wraps. */
  lemma SmallImagesDoNotWrap(image: seq<byte>)
    requires |image| <= 0x1_0000_0000
    ensures WrapsHarmlessly(image)
  {
    hide Chunks, Tight;
    ChunksAreTight(image, 0);
    forall c | c in Chunks(image, 0) ensures Harmless(image, c) {
      TightFits(c, image);
    }
  }
}
