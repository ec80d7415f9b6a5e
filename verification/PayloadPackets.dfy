/** The packets of the sparse payload writer: it skips runs of 0xFF (libhoth_payload_update). */
module PayloadPackets {
  import opened Bytes

  /** A mailbox of 1024 bytes without the two headers; offsets are sent in 32 bits. */
  const MAX_CHUNK_SIZE := 1007

  datatype Packet = Packet(offset: nat, data: seq<byte>)

  /** The length at or below `n` at which a chunk from `offset` no longer ends in 0xFF. */
  function Trim(image: seq<byte>, offset: nat, n: nat): (m: nat)
    requires offset + n <= |image|
    ensures m <= n
    ensures m > 0 ==> image[offset + m - 1] != 0xFF
    ensures forall i :: offset + m <= i < offset + n ==> image[i] == 0xFF
  {
    if n > 0 && image[offset + n - 1] == 0xFF then Trim(image, offset, n - 1) else n
  }

  function ChunkLen(image: seq<byte>, offset: nat): (n: nat)
    requires offset < |image|
    ensures n <= |image| - offset && (image[offset] != 0xFF ==> n > 0)
  {
    Trim(image, offset, Min(MAX_CHUNK_SIZE, |image| - offset))
  }

  /** The chunks that the image is cut into from `offset` on, each with the offset it has in the image. */
  function Chunks(image: seq<byte>, offset: nat): seq<Packet>
    decreases |image| - offset
  {
    if offset >= |image| then []
    else if image[offset] == 0xFF then Chunks(image, offset + 1)
    else
      var n := ChunkLen(image, offset);
      [Packet(offset, image[offset..offset + n])] + Chunks(image, offset + n)
  }

  /** A chunk as it is sent: the offset has 32 bits. */
  function Sent(p: Packet): Packet {
    Packet(p.offset % 0x1_0000_0000, p.data)
  }

  function AllSent(ps: seq<Packet>): (r: seq<Packet>)
    ensures |r| == |ps|
  {
    seq(|ps|, i requires 0 <= i < |ps| => Sent(ps[i]))
  }

  function Packets(image: seq<byte>, offset: nat): seq<Packet> {
    AllSent(Chunks(image, offset))
  }

  /** The packets, one at a time. */
  lemma PacketsUnfold(image: seq<byte>, offset: nat)
    ensures offset >= |image| ==> Packets(image, offset) == []
    ensures offset < |image| && image[offset] == 0xFF ==> Packets(image, offset) == Packets(image, offset + 1)
    ensures offset < |image| && image[offset] != 0xFF ==>
      Packets(image, offset)
      == [Sent(ChunkAt(image, offset))] + Packets(image, offset + ChunkLen(image, offset))
  {
    hide ChunkLen;
  }

  /** Fits a mailbox, is cut from the image, and neither starts nor ends in 0xFF. */
  predicate Tight(p: Packet, image: seq<byte>) {
    && 0 < |p.data| <= 1007
    && p.offset + |p.data| <= |image| && p.data == image[p.offset..p.offset + |p.data|]
    && p.data[0] != 0xFF && p.data[|p.data| - 1] != 0xFF
  }

  /** The chunk that starts at a byte other than 0xFF. */
  function ChunkAt(image: seq<byte>, offset: nat): Packet
    requires offset < |image|
  {
    Packet(offset, image[offset..offset + ChunkLen(image, offset)])
  }

  lemma ChunkStep(image: seq<byte>, offset: nat)
    requires offset < |image| && image[offset] != 0xFF
    ensures
      var p, n := ChunkAt(image, offset), ChunkLen(image, offset);
      && Tight(p, image) && |p.data| == n && p.offset == offset
      && Chunks(image, offset) == [p] + Chunks(image, offset + n)
      && forall i :: offset + n <= i < offset + MAX_CHUNK_SIZE && i < |image| ==> image[i] == 0xFF
  {
    hide Trim;
  }

  /** What the device does with a packet: the staging flash can only clear bits. */
  function Written(mem: seq<byte>, p: Packet): (r: seq<byte>)
    ensures |r| == |mem|
  {
    seq(|mem|, i requires 0 <= i < |mem| =>
      if p.offset <= i < p.offset + |p.data| then And(mem[i], p.data[i - p.offset]) else mem[i])
  }

  function AllWritten(mem: seq<byte>, ps: seq<Packet>): (r: seq<byte>)
    ensures |r| == |mem|
    decreases |ps|
  {
    if ps == [] then mem else AllWritten(Written(mem, ps[0]), ps[1..])
  }

  /** Memory ANDed with the image from `offset` on. */
  function Merged(mem: seq<byte>, image: seq<byte>, offset: nat): (r: seq<byte>)
    ensures |r| == |mem|
  {
    seq(|mem|, i requires 0 <= i < |mem| => if offset <= i < |image| then And(mem[i], image[i]) else mem[i])
  }

  lemma SkippedBytes(mem: seq<byte>, image: seq<byte>, offset: nat, next: nat)
    requires offset <= next <= |image| && forall i :: offset <= i < next ==> image[i] == 0xFF
    ensures Merged(mem, image, offset) == Merged(mem, image, next)
  {
    forall i | 0 <= i < |mem| ensures Merged(mem, image, offset)[i] == Merged(mem, image, next)[i] {
      AndFF(mem[i]);
    }
  }

  lemma SentBytes(mem: seq<byte>, image: seq<byte>, offset: nat, n: nat)
    requires offset + n <= |image|
    ensures Merged(Written(mem, Packet(offset, image[offset..offset + n])), image, offset + n)
         == Merged(mem, image, offset)
  {
  }

  /** Writing the chunks where they belong is ANDing the whole image into the staging area. */
  lemma {:induction false} ChunksMerge(mem: seq<byte>, image: seq<byte>, offset: nat)
    ensures AllWritten(mem, Chunks(image, offset)) == Merged(mem, image, offset)
    decreases |image| - offset
  {
    hide Merged, Written, ChunkLen, Tight;
    if offset < |image| {
      if image[offset] == 0xFF {
        SkippedBytes(mem, image, offset, offset + 1);
        ChunksMerge(mem, image, offset + 1);
      } else {
        ChunkStep(image, offset);
        hide Chunks;
        var p, n := ChunkAt(image, offset), ChunkLen(image, offset);
        SentBytes(mem, image, offset, n);
        ChunksMerge(Written(mem, p), image, offset + n);
        assert ([p] + Chunks(image, offset + n))[1..] == Chunks(image, offset + n);
      }
    } else {
      NothingLeft(mem, image, offset);
    }
  }

  /** Up to 2^32 bytes the packets say where they belong, so that is what they do. */
  lemma PacketsMerge(mem: seq<byte>, image: seq<byte>, offset: nat)
    requires |image| <= 0x1_0000_0000
    ensures AllWritten(mem, Packets(image, offset)) == Merged(mem, image, offset)
  {
    hide AllWritten, Merged, Tight, Chunks;
    ChunksMerge(mem, image, offset);
    ChunksAreTight(image, offset);
    var cs := Chunks(image, offset);
    forall k | 0 <= k < |cs| ensures AllSent(cs)[k] == cs[k] {
      assert cs[k] in cs;
      TightFits(cs[k], image);
    }
    assert AllSent(cs) == cs;
  }

  lemma TightFits(p: Packet, image: seq<byte>)
    requires Tight(p, image)
    ensures 0 < |p.data| <= MAX_CHUNK_SIZE && p.offset + |p.data| <= |image|
  {
  }

  lemma NothingLeft(mem: seq<byte>, image: seq<byte>, offset: nat)
    requires offset >= |image|
    ensures Merged(mem, image, offset) == mem
  {
  }

  // ---- which bytes are sent, and in how many packets ----

  predicate Holds(p: Packet, i: nat) {
    p.offset <= i < p.offset + |p.data|
  }

  /** In how many packets byte `i` is sent. */
  function Sends(ps: seq<Packet>, i: nat): nat
    decreases |ps|
  {
    if ps == [] then 0 else (if Holds(ps[0], i) then 1 else 0) + Sends(ps[1..], i)
  }

  lemma {:induction false} ChunksAreTight(image: seq<byte>, offset: nat)
    ensures forall p :: p in Chunks(image, offset) ==> Tight(p, image) && p.offset >= offset
    decreases |image| - offset
  {
    hide Tight, ChunkLen;
    if offset < |image| {
      if image[offset] == 0xFF {
        ChunksAreTight(image, offset + 1);
      } else {
        ChunkStep(image, offset);
        hide Chunks;
        ChunksAreTight(image, offset + ChunkLen(image, offset));
      }
    }
  }

  lemma SendsCons(p: Packet, ps: seq<Packet>, i: nat)
    ensures Sends([p] + ps, i) == (if Holds(p, i) then 1 else 0) + Sends(ps, i)
  {
    assert ([p] + ps)[1..] == ps;
  }

  /** How often byte `i` is sent from `offset` on, one step of the loop at a time. */
  lemma SendsUnfold(image: seq<byte>, offset: nat, i: nat)
    ensures offset >= |image| ==> Sends(Chunks(image, offset), i) == 0
    ensures offset < |image| && image[offset] == 0xFF ==>
      Sends(Chunks(image, offset), i) == Sends(Chunks(image, offset + 1), i)
    ensures offset < |image| && image[offset] != 0xFF ==>
      var n := ChunkLen(image, offset);
      && 0 < n <= |image| - offset
      && Sends(Chunks(image, offset), i)
         == (if offset <= i < offset + n then 1 else 0) + Sends(Chunks(image, offset + n), i)
  {
    hide Tight;
    if offset < |image| && image[offset] != 0xFF {
      ChunkStep(image, offset);
      SendsCons(ChunkAt(image, offset), Chunks(image, offset + ChunkLen(image, offset)), i);
      hide Chunks, Sends, ChunkAt;
    }
  }

  /** Every byte that is not 0xFF is sent once, and no byte twice. */
  lemma {:induction false} ChunksSendOnce(image: seq<byte>, offset: nat, i: nat)
    ensures Sends(Chunks(image, offset), i) <= if offset <= i < |image| then 1 else 0
    ensures offset <= i < |image| && image[i] != 0xFF ==> Sends(Chunks(image, offset), i) == 1
    decreases |image| - offset
  {
    hide *;
    SendsUnfold(image, offset, i);
    if offset < |image| {
      ChunksSendOnce(image, offset + if image[offset] == 0xFF then 1 else ChunkLen(image, offset), i);
    }
  }

  /** Packets that fit a mailbox and hold, between them, every byte from `offset` on that is not 0xFF. */
  ghost predicate Suffice(ps: set<Packet>, image: seq<byte>, offset: nat) {
    && (forall p :: p in ps ==> |p.data| <= 1007)
    && (forall i :: offset <= i < |image| && image[i] != 0xFF ==> exists p :: p in ps && Holds(p, i))
  }

  /** No packets that fit a mailbox do with fewer: the bytes that start a chunk are too far apart. */
  lemma {:induction false} ChunksAreFewest(ps: set<Packet>, image: seq<byte>, offset: nat)
    requires Suffice(ps, image, offset)
    ensures |Chunks(image, offset)| <= |ps|
    decreases |image| - offset
  {
    if offset < |image| {
      if image[offset] == 0xFF {
        ChunksAreFewest(ps, image, offset + 1);
      } else {
        var n := ChunkLen(image, offset);
        var p :| p in ps && Holds(p, offset);
        forall i | offset + n <= i < |image| && image[i] != 0xFF ensures exists q :: q in ps - {p} && Holds(q, i) {
          var q :| q in ps && Holds(q, i);
          assert i >= offset + MAX_CHUNK_SIZE;
          assert q in ps - {p};
        }
        ChunksAreFewest(ps - {p}, image, offset + n);
      }
    }
  }
}
