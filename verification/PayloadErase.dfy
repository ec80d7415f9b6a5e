/** The greedy erase of the staging area (libhoth_payload_update_erase). */
module PayloadErase {
  // A sector is 4096 bytes, a block 65536; addresses are 32 bits wide.

  datatype Erase = Erase(offset: nat, len: nat)

  /** An erase the device can do: a sector or a block, aligned to its own size. */
  predicate Aligned(e: Erase) {
    (e.len == 4096 || e.len == 65536) && e.offset % e.len == 0
  }

  /** Sector `s` is erased by `e`. */
  predicate Covers(e: Erase, s: nat) {
    e.offset <= s * 4096 < e.offset + e.len
  }

  function ChunkSize(offset: nat, remaining: nat): (n: nat)
    ensures n == 4096 || n == 65536
  {
    if offset % 65536 == 0 && remaining >= 65536 then 65536 else 4096
  }

  /** The commands sent for a range of whole sectors. */
  function Tiling(offset: nat, len: nat): seq<Erase>
    decreases len
  {
    if len < 4096 then []
    else
      var n := ChunkSize(offset, len);
      [Erase(offset, n)] + Tiling(offset + n, len - n)
  }

  /** Commands that cover a range one after the other: no gap, no overlap, nothing outside. */
  predicate Tiles(es: seq<Erase>, offset: nat, len: nat)
    decreases |es|
  {
    if es == [] then len == 0
    else Aligned(es[0]) && es[0].offset == offset && es[0].len <= len
         && Tiles(es[1..], offset + es[0].len, len - es[0].len)
  }

  lemma ChunkFits(offset: nat, len: nat)
    requires offset % 4096 == 0 && len % 4096 == 0 && len > 0
    ensures
      var n := ChunkSize(offset, len);
      && n <= len && (offset + n) % 4096 == 0 && (len - n) % 4096 == 0 && Aligned(Erase(offset, n))
  {
  }

  lemma {:induction false} TilingTiles(offset: nat, len: nat)
    requires offset % 4096 == 0 && len % 4096 == 0
    ensures Tiles(Tiling(offset, len), offset, len)
    decreases len
  {
    hide ChunkSize, Aligned;
    if len >= 4096 {
      var n := ChunkSize(offset, len);
      ChunkFits(offset, len);
      TilingTiles(offset + n, len - n);
    }
  }

  /** A set of device erases that covers exactly the sectors of a range, in any order, overlapping or not. */
  ghost predicate ErasesExactly(es: set<Erase>, offset: nat, len: nat) {
    && (forall e :: e in es ==> Aligned(e) && offset <= e.offset && e.offset + e.len <= offset + len)
    && (forall s: nat :: offset <= s * 4096 < offset + len ==> exists e :: e in es && Covers(e, s))
  }

  function Elements(es: seq<Erase>): set<Erase> {
    set e | e in es
  }

  /** A tiling covers its range exactly, whatever its sizes. */
  lemma {:induction false} TilesEraseExactly(es: seq<Erase>, offset: nat, len: nat)
    requires Tiles(es, offset, len)
    ensures ErasesExactly(Elements(es), offset, len)
    decreases |es|
  {
    if es != [] {
      TilesEraseExactly(es[1..], offset + es[0].len, len - es[0].len);
      var all, rest := Elements(es), Elements(es[1..]);
      assert es[0] in all && rest <= all;
      forall s: nat | offset <= s * 4096 < offset + len ensures exists e :: e in all && Covers(e, s) {
        if s * 4096 >= offset + es[0].len {
          var e :| e in rest && Covers(e, s);
          assert e in all;
        } else {
          assert Covers(es[0], s);
        }
      }
    }
  }

  /** The command for the first sector cannot be larger than the greedy choice. */
  lemma FirstErase(es: set<Erase>, offset: nat, len: nat) returns (first: Erase)
    requires offset % 4096 == 0 && len % 4096 == 0 && len > 0 && ErasesExactly(es, offset, len)
    ensures first in es && first.offset == offset && first.len <= ChunkSize(offset, len)
  {
    var s := offset / 4096;
    assert offset <= s * 4096 < offset + len;
    first :| first in es && Covers(first, s);
  }

  /** Past a greedy command, an erase that covers a later sector also starts later. */
  lemma StartsPast(e: Erase, offset: nat, len: nat, s: nat)
    requires Aligned(e) && Covers(e, s) && offset <= e.offset && e.offset + e.len <= offset + len
    requires offset % 4096 == 0 && len % 4096 == 0 && len > 0 && offset + ChunkSize(offset, len) <= s * 4096
    ensures e.offset >= offset + ChunkSize(offset, len)
  {
    if e.len == 4096 {
      assert e.offset == s * 4096;
    }
  }

  /** The erases that start past the first greedy command do the rest of the range. */
  function Later(es: set<Erase>, from: nat): set<Erase> {
    set e | e in es && e.offset >= from
  }

  lemma LaterEraseTheRest(es: set<Erase>, offset: nat, len: nat)
    requires offset % 4096 == 0 && len % 4096 == 0 && len > 0 && ErasesExactly(es, offset, len)
    ensures
      var n := ChunkSize(offset, len);
      && n <= len && (offset + n) % 4096 == 0 && (len - n) % 4096 == 0
      && ErasesExactly(Later(es, offset + n), offset + n, len - n)
      && |Later(es, offset + n)| < |es|
  {
    hide ChunkSize, Aligned, Covers;
    ChunkFits(offset, len);
    var n := ChunkSize(offset, len);
    var rest := Later(es, offset + n);
    forall s: nat | offset + n <= s * 4096 < offset + len ensures exists e :: e in rest && Covers(e, s) {
      var e :| e in es && Covers(e, s);
      StartsPast(e, offset, len, s);
      assert e in rest;
    }
    var first := FirstErase(es, offset, len);
    Fewer(rest, es, first);
  }

  /** No way of erasing exactly the range with device erases uses fewer commands than the greedy one. */
  lemma {:induction false} TilingIsSmallest(es: set<Erase>, offset: nat, len: nat)
    requires offset % 4096 == 0 && len % 4096 == 0 && ErasesExactly(es, offset, len)
    ensures |Tiling(offset, len)| <= |es|
    decreases len
  {
    if len > 0 {
      var n := ChunkSize(offset, len);
      LaterEraseTheRest(es, offset, len);
      hide ErasesExactly, Later;
      TilingIsSmallest(Later(es, offset + n), offset + n, len - n);
    }
  }

  lemma {:induction false} Subset<T>(a: set<T>, b: set<T>)
    requires a <= b
    ensures |a| <= |b|
  {
    if a != {} {
      var x :| x in a;
      Subset(a - {x}, b - {x});
    }
  }

  lemma Fewer<T>(a: set<T>, b: set<T>, x: T)
    requires a <= b && x in b && x !in a
    ensures |a| < |b|
  {
    Subset(a, b - {x});
  }
}
