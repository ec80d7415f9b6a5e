/** Staging a payload: erase, sparse write, read back (protocol/payload_update.c). */
module PayloadUpdate {
  import opened Bytes
  import opened NorFlash
  import opened PayloadErase
  import opened PayloadPackets
  import opened PayloadWrap

  datatype Status = Success | BadImage | NotSectorAligned | InvalidParameter | DeviceError | FileError

  datatype Command = EraseChunk(chunk: Erase) | Continue(packet: Packet)

  function Done(mem: seq<byte>, c: Command): seq<byte> {
    match c
    case EraseChunk(e) => Erased(mem, e.offset, e.offset + e.len)
    case Continue(p) => Written(mem, p)
  }

  function AllDone(mem: seq<byte>, cs: seq<Command>): seq<byte>
    decreases |cs|
  {
    if cs == [] then mem else AllDone(Done(mem, cs[0]), cs[1..])
  }

  function Erases(es: seq<Erase>): seq<Command> {
    seq(|es|, i requires 0 <= i < |es| => EraseChunk(es[i]))
  }

  function Writes(ps: seq<Packet>): seq<Command> {
    seq(|ps|, i requires 0 <= i < |ps| => Continue(ps[i]))
  }

  /** A command fits a mailbox with the header of the request and its own. */
  predicate Fits(c: Command) {
    c.Continue? ==> |c.packet.data| <= MAILBOX_SIZE - 8 - 9
  }

  /**
   * The staging half of the payload flash. A failed command may or may not have been carried out; one that does
   * not fit a mailbox is not.
   */
  class StagingDevice {
    var staging: seq<byte>
    ghost var log: seq<Command>
    ghost var faults: nat    // how often the transport or the device has failed
    ghost var readCount: nat     // how many reads it has been asked for

    method Execute(c: Command) returns (status: Status)
      modifies this
      ensures status in {Success, DeviceError}
      ensures status.DeviceError? <==> faults != old(faults) || !Fits(c)
      ensures !Fits(c) ==> log == old(log)
      ensures log == old(log) + [c] || (status.DeviceError? && log == old(log))
      ensures staging == AllDone(old(staging), log[|old(log)|..])
    {
      assert [c][1..] == [];
      if !Fits(c) {
        assert log[|log|..] == [];
        return DeviceError;
      }
      status := *;
      if status != Success {
        status, faults := DeviceError, faults + 1;
        var done: bool := *;
        if !done {
          assert log[|log|..] == [];
          return;
        }
      }
      staging := match c
        case EraseChunk(e) => Erased(staging, e.offset, e.offset + e.len)
        case Continue(p) => Written(staging, p);
      log := log + [c];
      assert log[|old(log)|..] == [c];
    }

    /** PAYLOAD_UPDATE_READ: a reply of any other size is an error of the transport. */
    method Read(offset: nat, len: nat) returns (status: Status, bytes: seq<byte>)
      modifies this`faults, this`readCount
      ensures status in {Success, DeviceError} && readCount == old(readCount) + 1
      ensures status.DeviceError? <==> faults != old(faults) || len > MAILBOX_SIZE - 8
      ensures status.Success? ==> bytes == Window(staging, offset, len)
    {
      readCount := readCount + 1;
      status := *;
      if len > MAILBOX_SIZE - 8 {
        status := DeviceError;
      } else if status != Success {
        status, faults := DeviceError, faults + 1;
      }
      bytes := Window(staging, offset, len);
    }
  }

  lemma {:induction false} AllDoneAppend(mem: seq<byte>, a: seq<Command>, b: seq<Command>)
    ensures AllDone(mem, a + b) == AllDone(AllDone(mem, a), b)
    decreases |a|
  {
    hide Done;
    if a == [] {
      assert a + b == b;
    } else {
      assert (a + b)[1..] == a[1..] + b;
      AllDoneAppend(Done(mem, a[0]), a[1..], b);
    }
  }

  lemma {:induction false} TilesErased(mem: seq<byte>, es: seq<Erase>, offset: nat, len: nat)
    requires Tiles(es, offset, len)
    ensures AllDone(mem, Erases(es)) == Erased(mem, offset, offset + len)
    decreases |es|
  {
    if es != [] {
      assert Erases(es)[1..] == Erases(es[1..]);
      TilesErased(Done(mem, Erases(es)[0]), es[1..], offset + es[0].len, len - es[0].len);
    }
  }

  lemma {:induction false} WritesWritten(mem: seq<byte>, ps: seq<Packet>)
    ensures AllDone(mem, Writes(ps)) == AllWritten(mem, ps)
    decreases |ps|
  {
    if ps != [] {
      assert Writes(ps)[1..] == Writes(ps[1..]);
      WritesWritten(Written(mem, ps[0]), ps[1..]);
    }
  }

  /** The loop of libhoth_payload_update_erase: when the device fails, a prefix of the tiling was sent. */
  method EraseLoop(dev: StagingDevice, offset: nat, len: nat) returns (status: Status)
    requires offset % 4096 == 0 && len % 4096 == 0 && offset + len <= 0xFFFF_FFFF
    modifies dev
    ensures status in {Success, DeviceError} && (status.DeviceError? <==> dev.faults != old(dev.faults))
    ensures old(dev.log) <= dev.log
    ensures dev.log[|old(dev.log)|..] <= Erases(Tiling(offset, len))
    ensures dev.staging == AllDone(old(dev.staging), dev.log[|old(dev.log)|..])
    ensures status.Success? ==> dev.log == old(dev.log) + Erases(Tiling(offset, len))
  {
    hide AllDone, Erases, Tiling;
    status := Success;
    var erased := 0;
    ghost var sent: seq<Erase> := [];
    EraseStart(dev.staging, offset, len);
    while erased < len
      invariant erased <= len && erased % 4096 == 0 && status == Success && dev.faults == old(dev.faults)
      invariant sent + Tiling(offset + erased, len - erased) == Tiling(offset, len)
      invariant dev.log == old(dev.log) + Erases(sent)
      invariant dev.staging == AllDone(old(dev.staging), Erases(sent))
    {
      var current, remaining := offset + erased, len - erased;
      var chunkSize := if current % 65536 == 0 && remaining >= 65536 then 65536 else 4096;
      ghost var chunk := Erase(current, chunkSize);
      ghost var log := dev.log;
      status := dev.Execute(EraseChunk(Erase(current, chunkSize)));
      EraseProgress(old(dev.staging), sent, current, remaining, Tiling(offset, len), dev.log[|log|..]);
      assert dev.log == old(dev.log) + (Erases(sent) + dev.log[|log|..]);
      if status != Success {
        return;
      }
      sent := sent + [chunk];
      erased := erased + chunkSize;
    }
    EraseFinish(sent, offset + erased, offset, len);
  }

  /**
   * libhoth_payload_update_erase. It refuses what is not a positive number of whole sectors below the last
   * 32-bit address; otherwise it sends the greedy tiling.
   */
  method EraseStaging(dev: StagingDevice, offset: nat, len: nat) returns (status: Status)
    requires offset < 0x1_0000_0000 && len < 0x1_0000_0000
    modifies dev
    ensures status.NotSectorAligned? <==> len == 0 || len % 4096 != 0 || offset % 4096 != 0
    ensures status.InvalidParameter? <==> !status.NotSectorAligned? && offset + len > 0xFFFF_FFFF
    ensures status != BadImage && (status.DeviceError? <==> dev.faults != old(dev.faults))
    ensures old(dev.log) <= dev.log
    ensures dev.log[|old(dev.log)|..] <= Erases(Tiling(offset, len))
    ensures dev.staging == AllDone(old(dev.staging), dev.log[|old(dev.log)|..])
    ensures !status.DeviceError? && !status.Success? ==> dev.log == old(dev.log)
    ensures status.Success? ==>
      && dev.log == old(dev.log) + Erases(Tiling(offset, len))
      && dev.staging == Erased(old(dev.staging), offset, offset + len)
  {
    assert dev.log[|dev.log|..] == [];
    if len == 0 || len % 4096 != 0 {
      return NotSectorAligned;
    }
    if offset % 4096 != 0 {
      return NotSectorAligned;
    }
    if 0xFFFF_FFFF - offset < len {
      return InvalidParameter;
    }
    status := EraseLoop(dev, offset, len);
    TilingTiles(offset, len);
    TilesErased(old(dev.staging), Tiling(offset, len), offset, len);
  }

  lemma EraseStart(mem: seq<byte>, offset: nat, len: nat)
    ensures [] + Tiling(offset, len) == Tiling(offset, len)
    ensures Erases([]) == [] && AllDone(mem, []) == mem
  {
  }

  /** One more command of the tiling: the one for the sector at `current`, carried out or not. */
  lemma EraseProgress(mem: seq<byte>, sent: seq<Erase>, current: nat, remaining: nat, all: seq<Erase>,
                      ran: seq<Command>)
    requires remaining >= 4096 && sent + Tiling(current, remaining) == all
    requires ran <= [EraseChunk(Erase(current, ChunkSize(current, remaining)))]
    ensures
      var n := ChunkSize(current, remaining);
      var sent' := sent + [Erase(current, n)];
      && n <= remaining && sent' + Tiling(current + n, remaining - n) == all
      && Erases(sent') == Erases(sent) + [EraseChunk(Erase(current, n))]
      && AllDone(AllDone(mem, Erases(sent)), ran) == AllDone(mem, Erases(sent) + ran)
      && Erases(sent) + ran <= Erases(all)
  {
    hide AllDone;
    AllDoneAppend(mem, Erases(sent), ran);
    var chunk := Erase(current, ChunkSize(current, remaining));
    var rest := Tiling(current + chunk.len, remaining - chunk.len);
    assert sent + ([chunk] + rest) == sent + [chunk] + rest;
    assert Erases(all) == Erases(sent) + [EraseChunk(chunk)] + Erases(rest);
  }

  lemma EraseFinish(sent: seq<Erase>, end: nat, offset: nat, len: nat)
    requires sent + Tiling(end, 0) == Tiling(offset, len) && offset % 4096 == 0 && len % 4096 == 0
    ensures sent == Tiling(offset, len)
  {
  }

  /** The chunk that libhoth_payload_update cuts at `offset`, without the 0xFF bytes at its end. */
  method CutChunk(image: seq<byte>, offset: nat) returns (chunkSize: nat)
    requires offset < |image|
    ensures chunkSize == ChunkLen(image, offset) <= MAX_CHUNK_SIZE
  {
    chunkSize := MAX_CHUNK_SIZE;
    if |image| - offset < chunkSize {
      chunkSize := |image| - offset;
    }
    while chunkSize > 0 && image[offset + chunkSize - 1] == 0xFF
      invariant offset + chunkSize <= |image| && chunkSize <= MAX_CHUNK_SIZE
      invariant Trim(image, offset, chunkSize) == ChunkLen(image, offset)
    {
      chunkSize := chunkSize - 1;
    }
  }

  /** The write loop of libhoth_payload_update: when the device fails, a prefix of the packets was sent. */
  method WriteLoop(dev: StagingDevice, image: seq<byte>) returns (status: Status)
    modifies dev
    ensures status in {Success, DeviceError} && (status.DeviceError? <==> dev.faults != old(dev.faults))
    ensures old(dev.log) <= dev.log
    ensures dev.log[|old(dev.log)|..] <= Writes(Packets(image, 0))
    ensures dev.staging == AllDone(old(dev.staging), dev.log[|old(dev.log)|..])
    ensures status.Success? ==> dev.log == old(dev.log) + Writes(Packets(image, 0))
  {
    hide AllDone, Writes, ChunkLen, Packets;
    status := Success;
    var offset := 0;
    ghost var sent: seq<Packet> := [];
    WriteStart(dev.staging, image);
    while offset < |image|
      invariant offset <= |image| && status == Success && dev.faults == old(dev.faults)
      invariant sent + Packets(image, offset) == Packets(image, 0)
      invariant dev.log == old(dev.log) + Writes(sent)
      invariant dev.staging == AllDone(old(dev.staging), Writes(sent))
    {
      PacketsUnfold(image, offset);
      if image[offset] != 0xFF {
        var chunkSize := CutChunk(image, offset);
        var packet := Packet(offset % 0x1_0000_0000, image[offset..offset + chunkSize]);
        ghost var log := dev.log;
        status := dev.Execute(Continue(packet));
        WriteProgress(old(dev.staging), sent, packet, Packets(image, offset + chunkSize), dev.log[|log|..]);
        assert Packets(image, offset) == [packet] + Packets(image, offset + chunkSize);
        assert sent + Packets(image, offset) == sent + [packet] + Packets(image, offset + chunkSize);
        assert dev.log == old(dev.log) + (Writes(sent) + dev.log[|log|..]);
        if status != Success {
          return;
        }
        sent := sent + [packet];
        offset := offset + (chunkSize - 1);
      }
      offset := offset + 1;
    }
    PacketsUnfold(image, offset);
    assert sent + [] == sent;
  }

  lemma WriteStart(mem: seq<byte>, image: seq<byte>)
    ensures [] + Packets(image, 0) == Packets(image, 0)
    ensures Writes([]) == [] && AllDone(mem, []) == mem
  {
  }

  lemma WriteProgress(mem: seq<byte>, sent: seq<Packet>, packet: Packet, rest: seq<Packet>, ran: seq<Command>)
    requires ran <= [Continue(packet)]
    ensures Writes(sent + [packet]) == Writes(sent) + [Continue(packet)]
    ensures AllDone(AllDone(mem, Writes(sent)), ran) == AllDone(mem, Writes(sent) + ran)
    ensures Writes(sent) + ran <= Writes(sent + [packet] + rest)
  {
    hide AllDone;
    AllDoneAppend(mem, Writes(sent), ran);
    assert Writes(sent + [packet] + rest) == Writes(sent) + [Continue(packet)] + Writes(rest);
  }

  /** The size erased for an image: binary files are padded to whole sectors. */
  function EraseSize(size: nat, binaryFile: bool): nat {
    if binaryFile then (size + 4095) / 4096 * 4096 else size
  }

  /** Padded to the next whole sector and no further; other images are erased for as they are. */
  lemma EraseSizeIs(size: nat)
    ensures size <= EraseSize(size, true) < size + 4096 && EraseSize(size, true) % 4096 == 0
    ensures EraseSize(size, false) == size
    ensures size > 0 ==> EraseSize(size, true) == (size - 1) / 4096 * 4096 + 4096
  {
  }

  /** The staging area after an erase of `size` bytes and the writing of the image. */
  function Staged(mem: seq<byte>, image: seq<byte>, size: nat): (r: seq<byte>)
    ensures |r| == |mem|
  {
    seq(|mem|, i requires 0 <= i < |mem| => if i < |image| then image[i] else if i < size then 0xFF else mem[i])
  }

  lemma MergedAfterErase(mem: seq<byte>, image: seq<byte>, size: nat)
    requires |image| <= size
    ensures Merged(Erased(mem, 0, size), image, 0) == Staged(mem, image, size)
  {
    forall i | 0 <= i < |mem| && i < |image| ensures And(0xFF, image[i]) == image[i] {
      AndFF(image[i]);
    }
  }

  /** A binary file is staged with 0xFF up to the end of its last sector; sectors after that one are as before. */
  predicate StagedBinary(mem: seq<byte>, mem': seq<byte>, image: seq<byte>) {
    && |mem'| == |mem| && image != []
    && forall i :: 0 <= i < |mem| ==>
      mem'[i] == if i < |image| then image[i] else if i / 4096 == (|image| - 1) / 4096 then 0xFF else mem[i]
  }

  lemma BinaryIsStaged(mem: seq<byte>, image: seq<byte>)
    requires image != []
    ensures StagedBinary(mem, Staged(mem, image, EraseSize(|image|, true)), image)
  {
    EraseSizeIs(|image|);
    hide EraseSize;
    forall i: nat | |image| <= i ensures i / 4096 == (|image| - 1) / 4096 <==> i < EraseSize(|image|, true) {
      SameSector(|image| - 1, i);
    }
  }

  lemma SameSector(a: nat, i: nat)
    requires a < i
    ensures i / 4096 == a / 4096 <==> i < a / 4096 * 4096 + 4096
  {
  }

  /** Other images have only whole sectors, and no byte after them changes. */
  predicate StagedWhole(mem: seq<byte>, mem': seq<byte>, image: seq<byte>) {
    && |mem'| == |mem| && |image| > 0 && |image| % 4096 == 0
    && forall i :: 0 <= i < |mem| ==> mem'[i] == if i < |image| then image[i] else mem[i]
  }

  lemma WholeIsStaged(mem: seq<byte>, image: seq<byte>)
    requires |image| > 0 && |image| % 4096 == 0
    ensures StagedWhole(mem, Staged(mem, image, EraseSize(|image|, false)), image)
  {
  }

  function Commands(image: seq<byte>, skipErase: bool, binaryFile: bool): seq<Command> {
    (if skipErase then [] else Erases(Tiling(0, EraseSize(|image|, binaryFile)))) + Writes(Packets(image, 0))
  }

  /** libhoth_payload_update; `hasDescriptor` and `finalized` stand for the calls that only look or only ask. */
  method Update(dev: StagingDevice, image: seq<byte>, hasDescriptor: bool, skipErase: bool, binaryFile: bool,
                finalized: bool) returns (status: Status)
    modifies dev
    ensures status.BadImage? <==> !binaryFile && !hasDescriptor
    ensures !status.BadImage? && !skipErase ==>
      var size := EraseSize(|image|, binaryFile);
      && (status.InvalidParameter? <==> size > 0xFFFF_FFFF)
      && (status.NotSectorAligned? <==> size <= 0xFFFF_FFFF && (size == 0 || size % 4096 != 0))
    ensures dev.faults != old(dev.faults) ==> status.DeviceError?
    ensures status.DeviceError? && dev.faults == old(dev.faults) ==>
      !binaryFile && !finalized && dev.log == old(dev.log) + Commands(image, skipErase, binaryFile)
    ensures status.Success? ==> binaryFile || finalized
    ensures skipErase ==> !status.InvalidParameter? && !status.NotSectorAligned?
    ensures old(dev.log) <= dev.log
    ensures dev.log[|old(dev.log)|..] <= Commands(image, skipErase, binaryFile)
    ensures !status.DeviceError? && !status.Success? ==> dev.log == old(dev.log)
    ensures status.Success? ==> dev.log == old(dev.log) + Commands(image, skipErase, binaryFile)
    ensures status.Success? && !skipErase ==>
      dev.staging == Staged(old(dev.staging), image, EraseSize(|image|, binaryFile))
    ensures status.Success? && !skipErase && binaryFile ==> StagedBinary(old(dev.staging), dev.staging, image)
    ensures status.Success? && !skipErase && !binaryFile ==> StagedWhole(old(dev.staging), dev.staging, image)
    ensures !status.BadImage? && !skipErase && !binaryFile ==>
      && (status.InvalidParameter? <==> |image| > 0xFFFF_FFFF)
      && (status.NotSectorAligned? <==> |image| <= 0xFFFF_FFFF && (|image| == 0 || |image| % 4096 != 0))
    ensures !status.BadImage? && !skipErase && binaryFile ==>
      (status.InvalidParameter? <==> |image| > 0xFFFF_F000) && (status.NotSectorAligned? <==> |image| == 0)
    ensures status.Success? && skipErase && |dev.staging| <= 0x1_0000_0000 && WrapsHarmlessly(image) ==>
      dev.staging == Merged(old(dev.staging), image, 0)
    ensures status.Success? && skipErase && |image| <= 0x1_0000_0000 ==>
      dev.staging == Merged(old(dev.staging), image, 0)
  {
    hide AllDone, Erases, Tiling, Writes, Packets, Merged, Erased, Staged, WrapsHarmlessly, StagedBinary, StagedWhole;
    EraseSizeIs(|image|);
    assert dev.log[|dev.log|..] == [];
    if !binaryFile && !hasDescriptor {
      return BadImage;
    }
    if !skipErase {
      var eraseSize := |image|;
      if binaryFile && eraseSize % 4096 != 0 {
        var pad := 4096 - eraseSize % 4096;
        if eraseSize > 0xFFFF_FFFF - pad {
          return InvalidParameter;
        }
        eraseSize := eraseSize + pad;
      }
      assert eraseSize == EraseSize(|image|, binaryFile);
      if eraseSize > 0xFFFF_FFFF {
        return InvalidParameter;
      }
      status := EraseStaging(dev, 0, eraseSize);
      if status != Success {
        return;
      }
    }
    ghost var middle, log := dev.staging, dev.log;
    status := WriteLoop(dev, image);
    assert dev.log == old(dev.log) + (log[|old(dev.log)|..] + dev.log[|log|..]);
    if status != Success {
      return;
    }
    WritesWritten(middle, Packets(image, 0));
    if |middle| <= 0x1_0000_0000 && WrapsHarmlessly(image) {
      HarmlessPacketsMerge(middle, image);
    }
    if |image| <= 0x1_0000_0000 {
      PacketsMerge(middle, image, 0);
      if !skipErase {
        MergedAfterErase(old(dev.staging), image, EraseSize(|image|, binaryFile));
        if binaryFile {
          BinaryIsStaged(old(dev.staging), image);
        } else {
          WholeIsStaged(old(dev.staging), image);
        }
      }
    }
    if !binaryFile && !finalized {
      status := DeviceError;
    }
  }

  /** A mailbox of 1024 bytes without the response header. */
  const READ_CHUNK_SIZE := 1016

  /** The bytes that are read back in such chunks, each from a 32-bit offset. */
  function ReadBack(mem: seq<byte>, offset: nat, len: nat): (r: seq<byte>)
    ensures |r| == len
  {
    seq<byte>(len, j requires 0 <= j =>
      ByteAt(mem, (offset + (j - InChunk(j))) % 0x1_0000_0000 + InChunk(j)))
  }

  /** The position of a byte in its chunk. */
  function InChunk(j: nat): (k: nat)
    ensures k <= j
  {
    j % READ_CHUNK_SIZE
  }

  predicate WholeChunks(n: nat) {
    n % READ_CHUNK_SIZE == 0
  }

  lemma NextChunk(n: nat)
    requires WholeChunks(n)
    ensures WholeChunks(n + READ_CHUNK_SIZE)
  {
  }

  lemma InChunkIs(n: nat, k: nat)
    requires WholeChunks(n) && k < READ_CHUNK_SIZE
    ensures InChunk(n + k) == k
  {
  }

  /** Below 2^32 that is the range of the staging area. */
  lemma ReadBackIsWindow(mem: seq<byte>, offset: nat, len: nat)
    requires offset + len <= 0x1_0000_0000
    ensures ReadBack(mem, offset, len) == Window(mem, offset, len)
  {
  }

  /** One more chunk. */
  lemma ReadBackFurther(mem: seq<byte>, offset: nat, done: nat, n: nat)
    requires WholeChunks(done) && n <= READ_CHUNK_SIZE
    ensures ReadBack(mem, offset, done + n)
         == ReadBack(mem, offset, done) + Window(mem, (offset + done) % 0x1_0000_0000, n)
  {
    hide InChunk, ByteAt;
    var all := ReadBack(mem, offset, done + n);
    var parts := ReadBack(mem, offset, done) + Window(mem, (offset + done) % 0x1_0000_0000, n);
    forall j: nat | j < done + n ensures all[j] == parts[j] {
      if j >= done {
        InChunkIs(done, j - done);
      }
    }
  }

  lemma NothingRead(mem: seq<byte>, offset: nat)
    ensures WholeChunks(0) && ReadBack(mem, offset, 0) == []
  {
  }

  lemma ReadBackPrefix(mem: seq<byte>, offset: nat, done: nat, len: nat)
    requires done <= len
    ensures ReadBack(mem, offset, done) <= ReadBack(mem, offset, len)
  {
  }

  /** What stands behind a file descriptor. */
  class OutputFile {
    var contents: seq<byte>
    ghost var faults: nat    // how often a write has failed

    /** libhoth_force_write: when it fails, it may have written some of the bytes. */
    method ForceWrite(bytes: seq<byte>) returns (ok: bool)
      modifies this
      ensures ok <==> faults == old(faults)
      ensures ok ==> contents == old(contents) + bytes
      ensures old(contents) <= contents <= old(contents) + bytes
    {
      ok := *;
      var count := |bytes|;
      if !ok {
        count :| 0 <= count <= |bytes|;
        faults := faults + 1;
      }
      contents := contents + bytes[..count];
    }
  }

  /** libhoth_payload_update_read_chunk: the file gets what was read, or a prefix of it. */
  method ReadChunks(dev: StagingDevice, file: OutputFile, offset: nat, len: nat) returns (status: Status)
    modifies dev`faults, dev`readCount, file
    ensures status in {Success, DeviceError, FileError}
    ensures status.DeviceError? <==> dev.faults != old(dev.faults)
    ensures status.Success? ==> len <= 1016 * (dev.readCount - old(dev.readCount)) < len + 1016
    ensures status.FileError? <==> file.faults != old(file.faults)
    ensures status.Success? ==> file.contents == old(file.contents) + ReadBack(dev.staging, offset, len)
    ensures status.Success? && offset + len <= 0x1_0000_0000 ==>
      file.contents == old(file.contents) + Window(dev.staging, offset, len)
    ensures old(file.contents) <= file.contents <= old(file.contents) + ReadBack(dev.staging, offset, len)
  {
    hide ReadBack, Window, WholeChunks;
    status := Success;
    var done := 0;
    ghost var before := file.contents;
    NothingRead(dev.staging, offset);
    assert before + ReadBack(dev.staging, offset, 0) == before;
    ReadBackPrefix(dev.staging, offset, 0, len);
    while done < len
      invariant done <= len && (WholeChunks(done) || done == len)
      invariant
        var asked := 1016 * (dev.readCount - old(dev.readCount));
        done <= asked < done + 1016 && (done < len ==> done == asked)
      invariant dev.faults == old(dev.faults) && file.faults == old(file.faults)
      invariant file.contents == before + ReadBack(dev.staging, offset, done)
    {
      var chunkSize := if len - done < READ_CHUNK_SIZE then len - done else READ_CHUNK_SIZE;
      var bytes;
      status, bytes := dev.Read((offset + done) % 0x1_0000_0000, chunkSize);
      ReadBackPrefix(dev.staging, offset, done, len);
      if status != Success {
        return;
      }
      ReadBackFurther(dev.staging, offset, done, chunkSize);
      ReadBackPrefix(dev.staging, offset, done + chunkSize, len);
      NextChunk(done);
      assert file.contents + bytes == before + ReadBack(dev.staging, offset, done + chunkSize);
      var ok := file.ForceWrite(bytes);
      if !ok {
        return FileError;
      }
      done := done + chunkSize;
    }
    status := Success;
    if offset + len <= 0x1_0000_0000 {
      ReadBackIsWindow(dev.staging, offset, len);
    }
  }
}
