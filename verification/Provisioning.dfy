/** Chunked transfer of the provisioning log (protocol/provisioning.c). */
module Provisioning {
  import opened Words
  import Limits = Bytes
  import opened Crc32

  /** The largest chunks that fit a mailbox after the headers; sizes and offsets have 16 bits. */
  const WRITE_CHUNK_SIZE := 1004
  const READ_CHUNK_SIZE := 1008

  /** `StillWriting` stands for a loop that has not ended yet. */
  datatype Status = Success | DeviceError | Rejected | UnexpectedSize | TooLarge | StillWriting

  /**
   * The RoT: it folds the chunks it is sent into a running CRC and keeps a log when it is committed. A write or
   * a commit that failed may have been carried out nevertheless, when it was only the reply that was lost.
   */
  class LogDevice {
    var staged: seq<octet>
    var crc: word
    var log: seq<octet>
    ghost var faults: nat    // how often the transport or the device has failed
    ghost var writes: nat    // how many chunks it has been sent
    ghost var shortReplies: nat    // how often a read has come back with another length than was asked

    ghost predicate Valid()
      reads this
    {
      crc == Crc(0, staged) && |log| < 0x1_0000
    }

    /** PROVISIONING_LOG_WRITE: a chunk at offset 0 starts over, others must follow on. */
    method Write(offset: nat, chunk: seq<octet>) returns (status: Status)
      requires Valid() && offset < 0x1_0000
      modifies this
      ensures Valid() && log == old(log) && writes == old(writes) + 1
      ensures status in {Success, DeviceError}
      ensures
        var after := (if offset == 0 then [] else old(staged)) + chunk;
        && (status.Success? ==> staged == after)
        && (|chunk| > Limits.MAILBOX_SIZE - 8 - 12 || (offset != 0 && offset != |old(staged)|) ==>
             staged == old(staged))
        && (staged == old(staged) || staged == after)
      ensures status.DeviceError? <==>
        || faults > old(faults) || |chunk| > Limits.MAILBOX_SIZE - 8 - 12
        || (offset != 0 && offset != |old(staged)|)
      ensures old(faults) <= faults
    {
      hide Crc;
      var fault: bool, done: bool := *, *;
      writes := writes + 1;
      faults := faults + if fault then 1 else 0;
      status := if fault then DeviceError else Success;
      if |chunk| > Limits.MAILBOX_SIZE - 8 - 12 || (offset != 0 && offset != |staged|) {
        return DeviceError;
      }
      if fault && !done {
        return;
      }
      var before := if offset == 0 then [] else staged;
      CrcOfChunks(0, before, chunk);
      EmptyCrc();
      crc := Crc(if offset == 0 then 0 else crc, chunk);
      staged := before + chunk;
    }

    /** PROVISIONING_LOG_COMMIT: the log is kept if its size and checksum are those of the chunks received. */
    method Commit(size: nat, checksum: word) returns (status: Status)
      requires Valid() && size < 0x1_0000
      modifies this
      ensures Valid() && staged == old(staged)
      ensures status in {Success, DeviceError, Rejected}
      ensures faults != old(faults) <==> status.DeviceError?
      ensures
        var agrees := size == |staged| && checksum == Crc(0, staged);
        && (status.Success? ==> agrees && log == staged)
        && (status.Rejected? ==> !agrees && log == old(log))
        && (status.DeviceError? ==> log == old(log) || (agrees && log == staged))
    {
      var fault: bool, done: bool := *, *;
      faults := faults + if fault then 1 else 0;
      if fault && !done {
        return DeviceError;
      }
      if size != |staged| || checksum != crc {
        return if fault then DeviceError else Rejected;
      }
      log := staged;
      status := if fault then DeviceError else Success;
    }

    /** PROVISIONING_LOG_READ of no bytes: the header, with the size of the log. */
    method ReadHeader() returns (status: Status, size: nat)
      modifies this`faults
      ensures status in {Success, DeviceError} && (status.DeviceError? <==> faults != old(faults))
      ensures status.Success? ==> size == |log|
    {
      var fault: bool := *;
      faults := faults + if fault then 1 else 0;
      status, size := if fault then DeviceError else Success, |log|;
    }

    /** PROVISIONING_LOG_READ of `size` bytes; a reply may come back with another length than was asked. */
    method Read(offset: nat, size: nat) returns (status: Status, data: seq<octet>)
      modifies this`faults, this`shortReplies
      ensures status in {Success, DeviceError}
      ensures status.DeviceError? <==>
        faults != old(faults) || offset > |log| || size > Limits.MAILBOX_SIZE - 8 - 8
      ensures shortReplies != old(shortReplies) <==> status.Success? && |data| != size
      ensures status.Success? && |data| == size && offset + size <= |log| ==> data == log[offset..offset + size]
    {
      var fault: bool := *;
      faults := faults + if fault then 1 else 0;
      if fault || offset > |log| || size > Limits.MAILBOX_SIZE - 8 - 8 {
        return DeviceError, [];
      }
      var end :| offset <= end <= |log|;
      data := log[offset..end];
      shortReplies := shortReplies + if |data| != size then 1 else 0;
      status := Success;
    }
  }

  lemma EmptyCrc()
    ensures Crc(0, []) == 0
  {
    NotLaws(0);
  }

  /** The bytes that have been written after some turns of the loop: the 16-bit counter cannot pass this. */
  function Reached(size: nat, turns: nat): nat {
    var most := size % 0x1_0000;
    if turns * WRITE_CHUNK_SIZE < most then turns * WRITE_CHUNK_SIZE else most
  }

  /** The size of the next chunk, in 16 bits, and the counter after it. */
  lemma NextReached(size: nat, turns: nat)
    ensures
      var written := Reached(size, turns);
      var left := (size - written) % 0x1_0000;
      var chunk := if left > WRITE_CHUNK_SIZE then WRITE_CHUNK_SIZE else left;
      && written + chunk <= size && written + chunk < 0x1_0000 && written + chunk == Reached(size, turns + 1)
  {
    var most, written := size % 0x1_0000, Reached(size, turns);
    assert (size - written) % 0x1_0000 == most - written;
  }

  lemma NothingReached(size: nat)
    ensures Reached(size, 0) == 0
  {
  }

  /** The loop is done when the counter has got to the size, which it never does from 65536 bytes on. */
  lemma DoneIff(size: nat, turns: nat)
    ensures Reached(size, turns) >= size <==> size < 0x1_0000 && size <= turns * 1004
    ensures Reached(size, turns) <= size
  {
  }

  /** One turn of the loop. */
  method WriteChunk(dev: LogDevice, data: seq<octet>, bytesWritten: nat, ghost turns: nat)
    returns (status: Status, next: nat)
    requires dev.Valid() && bytesWritten == Reached(|data|, turns) < |data|
    requires turns > 0 ==> dev.staged == data[..bytesWritten]
    modifies dev
    ensures dev.Valid() && dev.log == old(dev.log) && dev.writes == old(dev.writes) + 1
    ensures status in {Success, DeviceError} && (status.DeviceError? <==> dev.faults != old(dev.faults))
    ensures status.Success? ==>
      next == Reached(|data|, turns + 1) <= |data| && next < 0x1_0000 && dev.staged == data[..next]
    ensures status.DeviceError? ==> dev.staged == old(dev.staged) || dev.staged <= data
  {
    hide Crc;
    NextReached(|data|, turns);
    assert turns == 0 ==> bytesWritten == 0;
    hide Reached;
    var chunkSize := (|data| - bytesWritten) % 0x1_0000;
    if chunkSize > WRITE_CHUNK_SIZE {
      chunkSize := WRITE_CHUNK_SIZE;
    }
    next := (bytesWritten + chunkSize) % 0x1_0000;
    status := dev.Write(bytesWritten, data[bytesWritten..bytesWritten + chunkSize]);
    assert data[..bytesWritten] + data[bytesWritten..next] == data[..next];
  }

  /**
   * libhoth_provisioning_log_write, watched for `patience` turns of its loop. Unless there is a fault it is
   * done within them if and only if the size is below 65536 and that many chunks are enough. From 65536 bytes
   * on it never is: it writes the bytes up to the size modulo 65536, and then empty chunks.
   */
  method LogWrite(dev: LogDevice, data: seq<octet>, patience: nat) returns (status: Status)
    requires dev.Valid()
    modifies dev
    ensures dev.Valid() && dev.log == old(dev.log)
    ensures status in {Success, DeviceError, StillWriting}
    ensures status.DeviceError? <==> dev.faults != old(dev.faults)
    ensures dev.faults == old(dev.faults) ==>
      (status.Success? <==> |data| < 0x1_0000 && |data| <= patience * 1004)
    ensures status.Success? ==> |data| < 0x1_0000
    ensures status.Success? && data != [] ==> dev.staged == data && dev.crc == Crc(0, data)
    ensures status.StillWriting? ==> dev.writes == old(dev.writes) + patience
    ensures status.StillWriting? && patience > 0 ==> dev.staged == data[..Reached(|data|, patience)]
    ensures status.DeviceError? ==> dev.staged <= data || dev.staged == old(dev.staged)
    ensures data == [] ==> dev.staged == old(dev.staged)
  {
    hide Crc, Reached;
    var bytesWritten: nat := 0;
    var turns := 0;
    NothingReached(|data|);
    while bytesWritten < |data|
      invariant bytesWritten == Reached(|data|, turns) <= |data| && bytesWritten < 0x1_0000
      invariant dev.Valid() && dev.log == old(dev.log) && dev.faults == old(dev.faults)
      invariant turns <= patience && (data == [] ==> turns == 0) && dev.writes == old(dev.writes) + turns
      invariant if turns == 0 then dev.staged == old(dev.staged) else dev.staged == data[..bytesWritten]
      decreases patience - turns
    {
      if turns == patience {
        DoneIff(|data|, turns);
        return StillWriting;
      }
      status, bytesWritten := WriteChunk(dev, data, bytesWritten, turns);
      if status != Success {
        return;
      }
      turns := turns + 1;
      DoneIff(|data|, turns);
    }
    DoneIff(|data|, turns);
    status := Success;
  }

  /** libhoth_provisioning_log_commit: the size is sent in 16 bits. */
  method LogCommit(dev: LogDevice, data: seq<octet>) returns (status: Status)
    requires dev.Valid()
    modifies dev
    ensures dev.Valid() && dev.staged == old(dev.staged)
    ensures status in {Success, DeviceError, Rejected} && (status.DeviceError? <==> dev.faults != old(dev.faults))
    ensures
      var agrees := |data| % 0x1_0000 == |dev.staged| && Crc(0, data) == Crc(0, dev.staged);
      && (!status.DeviceError? ==> (status.Success? <==> agrees))
      && (status.Success? ==> dev.log == dev.staged)
      && (status.Rejected? ==> dev.log == old(dev.log))
      && (status.DeviceError? ==> dev.log == old(dev.log) || (agrees && dev.log == dev.staged))
  {
    var checksum := Compute(0, data);
    status := dev.Commit(|data| % 0x1_0000, checksum);
  }

  /**
   * A log that was written is committed with the checksum the device has arrived at by itself. When the device
   * fails it keeps the old log or has the new one, and nothing else; a log that is too long never gets there.
   */
  method WriteAndCommit(dev: LogDevice, data: seq<octet>, patience: nat) returns (status: Status)
    requires dev.Valid() && data != []
    modifies dev
    ensures dev.Valid()
    ensures status in {Success, DeviceError, StillWriting}
    ensures status.DeviceError? <==> dev.faults != old(dev.faults)
    ensures dev.faults == old(dev.faults) ==>
      (status.Success? <==> |data| < 0x1_0000 && |data| <= patience * 1004)
    ensures status.Success? ==> dev.log == data
    ensures status.StillWriting? ==> dev.log == old(dev.log)
    ensures status.DeviceError? ==> dev.log == old(dev.log) || (|data| < 0x1_0000 && dev.log == data)
  {
    status := LogWrite(dev, data, patience);
    if status.Success? {
      status := LogCommit(dev, data);
    }
  }

  /** A commit for a log that differs from what was written in one run of up to four bytes is never accepted. */
  lemma WrongLogIsRejected(written: seq<octet>, data: seq<octet>, start: nat)
    requires |written| == |data| && written != data
    requires forall i :: 0 <= i < |data| && written[i] != data[i] ==> start <= i < start + 4
    ensures !(|data| == |written| && Crc(0, data) == Crc(0, written))
  {
    BurstsAreDetected(0, written, data, start);
  }

  /** Writing one log and committing such another one never succeeds, and the log is kept as it was. */
  method CommitWrongLog(dev: LogDevice, written: seq<octet>, data: seq<octet>, patience: nat, ghost start: nat)
    returns (status: Status)
    requires dev.Valid() && written != [] && |written| == |data| && written != data
    requires forall i :: 0 <= i < |data| && written[i] != data[i] ==> start <= i < start + 4
    modifies dev
    ensures dev.Valid() && dev.log == old(dev.log)
    ensures status in {DeviceError, Rejected, StillWriting}
    ensures status.DeviceError? <==> dev.faults != old(dev.faults)
    ensures dev.faults == old(dev.faults) ==>
      (status.Rejected? <==> |written| < 0x1_0000 && |written| <= patience * 1004)
  {
    hide Crc;
    status := LogWrite(dev, written, patience);
    if status.Success? {
      WrongLogIsRejected(written, data, start);
      status := LogCommit(dev, data);
    }
  }

  /** memcpy into `buf` from index `at` */
  method CopyIn(buf: array<octet>, at: nat, data: seq<octet>)
    requires at + |data| <= buf.Length
    modifies buf
    ensures buf[..at + |data|] == old(buf[..at]) + data
    ensures buf[at + |data|..] == old(buf[at + |data|..])
  {
    forall i | 0 <= i < |data| {
      buf[at + i] := data[i];
    }
  }

  predicate WholeChunks(size: nat) {
    size % 1008 == 0
  }

  lemma NextChunk(size: nat)
    ensures WholeChunks(0) && (WholeChunks(size) ==> WholeChunks(size + READ_CHUNK_SIZE))
  {
  }

  /** libhoth_provisioning_log_read; `size` counts the bytes copied, also when it fails. */
  method LogRead(dev: LogDevice, buf: array<octet>) returns (status: Status, size: nat)
    requires dev.Valid()
    modifies buf, dev`faults, dev`shortReplies
    ensures status in {Success, DeviceError, UnexpectedSize, TooLarge}
    ensures status.DeviceError? <==> dev.faults != old(dev.faults)
    ensures status.UnexpectedSize? <==> dev.shortReplies != old(dev.shortReplies)
    ensures size <= buf.Length && size <= |dev.log|
    ensures buf[..size] == dev.log[..size] && buf[size..] == old(buf[size..])
    ensures status.Success? ==> size == |dev.log|
    ensures status.TooLarge? ==>
      |dev.log| > buf.Length && WholeChunks(size) && size + 1008 > buf.Length
    ensures |dev.log| > buf.Length ==> !status.Success?
  {
    hide Crc, WholeChunks;
    size := 0;
    NextChunk(0);
    var total;
    status, total := dev.ReadHeader();
    if status != Success {
      return;
    }
    while size < total
      invariant size <= total && size <= buf.Length && status == Success
      invariant WholeChunks(size) || size == total
      invariant dev.faults == old(dev.faults) && dev.shortReplies == old(dev.shortReplies)
      invariant buf[..size] == dev.log[..size] && buf[size..] == old(buf[size..])
    {
      var chunkSize := if total - size < READ_CHUNK_SIZE then total - size else READ_CHUNK_SIZE;
      var data;
      status, data := dev.Read(size, chunkSize);
      if status != Success {
        return;
      }
      if |data| != chunkSize {
        return UnexpectedSize, size;
      }
      if size + chunkSize > buf.Length {
        return TooLarge, size;
      }
      ghost var rest := buf[size..];
      CopyIn(buf, size, data);
      assert buf[size + chunkSize..] == rest[chunkSize..];
      NextChunk(size);
      assert dev.log[..size + chunkSize] == dev.log[..size] + dev.log[size..size + chunkSize];
      size := size + chunkSize;
    }
  }
}
