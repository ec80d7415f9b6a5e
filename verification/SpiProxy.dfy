/** The SPI proxy's read, verify and update loops (protocol/spi_proxy.c). */
module SpiProxy {
  import opened Bytes
  import opened NorFlash
  import opened SpiOperation
  import opened SpiPlan
  import opened SpiWire

  /** What is left of a response for data: 1016 - 4 - 5 bytes. */
  const READ_CHUNK_SIZE := 1007

  /** The most that one page of an update adds to an operation: an erase of 14 bytes and a page with its headers. */
  const MAX_PAGE_BYTES := 284

  function ReadTransaction(fourByte: bool, addr: nat, len: nat): Transaction {
    Transaction([READ] + AddressBytes(fourByte, addr), 1 + AddressWidth(fourByte) + len)
  }

  /** A read in bytes: the opcode, and the address with its highest byte first. */
  lemma ReadBytes(a: byte, b: byte, d: byte, e: byte, len: nat)
    ensures
      var addr := 0x100_0000 * a + 0x1_0000 * b + 0x100 * d + e;
      && ReadTransaction(true, addr, len) == Transaction([0x03, a, b, d, e], 5 + len)
      && ReadTransaction(false, addr, len) == Transaction([0x03, b, d, e], 4 + len)
  {
    AddressDigits(a, b, d, e);
    hide AddressBytes;
  }

  lemma ReadByte(fourByte: bool, mem: seq<byte>, addr: nat, j: nat)
    requires addr < AddressSpace(fourByte)
    ensures MisoByte(fourByte, mem, [READ] + AddressBytes(fourByte, addr), 1 + AddressWidth(fourByte) + j)
         == ByteAt(mem, addr + j)
  {
    var mosi := [READ] + AddressBytes(fourByte, addr);
    assert mosi[1..1 + AddressWidth(fourByte)] == AddressBytes(fourByte, addr);
    AddressRoundTrip(fourByte, addr);
    hide AddressBytes, DecodeAddress;
  }

  /** What a read keeps of the MISO bytes is the flash contents, and the flash is as before. */
  lemma ReadTransactionWorks(fourByte: bool, f: Flash, addr: nat, len: nat)
    requires addr < AddressSpace(fourByte)
    ensures
      var t := ReadTransaction(fourByte, addr, len);
      && |t.mosi| == 1 + AddressWidth(fourByte)
      && Miso(fourByte, f, t)[|t.mosi|..] == Window(f.mem, addr, len)
      && Step(fourByte, f, t) == f
  {
    hide AddressBytes, DecodeAddress, MisoByte, ByteAt;
    var t := ReadTransaction(fourByte, addr, len);
    var got := Miso(fourByte, f, t)[|t.mosi|..];
    forall j | 0 <= j < len ensures got[j] == ByteAt(f.mem, addr + j) {
      ReadByte(fourByte, f.mem, addr, j);
    }
  }

  /** An operation that is one read, run or not. */
  lemma OneRead(fourByte: bool, f: Flash, addr: nat, len: nat, ran: seq<Transaction>)
    requires addr < AddressSpace(fourByte)
    requires ran <= [ReadTransaction(fourByte, addr, len)]
    ensures Run(fourByte, f, ran) == f
    ensures
      var misos := Misos(fourByte, f, [ReadTransaction(fourByte, addr, len)]);
      && misos == [Miso(fourByte, f, ReadTransaction(fourByte, addr, len))]
      && |Flatten(misos)| == 1 + AddressWidth(fourByte) + len
  {
    var miso := Miso(fourByte, f, ReadTransaction(fourByte, addr, len));
    hide Miso, Step;
    ReadTransactionWorks(fourByte, f, addr, len);
    var one: seq<seq<byte>> := [miso];
    assert |one[1..]| == 0 && Flatten(one) == miso + Flatten(one[1..]);
    assert ran == [] || ran == [ReadTransaction(fourByte, addr, len)];
  }

  lemma OnlySlice(records: seq<Record>, miso: seq<byte>)
    requires |records| == 1 && AllDescribe(records, [miso]) && miso != []
    ensures ReadsFirst(records) && Wanted(records, [miso]) == [miso[records[0].skip..]]
  {
    assert Describes(records[0], [miso][0]);
  }

  /** spi_read_chunk up to the copy out of the response. */
  method ReadOut(dev: SpiDevice, addr: nat, len: nat) returns (status: Status, bytes: seq<byte>)
    requires 0 < len <= READ_CHUNK_SIZE && addr + len <= AddressSpace(dev.fourByte)
    modifies dev
    ensures status in {Success, DeviceError} && (status.DeviceError? <==> dev.faults != old(dev.faults))
    ensures dev.flash == old(dev.flash) && dev.requests == old(dev.requests) + 1
    ensures status.Success? ==> bytes == Window(dev.flash.mem, addr, len)
  {
    hide Miso, Misos, Run, Step, Window, AddressBytes, ByteAt, Wanted, AllDescribe, ReadsFirst;
    var op := new Operation();
    op.Begin();
    op.WriteMosi([READ]);
    op.WriteMosiAddress(dev.fourByte, addr);
    op.End(len);
    ghost var f, t := dev.flash, ReadTransaction(dev.fourByte, addr, len);
    assert [READ] + AddressBytes(dev.fourByte, addr) == [] + [READ] + AddressBytes(dev.fourByte, addr);
    ReadTransactionWorks(dev.fourByte, f, addr, len);
    assert op.sealed == [t];
    var slices;
    ghost var log := dev.log;
    status, slices := op.Execute(dev);
    OneRead(dev.fourByte, f, addr, len, dev.log[|log|..]);
    bytes := [];
    if !status.DeviceError? {
      assert Records(op.transactions[0], t);
      OnlySlice(op.transactions[..1], Miso(dev.fourByte, f, t));
      bytes := slices[0];
    }
  }

  /** spi_read_chunk, into `buf` from index `at` */
  method ReadChunk(dev: SpiDevice, addr: nat, buf: array<byte>, at: nat, len: nat) returns (status: Status)
    requires 0 < len <= READ_CHUNK_SIZE && addr + len <= AddressSpace(dev.fourByte) && at + len <= buf.Length
    modifies dev, buf
    ensures status in {Success, DeviceError} && (status.DeviceError? <==> dev.faults != old(dev.faults))
    ensures dev.flash == old(dev.flash) && dev.requests == old(dev.requests) + 1
    ensures status.Success? ==>
      buf[..] == old(buf[..at]) + Window(dev.flash.mem, addr, len) + old(buf[at + len..])
    ensures status.DeviceError? ==> buf[..] == old(buf[..])
  {
    hide Window;
    var bytes;
    status, bytes := ReadOut(dev, addr, len);
    if status.Success? {
      forall i | 0 <= i < len {
        buf[at + i] := bytes[i];
      }
    }
  }

  /** libhoth_spi_proxy_read */
  method Read(dev: SpiDevice, addr: nat, buf: array<byte>, len: nat) returns (status: Status)
    requires addr + len <= AddressSpace(dev.fourByte) && len <= buf.Length
    modifies dev, buf
    ensures status in {Success, DeviceError} && (status.DeviceError? <==> dev.faults != old(dev.faults))
    ensures dev.flash == old(dev.flash)
    ensures buf[len..] == old(buf[len..])
    ensures status.Success? ==> buf[..len] == Window(dev.flash.mem, addr, len)
    ensures status.Success? ==> len <= 1007 * (dev.requests - old(dev.requests)) < len + 1007
  {
    hide Window;
    status := Success;
    var done := 0;
    WindowSplit(dev.flash.mem, addr, 0, 0);
    while done < len
      invariant done <= len && status == Success
      invariant dev.flash == old(dev.flash) && dev.faults == old(dev.faults)
      invariant buf[len..] == old(buf[len..])
      invariant
        var asked := 1007 * (dev.requests - old(dev.requests));
        done <= asked < done + 1007 && (done < len ==> done == asked)
      invariant buf[..done] == Window(dev.flash.mem, addr, done)
    {
      var readLen := Min(len - done, READ_CHUNK_SIZE);
      ghost var before := buf[..];
      status := ReadChunk(dev, addr + done, buf, done, readLen);
      if status != Success {
        assert buf[len..] == before[len..];
        return;
      }
      WindowSplit(dev.flash.mem, addr, done, readLen);
      assert buf[..done + readLen] == before[..done] + Window(dev.flash.mem, addr + done, readLen);
      assert buf[len..] == before[len..];
      done := done + readLen;
    }
  }

  /** What comparing one chunk, up to its first difference, says about the whole range. */
  lemma ChunkCompared(mem: seq<byte>, addr: nat, data: seq<byte>, done: nat, got: seq<byte>, same: nat)
    requires done + |got| <= |data| && same <= |got|
    requires Window(mem, addr, done) == data[..done]
    requires got == Window(mem, addr + done, |got|)
    requires data[done..done + same] == got[..same]
    requires same < |got| ==> data[done + same] != got[same]
    ensures Window(mem, addr, done + same) == data[..done + same]
    ensures same < |got| ==>
      ByteAt(mem, addr + done + same) != data[done + same] && Window(mem, addr, |data|) != data
  {
    WindowSplit(mem, addr, done, same);
    assert Window(mem, addr + done, same) == got[..same];
    assert data[..done + same] == data[..done] + data[done..done + same];
    if same < |got| {
      assert Window(mem, addr, |data|)[done + same] == ByteAt(mem, addr + done + same) == got[same];
    }
  }

  /** The inner loop of libhoth_spi_proxy_verify. */
  method FirstDifference(expected: seq<byte>, at: nat, got: array<byte>, len: nat) returns (i: nat)
    requires at + len <= |expected| && len <= got.Length
    ensures i <= len && expected[at..at + i] == got[..i]
    ensures i < len ==> expected[at + i] != got[i]
  {
    i := 0;
    while i < len && expected[at + i] == got[i]
      invariant i <= len && expected[at..at + i] == got[..i]
    {
      i := i + 1;
    }
  }

  /** libhoth_spi_proxy_verify: unless the device fails, it succeeds exactly when the flash holds `data`. */
  method Verify(dev: SpiDevice, addr: nat, data: seq<byte>) returns (status: Status)
    requires addr + |data| <= AddressSpace(dev.fourByte)
    modifies dev
    ensures dev.flash == old(dev.flash)
    ensures status != ShortResponse && (status.DeviceError? <==> dev.faults != old(dev.faults))
    ensures !status.DeviceError? ==> (status.Success? <==> Window(dev.flash.mem, addr, |data|) == data)
    ensures status.Mismatch? ==>
      && status.index < |data|
      && ByteAt(dev.flash.mem, addr + status.index) != data[status.index]
      && Window(dev.flash.mem, addr, status.index) == data[..status.index]
    ensures status.Success? ==> |data| <= 1007 * (dev.requests - old(dev.requests)) < |data| + 1007
  {
    hide Window;
    var readBuf := new byte[READ_CHUNK_SIZE];
    var done := 0;
    ghost var mem := dev.flash.mem;
    assert Window(mem, addr, 0) == [];
    while done < |data|
      invariant done <= |data|
      invariant dev.flash == old(dev.flash) && dev.faults == old(dev.faults)
      invariant
        var asked := 1007 * (dev.requests - old(dev.requests));
        done <= asked < done + 1007 && (done < |data| ==> done == asked)
      invariant Window(mem, addr, done) == data[..done]
    {
      var readLen := Min(|data| - done, readBuf.Length);
      status := ReadChunk(dev, addr + done, readBuf, 0, readLen);
      if status != Success {
        return;
      }
      assert readBuf[..readLen] == Window(mem, addr + done, readLen);
      var same := FirstDifference(data, done, readBuf, readLen);
      ChunkCompared(mem, addr, data, done, readBuf[..readLen], same);
      if same < readLen {
        return Mismatch(done + same);
      }
      done := done + readLen;
    }
    status := Success;
  }

  /** The write-enable transaction that spi_write_page and spi_erase_generic begin with. */
  method EnableWrite(op: Operation)
    requires op.Valid() && op.open == None && op.numTransactions < MAX_TRANSACTIONS
    requires op.pos + 5 < MAX_PAYLOAD
    modifies op, op.buf, op.transactions
    ensures op.Valid() && op.open == None && op.pos == old(op.pos) + 5
    ensures op.numTransactions == old(op.numTransactions) + 1
    ensures op.sealed == old(op.sealed) + [Transaction([WRITE_ENABLE], 0)]
  {
    hide Operation.Valid;
    op.Begin();
    op.WriteMosi([WRITE_ENABLE]);
    assert [] + [WRITE_ENABLE] == [WRITE_ENABLE];
    op.End(0);
  }

  /** spi_write_page */
  method WritePage(op: Operation, fourByte: bool, addr: nat, data: seq<byte>)
    requires op.Valid() && op.open == None && op.numTransactions + 2 <= MAX_TRANSACTIONS
    requires addr < 0x1_0000_0000 && op.pos + 10 + AddressWidth(fourByte) + |data| < MAX_PAYLOAD
    modifies op, op.buf, op.transactions
    ensures op.Valid() && op.open == None
    ensures op.sealed == old(op.sealed) + Transactions(fourByte, Program(addr, data))
    ensures op.pos == old(op.pos) + 10 + AddressWidth(fourByte) + |data|
    ensures op.numTransactions == old(op.numTransactions) + 2
  {
    hide AddressBytes, Operation.Valid;
    EnableWrite(op);
    op.Begin();
    op.WriteMosi([PAGE_PROGRAM]);
    op.WriteMosiAddress(fourByte, addr);
    op.WriteMosi(data);
    assert [] + [PAGE_PROGRAM] == [PAGE_PROGRAM];
    op.End(0);
  }

  /** spi_erase_generic */
  method EraseGeneric(op: Operation, fourByte: bool, start: nat, opcode: byte)
    requires op.Valid() && op.open == None && op.numTransactions + 2 <= MAX_TRANSACTIONS
    requires start < 0x1_0000_0000 && op.pos + 10 + AddressWidth(fourByte) < MAX_PAYLOAD
    requires opcode in {ERASE_4K, ERASE_64K}
    modifies op, op.buf, op.transactions
    ensures op.Valid() && op.open == None
    ensures op.sealed == old(op.sealed) +
      Transactions(fourByte, if opcode == ERASE_4K then Erase4K(start) else Erase64K(start))
    ensures op.pos == old(op.pos) + 10 + AddressWidth(fourByte)
    ensures op.numTransactions == old(op.numTransactions) + 2
  {
    hide AddressBytes, Operation.Valid;
    EnableWrite(op);
    op.Begin();
    op.WriteMosi([opcode]);
    op.WriteMosiAddress(fourByte, start);
    assert [] + [opcode] + AddressBytes(fourByte, start) == [opcode] + AddressBytes(fourByte, start);
    op.End(0);
  }

  /** The erase that the update sends before a page of a sector not erased yet. */
  method AddErase(op: Operation, fourByte: bool, addr: nat, remaining: nat) returns (needErase: nat)
    requires op.Valid() && op.open == None && op.numTransactions + 2 <= MAX_TRANSACTIONS
    requires addr < 0x1_0000_0000 && op.pos + 14 < MAX_PAYLOAD
    modifies op, op.buf, op.transactions
    ensures op.Valid() && op.open == None
    ensures needErase == EraseEnd(Erase(addr, remaining))
    ensures op.sealed == old(op.sealed) + Transactions(fourByte, Erase(addr, remaining))
    ensures op.pos <= old(op.pos) + 14 && op.numTransactions == old(op.numTransactions) + 2
  {
    hide Transactions, Operation.Valid;
    var start64, start4 := addr / 65536 * 65536, addr / 4096 * 4096;
    var end64, end4 := (start64 + 65536) % 0x1_0000_0000, (start4 + 4096) % 0x1_0000_0000;
    if (start64 >= addr || start64 == start4) && (end64 <= addr + remaining || end64 == end4) {
      needErase := end64;
      EraseGeneric(op, fourByte, start64, ERASE_64K);
    } else {
      needErase := end4;
      EraseGeneric(op, fourByte, start4, ERASE_4K);
    }
  }

  /** The first half of the update's loop: the erase that a page may need, and the page. */
  method AddPage(op: Operation, fourByte: bool, addr: nat, needErase: nat, data: seq<byte>)
    returns (newNeedErase: nat, writeLen: nat)
    requires op.Valid() && op.open == None && op.numTransactions + 4 <= MAX_TRANSACTIONS
    requires data != [] && addr + |data| <= 0x1_0000_0000
    requires op.pos + MAX_PAGE_BYTES < MAX_PAYLOAD
    modifies op, op.buf, op.transactions
    ensures op.Valid() && op.open == None
    ensures writeLen == WriteLen(addr, |data|) && newNeedErase == NextNeed(addr, needErase, |data|)
    ensures op.sealed == old(op.sealed) + AllTransactions(fourByte, PageCommands(addr, needErase, data))
    ensures op.numTransactions <= old(op.numTransactions) + 4 && op.pos <= old(op.pos) + MAX_PAGE_BYTES
  {
    hide Transactions, AllTransactions, Erase, EraseEnd, Operation.Valid;
    newNeedErase := needErase;
    var pageEnd := (addr + 256) % 0x1_0000_0000 / 256 * 256;
    assert pageEnd > addr ==> pageEnd <= addr + 256;
    if pageEnd > needErase {
      newNeedErase := AddErase(op, fourByte, addr, |data|);
    }
    writeLen := Min((pageEnd - addr) % 0x1_0000_0000_0000_0000, |data|);
    ghost var write := Program(addr, data[..writeLen]);
    WritePage(op, fourByte, addr, data[..writeLen]);
    PageTransactions(fourByte, Erase(addr, |data|), write);
    assert PageCommands(addr, needErase, data)
        == if pageEnd > needErase then [Erase(addr, |data|), write] else [write];
  }

  lemma PageTransactions(fourByte: bool, erase: Command, write: Command)
    ensures |Transactions(fourByte, erase)| == |Transactions(fourByte, write)| == 2
    ensures AllTransactions(fourByte, [write]) == Transactions(fourByte, write)
    ensures AllTransactions(fourByte, [erase, write]) == Transactions(fourByte, erase) + Transactions(fourByte, write)
  {
    TwoEach(fourByte, erase);
    TwoEach(fourByte, write);
    hide Transactions;
    assert [erase, write][1..] == [write] && [write][1..] == [];
  }

  lemma {:induction false} NothingReturned(fourByte: bool, f: Flash, ts: seq<Transaction>)
    requires forall t :: t in ts ==> t.misoLen == 0
    ensures Flatten(Misos(fourByte, f, ts)) == []
    decreases |ts|
  {
    hide Step;
    if ts != [] {
      assert ts[0] in ts;
      var ms := Misos(fourByte, f, ts);
      assert ms[0] == [] && ms[1..] == Misos(fourByte, Step(fourByte, f, ts[0]), ts[1..]);
      NothingReturned(fourByte, Step(fourByte, f, ts[0]), ts[1..]);
    }
  }

  /** Executing and resetting an operation that only writes. */
  method Flush(op: Operation, dev: SpiDevice) returns (status: Status)
    requires op.Valid() && op.open == None && forall t :: t in op.sealed ==> t.misoLen == 0
    modifies dev, op
    ensures op.Valid() && op.open == None && op.pos == op.numTransactions == 0 && op.sealed == []
    ensures status in {Success, DeviceError} && (status.DeviceError? <==> dev.faults != old(dev.faults))
    ensures old(dev.log) <= dev.log
    ensures dev.log[|old(dev.log)|..] <= old(op.sealed)
    ensures dev.flash == Run(dev.fourByte, old(dev.flash), dev.log[|old(dev.log)|..])
    ensures status.Success? ==> dev.log == old(dev.log) + old(op.sealed)
    ensures dev.requests == old(dev.requests) + 1
  {
    hide Run, Misos, Wanted, AllDescribe, ReadsFirst, Operation.Valid;
    NothingReturned(dev.fourByte, dev.flash, op.sealed);
    var slices;
    status, slices := op.Execute(dev);
    op.Init();
  }

  /** Running more of the plan: `ran` transactions of `pending`, after all of `sent`. */
  lemma RanFurther(fourByte: bool, f: Flash, sent: seq<Command>, pending: seq<Command>, rest: seq<Command>,
                   ran: seq<Transaction>)
    requires ran <= AllTransactions(fourByte, pending)
    ensures AllTransactions(fourByte, sent) + ran <= AllTransactions(fourByte, sent + pending + rest)
    ensures Run(fourByte, Run(fourByte, f, AllTransactions(fourByte, sent)), ran)
         == Run(fourByte, f, AllTransactions(fourByte, sent) + ran)
    ensures ran == AllTransactions(fourByte, pending) ==>
      AllTransactions(fourByte, sent) + ran == AllTransactions(fourByte, sent + pending)
  {
    TransactionsAppend(fourByte, sent, pending);
    TransactionsAppend(fourByte, sent + pending, rest);
    RunAppend(fourByte, f, AllTransactions(fourByte, sent), ran);
  }

  /** Sending the batched commands `pending` of an update, of which `sent` was run since `log` and `f`. */
  method SendPending(op: Operation, dev: SpiDevice, ghost log: seq<Transaction>, ghost f: Flash,
                     ghost sent: seq<Command>, ghost pending: seq<Command>, ghost rest: seq<Command>)
    returns (status: Status)
    requires op.Valid() && op.open == None && op.sealed == AllTransactions(dev.fourByte, pending)
    requires dev.log == log + AllTransactions(dev.fourByte, sent)
    requires dev.flash == Run(dev.fourByte, f, AllTransactions(dev.fourByte, sent))
    modifies dev, op
    ensures op.Valid() && op.open == None && op.pos == op.numTransactions == 0
    ensures op.sealed == AllTransactions(dev.fourByte, [])
    ensures status in {Success, DeviceError} && (status.DeviceError? <==> dev.faults != old(dev.faults))
    ensures dev.requests == old(dev.requests) + 1
    ensures log <= dev.log && dev.log[|log|..] <= AllTransactions(dev.fourByte, sent + pending + rest)
    ensures dev.flash == Run(dev.fourByte, f, dev.log[|log|..])
    ensures status.Success? ==> dev.log == log + AllTransactions(dev.fourByte, sent + pending)
    ensures status.Success? ==> dev.flash == Run(dev.fourByte, f, AllTransactions(dev.fourByte, sent + pending))
  {
    hide Run, AllTransactions, Operation.Valid;
    AllWriteOnly(dev.fourByte, pending);
    NothingYet(dev.fourByte, f);
    status := Flush(op, dev);
    ghost var ran := dev.log[|old(dev.log)|..];
    RanFurther(dev.fourByte, f, sent, pending, rest, ran);
    assert dev.log == log + (AllTransactions(dev.fourByte, sent) + ran);
  }

  /** What it means for the flash that some prefix of an update was run. */
  lemma UpdateOutcome(fourByte: bool, f: Flash, start: nat, data: seq<byte>, ran: seq<Transaction>)
    requires start < 0x1_0000_0000 && ran <= UpdateTransactions(fourByte, start, data)
    ensures Contained(fourByte, start, |data|) ==>
      SameOutside(f.mem, Run(fourByte, f, ran).mem, SectorOf(start), SectorsEnd(start + |data|))
    ensures InRange(fourByte, start, |data|) && ran == UpdateTransactions(fourByte, start, data) ==>
      Run(fourByte, f, ran).mem == UpdatedFlash(f.mem, start, data)
  {
    hide Run, UpdateTransactions, SectorOf, SectorsEnd, SameOutside, UpdatedFlash, Contained, InRange;
    if Contained(fourByte, start, |data|) {
      FailedUpdateIsContained(fourByte, f, start, data, ran);
    }
    if InRange(fourByte, start, |data|) {
      UpdateWorks(fourByte, f, start, data);
    }
  }

  /**
   * The loop of libhoth_spi_proxy_update. Three pages go into an operation, with their erases; every assert of
   * the batch builder is a precondition met here, for any range that can be addressed.
   */
  method SendUpdate(dev: SpiDevice, start: nat, data: seq<byte>) returns (status: Status)
    requires start < 0x1_0000_0000 && start + |data| <= 0x1_0000_0000
    modifies dev
    ensures status in {Success, DeviceError} && (status.DeviceError? <==> dev.faults != old(dev.faults))
    ensures old(dev.log) <= dev.log
    ensures dev.log[|old(dev.log)|..] <= UpdateTransactions(dev.fourByte, start, data)
    ensures dev.flash == Run(dev.fourByte, old(dev.flash), dev.log[|old(dev.log)|..])
    ensures status.Success? ==> dev.log == old(dev.log) + UpdateTransactions(dev.fourByte, start, data)
    ensures status.Success? ==> dev.requests == old(dev.requests) + (PagesTouched(start, |data|) + 2) / 3
  {
    hide Run, Plan, AllTransactions, NextNeed, WriteLen, PageCommands, UpdateTransactions, PagesTouched, Flatten,
      Operation.Valid, Min, AddressSpace, Encode;
    var op := new Operation();
    status := Success;
    var pagesInOp: nat := 0;
    var addr, needErase, done: nat := start, start, 0;
    ghost var plan := Plan(start, start, data);
    PlanIsUpdate(dev.fourByte, start, data);
    ghost var sent: seq<Command>, pending: seq<Command> := [], [];
    NothingYet(dev.fourByte, dev.flash);
    assert data[0..] == data && [] + [] + plan == plan;
    NoPages(start);
    while done < |data|
      invariant done <= |data| && addr == (start + done) % 0x1_0000_0000
      invariant op.Valid() && op.open == None && fresh(op) && fresh(op.buf) && fresh(op.transactions)
      invariant pagesInOp < 3 && op.numTransactions <= pagesInOp * 4 && op.pos <= pagesInOp * MAX_PAGE_BYTES
      invariant status == Success && dev.faults == old(dev.faults)
      invariant done == |data| ==> pending == []
      invariant done == 0 || done == |data| || (start + done) % 256 == 0
      invariant
        var sentPages := 3 * (dev.requests - old(dev.requests));
        if done < |data| then sentPages + pagesInOp == PagesTouched(start, done)
        else sentPages <= PagesTouched(start, done) + 2 < sentPages + 3
      invariant sent + pending + Plan(addr, needErase, data[done..]) == plan
      invariant op.sealed == AllTransactions(dev.fourByte, pending)
      invariant dev.log == old(dev.log) + AllTransactions(dev.fourByte, sent)
      invariant dev.flash == Run(dev.fourByte, old(dev.flash), AllTransactions(dev.fourByte, sent))
    {
      ghost var page := PageCommands(addr, needErase, data[done..]);
      PlanFurther(dev.fourByte, sent, pending, addr, needErase, data, done);
      OneMorePage(start, done, |data|);
      var writeLen;
      needErase, writeLen := AddPage(op, dev.fourByte, addr, needErase, data[done..]);
      done, pagesInOp := done + writeLen, pagesInOp + 1;
      addr := (addr + writeLen) % 0x1_0000_0000;
      pending := pending + page;
      ghost var rest := Plan(addr, needErase, data[done..]);

      if pagesInOp >= 3 || done == |data| {
        pagesInOp := 0;
        status := SendPending(op, dev, old(dev.log), old(dev.flash), sent, pending, rest);
        if status != Success {
          return;
        }
        sent, pending := sent + pending, [];
      }
    }
    PlanOfNothing([], addr, needErase, data[done..]);
    assert sent == plan;
  }

  /**
   * libhoth_spi_proxy_update: a successful update has sent exactly the plan, and a failed one a prefix of it.
   */
  method Update(dev: SpiDevice, start: nat, data: seq<byte>) returns (status: Status)
    requires start < 0x1_0000_0000 && start + |data| <= 0x1_0000_0000
    modifies dev
    ensures status in {Success, DeviceError} && (status.DeviceError? <==> dev.faults != old(dev.faults))
    ensures old(dev.log) <= dev.log
    ensures dev.log[|old(dev.log)|..] <= UpdateTransactions(dev.fourByte, start, data)
    ensures status.Success? ==> dev.log == old(dev.log) + UpdateTransactions(dev.fourByte, start, data)
    ensures Contained(dev.fourByte, start, |data|) ==>
      SameOutside(old(dev.flash.mem), dev.flash.mem, SectorOf(start), SectorsEnd(start + |data|))
    ensures InRange(dev.fourByte, start, |data|) && status.Success? ==>
      dev.flash.mem == UpdatedFlash(old(dev.flash.mem), start, data)
    ensures status.Success? && start + |data| <= 0xFFFF_0000 && start + |data| <= AddressSpace(dev.fourByte) ==>
      ErasesWholeBlocks(dev.fourByte, dev.log[|old(dev.log)|..], start, start + |data|)
    ensures status.Success? ==> dev.requests == old(dev.requests) + (PagesTouched(start, |data|) + 2) / 3
  {
    hide Run, UpdateTransactions, SameOutside, UpdatedFlash, Contained, InRange, SectorOf, SectorsEnd,
      ErasesWholeBlocks, PagesTouched;
    status := SendUpdate(dev, start, data);
    UpdateOutcome(dev.fourByte, old(dev.flash), start, data, dev.log[|old(dev.log)|..]);
    if start + |data| <= 0xFFFF_0000 && start + |data| <= AddressSpace(dev.fourByte) {
      UpdateErasesWholeBlocks(dev.fourByte, start, data);
    }
  }

  /** One more page of the plan is pending. */
  lemma PlanFurther(fourByte: bool, sent: seq<Command>, pending: seq<Command>, addr: nat, need: nat,
                    data: seq<byte>, done: nat)
    requires done < |data| && addr < 0x1_0000_0000
    ensures
      var page, n := PageCommands(addr, need, data[done..]), WriteLen(addr, |data| - done);
      && AllTransactions(fourByte, pending + page)
         == AllTransactions(fourByte, pending) + AllTransactions(fourByte, page)
      && sent + pending + Plan(addr, need, data[done..])
         == sent + (pending + page)
            + Plan((addr + n) % 0x1_0000_0000, NextNeed(addr, need, |data| - done), data[done + n..])
  {
    hide Plan, PageCommands, WriteLen, NextNeed, AllTransactions;
    var page, n := PageCommands(addr, need, data[done..]), WriteLen(addr, |data| - done);
    PlanUnfold(addr, need, data[done..]);
    TransactionsAppend(fourByte, pending, page);
    assert data[done..][n..] == data[done + n..];
  }

  lemma NoPages(start: nat)
    ensures PagesTouched(start, 0) == 0
  {
  }

  lemma PlanIsUpdate(fourByte: bool, start: nat, data: seq<byte>)
    requires start < 0x1_0000_0000
    ensures UpdateTransactions(fourByte, start, data) == AllTransactions(fourByte, Plan(start, start, data))
  {
  }

  lemma NothingYet(fourByte: bool, f: Flash)
    ensures AllTransactions(fourByte, []) == [] && Run(fourByte, f, []) == f
  {
  }

  lemma Verifies(mem: seq<byte>, addr: nat, data: seq<byte>)
    requires addr + |data| <= |mem|
    ensures Window(UpdatedFlash(mem, addr, data), addr, |data|) == data
  {
    hide SectorOf, SectorsEnd;
    assert forall j :: 0 <= j < |data| ==> ByteAt(UpdatedFlash(mem, addr, data), addr + j) == data[j];
  }

  /** `htool spi update --verify`: what an update wrote always verifies. */
  method UpdateAndVerify(dev: SpiDevice, start: nat, data: seq<byte>) returns (status: Status)
    requires InRange(dev.fourByte, start, |data|) && start + |data| <= |dev.flash.mem|
    modifies dev
    ensures status in {Success, DeviceError} && (status.DeviceError? <==> dev.faults != old(dev.faults))
    ensures status.Success? ==> dev.flash.mem == UpdatedFlash(old(dev.flash.mem), start, data)
  {
    status := Update(dev, start, data);
    if status.Success? {
      Verifies(old(dev.flash.mem), start, data);
      status := Verify(dev, start, data);
    }
  }
}
