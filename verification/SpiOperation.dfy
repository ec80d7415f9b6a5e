/** The fixed buffer in which the host batches SPI transactions (`struct spi_operation`). */
module SpiOperation {
  import opened Bytes
  import opened NorFlash
  import opened SpiWire

  const MAX_TRANSACTIONS := 12
  const MAX_PAYLOAD := 1016

  /** Transport and firmware errors are one code here; the host's own failures keep theirs. */
  datatype Status = Success | DeviceError | ShortResponse | Mismatch(index: nat)

  /** `struct spi_operation_transaction`; a destination pointer is represented by its length. */
  datatype Record = Record(headerOffset: nat, skip: nat, destLen: nat)

  /** The RoT in front of the flash. A failed command may still have run any prefix of its request. */
  class SpiDevice {
    const fourByte: bool
    var flash: Flash
    ghost var log: seq<Transaction>
    ghost var faults: nat    // how often the transport or the device has failed
    ghost var requests: nat  // how many requests it has been sent

    constructor (fourByte: bool, flash: Flash)
      ensures this.fourByte == fourByte && this.flash == flash && log == [] && faults == 0
    {
      this.fourByte, this.flash, log, faults := fourByte, flash, [], 0;
    }

    /** HOTH_PRV_CMD_HOTH_SPI_OPERATION through libhoth_hostcmd_exec_v2. */
    method HostCommand(request: seq<byte>) returns (status: Status, response: seq<byte>)
      modifies this
      ensures status in {Success, DeviceError}
      ensures old(log) <= log
      ensures flash == Run(fourByte, old(flash), log[|old(log)|..])
      ensures status.Success? ==>
        && Decode(request) == Some(log[|old(log)|..])
        && response == Flatten(Misos(fourByte, old(flash), log[|old(log)|..]))
      ensures Decode(request).Some? ==> log[|old(log)|..] <= Decode(request).value
      ensures Decode(request).None? ==> log == old(log)
      ensures old(faults) <= faults && (faults > old(faults) ==> status.DeviceError?)
      ensures requests == old(requests) + 1
      ensures status.DeviceError? && Decode(request).Some? ==>
        || faults > old(faults) || |request| > MAX_PAYLOAD
        || |Flatten(Misos(fourByte, old(flash), Decode(request).value))| > MAX_PAYLOAD
    {
      status, response := DeviceError, [];
      requests := requests + 1;
      match Decode(request) {
        case None => assert log[|log|..] == [];
        case Some(ts) =>
          var all := Flatten(Misos(fourByte, flash, ts));
          var fault: bool := *;
          var count := |ts|;
          if fault || |all| > MAX_PAYLOAD || |request| > MAX_PAYLOAD {
            count :| 0 <= count <= |ts|;
            faults := faults + if fault then 1 else 0;
          } else {
            status, response := Success, all;
          }
          log := log + ts[..count];
          flash := Run(fourByte, flash, ts[..count]);
          assert log[|old(log)|..] == ts[..count];
          assert ts[..|ts|] == ts;
      }
    }
  }

  /** Where spi_operation_execute finds each transaction's bytes: it always steps over `skip`. */
  function Slices(records: seq<Record>, response: seq<byte>, pos: nat): Option<seq<seq<byte>>>
    decreases |records|
  {
    if records == [] then Some([])
    else
      var r := records[0];
      var next := pos + r.skip + r.destLen;
      if r.destLen > 0 && next > |response| then None
      else
        match Slices(records[1..], response, next)
        case None => None
        case Some(rest) => Some([if r.destLen > 0 then response[pos + r.skip..next] else []] + rest)
  }

  /** The record of a transaction agrees with the number of bytes the device returns for it. */
  predicate Describes(r: Record, miso: seq<byte>) {
    r.skip > 0 && |miso| == if r.destLen > 0 then r.skip + r.destLen else 0
  }

  predicate AllDescribe(records: seq<Record>, misos: seq<seq<byte>>) {
    |records| == |misos| && forall i :: 0 <= i < |misos| ==> Describes(records[i], misos[i])
  }

  /** What the caller wants: each transaction's MISO bytes after those clocked during its MOSI. */
  function Wanted(records: seq<Record>, misos: seq<seq<byte>>): seq<seq<byte>>
    requires AllDescribe(records, misos)
  {
    seq(|misos|, i requires 0 <= i < |misos| =>
      assert Describes(records[i], misos[i]); if misos[i] == [] then [] else misos[i][records[i].skip..])
  }

  /** Some transaction at or after `from` reads. */
  predicate HasRead(records: seq<Record>, from: nat) {
    exists i :: from <= i < |records| && records[i].destLen > 0
  }

  /** No reading transaction comes after a write-only one. */
  predicate ReadsFirst(records: seq<Record>) {
    forall i :: 0 <= i < |records| && records[i].destLen == 0 ==> !HasRead(records, i)
  }

  lemma Tails(records: seq<Record>)
    requires records != []
    ensures HasRead(records, 1) == HasRead(records[1..], 0)
    ensures HasRead(records, 0) <==> records[0].destLen > 0 || HasRead(records, 1)
    ensures ReadsFirst(records) <==> if records[0].destLen > 0 then ReadsFirst(records[1..]) else !HasRead(records, 1)
  {
    forall i | 0 < i < |records| ensures records[i] == records[1..][i - 1] {
    }
    forall i | 0 < i < |records| ensures HasRead(records, i) == HasRead(records[1..], i - 1) {
      forall j | i <= j < |records| ensures records[j] == records[1..][j - 1] {
      }
    }
  }

  lemma WriteOnlyReadsFirst(records: seq<Record>, misos: seq<seq<byte>>)
    requires AllDescribe(records, misos) && forall i :: 0 <= i < |misos| ==> misos[i] == []
    ensures ReadsFirst(records)
  {
    forall i | 0 <= i < |records| ensures records[i].destLen == 0 {
      assert Describes(records[i], misos[i]);
    }
  }

  /** A write-only operation is sliced without error, whatever the response and the position. */
  lemma {:induction false} SlicesOfWrites(
      records: seq<Record>, misos: seq<seq<byte>>, response: seq<byte>, pos: nat)
    requires AllDescribe(records, misos) && !HasRead(records, 0)
    ensures Flatten(misos) == []
    ensures Slices(records, response, pos) == Some(Wanted(records, misos))
    decreases |records|
  {
    if records != [] {
      Tails(records);
      SlicesOfWrites(records[1..], misos[1..], response, pos + records[0].skip);
      assert Wanted(records, misos) == [[]] + Wanted(records[1..], misos[1..]);
    }
  }

  /** Once `pos` is ahead of the device, some later read runs off the end of the response. */
  lemma {:induction false} SlicesDrifted(
      records: seq<Record>, misos: seq<seq<byte>>, before: seq<byte>, pos: nat)
    requires AllDescribe(records, misos) && HasRead(records, 0) && pos > |before|
    ensures Slices(records, before + Flatten(misos), pos).None?
    decreases |records|
  {
    var r, m := records[0], misos[0];
    assert before + Flatten(misos) == (before + m) + Flatten(misos[1..]);
    Tails(records);
    if HasRead(records, 1) {
      SlicesDrifted(records[1..], misos[1..], before + m, pos + r.skip + r.destLen);
    } else {
      SlicesOfWrites(records[1..], misos[1..], [], 0);
    }
  }

  /**
   * Slicing delivers every read its own bytes exactly when the reads come first: `pos` also steps over
   * a write-only transaction, for which the device sent nothing, so a later read runs off the response.
   */
  lemma {:induction false} SlicingIsRightIffReadsFirst(
      records: seq<Record>, misos: seq<seq<byte>>, before: seq<byte>)
    requires AllDescribe(records, misos)
    ensures Slices(records, before + Flatten(misos), |before|)
         == if ReadsFirst(records) then Some(Wanted(records, misos)) else None
    decreases |records|
  {
    if records != [] {
      var r, m := records[0], misos[0];
      assert before + Flatten(misos) == (before + m) + Flatten(misos[1..]);
      Tails(records);
      if r.destLen > 0 {
        SlicingIsRightIffReadsFirst(records[1..], misos[1..], before + m);
        assert ((before + m) + Flatten(misos[1..]))[|before| + r.skip..|before| + |m|] == m[r.skip..];
        if ReadsFirst(records) {
          assert Wanted(records, misos) == [m[r.skip..]] + Wanted(records[1..], misos[1..]);
        }
      } else if HasRead(records, 1) {
        SlicesDrifted(records[1..], misos[1..], before + m, |before| + r.skip);
      } else {
        SlicesOfWrites(records, misos, before + Flatten(misos), |before|);
      }
    }
  }

  /** The record kept for a transaction holds the lengths that went into its header. */
  predicate Records(r: Record, t: Transaction) {
    && r.skip == |t.mosi| > 0
    && t.misoLen == (if r.destLen > 0 then r.skip + r.destLen else 0)
    && Encodable(t)
  }

  lemma RecordsDescribe(records: seq<Record>, ts: seq<Transaction>, misos: seq<seq<byte>>)
    requires |records| == |ts| == |misos|
    requires forall i :: 0 <= i < |ts| ==> Records(records[i], ts[i])
    requires forall i :: 0 <= i < |ts| ==> |misos[i]| == ts[i].misoLen
    ensures AllDescribe(records, misos)
    ensures forall t :: t in ts ==> Encodable(t)
    ensures (forall t :: t in ts ==> t.misoLen == 0) ==> ReadsFirst(records)
  {
    forall i | 0 <= i < |ts| ensures Describes(records[i], misos[i]) {
      assert Records(records[i], ts[i]);
    }
    if forall t :: t in ts ==> t.misoLen == 0 {
      forall i | 0 <= i < |ts| ensures misos[i] == [] {
        assert ts[i] in ts;
      }
      WriteOnlyReadsFirst(records, misos);
    }
  }

  /** `struct spi_operation`: C's asserts are the preconditions of the methods that contain them. */
  class Operation {
    const buf: array<byte>
    const transactions: array<Record>
    var pos: nat
    var numTransactions: nat
    ghost var sealed: seq<Transaction>    // the transactions ended so far
    ghost var open: Option<seq<byte>>     // the MOSI bytes of the one begun and not ended

    ghost predicate Valid()
      reads this, buf, transactions
    {
      && buf.Length == MAX_PAYLOAD && transactions.Length == MAX_TRANSACTIONS
      && pos <= MAX_PAYLOAD && numTransactions == |sealed| <= MAX_TRANSACTIONS
      && (forall i :: 0 <= i < |sealed| ==> Records(transactions[i], sealed[i]))
      && match open
         case None => buf[..pos] == Encode(sealed)
         case Some(mosi) =>
           && numTransactions < MAX_TRANSACTIONS
           && var body := transactions[numTransactions].headerOffset + HEADER_SIZE;
           && body + |mosi| == pos
           && buf[..body - HEADER_SIZE] == Encode(sealed)
           && buf[body..pos] == mosi
    }

    constructor ()
      ensures Valid() && fresh(buf) && fresh(transactions)
      ensures sealed == [] && open == None && pos == 0 && numTransactions == 0
    {
      buf := new byte[MAX_PAYLOAD];
      transactions := new Record[MAX_TRANSACTIONS];
      pos, numTransactions := 0, 0;
      sealed, open := [], None;
    }

    /** spi_operation_init */
    method Init()
      requires Valid()
      modifies this
      ensures Valid() && sealed == [] && open == None && pos == 0 && numTransactions == 0
    {
      pos, numTransactions := 0, 0;
      sealed, open := [], None;
    }

    /** spi_operation_begin_transaction */
    method Begin()
      requires Valid() && open == None
      requires numTransactions < MAX_TRANSACTIONS && pos + HEADER_SIZE < MAX_PAYLOAD
      modifies this, transactions
      ensures Valid() && sealed == old(sealed) && open == Some([]) && pos == old(pos) + HEADER_SIZE
      ensures numTransactions == old(numTransactions)
    {
      transactions[numTransactions] := Record(pos, 0, 0);
      pos := pos + HEADER_SIZE;
      open := Some([]);
    }

    /** spi_operation_write_mosi */
    method WriteMosi(mosi: seq<byte>)
      requires Valid() && open.Some?
      requires pos + |mosi| < MAX_PAYLOAD
      modifies this, buf
      ensures Valid() && sealed == old(sealed) && open == Some(old(open).value + mosi)
      ensures pos == old(pos) + |mosi| && numTransactions == old(numTransactions)
    {
      forall i | 0 <= i < |mosi| {
        buf[pos + i] := mosi[i];
      }
      ghost var body := transactions[numTransactions].headerOffset + HEADER_SIZE;
      assert buf[..body - HEADER_SIZE] == old(buf[..body - HEADER_SIZE]);
      assert buf[body..pos + |mosi|] == old(buf[body..pos]) + mosi;
      pos := pos + |mosi|;
      open := Some(open.value + mosi);
    }

    /** spi_operation_write_mosi_address */
    method WriteMosiAddress(fourByte: bool, addr: nat)
      requires Valid() && open.Some?
      requires addr < 0x1_0000_0000
      requires pos + AddressWidth(fourByte) < MAX_PAYLOAD
      modifies this, buf
      ensures Valid() && sealed == old(sealed) && open == Some(old(open).value + AddressBytes(fourByte, addr))
      ensures pos == old(pos) + AddressWidth(fourByte) && numTransactions == old(numTransactions)
    {
      var bytes: seq<byte> := [addr / 0x100_0000 % 256, addr / 0x1_0000 % 256, addr / 0x100 % 256, addr % 256];
      assert bytes == AddressBytes(true, addr) && bytes[1..] == AddressBytes(false, addr);
      WriteMosi(if fourByte then bytes else bytes[1..]);
    }

    /** spi_operation_read_miso_and_end_transaction; spi_operation_end_transaction is `destLen == 0`. */
    method End(destLen: nat)
      requires Valid() && open.Some? && open.value != []
      requires numTransactions < MAX_TRANSACTIONS
      requires destLen <= MAX_PAYLOAD
      modifies this, buf, transactions
      ensures Valid() && open == None && pos == old(pos) && numTransactions == old(numTransactions) + 1
      ensures
        var mosi := old(open).value;
        sealed == old(sealed) + [Transaction(mosi, if destLen > 0 then |mosi| + destLen else 0)]
    {
      hide Encode;
      var header := transactions[numTransactions].headerOffset;
      var mosiLen := pos - header - HEADER_SIZE;
      var misoLen := if destLen > 0 then mosiLen + destLen else 0;
      transactions[numTransactions] := Record(header, mosiLen, destLen);
      ghost var t := Transaction(open.value, misoLen);
      var request := Le16(mosiLen) + Le16(misoLen);
      forall i | 0 <= i < HEADER_SIZE {
        buf[header + i] := request[i];
      }
      assert buf[..pos] == Encode(sealed) + EncodeOne(t) by {
        assert buf[..header] == old(buf[..header]) && buf[header + HEADER_SIZE..pos] == open.value;
        assert buf[header..header + HEADER_SIZE] == request;
        assert buf[..pos] == buf[..header] + buf[header..header + HEADER_SIZE] + buf[header + HEADER_SIZE..pos];
      }
      EncodeSnoc(sealed, t);
      numTransactions := numTransactions + 1;
      sealed := sealed + [t];
      open := None;
    }

    /** The loop of spi_operation_execute that copies the response out to the transactions. */
    method CopyOut(response: seq<byte>) returns (status: Status, slices: seq<seq<byte>>)
      requires Valid()
      ensures match Slices(transactions[..numTransactions], response, 0)
        case None => status == ShortResponse
        case Some(s) => status == Success && slices == s
    {
      slices := [];
      var at: nat := 0;
      ghost var records := transactions[..numTransactions];
      assert records[0..] == records;
      ghost var all := Slices(records, response, 0);
      assert all.Some? ==> [] + all.value == all.value;
      for i := 0 to numTransactions
        invariant Slices(records, response, 0) ==
          match Slices(records[i..], response, at) case None => None case Some(rest) => Some(slices + rest)
      {
        var r := transactions[i];
        assert records[i] == r && records[i..][1..] == records[i + 1..];
        var slice := [];
        if r.destLen > 0 {
          if at + r.destLen + r.skip > |response| {
            return ShortResponse, [];
          }
          slice := response[at + r.skip..at + r.skip + r.destLen];
        }
        ghost var before := slices;
        at := at + r.skip + r.destLen;
        slices := slices + [slice];
        assert forall rest :: before + ([slice] + rest) == slices + rest;
      }
      assert slices + [] == slices;
      status := Success;
    }

    /**
     * spi_operation_execute. On success `slices` holds what was copied to each transaction's destination,
     * and that is what the device sent for it; it succeeds exactly when the reads come first.
     */
    method Execute(dev: SpiDevice) returns (status: Status, slices: seq<seq<byte>>)
      requires Valid() && open == None
      modifies dev
      ensures old(dev.log) <= dev.log
      ensures dev.flash == Run(dev.fourByte, old(dev.flash), dev.log[|old(dev.log)|..])
      ensures dev.log[|old(dev.log)|..] <= sealed
      ensures status in {Success, DeviceError, ShortResponse}
      ensures !status.DeviceError? ==> dev.log == old(dev.log) + sealed
      ensures !status.DeviceError? ==>
        var records := transactions[..numTransactions];
        var misos := Misos(dev.fourByte, old(dev.flash), sealed);
        && AllDescribe(records, misos)
        && (status.Success? <==> ReadsFirst(records))
        && (status.Success? ==> slices == Wanted(records, misos))
      ensures (forall t :: t in sealed ==> t.misoLen == 0) ==> !status.ShortResponse?
      ensures dev.requests == old(dev.requests) + 1
      ensures old(dev.faults) <= dev.faults && (dev.faults > old(dev.faults) ==> status.DeviceError?)
      ensures status.DeviceError? ==>
        dev.faults > old(dev.faults) || |Flatten(Misos(dev.fourByte, old(dev.flash), sealed))| > MAX_PAYLOAD
    {
      hide Run, Misos, Slices, Wanted, ReadsFirst, Describes, Encode, Decode;
      ghost var misos := Misos(dev.fourByte, dev.flash, sealed);
      RecordsDescribe(transactions[..numTransactions], sealed, misos);
      DecodeEncode(sealed);
      var response;
      status, response := dev.HostCommand(buf[..pos]);
      slices := [];
      if status.Success? {
        SlicingIsRightIffReadsFirst(transactions[..numTransactions], misos, []);
        assert [] + Flatten(misos) == response;
        status, slices := CopyOut(response);
      }
    }
  }
}
