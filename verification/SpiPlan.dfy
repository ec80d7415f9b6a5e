/** What an update of a range of flash asks of the device, and why that is the right thing to ask. */
module SpiPlan {
  import opened Bytes
  import opened NorFlash

  // A page is 256 bytes, a sector 4096 and a block 65536. These sizes are divisors almost everywhere, and the
  // solver's integer arithmetic divides by numerals only, so they stay numerals inside the functions below.

  /** A command is sent as a write-enable transaction and the transaction that needs it. */
  datatype Command =
    | Erase4K(start: nat)
    | Erase64K(start: nat)
    | Program(addr: nat, data: seq<byte>)

  function Transactions(fourByte: bool, c: Command): seq<Transaction> {
    var enable := Transaction([WRITE_ENABLE], 0);
    match c
    case Erase4K(start) => [enable, Transaction([ERASE_4K] + AddressBytes(fourByte, start), 0)]
    case Erase64K(start) => [enable, Transaction([ERASE_64K] + AddressBytes(fourByte, start), 0)]
    case Program(addr, data) => [enable, Transaction([PAGE_PROGRAM] + AddressBytes(fourByte, addr) + data, 0)]
  }

  function AllTransactions(fourByte: bool, cs: seq<Command>): seq<Transaction>
    decreases |cs|
  {
    if cs == [] then [] else Transactions(fourByte, cs[0]) + AllTransactions(fourByte, cs[1..])
  }

  lemma {:induction false} TransactionsAppend(fourByte: bool, a: seq<Command>, b: seq<Command>)
    ensures AllTransactions(fourByte, a + b) == AllTransactions(fourByte, a) + AllTransactions(fourByte, b)
    decreases |a|
  {
    hide Transactions;
    if a == [] {
      assert a + b == b;
    } else {
      assert (a + b)[1..] == a[1..] + b;
      TransactionsAppend(fourByte, a[1..], b);
    }
  }

  lemma {:induction false} AllWriteOnly(fourByte: bool, cs: seq<Command>)
    ensures forall t :: t in AllTransactions(fourByte, cs) ==> t.misoLen == 0
    decreases |cs|
  {
    if cs != [] {
      AllWriteOnly(fourByte, cs[1..]);
    }
  }

  // ---- the update's choices, in the widths of libhoth_spi_proxy_update ----

  /** `page_end`: computed in 32 bits. */
  function PageEnd(addr: nat): nat {
    (addr + 256) % 0x1_0000_0000 / 256 * 256
  }

  /** `write_len`: the subtraction is done in 64 bits. */
  function WriteLen(addr: nat, remaining: nat): (n: nat)
    ensures n <= remaining && (0 < remaining && addr < 0x1_0000_0000 ==> 0 < n)
  {
    Min((PageEnd(addr) - addr) % 0x1_0000_0000_0000_0000, remaining)
  }

  /** The start of the 4K sector of an address. */
  function SectorOf(a: nat): nat {
    a / 4096 * 4096
  }

  /** The start of the 64K block of an address. */
  function BlockOf(a: nat): nat {
    a / 65536 * 65536
  }

  function Erase(addr: nat, remaining: nat): Command {
    var start64, start4 := BlockOf(addr), SectorOf(addr);
    var end64, end4 := (start64 + 65536) % 0x1_0000_0000, (start4 + 4096) % 0x1_0000_0000;
    if (start64 >= addr || start64 == start4) && (end64 <= addr + remaining || end64 == end4)
    then Erase64K(start64) else Erase4K(start4)
  }

  /** Where an erase ends. */
  function EraseTop(c: Command): nat
    requires !c.Program?
  {
    c.start + if c.Erase64K? then 65536 else 4096
  }

  /** `need_erase_addr` after an erase: 32 bits wide. */
  function EraseEnd(c: Command): nat
    requires !c.Program?
  {
    EraseTop(c) % 0x1_0000_0000
  }

  /** The commands an update sends from `addr` on, when everything below `need` is already erased. */
  function Plan(addr: nat, need: nat, data: seq<byte>): seq<Command>
    requires addr < 0x1_0000_0000
    decreases |data|
  {
    if data == [] then []
    else
      var n := WriteLen(addr, |data|);
      var write := [Program(addr, data[..n])];
      var next := (addr + n) % 0x1_0000_0000;
      if PageEnd(addr) > need then
        var erase := Erase(addr, |data|);
        [erase] + write + Plan(next, EraseEnd(erase), data[n..])
      else
        write + Plan(next, need, data[n..])
  }

  // ---- commands as changes of memory ----

  function Apply(mem: seq<byte>, c: Command): (r: seq<byte>)
    ensures |r| == |mem|
  {
    match c
    case Erase4K(start) => Erased(mem, start / 4096 * 4096, start / 4096 * 4096 + 4096)
    case Erase64K(start) => Erased(mem, start / 65536 * 65536, start / 65536 * 65536 + 65536)
    case Program(addr, data) => Programmed(mem, addr, data)
  }

  function ApplyAll(mem: seq<byte>, cs: seq<Command>): (r: seq<byte>)
    ensures |r| == |mem|
    decreases |cs|
  {
    if cs == [] then mem else ApplyAll(Apply(mem, cs[0]), cs[1..])
  }

  predicate Sendable(fourByte: bool, c: Command) {
    match c
    case Program(addr, data) => addr < AddressSpace(fourByte) && data != []
    case _ => c.start < AddressSpace(fourByte)
  }

  /** The second transaction of a command, once the flash is write-enabled. */
  lemma EnabledStep(fourByte: bool, f: Flash, c: Command)
    requires Sendable(fourByte, c) && f.writeEnabled
    ensures Step(fourByte, f, Transactions(fourByte, c)[1]) == Flash(Apply(f.mem, c), false)
  {
    hide AddressBytes, DecodeAddress, Erased, Programmed;
    var w := AddressWidth(fourByte);
    var mosi := Transactions(fourByte, c)[1].mosi;
    AddressRoundTrip(fourByte, if c.Program? then c.addr else c.start);
    match c
    case Erase4K(start) => assert mosi[1..1 + w] == AddressBytes(fourByte, start);
    case Erase64K(start) => assert mosi[1..1 + w] == AddressBytes(fourByte, start);
    case Program(addr, data) => assert mosi[1..1 + w] == AddressBytes(fourByte, addr) && mosi[1 + w..] == data;
  }

  /** Over the wire, with its write-enable, a command does to the flash what it says. */
  lemma RunCommand(fourByte: bool, f: Flash, c: Command)
    requires Sendable(fourByte, c)
    ensures Run(fourByte, f, Transactions(fourByte, c)) == Flash(Apply(f.mem, c), false)
  {
    var ts := Transactions(fourByte, c);
    var f' := f.(writeEnabled := true);
    StepOnlyEnables(fourByte, f, ts[0]);
    EnabledStep(fourByte, f', c);
    hide Step, Apply;
    assert ts == [ts[0], ts[1]] && ts[1..] == [ts[1]] && ts[1..][1..] == [];
    assert Run(fourByte, f, ts) == Run(fourByte, f', ts[1..]) == Run(fourByte, Step(fourByte, f', ts[1]), []);
  }

  lemma {:induction false} RunCommands(fourByte: bool, f: Flash, cs: seq<Command>)
    requires forall c :: c in cs ==> Sendable(fourByte, c)
    ensures Run(fourByte, f, AllTransactions(fourByte, cs)).mem == ApplyAll(f.mem, cs)
    decreases |cs|
  {
    hide Step, Transactions, Apply;
    if cs != [] {
      var first := Transactions(fourByte, cs[0]);
      RunAppend(fourByte, f, first, AllTransactions(fourByte, cs[1..]));
      RunCommand(fourByte, f, cs[0]);
      RunCommands(fourByte, Run(fourByte, f, first), cs[1..]);
    }
  }

  // ---- what the commands of an update amount to ----

  /** The end of the last sector that a range ending at `a` touches. */
  function SectorsEnd(a: nat): nat {
    (a + 4095) / 4096 * 4096
  }

  /**
   * In the last sector the 32-bit sector end wraps to 0, which reads as "nothing is erased yet", and in the
   * last page so does the page end, which reads as "everything is": just one page may cause an erase.
   */
  predicate OnePage(addr: nat, end: nat) {
    var s := if addr < 0xFFFF_F000 then 0xFFFF_F000 else addr;
    || (s / 256 == (end - 1) / 256 && end <= 0xFFFF_FF00)
    || (0xFFFF_FE00 <= s < 0xFFFF_FF00 && end > 0xFFFF_FF00)
  }

  /** In the first sector of the last block the wrapped block end makes every page erase the whole block. */
  predicate InTopBlock(addr: nat, end: nat) {
    addr < 0xFFFF_1000 && end > 0xFFFF_0000
  }

  /** The ranges outside whose sectors an update changes nothing. */
  predicate Contained(fourByte: bool, addr: nat, len: nat) {
    var end := addr + len;
    && addr < 0x1_0000_0000 && end <= AddressSpace(fourByte)
    && (len > 0 && InTopBlock(addr, end) ==> end > 0xFFFF_F000)
  }

  /** The ranges that an update gets right. */
  predicate InRange(fourByte: bool, addr: nat, len: nat) {
    var end := addr + len;
    && addr < 0x1_0000_0000 && end <= AddressSpace(fourByte)
    && (len > 0 && InTopBlock(addr, end) ==> 0xFFFF_0F00 <= addr && end > 0xFFFF_F000)
    && (len > 0 && end > 0xFFFF_F000 ==> OnePage(addr, end))
  }

  /**
   * The loop invariant of the update: either nothing was erased yet or whole sectors up to `need`, which
   * here does not wrap; and no wrap lies ahead that does harm.
   */
  predicate Ready(addr: nat, need: nat, remaining: nat) {
    var end := addr + remaining;
    && 0 < remaining
    && (need == addr || (addr % 256 == 0 && need % 4096 == 0 && addr <= need))
    && (|| end <= 0xFFFF_0000
        || (0xFFFF_1000 <= addr && end <= 0x1_0000_0000
            && (end <= 0xFFFF_F000 || need >= 0x1_0000_0000 || OnePage(addr, end))))
  }

  /** Where the next erase will begin. */
  function EraseFrom(addr: nat, need: nat): nat {
    if PageEnd(addr) > need then SectorOf(addr) else need
  }

  /** The range holds the data; the rest of its sectors from `from` on is erased; all else is as before. */
  function Updated(mem: seq<byte>, addr: nat, from: nat, data: seq<byte>): (r: seq<byte>)
    ensures |r| == |mem|
  {
    seq(|mem|, i requires 0 <= i < |mem| =>
      if addr <= i < addr + |data| then data[i - addr]
      else if from <= i < SectorsEnd(addr + |data|) then 0xFF
      else mem[i])
  }

  /** The chosen erase starts at the sector of `addr` and stays inside the sectors of the range. */
  lemma EraseFits(addr: nat, need: nat, remaining: nat)
    requires Ready(addr, need, remaining) && PageEnd(addr) > need
    ensures
      var c := Erase(addr, remaining);
      && !c.Program? && c.start == SectorOf(addr)
      && (c.Erase64K? ==> c.start % 65536 == 0)
      && EraseTop(c) % 4096 == 0
      && PageEnd(addr) <= EraseTop(c) <= SectorsEnd(addr + remaining)
  {
    hide SectorOf, SectorsEnd, PageEnd, OnePage, Erase, EraseTop;
    PageEndIs(addr, remaining);
    EndsAtLeast(addr, addr + remaining);
    if addr + remaining <= 0xFFFF_0000 {
      LowErase(addr, remaining);
    } else {
      TopErase(addr, remaining);
    }
  }

  lemma EndsAtLeast(addr: nat, end: nat)
    requires addr < end
    ensures SectorOf(addr) + 4096 <= SectorsEnd(end) && SectorOf(addr) % 4096 == (SectorOf(addr) + 4096) % 4096 == 0
    ensures addr / 256 * 256 + 256 <= SectorOf(addr) + 4096
    ensures end <= SectorsEnd(end)
  {
    assert (end + 4096 - 1) / 4096 >= addr / 4096 + 1;
    PagesOfSector(addr);
  }

  lemma PagesOfSector(addr: nat)
    ensures addr / 256 * 256 + 256 <= addr / 4096 * 4096 + 4096
  {
    assert addr / 256 / 16 == addr / 4096;
  }

  lemma BlockBounds(a: nat)
    ensures BlockOf(a) % 65536 == 0 && BlockOf(a) % 4096 == 0 && (BlockOf(a) + 65536) % 4096 == 0
    ensures SectorOf(a) % 4096 == 0 && (SectorOf(a) + 4096) % 4096 == 0
    ensures BlockOf(a) <= SectorOf(a) <= a < SectorOf(a) + 4096 <= BlockOf(a) + 65536
  {
    var s, b := a / 4096, a / 65536;
    Quotients(a);
    MultipleOf4096(s);
    MultipleOf4096(16 * b);
  }

  lemma Quotients(a: nat)
    ensures a / 65536 * 16 <= a / 4096 <= a / 65536 * 16 + 15
  {
  }

  lemma MultipleOf4096(k: nat)
    ensures k * 4096 % 4096 == 0 && (k * 4096 + 4096) % 4096 == 0 && (k * 4096 + 65536) % 4096 == 0
  {
  }

  /** The block of an address below a bound that is a whole number of blocks ends below it; so for sectors. */
  lemma BlocksBelow(a: nat)
    ensures a < 0xFFFF_0000 ==> BlockOf(a) + 65536 <= 0xFFFF_0000
    ensures a < 0xFFFF_F000 ==> SectorOf(a) + 4096 <= 0xFFFF_F000
    ensures 0xFFFF_0000 <= a < 0x1_0000_0000 ==> BlockOf(a) == 0xFFFF_0000
    ensures 0xFFFF_0000 <= a < 0xFFFF_1000 ==> SectorOf(a) == 0xFFFF_0000
    ensures 0xFFFF_1000 <= a ==> SectorOf(a) >= 0xFFFF_1000
    ensures 0xFFFF_F000 <= a < 0x1_0000_0000 ==> SectorOf(a) == 0xFFFF_F000
  {
  }

  lemma LowErase(addr: nat, remaining: nat)
    requires 0 < remaining && addr + remaining <= 0xFFFF_0000
    ensures
      var c := Erase(addr, remaining);
      && !c.Program? && c.start == SectorOf(addr) && EraseTop(c) % 4096 == 0
      && (c.Erase64K? ==> c.start % 65536 == 0 && EraseTop(c) <= addr + remaining)
      && SectorOf(addr) + 4096 <= EraseTop(c) && (c.Erase4K? ==> EraseTop(c) == SectorOf(addr) + 4096)
  {
    hide SectorOf, BlockOf;
    BlockBounds(addr);
    BlocksBelow(addr);
  }

  /** In the last block, past its first sector, single sectors are erased. */
  lemma TopErase(addr: nat, remaining: nat)
    requires 0xFFFF_1000 <= addr < 0x1_0000_0000
    ensures Erase(addr, remaining) == Erase4K(SectorOf(addr))
    ensures EraseTop(Erase(addr, remaining)) == SectorOf(addr) + 4096
  {
    hide SectorOf, BlockOf;
    BlocksBelow(addr);
  }

  /** A program that stays in one erased page stores its data and touches nothing else. */
  lemma ProgramErased(mem: seq<byte>, addr: nat, data: seq<byte>)
    requires addr % 256 + |data| <= 256
    requires forall i :: addr <= i < addr + |data| && i < |mem| ==> mem[i] == 0xFF
    ensures forall i :: 0 <= i < |mem| ==>
      Programmed(mem, addr, data)[i] == if addr <= i < addr + |data| then data[i - addr] else mem[i]
  {
    forall i | 0 <= i < |mem|
      ensures Programmed(mem, addr, data)[i] == if addr <= i < addr + |data| then data[i - addr] else mem[i]
    {
      if addr <= i < addr + |data| {
        assert i / 256 == addr / 256 && (i - addr) % 256 == i - addr;
        AndFF(data[i - addr]);
      } else {
        OtherPageOrPastData(addr, |data|, i);
      }
    }
  }

  /** `need_erase_addr` after the page at `addr`. */
  function NextNeed(addr: nat, need: nat, remaining: nat): nat {
    if PageEnd(addr) > need then EraseEnd(Erase(addr, remaining)) else need
  }

  /** The same without its wrap: everything up to here is erased. */
  function ErasedTo(addr: nat, need: nat, remaining: nat): nat {
    if PageEnd(addr) > need then EraseTop(Erase(addr, remaining)) else need
  }

  /** A page ends at the next multiple of 256, and what is written ends there or with the data. */
  lemma PageEndIs(addr: nat, remaining: nat)
    requires 0 < remaining && addr + remaining <= 0x1_0000_0000
    ensures
      var n := WriteLen(addr, remaining);
      && addr % 256 + n <= 256 && n == Min(addr / 256 * 256 + 256 - addr, remaining)
      && (n < remaining ==> (addr + n) % 256 == 0 && (addr + n) % 0x1_0000_0000 == addr + n)
    ensures PageEnd(addr) == if addr < 0xFFFF_FF00 then addr / 256 * 256 + 256 else 0
  {
    PageEndWraps(addr);
    assert addr / 256 * 256 + addr % 256 == addr;
    hide PageEnd;
  }

  lemma PageEndWraps(addr: nat)
    requires addr < 0x1_0000_0000
    ensures PageEnd(addr) == if addr < 0xFFFF_FF00 then addr / 256 * 256 + 256 else 0
  {
  }

  /** No address lies strictly between a page and the next one if both are whole pages. */
  lemma NextSector(a: nat, need: nat)
    requires a % 256 == 0 && need % 4096 == 0 && a <= need < a + 256
    ensures need == a && SectorOf(a) == need
  {
    assert need % 256 == 0;
  }

  lemma SectorBounds(a: nat, b: nat)
    requires a <= b
    ensures SectorOf(a) <= SectorOf(b) && SectorOf(a) <= a && b <= SectorsEnd(b) && SectorOf(a) % 4096 == 0
  {
  }

  /** One page: it stays in its page, inside what is erased. */
  lemma PageFits(addr: nat, need: nat, remaining: nat)
    requires Ready(addr, need, remaining)
    ensures
      var n, from, need' := WriteLen(addr, remaining), EraseFrom(addr, need), ErasedTo(addr, need, remaining);
      && addr < 0x1_0000_0000 && 0 < n <= remaining && addr % 256 + n <= 256
      && addr + n <= need'
      && from % 4096 == 0 && need' % 4096 == 0
      && (PageEnd(addr) > need ==> from <= addr && from <= need' <= SectorsEnd(addr + remaining))
      && (PageEnd(addr) <= need ==> from == need')
      && (n == remaining ==> SectorsEnd(addr + remaining) <= need')
  {
    hide Erase, PageEnd, EraseTop, WriteLen, SectorOf, SectorsEnd;
    PageEndIs(addr, remaining);
    SectorBounds(addr, addr + remaining);
    if PageEnd(addr) > need {
      EraseFits(addr, need, remaining);
    } else {
      NoEraseMeansErased(addr, need, remaining);
    }
    if WriteLen(addr, remaining) == remaining {
      SectorsEndBelow(addr + remaining, ErasedTo(addr, need, remaining));
    }
  }

  lemma NoEraseMeansErased(addr: nat, need: nat, remaining: nat)
    requires Ready(addr, need, remaining) && PageEnd(addr) <= need
    ensures need % 4096 == 0 && addr / 256 * 256 + 256 <= need
  {
    PageEndIs(addr, remaining);
  }

  /** ... and it keeps the update ready for the next page. */
  lemma StaysReady(addr: nat, need: nat, remaining: nat)
    requires Ready(addr, need, remaining)
    ensures
      var n, need' := WriteLen(addr, remaining), ErasedTo(addr, need, remaining);
      n < remaining ==>
        && (addr + n) % 0x1_0000_0000 == addr + n
        && Ready(addr + n, need', remaining - n) && EraseFrom(addr + n, need') == need'
  {
    hide Erase, PageEnd, EraseTop, WriteLen, SectorOf, SectorsEnd;
    var n, need' := WriteLen(addr, remaining), ErasedTo(addr, need, remaining);
    PageFits(addr, need, remaining);
    PageEndIs(addr, remaining);
    if n < remaining {
      if addr >= 0xFFFF_F000 && PageEnd(addr) > need {
        EraseFits(addr, need, remaining);
        LastSector(addr, need');
      }
      PageEndIs(addr + n, remaining - n);
      if PageEnd(addr + n) > need' {
        NextSector(addr + n, need');
      }
    }
  }

  lemma LastSector(addr: nat, need: nat)
    requires 0xFFFF_F000 <= addr < need && need % 4096 == 0
    ensures need >= 0x1_0000_0000
  {
  }

  lemma SectorsEndBelow(a: nat, end: nat)
    requires a <= end && end % 4096 == 0
    ensures SectorsEnd(a) <= end
  {
  }

  /** The memory once the page at `addr` may be programmed. */
  function AfterErase(mem: seq<byte>, addr: nat, need: nat, remaining: nat): (r: seq<byte>)
    ensures |r| == |mem|
  {
    if PageEnd(addr) > need then Apply(mem, Erase(addr, remaining)) else mem
  }

  /** The plan, one page at a time. */
  lemma PlanStep(mem: seq<byte>, addr: nat, need: nat, data: seq<byte>)
    requires addr < 0x1_0000_0000 && data != []
    ensures
      var n := WriteLen(addr, |data|);
      var mem2 := Programmed(AfterErase(mem, addr, need, |data|), addr, data[..n]);
      ApplyAll(mem, Plan(addr, need, data))
      == ApplyAll(mem2, Plan((addr + n) % 0x1_0000_0000, NextNeed(addr, need, |data|), data[n..]))
  {
    hide Erase, PageEnd, WriteLen, Erased, Programmed, EraseEnd;
    var n := WriteLen(addr, |data|);
    var erase, write := Erase(addr, |data|), [Program(addr, data[..n])];
    var rest := Plan((addr + n) % 0x1_0000_0000, NextNeed(addr, need, |data|), data[n..]);
    assert (write + rest)[1..] == rest;
    if PageEnd(addr) > need {
      assert [erase] + write + rest == [erase] + (write + rest);
      assert ([erase] + (write + rest))[1..] == write + rest;
    }
  }

  /** What is sent after the page at `addr`, with a `need` that does not wrap. */
  function RestOfPlan(addr: nat, need: nat, data: seq<byte>): seq<Command>
    requires Ready(addr, need, |data|)
  {
    var n := WriteLen(addr, |data|);
    if n < |data| && addr + n < 0x1_0000_0000 then Plan(addr + n, ErasedTo(addr, need, |data|), data[n..]) else []
  }

  /** In the last page no `need` makes a difference. */
  lemma LastPagePlan(addr: nat, need: nat, data: seq<byte>)
    requires 0xFFFF_FF00 <= addr && data != [] && addr + |data| <= 0x1_0000_0000
    ensures Plan(addr, need, data) == [Program(addr, data)]
  {
    PageEndIs(addr, |data|);
    assert data[..|data|] == data;
    hide PageEnd, WriteLen;
    assert WriteLen(addr, |data|) == |data|;
  }

  /** `need_erase_addr` wraps only for the last page or the one before the end of the address space. */
  lemma WrapsOnlyAtTheEnd(addr: nat, need: nat, remaining: nat)
    requires Ready(addr, need, remaining)
    ensures
      var n := WriteLen(addr, remaining);
      && (n < remaining ==> (addr + n) % 0x1_0000_0000 == addr + n)
      && (n < remaining && NextNeed(addr, need, remaining) != ErasedTo(addr, need, remaining) ==>
           addr + n >= 0xFFFF_FF00)
  {
    hide OnePage, Erase, WriteLen, PageEnd, SectorOf, SectorsEnd, EraseFrom, EraseTop;
    var n := WriteLen(addr, remaining);
    StaysReady(addr, need, remaining);
    PageEndIs(addr, remaining);
    if n < remaining && PageEnd(addr) > need {
      EraseFits(addr, need, remaining);
      if EraseTop(Erase(addr, remaining)) >= 0x1_0000_0000 {
        TopEraseIsLast(addr, need, remaining);
      }
    }
  }

  lemma TopEraseIsLast(addr: nat, need: nat, remaining: nat)
    requires Ready(addr, need, remaining) && PageEnd(addr) > need
    requires EraseTop(Erase(addr, remaining)) >= 0x1_0000_0000
    ensures addr >= 0xFFFF_FE00 || addr / 256 == (addr + remaining - 1) / 256
  {
    EraseFits(addr, need, remaining);
    PageEndIs(addr, remaining);
    hide Erase, WriteLen, PageEnd;
    assert addr >= 0xFFFF_F000;
  }

  lemma WrapIsHarmless(addr: nat, need: nat, data: seq<byte>)
    requires Ready(addr, need, |data|)
    ensures
      var n := WriteLen(addr, |data|);
      RestOfPlan(addr, need, data) == Plan((addr + n) % 0x1_0000_0000, NextNeed(addr, need, |data|), data[n..])
  {
    hide OnePage, WriteLen, NextNeed, ErasedTo, Plan;
    WrapsOnlyAtTheEnd(addr, need, |data|);
    var n, need' := WriteLen(addr, |data|), NextNeed(addr, need, |data|);
    if n == |data| {
      PlanOfNothing([], (addr + n) % 0x1_0000_0000, need', data[n..]);
    } else if need' != ErasedTo(addr, need, |data|) {
      LastPagePlan(addr + n, need', data[n..]);
      LastPagePlan(addr + n, ErasedTo(addr, need, |data|), data[n..]);
    }
  }

  /** The memory after the page at `addr`, when sectors `from` to `need` were erased for it. */
  predicate PageDone(mem: seq<byte>, mem2: seq<byte>, addr: nat, from: nat, need: nat, data: seq<byte>) {
    && |mem2| == |mem|
    && forall i :: 0 <= i < |mem| ==>
      mem2[i] == if addr <= i < addr + |data| then data[i - addr] else if from <= i < need then 0xFF else mem[i]
  }

  lemma EraseApplied(mem: seq<byte>, addr: nat, need: nat, remaining: nat)
    requires Ready(addr, need, remaining)
    ensures forall i :: 0 <= i < |mem| ==>
      AfterErase(mem, addr, need, remaining)[i]
      == if EraseFrom(addr, need) <= i < ErasedTo(addr, need, remaining) then 0xFF else mem[i]
  {
    hide Erase, PageEnd, SectorsEnd;
    if PageEnd(addr) > need {
      EraseFits(addr, need, remaining);
    }
    PageFits(addr, need, remaining);
  }

  lemma PageWritten(mem: seq<byte>, addr: nat, need: nat, data: seq<byte>)
    requires Ready(addr, need, |data|)
    requires forall i :: addr <= i < need && i < |mem| ==> mem[i] == 0xFF
    ensures
      var n, need' := WriteLen(addr, |data|), ErasedTo(addr, need, |data|);
      var mem2 := AfterPage(mem, addr, need, data);
      && PageDone(mem, mem2, addr, EraseFrom(addr, need), need', data[..n])
      && forall i :: addr + n <= i < need' && i < |mem| ==> mem2[i] == 0xFF
  {
    hide Erase, EraseTop, PageEnd, WriteLen, SectorsEnd, SectorOf, AfterErase, Programmed, EraseFrom;
    PageFits(addr, need, |data|);
    EraseApplied(mem, addr, need, |data|);
    ProgramErased(AfterErase(mem, addr, need, |data|), addr, data[..WriteLen(addr, |data|)]);
  }

  lemma UpdatedFurther(mem: seq<byte>, mem2: seq<byte>, addr: nat, from: nat, need: nat, data: seq<byte>, n: nat)
    requires n <= |data| && PageDone(mem, mem2, addr, from, need, data[..n])
    requires addr + n <= need
    requires from == need || from <= need <= SectorsEnd(addr + |data|)
    ensures Updated(mem2, addr + n, need, data[n..]) == Updated(mem, addr, from, data)
    ensures n == |data| && SectorsEnd(addr + |data|) <= need ==> mem2 == Updated(mem, addr, from, data)
  {
    hide SectorsEnd;
    assert addr + n + |data[n..]| == addr + |data|;
  }

  lemma PlanOfNothing(mem: seq<byte>, addr: nat, need: nat, data: seq<byte>)
    requires addr < 0x1_0000_0000 && data == []
    ensures Plan(addr, need, data) == [] && ApplyAll(mem, Plan(addr, need, data)) == mem
  {
  }

  /** The memory once the page at `addr` is programmed. */
  function AfterPage(mem: seq<byte>, addr: nat, need: nat, data: seq<byte>): (r: seq<byte>)
    requires Ready(addr, need, |data|)
    ensures |r| == |mem|
  {
    Programmed(AfterErase(mem, addr, need, |data|), addr, data[..WriteLen(addr, |data|)])
  }

  lemma ReadyStep(mem: seq<byte>, addr: nat, need: nat, data: seq<byte>)
    requires Ready(addr, need, |data|)
    ensures ApplyAll(mem, Plan(addr, need, data))
         == ApplyAll(AfterPage(mem, addr, need, data), RestOfPlan(addr, need, data))
  {
    PlanStep(mem, addr, need, data);
    WrapIsHarmless(addr, need, data);
    hide Plan, RestOfPlan, WriteLen, NextNeed, AfterErase, Programmed, ApplyAll;
  }

  lemma PlanGoesOn(addr: nat, need: nat, data: seq<byte>)
    requires Ready(addr, need, |data|)
    ensures WriteLen(addr, |data|) == |data| ==> RestOfPlan(addr, need, data) == []
    ensures WriteLen(addr, |data|) < |data| ==>
      var n, need' := WriteLen(addr, |data|), ErasedTo(addr, need, |data|);
      && Ready(addr + n, need', |data[n..]|) && EraseFrom(addr + n, need') == need'
      && RestOfPlan(addr, need, data) == Plan(addr + n, need', data[n..])
  {
    StaysReady(addr, need, |data|);
    hide WriteLen, ErasedTo, EraseFrom, Plan, OnePage;
  }

  lemma AllApplied(mem: seq<byte>)
    ensures ApplyAll(mem, []) == mem
  {
  }

  /** Running the plan leaves the flash updated. */
  lemma {:induction false} PlanUpdates(mem: seq<byte>, addr: nat, need: nat, data: seq<byte>)
    requires Ready(addr, need, |data|)
    requires forall i :: addr <= i < need && i < |mem| ==> mem[i] == 0xFF
    ensures ApplyAll(mem, Plan(addr, need, data)) == Updated(mem, addr, EraseFrom(addr, need), data)
    decreases |data|
  {
    hide *;  // from here on only the lemmas speak
    PageFits(addr, need, |data|);
    var n, need' := WriteLen(addr, |data|), ErasedTo(addr, need, |data|);
    var mem2 := AfterPage(mem, addr, need, data);
    ReadyStep(mem, addr, need, data);
    PageWritten(mem, addr, need, data);
    UpdatedFurther(mem, mem2, addr, EraseFrom(addr, need), need', data, n);
    PlanGoesOn(addr, need, data);
    if n < |data| {
      PlanUpdates(mem2, addr + n, need', data[n..]);
    } else {
      AllApplied(mem2);
    }
  }

  // ---- which sectors are erased, how often and when ----

  predicate Covers(c: Command, sector: nat) {
    match c
    case Erase4K(start) => start / 4096 == sector
    case Erase64K(start) => start / 65536 == sector / 16
    case Program(_, _) => false
  }

  function EraseCount(cs: seq<Command>, sector: nat): nat {
    if cs == [] then 0 else (if Covers(cs[0], sector) then 1 else 0) + EraseCount(cs[1..], sector)
  }

  lemma {:induction false} EraseCountAppend(a: seq<Command>, b: seq<Command>, sector: nat)
    ensures EraseCount(a + b, sector) == EraseCount(a, sector) + EraseCount(b, sector)
  {
    if a == [] {
      assert a + b == b;
    } else {
      assert (a + b)[1..] == a[1..] + b;
      EraseCountAppend(a[1..], b, sector);
    }
  }

  /** The erase and the program for the page at `addr`. */
  function PageCommands(addr: nat, need: nat, data: seq<byte>): seq<Command>
    requires addr < 0x1_0000_0000 && data != []
  {
    (if PageEnd(addr) > need then [Erase(addr, |data|)] else []) + [Program(addr, data[..WriteLen(addr, |data|)])]
  }

  lemma PageEndsInProgram(addr: nat, need: nat, data: seq<byte>)
    requires addr < 0x1_0000_0000 && data != []
    ensures
      var page := PageCommands(addr, need, data);
      page != [] && forall k :: 0 <= k < |page| ==> (page[k].Program? <==> k == |page| - 1)
  {
    hide PageEnd, WriteLen;
  }

  lemma PlanUnfold(addr: nat, need: nat, data: seq<byte>)
    requires addr < 0x1_0000_0000 && data != []
    ensures
      var n := WriteLen(addr, |data|);
      Plan(addr, need, data)
      == PageCommands(addr, need, data) + Plan((addr + n) % 0x1_0000_0000, NextNeed(addr, need, |data|), data[n..])
  {
    hide Erase, EraseEnd, PageEnd, WriteLen;
  }

  /** The same while nothing is ahead but harmless wraps. */
  lemma PlanUnfoldReady(addr: nat, need: nat, data: seq<byte>)
    requires Ready(addr, need, |data|)
    ensures Plan(addr, need, data) == PageCommands(addr, need, data) + RestOfPlan(addr, need, data)
  {
    PlanUnfold(addr, need, data);
    WrapIsHarmless(addr, need, data);
    hide Plan, PageCommands, RestOfPlan, WriteLen, NextNeed;
  }

  /** The commands for one page erase the sectors from `EraseFrom` to `ErasedTo`, each once. */
  lemma PageEraseCount(addr: nat, need: nat, data: seq<byte>, sector: nat)
    requires Ready(addr, need, |data|)
    ensures EraseCount(PageCommands(addr, need, data), sector)
         == if EraseFrom(addr, need) <= sector * 4096 < ErasedTo(addr, need, |data|) then 1 else 0
  {
    hide Erase, PageEnd, WriteLen, SectorsEnd;
    PageFits(addr, need, |data|);
    if PageEnd(addr) > need {
      EraseFits(addr, need, |data|);
    }
    var erase, write := Erase(addr, |data|), [Program(addr, data[..WriteLen(addr, |data|)])];
    assert EraseCount(write, sector) == 0;
    if PageEnd(addr) > need {
      EraseCountAppend([erase], write, sector);
      assert EraseCount([erase], sector) == if Covers(erase, sector) then 1 else 0;
      assert EraseTop(erase) <= sector * 4096 || sector * 4096 < EraseTop(erase);
    } else {
      assert [] + write == write;
    }
  }

  /** The sectors from `EraseFrom` on that the range touches are erased once, the others never. */
  lemma {:induction false} PlanErasesOnce(addr: nat, need: nat, data: seq<byte>, sector: nat)
    requires Ready(addr, need, |data|)
    ensures EraseCount(Plan(addr, need, data), sector)
         == if EraseFrom(addr, need) <= sector * 4096 < SectorsEnd(addr + |data|) then 1 else 0
    decreases |data|
  {
    hide *;
    PageFits(addr, need, |data|);
    var n, need' := WriteLen(addr, |data|), ErasedTo(addr, need, |data|);
    PlanGoesOn(addr, need, data);
    PlanUnfoldReady(addr, need, data);
    PageEraseCount(addr, need, data, sector);
    EraseCountAppend(PageCommands(addr, need, data), RestOfPlan(addr, need, data), sector);
    if n < |data| {
      PlanErasesOnce(addr + n, need', data[n..], sector);
    } else {
      assert EraseCount([], sector) == 0 by { NothingErased(sector); }
    }
  }

  lemma NothingErased(sector: nat)
    ensures EraseCount([], sector) == 0
  {
  }

  /** A program is a piece of the data, inside one page, and its sector was erased once before it. */
  predicate WellPlaced(cs: seq<Command>, k: nat, addr: nat, from: nat, data: seq<byte>)
    requires k < |cs| && cs[k].Program?
  {
    var c := cs[k];
    && c.data != [] && c.addr % 256 + |c.data| <= 256
    && addr <= c.addr && c.addr + |c.data| <= addr + |data|
    && c.data == data[c.addr - addr..c.addr - addr + |c.data|]
    && EraseCount(cs[..k], c.addr / 4096) == if from <= c.addr then 1 else 0
  }

  lemma PageWellPlaced(addr: nat, need: nat, data: seq<byte>, rest: seq<Command>)
    requires Ready(addr, need, |data|)
    ensures
      var page := PageCommands(addr, need, data);
      WellPlaced(page + rest, |page| - 1, addr, EraseFrom(addr, need), data)
  {
    hide Ready, OnePage, Erase, EraseTop, ErasedTo, WriteLen, SectorsEnd, PageEnd, EraseCount;
    PageFits(addr, need, |data|);
    ErasesBeforeProgram(addr, need, data);
    SectorBounds(addr, addr);
    hide SectorOf;
    var page := PageCommands(addr, need, data);
    assert (page + rest)[..|page| - 1] == page[..|page| - 1];
  }

  lemma ErasesBeforeProgram(addr: nat, need: nat, data: seq<byte>)
    requires Ready(addr, need, |data|)
    ensures
      var page := PageCommands(addr, need, data);
      EraseCount(page[..|page| - 1], addr / 4096) == if PageEnd(addr) > need then 1 else 0
  {
    hide OnePage, Erase, EraseTop, WriteLen, SectorsEnd, PageEnd;
    var page := PageCommands(addr, need, data);
    if PageEnd(addr) > need {
      EraseFits(addr, need, |data|);
      assert page[..1] == [Erase(addr, |data|)];
      assert Covers(page[0], addr / 4096);
      assert EraseCount(page[..1], addr / 4096) == 1 + EraseCount([], addr / 4096);
    } else {
      assert page[..0] == [];
    }
  }

  lemma WellPlacedFurther(page: seq<Command>, rest: seq<Command>, k: nat, addr: nat, n: nat,
                          from: nat, need: nat, data: seq<byte>)
    requires n <= |data| && |page| <= k < |page + rest| && rest[k - |page|].Program?
    requires WellPlaced(rest, k - |page|, addr + n, need, data[n..])
    requires from % 4096 == 0 && need % 4096 == 0 && from <= need && (from < need ==> from <= addr)
    requires
      var sector := rest[k - |page|].addr / 4096;
      EraseCount(page, sector) == if from <= sector * 4096 < need then 1 else 0
    ensures WellPlaced(page + rest, k, addr, from, data)
  {
    hide EraseCount;
    var c := rest[k - |page|];
    assert (page + rest)[k] == c && (page + rest)[..k] == page + rest[..k - |page|];
    EraseCountAppend(page, rest[..k - |page|], c.addr / 4096);
    assert c.addr / 4096 * 4096 < need <==> c.addr < need;
    assert from <= c.addr / 4096 * 4096 <==> from <= c.addr;
    assert data[n..][c.addr - (addr + n)..c.addr - (addr + n) + |c.data|]
        == data[c.addr - addr..c.addr - addr + |c.data|];
  }

  /** Every program of a plan finds its sector erased, exactly once, by the plan itself. */
  lemma {:induction false} PlanErasesFirst(addr: nat, need: nat, data: seq<byte>, k: nat)
    requires Ready(addr, need, |data|)
    requires k < |Plan(addr, need, data)| && Plan(addr, need, data)[k].Program?
    ensures WellPlaced(Plan(addr, need, data), k, addr, EraseFrom(addr, need), data)
    decreases |data|
  {
    hide *;
    PageFits(addr, need, |data|);
    var n, need' := WriteLen(addr, |data|), ErasedTo(addr, need, |data|);
    var page, rest := PageCommands(addr, need, data), RestOfPlan(addr, need, data);
    PlanUnfoldReady(addr, need, data);
    if k < |page| {
      PageEndsInProgram(addr, need, data);
      PageWellPlaced(addr, need, data, rest);
    } else {
      PlanGoesOn(addr, need, data);
      PlanErasesFirst(addr + n, need', data[n..], k - |page|);
      assert Plan(addr, need, data)[k] == rest[k - |page|];
      PageEraseCount(addr, need, data, rest[k - |page|].addr / 4096);
      WellPlacedFurther(page, rest, k, addr, n, EraseFrom(addr, need), need', data);
    }
  }

  // ---- an update that fails half way ----

  /** A command that is sendable and changes nothing outside [lo, hi). */
  predicate Inside(c: Command, lo: nat, hi: nat) {
    match c
    case Erase4K(start) => start % 4096 == 0 && lo <= start && start + 4096 <= hi
    case Erase64K(start) => start % 65536 == 0 && lo <= start && start + 65536 <= hi
    case Program(addr, data) => data != [] && lo <= addr && addr + |data| <= hi && addr % 256 + |data| <= 256
  }

  lemma EraseInside(addr: nat, remaining: nat, lo: nat, hi: nat)
    requires 0 < remaining && Contained(true, addr, remaining)
    requires lo <= SectorOf(addr) && SectorsEnd(addr + remaining) <= hi
    ensures Inside(Erase(addr, remaining), lo, hi)
  {
    hide SectorOf, BlockOf, SectorsEnd;
    EndsAtLeast(addr, addr + remaining);
    BlockBounds(addr);
    BlocksBelow(addr);
    if InTopBlock(addr, addr + remaining) {
      SectorsEndAbove(addr + remaining);
    }
  }

  lemma SectorsEndAbove(end: nat)
    requires end > 0xFFFF_F000
    ensures SectorsEnd(end) >= 0x1_0000_0000
  {
  }

  lemma PageInside(addr: nat, need: nat, data: seq<byte>, lo: nat, hi: nat)
    requires data != [] && Contained(true, addr, |data|)
    requires lo <= SectorOf(addr) && SectorsEnd(addr + |data|) <= hi
    ensures forall c :: c in PageCommands(addr, need, data) ==> Inside(c, lo, hi)
  {
    hide Erase, WriteLen, PageEnd, SectorOf, SectorsEnd;
    PageEndIs(addr, |data|);
    EndsAtLeast(addr, addr + |data|);
    SectorBounds(addr, addr);
    EraseInside(addr, |data|, lo, hi);
  }

  lemma ContainedFurther(addr: nat, remaining: nat)
    requires 0 < remaining && Contained(true, addr, remaining)
    ensures
      var n := WriteLen(addr, remaining);
      && 0 < n <= remaining
      && (n < remaining ==>
           && (addr + n) % 0x1_0000_0000 == addr + n && Contained(true, addr + n, remaining - n)
           && SectorOf(addr) <= SectorOf(addr + n))
  {
    PageEndIs(addr, remaining);
    SectorBounds(addr, addr + WriteLen(addr, remaining));
    hide WriteLen, SectorOf;
  }

  lemma {:induction false} PlanInside(addr: nat, need: nat, data: seq<byte>, lo: nat, hi: nat)
    requires data != [] && Contained(true, addr, |data|)
    requires lo <= SectorOf(addr) && SectorsEnd(addr + |data|) <= hi
    ensures forall c :: c in Plan(addr, need, data) ==> Inside(c, lo, hi)
    decreases |data|
  {
    hide Inside, WriteLen, NextNeed, SectorOf, SectorsEnd, PageCommands, Plan, Contained;
    ContainedIsAddressed(addr, |data|);
    var n, need' := WriteLen(addr, |data|), NextNeed(addr, need, |data|);
    ContainedFurther(addr, |data|);
    PageInside(addr, need, data, lo, hi);
    PlanUnfold(addr, need, data);
    if n < |data| {
      assert addr + n + |data[n..]| == addr + |data|;
      PlanInside(addr + n, need', data[n..], lo, hi);
    } else {
      PlanOfNothing([], (addr + n) % 0x1_0000_0000, need', data[n..]);
    }
  }

  lemma ContainedIsAddressed(addr: nat, remaining: nat)
    requires Contained(true, addr, remaining)
    ensures addr < 0x1_0000_0000 && addr + remaining <= 0x1_0000_0000
  {
  }

  /** Memory of the same size with the same bytes outside [lo, hi). */
  predicate SameOutside(mem: seq<byte>, mem': seq<byte>, lo: nat, hi: nat) {
    |mem'| == |mem| && forall i :: 0 <= i < |mem| && !(lo <= i < hi) ==> mem'[i] == mem[i]
  }

  lemma ApplyInside(mem: seq<byte>, c: Command, lo: nat, hi: nat)
    requires Inside(c, lo, hi)
    ensures SameOutside(mem, Apply(mem, c), lo, hi)
  {
    match c
    case Erase4K(start) => assert start / 4096 * 4096 == start;
    case Erase64K(start) => assert start / 65536 * 65536 == start;
    case Program(addr, data) =>
      forall i | 0 <= i < |mem| && !(lo <= i < hi) ensures Programmed(mem, addr, data)[i] == mem[i] {
        OtherPageOrPastData(addr, |data|, i);
      }
  }

  lemma OtherPageOrPastData(addr: nat, len: nat, i: nat)
    requires addr % 256 + len <= 256 && !(addr <= i < addr + len)
    ensures i / 256 != addr / 256 || (i - addr) % 256 >= len
  {
    if i / 256 == addr / 256 && i >= addr {
      assert (i - addr) % 256 == i - addr;
    } else if i / 256 == addr / 256 {
      assert (i - addr) % 256 == i - addr + 256;
    }
  }

  lemma StepOnlyEnables(fourByte: bool, f: Flash, t: Transaction)
    ensures t.mosi == [WRITE_ENABLE] ==> Step(fourByte, f, t) == f.(writeEnabled := true)
    ensures |t.mosi| > 1 && !f.writeEnabled ==> Step(fourByte, f, t) == f
  {
  }

  /** Any one transaction of such a command leaves the rest of the flash alone. */
  lemma TransactionInside(fourByte: bool, f: Flash, c: Command, lo: nat, hi: nat, j: nat)
    requires Inside(c, lo, hi) && hi <= AddressSpace(fourByte) && j < 2
    ensures SameOutside(f.mem, Step(fourByte, f, Transactions(fourByte, c)[j]).mem, lo, hi)
  {
    var ts := Transactions(fourByte, c);
    assert ts[1..] == [ts[1]] && ts[1..][1..] == [] && |ts[1].mosi| > 1;
    StepOnlyEnables(fourByte, f, ts[j]);
    if j == 1 && f.writeEnabled {
      RunCommand(fourByte, f, c);
      StepOnlyEnables(fourByte, f, ts[0]);
      hide Step, Apply;
      assert Run(fourByte, f, ts) == Run(fourByte, f, ts[1..]) == Run(fourByte, Step(fourByte, f, ts[1]), []);
      ApplyInside(f.mem, c, lo, hi);
    }
  }

  lemma {:induction false} PrefixInside(
      fourByte: bool, f: Flash, cs: seq<Command>, prefix: seq<Transaction>, lo: nat, hi: nat)
    requires hi <= AddressSpace(fourByte) && forall c :: c in cs ==> Inside(c, lo, hi)
    requires prefix <= AllTransactions(fourByte, cs)
    ensures SameOutside(f.mem, Run(fourByte, f, prefix).mem, lo, hi)
    decreases |cs|
  {
    hide Step, Inside, Transactions;
    if prefix != [] {
      assert |Transactions(fourByte, cs[0])| == 2 by { TwoEach(fourByte, cs[0]); }
      TransactionInside(fourByte, f, cs[0], lo, hi, 0);
      var f1 := Step(fourByte, f, prefix[0]);
      assert prefix[0] == Transactions(fourByte, cs[0])[0];
      if |prefix| > 1 {
        assert prefix[1..][0] == prefix[1] == Transactions(fourByte, cs[0])[1];
        TransactionInside(fourByte, f1, cs[0], lo, hi, 1);
        assert prefix[1..][1..] == prefix[2..] <= AllTransactions(fourByte, cs[1..]);
        PrefixInside(fourByte, Step(fourByte, f1, prefix[1]), cs[1..], prefix[2..], lo, hi);
      }
    }
  }

  lemma TwoEach(fourByte: bool, c: Command)
    ensures |Transactions(fourByte, c)| == 2
  {
  }

  // ---- the update as a whole ----

  function UpdateTransactions(fourByte: bool, addr: nat, data: seq<byte>): seq<Transaction>
    requires addr < 0x1_0000_0000
  {
    AllTransactions(fourByte, Plan(addr, addr, data))
  }

  /** What an update is for: the range holds the data, the rest of its sectors is erased. */
  function UpdatedFlash(mem: seq<byte>, addr: nat, data: seq<byte>): seq<byte> {
    if data == [] then mem else Updated(mem, addr, SectorOf(addr), data)
  }

  /** The range starts in the last page of the last block's first sector, and goes on into the last sector. */
  predicate FromTopBlock(addr: nat, end: nat) {
    0xFFFF_0F00 <= addr < 0xFFFF_1000 && end > 0xFFFF_F000
  }

  lemma FreshStart(fourByte: bool, addr: nat, len: nat)
    requires InRange(fourByte, addr, len) && len > 0
    ensures addr + len <= 0x1_0000_0000
    ensures SectorsEnd(addr + len) <= AddressSpace(fourByte)
    ensures FromTopBlock(addr, addr + len) || (Ready(addr, addr, len) && EraseFrom(addr, addr) == SectorOf(addr))
    ensures FromTopBlock(addr, addr + len) ==> OnePage(addr, addr + len)
  {
  }

  /** In the first sector of the last block the block end wraps to 0, which reads as "nothing is erased". */
  lemma TopBlockErase(addr: nat, need: nat, remaining: nat)
    requires 0xFFFF_0000 <= addr < 0xFFFF_1000 && need <= addr && 0 < remaining && addr + remaining <= 0x1_0000_0000
    ensures PageEnd(addr) > need && Erase(addr, remaining) == Erase64K(0xFFFF_0000)
    ensures NextNeed(addr, need, remaining) == 0
    ensures WriteLen(addr, remaining) == Min(addr / 256 * 256 + 256 - addr, remaining)
  {
    hide SectorOf, BlockOf, WriteLen, PageEnd;
    PageEndIs(addr, remaining);
    BlocksBelow(addr);
  }

  lemma NextSectorPlan(data: seq<byte>)
    requires data != [] && |data| <= 0xF000
    ensures Plan(0xFFFF_1000, 0, data) == Plan(0xFFFF_1000, 0xFFFF_1000, data)
    ensures EraseFrom(0xFFFF_1000, 0xFFFF_1000) == 0xFFFF_1000
  {
    hide Plan, Erase, WriteLen;
    PlanUnfold(0xFFFF_1000, 0, data);
    PlanUnfold(0xFFFF_1000, 0xFFFF_1000, data);
  }

  /** Such an update erases the whole block first, and then goes on as from the next sector. */
  lemma TopBlockPlan(addr: nat, data: seq<byte>)
    requires FromTopBlock(addr, addr + |data|) && addr + |data| <= 0x1_0000_0000
    ensures
      var n := 0xFFFF_1000 - addr;
      && EraseFrom(0xFFFF_1000, 0xFFFF_1000) == 0xFFFF_1000
      && Plan(addr, addr, data)
         == [Erase64K(0xFFFF_0000), Program(addr, data[..n])] + Plan(0xFFFF_1000, 0xFFFF_1000, data[n..])
  {
    hide Plan, Erase, WriteLen, PageEnd, NextNeed, EraseFrom;
    var n := 0xFFFF_1000 - addr;
    TopBlockErase(addr, addr, |data|);
    assert addr / 256 == 0xFFFF_0F;
    PlanUnfold(addr, addr, data);
    NextSectorPlan(data[n..]);
    assert PageCommands(addr, addr, data) == [Erase64K(0xFFFF_0000), Program(addr, data[..n])];
  }

  lemma ReadyForTheRest(addr: nat, remaining: nat)
    requires FromTopBlock(addr, addr + remaining) && addr + remaining <= 0x1_0000_0000
    requires OnePage(addr, addr + remaining)
    ensures Ready(0xFFFF_1000, 0xFFFF_1000, addr + remaining - 0xFFFF_1000)
    ensures SectorOf(addr) == 0xFFFF_0000 && SectorsEnd(addr + remaining) == 0x1_0000_0000
    ensures SectorOf(0xFFFF_1000) == 0xFFFF_1000
  {
  }

  /** The block is erased and one page of it written before the rest is updated: together that is the update. */
  lemma TopBlockUpdates(mem: seq<byte>, addr: nat, data: seq<byte>)
    requires FromTopBlock(addr, addr + |data|) && addr + |data| <= 0x1_0000_0000 && OnePage(addr, addr + |data|)
    ensures ApplyAll(mem, Plan(addr, addr, data)) == Updated(mem, addr, SectorOf(addr), data)
  {
    hide Plan, Ready, EraseFrom, ApplyAll, OnePage, SectorOf, SectorsEnd, Programmed;
    var n, rest := 0xFFFF_1000 - addr, data[0xFFFF_1000 - addr..];
    TopBlockPlan(addr, data);
    ReadyForTheRest(addr, |data|);
    var mem1 := Apply(mem, Erase64K(0xFFFF_0000));
    var mem2 := Programmed(mem1, addr, data[..n]);
    BlockApplied(mem, addr, data[..n]);
    PlanUpdates(mem2, 0xFFFF_1000, 0xFFFF_1000, rest);
    ApplyTwo(mem, Erase64K(0xFFFF_0000), Program(addr, data[..n]), Plan(0xFFFF_1000, 0xFFFF_1000, rest));
    UpdatedAfterBlock(mem, mem2, addr, data);
  }

  lemma BlockApplied(mem: seq<byte>, addr: nat, data: seq<byte>)
    requires 0xFFFF_0F00 <= addr && addr + |data| == 0xFFFF_1000
    ensures
      var mem2 := Programmed(Apply(mem, Erase64K(0xFFFF_0000)), addr, data);
      PageDone(mem, mem2, addr, 0xFFFF_0000, 0x1_0000_0000, data)
  {
    var mem1 := Apply(mem, Erase64K(0xFFFF_0000));
    ProgramErased(mem1, addr, data);
    hide Programmed;
  }

  lemma UpdatedAfterBlock(mem: seq<byte>, mem2: seq<byte>, addr: nat, data: seq<byte>)
    requires FromTopBlock(addr, addr + |data|) && SectorsEnd(addr + |data|) == 0x1_0000_0000
    requires PageDone(mem, mem2, addr, 0xFFFF_0000, 0x1_0000_0000, data[..0xFFFF_1000 - addr])
    ensures Updated(mem2, 0xFFFF_1000, 0xFFFF_1000, data[0xFFFF_1000 - addr..]) == Updated(mem, addr, 0xFFFF_0000, data)
  {
    hide SectorsEnd;
    assert 0xFFFF_1000 + |data[0xFFFF_1000 - addr..]| == addr + |data|;
  }

  lemma ApplyTwo(mem: seq<byte>, first: Command, second: Command, rest: seq<Command>)
    ensures ApplyAll(mem, [first, second] + rest) == ApplyAll(Apply(Apply(mem, first), second), rest)
  {
    assert ([first, second] + rest)[1..] == [second] + rest && ([second] + rest)[1..] == rest;
  }

  lemma UpdateInside(fourByte: bool, addr: nat, data: seq<byte>)
    requires Contained(fourByte, addr, |data|) && data != []
    ensures forall c :: c in Plan(addr, addr, data) ==> Inside(c, SectorOf(addr), SectorsEnd(addr + |data|))
    ensures SectorsEnd(addr + |data|) <= AddressSpace(fourByte)
  {
    SectorsEndBelow(addr + |data|, AddressSpace(fourByte));
    hide Plan, SectorOf, SectorsEnd;
    PlanInside(addr, addr, data, SectorOf(addr), SectorsEnd(addr + |data|));
  }

  /** Sending the transactions of an update to any flash updates it. */
  lemma UpdateWorks(fourByte: bool, f: Flash, addr: nat, data: seq<byte>)
    requires InRange(fourByte, addr, |data|)
    ensures Run(fourByte, f, UpdateTransactions(fourByte, addr, data)).mem == UpdatedFlash(f.mem, addr, data)
  {
    hide Plan, Ready, EraseFrom, Updated, ApplyAll, OnePage, SectorOf, SectorsEnd;
    if data != [] {
      FreshStart(fourByte, addr, |data|);
      if FromTopBlock(addr, addr + |data|) {
        TopBlockUpdates(f.mem, addr, data);
      } else {
        PlanUpdates(f.mem, addr, addr, data);
      }
      UpdateInside(fourByte, addr, data);
      RunCommands(fourByte, f, Plan(addr, addr, data));
    } else {
      PlanOfNothing(f.mem, addr, addr, data);
    }
  }

  /** However few of an update's transactions were run, nothing outside its sectors has changed. */
  lemma FailedUpdateIsContained(fourByte: bool, f: Flash, addr: nat, data: seq<byte>, prefix: seq<Transaction>)
    requires Contained(fourByte, addr, |data|) && prefix <= UpdateTransactions(fourByte, addr, data)
    ensures SameOutside(f.mem, Run(fourByte, f, prefix).mem, SectorOf(addr), SectorsEnd(addr + |data|))
  {
    hide Plan, SameOutside, OnePage, SectorOf, SectorsEnd;
    if data != [] {
      UpdateInside(fourByte, addr, data);
      PrefixInside(fourByte, f, Plan(addr, addr, data), prefix, SectorOf(addr), SectorsEnd(addr + |data|));
    } else {
      PlanOfNothing(f.mem, addr, addr, data);
      NothingSent(fourByte, f, prefix, SectorOf(addr), SectorsEnd(addr + |data|));
    }
  }

  lemma NothingSent(fourByte: bool, f: Flash, prefix: seq<Transaction>, lo: nat, hi: nat)
    requires prefix <= AllTransactions(fourByte, [])
    ensures SameOutside(f.mem, Run(fourByte, f, prefix).mem, lo, hi)
  {
  }

  /**
   * Each sector that the range touches is erased, whichever opcode was chosen, and no other sector is; and every
   * program writes its piece of the data into a sector that was erased before it and is not erased again. A
   * sector is erased once, but those that an erase of the whole last block has cleared already are erased twice.
   */
  lemma UpdateErasesEachSectorOnceAndFirst(fourByte: bool, addr: nat, data: seq<byte>)
    requires InRange(fourByte, addr, |data|) && data != []
    ensures forall sector: nat ::
      EraseCount(Plan(addr, addr, data), sector)
      == if !(addr / 4096 <= sector <= (addr + |data| - 1) / 4096) then 0
         else if FromTopBlock(addr, addr + |data|) && sector > addr / 4096 then 2 else 1
    ensures forall k :: 0 <= k < |Plan(addr, addr, data)| && Plan(addr, addr, data)[k].Program? ==>
      var c := Plan(addr, addr, data)[k];
      && addr <= c.addr && c.addr + |c.data| <= addr + |data|
      && c.data == data[c.addr - addr..c.addr - addr + |c.data|]
      && EraseCount(Plan(addr, addr, data)[..k], c.addr / 4096)
         == EraseCount(Plan(addr, addr, data), c.addr / 4096) > 0
  {
    hide *;
    FreshStart(fourByte, addr, |data|);
    forall sector: nat
      ensures EraseCount(Plan(addr, addr, data), sector)
        == if !(addr / 4096 <= sector <= (addr + |data| - 1) / 4096) then 0
           else if FromTopBlock(addr, addr + |data|) && sector > addr / 4096 then 2 else 1
    {
      ErasesOfUpdate(fourByte, addr, data, sector);
    }
    forall k | 0 <= k < |Plan(addr, addr, data)| && Plan(addr, addr, data)[k].Program?
      ensures
        var c := Plan(addr, addr, data)[k];
        && addr <= c.addr && c.addr + |c.data| <= addr + |data|
        && c.data == data[c.addr - addr..c.addr - addr + |c.data|]
        && EraseCount(Plan(addr, addr, data)[..k], c.addr / 4096)
           == EraseCount(Plan(addr, addr, data), c.addr / 4096) > 0
    {
      ProgramOfUpdate(fourByte, addr, data, k);
    }
  }

  lemma SectorsOfRange(addr: nat, end: nat, sector: nat)
    requires addr < end
    ensures SectorOf(addr) <= sector * 4096 <==> addr / 4096 <= sector
    ensures sector * 4096 < SectorsEnd(end) <==> sector <= (end - 1) / 4096
  {
  }

  lemma ErasesOfTopBlock(addr: nat, data: seq<byte>, sector: nat)
    ensures
      EraseCount([Erase64K(0xFFFF_0000), Program(addr, data)], sector)
      == if 0xFFFF_0 <= sector <= 0xFFFF_F then 1 else 0
  {
    var first := [Erase64K(0xFFFF_0000), Program(addr, data)];
    assert first[1..] == [first[1]] && first[1..][1..] == [];
    assert EraseCount(first[1..], sector) == 0;
  }

  lemma ErasesOfUpdate(fourByte: bool, addr: nat, data: seq<byte>, sector: nat)
    requires InRange(fourByte, addr, |data|) && data != []
    ensures
      EraseCount(Plan(addr, addr, data), sector)
      == if !(addr / 4096 <= sector <= (addr + |data| - 1) / 4096) then 0
         else if FromTopBlock(addr, addr + |data|) && sector > addr / 4096 then 2 else 1
  {
    hide InRange, Plan, Ready, EraseFrom, OnePage, EraseCount, SectorOf, SectorsEnd;
    FreshStart(fourByte, addr, |data|);
    SectorsOfRange(addr, addr + |data|, sector);
    if FromTopBlock(addr, addr + |data|) {
      var n := 0xFFFF_1000 - addr;
      TopBlockPlan(addr, data);
      ReadyForTheRest(addr, |data|);
      ErasesOfTopBlock(addr, data[..n], sector);
      EraseCountAppend([Erase64K(0xFFFF_0000), Program(addr, data[..n])],
                       Plan(0xFFFF_1000, 0xFFFF_1000, data[n..]), sector);
      PlanErasesOnce(0xFFFF_1000, 0xFFFF_1000, data[n..], sector);
    } else {
      PlanErasesOnce(addr, addr, data, sector);
    }
  }

  /** A program of the update that goes on after the last block was erased. */
  lemma ProgramAfterTopBlock(addr: nat, data: seq<byte>, later: seq<Command>, k: nat)
    requires FromTopBlock(addr, addr + |data|) && addr + |data| <= 0x1_0000_0000
    requires k < |later| && later[k].Program?
    requires WellPlaced(later, k, 0xFFFF_1000, 0xFFFF_1000, data[0xFFFF_1000 - addr..])
    ensures
      var n := 0xFFFF_1000 - addr;
      var first := [Erase64K(0xFFFF_0000), Program(addr, data[..n])];
      var c := later[k];
      && addr <= c.addr && c.addr + |c.data| <= addr + |data|
      && c.data == data[c.addr - addr..c.addr - addr + |c.data|]
      && c.addr / 4096 > addr / 4096
      && EraseCount((first + later)[..k + 2], c.addr / 4096) == 2
  {
    hide EraseCount;
    var n := 0xFFFF_1000 - addr;
    var first := [Erase64K(0xFFFF_0000), Program(addr, data[..n])];
    var c, rest := later[k], data[n..];
    assert (first + later)[..k + 2] == first + later[..k];
    EraseCountAppend(first, later[..k], c.addr / 4096);
    ErasesOfTopBlock(addr, data[..n], c.addr / 4096);
    assert rest[c.addr - 0xFFFF_1000..c.addr - 0xFFFF_1000 + |c.data|]
        == data[c.addr - addr..c.addr - addr + |c.data|];
  }

  lemma FirstEraseCounts(addr: nat, data: seq<byte>, later: seq<Command>)
    requires 0xFFFF_0000 <= addr < 0xFFFF_1000
    ensures
      var first := [Erase64K(0xFFFF_0000), Program(addr, data)];
      EraseCount((first + later)[..1], addr / 4096) == 1
  {
    var first := [Erase64K(0xFFFF_0000), Program(addr, data)];
    assert (first + later)[..1] == [first[0]] && [first[0]][1..] == [];
    assert EraseCount([first[0]], addr / 4096) == 1 + EraseCount([], addr / 4096);
  }

  lemma ProgramOfUpdate(fourByte: bool, addr: nat, data: seq<byte>, k: nat)
    requires InRange(fourByte, addr, |data|) && data != []
    requires k < |Plan(addr, addr, data)| && Plan(addr, addr, data)[k].Program?
    ensures
      var c := Plan(addr, addr, data)[k];
      && addr <= c.addr && c.addr + |c.data| <= addr + |data|
      && c.data == data[c.addr - addr..c.addr - addr + |c.data|]
      && EraseCount(Plan(addr, addr, data)[..k], c.addr / 4096)
         == EraseCount(Plan(addr, addr, data), c.addr / 4096) > 0
  {
    hide InRange, Plan, Ready, EraseFrom, OnePage, EraseCount, SectorOf, SectorsEnd;
    FreshStart(fourByte, addr, |data|);
    var c := Plan(addr, addr, data)[k];
    ErasesOfUpdate(fourByte, addr, data, c.addr / 4096);
    if FromTopBlock(addr, addr + |data|) {
      hide WellPlaced;
      var n := 0xFFFF_1000 - addr;
      TopBlockPlan(addr, data);
      ReadyForTheRest(addr, |data|);
      var later := Plan(0xFFFF_1000, 0xFFFF_1000, data[n..]);
      if k == 1 {
        FirstEraseCounts(addr, data[..n], later);
      } else {
        assert later[k - 2] == c;
        PlanErasesFirst(0xFFFF_1000, 0xFFFF_1000, data[n..], k - 2);
        ProgramAfterTopBlock(addr, data, later, k - 2);
      }
    } else {
      SectorBounds(addr, addr);
      PlanErasesFirst(addr, addr, data, k);
    }
  }

  // ---- which opcodes an update uses, and how it is cut into pages ----

  /** One step: a block is erased whole if it starts the sectors still to be erased and all of it is updated. */
  lemma BlockEraseIff(addr: nat, remaining: nat)
    requires 0 < remaining && addr + remaining <= 0xFFFF_0000
    ensures Erase(addr, remaining).Erase64K? <==>
      SectorOf(addr) % 65536 == 0 && SectorOf(addr) + 65536 <= addr + remaining
    ensures !Erase(addr, remaining).Program? && Erase(addr, remaining).start == SectorOf(addr)
  {
    BlockBounds(addr);
    BlocksBelow(addr);
    BlockStarts(addr);
    hide SectorOf, BlockOf;
  }

  lemma BlockStarts(a: nat)
    ensures SectorOf(a) % 65536 == 0 <==> BlockOf(a) == SectorOf(a)
  {
    Quotients(a);
  }

  lemma PageBlockErases(addr: nat, need: nat, data: seq<byte>, b: nat)
    requires Ready(addr, need, |data|) && addr + |data| <= 0xFFFF_0000 && b % 65536 == 0
    ensures Erase64K(b) in PageCommands(addr, need, data) <==>
      EraseFrom(addr, need) <= b < ErasedTo(addr, need, |data|) && b + 65536 <= addr + |data|
  {
    hide Erase, PageEnd, WriteLen, SectorsEnd, SectorOf, OnePage;
    PageFits(addr, need, |data|);
    if PageEnd(addr) > need {
      BlockEraseIff(addr, |data|);
      NextBlock(SectorOf(addr), b);
    }
  }

  /** From the start of a sector, the next block starts there or is at least a sector away. */
  lemma NextBlock(sector: nat, b: nat)
    requires sector % 4096 == 0 && b % 65536 == 0
    ensures sector < b ==> sector + 4096 <= b
    ensures sector < b && sector % 65536 == 0 ==> sector + 65536 <= b
  {
  }

  lemma {:induction false} PlanBlockErases(addr: nat, need: nat, data: seq<byte>, b: nat)
    requires Ready(addr, need, |data|) && addr + |data| <= 0xFFFF_0000 && b % 65536 == 0
    ensures Erase64K(b) in Plan(addr, need, data) <==> EraseFrom(addr, need) <= b && b + 65536 <= addr + |data|
    decreases |data|
  {
    hide *;
    PageFits(addr, need, |data|);
    var n, need' := WriteLen(addr, |data|), ErasedTo(addr, need, |data|);
    PlanGoesOn(addr, need, data);
    PlanUnfoldReady(addr, need, data);
    PageBlockErases(addr, need, data, b);
    if n < |data| {
      assert addr + n + |data[n..]| == addr + |data|;
      PlanBlockErases(addr + n, need', data[n..], b);
    } else {
      EndsAtLeast(addr, addr + |data|);
    }
  }

  /**
   * An update sends a 64K erase for exactly those blocks whose start is not before the range's first sector and
   * whose end is not past the range.
   */
  lemma UpdateErasesBlocks(addr: nat, data: seq<byte>, b: nat)
    requires data != [] && addr + |data| <= 0xFFFF_0000 && b % 65536 == 0
    ensures Erase64K(b) in Plan(addr, addr, data) <==> addr / 4096 * 4096 <= b && b + 65536 <= addr + |data|
  {
    FreshStart(true, addr, |data|);
    hide Plan, Ready, EraseFrom;
    PlanBlockErases(addr, addr, data, b);
  }

  /** Every program starts at the range's start or at a page, and ends at a page or at the range's end. */
  lemma {:induction false} ProgramsArePages(addr: nat, need: nat, data: seq<byte>, c: Command)
    requires addr < 0x1_0000_0000 && addr + |data| <= 0x1_0000_0000
    requires c in Plan(addr, need, data) && c.Program?
    ensures c.data != [] && c.addr / 256 == (c.addr + |c.data| - 1) / 256
    ensures c.addr == addr || c.addr % 256 == 0
    ensures c.addr + |c.data| == addr + |data| || (c.addr + |c.data|) % 256 == 0
    decreases |data|
  {
    hide Erase, EraseEnd, PageEnd, WriteLen, NextNeed, Plan;
    if data == [] {
      PlanOfNothing([], addr, need, data);
    } else {
      var n := WriteLen(addr, |data|);
      PageEndIs(addr, |data|);
      PlanUnfold(addr, need, data);
      if c !in PageCommands(addr, need, data) {
        if n == |data| {
          PlanOfNothing([], (addr + n) % 0x1_0000_0000, NextNeed(addr, need, |data|), data[n..]);
        } else {
          ProgramsArePages(addr + n, NextNeed(addr, need, |data|), data[n..], c);
        }
      } else {
        PieceOfPage(addr, |data|);
        ProgramOfPage(addr, need, data, c);
      }
    }
  }

  lemma ProgramOfPage(addr: nat, need: nat, data: seq<byte>, c: Command)
    requires addr < 0x1_0000_0000 && data != []
    requires c in PageCommands(addr, need, data) && c.Program?
    ensures c == Program(addr, data[..WriteLen(addr, |data|)])
  {
    hide PageEnd, WriteLen;
  }

  lemma PieceOfPage(addr: nat, remaining: nat)
    requires 0 < remaining && addr + remaining <= 0x1_0000_0000
    ensures
      var n := WriteLen(addr, remaining);
      0 < n && addr / 256 == (addr + n - 1) / 256 && (addr + n == addr + remaining || (addr + n) % 256 == 0)
  {
    PageEndIs(addr, remaining);
    hide WriteLen;
  }

  // ---- on the wire ----

  /** The transactions of a command, byte by byte: opcodes, and addresses with the highest byte first. */
  lemma CommandBytes(c: Command, a: nat, b: nat, d: nat, e: nat)
    requires a < 256 && b < 256 && d < 256 && e < 256
    requires (if c.Program? then c.addr else c.start) == 0x100_0000 * a + 0x1_0000 * b + 0x100 * d + e
    ensures |Transactions(true, c)| == |Transactions(false, c)| == 2
    ensures Transactions(true, c)[0] == Transactions(false, c)[0] == Transaction([0x06], 0)
    ensures
      var code: byte := if c.Erase4K? then 0x20 else if c.Erase64K? then 0xD8 else 0x02;
      var data := if c.Program? then c.data else [];
      && Transactions(true, c)[1] == Transaction([code, a, b, d, e] + data, 0)
      && Transactions(false, c)[1] == Transaction([code, b, d, e] + data, 0)
  {
    AddressDigits(a, b, d, e);
    hide AddressBytes;
  }

  lemma AddressDigits(a: nat, b: nat, d: nat, e: nat)
    requires a < 256 && b < 256 && d < 256 && e < 256
    ensures
      var addr := 0x100_0000 * a + 0x1_0000 * b + 0x100 * d + e;
      AddressBytes(true, addr) == [a, b, d, e] && AddressBytes(false, addr) == [b, d, e]
  {
    var addr := 0x100_0000 * a + 0x1_0000 * b + 0x100 * d + e;
    LastDigit(0x1_0000 * a + 0x100 * b + d, e);
    LastDigit(0x100 * a + b, d);
    LastDigit(a, b);
    LastDigit(0, a);
    Quotient(addr);
  }

  lemma LastDigit(n: nat, digit: nat)
    requires digit < 256
    ensures (256 * n + digit) / 256 == n && (256 * n + digit) % 256 == digit
  {
  }

  lemma Quotient(n: nat)
    ensures n / 0x1_0000 == n / 256 / 256 && n / 0x100_0000 == n / 256 / 256 / 256
  {
    assert n / 0x100_0000 == n / 0x1_0000 / 256;
  }

  /** The transaction that erases the block at `b`. */
  function BlockErase(fourByte: bool, b: nat): Transaction {
    Transaction([0xD8] + AddressBytes(fourByte, b), 0)
  }

  lemma OneBlockErase(fourByte: bool, c: Command, b: nat)
    requires Sendable(fourByte, c) && b < AddressSpace(fourByte)
    ensures BlockErase(fourByte, b) in Transactions(fourByte, c) <==> c == Erase64K(b)
  {
    AddressRoundTrip(fourByte, b);
    AddressRoundTrip(fourByte, if c.Program? then c.addr else c.start);
    hide AddressBytes, DecodeAddress;
    var t := BlockErase(fourByte, b);
    assert t.mosi[0] == 0xD8 && t.mosi[1..] == AddressBytes(fourByte, b) && |t.mosi| > 1;
    assert Transactions(fourByte, c)[0].mosi[0] == 0x06;
    if c.Erase64K? {
      assert Transactions(fourByte, c)[1].mosi[1..] == AddressBytes(fourByte, c.start);
    }
  }

  lemma {:induction false} BlockErasesSent(fourByte: bool, cs: seq<Command>, b: nat)
    requires forall c :: c in cs ==> Sendable(fourByte, c)
    requires b < AddressSpace(fourByte)
    ensures BlockErase(fourByte, b) in AllTransactions(fourByte, cs) <==> Erase64K(b) in cs
    decreases |cs|
  {
    hide Transactions, Sendable, BlockErase;
    if cs != [] {
      OneBlockErase(fourByte, cs[0], b);
      BlockErasesSent(fourByte, cs[1..], b);
    }
  }

  /** Among these transactions are 64K erases for exactly the blocks that an update of the range clears whole. */
  predicate ErasesWholeBlocks(fourByte: bool, ts: seq<Transaction>, start: nat, end: nat) {
    forall b: nat :: b % 65536 == 0 && b < AddressSpace(fourByte) ==>
      (BlockErase(fourByte, b) in ts <==> start / 4096 * 4096 <= b && b + 65536 <= end)
  }

  lemma UpdateErasesWholeBlocks(fourByte: bool, start: nat, data: seq<byte>)
    requires start < 0x1_0000_0000 && start + |data| <= 0xFFFF_0000 && start + |data| <= AddressSpace(fourByte)
    ensures ErasesWholeBlocks(fourByte, UpdateTransactions(fourByte, start, data), start, start + |data|)
  {
    hide Plan, BlockErase, Sendable, Inside;
    if data == [] {
      PlanOfNothing([], start, start, data);
      NotBeforeItsSector(start);
    } else {
      UpdateInside(fourByte, start, data);
      InsideIsSendable(fourByte, Plan(start, start, data), SectorOf(start), SectorsEnd(start + |data|));
      forall b: nat | b % 65536 == 0 && b < AddressSpace(fourByte)
        ensures BlockErase(fourByte, b) in UpdateTransactions(fourByte, start, data) <==>
          start / 4096 * 4096 <= b && b + 65536 <= start + |data|
      {
        BlockErasesSent(fourByte, Plan(start, start, data), b);
        UpdateErasesBlocks(start, data, b);
      }
    }
  }

  lemma NotBeforeItsSector(start: nat)
    ensures start < start / 4096 * 4096 + 65536
  {
  }

  lemma InsideIsSendable(fourByte: bool, cs: seq<Command>, lo: nat, hi: nat)
    requires hi <= AddressSpace(fourByte) && forall c :: c in cs ==> Inside(c, lo, hi)
    ensures forall c :: c in cs ==> Sendable(fourByte, c)
  {
  }

  // ---- how many pages an update writes ----

  function PagesTouched(start: nat, len: nat): nat {
    if len == 0 then 0 else (start + len - 1) / 256 - start / 256 + 1
  }

  lemma OneMorePage(start: nat, done: nat, len: nat)
    requires done < len && start + len <= 0x1_0000_0000 && (done == 0 || (start + done) % 256 == 0)
    ensures
      var n := WriteLen(start + done, len - done);
      && PagesTouched(start, done + n) == PagesTouched(start, done) + 1
      && (done + n == len || (start + (done + n)) % 256 == 0)
  {
    var addr := start + done;
    PageEndIs(addr, len - done);
    PieceOfPage(addr, len - done);
    hide WriteLen;
    if done != 0 {
      assert (addr - 1) / 256 + 1 == addr / 256;
    }
  }
}
