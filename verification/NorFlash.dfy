/** The device at the far end of the SPI proxy: a serial NOR flash, as a ghost model. */
module NorFlash {
  import opened Bytes

  const WRITE_ENABLE: byte := 0x06
  const PAGE_PROGRAM: byte := 0x02
  const READ: byte := 0x03
  const ERASE_4K: byte := 0x20
  const ERASE_64K: byte := 0xd8

  /** One chip-select cycle: the bytes driven to the flash and how many of its bytes are kept. */
  datatype Transaction = Transaction(mosi: seq<byte>, misoLen: nat)

  datatype Flash = Flash(mem: seq<byte>, writeEnabled: bool)

  function AddressWidth(fourByte: bool): nat {
    if fourByte then 4 else 3
  }

  /** The number of addresses that can be expressed. */
  function AddressSpace(fourByte: bool): nat {
    if fourByte then 0x1_0000_0000 else 0x100_0000
  }

  /** Big-endian address bytes; in 3-byte mode the top byte is dropped. */
  function AddressBytes(fourByte: bool, addr: nat): (s: seq<byte>)
    ensures |s| == AddressWidth(fourByte)
  {
    var low := [addr / 0x1_0000 % 256, addr / 0x100 % 256, addr % 256];
    if fourByte then [addr / 0x100_0000 % 256] + low else low
  }

  function DecodeAddress(fourByte: bool, s: seq<byte>): nat
    requires |s| == AddressWidth(fourByte)
  {
    if fourByte then Join(Join(Join(s[0], s[1]), s[2]), s[3]) else Join(Join(s[0], s[1]), s[2])
  }

  lemma AddressRoundTrip(fourByte: bool, addr: nat)
    requires addr < AddressSpace(fourByte)
    ensures DecodeAddress(fourByte, AddressBytes(fourByte, addr)) == addr
  {
    assert addr / 0x100_0000 == addr / 0x1_0000 / 0x100;
    assert addr / 0x1_0000 == addr / 0x100 / 0x100;
  }

  /** Erasing sets every bit. */
  function Erased(mem: seq<byte>, lo: nat, hi: nat): (r: seq<byte>)
    ensures |r| == |mem|
  {
    seq(|mem|, i requires 0 <= i < |mem| => if lo <= i < hi then 0xFF else mem[i])
  }

  /** Programming can only clear bits, and wraps around inside the 256-byte page of `addr`. */
  function Programmed(mem: seq<byte>, addr: nat, data: seq<byte>): (r: seq<byte>)
    ensures |r| == |mem|
  {
    seq(|mem|, i requires 0 <= i < |mem| =>
      if i / 256 == addr / 256 && (i - addr) % 256 < |data|
      then And(mem[i], data[(i - addr) % 256]) else mem[i])
  }

  /** The effect of one transaction; erases and programs need, and use up, the write-enable latch. */
  function Step(fourByte: bool, f: Flash, t: Transaction): Flash {
    var w := AddressWidth(fourByte);
    if t.mosi == [WRITE_ENABLE] then f.(writeEnabled := true)
    else if |t.mosi| < 1 + w || !f.writeEnabled then f
    else
      var addr := DecodeAddress(fourByte, t.mosi[1..1 + w]);
      if t.mosi[0] == ERASE_4K && |t.mosi| == 1 + w then
        Flash(Erased(f.mem, addr / 4096 * 4096, addr / 4096 * 4096 + 4096), false)
      else if t.mosi[0] == ERASE_64K && |t.mosi| == 1 + w then
        Flash(Erased(f.mem, addr / 65536 * 65536, addr / 65536 * 65536 + 65536), false)
      else if t.mosi[0] == PAGE_PROGRAM && |t.mosi| > 1 + w then
        Flash(Programmed(f.mem, addr, t.mosi[1 + w..]), false)
      else f
  }

  /** The byte the flash holds at an address; nothing answers past its end. */
  function ByteAt(mem: seq<byte>, i: nat): byte {
    if i < |mem| then mem[i] else 0xFF
  }

  /** The bytes the flash holds from an address on. */
  function Window(mem: seq<byte>, addr: nat, len: nat): (r: seq<byte>)
    ensures |r| == len
  {
    seq<byte>(len, j requires 0 <= j => ByteAt(mem, addr + j))
  }

  lemma WindowSplit(mem: seq<byte>, addr: nat, a: nat, b: nat)
    ensures Window(mem, addr, a + b) == Window(mem, addr, a) + Window(mem, addr + a, b)
  {
  }

  /** The byte driven at clock byte `j` of a transaction: memory contents after a READ's address. */
  function MisoByte(fourByte: bool, mem: seq<byte>, mosi: seq<byte>, j: nat): byte {
    var w := AddressWidth(fourByte);
    if |mosi| < 1 + w || mosi[0] != READ || j < 1 + w then 0xFF
    else ByteAt(mem, DecodeAddress(fourByte, mosi[1..1 + w]) + j - (1 + w))
  }

  /** The first `misoLen` bytes the flash drives, dummies included. */
  function Miso(fourByte: bool, f: Flash, t: Transaction): (s: seq<byte>)
    ensures |s| == t.misoLen
  {
    seq(t.misoLen, j requires 0 <= j => MisoByte(fourByte, f.mem, t.mosi, j))
  }

  function Run(fourByte: bool, f: Flash, ts: seq<Transaction>): Flash
    decreases |ts|
  {
    if ts == [] then f else Run(fourByte, Step(fourByte, f, ts[0]), ts[1..])
  }

  /** What each transaction of a list brings back. */
  function Misos(fourByte: bool, f: Flash, ts: seq<Transaction>): (ms: seq<seq<byte>>)
    ensures |ms| == |ts|
    ensures forall i :: 0 <= i < |ts| ==> |ms[i]| == ts[i].misoLen
    decreases |ts|
  {
    if ts == [] then [] else [Miso(fourByte, f, ts[0])] + Misos(fourByte, Step(fourByte, f, ts[0]), ts[1..])
  }

  lemma {:induction false} RunAppend(fourByte: bool, f: Flash, a: seq<Transaction>, b: seq<Transaction>)
    ensures Run(fourByte, f, a + b) == Run(fourByte, Run(fourByte, f, a), b)
    decreases |a|
  {
    if a == [] {
      assert a + b == b;
    } else {
      assert (a + b)[1..] == a[1..] + b;
      RunAppend(fourByte, Step(fourByte, f, a[0]), a[1..], b);
    }
  }
}
