/** Updates that reach into the last 64K of the 32-bit address space: exactly which of them go wrong. */
module SpiWrap {
  import opened Bytes
  import opened NorFlash
  import opened SpiPlan

  lemma EraseKeepsErased(mem: seq<byte>, i: nat, addr: nat, need: nat, remaining: nat)
    requires i < |mem| && mem[i] == 0xFF
    ensures AfterErase(mem, addr, need, remaining)[i] == 0xFF
  {
    hide PageEnd;
    assert !Erase(addr, remaining).Program?;
  }

  lemma ProgramKeepsOtherPages(mem: seq<byte>, i: nat, addr: nat, data: seq<byte>)
    requires i < |mem| && i / 256 != addr / 256
    ensures Programmed(mem, addr, data)[i] == mem[i]
  {
  }

  /** The page of `i` is none of those of the range. */
  predicate OffPages(i: nat, addr: nat, len: nat) {
    len > 0 ==> i / 256 < addr / 256 || (addr + len - 1) / 256 < i / 256
  }

  lemma OffLaterPages(i: nat, addr: nat, n: nat, len: nat)
    requires 0 < n <= len && OffPages(i, addr, len)
    ensures i / 256 != addr / 256 && OffPages(i, addr + n, len - n)
  {
    if n < len {
      assert addr / 256 <= (addr + n) / 256 <= (addr + len - 1) / 256;
    }
    assert addr / 256 <= (addr + len - 1) / 256;
  }

  /** No update brings back a byte that was erased, outside its own pages. */
  lemma {:induction false} StaysErased(mem: seq<byte>, i: nat, addr: nat, need: nat, data: seq<byte>)
    requires addr < 0x1_0000_0000 && addr + |data| <= 0x1_0000_0000
    requires i < |mem| && mem[i] == 0xFF && OffPages(i, addr, |data|)
    ensures ApplyAll(mem, Plan(addr, need, data))[i] == 0xFF
    decreases |data|
  {
    hide *;
    if data != [] {
      var n, need' := WriteLen(addr, |data|), NextNeed(addr, need, |data|);
      PlanStep(mem, addr, need, data);
      var mem1 := AfterErase(mem, addr, need, |data|);
      EraseKeepsErased(mem, i, addr, need, |data|);
      OffNextPages(i, addr, |data|);
      ProgramKeepsOtherPages(mem1, i, addr, data[..n]);
      NextAddress(addr, |data|);
      StaysErased(Programmed(mem1, addr, data[..n]), i, (addr + n) % 0x1_0000_0000, need', data[n..]);
    } else {
      PlanOfNothing(mem, addr, need, data);
    }
  }

  lemma NextAddress(addr: nat, remaining: nat)
    requires 0 < remaining && addr + remaining <= 0x1_0000_0000
    ensures
      var n, next := WriteLen(addr, remaining), (addr + WriteLen(addr, remaining)) % 0x1_0000_0000;
      && next + (remaining - n) <= 0x1_0000_0000 && (n < remaining ==> next == addr + n)
  {
    hide WriteLen;
    PageEndIs(addr, remaining);
  }

  /** The same for the pages after the one at `addr`, whose address may have wrapped if there are none. */
  lemma OffNextPages(i: nat, addr: nat, remaining: nat)
    requires 0 < remaining && addr + remaining <= 0x1_0000_0000 && OffPages(i, addr, remaining)
    ensures
      var n := WriteLen(addr, remaining);
      i / 256 != addr / 256 && OffPages(i, (addr + n) % 0x1_0000_0000, remaining - n)
  {
    hide WriteLen;
    NextAddress(addr, remaining);
    OffLaterPages(i, addr, WriteLen(addr, remaining), remaining);
  }

  // ---- pages whose erase clears everything from `lo` to the end of the address space ----

  /** A page of the last block's first sector, or of the last sector without its last page. */
  predicate TopPage(addr: nat, lo: nat) {
    || (lo == 0xFFFF_0000 && lo <= addr < 0xFFFF_1000)
    || (lo == 0xFFFF_F000 && lo <= addr < 0xFFFF_FF00)
  }

  /** Such a page is always erased for, and the wrapped end of that erase then reads as "nothing is erased". */
  lemma TopPageErases(addr: nat, need: nat, remaining: nat, lo: nat)
    requires TopPage(addr, lo) && need <= addr && 0 < remaining && addr + remaining <= 0x1_0000_0000
    ensures PageEnd(addr) > need && NextNeed(addr, need, remaining) == 0
    ensures Erase(addr, remaining) == if lo == 0xFFFF_0000 then Erase64K(lo) else Erase4K(lo)
    ensures WriteLen(addr, remaining) == Min(NextPage(addr) - addr, remaining)
  {
    hide SectorOf, BlockOf, WriteLen, PageEnd;
    PageEndIs(addr, remaining);
    BlocksBelow(addr);
  }

  lemma TopPageClears(mem: seq<byte>, i: nat, addr: nat, need: nat, remaining: nat, lo: nat)
    requires TopPage(addr, lo) && need <= addr && 0 < remaining && addr + remaining <= 0x1_0000_0000
    requires lo <= i < |mem| && i < 0x1_0000_0000
    ensures AfterErase(mem, addr, need, remaining)[i] == 0xFF
  {
    TopPageErases(addr, need, remaining, lo);
    hide Erase, PageEnd, NextNeed, WriteLen;
  }

  /** What such an erase clears stays lost, outside the pages that the update still writes. */
  lemma ClearedForGood(mem: seq<byte>, i: nat, addr: nat, need: nat, data: seq<byte>, lo: nat)
    requires TopPage(addr, lo) && need <= addr && data != [] && addr + |data| <= 0x1_0000_0000
    requires lo <= i < |mem| && i < 0x1_0000_0000 && OffPages(i, addr, |data|)
    ensures ApplyAll(mem, Plan(addr, need, data))[i] == 0xFF
  {
    hide WriteLen, NextNeed, AfterErase, Programmed, ApplyAll, Plan, OffPages;
    var n, mem1 := WriteLen(addr, |data|), AfterErase(mem, addr, need, |data|);
    PlanStep(mem, addr, need, data);
    TopPageClears(mem, i, addr, need, |data|, lo);
    OffNextPages(i, addr, |data|);
    ProgramKeepsOtherPages(mem1, i, addr, data[..n]);
    NextAddress(addr, |data|);
    StaysErased(Programmed(mem1, addr, data[..n]), i, (addr + n) % 0x1_0000_0000,
                NextNeed(addr, need, |data|), data[n..]);
  }

  function NextPage(addr: nat): nat {
    addr / 256 * 256 + 256
  }

  lemma TopPageStep(mem: seq<byte>, addr: nat, need: nat, data: seq<byte>, lo: nat) returns (mem2: seq<byte>)
    requires TopPage(addr, lo) && need <= addr && NextPage(addr) < addr + |data| <= 0x1_0000_0000
    ensures |mem2| == |mem| && 0 < NextPage(addr) - addr <= |data|
    ensures ApplyAll(mem, Plan(addr, need, data))
         == ApplyAll(mem2, Plan(NextPage(addr), 0, data[NextPage(addr) - addr..]))
  {
    hide WriteLen, NextNeed, AfterErase, Programmed, ApplyAll, Plan, PageEnd, Erase;
    TopPageErases(addr, need, |data|, lo);
    PlanStep(mem, addr, need, data);
    LowerPage(addr, |data|);
    hide NextPage;
    mem2 := Programmed(AfterErase(mem, addr, need, |data|), addr, data[..WriteLen(addr, |data|)]);
  }

  /** When the page after such a page is one as well, it erases again, and what was just written is lost. */
  lemma FirstPageIsLost(mem: seq<byte>, addr: nat, need: nat, data: seq<byte>, lo: nat)
    requires TopPage(addr, lo) && need <= addr && addr + |data| <= 0x1_0000_0000 && addr < |mem|
    requires TopPage(NextPage(addr), lo) && NextPage(addr) < addr + |data|
    ensures ApplyAll(mem, Plan(addr, need, data))[addr] == 0xFF
  {
    hide *;
    var mem2 := TopPageStep(mem, addr, need, data, lo);
    LowerPage(addr, |data|);
    TopPageIsTop(addr, lo);
    ClearedForGood(mem2, addr, NextPage(addr), 0, data[NextPage(addr) - addr..], lo);
  }

  lemma LowerPage(addr: nat, len: nat)
    requires NextPage(addr) < addr + len
    ensures
      var n := NextPage(addr) - addr;
      0 < n < len && OffPages(addr, addr + n, len - n)
  {
  }

  lemma TopPageIsTop(addr: nat, lo: nat)
    requires TopPage(addr, lo)
    ensures lo <= addr < 0xFFFF_FF00
  {
  }

  // ---- how an update comes to such a page ----

  /** Before the last sector nothing is taken to be erased beyond the next of the two bounds. */
  lemma NeedStaysBelow(addr: nat, need: nat, remaining: nat, lo: nat)
    requires lo in {0xFFFF_0000, 0xFFFF_F000} && addr < lo < addr + remaining <= 0x1_0000_0000 && need <= lo
    ensures NextNeed(addr, need, remaining) <= lo && addr + WriteLen(addr, remaining) <= lo
    ensures WriteLen(addr, remaining) < remaining
  {
    hide PageEnd, WriteLen, Erase;
    PageEndIs(addr, remaining);
    PagesBelow(addr, lo);
    EraseStaysBelow(addr, remaining, lo);
  }

  lemma PagesBelow(addr: nat, lo: nat)
    requires lo in {0xFFFF_0000, 0xFFFF_F000} && addr < lo
    ensures addr / 256 * 256 + 256 <= lo && SectorOf(addr) + 4096 <= lo
  {
  }

  lemma EraseStaysBelow(addr: nat, remaining: nat, lo: nat)
    requires lo in {0xFFFF_0000, 0xFFFF_F000} && addr < lo < addr + remaining <= 0x1_0000_0000
    ensures EraseEnd(Erase(addr, remaining)) <= lo
  {
    hide SectorOf, BlockOf;
    PagesBelow(addr, lo);
    BlocksBelow(addr);
  }

  /** An update that goes past `lo` arrives there with everything from `lo` on taken to be not erased yet. */
  lemma {:induction false} ArrivesAt(mem: seq<byte>, addr: nat, need: nat, data: seq<byte>, lo: nat)
    returns (mem': seq<byte>, need': nat)
    requires lo in {0xFFFF_0000, 0xFFFF_F000} && addr <= lo < addr + |data| <= 0x1_0000_0000 && need <= lo
    ensures |mem'| == |mem| && need' <= lo
    ensures ApplyAll(mem, Plan(addr, need, data)) == ApplyAll(mem', Plan(lo, need', data[lo - addr..]))
    decreases |data|
  {
    hide *;
    mem', need' := mem, need;
    if addr < lo {
      var n := WriteLen(addr, |data|);
      NeedStaysBelow(addr, need, |data|, lo);
      PageEndIs(addr, |data|);
      PlanStep(mem, addr, need, data);
      var mem2 := Programmed(AfterErase(mem, addr, need, |data|), addr, data[..n]);
      mem', need' := ArrivesAt(mem2, addr + n, NextNeed(addr, need, |data|), data[n..], lo);
      assert data[n..][lo - (addr + n)..] == data[lo - addr..];
    } else {
      assert data[0..] == data;
    }
  }

  /** An update that touches the first sector of the last block but not its last sector wipes the latter. */
  lemma LastSectorIsWiped(mem: seq<byte>, addr: nat, data: seq<byte>)
    requires data != [] && addr < 0xFFFF_1000 && 0xFFFF_0000 < addr + |data| <= 0xFFFF_F000 && |mem| == 0x1_0000_0000
    ensures ApplyAll(mem, Plan(addr, addr, data))[0xFFFF_F000] == 0xFF
  {
    hide Plan, ApplyAll;
    if addr < 0xFFFF_0000 {
      var mem', need' := ArrivesAt(mem, addr, addr, data, 0xFFFF_0000);
      ClearedForGood(mem', 0xFFFF_F000, 0xFFFF_0000, need', data[0xFFFF_0000 - addr..], 0xFFFF_0000);
    } else {
      ClearedForGood(mem, 0xFFFF_F000, addr, addr, data, 0xFFFF_0000);
    }
  }

  /** The first byte at or after `lo` is lost when the pages after it make another erase. */
  lemma FirstByteIsLost(mem: seq<byte>, addr: nat, data: seq<byte>, lo: nat)
    requires lo in {0xFFFF_0000, 0xFFFF_F000} && lo < addr + |data| <= 0x1_0000_0000 && |mem| == 0x1_0000_0000
    requires
      var s := if addr < lo then lo else addr;
      TopPage(s, lo) && TopPage(NextPage(s), lo) && NextPage(s) < addr + |data|
    ensures ApplyAll(mem, Plan(addr, addr, data))[if addr < lo then lo else addr] == 0xFF
  {
    hide Plan, ApplyAll, NextPage;
    if addr < lo {
      var mem', need' := ArrivesAt(mem, addr, addr, data, lo);
      FirstPageIsLost(mem', lo, need', data[lo - addr..], lo);
    } else {
      FirstPageIsLost(mem, addr, addr, data, lo);
    }
  }

  /** An update inside the last page erases nothing. */
  lemma NothingIsErased(mem: seq<byte>, addr: nat, data: seq<byte>)
    requires 0xFFFF_FF00 <= addr && data != [] && addr + |data| <= 0x1_0000_0000 == |mem|
    ensures ApplyAll(mem, Plan(addr, addr, data))[0xFFFF_F000] == mem[0xFFFF_F000]
  {
    hide Plan, Programmed;
    LastPagePlan(addr, addr, data);
    ProgramKeepsOtherPages(mem, 0xFFFF_F000, addr, data);
    assert [Program(addr, data)][1..] == [];
  }

  predicate NoneErased(s: seq<byte>) {
    forall i :: 0 <= i < |s| ==> s[i] != 0xFF
  }

  /** What an updated flash holds in the range, at the start of its last sector, and after its last sector. */
  lemma UpdatedAt(mem: seq<byte>, addr: nat, data: seq<byte>, i: nat)
    requires data != [] && addr + |data| <= 0x1_0000_0000 == |mem| && i < |mem|
    ensures addr <= i < addr + |data| ==> UpdatedFlash(mem, addr, data)[i] == data[i - addr]
    ensures i == 0xFFFF_F000 >= addr + |data| ==> UpdatedFlash(mem, addr, data)[i] == mem[i]
    ensures i == 0xFFFF_F000 < addr < 0x1_0000_0000 ==> UpdatedFlash(mem, addr, data)[i] == 0xFF
  {
    if 0xFFFF_F000 >= addr + |data| {
      SectorsEndBelow(addr + |data|, 0xFFFF_F000);
    }
    if 0xFFFF_F000 < addr < 0x1_0000_0000 {
      assert SectorOf(addr) == 0xFFFF_F000;
      EndsAtLeast(addr, addr + |data|);
    }
    hide SectorOf, SectorsEnd;
  }

  /** Out of range, every update of every flash goes wrong, if only neither holds 0xFF bytes. */
  lemma UpdateFails(mem: seq<byte>, addr: nat, data: seq<byte>)
    requires data != [] && addr + |data| <= 0x1_0000_0000 == |mem| && NoneErased(mem) && NoneErased(data)
    requires !InRange(true, addr, |data|)
    ensures ApplyAll(mem, Plan(addr, addr, data)) != UpdatedFlash(mem, addr, data)
  {
    hide Plan, ApplyAll, UpdatedFlash;
    var end := addr + |data|;
    UpdatedAt(mem, addr, data, 0xFFFF_F000);
    if end <= 0xFFFF_F000 {
      LastSectorIsWiped(mem, addr, data);
    } else if addr >= 0xFFFF_FF00 {
      NothingIsErased(mem, addr, data);
    } else {
      var lo := if addr < 0xFFFF_0F00 then 0xFFFF_0000 else 0xFFFF_F000;
      UpdatedAt(mem, addr, data, if addr < lo then lo else addr);
      FirstByteIsLost(mem, addr, data, lo);
    }
  }

  // ---- the exact condition ----

  /** An update sends only what can be addressed, in range or not. */
  lemma {:induction false} PlanIsSendable(addr: nat, need: nat, data: seq<byte>)
    requires addr < 0x1_0000_0000 && addr + |data| <= 0x1_0000_0000
    ensures forall c :: c in Plan(addr, need, data) ==> Sendable(true, c)
    decreases |data|
  {
    hide PageEnd, WriteLen;
    if data != [] {
      var n, next := WriteLen(addr, |data|), (addr + WriteLen(addr, |data|)) % 0x1_0000_0000;
      NextAddress(addr, |data|);
      PlanUnfold(addr, need, data);
      assert Erase(addr, |data|).start < 0x1_0000_0000;
      PlanIsSendable(next, NextNeed(addr, need, |data|), data[n..]);
    }
  }

  lemma RunIsPlan(f: Flash, addr: nat, data: seq<byte>)
    requires addr < 0x1_0000_0000 && addr + |data| <= 0x1_0000_0000
    ensures Run(true, f, UpdateTransactions(true, addr, data)).mem == ApplyAll(f.mem, Plan(addr, addr, data))
  {
    hide Plan, ApplyAll, Run, AllTransactions, Sendable;
    PlanIsSendable(addr, addr, data);
    RunCommands(true, f, Plan(addr, addr, data));
  }

  /** Every update of `len` bytes at `addr` leaves every flash of the whole address space updated. */
  ghost predicate AlwaysUpdates(addr: nat, len: nat)
    requires addr < 0x1_0000_0000
  {
    forall f: Flash, data: seq<byte> | |f.mem| == 0x1_0000_0000 && |data| == len ::
      Run(true, f, UpdateTransactions(true, addr, data)).mem == UpdatedFlash(f.mem, addr, data)
  }

  /** With 4-byte addresses, exactly the ranges `InRange` names are always updated. */
  lemma UpdateWorksIff(addr: nat, len: nat)
    requires addr < 0x1_0000_0000 && addr + len <= 0x1_0000_0000
    ensures AlwaysUpdates(addr, len) <==> InRange(true, addr, len)
  {
    hide Run, UpdateTransactions, UpdatedFlash, InRange;
    if InRange(true, addr, len) {
      forall f: Flash, data: seq<byte> | |f.mem| == 0x1_0000_0000 && |data| == len
        ensures Run(true, f, UpdateTransactions(true, addr, data)).mem == UpdatedFlash(f.mem, addr, data)
      {
        UpdateWorks(true, f, addr, data);
      }
    } else {
      var f := Flash(seq(0x1_0000_0000, i => 0), false);
      var data: seq<byte> := seq(len, i => 1);
      EmptyIsInRange(addr, len);
      RunIsPlan(f, addr, data);
      UpdateFails(f.mem, addr, data);
      assert Run(true, f, UpdateTransactions(true, addr, data)).mem != UpdatedFlash(f.mem, addr, data);
    }
  }

  /** No prefix of an update of `len` bytes at `addr` changes any flash outside the sectors of the range. */
  ghost predicate AlwaysContained(addr: nat, len: nat)
    requires addr < 0x1_0000_0000
  {
    forall f: Flash, data: seq<byte>, prefix: seq<Transaction>
      | |f.mem| == 0x1_0000_0000 && |data| == len && prefix <= UpdateTransactions(true, addr, data) ::
      SameOutside(f.mem, Run(true, f, prefix).mem, SectorOf(addr), SectorsEnd(addr + len))
  }

  /** With 4-byte addresses, exactly the ranges `Contained` names always keep the rest of the flash. */
  lemma UpdateIsContainedIff(addr: nat, len: nat)
    requires addr < 0x1_0000_0000 && addr + len <= 0x1_0000_0000
    ensures AlwaysContained(addr, len) <==> Contained(true, addr, len)
  {
    hide Run, UpdateTransactions, SameOutside, SectorOf, SectorsEnd;
    if Contained(true, addr, len) {
      forall f: Flash, data: seq<byte>, prefix: seq<Transaction>
        | |f.mem| == 0x1_0000_0000 && |data| == len && prefix <= UpdateTransactions(true, addr, data)
        ensures SameOutside(f.mem, Run(true, f, prefix).mem, SectorOf(addr), SectorsEnd(addr + len))
      {
        FailedUpdateIsContained(true, f, addr, data, prefix);
      }
    } else {
      var f := Flash(seq(0x1_0000_0000, i => 0), false);
      var data: seq<byte> := seq(len, i => 1);
      RunIsPlan(f, addr, data);
      LastSectorIsWiped(f.mem, addr, data);
      LastSectorIsOutside(f.mem, Run(true, f, UpdateTransactions(true, addr, data)).mem, addr, len);
      assert !SameOutside(f.mem, Run(true, f, UpdateTransactions(true, addr, data)).mem,
                          SectorOf(addr), SectorsEnd(addr + len));
    }
  }

  lemma LastSectorIsOutside(mem: seq<byte>, mem': seq<byte>, addr: nat, len: nat)
    requires |mem| == |mem'| == 0x1_0000_0000 && addr + len <= 0xFFFF_F000
    requires mem[0xFFFF_F000] != mem'[0xFFFF_F000]
    ensures !SameOutside(mem, mem', SectorOf(addr), SectorsEnd(addr + len))
  {
    SectorsEndBelow(addr + len, 0xFFFF_F000);
    hide SectorsEnd;
  }

  lemma EmptyIsInRange(addr: nat, len: nat)
    requires addr < 0x1_0000_0000 && addr + len <= 0x1_0000_0000 && !InRange(true, addr, len)
    ensures len > 0
  {
  }
}
