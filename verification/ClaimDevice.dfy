/** Claiming a device with exponential backoff (libhoth_claim_device). */
module ClaimDevice {
  import opened Bytes

  type u32 = n: int | 0 <= n < 0x1_0000_0000

  datatype Outcome = Claimed | Busy | Failed(code: int)

  /** The k-th sleep: 10 ms doubled k times, but always less than a second, which is usleep's limit. */
  function Sleep(k: nat): nat {
    if k < 7 then 10_000 * Pow2(k) else 999_999
  }

  /** All sleeps before attempt n. */
  function Slept(n: nat): nat {
    if n == 0 then 0 else Slept(n - 1) + Sleep(n - 1)
  }

  /** In numbers: seven sleeps that double from 10 ms, then sleeps of just under a second. */
  lemma {:induction false} SleptIs(n: nat)
    ensures Slept(n) == if n <= 7 then 10_000 * (Pow2(n) - 1) else 1_270_000 + 999_999 * (n - 7)
    decreases n
  {
    if n > 0 {
      SleptIs(n - 1);
      assert Pow2(3) == 8 && Pow2(5) == 32 && Pow2(7) == 128;
    }
  }

  lemma SleepStep(k: nat)
    ensures 10_000 <= Sleep(k) <= 999_999
    ensures Sleep(k + 1) == if Sleep(k) <= 499_999 then Sleep(k) * 2 else 999_999
    ensures Sleep(0) == 10_000
  {
    assert Pow2(3) == 8 && Pow2(5) == 32;
    if k < 7 {
      assert k == 0 || k == 1 || k == 2 || k == 3 || k == 4 || k == 5 || k == 6;
    }
  }

  lemma {:induction false} SleptGrows(n: nat, m: nat)
    requires n <= m
    ensures Slept(n) + 10_000 * (m - n) <= Slept(m)
    decreases m
  {
    if n < m {
      SleptGrows(n, m - 1);
      SleepStep(m - 1);
    }
  }

  /** The attempts that a timeout allows: the first one after which the sleeps add up to it. */
  function Attempts(timeout: nat, from: nat): (n: nat)
    requires from > 0 ==> Slept(from - 1) < timeout
    ensures n >= from && Slept(n) >= timeout && (n > 0 ==> Slept(n - 1) < timeout)
    decreases timeout - Slept(from)
  {
    if Slept(from) >= timeout then from
    else
      SleepStep(from);
      Attempts(timeout, from + 1)
  }

  /** However long the timeout, the sleeps end less than one longest sleep after it. */
  lemma SleptBound(timeout: nat)
    ensures timeout > 0 ==> timeout <= Slept(Attempts(timeout, 0)) < timeout + 999_999
    ensures timeout == 0 ==> Attempts(timeout, 0) == 0
    ensures Attempts(timeout, 0) <= timeout / 10_000 + 1
  {
    var n := Attempts(timeout, 0);
    if n > 0 {
      SleepStep(n - 1);
      SleptGrows(0, n - 1);
    }
  }

  /** Attempt k is the first that is not busy. */
  predicate FirstAnswer(outcomes: nat -> Outcome, k: nat) {
    outcomes(k) != Busy && forall j :: 0 <= j < k ==> outcomes(j) == Busy
  }

  /**
   * libhoth_claim_device, when attempt k of claiming would come to `outcomes(k)`. It returns the first answer
   * other than busy if that comes within the attempts that the timeout allows, and busy otherwise; `slept` is
   * the exact time spent asleep, and every addition and doubling stays within 32 bits.
   */
  method Claim(outcomes: nat -> Outcome, timeout: u32) returns (result: Outcome, slept: nat, attempts: nat)
    ensures 0 < attempts <= Attempts(timeout, 0) + 1 && slept == Slept(attempts - 1)
    ensures FirstAnswer(outcomes, attempts - 1) ==> result == outcomes(attempts - 1)
    ensures result == Busy ==> attempts == Attempts(timeout, 0) + 1
    ensures result != Busy ==> FirstAnswer(outcomes, attempts - 1)
    ensures result == Busy <==> forall k :: 0 <= k <= Attempts(timeout, 0) ==> outcomes(k) == Busy
    ensures slept < timeout + 999_999
    ensures slept == if attempts <= 8 then 10_000 * (Pow2(attempts - 1) - 1) else 1_270_000 + 999_999 * (attempts - 8)
  {
    hide Pow2, Sleep;
    var wait: u32 := 10_000;
    var total: u32 := 0;
    slept := 0;
    attempts := 0;
    ghost var most := Attempts(timeout, 0);
    SleepStep(0);
    SleptBound(timeout);
    while true
      invariant attempts <= most && slept == Slept(attempts) && wait == Sleep(attempts)
      invariant total == if slept < 0x1_0000_0000 then slept else 0xFFFF_FFFF
      invariant forall j :: 0 <= j < attempts ==> outcomes(j) == Busy
      decreases most - attempts
    {
      result := outcomes(attempts);
      attempts := attempts + 1;
      SleepStep(attempts - 1);
      SleptIs(attempts - 1);
      if result != Busy {
        assert slept < timeout + 999_999 by { SleptGrows(attempts - 1, most); }
        return;
      }
      if total >= timeout {
        assert attempts == most + 1 by { if attempts - 1 < most { SleptGrows(attempts - 1, most - 1); } }
        return;
      }
      slept := slept + wait;
      if total <= 0xFFFF_FFFF - wait {
        total := total + wait;
      } else {
        total := 0xFFFF_FFFF;
      }
      if wait <= 999_999 / 2 {
        wait := wait * 2;
      } else {
        wait := 999_999;
      }
    }
  }
}
