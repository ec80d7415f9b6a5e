/** Rebuilding the console log from the ring buffer of a panic record (protocol/panic.c). */
module PanicLog {
  import opened Bytes

  // The ring holds 4096 characters; 0xFFFF_FFFF as head marks erased flash.

  /** The characters other than NUL. */
  function Written(s: seq<byte>): seq<byte>
    decreases |s|
  {
    if s == [] then [] else (if s[0] != 0 then [s[0]] else []) + Written(s[1..])
  }

  /** The ring from the head on, once around. */
  function Unrolled(ring: seq<byte>, head: nat): seq<byte>
    requires head <= |ring|
  {
    ring[head..] + ring[..head]
  }

  function ConsoleLog(ring: seq<byte>, uartHead: nat): seq<byte>
    requires |ring| == 4096
  {
    if uartHead == 0xFFFF_FFFF then [] else Written(Unrolled(ring, uartHead % 4096))
  }

  lemma {:induction false} WrittenAppend(a: seq<byte>, b: seq<byte>)
    ensures Written(a + b) == Written(a) + Written(b)
    decreases |a|
  {
    if a == [] {
      assert a + b == b;
    } else {
      assert (a + b)[1..] == a[1..] + b;
      WrittenAppend(a[1..], b);
    }
  }

  lemma WrittenNext(s: seq<byte>, k: nat)
    requires k < |s|
    ensures Written(s[..k + 1]) == Written(s[..k]) + if s[k] != 0 then [s[k]] else []
  {
    WrittenAppend(s[..k], [s[k]]);
    assert s[..k + 1] == s[..k] + [s[k]] && [s[k]][1..] == [];
  }

  lemma UnrolledAt(ring: seq<byte>, head: nat, k: nat)
    requires |ring| == 4096 && head < 4096 && k < 4096
    ensures Unrolled(ring, head)[k] == ring[(head + k) % 4096]
    ensures (head + k + 1) % 4096 == ((head + k) % 4096 + 1) % 4096
    ensures (head + k + 1) % 4096 == head <==> k == 4095
  {
  }

  /** A C string: what comes before the first NUL. */
  function CString(s: seq<byte>): seq<byte>
    decreases |s|
  {
    if s == [] || s[0] == 0 then [] else [s[0]] + CString(s[1..])
  }

  lemma {:induction false} CStringOf(s: seq<byte>, n: nat)
    requires n < |s| && s[n] == 0 && forall i :: 0 <= i < n ==> s[i] != 0
    ensures CString(s) == s[..n]
    decreases n
  {
    if n > 0 {
      CStringOf(s[1..], n - 1);
      assert s[..n] == [s[0]] + s[1..][..n - 1];
    }
  }

  /** libhoth_get_panic_console_log, into a zeroed string of 4097 bytes. */
  method GetConsoleLog(ring: array<byte>, uartHead: nat) returns (console: array<byte>)
    requires ring.Length == 4096
    ensures fresh(console) && console.Length == 4097
    ensures CString(console[..]) == ConsoleLog(ring[..], uartHead)
  {
    console := new byte[4097](_ => 0);
    var cursor := 0;
    if uartHead != 0xFFFF_FFFF {
      hide Written;
      var head := uartHead % 4096;
      NothingWritten();
      ghost var all := Unrolled(ring[..], head);
      hide Unrolled;
      var i := head;
      ghost var seen := 0;
      var again := true;
      while again
        invariant seen <= 4096 && i == (head + seen) % 4096 && (again <==> seen < 4096)
        invariant cursor <= seen && console[..cursor] == Written(all[..seen])
        invariant forall k :: 0 <= k < cursor ==> console[k] != 0
        invariant forall k :: cursor <= k < 4097 ==> console[k] == 0
        decreases 4096 - seen
      {
        var ch := ring[i];
        UnrolledAt(ring[..], head, seen);
        WrittenNext(all, seen);
        if ch != 0 {
          console[cursor] := ch;
          cursor := cursor + 1;
        }
        i := (i + 1) % 4096;
        seen := seen + 1;
        again := i != head;
      }
      assert all[..4096] == all;
    }
    CStringOf(console[..], cursor);
    assert console[..][..cursor] == console[..cursor];
  }

  lemma NothingWritten()
    ensures Written([]) == []
  {
  }

  // ---- the firmware's side ----

  function Blank(): (s: seq<byte>)
    ensures |s| == 4096
  {
    seq(4096, _ => 0)
  }

  /** The ring after a history of characters, each written at the running count modulo its size. */
  function RingAfter(history: seq<byte>): (ring: seq<byte>)
    ensures |ring| == 4096
    decreases |history|
  {
    if history == [] then Blank()
    else
      var n := |history| - 1;
      RingAfter(history[..n])[n % 4096 := history[n]]
  }

  /** A character written at the head moves the window of the last 4096 by one. */
  lemma Slide(ring: seq<byte>, head: nat, c: byte)
    requires |ring| == 4096 && head < 4096
    ensures Unrolled(ring[head := c], (head + 1) % 4096) == Unrolled(ring, head)[1..] + [c]
  {
    var next := ring[head := c];
    if head == 4095 {
      assert Unrolled(next, 0) == next == ring[..4095] + [c];
      assert Unrolled(ring, 4095)[1..] == ring[..4095];
    } else {
      assert next[head + 1..] == ring[head + 1..] && next[..head + 1] == ring[..head] + [c];
      assert Unrolled(ring, head)[1..] == ring[head + 1..] + ring[..head];
    }
  }

  /** Unrolled at the running count, the ring is the last 4096 characters of zeros and the history. */
  lemma {:induction false} RingIsWindow(history: seq<byte>)
    ensures Unrolled(RingAfter(history), |history| % 4096) == (Blank() + history)[|history|..]
    decreases |history|
  {
    if history == [] {
      assert Unrolled(Blank(), 0) == Blank() == (Blank() + [])[0..];
      assert RingAfter([]) == Blank();
    } else {
      var n := |history| - 1;
      var before, c := history[..n], history[n];
      RingIsWindow(before);
      Slide(RingAfter(before), n % 4096, c);
      NextIndex(n);
      assert (Blank() + history)[n + 1..] == (Blank() + before)[n..][1..] + [c];
    }
  }

  lemma IndexTwice(n: nat)
    ensures n % 4096 % 4096 == n % 4096 == n % 0x1_0000_0000 % 4096
  {
  }

  lemma NextIndex(n: nat)
    ensures (n % 4096 + 1) % 4096 == (n + 1) % 4096
  {
  }

  /** The last characters that the ring can still hold. */
  function Last(history: seq<byte>): seq<byte> {
    if |history| <= 4096 then history else history[|history| - 4096..]
  }

  lemma {:induction false} WrittenZeros(s: seq<byte>)
    requires forall i :: 0 <= i < |s| ==> s[i] == 0
    ensures Written(s) == []
    decreases |s|
  {
    if s != [] {
      WrittenZeros(s[1..]);
    }
  }

  lemma {:induction false} WrittenAll(s: seq<byte>)
    requires forall i :: 0 <= i < |s| ==> s[i] != 0
    ensures Written(s) == s
    decreases |s|
  {
    if s != [] {
      WrittenAll(s[1..]);
    }
  }

  lemma WindowWritten(history: seq<byte>)
    ensures Written((Blank() + history)[|history|..]) == Written(Last(history))
  {
    var n := |history|;
    if n <= 4096 {
      assert (Blank() + history)[n..] == Blank()[n..] + history;
      WrittenAppend(Blank()[n..], history);
      WrittenZeros(Blank()[n..]);
    } else {
      assert (Blank() + history)[n..] == history[n - 4096..];
    }
  }

  /**
   * Whether the head is a running 32-bit count, wrapped or not, or an index, the log is the last 4096
   * characters of what was written, without NULs; except that the count 0xFFFF_FFFF is taken for a record
   * that is not there.
   */
  lemma LogIsTail(history: seq<byte>, uartHead: nat)
    requires uartHead == |history| % 0x1_0000_0000 || uartHead == |history| % 4096
    ensures ConsoleLog(RingAfter(history), uartHead)
         == if uartHead == 0xFFFF_FFFF then [] else Written(Last(history))
    ensures (forall i :: 0 <= i < |history| ==> history[i] != 0) ==> Written(Last(history)) == Last(history)
  {
    hide Unrolled, Written, RingAfter;
    assert uartHead % 4096 == |history| % 4096 by { IndexTwice(|history|); }
    RingIsWindow(history);
    WindowWritten(history);
    if forall i :: 0 <= i < |history| ==> history[i] != 0 {
      WrittenAll(Last(history));
    }
  }

  /** A log of NUL-free characters is exactly the last 4096 of them if and only if the head is not 0xFFFF_FFFF. */
  lemma LogIsExact(history: seq<byte>, uartHead: nat)
    requires forall i :: 0 <= i < |history| ==> history[i] != 0
    requires uartHead == |history| % 0x1_0000_0000 || uartHead == |history| % 4096
    ensures ConsoleLog(RingAfter(history), uartHead) == Last(history) <==> uartHead != 0xFFFF_FFFF
  {
    hide ConsoleLog, RingAfter, Written;
    LogIsTail(history, uartHead);
  }
}
