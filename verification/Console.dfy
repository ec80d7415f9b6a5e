/** Escape keys typed at the console, removed in place (protocol/console.c). */
module Console {
  import opened Bytes

  const ESCAPE_CHAR: byte := 20    // Ctrl-T

  predicate IsQuit(c: byte) {
    c == 81 || c == 113    // 'Q' or 'q'
  }

  predicate IsBreak(c: byte) {
    c == 66 || c == 98    // 'B' or 'b'
  }

  datatype Stop = Continue | Quit | Break

  /** What a call makes of its input: the characters kept, the state left behind, and why it stopped. */
  datatype Result = Result(out: seq<byte>, escaped: bool, stop: Stop)

  /** A quit or break escape drops what was kept before it and what comes after it. */
  function Unescape(escaped: bool, s: seq<byte>): Result
    decreases |s|
  {
    if s == [] then Result([], escaped, Continue)
    else if !escaped then
      if s[0] == ESCAPE_CHAR then Unescape(true, s[1..])
      else Keep([s[0]], Unescape(false, s[1..]))
    else if s[0] == ESCAPE_CHAR then Keep([s[0]], Unescape(false, s[1..]))
    else if IsQuit(s[0]) then Result([], false, Quit)
    else if IsBreak(s[0]) then Result([], false, Break)
    else Unescape(false, s[1..])
  }

  function Keep(kept: seq<byte>, r: Result): Result {
    if r.stop.Continue? then r.(out := kept + r.out) else r
  }

  /** The keys, by name: Ctrl-T escapes; after it Q quits, B breaks, Ctrl-T stands for itself, others are dropped. */
  lemma Keys(c: byte, s: seq<byte>)
    ensures c == 0x14 ==> Unescape(false, [c] + s) == Unescape(true, s)
    ensures c != 0x14 ==> Unescape(false, [c] + s) == Keep([c], Unescape(false, s))
    ensures c == 0x14 ==> Unescape(true, [c] + s) == Keep([c], Unescape(false, s))
    ensures c as char in "Qq" ==> Unescape(true, [c] + s) == Result([], false, Quit)
    ensures c as char in "Bb" ==> Unescape(true, [c] + s) == Result([], false, Break)
    ensures c != 0x14 && c as char !in "QqBb" ==> Unescape(true, [c] + s) == Unescape(false, s)
  {
    assert ([c] + s)[1..] == s;
    assert 'Q' as int == 81 && 'q' as int == 113 && 'B' as int == 66 && 'b' as int == 98;
  }

  /** A stop leaves nothing to write and the next call in the unescaped state. */
  lemma {:induction false} StopsAreClean(escaped: bool, s: seq<byte>)
    ensures var r := Unescape(escaped, s); !r.stop.Continue? ==> r.out == [] && !r.escaped
    decreases |s|
  {
    if s != [] {
      StopsAreClean(true, s[1..]);
      StopsAreClean(false, s[1..]);
    }
  }

  /** Input that arrives in two pieces is treated as if it had come in one, up to the first stop. */
  lemma {:induction false} Streaming(escaped: bool, a: seq<byte>, b: seq<byte>)
    ensures
      var first := Unescape(escaped, a);
      Unescape(escaped, a + b)
      == if first.stop.Continue? then Keep(first.out, Unescape(first.escaped, b)) else first
    decreases |a|
  {
    if a == [] {
      assert a + b == b;
      KeepNothing(Unescape(escaped, b));
    } else {
      assert (a + b)[1..] == a[1..] + b && (a + b)[0] == a[0];
      var next := !escaped && a[0] == ESCAPE_CHAR;
      Streaming(next, a[1..], b);
      var rest := Unescape(next, a[1..]);
      KeepTwice([a[0]], rest.out, Unescape(rest.escaped, b));
    }
  }

  lemma KeepNothing(r: Result)
    ensures Keep([], r) == r
  {
    assert [] + r.out == r.out;
  }

  lemma KeepTwice(x: seq<byte>, y: seq<byte>, r: Result)
    ensures Keep(x, Keep(y, r)) == Keep(x + y, r)
  {
    assert x + (y + r.out) == x + y + r.out;
  }

  /** The calls for a list of pieces, one after the other; it ends at the first stop. */
  function UnescapeAll(escaped: bool, pieces: seq<seq<byte>>): Result
    decreases |pieces|
  {
    if pieces == [] then Result([], escaped, Continue)
    else
      var first := Unescape(escaped, pieces[0]);
      if first.stop.Continue? then Keep(first.out, UnescapeAll(first.escaped, pieces[1..])) else first
  }

  function Join(pieces: seq<seq<byte>>): seq<byte>
    decreases |pieces|
  {
    if pieces == [] then [] else pieces[0] + Join(pieces[1..])
  }

  /** However the input is split, successive calls come to what one call would. */
  lemma {:induction false} SplitsDoNotMatter(escaped: bool, pieces: seq<seq<byte>>)
    ensures UnescapeAll(escaped, pieces) == Unescape(escaped, Join(pieces))
    decreases |pieces|
  {
    hide Unescape;
    if pieces == [] {
      NoInput(escaped);
    } else {
      Streaming(escaped, pieces[0], Join(pieces[1..]));
      SplitsDoNotMatter(Unescape(escaped, pieces[0]).escaped, pieces[1..]);
    }
  }

  lemma NoInput(escaped: bool)
    ensures Unescape(escaped, []) == Result([], escaped, Continue)
  {
  }

  /** How to type text so that all of it is sent. */
  function Doubled(text: seq<byte>): seq<byte>
    decreases |text|
  {
    if text == [] then []
    else (if text[0] == ESCAPE_CHAR then [ESCAPE_CHAR, ESCAPE_CHAR] else [text[0]]) + Doubled(text[1..])
  }

  /** Doubling every escape character is undone. */
  lemma {:induction false} DoublingIsUndone(text: seq<byte>)
    ensures Unescape(false, Doubled(text)) == Result(text, false, Continue)
    decreases |text|
  {
    if text != [] {
      DoublingIsUndone(text[1..]);
      var rest := Doubled(text[1..]);
      assert text == [text[0]] + text[1..];
      if text[0] == ESCAPE_CHAR {
        var s := [ESCAPE_CHAR, ESCAPE_CHAR] + rest;
        assert s[1..][1..] == rest && s[1..][0] == ESCAPE_CHAR;
        assert Unescape(false, s) == Unescape(true, s[1..]) == Keep([ESCAPE_CHAR], Unescape(false, rest));
      } else {
        assert ([text[0]] + rest)[1..] == rest;
      }
    }
  }

  /** The console's state across calls: the static `escaped`, and the two flags. */
  class Unescaper {
    var escaped: bool
    var quit: bool
    var uartBreak: bool

    constructor ()
      ensures !escaped && !quit && !uartBreak
    {
      escaped, quit, uartBreak := false, false, false;
    }

    /** unescape: what is kept replaces the front of `buf`; nothing is overwritten before it was read. */
    method Run(buf: array<byte>, len: nat) returns (out: nat)
      requires len <= buf.Length
      modifies this, buf
      ensures
        var r := Unescape(old(escaped), old(buf[..len]));
        && out <= len && buf[..out] == r.out
        && escaped == r.escaped
        && quit == (old(quit) || r.stop.Quit?)
        && uartBreak == (old(uartBreak) || r.stop.Break?)
      ensures buf[len..] == old(buf[len..])
    {
      out := 0;
      ghost var s := buf[..len];
      hide Unescape, Keep;
      Begin(escaped, s);
      for i := 0 to len
        invariant out <= i
        invariant quit == old(quit) && uartBreak == old(uartBreak)
        invariant forall k :: i <= k < buf.Length ==> buf[k] == old(buf[k])
        invariant Unescape(old(escaped), s) == Keep(buf[..out], Unescape(escaped, s[i..]))
      {
        ghost var before := buf[..out];
        var c := buf[i];
        assert c == s[i];
        OneChar(escaped, s, i, before);
        if !escaped {
          if c == ESCAPE_CHAR {
            escaped := true;
          } else {
            out := Put(buf, out, c);
          }
        } else {
          escaped := false;
          if c == ESCAPE_CHAR {
            out := Put(buf, out, c);
          } else if IsQuit(c) {
            quit := true;
            return 0;
          } else if IsBreak(c) {
            uartBreak := true;
            return 0;
          }
        }
      }
      End(escaped, s, buf[..out]);
    }
  }

  /** `buf[out++] = c` */
  method Put(buf: array<byte>, out: nat, c: byte) returns (next: nat)
    requires out < buf.Length
    modifies buf
    ensures next == out + 1 && buf[..next] == old(buf[..out]) + [c]
    ensures forall k :: next <= k < buf.Length ==> buf[k] == old(buf[k])
  {
    buf[out] := c;
    next := out + 1;
  }

  lemma Begin(escaped: bool, s: seq<byte>)
    ensures Unescape(escaped, s) == Keep([], Unescape(escaped, s[0..]))
  {
    assert s[0..] == s;
    KeepNothing(Unescape(escaped, s));
  }

  lemma End(escaped: bool, s: seq<byte>, kept: seq<byte>)
    ensures Keep(kept, Unescape(escaped, s[|s|..])) == Result(kept, escaped, Continue)
  {
    assert kept + [] == kept;
  }

  lemma OneChar(escaped: bool, s: seq<byte>, i: nat, kept: seq<byte>)
    requires i < |s|
    ensures Keep(kept, Unescape(escaped, s[i..])) ==
      if !escaped && s[i] == ESCAPE_CHAR then Keep(kept, Unescape(true, s[i + 1..]))
      else if !escaped || s[i] == ESCAPE_CHAR then Keep(kept + [s[i]], Unescape(false, s[i + 1..]))
      else if IsQuit(s[i]) then Result([], false, Quit)
      else if IsBreak(s[i]) then Result([], false, Break)
      else Keep(kept, Unescape(false, s[i + 1..]))
  {
    assert s[i..][0] == s[i] && s[i..][1..] == s[i + 1..];
    KeepTwice(kept, [s[i]], Unescape(false, s[i + 1..]));
  }
}
