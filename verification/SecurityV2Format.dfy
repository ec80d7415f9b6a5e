/** The parameter format of SecurityV2 requests and responses (examples/htool_security_v2.h). */
module SecurityV2Format {
  import opened Bytes

  /** The parameters that were read and the bytes that follow them. */
  datatype Parsed = Parsed(params: seq<seq<byte>>, rest: seq<byte>)

  /** padding_size */
  function Padding(size: nat): (p: nat)
    ensures p < 4 && (size + p) % 4 == 0
  {
    if size % 4 == 0 then 0 else 4 - size % 4
  }

  function Zeros(n: nat): (s: seq<byte>)
    ensures |s| == n && forall i :: 0 <= i < n ==> s[i] == 0
  {
    seq(n, _ => 0)
  }

  /** The bytes that a parameter of `size` bytes takes up. */
  function ParamSize(size: nat): nat {
    4 + size + Padding(size)
  }

  /** A parameter: size, two reserved zero bytes, value, zero padding. */
  function EncodeParam(p: seq<byte>): (s: seq<byte>)
    ensures |s| == ParamSize(|p|)
  {
    Le16(|p|) + Zeros(2) + p + Zeros(Padding(|p|))
  }

  function EncodeParams(ps: seq<seq<byte>>): seq<byte>
    decreases |ps|
  {
    if ps == [] then [] else EncodeParam(ps[0]) + EncodeParams(ps[1..])
  }

  /** A response: parameter count, two reserved zero bytes, parameters. */
  function EncodeResponse(ps: seq<seq<byte>>): seq<byte> {
    Le16(|ps|) + Zeros(2) + EncodeParams(ps)
  }

  /** One response in bytes: two parameters, of three bytes and of none. */
  lemma ResponseInBytes(a: byte, b: byte, c: byte)
    ensures EncodeResponse([[a, b, c], []]) == [2, 0, 0, 0, 3, 0, 0, 0, a, b, c, 0, 0, 0, 0, 0]
  {
    var first, second: seq<byte> := [a, b, c], [];
    assert EncodeParam(first) == [3, 0, 0, 0, a, b, c, 0] && EncodeParam(second) == [0, 0, 0, 0];
    assert [first, second][1..] == [second] && [second][1..] == [];
    assert EncodeParams([second]) == EncodeParam(second) + [];
  }

  /** The size stands first, least significant byte first; then two zeros, the value, and zeros. */
  lemma ParamInBytes(p: seq<byte>, a: byte, b: byte)
    requires |p| == 0x100 * b + a
    ensures EncodeParam(p) == [a, b, 0, 0] + p + seq((4 - |p| % 4) % 4, _ => 0)
  {
    assert |p| % 256 == a && |p| / 256 == b;
  }

  // ---- the strict reading ----

  function ParseParam(s: seq<byte>): Option<Parsed> {
    if |s| < 4 then None
    else
      var size := FromLe16(s[0], s[1]);
      if s[2..4] != Zeros(2) then None
      else if |s| - 4 < size then None
      else if |s| - 4 - size < Padding(size) then None
      else if s[4 + size..ParamSize(size)] != Zeros(Padding(size)) then None
      else Some(Parsed([s[4..4 + size]], s[ParamSize(size)..]))
  }

  function ParseParams(s: seq<byte>, count: nat): (r: Option<Parsed>)
    ensures r.Some? ==> |r.value.params| == count
    decreases count
  {
    if count == 0 then Some(Parsed([], s))
    else
      match ParseParam(s)
      case None => None
      case Some(first) =>
        match ParseParams(first.rest, count - 1)
        case None => None
        case Some(more) => Some(Parsed(first.params + more.params, more.rest))
  }

  function ParseResponse(s: seq<byte>, count: nat): Option<Parsed> {
    if |s| < 4 || s[2..4] != Zeros(2) || FromLe16(s[0], s[1]) != count then None
    else ParseParams(s[4..], count)
  }

  lemma EncodedParts(p: seq<byte>, tail: seq<byte>)
    ensures
      var s := EncodeParam(p) + tail;
      && s[..2] == Le16(|p|) && s[2..4] == Zeros(2) && s[4..4 + |p|] == p
      && s[4 + |p|..ParamSize(|p|)] == Zeros(Padding(|p|)) && s[ParamSize(|p|)..] == tail
  {
    hide Le16, Zeros, Padding;
  }

  lemma ParseOneEncoded(p: seq<byte>, tail: seq<byte>)
    requires |p| < 0x1_0000
    ensures ParseParam(EncodeParam(p) + tail) == Some(Parsed([p], tail))
  {
    hide Le16, Zeros, Padding, FromLe16, EncodeParam;
    var s := EncodeParam(p) + tail;
    EncodedParts(p, tail);
    Le16RoundTrip(|p|);
    assert s[0] == s[..2][0] && s[1] == s[..2][1];
  }

  /** Parameters that were laid out are read back as they were, whatever follows them. */
  lemma {:induction false} ParseEncoded(ps: seq<seq<byte>>, tail: seq<byte>)
    requires forall p :: p in ps ==> |p| < 0x1_0000
    ensures ParseParams(EncodeParams(ps) + tail, |ps|) == Some(Parsed(ps, tail))
    decreases |ps|
  {
    hide EncodeParam, ParseParam, Le16, Zeros, ParamSize, Padding;
    if ps == [] {
      assert EncodeParams(ps) + tail == tail;
    } else {
      assert ps[0] in ps;
      var rest := EncodeParams(ps[1..]) + tail;
      assert EncodeParams(ps) + tail == EncodeParam(ps[0]) + rest;
      ParseOneEncoded(ps[0], rest);
      ParseEncoded(ps[1..], tail);
      assert ps == [ps[0]] + ps[1..];
    }
  }

  lemma EncodeOneParsed(s: seq<byte>)
    requires ParseParam(s).Some?
    ensures
      var r := ParseParam(s).value;
      |r.params| == 1 && |r.params[0]| < 0x1_0000 && s == EncodeParam(r.params[0]) + r.rest
  {
    var size := FromLe16(s[0], s[1]);
    Le16Canonical(s[0], s[1]);
    assert s[..2] == Le16(size);
    assert s == s[..2] + s[2..4] + s[4..4 + size] + s[4 + size..ParamSize(size)] + s[ParamSize(size)..];
  }

  lemma {:induction false} ParamsAreAligned(ps: seq<seq<byte>>)
    ensures |EncodeParams(ps)| % 4 == 0 && |EncodeParams(ps)| == ParamsSize(ps)
    decreases |ps|
  {
    hide EncodeParam;
    if ps != [] {
      ParamsAreAligned(ps[1..]);
    }
  }

  /** What the strict reading accepts is the one layout of what it read. */
  lemma {:induction false} EncodeParsed(s: seq<byte>, count: nat)
    requires ParseParams(s, count).Some?
    ensures
      var r := ParseParams(s, count).value;
      && s == EncodeParams(r.params) + r.rest
      && forall p :: p in r.params ==> |p| < 0x1_0000
    decreases count
  {
    hide EncodeParam, ParseParam;
    if count == 0 {
      assert s == EncodeParams([]) + s;
    } else {
      EncodeOneParsed(s);
      var first := ParseParam(s).value;
      EncodeParsed(first.rest, count - 1);
      var more := ParseParams(first.rest, count - 1).value;
      assert ([first.params[0]] + more.params)[1..] == more.params;
      assert first.params == [first.params[0]];
    }
  }

  /** A response is accepted exactly when it begins with the encoding of as many parameters as expected. */
  lemma ResponseIsEncoding(s: seq<byte>, ps: seq<seq<byte>>, rest: seq<byte>)
    requires |ps| < 0x1_0000 && forall p :: p in ps ==> |p| < 0x1_0000
    ensures ParseResponse(s, |ps|) == Some(Parsed(ps, rest)) <==> s == EncodeResponse(ps) + rest
  {
    hide EncodeParams, ParseParams;
    Le16RoundTrip(|ps|);
    if s == EncodeResponse(ps) + rest {
      assert s[..2] == Le16(|ps|) && s[2..4] == Zeros(2) && s[4..] == EncodeParams(ps) + rest;
      ParseEncoded(ps, rest);
    }
    if ParseResponse(s, |ps|) == Some(Parsed(ps, rest)) {
      EncodeParsed(s[4..], |ps|);
      Le16Canonical(s[0], s[1]);
      assert s[..2] == Le16(|ps|);
      assert s == s[..2] + s[2..4] + s[4..];
    }
  }

  // ---- the lax reading ----

  /** Parameters of the expected sizes; reserved and padding bytes are not looked at. */
  function ParseLax(s: seq<byte>, sizes: seq<nat>): Option<Parsed>
    decreases |sizes|
  {
    if sizes == [] then Some(Parsed([], s))
    else if |s| < 4 || FromLe16(s[0], s[1]) != sizes[0] || |s| < ParamSize(sizes[0]) then None
    else
      match ParseLax(s[ParamSize(sizes[0])..], sizes[1..])
      case None => None
      case Some(more) => Some(Parsed([s[4..4 + sizes[0]]] + more.params, more.rest))
  }

  function Sizes(ps: seq<seq<byte>>): (r: seq<nat>)
    ensures |r| == |ps|
  {
    seq(|ps|, i requires 0 <= i < |ps| => |ps[i]|)
  }

  /** The lax reading agrees with the strict one wherever that accepts. */
  lemma {:induction false} LaxAgrees(s: seq<byte>, count: nat)
    requires ParseParams(s, count).Some?
    ensures ParseLax(s, Sizes(ParseParams(s, count).value.params)) == ParseParams(s, count)
    decreases count
  {
    if count != 0 {
      var first := ParseParam(s).value;
      LaxAgrees(first.rest, count - 1);
      hide ParseParams, ParseLax;
      var more := ParseParams(first.rest, count - 1).value;
      LaxStep(s, first.params[0], more.params);
    }
  }

  lemma LaxStep(s: seq<byte>, first: seq<byte>, more: seq<seq<byte>>)
    ensures Sizes([first] + more)[0] == |first| && Sizes([first] + more)[1..] == Sizes(more)
  {
  }

  // ---- what the serializer writes ----

  /** It writes sizes and values, and leaves the reserved and padding bytes as they were. */
  function OverlayParam(was: seq<byte>, p: seq<byte>): (s: seq<byte>)
    requires |was| == ParamSize(|p|)
    ensures |s| == |was|
  {
    Le16(|p|) + was[2..4] + p + was[4 + |p|..]
  }

  function ParamsSize(ps: seq<seq<byte>>): nat
    decreases |ps|
  {
    if ps == [] then 0 else ParamSize(|ps[0]|) + ParamsSize(ps[1..])
  }

  function Overlay(was: seq<byte>, ps: seq<seq<byte>>): (s: seq<byte>)
    requires |was| == ParamsSize(ps)
    ensures |s| == |was|
    decreases |ps|
  {
    if ps == [] then []
    else
      var n := ParamSize(|ps[0]|);
      OverlayParam(was[..n], ps[0]) + Overlay(was[n..], ps[1..])
  }

  lemma {:induction false} ParamsSizeAppend(a: seq<seq<byte>>, b: seq<seq<byte>>)
    ensures ParamsSize(a + b) == ParamsSize(a) + ParamsSize(b)
    decreases |a|
  {
    if a == [] {
      assert a + b == b;
    } else {
      assert (a + b)[1..] == a[1..] + b;
      ParamsSizeAppend(a[1..], b);
    }
  }

  lemma OverlayCons(was: seq<byte>, p: seq<byte>, ps: seq<seq<byte>>)
    ensures ParamsSize([p] + ps) == ParamSize(|p|) + ParamsSize(ps) && ParamsSize([p]) == ParamSize(|p|)
    ensures |was| == ParamsSize([p] + ps) ==>
      Overlay(was, [p] + ps) == OverlayParam(was[..ParamSize(|p|)], p) + Overlay(was[ParamSize(|p|)..], ps)
  {
    hide OverlayParam, ParamSize;
    assert ([p] + ps)[1..] == ps && [p][1..] == [];
  }

  lemma NoOverlay()
    ensures ParamsSize([]) == 0 && Overlay([], []) == []
  {
  }

  lemma {:induction false} OverlaySnoc(was: seq<byte>, ps: seq<seq<byte>>, last: seq<byte>, p: seq<byte>)
    requires |was| == ParamsSize(ps) && |last| == ParamSize(|p|)
    ensures ParamsSize(ps + [p]) == |was + last|
    ensures Overlay(was + last, ps + [p]) == Overlay(was, ps) + OverlayParam(last, p)
    decreases |ps|
  {
    hide OverlayParam, ParamSize, ParamsSize, Overlay;
    NoOverlay();
    ParamsSizeAppend(ps, [p]);
    OverlayCons(last, p, []);
    if ps == [] {
      assert was + last == last && last[..|last|] == last && last[|last|..] == [] && [p] + [] == [p] == ps + [p];
    } else {
      var q, rest := ps[0], ps[1..];
      var n := ParamSize(|q|);
      assert ps == [q] + rest && ps + [p] == [q] + (rest + [p]);
      OverlayCons(was, q, rest);
      OverlaySnoc(was[n..], rest, last, p);
      OverlayCons(was + last, q, rest + [p]);
      assert (was + last)[..n] == was[..n] && (was + last)[n..] == was[n..] + last;
    }
  }

  /** The reserved and padding bytes of a parameter's place. */
  predicate SlotIsClean(was: seq<byte>, p: seq<byte>)
    requires |was| == ParamSize(|p|)
  {
    was[2..4] == Zeros(2) && was[4 + |p|..] == Zeros(Padding(|p|))
  }

  /** All the reserved and padding bytes of the parameters' places are zero. */
  predicate GapsAreZero(was: seq<byte>, ps: seq<seq<byte>>)
    requires |was| == ParamsSize(ps)
    decreases |ps|
  {
    ps == [] ||
    (SlotIsClean(was[..ParamSize(|ps[0]|)], ps[0]) && GapsAreZero(was[ParamSize(|ps[0]|)..], ps[1..]))
  }

  lemma OneOverlayIsCanonicalIff(was: seq<byte>, p: seq<byte>)
    requires |was| == ParamSize(|p|)
    ensures OverlayParam(was, p) == EncodeParam(p) <==> SlotIsClean(was, p)
  {
    var s, e := OverlayParam(was, p), EncodeParam(p);
    assert s[2..4] == was[2..4] && s[4 + |p|..] == was[4 + |p|..];
    assert e[2..4] == Zeros(2) && e[4 + |p|..] == Zeros(Padding(|p|));
  }

  lemma SplitsAlike(a: seq<byte>, b: seq<byte>, c: seq<byte>, d: seq<byte>)
    requires |a| == |c|
    ensures a + b == c + d <==> a == c && b == d
  {
    assert (a + b)[..|a|] == a && (a + b)[|a|..] == b;
    assert (c + d)[..|c|] == c && (c + d)[|c|..] == d;
  }

  /** It writes the canonical layout exactly over zero reserved and padding bytes. */
  lemma {:induction false} OverlayIsCanonicalIff(was: seq<byte>, ps: seq<seq<byte>>)
    requires |was| == ParamsSize(ps)
    ensures Overlay(was, ps) == EncodeParams(ps) <==> GapsAreZero(was, ps)
    decreases |ps|
  {
    hide OverlayParam, EncodeParam, SlotIsClean, ParamSize;
    if ps != [] {
      var n := ParamSize(|ps[0]|);
      OneOverlayIsCanonicalIff(was[..n], ps[0]);
      OverlayIsCanonicalIff(was[n..], ps[1..]);
      SplitsAlike(OverlayParam(was[..n], ps[0]), Overlay(was[n..], ps[1..]),
                  EncodeParam(ps[0]), EncodeParams(ps[1..]));
    }
  }

  /** So the strict reading takes back what was serialized exactly over such bytes ... */
  lemma StrictReadsOverlayIff(was: seq<byte>, ps: seq<seq<byte>>, tail: seq<byte>)
    requires |was| == ParamsSize(ps) && forall p :: p in ps ==> |p| < 0x1_0000
    ensures ParseParams(Overlay(was, ps) + tail, |ps|) == Some(Parsed(ps, tail)) <==> GapsAreZero(was, ps)
  {
    hide Overlay, EncodeParams, ParseParams, GapsAreZero;
    OverlayIsCanonicalIff(was, ps);
    ParamsAreAligned(ps);
    SplitsAlike(Overlay(was, ps), tail, EncodeParams(ps), tail);
    if Overlay(was, ps) == EncodeParams(ps) {
      ParseEncoded(ps, tail);
    }
    if ParseParams(Overlay(was, ps) + tail, |ps|) == Some(Parsed(ps, tail)) {
      EncodeParsed(Overlay(was, ps) + tail, |ps|);
    }
  }

  /** ... such as zeros ... */
  lemma {:induction false} ZerosHaveZeroGaps(ps: seq<seq<byte>>)
    ensures GapsAreZero(Zeros(ParamsSize(ps)), ps)
    decreases |ps|
  {
    if ps != [] {
      var n := ParamSize(|ps[0]|);
      var was := Zeros(ParamsSize(ps));
      assert was[..n] == Zeros(n) && was[n..] == Zeros(ParamsSize(ps[1..]));
      assert was[..n][2..4] == Zeros(2) && was[..n][4 + |ps[0]|..] == Zeros(Padding(|ps[0]|));
      ZerosHaveZeroGaps(ps[1..]);
    }
  }

  lemma OverlayOfZeros(ps: seq<seq<byte>>)
    ensures Overlay(Zeros(ParamsSize(ps)), ps) == EncodeParams(ps)
  {
    ZerosHaveZeroGaps(ps);
    OverlayIsCanonicalIff(Zeros(ParamsSize(ps)), ps);
  }

  /** ... but not over erased memory, where already one empty parameter is refused. */
  lemma ErasedMemoryIsRefused(tail: seq<byte>)
    ensures ParseParams(Overlay([0xFF, 0xFF, 0xFF, 0xFF], [[]]) + tail, 1).None?
  {
    var was: seq<byte> := [0xFF, 0xFF, 0xFF, 0xFF];
    NoOverlay();
    OverlayCons(was, [], []);
    assert Overlay(was, [[]]) == OverlayParam(was, []) + [] == [0, 0, 0xFF, 0xFF];
    var s := [0, 0, 0xFF, 0xFF] + tail;
    assert s[2..4][0] == 0xFF;
    assert ParseParam(s).None?;
  }

  lemma LaxReadsOne(was: seq<byte>, p: seq<byte>, rest: seq<byte>)
    requires |was| == ParamSize(|p|) && |p| < 0x1_0000
    ensures
      var s := OverlayParam(was, p) + rest;
      |s| >= ParamSize(|p|) && FromLe16(s[0], s[1]) == |p| && s[4..4 + |p|] == p && s[ParamSize(|p|)..] == rest
  {
    Le16RoundTrip(|p|);
    var s := OverlayParam(was, p) + rest;
    assert s[..2] == Le16(|p|);
  }

  /** Over anything, the lax reading finds the parameters again. */
  lemma {:induction false} LaxReadsOverlay(was: seq<byte>, ps: seq<seq<byte>>, tail: seq<byte>)
    requires |was| == ParamsSize(ps) && forall p :: p in ps ==> |p| < 0x1_0000
    ensures ParseLax(Overlay(was, ps) + tail, Sizes(ps)) == Some(Parsed(ps, tail))
    decreases |ps|
  {
    hide OverlayParam, Sizes;
    if ps == [] {
      assert Overlay(was, ps) + tail == tail;
    } else {
      assert ps[0] in ps;
      var n := ParamSize(|ps[0]|);
      var rest := Overlay(was[n..], ps[1..]) + tail;
      assert Overlay(was, ps) + tail == OverlayParam(was[..n], ps[0]) + rest;
      LaxReadsOne(was[..n], ps[0], rest);
      assert ps == [ps[0]] + ps[1..];
      LaxStep(Overlay(was, ps) + tail, ps[0], ps[1..]);
      LaxReadsOverlay(was[n..], ps[1..], tail);
    }
  }
}
