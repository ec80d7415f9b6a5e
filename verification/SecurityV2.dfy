/** Serializing SecurityV2 requests and reading the responses (examples/htool_security_v2.c). */
module SecurityV2 {
  import opened Bytes
  import opened SecurityV2Format

  /** `struct security_v2_buffer`; both counters are 16 bits wide. */
  class Buffer {
    const data: array<byte>
    var size: nat
    var bytesConsumed: nat

    ghost predicate Valid()
      reads this
    {
      size <= data.Length && size < 0x1_0000 && bytesConsumed < 0x1_0000
    }

    /** The bytes not consumed yet. */
    ghost function Left(): seq<byte>
      requires Valid() && bytesConsumed <= size
      reads this, data
    {
      data[bytesConsumed..size]
    }

    constructor (storage: array<byte>)
      requires storage.Length < 0x1_0000
      ensures Valid() && data == storage && size == storage.Length && bytesConsumed == 0
    {
      data, size, bytesConsumed := storage, storage.Length, 0;
    }

    /** consume_bytes: the start of the bytes taken, or None when there are not so many left. */
    method Consume(bytes: nat) returns (start: Option<nat>)
      requires Valid() && bytes < 0x1_0000
      modifies this`bytesConsumed
      ensures Valid()
      ensures start == if old(bytesConsumed) <= size && bytes <= size - old(bytesConsumed)
                       then Some(old(bytesConsumed)) else None
      ensures bytesConsumed == old(bytesConsumed) + if start.Some? then bytes else 0
      ensures start.Some? ==> bytesConsumed <= size
    {
      if bytesConsumed > size || size - bytesConsumed < bytes {
        return None;
      }
      start := Some(bytesConsumed);
      bytesConsumed := bytesConsumed + bytes;
    }
  }

  /** The size of a parameter and its padding as consume_bytes gets it, in 16 bits. */
  function ValueSize(size: nat): nat {
    (size + Padding(size)) % 0x1_0000
  }

  /** The sum wraps for the last three sizes, and then no place at all is asked for. */
  lemma ValueSizeIs(size: nat)
    requires size < 0x1_0000
    ensures ValueSize(size) < 0x1_0000
    ensures size <= 65532 ==> ParamSize(size) == 4 + ValueSize(size) && ValueSize(size) >= size
    ensures size > 65532 ==> ParamSize(size) == 0x1_0004 && ValueSize(size) == 0
  {
    assert Padding(65532) == 0;
  }

  /** `was` with a parameter written at `start`. */
  function WithParam(was: seq<byte>, start: nat, p: seq<byte>): (s: seq<byte>)
    requires start + ParamSize(|p|) <= |was|
    ensures |s| == |was|
  {
    was[..start] + OverlayParam(was[start..start + ParamSize(|p|)], p) + was[start + ParamSize(|p|)..]
  }

  lemma ParamWritten(was: seq<byte>, now: seq<byte>, start: nat, p: seq<byte>)
    requires |was| == |now| && start + ParamSize(|p|) <= |was|
    requires now[start] == |p| % 256 && now[start + 1] == |p| / 256 % 256
    requires forall i :: 0 <= i < |p| ==> now[start + 4 + i] == p[i]
    requires forall i :: 0 <= i < |was| && !(start <= i < start + 2) && !(start + 4 <= i < start + 4 + |p|) ==>
      now[i] == was[i]
    ensures now == WithParam(was, start, p)
  {
    var end := start + ParamSize(|p|);
    var slot := was[start..end];
    forall i | 0 <= i < |was| ensures now[i] == WithParam(was, start, p)[i] {
      if start <= i < end {
        OverlayAt(slot, p, i - start);
        hide OverlayParam, ParamSize;
        assert slot[i - start] == was[i];
        if start + 4 <= i < start + 4 + |p| {
          assert now[start + 4 + (i - start - 4)] == p[i - start - 4];
        }
      }
    }
  }

  lemma OverlayAt(slot: seq<byte>, p: seq<byte>, k: nat)
    requires |slot| == ParamSize(|p|) && k < |slot|
    ensures OverlayParam(slot, p)[k] ==
      if k == 0 then |p| % 256 else if k == 1 then |p| / 256 % 256
      else if 4 <= k < 4 + |p| then p[k - 4] else slot[k]
  {
  }

  /**
   * One parameter of a request. `overrun` says that its value is copied to a place that the buffer does not
   * have: for the three sizes whose sum with the padding wraps, consume_bytes grants it.
   */
  method WriteParam(buffer: Buffer, p: seq<byte>) returns (ok: bool, overrun: bool)
    requires buffer.Valid() && buffer.bytesConsumed <= buffer.size && |p| < 0x1_0000
    modifies buffer`bytesConsumed, buffer.data
    ensures buffer.Valid() && buffer.bytesConsumed <= buffer.size
    ensures ok <==> old(buffer.bytesConsumed) + ParamSize(|p|) <= buffer.size
    ensures overrun <==> |p| > 65532 && old(buffer.bytesConsumed) + 4 <= buffer.size
    ensures ok ==>
      && buffer.bytesConsumed == old(buffer.bytesConsumed) + ParamSize(|p|)
      && buffer.data[..] == WithParam(old(buffer.data[..]), old(buffer.bytesConsumed), p)
  {
    hide WithParam, ParamSize, ValueSize;
    ValueSizeIs(|p|);
    ghost var was, start := buffer.data[..], buffer.bytesConsumed;
    var header := buffer.Consume(4);
    if header.None? {
      return false, false;
    }
    buffer.data[header.value], buffer.data[header.value + 1] := |p| % 256, |p| / 256 % 256;
    var value := buffer.Consume(ValueSize(|p|));
    if value.None? {
      return false, false;
    }
    if value.value + |p| > buffer.size {
      return false, true;
    }
    forall i | 0 <= i < |p| {
      buffer.data[value.value + i] := p[i];
    }
    ParamWritten(was, buffer.data[..], start, p);
    ok, overrun := true, false;
  }

  /** Some parameter whose sum wraps finds room for its header after the others. */
  ghost predicate Overruns(ps: seq<seq<byte>>, room: int) {
    exists k :: 0 <= k < |ps| && |ps[k]| > 65532 && ParamsSize(ps[..k]) + 4 <= room
  }

  /** The first parameter that does not fit decides. */
  lemma OverrunsAt(ps: seq<seq<byte>>, room: int, i: nat)
    requires i < |ps| && ParamsSize(ps[..i]) <= room < 0x1_0000 && forall p :: p in ps ==> |p| < 0x1_0000
    requires ParamsSize(ps[..i]) + ParamSize(|ps[i]|) > room
    ensures Overruns(ps, room) <==> |ps[i]| > 65532 && ParamsSize(ps[..i]) + 4 <= room
  {
    if k: nat :| k < |ps| && |ps[k]| > 65532 && ParamsSize(ps[..k]) + 4 <= room {
      ValueSizeIs(|ps[k]|);
      if k < i {
        SizeOfPrefix(ps, k);
        PrefixesGrow(ps, k + 1, i);
      } else if i < k {
        SizeOfPrefix(ps, i);
        PrefixesGrow(ps, i + 1, k);
      }
    }
  }

  lemma PrefixesGrow(ps: seq<seq<byte>>, a: nat, b: nat)
    requires a <= b <= |ps|
    ensures ParamsSize(ps[..a]) <= ParamsSize(ps[..b])
  {
    ParamsSizeAppend(ps[..a], ps[a..b]);
    assert ps[..a] + ps[a..b] == ps[..b];
  }

  lemma NoOverrun(ps: seq<seq<byte>>, room: int)
    requires ParamsSize(ps) <= room < 0x1_0000 && forall p :: p in ps ==> |p| < 0x1_0000
    ensures !Overruns(ps, room)
  {
    if k: nat :| k < |ps| && |ps[k]| > 65532 && ParamsSize(ps[..k]) + 4 <= room {
      ValueSizeIs(|ps[k]|);
      SizeOfPrefix(ps, k);
    }
  }

  /** The loop over a request's parameters, after its header. */
  method WriteParams(buffer: Buffer, ps: seq<seq<byte>>) returns (ok: bool, overrun: bool)
    requires buffer.Valid() && buffer.bytesConsumed == 4 <= buffer.size
    requires forall p :: p in ps ==> |p| < 0x1_0000
    modifies buffer`bytesConsumed, buffer.data
    ensures buffer.Valid()
    ensures ok <==> 4 + ParamsSize(ps) <= buffer.size
    ensures overrun <==> Overruns(ps, buffer.size - 4)
    ensures ok ==> buffer.bytesConsumed == 4 + ParamsSize(ps)
    ensures ok ==> buffer.data[..] == WithParams(old(buffer.data[..]), ps)
  {
    hide WithParam, WithParams, ParamsSize, ParamSize, Overruns;
    ghost var was := buffer.data[..];
    NothingWritten(was);
    for i := 0 to |ps|
      invariant buffer.Valid() && buffer.bytesConsumed == 4 + ParamsSize(ps[..i]) <= buffer.size
      invariant buffer.data[..] == WithParams(was, ps[..i])
    {
      assert ps[i] in ps;
      SizeOfPrefix(ps, i);
      ok, overrun := WriteParam(buffer, ps[i]);
      if !ok {
        OverrunsAt(ps, buffer.size - 4, i);
        return;
      }
      WithOneMore(was, ps, i);
    }
    assert ps[..|ps|] == ps;
    NoOverrun(ps, buffer.size - 4);
    ok, overrun := true, false;
  }

  /**
   * The request part of htool_exec_security_v2_cmd: it succeeds exactly when everything fits, and has then
   * written the header, sizes and values and no other byte; otherwise it returns an error, or runs past the
   * buffer.
   */
  method Serialize(buffer: Buffer, major: byte, minor: byte, ps: seq<seq<byte>>) returns (ok: bool, overrun: bool)
    requires buffer.Valid() && buffer.bytesConsumed == 0 && |ps| < 0x1_0000
    requires forall p :: p in ps ==> |p| < 0x1_0000
    modifies buffer`bytesConsumed, buffer.data
    ensures buffer.Valid()
    ensures ok <==> 4 + ParamsSize(ps) <= buffer.size
    ensures overrun <==> Overruns(ps, buffer.size - 4)
    ensures ok ==>
      var end := 4 + ParamsSize(ps);
      && buffer.bytesConsumed == end
      && buffer.data[..4] == [major, minor] + Le16(|ps|)
      && buffer.data[4..end] == Overlay(old(buffer.data[4..end]), ps)
      && buffer.data[end..] == old(buffer.data[end..])
  {
    hide WithParams, Overlay, ParamsSize, ParamSize;
    ghost var before := buffer.data[..];
    var header := buffer.Consume(4);
    if header.None? {
      return false, false;
    }
    buffer.data[0], buffer.data[1] := major, minor;
    buffer.data[2], buffer.data[3] := |ps| % 256, |ps| / 256 % 256;
    ghost var was := buffer.data[..];
    assert was[..4] == [major, minor] + Le16(|ps|);
    ok, overrun := WriteParams(buffer, ps);
    if ok {
      WithAll(buffer.data[..], was, ps);
      ghost var end := 4 + ParamsSize(ps);
      assert was[4..end] == before[4..end] && was[end..] == before[end..];
    }
  }

  lemma WithAll(now: seq<byte>, was: seq<byte>, ps: seq<seq<byte>>)
    requires 4 + ParamsSize(ps) <= |was| && now == WithParams(was, ps)
    ensures
      var end := 4 + ParamsSize(ps);
      now[..4] == was[..4] && now[4..end] == Overlay(was[4..end], ps) && now[end..] == was[end..]
  {
    hide Overlay, ParamsSize;
  }

  /** `was` with parameters written after the header. */
  function WithParams(was: seq<byte>, ps: seq<seq<byte>>): seq<byte>
    requires 4 + ParamsSize(ps) <= |was|
  {
    was[..4] + Overlay(was[4..4 + ParamsSize(ps)], ps) + was[4 + ParamsSize(ps)..]
  }

  lemma NothingWritten(was: seq<byte>)
    requires |was| >= 4
    ensures ParamsSize([]) == 0 && WithParams(was, []) == was
  {
  }

  lemma WithOneMore(was: seq<byte>, ps: seq<seq<byte>>, i: nat)
    requires i < |ps| && 4 + ParamsSize(ps[..i]) + ParamSize(|ps[i]|) <= |was|
    requires ParamsSize(ps[..i + 1]) == ParamsSize(ps[..i]) + ParamSize(|ps[i]|)
    ensures WithParam(WithParams(was, ps[..i]), 4 + ParamsSize(ps[..i]), ps[i]) == WithParams(was, ps[..i + 1])
  {
    hide Overlay, OverlayParam, ParamsSize;
    var start := 4 + ParamsSize(ps[..i]);
    var end := start + ParamSize(|ps[i]|);
    var now := WithParams(was, ps[..i]);
    OverlaySnoc(was[4..start], ps[..i], was[start..end], ps[i]);
    assert was[4..start] + was[start..end] == was[4..end] && ps[..i] + [ps[i]] == ps[..i + 1];
    assert now[start..end] == was[start..end] && now[end..] == was[end..];
    assert now[..start] == was[..4] + Overlay(was[4..start], ps[..i]);
  }

  lemma SizeOfPrefix(ps: seq<seq<byte>>, i: nat)
    requires i < |ps|
    ensures ParamsSize(ps[..i + 1]) == ParamsSize(ps[..i]) + ParamSize(|ps[i]|) <= ParamsSize(ps)
  {
    ParamsSizeAppend(ps[..i], [ps[i]]);
    ParamsSizeAppend(ps[..i + 1], ps[i + 1..]);
    assert ps[..i] + [ps[i]] == ps[..i + 1] && ps[..i + 1] + ps[i + 1..] == ps;
    assert ParamsSize([ps[i]]) == ParamSize(|ps[i]|) + ParamsSize([]);
  }

  // ---- responses ----

  /** The loop of validate_param_padding. */
  method AllZero(data: array<byte>, start: nat, len: nat) returns (zero: bool)
    requires start + len <= data.Length
    ensures zero <==> data[start..start + len] == Zeros(len)
  {
    for i := 0 to len
      invariant data[start..start + i] == Zeros(i)
    {
      if data[start + i] != 0 {
        assert data[start..start + len][i] != Zeros(len)[i];
        return false;
      }
    }
    zero := true;
  }

  /** validate_param_padding */
  method CheckPadding(buffer: Buffer, size: nat) returns (ok: bool)
    requires buffer.Valid() && buffer.bytesConsumed <= buffer.size
    modifies buffer`bytesConsumed
    ensures buffer.Valid() && buffer.bytesConsumed <= buffer.size
    ensures
      var left, n := old(buffer.Left()), Padding(size);
      && (ok <==> |left| >= n && left[..n] == Zeros(n))
      && (ok ==> buffer.Left() == left[n..])
  {
    var n := Padding(size);
    if n == 0 {
      return true;
    }
    var padding := buffer.Consume(n);
    if padding.None? {
      return false;
    }
    ok := AllZero(buffer.data, padding.value, n);
  }

  lemma ReservedZero(lo: byte, hi: byte)
    ensures [lo, hi] == Zeros(2) <==> FromLe16(lo, hi) == 0
  {
    assert [lo, hi] == Zeros(2) <==> lo == Zeros(2)[0] && hi == Zeros(2)[1];
  }

  /** The strict reading of one parameter in the order in which the code checks it. */
  lemma ParseInSteps(s: seq<byte>)
    requires |s| >= 4
    ensures
      var size := FromLe16(s[0], s[1]);
      ParseParam(s) ==
        if FromLe16(s[2], s[3]) != 0 || |s| - 4 < size then None
        else
          var left, n := s[4 + size..], Padding(size);
          if |left| < n || left[..n] != Zeros(n) then None else Some(Parsed([s[4..4 + size]], left[n..]))
  {
    hide FromLe16, Padding, Zeros;
    var size := FromLe16(s[0], s[1]);
    assert s[2..4] == [s[2], s[3]];
    ReservedZero(s[2], s[3]);
    if |s| - 4 >= size && |s| - 4 - size >= Padding(size) {
      SliceOfSlice(s, 4 + size, |s|, 0, Padding(size));
      SliceOfSlice(s, 4 + size, |s|, Padding(size), |s| - 4 - size);
      assert s[4 + size..|s|] == s[4 + size..];
    }
  }

  /** What is left of a buffer, and what is left after a header and a value. */
  lemma Parts(data: seq<byte>, first: nat, end: nat, size: nat)
    requires first + 4 + size <= end <= |data|
    ensures
      var s := data[first..end];
      && s[0] == data[first] && s[1] == data[first + 1] && s[2] == data[first + 2] && s[3] == data[first + 3]
      && s[2..4] == [data[first + 2], data[first + 3]]
      && s[4..4 + size] == data[first + 4..first + 4 + size] && s[4 + size..] == data[first + 4 + size..end]
  {
    SliceOfSlice(data, first, end, 4, 4 + size);
    SliceOfSlice(data, first, end, 4 + size, end - first);
  }

  /** The header of a parameter: its size, if its reserved bytes are zero. */
  method ReadParamHeader(buffer: Buffer) returns (size: Option<nat>)
    requires buffer.Valid() && buffer.bytesConsumed <= buffer.size
    modifies buffer`bytesConsumed
    ensures buffer.Valid() && buffer.bytesConsumed <= buffer.size
    ensures
      var s := old(buffer.Left());
      && (size.Some? <==> |s| >= 4 && FromLe16(s[2], s[3]) == 0)
      && (size.Some? ==> size.value == FromLe16(s[0], s[1]) < 0x1_0000)
      && (size.Some? ==> buffer.bytesConsumed == old(buffer.bytesConsumed) + 4)
  {
    ghost var first := buffer.bytesConsumed;
    var header := buffer.Consume(4);
    if header.None? {
      return None;
    }
    Parts(buffer.data[..], first, buffer.size, 0);
    var h := header.value;
    Le16Canonical(buffer.data[h], buffer.data[h + 1]);
    hide FromLe16;
    if FromLe16(buffer.data[h + 2], buffer.data[h + 3]) != 0 {
      return None;
    }
    size := Some(FromLe16(buffer.data[h], buffer.data[h + 1]));
  }

  /** read_security_v2_serialized_params */
  method ReadParam(buffer: Buffer) returns (value: Option<seq<byte>>)
    requires buffer.Valid() && buffer.bytesConsumed <= buffer.size
    modifies buffer`bytesConsumed
    ensures buffer.Valid() && buffer.bytesConsumed <= buffer.size
    ensures match ParseParam(old(buffer.Left()))
      case None => value == None
      case Some(r) => value == Some(r.params[0]) && buffer.Left() == r.rest
  {
    hide FromLe16, Padding, ParseParam, Zeros;
    ghost var s, first := buffer.Left(), buffer.bytesConsumed;
    var size := ReadParamHeader(buffer);
    if |s| < 4 {
      TooShort(s);
    } else {
      ParseInSteps(s);
    }
    if size.None? {
      return None;
    }
    SliceOfSlice(buffer.data[..], first, buffer.size, 4, |s|);
    assert buffer.Left() == s[4..];
    value := ReadValue(buffer, size.value);
    if size.value <= |s| - 4 {
      SliceOfSlice(s, 4, |s|, size.value, |s| - 4);
      SliceOfSlice(s, 4, |s|, 0, size.value);
    }
  }

  /** The value of a parameter of a response, and its padding. */
  method ReadValue(buffer: Buffer, size: nat) returns (value: Option<seq<byte>>)
    requires buffer.Valid() && buffer.bytesConsumed <= buffer.size && size < 0x1_0000
    modifies buffer`bytesConsumed
    ensures buffer.Valid() && buffer.bytesConsumed <= buffer.size
    ensures
      var s, n := old(buffer.Left()), Padding(size);
      && (value.Some? <==> |s| >= size && |s[size..]| >= n && s[size..][..n] == Zeros(n))
      && (value.Some? ==> value.value == s[..size] && buffer.Left() == s[size..][n..])
  {
    hide Padding, Zeros;
    ghost var s, first := buffer.Left(), buffer.bytesConsumed;
    var start := buffer.Consume(size);
    if start.None? {
      return None;
    }
    SliceOfSlice(buffer.data[..], first, buffer.size, size, |s|);
    SliceOfSlice(buffer.data[..], first, buffer.size, 0, size);
    assert buffer.Left() == s[size..];
    var ok := CheckPadding(buffer, size);
    value := if ok then Some(buffer.data[start.value..start.value + size]) else None;
  }

  lemma TooShort(s: seq<byte>)
    requires |s| < 4
    ensures ParseParam(s) == None
  {
  }

  /** The reading part of htool_exec_security_v2_serialized_cmd, for a response of `count` parameters. */
  method ReadResponse(buffer: Buffer, count: nat) returns (params: Option<seq<seq<byte>>>)
    requires buffer.Valid() && buffer.bytesConsumed <= buffer.size && count < 0x1_0000
    modifies buffer`bytesConsumed
    ensures buffer.Valid() && buffer.bytesConsumed <= buffer.size
    ensures match ParseResponse(old(buffer.Left()), count)
      case None => params == None
      case Some(r) => params == Some(r.params) && buffer.Left() == r.rest
  {
    hide ParseParam, FromLe16, Zeros, ParseParams;
    ghost var s, first := buffer.Left(), buffer.bytesConsumed;
    var header := buffer.Consume(4);
    if header.None? {
      return None;
    }
    var h := header.value;
    Parts(buffer.data[..], first, buffer.size, 0);
    assert s[4 + 0..] == s[4..];
    ReservedZero(buffer.data[h + 2], buffer.data[h + 3]);
    if FromLe16(buffer.data[h + 2], buffer.data[h + 3]) != 0 {
      return None;
    }
    if FromLe16(buffer.data[h], buffer.data[h + 1]) != count {
      return None;
    }
    params := ReadParams(buffer, count);
  }

  /** The whole reading, when `read` came before `r`. */
  function After(read: seq<seq<byte>>, r: Option<Parsed>): Option<Parsed> {
    match r
    case None => None
    case Some(p) => Some(Parsed(read + p.params, p.rest))
  }

  lemma AfterLaws(read: seq<seq<byte>>, r: Option<Parsed>, rest: seq<byte>)
    ensures After([], r) == r && After(read, None) == None
    ensures After(read, Some(Parsed([], rest))) == Some(Parsed(read, rest))
  {
    assert read + [] == read;
    assert r.Some? ==> [] + r.value.params == r.value.params;
  }

  lemma AfterOne(s: seq<byte>, count: nat, read: seq<seq<byte>>)
    requires count > 0
    ensures After(read, ParseParams(s, count)) ==
      match ParseParam(s)
      case None => None
      case Some(first) => After(read + [first.params[0]], ParseParams(first.rest, count - 1))
  {
    hide ParseParam;
    OneParam(s);
    if ParseParam(s).Some? {
      var first := ParseParam(s).value;
      var more := ParseParams(first.rest, count - 1);
      assert more.Some? ==> read + (first.params + more.value.params) == read + first.params + more.value.params;
    }
  }

  lemma OneParam(s: seq<byte>)
    ensures ParseParam(s).Some? ==> ParseParam(s).value.params == [ParseParam(s).value.params[0]]
  {
  }

  /** The loop over the parameters of a response. */
  method ReadParams(buffer: Buffer, count: nat) returns (params: Option<seq<seq<byte>>>)
    requires buffer.Valid() && buffer.bytesConsumed <= buffer.size
    modifies buffer`bytesConsumed
    ensures buffer.Valid() && buffer.bytesConsumed <= buffer.size
    ensures match ParseParams(old(buffer.Left()), count)
      case None => params == None
      case Some(r) => params == Some(r.params) && buffer.Left() == r.rest
  {
    ghost var s := buffer.Left();
    var read: seq<seq<byte>> := [];
    AfterLaws([], ParseParams(s, count), []);
    for i := 0 to count
      invariant buffer.Valid() && buffer.bytesConsumed <= buffer.size
      invariant ParseParams(s, count) == After(read, ParseParams(buffer.Left(), count - i))
    {
      AfterOne(buffer.Left(), count - i, read);
      hide After, ParseParams, ParseParam;
      var value := ReadParam(buffer);
      if value.None? {
        return None;
      }
      read := read + [value.value];
    }
    AfterLaws(read, None, buffer.Left());
    params := Some(read);
  }

  /** One parameter of a response, of the expected size; `overrun` is as in WriteParam. */
  method ReadLaxParam(buffer: Buffer, size: nat) returns (value: Option<seq<byte>>, overrun: bool)
    requires buffer.Valid() && buffer.bytesConsumed <= buffer.size && size < 0x1_0000
    modifies buffer`bytesConsumed
    ensures buffer.Valid() && buffer.bytesConsumed <= buffer.size
    ensures
      var s := old(buffer.Left());
      && (overrun <==> |s| >= 4 && FromLe16(s[0], s[1]) == size > 65532)
      && (value.Some? <==> |s| >= 4 && FromLe16(s[0], s[1]) == size && |s| >= ParamSize(size))
      && (value.Some? ==> value.value == s[4..4 + size] && buffer.Left() == s[ParamSize(size)..])
  {
    hide FromLe16, ValueSize, ParamSize, Padding;
    ValueSizeIs(size);
    ghost var first := buffer.bytesConsumed;
    var header := buffer.Consume(4);
    if header.None? {
      return None, false;
    }
    Parts(buffer.data[..], first, buffer.size, 0);
    if FromLe16(buffer.data[header.value], buffer.data[header.value + 1]) != size {
      return None, false;
    }
    var start := buffer.Consume(ValueSize(size));
    if start.None? {
      return None, false;
    }
    if start.value + size > buffer.size {
      return None, true;
    }
    Parts(buffer.data[..], first, buffer.size, size);
    SliceOfSlice(buffer.data[..], first, buffer.size, ParamSize(size), buffer.size - first);
    value, overrun := Some(buffer.data[start.value..start.value + size]), false;
  }

  /** The header of a parameter whose sum wraps, with the size expected, comes after parameters that were read. */
  predicate LaxOverruns(s: seq<byte>, sizes: seq<nat>)
    decreases |sizes|
  {
    && sizes != [] && |s| >= 4 && FromLe16(s[0], s[1]) == sizes[0]
    && (sizes[0] > 65532 || (|s| >= ParamSize(sizes[0]) && LaxOverruns(s[ParamSize(sizes[0])..], sizes[1..])))
  }

  /** It does at the k-th parameter exactly when those before it are read, its size is such, and so is its header. */
  lemma {:induction false} LaxOverrunsIff(s: seq<byte>, sizes: seq<nat>)
    requires |s| < 0x1_0000 && forall n :: n in sizes ==> n < 0x1_0000
    ensures LaxOverruns(s, sizes) <==>
      exists k :: 0 <= k < |sizes| && sizes[k] > 65532 && HeaderAfter(s, sizes[..k], sizes[k])
    decreases |sizes|
  {
    hide FromLe16, Padding;
    if sizes != [] {
      var n, rest := sizes[0], sizes[1..];
      assert sizes[..0] == [] && n in sizes;
      if |s| >= 4 && FromLe16(s[0], s[1]) == n && |s| >= ParamSize(n) {
        var left := s[ParamSize(n)..];
        assert forall m :: m in rest ==> m in sizes;
        LaxOverrunsIff(left, rest);
        forall k | 0 < k < |sizes|
          ensures HeaderAfter(s, sizes[..k], sizes[k]) <==> HeaderAfter(left, rest[..k - 1], rest[k - 1])
        {
          assert sizes[..k][0] == n && sizes[..k][1..] == rest[..k - 1];
        }
        ValueSizeIs(n);
        if k: nat :| k < |rest| && rest[k] > 65532 && HeaderAfter(left, rest[..k], rest[k]) {
          assert HeaderAfter(s, sizes[..k + 1], sizes[k + 1]);
        }
      } else {
        forall k | 0 < k < |sizes| ensures !HeaderAfter(s, sizes[..k], sizes[k]) {
          assert sizes[..k][0] == n;
        }
      }
    }
  }

  /** After the parameters of the given sizes comes a header with another size. */
  predicate HeaderAfter(s: seq<byte>, sizes: seq<nat>, size: nat) {
    var r := ParseLax(s, sizes);
    r.Some? && |r.value.rest| >= 4 && FromLe16(r.value.rest[0], r.value.rest[1]) == size
  }

  lemma AfterOneLax(s: seq<byte>, sizes: seq<nat>, i: nat, read: seq<seq<byte>>)
    requires i < |sizes|
    ensures
      var n := sizes[i];
      After(read, ParseLax(s, sizes[i..])) ==
        if |s| < 4 || FromLe16(s[0], s[1]) != n || |s| < ParamSize(n) then None
        else After(read + [s[4..4 + n]], ParseLax(s[ParamSize(n)..], sizes[i + 1..]))
  {
    hide FromLe16, Padding;
    var n := sizes[i];
    assert sizes[i..][0] == n && sizes[i..][1..] == sizes[i + 1..];
    if |s| >= ParamSize(n) {
      var more := ParseLax(s[ParamSize(n)..], sizes[i + 1..]);
      assert more.Some? ==> read + ([s[4..4 + n]] + more.value.params) == read + [s[4..4 + n]] + more.value.params;
    }
  }

  lemma OverrunsOneLax(s: seq<byte>, sizes: seq<nat>, i: nat)
    requires i < |sizes|
    ensures
      var n := sizes[i];
      LaxOverruns(s, sizes[i..]) <==>
        && |s| >= 4 && FromLe16(s[0], s[1]) == n
        && (n > 65532 || (|s| >= ParamSize(n) && LaxOverruns(s[ParamSize(n)..], sizes[i + 1..])))
  {
    hide FromLe16, Padding;
    assert sizes[i..][0] == sizes[i] && sizes[i..][1..] == sizes[i + 1..];
  }

  lemma NoLaxOverrun(s: seq<byte>)
    ensures !LaxOverruns(s, [])
  {
  }

  /** The response part of htool_exec_security_v2_cmd, which checks neither reserved bytes nor padding. */
  method ReadLaxParams(buffer: Buffer, sizes: seq<nat>) returns (params: Option<seq<seq<byte>>>, overrun: bool)
    requires buffer.Valid() && buffer.bytesConsumed <= buffer.size
    requires forall n :: n in sizes ==> n < 0x1_0000
    modifies buffer`bytesConsumed
    ensures buffer.Valid() && buffer.bytesConsumed <= buffer.size
    ensures overrun <==> LaxOverruns(old(buffer.Left()), sizes)
    ensures match ParseLax(old(buffer.Left()), sizes)
      case None => params == None
      case Some(r) => params == Some(r.params) && buffer.Left() == r.rest
  {
    hide ParamSize, FromLe16;
    ghost var s := buffer.Left();
    var read: seq<seq<byte>> := [];
    assert sizes[0..] == sizes;
    AfterLaws([], ParseLax(s, sizes), []);
    for i := 0 to |sizes|
      invariant buffer.Valid() && buffer.bytesConsumed <= buffer.size
      invariant ParseLax(s, sizes) == After(read, ParseLax(buffer.Left(), sizes[i..]))
      invariant LaxOverruns(s, sizes) == LaxOverruns(buffer.Left(), sizes[i..])
    {
      hide After, ParseLax, LaxOverruns;
      AfterOneLax(buffer.Left(), sizes, i, read);
      OverrunsOneLax(buffer.Left(), sizes, i);
      assert sizes[i] in sizes;
      ValueSizeIs(sizes[i]);
      var value;
      value, overrun := ReadLaxParam(buffer, sizes[i]);
      if value.None? {
        return None, overrun;
      }
      read := read + [value.value];
    }
    AfterLaws(read, None, buffer.Left());
    NoLaxOverrun(buffer.Left());
    params, overrun := Some(read), false;
  }

  /** The whole of that part, with the header before the parameters. */
  method ReadLaxResponse(buffer: Buffer, sizes: seq<nat>) returns (params: Option<seq<seq<byte>>>, overrun: bool)
    requires buffer.Valid() && buffer.bytesConsumed <= buffer.size
    requires forall n :: n in sizes ==> n < 0x1_0000
    modifies buffer`bytesConsumed
    ensures buffer.Valid() && buffer.bytesConsumed <= buffer.size
    ensures
      var s := old(buffer.Left());
      params ==
        if sizes == [] then Some([])
        else if |s| < 4 || FromLe16(s[0], s[1]) != |sizes| || ParseLax(s[4..], sizes).None? then None
        else Some(ParseLax(s[4..], sizes).value.params)
    ensures
      var s := old(buffer.Left());
      overrun <==> sizes != [] && |s| >= 4 && FromLe16(s[0], s[1]) == |sizes| && LaxOverruns(s[4..], sizes)
  {
    hide ParseLax, FromLe16, LaxOverruns;
    if sizes == [] {
      return Some([]), false;
    }
    ghost var s, first := buffer.Left(), buffer.bytesConsumed;
    var header := buffer.Consume(4);
    if header.None? {
      return None, false;
    }
    Parts(buffer.data[..], first, buffer.size, 0);
    assert s[4 + 0..] == s[4..];
    if FromLe16(buffer.data[header.value], buffer.data[header.value + 1]) != |sizes| {
      return None, false;
    }
    params, overrun := ReadLaxParams(buffer, sizes);
  }

  /**
   * htool_exec_security_v2_serialized_cmd. `reply` is what the transport puts into the response buffer
   * when it delivers; what it is sent is the whole request buffer. The command
   * succeeds exactly when the request fits, the reply arrives, and the reply begins with the encoding of
   * `count` parameters, which are then what is read.
   */
  method ExecSerialized(request: Buffer, major: byte, minor: byte, ps: seq<seq<byte>>,
                        response: Buffer, reply: seq<byte>, delivered: bool, count: nat)
    returns (params: Option<seq<seq<byte>>>, overrun: bool)
    requires request.Valid() && request.bytesConsumed == 0 && |ps| < 0x1_0000
    requires forall p :: p in ps ==> |p| < 0x1_0000
    requires response.Valid() && response.bytesConsumed == 0 && |reply| <= response.size && count < 0x1_0000
    requires request != response && request.data != response.data
    modifies request`bytesConsumed, request.data, response`bytesConsumed, response`size, response.data
    ensures request.Valid() && response.Valid() && request.size == old(request.size)
    ensures overrun <==> Overruns(ps, request.size - 4)
    ensures 4 + ParamsSize(ps) <= request.size ==>
      var end := 4 + ParamsSize(ps);
      request.data[..request.size] ==
        [major, minor] + Le16(|ps|) + Overlay(old(request.data[4..end]), ps) + old(request.data[end..request.size])
    ensures params.Some? ==>
      && 4 + ParamsSize(ps) <= request.size && delivered
      && |params.value| == count && (forall p :: p in params.value ==> |p| < 0x1_0000)
      && EncodeResponse(params.value) <= reply
    ensures params.None? ==>
      || 4 + ParamsSize(ps) > request.size || !delivered
      || !(exists qs: seq<seq<byte>> ::
             |qs| == count && (forall q :: q in qs ==> |q| < 0x1_0000) && EncodeResponse(qs) <= reply)
  {
    hide EncodeResponse, ParseResponse, ParamsSize, Overlay, Le16, Overruns;
    ghost var before := request.data[..];
    var ok;
    ok, overrun := Serialize(request, major, minor, ps);
    if !ok {
      return None, overrun;
    }
    NoOverrun(ps, request.size - 4);
    SentBytes(before, request.data[..], 4 + ParamsSize(ps), request.size);
    if !delivered {
      return None, false;
    }
    params := Receive(response, reply, count);
    Verdict(reply, count);
  }

  /** The reply replaces the contents of the response buffer and is read. */
  method Receive(response: Buffer, reply: seq<byte>, count: nat) returns (params: Option<seq<seq<byte>>>)
    requires response.Valid() && response.bytesConsumed == 0 && |reply| <= response.size && count < 0x1_0000
    modifies response`bytesConsumed, response`size, response.data
    ensures response.Valid()
    ensures match ParseResponse(reply, count) case None => params == None case Some(r) => params == Some(r.params)
  {
    hide ParseResponse;
    forall i | 0 <= i < |reply| {
      response.data[i] := reply[i];
    }
    response.size := |reply|;
    assert response.Left() == reply;
    params := ReadResponse(response, count);
  }

  lemma SentBytes(before: seq<byte>, now: seq<byte>, end: nat, size: nat)
    requires 4 <= end <= size <= |before| == |now| && now[end..] == before[end..]
    ensures now[..size] == now[..4] + now[4..end] + before[end..size]
  {
    assert now[end..size] == now[end..][..size - end] == before[end..][..size - end] == before[end..size];
  }

  lemma Verdict(reply: seq<byte>, count: nat)
    requires count < 0x1_0000
    ensures match ParseResponse(reply, count)
      case None => forall qs: seq<seq<byte>> ::
        |qs| == count && (forall q :: q in qs ==> |q| < 0x1_0000) ==> !(EncodeResponse(qs) <= reply)
      case Some(r) =>
        |r.params| == count && (forall p :: p in r.params ==> |p| < 0x1_0000) && EncodeResponse(r.params) <= reply
  {
    hide EncodeResponse, ParseParams;
    if ParseResponse(reply, count).Some? {
      var r := ParseResponse(reply, count).value;
      EncodeParsed(reply[4..], count);
      ResponseIsEncoding(reply, r.params, r.rest);
    }
    forall qs: seq<seq<byte>> | |qs| == count && (forall q :: q in qs ==> |q| < 0x1_0000) && EncodeResponse(qs) <= reply
      ensures ParseResponse(reply, count).Some?
    {
      var rest := reply[|EncodeResponse(qs)|..];
      assert reply == EncodeResponse(qs) + rest;
      ResponseIsEncoding(reply, qs, rest);
    }
  }
}
