/** The wire format of a SPI_OPERATION request: transactions laid out back to back. */
module SpiWire {
  import opened Bytes
  import opened NorFlash

  const HEADER_SIZE := 4

  predicate Encodable(t: Transaction) {
    |t.mosi| < 0x1_0000 && t.misoLen < 0x1_0000
  }

  function EncodeOne(t: Transaction): seq<byte> {
    Le16(|t.mosi|) + Le16(t.misoLen) + t.mosi
  }

  /** The header has two little-endian lengths, and the MOSI bytes follow. */
  lemma HeaderBytes(t: Transaction, a: nat, b: nat, c: nat, d: nat)
    requires a < 256 && b < 256 && c < 256 && d < 256
    requires |t.mosi| == a + 0x100 * b && t.misoLen == c + 0x100 * d
    ensures EncodeOne(t) == [a, b, c, d] + t.mosi
  {
    assert (a + 0x100 * b) % 256 == a && (a + 0x100 * b) / 256 == b;
    assert (c + 0x100 * d) % 256 == c && (c + 0x100 * d) / 256 == d;
  }

  function Encode(ts: seq<Transaction>): seq<byte>
    decreases |ts|
  {
    if ts == [] then [] else EncodeOne(ts[0]) + Encode(ts[1..])
  }

  /** What the device makes of a request; None when the bytes are not whole transactions. */
  function Decode(buf: seq<byte>): Option<seq<Transaction>>
    decreases |buf|
  {
    if buf == [] then Some([])
    else if |buf| < HEADER_SIZE then None
    else
      var end := HEADER_SIZE + FromLe16(buf[0], buf[1]);
      if |buf| < end then None
      else
        match Decode(buf[end..])
        case None => None
        case Some(ts) => Some([Transaction(buf[HEADER_SIZE..end], FromLe16(buf[2], buf[3]))] + ts)
  }

  /** Decoding gives back exactly the transactions that were encoded. */
  lemma {:induction false} DecodeEncode(ts: seq<Transaction>)
    requires forall t :: t in ts ==> Encodable(t)
    ensures Decode(Encode(ts)) == Some(ts)
    decreases |ts|
  {
    if ts != [] {
      var t := ts[0];
      var buf := Encode(ts);
      assert t in ts;
      assert buf[..2] == Le16(|t.mosi|) && buf[2..4] == Le16(t.misoLen);
      Le16RoundTrip(|t.mosi|);
      Le16RoundTrip(t.misoLen);
      var end := HEADER_SIZE + |t.mosi|;
      assert buf[HEADER_SIZE..end] == t.mosi;
      assert buf[end..] == Encode(ts[1..]);
      DecodeEncode(ts[1..]);
      assert ts == [t] + ts[1..];
    }
  }

  /** The first transaction of a request, and what is left. */
  lemma DecodeFirst(buf: seq<byte>)
    requires buf != [] && Decode(buf).Some?
    ensures
      var ts := Decode(buf).value;
      && ts != [] && Encodable(ts[0])
      && var end := |EncodeOne(ts[0])|;
      && end <= |buf| && buf[..end] == EncodeOne(ts[0]) && Decode(buf[end..]) == Some(ts[1..])
  {
    Le16Canonical(buf[0], buf[1]);
    Le16Canonical(buf[2], buf[3]);
    hide FromLe16, Le16;
    var end := HEADER_SIZE + FromLe16(buf[0], buf[1]);
    var t := Transaction(buf[HEADER_SIZE..end], FromLe16(buf[2], buf[3]));
    var ts := Decode(buf[end..]).value;
    assert Decode(buf).value == [t] + ts && ([t] + ts)[1..] == ts;
    assert buf[..end] == [buf[0], buf[1]] + [buf[2], buf[3]] + buf[HEADER_SIZE..end];
  }

  /** Every request the device accepts is the encoding of what it read: there is only one. */
  lemma {:induction false} EncodeDecode(buf: seq<byte>)
    requires Decode(buf).Some?
    ensures Encode(Decode(buf).value) == buf
    ensures forall t :: t in Decode(buf).value ==> Encodable(t)
    decreases |buf|
  {
    if buf != [] {
      DecodeFirst(buf);
      var ts := Decode(buf).value;
      hide Decode, EncodeOne, Encodable;
      var end := |EncodeOne(ts[0])|;
      EncodeOneIsLong(ts[0]);
      EncodeDecode(buf[end..]);
      assert buf == buf[..end] + buf[end..];
    }
  }

  lemma EncodeOneIsLong(t: Transaction)
    ensures |EncodeOne(t)| >= HEADER_SIZE
  {
  }

  lemma {:induction false} EncodeAppend(a: seq<Transaction>, b: seq<Transaction>)
    ensures Encode(a + b) == Encode(a) + Encode(b)
    decreases |a|
  {
    if a == [] {
      assert a + b == b;
    } else {
      assert (a + b)[1..] == a[1..] + b;
      EncodeAppend(a[1..], b);
    }
  }

  lemma EncodeSnoc(ts: seq<Transaction>, t: Transaction)
    ensures Encode(ts + [t]) == Encode(ts) + EncodeOne(t)
  {
    EncodeAppend(ts, [t]);
    assert Encode([t]) == EncodeOne(t) + [];
  }
}
