/** AfsPacketCodec.cs: the datagram format, and the deduplicator. */
module PacketCodec {
  import opened Results
  import opened BitPacking
  import opened BigEndian
  import opened Crc32

  const MAGIC: seq<byte> := [0x4C, 0x41, 0x46, 0x53]
  const HEADER_LENGTH: nat := 48
  const MAX_PAYLOAD: nat := 1200

  /** AfsPacketKind is a byte enum: any byte can be stored in it, 1 to 8 are defined. */
  type Kind = byte

  const TIME_SYNC_REQUEST: Kind := 1
  const TIME_SYNC_RESPONSE: Kind := 2
  const SESSION_START: Kind := 3
  const FRAME: Kind := 4
  const PROBE: Kind := 5
  const SESSION_END: Kind := 7

  predicate Defined(k: Kind) {
    1 <= k <= 8
  }

  datatype Packet = Packet(
    kind: Kind, testId: Guid, sequence: U32, copyIndex: byte, prn: byte,
    week: U16, intervalOfWeek: U16, timeOfInterval: byte, sentUtcTicks: I64, payload: seq<byte>)

  // ----- the format -----

  /** Bytes 0 to 23: magic, version, kind, header length, test id. */
  function Head(p: Packet): (h: seq<byte>)
    ensures |h| == 24
  {
    MAGIC + [1] + [p.kind] + Be(HEADER_LENGTH, 2) + p.testId
  }

  /** Bytes 24 to 35: sequence, copy, PRN and the frame time. */
  function Middle(p: Packet): (h: seq<byte>)
    ensures |h| == 12
  {
    Be(p.sequence, 4) + [p.copyIndex] + [p.prn] + Be(p.week, 2) + Be(p.intervalOfWeek, 2) + [p.timeOfInterval] + [0]
  }

  /** Bytes 36 to 47: the sending time and the payload length. */
  function Tail(p: Packet): (h: seq<byte>)
    requires |p.payload| <= MAX_PAYLOAD
    ensures |h| == 12
  {
    Be(ToUnsigned(p.sentUtcTicks), 8) + Be(|p.payload|, 2) + [0, 0]
  }

  function Header(p: Packet): (h: seq<byte>)
    requires |p.payload| <= MAX_PAYLOAD
    ensures |h| == HEADER_LENGTH
  {
    Head(p) + Middle(p) + Tail(p)
  }

  function Sealed(body: seq<byte>): (d: seq<byte>)
    ensures |d| == |body| + 4
  {
    body + Be(WordValue(Checksum(body)), 4)
  }

  /** AfsPacketCodec.Encode as a value. */
  function Datagram(p: Packet): Result<seq<byte>> {
    if |p.payload| > MAX_PAYLOAD then InvalidData else Ok(Sealed(Header(p) + p.payload))
  }

  /** AfsPacketCodec.Decode */
  function Decode(data: seq<byte>): Result<Packet> {
    if |data| < HEADER_LENGTH + 4 || data[..4] != MAGIC then InvalidData
    else if data[4] != 1 || Read16(data[6..8]) != HEADER_LENGTH || data[35] != 0 || data[46] != 0 || data[47] != 0 then InvalidData
    else
      var payloadLength := Read16(data[44..46]);
      if payloadLength > MAX_PAYLOAD || |data| != HEADER_LENGTH + payloadLength + 4 then InvalidData
      else if WordValue(Checksum(data[..|data| - 4])) != Read32(data[|data| - 4..]) then InvalidData
      else if !Defined(data[5]) then InvalidData
      else Ok(Packet(data[5], data[8..24], Read32(data[24..28]), data[28], data[29],
                     Read16(data[30..32]), Read16(data[32..34]), data[34],
                     ToSigned(Read64(data[36..44])), data[48..48 + payloadLength]))
  }

  // ----- both directions -----

  /** The 48 bytes h carry the fields of p at their places. */
  predicate HasFields(p: Packet, h: seq<byte>)
    requires |h| == 48
  {
    && |p.payload| <= MAX_PAYLOAD
    && h[..4] == MAGIC && h[4] == 1 && h[5] == p.kind && h[6..8] == Be(HEADER_LENGTH, 2) && h[8..24] == p.testId
    && h[24..28] == Be(p.sequence, 4) && h[28] == p.copyIndex && h[29] == p.prn
    && h[30..32] == Be(p.week, 2) && h[32..34] == Be(p.intervalOfWeek, 2) && h[34] == p.timeOfInterval && h[35] == 0
    && h[36..44] == Be(ToUnsigned(p.sentUtcTicks), 8) && h[44..46] == Be(|p.payload|, 2) && h[46] == 0 && h[47] == 0
  }

  lemma {:induction false} HeadFields(p: Packet, h: seq<byte>)
    requires |h| == 24
    ensures h == Head(p) <==> (h[..4] == MAGIC && h[4] == 1 && h[5] == p.kind && h[6..8] == Be(HEADER_LENGTH, 2) && h[8..24] == p.testId)
  {
    hide Be;
    assert h == h[..4] + [h[4]] + [h[5]] + h[6..8] + h[8..24];
  }

  lemma {:induction false} MiddleFields(p: Packet, h: seq<byte>)
    requires |h| == 12
    ensures h == Middle(p) <==>
      (h[..4] == Be(p.sequence, 4) && h[4] == p.copyIndex && h[5] == p.prn && h[6..8] == Be(p.week, 2)
       && h[8..10] == Be(p.intervalOfWeek, 2) && h[10] == p.timeOfInterval && h[11] == 0)
  {
    hide Be;
    assert h == h[..4] + [h[4]] + [h[5]] + h[6..8] + h[8..10] + [h[10]] + [h[11]];
  }

  lemma {:induction false} TailFields(p: Packet, h: seq<byte>)
    requires |p.payload| <= MAX_PAYLOAD && |h| == 12
    ensures h == Tail(p) <==> (h[..8] == Be(ToUnsigned(p.sentUtcTicks), 8) && h[8..10] == Be(|p.payload|, 2) && h[10] == 0 && h[11] == 0)
  {
    hide Be;
    assert h == h[..8] + h[8..10] + [h[10], h[11]];
  }

  /** A header is exactly a string with the fields at their places. */
  lemma {:induction false} HeaderFields(p: Packet, h: seq<byte>)
    requires |p.payload| <= MAX_PAYLOAD && |h| == 48
    ensures h == Header(p) <==> HasFields(p, h)
  {
    hide Be, Head, Middle, Tail, MAGIC;
    var x, y, z := h[..24], h[24..36], h[36..];
    assert h == x + y + z;
    HeadFields(p, x);
    MiddleFields(p, y);
    TailFields(p, z);
    ThreeParts(h, x, y, z, Head(p), Middle(p), Tail(p));
    assert x[..4] == h[..4] && x[6..8] == h[6..8] && x[8..24] == h[8..24];
    assert y[..4] == h[24..28] && y[6..8] == h[30..32] && y[8..10] == h[32..34];
    assert z[..8] == h[36..44] && z[8..10] == h[44..46];
  }

  lemma {:induction false} ThreeParts(h: seq<byte>, x: seq<byte>, y: seq<byte>, z: seq<byte>, a: seq<byte>, b: seq<byte>, c: seq<byte>)
    requires |x| == |a| == 24 && |y| == |b| == 12 && |z| == |c| == 12 && h == x + y + z
    ensures h == a + b + c <==> x == a && y == b && z == c
  {
    if h == a + b + c {
      assert h[..24] == x && h[24..36] == y && h[36..] == z;
      assert h[..24] == a && h[24..36] == b && h[36..] == c;
    }
  }

  lemma {:induction false} SealedParts(body: seq<byte>)
    ensures var d := Sealed(body); d[..|d| - 4] == body && WordValue(Checksum(body)) == Read32(d[|d| - 4..])
  {
    hide Be, Checksum, WordValue, Read32;
    Field32(WordValue(Checksum(body)));
    assert Sealed(body)[|body|..] == Be(WordValue(Checksum(body)), 4);
  }

  /** The fields of a sealed datagram are those of its header. */
  lemma {:induction false} PrefixFields(h: seq<byte>, payload: seq<byte>, d: seq<byte>)
    requires |h| == 48 && |d| >= |h| + |payload| && d[..|h| + |payload|] == h + payload
    ensures d[..48] == h && d[48..48 + |payload|] == payload
    ensures forall i :: 0 <= i < 48 ==> d[i] == h[i]
    ensures forall i, j :: 0 <= i <= j <= 48 ==> d[i..j] == h[i..j]
  {
    var body := h + payload;
    assert d[..48] == body[..48] == h;
    assert d[48..48 + |payload|] == body[48..];
  }

  /** Decode inverts Encode exactly on the packets of a defined kind; others are encoded and refused. */
  lemma {:induction false} DecodeInvertsEncode(p: Packet)
    requires |p.payload| <= MAX_PAYLOAD
    ensures Datagram(p).Ok?
    ensures Decode(Datagram(p).value) == if Defined(p.kind) then Ok(p) else InvalidData
  {
    hide Be, Checksum, WordValue, Header, Sealed, Read16, Read32, Read64;
    var h := Header(p);
    var d := Sealed(h + p.payload);
    HeaderFields(p, h);
    SealedParts(h + p.payload);
    PrefixFields(h, p.payload, d);
    Field16(HEADER_LENGTH);
    Field16(|p.payload|);
    Field16(p.week);
    Field16(p.intervalOfWeek);
    Field32(p.sequence);
    Field64(ToUnsigned(p.sentUtcTicks));
  }

  /** Where the parts of a datagram lie. */
  lemma {:induction false} DatagramParts(p: Packet)
    requires |p.payload| <= MAX_PAYLOAD
    ensures var d, n := Datagram(p).value, 48 + |p.payload|;
      |d| == n + 4 && HasFields(p, d[..48]) && d[48..n] == p.payload && d[n..] == Be(WordValue(Checksum(d[..n])), 4)
  {
    hide Be, Checksum, WordValue, Header, HasFields;
    var h := Header(p);
    var body := h + p.payload;
    HeaderFields(p, h);
    SealedAt(body);
    PrefixFields(h, p.payload, Datagram(p).value);
  }

  lemma {:induction false} SealedAt(body: seq<byte>)
    ensures Sealed(body)[..|body|] == body && Sealed(body)[|body|..] == Be(WordValue(Checksum(body)), 4)
  {
    hide Be, Checksum, WordValue;
  }

  /** Every accepted datagram is the encoding of the packet it decodes to, and of no other. */
  lemma {:induction false} AcceptedIsCanonical(data: seq<byte>)
    requires Decode(data).Ok?
    ensures var p := Decode(data).value; Defined(p.kind) && |p.payload| <= MAX_PAYLOAD && Datagram(p) == Ok(data)
  {
    hide Be, Checksum, WordValue, Header, Read16, Read32, Read64, Value;
    var p := Decode(data).value;
    var n := |data| - 4;
    var h := data[..48];
    Field16Back(data[6..8]);
    Field16Back(data[44..46]);
    Field16Back(data[30..32]);
    Field16Back(data[32..34]);
    Field32Back(data[24..28]);
    Field64Back(data[36..44]);
    Field32Back(data[n..]);
    SlicesOfPrefix(data, h);
    HeaderFields(p, h);
    assert data[..n] == h + p.payload;
    assert data == data[..n] + data[n..];
  }

  lemma {:induction false} SlicesOfPrefix(d: seq<byte>, h: seq<byte>)
    requires |d| >= 48 && h == d[..48]
    ensures forall i :: 0 <= i < 48 ==> d[i] == h[i]
    ensures forall i, j :: 0 <= i <= j <= 48 ==> d[i..j] == h[i..j]
  {
  }

  /** Two accepted datagrams that decode alike are the same bytes. */
  lemma {:induction false} DecodeInjective(a: seq<byte>, b: seq<byte>)
    requires Decode(a).Ok? && Decode(a) == Decode(b)
    ensures a == b
  {
    hide Decode, Datagram;
    AcceptedIsCanonical(a);
    AcceptedIsCanonical(b);
  }

  /** Changing at most four consecutive bytes of header and payload, or only the checksum, is noticed. */
  lemma {:induction false} WindowRejected(prefix: seq<byte>, a: seq<byte>, b: seq<byte>, suffix: seq<byte>, crc: seq<byte>)
    requires Decode(prefix + a + suffix + crc).Ok? && |crc| == 4
    requires |a| == |b| <= 4 && a != b
    ensures Decode(prefix + b + suffix + crc).InvalidData?
  {
    hide Checksum, WordValue, Read16, Read32, Read64;
    var x, y := prefix + a + suffix, prefix + b + suffix;
    assert (x + crc)[..|x|] == x && (x + crc)[|x|..] == crc;
    assert (y + crc)[..|y|] == y && (y + crc)[|y|..] == crc;
    WindowChangesCrc(prefix, a, b, suffix);
    if WordValue(Checksum(x)) == WordValue(Checksum(y)) {
      WordInjective(Checksum(x), Checksum(y));
    }
  }

  lemma {:induction false} ChecksumChangeRejected(body: seq<byte>, crc: seq<byte>, other: seq<byte>)
    requires Decode(body + crc).Ok? && |crc| == |other| == 4 && crc != other
    ensures Decode(body + other).InvalidData?
  {
    hide Checksum, WordValue, Read16, Read32, Read64;
    assert (body + crc)[..|body|] == body && (body + crc)[|body|..] == crc;
    assert (body + other)[..|body|] == body && (body + other)[|body|..] == other;
    Field32Back(crc);
    Field32Back(other);
  }

  // ----- the writes of Encode -----

  method WriteHead(out: array<byte>, p: Packet)
    requires out.Length >= 48
    modifies out
    ensures out[..24] == Head(p)
  {
    hide Be;
    assert out[..0] == [];
    Append(out, 0, MAGIC);
    Append(out, 4, [1]);
    Append(out, 5, [p.kind]);
    Append(out, 6, Be(HEADER_LENGTH, 2));
    Append(out, 8, p.testId);
  }

  method WriteMiddle(out: array<byte>, p: Packet)
    requires out.Length >= 48
    modifies out
    ensures out[..36] == old(out[..24]) + Middle(p)
  {
    hide Be;
    Append(out, 24, Be(p.sequence, 4));
    Append(out, 28, [p.copyIndex]);
    Append(out, 29, [p.prn]);
    Append(out, 30, Be(p.week, 2));
    Append(out, 32, Be(p.intervalOfWeek, 2));
    Append(out, 34, [p.timeOfInterval]);
    Append(out, 35, [0]);
  }

  method WriteTail(out: array<byte>, p: Packet)
    requires |p.payload| <= MAX_PAYLOAD && out.Length >= 48
    modifies out
    ensures out[..48] == old(out[..36]) + Tail(p)
  {
    hide Be, ToUnsigned;
    Append(out, 36, Be(ToUnsigned(p.sentUtcTicks), 8));
    Append(out, 44, Be(|p.payload|, 2));
    Append(out, 46, [0, 0]);
  }

  /** AfsPacketCodec.Encode */
  method Encode(p: Packet) returns (r: Result<seq<byte>>)
    ensures r == Datagram(p)
    ensures r.Ok? <==> |p.payload| <= 1200
  {
    hide Be, Checksum, Head, Middle, Tail, WordValue;
    if |p.payload| > MAX_PAYLOAD { return InvalidData; }
    var n := HEADER_LENGTH + |p.payload|;
    var out := new byte[n + 4](_ => 0);
    WriteHead(out, p);
    WriteMiddle(out, p);
    WriteTail(out, p);
    Append(out, 48, p.payload);
    var crc := ComputeCrc32(out[..n]);
    Append(out, n, Be(WordValue(crc), 4));
    assert out[..n + 4] == out[..];
    r := Ok(out[..]);
  }

  // ----- the deduplicator -----

  type Key = (Guid, Kind, U32)

  function KeyOf(p: Packet): Key {
    (p.testId, p.kind, p.sequence)
  }

  /** AfsPacketDeduplicator */
  class Deduplicator {
    var received: set<Key>

    constructor ()
      ensures received == {}
    {
      received := {};
    }

    /** HashSet.Add: true exactly for the first packet of its key; the copy index plays no part. */
    method TryAccept(p: Packet) returns (ok: bool)
      modifies this
      ensures ok <==> KeyOf(p) !in old(received)
      ensures received == old(received) + {KeyOf(p)}
      ensures |received| == |old(received)| + (if ok then 1 else 0)
    {
      ok := KeyOf(p) !in received;
      assert !ok ==> received + {KeyOf(p)} == received;
      received := received + {KeyOf(p)};
    }
  }
}
