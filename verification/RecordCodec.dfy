/** GnssRawBinaryCodec.cs: the record header, the checksum and the time field around a message payload. */
module RecordCodec {
  import opened Results
  import opened BitPacking
  import opened BigEndian
  import opened Crc32
  import opened PacketCodec
  import opened RecordPayloads

  const RECORD_MAGIC: seq<byte> := [0x4C, 0x47, 0x52, 0x57]
  const MAX_MESSAGE: nat := 1_048_576

  /** A DateTimeOffset, as 100 ns ticks from the Unix epoch. */
  type Ticks = t: int | -621_355_968_000_000_000 <= t <= 2_534_023_007_999_999_999

  datatype Envelope = Envelope(version: U16, testId: Guid, messageId: Guid, sequence: U64, captured: Ticks, message: Message)

  /** Whole microseconds: C# division truncates toward zero. */
  function Micros(t: Ticks): I64 {
    if t >= 0 then t / 10 else -((-t) / 10)
  }

  function Truncated(t: Ticks): Ticks {
    Micros(t) * 10
  }

  /** Truncation goes toward the epoch, by less than one microsecond, and does nothing to whole microseconds. */
  lemma {:induction false} TruncationIsSmall(t: Ticks)
    ensures t >= 0 ==> Truncated(t) <= t < Truncated(t) + 10
    ensures t <= 0 ==> Truncated(t) - 10 < t <= Truncated(t)
    ensures Truncated(t) == t <==> t % 10 == 0
    ensures Truncated(Truncated(t)) == Truncated(t)
  {
  }

  // ----- the header -----

  function FrontHeader(e: Envelope, length: U32): (h: seq<byte>)
    ensures |h| == 30
  {
    RECORD_MAGIC + Be(1, 2) + [MessageType(e.message)] + [0] + Be(62, 2) + Be(length, 4) + e.testId
  }

  function BackHeader(e: Envelope): (h: seq<byte>)
    ensures |h| == 32
  {
    e.messageId + Be(e.sequence, 8) + Be(ToUnsigned(Micros(e.captured)), 8)
  }

  function RecordHeader(e: Envelope, length: U32): (h: seq<byte>)
    ensures |h| == 62
  {
    FrontHeader(e, length) + BackHeader(e)
  }

  /** GnssRawBinaryCodec.Encode as a value. */
  function Record(u: Utf8, e: Envelope): Result<seq<byte>> {
    if e.version != 1 || !Writable(u, e.message) || |MessageBytes(u, e.message)| > MAX_MESSAGE then InvalidData
    else Ok(Sealed(RecordHeader(e, |MessageBytes(u, e.message)|) + MessageBytes(u, e.message)))
  }

  /** The time read from a record: the product is checked and the date must be in range. */
  predicate InTime(micros: I64) {
    -621_355_968_000_000_000 <= micros * 10 <= 2_534_023_007_999_999_999
  }

  /** GnssRawBinaryCodec.Decode */
  function Decode(u: Utf8, data: seq<byte>): Result<Envelope> {
    if |data| < 66 || data[..4] != RECORD_MAGIC then InvalidData
    else if Read16(data[4..6]) != 1 then InvalidData
    else if data[7] != 0 || Read16(data[8..10]) != 62 then InvalidData
    else
      var length := Read32(data[10..14]);
      if length > MAX_MESSAGE || |data| != 62 + length + 4 then InvalidData
      else if WordValue(Checksum(data[..62 + length])) != Read32(data[62 + length..]) then InvalidData
      else if !(1 <= data[6] <= 3) then InvalidData
      else
        var micros := ToSigned(Read64(data[54..62]));
        if !InTime(micros) then InvalidData
        else
          var m := ReadMessage(u, data[6], data[62..62 + length]);
          if m.InvalidData? then InvalidData
          else Ok(Envelope(1, data[14..30], data[30..46], Read64(data[46..54]), micros * 10, m.value))
  }

  // ----- both directions -----

  predicate HasFront(e: Envelope, length: U32, h: seq<byte>)
    requires |h| == 30
  {
    && h[..4] == RECORD_MAGIC && h[4..6] == Be(1, 2) && h[6] == MessageType(e.message) && h[7] == 0 && h[8..10] == Be(62, 2)
    && h[10..14] == Be(length, 4) && h[14..30] == e.testId
  }

  predicate HasBack(e: Envelope, h: seq<byte>)
    requires |h| == 32
  {
    h[..16] == e.messageId && h[16..24] == Be(e.sequence, 8) && h[24..32] == Be(ToUnsigned(Micros(e.captured)), 8)
  }

  lemma {:induction false} FrontFields(e: Envelope, length: U32, h: seq<byte>)
    requires |h| == 30
    ensures h == FrontHeader(e, length) <==> HasFront(e, length, h)
  {
    hide Be, MessageType;
    assert h == h[..4] + h[4..6] + [h[6]] + [h[7]] + h[8..10] + h[10..14] + h[14..30];
  }

  lemma {:induction false} BackFields(e: Envelope, h: seq<byte>)
    requires |h| == 32
    ensures h == BackHeader(e) <==> HasBack(e, h)
  {
    hide Be, Micros;
    assert h == h[..16] + h[16..24] + h[24..32];
  }

  /** Where the parts of front + back + payload lie. */
  lemma {:induction false} Places(d: seq<byte>, f: seq<byte>, b: seq<byte>, p: seq<byte>, tail: seq<byte>)
    requires |f| == 30 && |b| == 32 && d == f + b + p + tail
    ensures |d| == 62 + |p| + |tail|
    ensures d[..4] == f[..4] && d[4..6] == f[4..6] && d[6] == f[6] && d[7] == f[7] && d[8..10] == f[8..10] && d[10..14] == f[10..14] && d[14..30] == f[14..30]
    ensures d[30..46] == b[..16] && d[46..54] == b[16..24] && d[54..62] == b[24..32]
    ensures d[62..62 + |p|] == p && d[..62 + |p|] == f + b + p && d[62 + |p|..] == tail
  {
  }

  /** Decoding an encoded record gives the envelope with its time cut to whole microseconds. */
  lemma {:induction false} DecodeInvertsEncode(u: Utf8, e: Envelope)
    requires Record(u, e).Ok? && TextSurvives(u, e.message)
    ensures Decode(u, Record(u, e).value) == Ok(e.(captured := Truncated(e.captured)))
  {
    hide Be, FrontHeader, BackHeader, Checksum, WordValue, Read16, Read32, Read64, ReadMessage, MessageBytes, MessageType, Writable;
    var p := MessageBytes(u, e.message);
    var f, b, tail := FrontHeader(e, |p|), BackHeader(e), Be(WordValue(Checksum(RecordHeader(e, |p|) + p)), 4);
    Places(Record(u, e).value, f, b, p, tail);
    FrontFields(e, |p|, f);
    BackFields(e, b);
    Field32(WordValue(Checksum(RecordHeader(e, |p|) + p)));
    Field16(1);
    Field16(62);
    Field32(|p|);
    Field64(e.sequence);
    Field64(ToUnsigned(Micros(e.captured)));
    ReadInvertsWrite(u, e.message);
    KnownType(e.message);
  }

  lemma {:induction false} KnownType(m: Message)
    ensures 1 <= MessageType(m) <= 3
  {
  }

  /** The texts of a metadata record, in bytes 62 to the checksum, re-encode to themselves. */
  ghost predicate TextsReencode(u: Utf8, data: seq<byte>)
    requires |data| >= 66
  {
    var x := TakeMetadata(data[62..|data| - 4]);
    data[6] == 3 && x.Ok? ==> CanonicalTexts(u, x.value)
  }

  /** Every accepted observation or navigation record re-encodes to itself; a metadata record does exactly when its
      texts re-encode to themselves. */
  lemma {:induction false} EncodeInvertsDecode(u: Utf8, data: seq<byte>)
    requires Decode(u, data).Ok?
    ensures |data| >= 66 && (Record(u, Decode(u, data).value) == Ok(data) <==> TextsReencode(u, data))
    ensures !Decode(u, data).value.message.ReceiverMetadata? ==> TextsReencode(u, data)
  {
    hide Be, FrontHeader, BackHeader, Checksum, WordValue, Read16, Read32, Read64, ReadMessage, MessageBytes, MessageType, Writable, TakeMetadata, CanonicalTexts;
    var e := Decode(u, data).value;
    var length := Read32(data[10..14]);
    var f, b, p, tail := data[..30], data[30..62], data[62..62 + length], data[62 + length..];
    assert data == f + b + p + tail;
    Places(data, f, b, p, tail);
    Field16Back(data[4..6]);
    Field16Back(data[8..10]);
    Field32Back(data[10..14]);
    Field64Back(data[46..54]);
    Field64Back(data[54..62]);
    Field32Back(tail);
    TypeOfRead(u, data[6], p);
    WriteInvertsRead(u, data[6], p);
    FrontFields(e, length, f);
    MicrosBack(ToSigned(Read64(data[54..62])));
    BackFields(e, b);
    if Record(u, e) == Ok(data) {
      SamePayload(e, MessageBytes(u, e.message), data);
    }
  }

  lemma {:induction false} SamePayload(e: Envelope, p: seq<byte>, data: seq<byte>)
    requires |p| <= MAX_MESSAGE && data == Sealed(RecordHeader(e, |p|) + p)
    ensures data[62..|data| - 4] == p
  {
    hide RecordHeader, Be, Checksum, WordValue;
  }

  lemma {:induction false} MicrosBack(micros: I64)
    requires InTime(micros)
    ensures Micros(micros * 10) == micros
  {
  }

  lemma {:induction false} TypeOfRead(u: Utf8, messageType: byte, s: seq<byte>)
    requires ReadMessage(u, messageType, s).Ok?
    ensures messageType == 3 <==> ReadMessage(u, messageType, s).value.ReceiverMetadata?
  {
    hide TakeObservations, TakeWords, TakeMetadata, Read16, Read32, Read64;
  }

  /** Every encoded record fits the stream adapter, the capture file reader and the fragmenter. */
  lemma {:induction false} EncodedFits(u: Utf8, e: Envelope)
    requires Record(u, e).Ok?
    ensures 66 <= |Record(u, e).value| <= 1_048_642 < 1_048_704
  {
    hide MessageBytes, FrontHeader, BackHeader, Writable;
  }

  /** A change of at most four consecutive bytes before the checksum is refused. */
  lemma {:induction false} RecordWindowRejected(u: Utf8, prefix: seq<byte>, a: seq<byte>, b: seq<byte>, suffix: seq<byte>, crc: seq<byte>)
    requires Decode(u, prefix + a + suffix + crc).Ok? && |crc| == 4
    requires |a| == |b| <= 4 && a != b
    ensures Decode(u, prefix + b + suffix + crc).InvalidData?
  {
    hide Checksum, WordValue, Read16, Read32, Read64, ReadMessage;
    var x, y := prefix + a + suffix, prefix + b + suffix;
    assert (x + crc)[..|x|] == x && (x + crc)[|x|..] == crc;
    assert (y + crc)[..|y|] == y && (y + crc)[|y|..] == crc;
    WindowChangesCrc(prefix, a, b, suffix);
    if WordValue(Checksum(x)) == WordValue(Checksum(y)) {
      WordInjective(Checksum(x), Checksum(y));
    }
  }

  /** Where the parts of an encoded record lie. */
  lemma {:induction false} RecordParts(u: Utf8, e: Envelope)
    requires Record(u, e).Ok?
    ensures var d, p := Record(u, e).value, MessageBytes(u, e.message);
      && |d| == 66 + |p| && |p| <= MAX_MESSAGE && HasFront(e, |p|, d[..30]) && HasBack(e, d[30..62]) && d[62..62 + |p|] == p
      && d[62 + |p|..] == Be(WordValue(Checksum(d[..62 + |p|])), 4)
  {
    hide Be, FrontHeader, BackHeader, Checksum, WordValue, MessageBytes, MessageType, Writable, HasFront, HasBack;
    var p := MessageBytes(u, e.message);
    var f, b, tail := FrontHeader(e, |p|), BackHeader(e), Be(WordValue(Checksum(RecordHeader(e, |p|) + p)), 4);
    var d := Record(u, e).value;
    Places(d, f, b, p, tail);
    assert d[..30] == f && d[30..62] == b;
    FrontFields(e, |p|, f);
    BackFields(e, b);
  }

  // ----- the writes and the loops -----

  method WriteObservations(os: seq<Observation>) returns (s: seq<byte>)
    ensures s == ObservationsBytes(os)
  {
    hide ObservationBytes;
    s := [];
    for i := 0 to |os|
      invariant s == ObservationsBytes(os[..i])
    {
      assert os[..i + 1][..i] == os[..i];
      s := s + ObservationBytes(os[i]);
    }
    assert os[..|os|] == os;
  }

  method WriteWords(ws: seq<U32>) returns (s: seq<byte>)
    ensures s == WordsBytes(ws)
  {
    hide Be;
    s := [];
    for i := 0 to |ws|
      invariant s == WordsBytes(ws[..i])
    {
      assert ws[..i + 1][..i] == ws[..i];
      s := s + Be(ws[i], 4);
    }
    assert ws[..|ws|] == ws;
  }

  /** The loop of ReadObservation over the rest of the stream. */
  method ReadObservations(s: seq<byte>, count: U16) returns (r: Result<(seq<Observation>, seq<byte>)>)
    ensures r == TakeObservations(s, count)
  {
    hide ReadObservation;
    var os: seq<Observation> := [];
    var position := 0;
    for i := 0 to count
      invariant position <= |s| && TakeObservations(s, i) == Ok((os, s[position..]))
    {
      if |s| - position < 31 {
        ShortStays(s, i + 1, count);
        return InvalidData;
      }
      assert s[position..][..31] == s[position..position + 31] && s[position..][31..] == s[position + 31..];
      os := os + [ReadObservation(s[position..position + 31])];
      position := position + 31;
    }
    r := Ok((os, s[position..]));
  }

  lemma {:induction false} ShortStays(s: seq<byte>, i: nat, n: nat)
    requires i <= n && TakeObservations(s, i).InvalidData?
    ensures TakeObservations(s, n).InvalidData?
    decreases n - i
  {
    hide ReadObservation;
    if i < n {
      ShortStays(s, i + 1, n);
    }
  }

  /** The loop of ReadNavigation over the rest of the stream. */
  method ReadWords(s: seq<byte>, count: U16) returns (r: Result<(seq<U32>, seq<byte>)>)
    ensures r == TakeWords(s, count)
  {
    hide Read32;
    var ws: seq<U32> := [];
    var position := 0;
    for i := 0 to count
      invariant position <= |s| && TakeWords(s, i) == Ok((ws, s[position..]))
    {
      if |s| - position < 4 {
        ShortWordsStay(s, i + 1, count);
        return InvalidData;
      }
      assert s[position..][..4] == s[position..position + 4] && s[position..][4..] == s[position + 4..];
      ws := ws + [Read32(s[position..position + 4])];
      position := position + 4;
    }
    r := Ok((ws, s[position..]));
  }

  lemma {:induction false} ShortWordsStay(s: seq<byte>, i: nat, n: nat)
    requires i <= n && TakeWords(s, i).InvalidData?
    ensures TakeWords(s, n).InvalidData?
    decreases n - i
  {
    hide Read32;
    if i < n {
      ShortWordsStay(s, i + 1, n);
    }
  }

  /** EncodeMessage */
  method EncodeMessage(u: Utf8, m: Message) returns (r: Result<seq<byte>>)
    ensures r.Ok? <==> Writable(u, m)
    ensures r.Ok? ==> r.value == MessageBytes(u, m)
  {
    hide EpochHead, UpdateHead, MetadataBytes, ObservationsBytes, WordsBytes;
    match m
    case ObservationEpoch(_, _, _, _, _, os) =>
      if |os| > 65_535 { return InvalidData; }
      var items := WriteObservations(os);
      r := Ok(EpochHead(m) + items);
    case NavigationUpdate(_, _, _, _, _, ws) =>
      if |ws| > 65_535 { return InvalidData; }
      var items := WriteWords(ws);
      r := Ok(UpdateHead(m) + items);
    case ReceiverMetadata(_, _, _, _, _) =>
      var x := RawOf(u, m);
      if |x.receiverModel| > 65_535 || |x.firmwareVersion| > 65_535 || |x.portName| > 65_535 || |x.sessionName| > 65_535 { return InvalidData; }
      r := Ok(MetadataBytes(x));
  }

  method WriteFront(out: array<byte>, e: Envelope, length: U32)
    requires out.Length >= 62
    modifies out
    ensures out[..30] == FrontHeader(e, length)
  {
    hide Be, MessageType;
    assert out[..0] == [];
    Append(out, 0, RECORD_MAGIC);
    Append(out, 4, Be(1, 2));
    Append(out, 6, [MessageType(e.message)]);
    Append(out, 7, [0]);
    Append(out, 8, Be(62, 2));
    Append(out, 10, Be(length, 4));
    Append(out, 14, e.testId);
  }

  method WriteBack(out: array<byte>, e: Envelope)
    requires out.Length >= 62
    modifies out
    ensures out[..62] == old(out[..30]) + BackHeader(e)
  {
    hide Be, Micros;
    Append(out, 30, e.messageId);
    Append(out, 46, Be(e.sequence, 8));
    Append(out, 54, Be(ToUnsigned(Micros(e.captured)), 8));
  }

  /** GnssRawBinaryCodec.Encode */
  method EncodeRecord(u: Utf8, e: Envelope) returns (r: Result<seq<byte>>)
    ensures r == Record(u, e)
  {
    hide Be, Checksum, WordValue, FrontHeader, BackHeader, MessageBytes, Writable;
    if e.version != 1 { return InvalidData; }
    var m := EncodeMessage(u, e.message);
    if m.InvalidData? { return InvalidData; }
    var payload := m.value;
    if |payload| > MAX_MESSAGE { return InvalidData; }
    var n := 62 + |payload|;
    var out := new byte[n + 4](_ => 0);
    WriteFront(out, e, |payload|);
    WriteBack(out, e);
    Append(out, 62, payload);
    var crc := ComputeCrc32(out[..n]);
    Append(out, n, Be(WordValue(crc), 4));
    assert out[..n + 4] == out[..];
    r := Ok(out[..]);
  }
}
