/** The message payloads of GnssRawBinaryCodec.cs. Floating-point fields stand as their bit patterns, signed
    bytes and enums as their byte. */
module RecordPayloads {
  import opened Results
  import opened BitPacking
  import opened BigEndian

  datatype Observation = Observation(
    constellation: byte, satelliteId: byte, signalId: byte, frequencyId: byte,
    pseudorange: U64, carrierPhase: U64, doppler: U32, lockTime: U16,
    carrierToNoise: byte, pseudorangeStdDev: byte, carrierPhaseStdDev: byte, dopplerStdDev: byte, trackingStatus: byte)

  datatype Message =
    | ObservationEpoch(tow: U64, week: U16, leapSeconds: byte, receiverStatus: byte, rawxVersion: byte, observations: seq<Observation>)
    | NavigationUpdate(constellation: byte, satelliteId: byte, signalId: byte, frequencyId: byte, sfrbxVersion: byte, words: seq<U32>)
    | ReceiverMetadata(receiverModel: string, firmwareVersion: string, portName: string, baudRate: I32, sessionName: string)

  /** Encoding.UTF8: GetBytes and GetString. */
  datatype Utf8 = Utf8(bytes: string -> seq<byte>, text: seq<byte> -> string)

  /** Strings without lone surrogates survive the encoding. */
  ghost predicate Survives(u: Utf8, s: string) {
    u.text(u.bytes(s)) == s
  }

  // ----- observations -----

  function ObservationBytes(o: Observation): (s: seq<byte>)
    ensures |s| == 31
  {
    [o.constellation, o.satelliteId, o.signalId, o.frequencyId] + Be(o.pseudorange, 8) + Be(o.carrierPhase, 8) + Be(o.doppler, 4) + Be(o.lockTime, 2)
    + [o.carrierToNoise, o.pseudorangeStdDev, o.carrierPhaseStdDev, o.dopplerStdDev, o.trackingStatus]
  }

  function ReadObservation(s: seq<byte>): Observation
    requires |s| == 31
  {
    Observation(s[0], s[1], s[2], s[3], Read64(s[4..12]), Read64(s[12..20]), Read32(s[20..24]), Read16(s[24..26]), s[26], s[27], s[28], s[29], s[30])
  }

  lemma {:induction false} ObservationFields(o: Observation, s: seq<byte>)
    requires |s| == 31
    ensures s == ObservationBytes(o) <==>
      (&& s[0] == o.constellation && s[1] == o.satelliteId && s[2] == o.signalId && s[3] == o.frequencyId
       && s[4..12] == Be(o.pseudorange, 8) && s[12..20] == Be(o.carrierPhase, 8) && s[20..24] == Be(o.doppler, 4) && s[24..26] == Be(o.lockTime, 2)
       && s[26] == o.carrierToNoise && s[27] == o.pseudorangeStdDev && s[28] == o.carrierPhaseStdDev && s[29] == o.dopplerStdDev && s[30] == o.trackingStatus)
  {
    hide Be;
    assert s == [s[0], s[1], s[2], s[3]] + s[4..12] + s[12..20] + s[20..24] + s[24..26] + [s[26], s[27], s[28], s[29], s[30]];
  }

  /** Reading and writing one observation are inverse to each other. */
  lemma {:induction false} ObservationRoundTrip(o: Observation, s: seq<byte>)
    requires |s| == 31
    ensures ReadObservation(ObservationBytes(o)) == o
    ensures ObservationBytes(ReadObservation(s)) == s
  {
    hide Be, ObservationBytes, Read16, Read32, Read64;
    ObservationFields(o, ObservationBytes(o));
    Field64(o.pseudorange);
    Field64(o.carrierPhase);
    Field32(o.doppler);
    Field16(o.lockTime);
    Field64Back(s[4..12]);
    Field64Back(s[12..20]);
    Field32Back(s[20..24]);
    Field16Back(s[24..26]);
    ObservationFields(ReadObservation(s), s);
  }

  function ObservationsBytes(os: seq<Observation>): (s: seq<byte>)
    ensures |s| == 31 * |os|
  {
    if os == [] then [] else ObservationsBytes(os[..|os| - 1]) + ObservationBytes(os[|os| - 1])
  }

  /** n observations from the front of s, and what follows them. */
  function TakeObservations(s: seq<byte>, n: nat): Result<(seq<Observation>, seq<byte>)>
    decreases n
  {
    if n == 0 then Ok(([], s))
    else
      var front := TakeObservations(s, n - 1);
      if front.InvalidData? || |front.value.1| < 31 then InvalidData
      else Ok((front.value.0 + [ReadObservation(front.value.1[..31])], front.value.1[31..]))
  }

  lemma {:induction false} TakeWritten(os: seq<Observation>, tail: seq<byte>)
    ensures TakeObservations(ObservationsBytes(os) + tail, |os|) == Ok((os, tail))
    decreases |os|
  {
    hide ReadObservation, ObservationBytes;
    if os == [] {
      assert [] + tail == tail;
    } else {
      var n := |os| - 1;
      var one := ObservationBytes(os[n]);
      assert ObservationsBytes(os) + tail == ObservationsBytes(os[..n]) + (one + tail);
      TakeWritten(os[..n], one + tail);
      assert (one + tail)[..31] == one && (one + tail)[31..] == tail;
      ObservationRoundTrip(os[n], one);
      assert os == os[..n] + [os[n]];
    }
  }

  lemma {:induction false} WriteTaken(s: seq<byte>, n: nat)
    requires TakeObservations(s, n).Ok?
    ensures var (os, tail) := TakeObservations(s, n).value; |os| == n && s == ObservationsBytes(os) + tail
    decreases n
  {
    hide ReadObservation, ObservationBytes;
    if n == 0 {
      assert [] + s == s;
    } else {
      WriteTaken(s, n - 1);
      var (front, rest) := TakeObservations(s, n - 1).value;
      var o := ReadObservation(rest[..31]);
      ObservationRoundTrip(o, rest[..31]);
      assert (front + [o])[..n - 1] == front;
      assert rest == rest[..31] + rest[31..];
      assert ObservationsBytes(front) + (rest[..31] + rest[31..]) == (ObservationsBytes(front) + rest[..31]) + rest[31..];
    }
  }

  // ----- navigation words -----

  function WordsBytes(ws: seq<U32>): (s: seq<byte>)
    ensures |s| == 4 * |ws|
  {
    if ws == [] then [] else WordsBytes(ws[..|ws| - 1]) + Be(ws[|ws| - 1], 4)
  }

  function TakeWords(s: seq<byte>, n: nat): Result<(seq<U32>, seq<byte>)>
    decreases n
  {
    if n == 0 then Ok(([], s))
    else
      var front := TakeWords(s, n - 1);
      if front.InvalidData? || |front.value.1| < 4 then InvalidData
      else Ok((front.value.0 + [Read32(front.value.1[..4])], front.value.1[4..]))
  }

  lemma {:induction false} TakeWrittenWords(ws: seq<U32>, tail: seq<byte>)
    ensures TakeWords(WordsBytes(ws) + tail, |ws|) == Ok((ws, tail))
    decreases |ws|
  {
    hide Read32, Be;
    if ws == [] {
      assert [] + tail == tail;
    } else {
      var n := |ws| - 1;
      var one := Be(ws[n], 4);
      assert WordsBytes(ws) + tail == WordsBytes(ws[..n]) + (one + tail);
      TakeWrittenWords(ws[..n], one + tail);
      assert (one + tail)[..4] == one && (one + tail)[4..] == tail;
      Field32(ws[n]);
      assert ws == ws[..n] + [ws[n]];
    }
  }

  lemma {:induction false} WriteTakenWords(s: seq<byte>, n: nat)
    requires TakeWords(s, n).Ok?
    ensures var (ws, tail) := TakeWords(s, n).value; |ws| == n && s == WordsBytes(ws) + tail
    decreases n
  {
    hide Read32, Be;
    if n == 0 {
      assert [] + s == s;
    } else {
      WriteTakenWords(s, n - 1);
      var (front, rest) := TakeWords(s, n - 1).value;
      var x := Read32(rest[..4]);
      Field32Back(rest[..4]);
      assert (front + [x])[..n - 1] == front;
      assert rest == rest[..4] + rest[4..];
      assert WordsBytes(front) + (rest[..4] + rest[4..]) == (WordsBytes(front) + rest[..4]) + rest[4..];
    }
  }

  // ----- text -----

  function TextBytes(b: seq<byte>): (s: seq<byte>)
    ensures |s| == 2 + |b|
  {
    Be(|b|, 2) + b
  }

  function TakeText(s: seq<byte>): Result<(seq<byte>, seq<byte>)> {
    if |s| < 2 then InvalidData
    else
      var n := Read16(s[..2]);
      if |s| - 2 < n then InvalidData else Ok((s[2..2 + n], s[2 + n..]))
  }

  lemma {:induction false} TakeWrittenText(b: seq<byte>, tail: seq<byte>)
    requires |b| <= 0xFFFF
    ensures TakeText(TextBytes(b) + tail) == Ok((b, tail))
  {
    hide Be, Read16;
    var s := TextBytes(b) + tail;
    Field16(|b|);
    assert s[..2] == Be(|b|, 2) && s[2..2 + |b|] == b && s[2 + |b|..] == tail;
  }

  // ----- messages -----

  function MessageType(m: Message): byte {
    match m
    case ObservationEpoch(_, _, _, _, _, _) => 1
    case NavigationUpdate(_, _, _, _, _, _) => 2
    case ReceiverMetadata(_, _, _, _, _) => 3
  }

  function EpochHead(m: Message): (s: seq<byte>)
    requires m.ObservationEpoch?
    ensures |s| == 15
  {
    Be(m.tow, 8) + Be(m.week, 2) + [m.leapSeconds, m.receiverStatus, m.rawxVersion] + Be(|m.observations|, 2)
  }

  function UpdateHead(m: Message): (s: seq<byte>)
    requires m.NavigationUpdate?
    ensures |s| == 7
  {
    [m.constellation, m.satelliteId, m.signalId, m.frequencyId, m.sfrbxVersion] + Be(|m.words|, 2)
  }

  /** The four texts and the baud rate of a metadata payload, before UTF-8 decoding. */
  datatype RawMetadata = RawMetadata(receiverModel: seq<byte>, firmwareVersion: seq<byte>, portName: seq<byte>, baudRate: U32, sessionName: seq<byte>)

  function RawOf(u: Utf8, m: Message): RawMetadata
    requires m.ReceiverMetadata?
  {
    RawMetadata(u.bytes(m.receiverModel), u.bytes(m.firmwareVersion), u.bytes(m.portName), ToUnsigned32(m.baudRate), u.bytes(m.sessionName))
  }

  predicate ShortTexts(x: RawMetadata) {
    |x.receiverModel| <= 0xFFFF && |x.firmwareVersion| <= 0xFFFF && |x.portName| <= 0xFFFF && |x.sessionName| <= 0xFFFF
  }

  function MetadataBytes(x: RawMetadata): seq<byte> {
    TextBytes(x.receiverModel) + (TextBytes(x.firmwareVersion) + (TextBytes(x.portName) + (Be(x.baudRate, 4) + TextBytes(x.sessionName))))
  }

  /** The counts and text lengths fit a ushort. */
  predicate Writable(u: Utf8, m: Message) {
    match m
    case ObservationEpoch(_, _, _, _, _, os) => |os| <= 0xFFFF
    case NavigationUpdate(_, _, _, _, _, ws) => |ws| <= 0xFFFF
    case ReceiverMetadata(_, _, _, _, _) => ShortTexts(RawOf(u, m))
  }

  function MessageBytes(u: Utf8, m: Message): seq<byte> {
    match m
    case ObservationEpoch(_, _, _, _, _, os) => EpochHead(m) + ObservationsBytes(os)
    case NavigationUpdate(_, _, _, _, _, ws) => UpdateHead(m) + WordsBytes(ws)
    case ReceiverMetadata(_, _, _, _, _) => MetadataBytes(RawOf(u, m))
  }

  function ReadEpoch(s: seq<byte>): Result<Message> {
    if |s| < 15 then InvalidData
    else
      var r := TakeObservations(s[15..], Read16(s[13..15]));
      if r.InvalidData? || r.value.1 != [] then InvalidData
      else Ok(ObservationEpoch(Read64(s[..8]), Read16(s[8..10]), s[10], s[11], s[12], r.value.0))
  }

  function ReadUpdate(s: seq<byte>): Result<Message> {
    if |s| < 7 then InvalidData
    else
      var r := TakeWords(s[7..], Read16(s[5..7]));
      if r.InvalidData? || r.value.1 != [] then InvalidData
      else Ok(NavigationUpdate(s[0], s[1], s[2], s[3], s[4], r.value.0))
  }

  function TakeMetadata(s: seq<byte>): Result<RawMetadata> {
    var a := TakeText(s);
    if a.InvalidData? then InvalidData
    else
      var b := TakeText(a.value.1);
      if b.InvalidData? then InvalidData
      else
        var c := TakeText(b.value.1);
        if c.InvalidData? || |c.value.1| < 4 then InvalidData
        else
          var d := TakeText(c.value.1[4..]);
          if d.InvalidData? || d.value.1 != [] then InvalidData
          else Ok(RawMetadata(a.value.0, b.value.0, c.value.0, Read32(c.value.1[..4]), d.value.0))
  }

  function ReadMetadata(u: Utf8, s: seq<byte>): Result<Message> {
    var x := TakeMetadata(s);
    if x.InvalidData? then InvalidData
    else Ok(ReceiverMetadata(u.text(x.value.receiverModel), u.text(x.value.firmwareVersion), u.text(x.value.portName),
                             ToSigned32(x.value.baudRate), u.text(x.value.sessionName)))
  }

  /** DecodeMessage; trailing data is refused. */
  function ReadMessage(u: Utf8, messageType: byte, s: seq<byte>): Result<Message> {
    if messageType == 1 then ReadEpoch(s)
    else if messageType == 2 then ReadUpdate(s)
    else if messageType == 3 then ReadMetadata(u, s)
    else InvalidData
  }

  ghost predicate TextSurvives(u: Utf8, m: Message) {
    m.ReceiverMetadata? ==> Survives(u, m.receiverModel) && Survives(u, m.firmwareVersion) && Survives(u, m.portName) && Survives(u, m.sessionName)
  }

  lemma {:induction false} EpochHeadFields(m: Message, s: seq<byte>)
    requires m.ObservationEpoch? && |s| == 15
    ensures s == EpochHead(m) <==>
      (&& s[..8] == Be(m.tow, 8) && s[8..10] == Be(m.week, 2) && s[10] == m.leapSeconds && s[11] == m.receiverStatus && s[12] == m.rawxVersion
       && s[13..15] == Be(|m.observations|, 2))
  {
    hide Be;
    assert s == s[..8] + s[8..10] + [s[10], s[11], s[12]] + s[13..15];
  }

  lemma {:induction false} UpdateHeadFields(m: Message, s: seq<byte>)
    requires m.NavigationUpdate? && |s| == 7
    ensures s == UpdateHead(m) <==>
      (&& s[0] == m.constellation && s[1] == m.satelliteId && s[2] == m.signalId && s[3] == m.frequencyId && s[4] == m.sfrbxVersion
       && s[5..7] == Be(|m.words|, 2))
  {
    hide Be;
    assert s == [s[0], s[1], s[2], s[3], s[4]] + s[5..7];
  }

  lemma {:induction false} HeadSlices(h: seq<byte>, body: seq<byte>, s: seq<byte>)
    requires s == h + body
    ensures s[|h|..] == body && (forall i :: 0 <= i < |h| ==> s[i] == h[i]) && (forall i, j :: 0 <= i <= j <= |h| ==> s[i..j] == h[i..j])
  {
  }

  lemma {:induction false} EpochRoundTrip(m: Message)
    requires m.ObservationEpoch? && |m.observations| <= 0xFFFF
    ensures ReadEpoch(EpochHead(m) + ObservationsBytes(m.observations)) == Ok(m)
  {
    hide Be, EpochHead, ObservationsBytes, TakeObservations, Read16, Read64;
    var h, body := EpochHead(m), ObservationsBytes(m.observations);
    HeadSlices(h, body, h + body);
    assert (h + body)[..8] == h[..8];
    EpochHeadFields(m, h);
    Field64(m.tow);
    Field16(m.week);
    Field16(|m.observations|);
    TakeWritten(m.observations, []);
    assert body + [] == body;
  }

  lemma {:induction false} UpdateRoundTrip(m: Message)
    requires m.NavigationUpdate? && |m.words| <= 0xFFFF
    ensures ReadUpdate(UpdateHead(m) + WordsBytes(m.words)) == Ok(m)
  {
    hide Be, UpdateHead, WordsBytes, TakeWords, Read16;
    var h, body := UpdateHead(m), WordsBytes(m.words);
    HeadSlices(h, body, h + body);
    UpdateHeadFields(m, h);
    Field16(|m.words|);
    TakeWrittenWords(m.words, []);
    assert body + [] == body;
  }

  lemma {:induction false} TakeWrittenMetadata(x: RawMetadata)
    requires ShortTexts(x)
    ensures TakeMetadata(MetadataBytes(x)) == Ok(x)
  {
    hide Be, TextBytes, TakeText, Read32;
    var baud := Be(x.baudRate, 4);
    var s4 := baud + TextBytes(x.sessionName);
    var s3 := TextBytes(x.portName) + s4;
    var s2 := TextBytes(x.firmwareVersion) + s3;
    TakeWrittenText(x.receiverModel, s2);
    TakeWrittenText(x.firmwareVersion, s3);
    TakeWrittenText(x.portName, s4);
    assert s4[..4] == baud && s4[4..] == TextBytes(x.sessionName);
    Field32(x.baudRate);
    TakeWrittenText(x.sessionName, []);
    assert TextBytes(x.sessionName) + [] == TextBytes(x.sessionName);
  }

  lemma {:induction false} WriteTakenText(s: seq<byte>)
    requires TakeText(s).Ok?
    ensures var (b, tail) := TakeText(s).value; |b| <= 0xFFFF && TextBytes(b) + tail == s
  {
    hide Be, Read16;
    Field16Back(s[..2]);
    var n := Read16(s[..2]);
    assert s == s[..2] + s[2..2 + n] + s[2 + n..];
  }

  lemma {:induction false} WriteTakenMetadata(s: seq<byte>)
    requires TakeMetadata(s).Ok?
    ensures ShortTexts(TakeMetadata(s).value) && MetadataBytes(TakeMetadata(s).value) == s
  {
    hide Be, TextBytes, TakeText, Read32;
    var s2 := TakeText(s).value.1;
    var s3 := TakeText(s2).value.1;
    var s4 := TakeText(s3).value.1;
    WriteTakenText(s);
    WriteTakenText(s2);
    WriteTakenText(s3);
    WriteTakenText(s4[4..]);
    Field32Back(s4[..4]);
    assert s4 == s4[..4] + s4[4..];
    var last := TextBytes(TakeText(s4[4..]).value.0);
    assert last + [] == last;
  }

  lemma {:induction false} MetadataRoundTrip(u: Utf8, m: Message)
    requires m.ReceiverMetadata? && Writable(u, m) && TextSurvives(u, m)
    ensures ReadMetadata(u, MetadataBytes(RawOf(u, m))) == Ok(m)
  {
    hide TakeMetadata, MetadataBytes;
    TakeWrittenMetadata(RawOf(u, m));
  }

  /** All four texts of a metadata payload are what their decoded strings are encoded as. */
  ghost predicate CanonicalTexts(u: Utf8, x: RawMetadata) {
    && u.bytes(u.text(x.receiverModel)) == x.receiverModel && u.bytes(u.text(x.firmwareVersion)) == x.firmwareVersion
    && u.bytes(u.text(x.portName)) == x.portName && u.bytes(u.text(x.sessionName)) == x.sessionName
  }

  /** A metadata payload re-encodes to itself exactly when its texts are valid UTF-8 in this sense. */
  lemma {:induction false} MetadataCanonical(u: Utf8, s: seq<byte>)
    requires ReadMetadata(u, s).Ok?
    ensures TakeMetadata(s).Ok? && ReadMetadata(u, s).value.ReceiverMetadata?
    ensures var m := ReadMetadata(u, s).value; Writable(u, m) && MetadataBytes(RawOf(u, m)) == s <==> CanonicalTexts(u, TakeMetadata(s).value)
  {
    hide TakeMetadata, MetadataBytes;
    var m, x := ReadMetadata(u, s).value, TakeMetadata(s).value;
    WriteTakenMetadata(s);
    if Writable(u, m) {
      TakeWrittenMetadata(RawOf(u, m));
    }
    if CanonicalTexts(u, x) {
      assert RawOf(u, m) == x;
    }
  }

  /** Reading back every message that can be written. */
  lemma {:induction false} ReadInvertsWrite(u: Utf8, m: Message)
    requires Writable(u, m) && TextSurvives(u, m)
    ensures ReadMessage(u, MessageType(m), MessageBytes(u, m)) == Ok(m)
  {
    hide ReadEpoch, ReadUpdate, ReadMetadata, EpochHead, UpdateHead, MetadataBytes, ObservationsBytes, WordsBytes;
    match m
    case ObservationEpoch(_, _, _, _, _, _) => EpochRoundTrip(m);
    case NavigationUpdate(_, _, _, _, _, _) => UpdateRoundTrip(m);
    case ReceiverMetadata(_, _, _, _, _) => MetadataRoundTrip(u, m);
  }

  lemma {:induction false} EpochCanonical(s: seq<byte>)
    requires ReadEpoch(s).Ok?
    ensures var m := ReadEpoch(s).value; m.ObservationEpoch? && |m.observations| <= 0xFFFF && EpochHead(m) + ObservationsBytes(m.observations) == s
  {
    hide Be, EpochHead, ObservationsBytes, TakeObservations, Read16, Read64;
    var m := ReadEpoch(s).value;
    var h, body := s[..15], s[15..];
    assert s == h + body;
    HeadSlices(h, body, s);
    WriteTaken(body, Read16(s[13..15]));
    assert ObservationsBytes(m.observations) + [] == ObservationsBytes(m.observations);
    Field64Back(s[..8]);
    Field16Back(s[8..10]);
    Field16Back(s[13..15]);
    EpochHeadFields(m, h);
  }

  lemma {:induction false} UpdateCanonical(s: seq<byte>)
    requires ReadUpdate(s).Ok?
    ensures var m := ReadUpdate(s).value; m.NavigationUpdate? && |m.words| <= 0xFFFF && UpdateHead(m) + WordsBytes(m.words) == s
  {
    hide Be, UpdateHead, WordsBytes, TakeWords, Read16;
    var m := ReadUpdate(s).value;
    var h, body := s[..7], s[7..];
    assert s == h + body;
    HeadSlices(h, body, s);
    WriteTakenWords(body, Read16(s[5..7]));
    assert WordsBytes(m.words) + [] == WordsBytes(m.words);
    Field16Back(s[5..7]);
    UpdateHeadFields(m, h);
  }

  /** Every accepted observation or navigation payload is the one its message is written as; a metadata payload
      exactly when its texts are canonical. */
  lemma {:induction false} WriteInvertsRead(u: Utf8, messageType: byte, s: seq<byte>)
    requires ReadMessage(u, messageType, s).Ok?
    ensures messageType == 3 ==> TakeMetadata(s).Ok?
    ensures var m := ReadMessage(u, messageType, s).value;
      && MessageType(m) == messageType
      && (Writable(u, m) && MessageBytes(u, m) == s <==> (messageType == 3 ==> CanonicalTexts(u, TakeMetadata(s).value)))
  {
    hide ReadEpoch, ReadUpdate, ReadMetadata, EpochHead, UpdateHead, MetadataBytes, ObservationsBytes, WordsBytes;
    if messageType == 1 {
      EpochCanonical(s);
    } else if messageType == 2 {
      UpdateCanonical(s);
    } else {
      MetadataCanonical(u, s);
    }
  }

  // ----- where the fields are -----

  /** The message kinds have the type codes 1, 2 and 3. */
  lemma {:induction false} TypeCodes(u: Utf8, m: Message, messageType: byte, s: seq<byte>)
    ensures (MessageType(m) == 1 <==> m.ObservationEpoch?) && (MessageType(m) == 2 <==> m.NavigationUpdate?) && (MessageType(m) == 3 <==> m.ReceiverMetadata?)
    ensures ReadMessage(u, messageType, s).Ok? ==>
      MessageType(ReadMessage(u, messageType, s).value) == messageType
  {
    hide TakeObservations, TakeWords, TakeMetadata, Read16, Read32, Read64;
  }

  /** The bytes of a text stand behind their number, at a place of the payload. */
  ghost predicate TextAt(s: seq<byte>, at: nat, b: seq<byte>) {
    at + 2 + |b| <= |s| && s[at..at + 2] == Be(|b|, 2) && s[at + 2..at + 2 + |b|] == b
  }

  /** A metadata payload is receiver model, firmware version, port name, baud rate and session name, in this order. */
  lemma {:induction false} MetadataFields(x: RawMetadata, s: seq<byte>)
    ensures s == MetadataBytes(x) <==>
      var a := 2 + |x.receiverModel|;
      var b := a + 2 + |x.firmwareVersion|;
      var c := b + 2 + |x.portName|;
      && TextAt(s, 0, x.receiverModel) && TextAt(s, a, x.firmwareVersion) && TextAt(s, b, x.portName)
      && c + 4 <= |s| && s[c..c + 4] == Be(x.baudRate, 4) && TextAt(s, c + 4, x.sessionName) && |s| == c + 6 + |x.sessionName|
  {
    hide Be;
    var a := 2 + |x.receiverModel|;
    var b := a + 2 + |x.firmwareVersion|;
    var c := b + 2 + |x.portName|;
    if |s| == c + 6 + |x.sessionName| {
      assert s == s[..a] + (s[a..b] + (s[b..c] + (s[c..c + 4] + s[c + 4..])));
      TextSlice(s, 0, x.receiverModel);
      TextSlice(s, a, x.firmwareVersion);
      TextSlice(s, b, x.portName);
      TextSlice(s, c + 4, x.sessionName);
      FiveParts(s[..a], s[a..b], s[b..c], s[c..c + 4], s[c + 4..],
        TextBytes(x.receiverModel), TextBytes(x.firmwareVersion), TextBytes(x.portName), Be(x.baudRate, 4), TextBytes(x.sessionName));
      assert s[0..a] == s[..a] && s[c + 4..|s|] == s[c + 4..];
    }
  }

  lemma {:induction false} TextSlice(s: seq<byte>, at: nat, b: seq<byte>)
    requires at + 2 + |b| <= |s|
    ensures s[at..at + 2 + |b|] == TextBytes(b) <==> TextAt(s, at, b)
  {
    hide Be;
    var t := s[at..at + 2 + |b|];
    assert t == t[..2] + t[2..];
    assert t[..2] == s[at..at + 2] && t[2..] == s[at + 2..at + 2 + |b|];
    if t == TextBytes(b) {
      assert TextBytes(b)[..2] == Be(|b|, 2) && TextBytes(b)[2..] == b;
    }
  }

  lemma {:induction false} FiveParts(a: seq<byte>, b: seq<byte>, c: seq<byte>, d: seq<byte>, e: seq<byte>,
      v: seq<byte>, w: seq<byte>, x: seq<byte>, y: seq<byte>, z: seq<byte>)
    requires |a| == |v| && |b| == |w| && |c| == |x| && |d| == |y| && |e| == |z|
    ensures a + (b + (c + (d + e))) == v + (w + (x + (y + z))) <==> a == v && b == w && c == x && d == y && e == z
  {
    TwoParts(a, b + (c + (d + e)), v, w + (x + (y + z)));
    TwoParts(b, c + (d + e), w, x + (y + z));
    TwoParts(c, d + e, x, y + z);
    TwoParts(d, e, y, z);
  }

  lemma {:induction false} TwoParts(a: seq<byte>, b: seq<byte>, c: seq<byte>, d: seq<byte>)
    requires |a| == |c| && |b| == |d|
    ensures a + b == c + d <==> a == c && b == d
  {
    if a + b == c + d {
      assert a == (a + b)[..|a|] && b == (a + b)[|a|..];
    }
  }

  /** Observation i lies at byte 31 i of the list. */
  lemma {:induction false} ObservationsAt(os: seq<Observation>, i: nat)
    requires i < |os|
    ensures |ObservationsBytes(os)| == 31 * |os| && ObservationsBytes(os)[31 * i..31 * i + 31] == ObservationBytes(os[i])
    decreases |os|
  {
    hide ObservationBytes;
    var n := |os| - 1;
    if n > 0 {
      ObservationsAt(os[..n], if i < n then i else 0);
      if i < n {
        assert ObservationsBytes(os)[31 * i..31 * i + 31] == ObservationsBytes(os[..n])[31 * i..31 * i + 31];
      }
    }
  }

  /** Word i lies at byte 4 i of the list. */
  lemma {:induction false} WordsAt(ws: seq<U32>, i: nat)
    requires i < |ws|
    ensures |WordsBytes(ws)| == 4 * |ws| && WordsBytes(ws)[4 * i..4 * i + 4] == Be(ws[i], 4)
    decreases |ws|
  {
    hide Be;
    var n := |ws| - 1;
    if n > 0 {
      WordsAt(ws[..n], if i < n then i else 0);
      if i < n {
        assert WordsBytes(ws)[4 * i..4 * i + 4] == WordsBytes(ws[..n])[4 * i..4 * i + 4];
      }
    }
  }
}
