/** The sender's own wire, through any network, to the receiver's decision: both sides of a session together. */
module EndToEnd {
  import opened Results
  import opened BitStrings
  import opened BitPacking
  import opened BigEndian
  import opened PacketCodec
  import opened FragmentCodec
  import opened AnyOrder
  import opened FramePreparation
  import opened ReceiveLoop
  import opened Sender
  import opened Delivery
  import opened ReceiveSession
  import CaptureFile
  import FrameCodec
  import LdpcEncoder
  import Sb2Pattern
  import opened SubframeBits
  import opened FrameReceiver

  /** The LDPC codes of both sides and the receiver's LDPC decoders. */
  datatype Coding = Coding(sf2: LdpcEncoder.Code, sf3: LdpcEncoder.Code, dec2: FrameCodec.Decoder, dec3: FrameCodec.Decoder) {
    ghost predicate Valid() {
      FrameCodec.Codes(sf2, sf3) && FrameCodec.DecoderWidth(dec2, 1200) && FrameCodec.DecoderWidth(dec3, 870)
    }
  }

  /** Subframe 2 of frame j. */
  function Sb2(start: Time, j: nat): (b: Bits)
    ensures |b| == 1176
  {
    Sb2Pattern.Pattern(TimeAfter(start, j).week, TimeAfter(start, j).intervalOfWeek)
  }

  /** On the three coded blocks of frame j the LDPC decoders return the systematic bits. */
  ghost predicate Recovers(c: Coding, records: seq<seq<byte>>, start: Time, j: nat)
    requires c.Valid() && Capture(records) && j < FrameCount(records)
  {
    PairIds(records, j);
    var sb3, sb4 := SentBits(records, FramePair(records, j).0), SentBits(records, FramePair(records, j).1);
    && FrameCodec.Recovers(c.dec2(FrameCodec.Sf2Input(FrameCodec.Sf2Symbols(c.sf2, Sb2(start, j)))), FrameCodec.WithCrc(Sb2(start, j)))
    && FrameCodec.Recovers(c.dec3(FrameCodec.Sf3Input(FrameCodec.Sf3Symbols(c.sf3, sb3))), FrameCodec.WithCrc(sb3))
    && FrameCodec.Recovers(c.dec3(FrameCodec.Sf3Input(FrameCodec.Sf3Symbols(c.sf3, sb4))), FrameCodec.WithCrc(sb4))
  }

  /** The encoded frame j. */
  ghost function SentFrame(c: Coding, records: seq<seq<byte>>, start: Time, j: nat): (f: seq<byte>)
    requires c.Valid() && Capture(records) && j < FrameCount(records)
    ensures |f| == 750
  {
    PairIds(records, j);
    PackBits(FrameCodec.FrameBits(c.sf2, c.sf3, TimeAfter(start, j).timeOfInterval, Sb2(start, j),
                                  SentBits(records, FramePair(records, j).0), SentBits(records, FramePair(records, j).1)))
  }

  /** AfsNativeCodec.DecodeAsync: its argument check, then the native decoder with zeroed buffers. */
  ghost function NativeAnswer(c: Coding, toi: byte, f: seq<byte>): FrameCodec.DecodeResult
    requires c.Valid()
  {
    if ByteValue(toi) > 99 || |f| != 750 then FrameCodec.BadArgument
    else FrameCodec.DecodeSpec(c.dec2, c.dec3, ByteValue(toi), BitsOf(f, 6000), Zeros(1176), Zeros(846), Zeros(846))
  }

  /** The packets of the prepared, undamaged frames. */
  ghost predicate Packets(ps: seq<Packet>, T: Guid, c: Coding, records: seq<seq<byte>>, start: Time)
    requires c.Valid() && Capture(records) && ValidTime(start)
  {
    && |ps| == FrameCount(records) && FramePackets(ps, T)
    && forall j :: 0 <= j < |ps| ==> IsPacketOf(ps[j], c, records, start, j)
  }

  ghost predicate IsPacketOf(p: Packet, c: Coding, records: seq<seq<byte>>, start: Time, j: nat)
    requires c.Valid() && Capture(records) && ValidTime(start) && j < FrameCount(records)
  {
    TimesAreConsecutive(start, j);
    var t := TimeAfter(start, j);
    && p.week == t.week && p.intervalOfWeek == t.intervalOfWeek && p.timeOfInterval == ByteOf(t.timeOfInterval)
    && p.payload == SentFrame(c, records, start, j)
  }

  // ----- the sender builds them -----

  /** The loop of PrepareAsync with the codec, and the packets SendAsync makes of its frames. An array has fewer than 2^31 elements. */
  method PreparePackets(c: Coding, at2: LdpcEncoder.Caches, at3: LdpcEncoder.Caches, records: seq<seq<byte>>, start: Time, T: Guid, prn: byte)
      returns (r: Result<seq<Packet>>)
    requires c.Valid() && LdpcEncoder.Consistent(c.sf2, at2) && LdpcEncoder.Consistent(c.sf3, at3)
    requires 0 < |records| < 0x8000_0000 && |Ids(records)| < 0x8000_0000
    ensures r.Ok? <==> Capture(records) && ValidTime(start)
    ensures r.Ok? ==> Packets(r.value, T, c, records, start) && forall j :: 0 <= j < |r.value| ==> r.value[j].prn == prn
  {
    hide Coding.Valid, Capture, FrameCount, Prepared, ValidTime, LdpcEncoder.Stores, IsPacketOf;
    FrameLimit(records);
    var prepared := Prepare(records, start);
    if prepared.InvalidData? { return InvalidData; }
    var ps := EncodePackets(c, at2, at3, records, start, T, prn, prepared.value);
    r := Ok(ps);
  }

  method EncodePackets(c: Coding, at2: LdpcEncoder.Caches, at3: LdpcEncoder.Caches, records: seq<seq<byte>>, start: Time, T: Guid, prn: byte,
      frames: seq<FrameInput>) returns (ps: seq<Packet>)
    requires c.Valid() && LdpcEncoder.Consistent(c.sf2, at2) && LdpcEncoder.Consistent(c.sf3, at3) && Capture(records) && ValidTime(start)
    requires |frames| == FrameCount(records) < 0x8000_0000 && forall j :: 0 <= j < |frames| ==> frames[j] == Prepared(records, start, j)
    ensures Packets(ps, T, c, records, start) && forall j :: 0 <= j < |ps| ==> ps[j].prn == prn
  {
    hide Coding.Valid, Capture, FrameCount, Prepared, ValidTime, LdpcEncoder.Stores, IsPacketOf;
    ps := [];
    for j := 0 to |frames|
      invariant LdpcEncoder.Consistent(c.sf2, at2) && LdpcEncoder.Consistent(c.sf3, at3)
      invariant |ps| == j && FramePackets(ps, T) && forall x :: 0 <= x < j ==> ps[x].prn == prn
      invariant forall x :: 0 <= x < j ==> IsPacketOf(ps[x], c, records, start, x)
    {
      var p := EncodePacket(c, at2, at3, records, start, T, prn, frames[j], j);
      ps := ps + [p];
    }
  }

  lemma {:induction false} FrameLimit(records: seq<seq<byte>>)
    requires |Ids(records)| < 0x8000_0000
    ensures FrameCount(records) < 0x8000_0000
  {
  }

  /** One turn: subframe 2 of the frame's time, the codec, and the packet. */
  method EncodePacket(c: Coding, at2: LdpcEncoder.Caches, at3: LdpcEncoder.Caches, records: seq<seq<byte>>, start: Time, T: Guid, prn: byte,
      input: FrameInput, j: nat) returns (p: Packet)
    requires c.Valid() && LdpcEncoder.Consistent(c.sf2, at2) && LdpcEncoder.Consistent(c.sf3, at3)
    requires Capture(records) && ValidTime(start) && j < FrameCount(records) && j < 0x8000_0000 && input == Prepared(records, start, j)
    ensures IsPacketOf(p, c, records, start, j) && p.kind == FRAME && p.testId == T && p.sequence == j && p.prn == prn && |p.payload| <= MAX_PAYLOAD
  {
    hide Capture, FrameCount, FramePair, LdpcEncoder.Stores, TimeAfter, Sb2Pattern.Pattern, PackBits, FrameCodec.FrameBits, Raw, SentBits, FrameCodec.Codes, ByteOf;
    TimesAreConsecutive(start, j);
    PairIds(records, j);
    PreparedBits(records, start, j);
    var t := input.time;
    var sb2 := Sb2Pattern.BuildValidationPattern(t.week, t.intervalOfWeek);
    var frame := EncodeBits(c, at2, at3, t.timeOfInterval, sb2.value, input.sb3, input.sb4,
      Sb2(start, j), SentBits(records, FramePair(records, j).0), SentBits(records, FramePair(records, j).1));
    p := Packet(FRAME, T, j, 0, prn, t.week, t.intervalOfWeek, ByteOf(t.timeOfInterval), 0, frame);
  }

  lemma {:induction false} PreparedBits(records: seq<seq<byte>>, start: Time, j: nat)
    requires Capture(records) && j < FrameCount(records)
    ensures (PairIds(records, j);
      var f := Prepared(records, start, j);
      && f.time == TimeAfter(start, j)
      && f.sb3 == Raw(SentBits(records, FramePair(records, j).0)) && f.sb4 == Raw(SentBits(records, FramePair(records, j).1)))
  {
    hide Capture, FrameCount, FramePair, Raw, SbBits, BlockOfId;
  }

  /** The codec on the 0/1 arrays of three bit strings never refuses. */
  method EncodeBits(c: Coding, at2: LdpcEncoder.Caches, at3: LdpcEncoder.Caches, toi: nat, raw2: seq<int>, raw3: seq<int>, raw4: seq<int>,
      ghost sb2: Bits, ghost sb3: Bits, ghost sb4: Bits) returns (frame: seq<byte>)
    requires c.Valid() && LdpcEncoder.Consistent(c.sf2, at2) && LdpcEncoder.Consistent(c.sf3, at3) && toi < 100
    requires |sb2| == 1176 && |sb3| == |sb4| == 846 && raw2 == Raw(sb2) && raw3 == Raw(sb3) && raw4 == Raw(sb4)
    ensures frame == PackBits(FrameCodec.FrameBits(c.sf2, c.sf3, toi, sb2, sb3, sb4)) && |frame| == 750
  {
    hide PackBits, FrameCodec.FrameBits, Raw, FrameCodec.ToBits, FrameCodec.Codes, LdpcEncoder.Stores;
    RawBits(sb2);
    RawBits(sb3);
    RawBits(sb4);
    RawRange(raw2);
    RawRange(raw3);
    RawRange(raw4);
    var e := FrameCodec.EncodeFrame(c.sf2, c.sf3, at2, at3, toi, raw2, raw3, raw4, 750);
    frame := e.frame;
  }

  lemma {:induction false} RawRange(raw: seq<int>)
    requires FrameCodec.ValidBits(raw)
    ensures forall i :: 0 <= i < |raw| ==> 0 <= raw[i] < 256
  {
  }

  // ----- the two sides together -----

  /** The native codec delivers every sent frame. */
  lemma {:induction false} SentFrameDelivered(c: Coding, records: seq<seq<byte>>, start: Time, p: Packet, j: nat)
    requires c.Valid() && Capture(records) && ValidTime(start) && j < FrameCount(records) && Recovers(c, records, start, j)
    requires IsPacketOf(p, c, records, start, j)
    ensures var d := NativeAnswer(c, p.timeOfInterval, p.payload); Honest(records, j, d) && Delivered(d)
  {
    hide FrameCodec.DecodeSpec, FrameCodec.FrameBits, FrameCodec.Recovers, FrameCodec.Sf2Symbols, FrameCodec.Sf3Symbols, FrameCodec.Codes, FrameCodec.DecoderWidth,
      PackBits, BitsOf, SentBits, Capture, FrameCount, FramePair, ByteOf, ByteValue, Honest, TimeAfter, Sb2;
    TimesAreConsecutive(start, j);
    ValueOfByte(TimeAfter(start, j).timeOfInterval);
    PairIds(records, j);
    UndamagedFrameDelivered(c.sf2, c.sf3, c.dec2, c.dec3, TimeAfter(start, j).timeOfInterval, Sb2(start, j), records, j, Zeros(1176), Zeros(846), Zeros(846));
  }

  /** Both sides of a session: what the sender put on the wire, and what the receiver makes of it. */
  ghost predicate TwoSides(w: World, T: Guid, m: Manifest, begin: Packet, ps: seq<Packet>, end: Packet, c: Coding, records: seq<seq<byte>>, start: Time)
    requires c.Valid() && Capture(records) && ValidTime(start)
  {
    && ControlPackets(begin, end, T) && Packets(ps, T, c, records, start)
    && w.read(begin.payload) == Some(m) && m.testId == T && !m.syncRecovery && w.expectedType == CUSTOM_TYPE
    && (forall toi, f :: w.codec(toi, f) == NativeAnswer(c, toi, f))
    && forall j :: 0 <= j < FrameCount(records) ==> Recovers(c, records, start, j)
  }

  /** Every datagram that arrives was sent; any order, loss and repetition. */
  ghost predicate FromWire(arrivals: seq<seq<byte>>, T: Guid, begin: Packet, ps: seq<Packet>, end: Packet) {
    forall i :: 0 <= i < |arrivals| ==> FromSession(arrivals[i], T, begin, ps, end)
  }

  lemma {:induction false} ArrivingFrame(w: World, arrivals: seq<seq<byte>>, T: Guid, m: Manifest, begin: Packet, ps: seq<Packet>, end: Packet, c: Coding,
      records: seq<seq<byte>>, start: Time, i: nat)
    requires c.Valid() && Capture(records) && ValidTime(start) && TwoSides(w, T, m, begin, ps, end, c, records, start)
    requires i < |arrivals| && FromSession(arrivals[i], T, begin, ps, end) && FrameAt(arrivals, T, i)
    ensures Honest(records, PacketAt(arrivals, i).sequence, DecodedAt(w, arrivals, i)) && Delivered(DecodedAt(w, arrivals, i))
  {
    hide Decode, Recovers, Honest, IsPacketOf, NativeAnswer, Coding.Valid, Capture, ValidTime, FrameCount;
    var p := PacketAt(arrivals, i);
    var k :| 0 <= k < |ps| && Copied(arrivals[i], ps[k]);
    SamePacketOf(ps[k], p, c, records, start, k);
    SentFrameDelivered(c, records, start, p, k);
  }

  lemma {:induction false} SamePacketOf(p: Packet, q: Packet, c: Coding, records: seq<seq<byte>>, start: Time, j: nat)
    requires c.Valid() && Capture(records) && ValidTime(start) && j < FrameCount(records) && IsPacketOf(p, c, records, start, j)
    requires q.week == p.week && q.intervalOfWeek == p.intervalOfWeek && q.timeOfInterval == p.timeOfInterval && q.payload == p.payload
    ensures IsPacketOf(q, c, records, start, j)
  {
    hide SentFrame, ByteOf;
  }

  lemma {:induction false} ArrivingStart(w: World, arrivals: seq<seq<byte>>, T: Guid, m: Manifest, begin: Packet, ps: seq<Packet>, end: Packet, c: Coding,
      records: seq<seq<byte>>, start: Time, i: nat)
    requires c.Valid() && Capture(records) && ValidTime(start) && TwoSides(w, T, m, begin, ps, end, c, records, start)
    requires i < |arrivals| && FromSession(arrivals[i], T, begin, ps, end) && StartAt(arrivals, i)
    ensures w.read(PacketAt(arrivals, i).payload) == Some(m)
  {
    hide Decode, Recovers, IsPacketOf, NativeAnswer, Coding.Valid, Capture, ValidTime, FrameCount;
  }

  /** Whatever the network does to the sender's datagrams: the receiver reports exactly when a SessionEnd is accepted, and
      until then waits; it reports success if and only if, besides, for every frame the first copy to arrive comes after a
      SessionStart and before an accepted SessionEnd; and the reconstructed file is then the capture file, byte for byte. */
  lemma {:induction false} WireDelivers(w: World, arrivals: seq<seq<byte>>, T: Guid, m: Manifest, begin: Packet, ps: seq<Packet>, end: Packet, c: Coding,
      start: Time, file: seq<byte>, hash: Hash, n: nat)
    requires n <= |arrivals| && CaptureFile.Records(file).Ok? && |CaptureFile.Records(file).value| < 0x8000_0000 && c.Valid() && ValidTime(start)
    requires (CaptureFile.AcceptedIsCapture(file);
      var records := CaptureFile.Records(file).value; Describes(m, file, records, hash) && TwoSides(w, T, m, begin, ps, end, c, records, start))
    requires FromWire(arrivals, T, begin, ps, end)
    ensures var s := Run(w, arrivals, n); var r := ReportOf(w, hash, s);
      && (if Closed(arrivals, T, n) then r.Reported? else r.Waiting?)
      && (r == Reported(true, true) <==> Closed(arrivals, T, n) && forall j :: 0 <= j < |ps| ==> Came(arrivals, T, n, j))
      && (r.Reported? && r.success ==> Reconstructed(s.frames.records) == Ok(file))
  {
    hide CaptureFile.Records, ReportOf, Closed, Reconstructed, Describes, Capture, FrameCount, Run, Decode, Recovers, Honest, IsPacketOf, NativeAnswer, Coding.Valid, ValidTime,
      FromSession, Delivered, CameAt;
    CaptureFile.AcceptedIsCapture(file);
    var records := CaptureFile.Records(file).value;
    forall i | 0 <= i < |arrivals| && StartAt(arrivals, i)
      ensures w.read(PacketAt(arrivals, i).payload) == Some(m)
    {
      ArrivingStart(w, arrivals, T, m, begin, ps, end, c, records, start, i);
    }
    forall i | 0 <= i < |arrivals| && FrameAt(arrivals, T, i)
      ensures Honest(records, PacketAt(arrivals, i).sequence, DecodedAt(w, arrivals, i)) && Delivered(DecodedAt(w, arrivals, i))
    {
      ArrivingFrame(w, arrivals, T, m, begin, ps, end, c, records, start, i);
    }
    SessionDelivers(w, arrivals, T, m, file, hash, n);
    forall j
      ensures GotInTime(w, arrivals, T, n, j) <==> Came(arrivals, T, n, j)
    {
      if Came(arrivals, T, n, j) {
        var i :| 0 <= i < n && CameAt(arrivals, T, j, i);
        CameIsFrame(arrivals, T, j, i);
        assert InTime(w, arrivals, T, j, i);
      }
    }
  }

  lemma {:induction false} CameIsFrame(arrivals: seq<seq<byte>>, T: Guid, j: nat, i: nat)
    requires i < |arrivals| && CameAt(arrivals, T, j, i)
    ensures FrameAt(arrivals, T, i)
  {
    hide Decode;
  }

  // ----- a network that changes nothing -----

  /** What stands at a position of an undisturbed wire. */
  lemma {:induction false} AtPosition(arrivals: seq<seq<byte>>, begins: seq<seq<byte>>, middle: seq<seq<byte>>, ends: seq<seq<byte>>, drop: DropRule, T: Guid,
      begin: Packet, ps: seq<Packet>, end: Packet, copies: nat, i: nat)
    requires arrivals == begins + middle + ends && SessionWire(begins, middle, ends, drop, T, begin, ps, end, copies)
    requires FramePackets(ps, T) && ControlPackets(begin, end, T) && i < |arrivals|
    ensures Arrives(arrivals, i) && PacketAt(arrivals, i).testId == T
    ensures i < copies ==> PacketAt(arrivals, i).kind == SESSION_START
    ensures copies <= i < copies + |middle| ==> PacketAt(arrivals, i).kind == FRAME || PacketAt(arrivals, i).kind == PROBE
    ensures i >= copies + |middle| ==> PacketAt(arrivals, i).kind == SESSION_END
  {
    hide Decode, Carry, Sender.Due;
    if i < copies {
      assert arrivals[i] == begins[i] && begins[i] in begins;
    } else if i < copies + |middle| {
      assert arrivals[i] == middle[i - copies] && middle[i - copies] in middle;
    } else {
      assert arrivals[i] == ends[i - copies - |middle|] && ends[i - copies - |middle|] in ends;
    }
  }

  /** An undisturbed wire closes the session, and brings every frame of which some copy was not dropped in time. */
  lemma {:induction false} DirectDelivery(arrivals: seq<seq<byte>>, begins: seq<seq<byte>>, middle: seq<seq<byte>>, ends: seq<seq<byte>>, drop: DropRule, T: Guid,
      begin: Packet, ps: seq<Packet>, end: Packet, copies: nat)
    requires arrivals == begins + middle + ends && SessionWire(begins, middle, ends, drop, T, begin, ps, end, copies) && copies >= 1
    requires FramePackets(ps, T) && ControlPackets(begin, end, T)
    ensures Closed(arrivals, T, |arrivals|)
    ensures forall j :: 0 <= j < |ps| && SomeCopySent(drop, j, copies) ==> Came(arrivals, T, |arrivals|, j)
  {
    hide Decode, SessionWire, FramePackets, ControlPackets, Came, KeyOf, SomeCopySent;
    WireSizes(begins, middle, ends, drop, T, begin, ps, end, copies);
    forall i | 0 <= i < |arrivals|
      ensures Arrives(arrivals, i) && PacketAt(arrivals, i).testId == T
      ensures i < copies ==> PacketAt(arrivals, i).kind == SESSION_START
      ensures copies <= i < copies + |middle| ==> PacketAt(arrivals, i).kind == FRAME || PacketAt(arrivals, i).kind == PROBE
      ensures i >= copies + |middle| ==> PacketAt(arrivals, i).kind == SESSION_END
    {
      AtPosition(arrivals, begins, middle, ends, drop, T, begin, ps, end, copies, i);
    }
    assert StartAt(arrivals, 0);
    EndIsAccepted(arrivals, T, copies + |middle|);
    forall j | 0 <= j < |ps| && SomeCopySent(drop, j, copies)
      ensures Came(arrivals, T, |arrivals|, j)
    {
      var c := SentCopy(drop, j, copies);
      var at := FrameOnWire(begins, middle, ends, drop, T, begin, ps, end, copies, j, c);
      assert arrivals[copies + at] == middle[at];
      FrameCame(arrivals, T, ps[j], copies + at, copies + |middle|);
    }
  }

  lemma {:induction false} WireSizes(begins: seq<seq<byte>>, middle: seq<seq<byte>>, ends: seq<seq<byte>>, drop: DropRule, T: Guid,
      begin: Packet, ps: seq<Packet>, end: Packet, copies: nat)
    requires SessionWire(begins, middle, ends, drop, T, begin, ps, end, copies)
    ensures |begins| == |ends| == copies
  {
  }

  lemma {:induction false} FrameOnWire(begins: seq<seq<byte>>, middle: seq<seq<byte>>, ends: seq<seq<byte>>, drop: DropRule, T: Guid,
      begin: Packet, ps: seq<Packet>, end: Packet, copies: nat, j: nat, c: nat) returns (at: nat)
    requires SessionWire(begins, middle, ends, drop, T, begin, ps, end, copies) && FramePackets(ps, T) && j < |ps| && c < copies && !drop(j, c)
    ensures at < |middle| && Decode(middle[at]).Ok? && KeyOf(Decode(middle[at]).value) == KeyOf(ps[j]) && ps[j].sequence == j && ps[j].kind == FRAME
  {
    hide CarriesCopy, Carry, Sender.Due, FrameDatagrams, Decode, KeyOf;
    OnWireExactly(drop, T, ps, copies, middle, j, c);
    var d :| d in middle && CarriesCopy(d, ps[j], c);
    at :| 0 <= at < |middle| && middle[at] == d;
    CarriedKey(d, ps[j], c);
  }

  lemma {:induction false} CarriedKey(d: seq<byte>, p: Packet, copy: nat)
    requires CarriesCopy(d, p, copy)
    ensures Decode(d).Ok? && KeyOf(Decode(d).value) == KeyOf(p)
  {
    hide Decode, ByteOf;
  }

  /** The first SessionEnd, after a SessionStart, is accepted. */
  lemma {:induction false} EndIsAccepted(arrivals: seq<seq<byte>>, T: Guid, e: nat)
    requires e < |arrivals| && e > 0 && StartAt(arrivals, 0)
    requires Arrives(arrivals, e) && PacketAt(arrivals, e).kind == SESSION_END && PacketAt(arrivals, e).testId == T
    requires forall i :: 0 <= i < e && Arrives(arrivals, i) ==> PacketAt(arrivals, i).kind != SESSION_END
    ensures EndAccepted(arrivals, T, e)
  {
    hide Decode;
  }

  /** A frame on the wire before the first SessionEnd comes in time. */
  lemma {:induction false} FrameCame(arrivals: seq<seq<byte>>, T: Guid, p: Packet, at: nat, bound: nat)
    requires at < bound <= |arrivals| && StartAt(arrivals, 0)
    requires Arrives(arrivals, at) && KeyOf(PacketAt(arrivals, at)) == KeyOf(p) && p.kind == FRAME && PacketAt(arrivals, at).testId == T
    requires forall i :: 0 <= i < bound && Arrives(arrivals, i) ==> PacketAt(arrivals, i).kind != SESSION_END
    ensures Came(arrivals, T, |arrivals|, p.sequence)
  {
    hide Decode, First;
    var first := FirstCopy(arrivals, at);
    KeyFixesKind(PacketAt(arrivals, first), PacketAt(arrivals, at));
    KeyFixesKind(PacketAt(arrivals, at), p);
    assert CameAt(arrivals, T, p.sequence, first);
  }

  lemma {:induction false} SidesPackets(w: World, T: Guid, m: Manifest, begin: Packet, ps: seq<Packet>, end: Packet, c: Coding, records: seq<seq<byte>>, start: Time)
    requires c.Valid() && Capture(records) && ValidTime(start) && TwoSides(w, T, m, begin, ps, end, c, records, start)
    ensures FramePackets(ps, T) && ControlPackets(begin, end, T)
  {
  }

  /** An undisturbed session in which every frame keeps a copy is reported as a success. */
  lemma {:induction false} UndisturbedSessionSucceeds(w: World, arrivals: seq<seq<byte>>, begins: seq<seq<byte>>, middle: seq<seq<byte>>, ends: seq<seq<byte>>, drop: DropRule,
      T: Guid, m: Manifest, begin: Packet, ps: seq<Packet>, end: Packet, copies: nat, c: Coding, start: Time, file: seq<byte>, hash: Hash)
    requires CaptureFile.Records(file).Ok? && |CaptureFile.Records(file).value| < 0x8000_0000 && c.Valid() && ValidTime(start)
    requires (CaptureFile.AcceptedIsCapture(file);
      var records := CaptureFile.Records(file).value; Describes(m, file, records, hash) && TwoSides(w, T, m, begin, ps, end, c, records, start))
    requires arrivals == begins + middle + ends && SessionWire(begins, middle, ends, drop, T, begin, ps, end, copies) && copies >= 1
    requires FromWire(arrivals, T, begin, ps, end) && forall j :: 0 <= j < |ps| ==> SomeCopySent(drop, j, copies)
    ensures ReportOf(w, hash, Run(w, arrivals, |arrivals|)) == Reported(true, true)
    ensures Reconstructed(Run(w, arrivals, |arrivals|).frames.records) == Ok(file)
  {
    hide CaptureFile.Records, ReportOf, Closed, Reconstructed, Describes, Capture, FrameCount, Run, Decode, Recovers, Honest, IsPacketOf, NativeAnswer, Coding.Valid, ValidTime,
      FromWire, Came, SessionWire, SomeCopySent, FrameCodec.Codes, Packets, ControlPackets;
    CaptureFile.AcceptedIsCapture(file);
    SidesPackets(w, T, m, begin, ps, end, c, CaptureFile.Records(file).value, start);
    WireDelivers(w, arrivals, T, m, begin, ps, end, c, start, file, hash, |arrivals|);
    DirectDelivery(arrivals, begins, middle, ends, drop, T, begin, ps, end, copies);
  }

  // ----- such sessions exist -----

  lemma {:induction false} OneRecord(record: seq<byte>)
    requires 0 < |record| <= 86
    ensures Capture([record]) && FrameCount([record]) == 1 && FramePair([record], 0) == ((0, 0), (0, 0))
    ensures CaptureFile.Framed([record]) != [] && CaptureFile.Records(CaptureFile.Framed([record])) == Ok([record])
  {
    hide CaptureFile.Parse;
    var records := [record];
    assert BlockIds(records, 0) == [] && RecordIds(records, 0) == [(0, 0)];
    assert BlockIds(records, 1) == [(0, 0)];
    CaptureFile.ReadInvertsWrite(records);
    assert records[..0] == [];
  }

  /** For every short record, test id, start time and hash there is a session as WireDelivers describes it: its hypotheses can be met. */
  lemma {:induction false} SessionsExist(record: seq<byte>, T: Guid, start: Time, hash: Hash)
      returns (w: World, m: Manifest, begin: Packet, ps: seq<Packet>, end: Packet, c: Coding)
    requires 0 < |record| <= 86 && ValidTime(start)
    ensures c.Valid() && Capture([record]) && CaptureFile.Records(CaptureFile.Framed([record])) == Ok([record])
    ensures Describes(m, CaptureFile.Framed([record]), [record], hash) && TwoSides(w, T, m, begin, ps, end, c, [record], start)
  {
    hide CaptureFile.Records, CaptureFile.Framed, FrameCodec.Codes, SentFrame, ByteOf, SentBits, TimeAfter, Sb2, ValidTime, NativeAnswer, Capture, FrameCount, FramePair;
    var records := [record];
    OneRecord(record);
    PairIds(records, 0);
    var sf2 := LdpcEncoder.Sf2Exists();
    var sf3 := LdpcEncoder.Sf3Exists();
    BothCodes(sf2, sf3);
    var b2, b3 := FrameCodec.WithCrc(Sb2(start, 0)), FrameCodec.WithCrc(SentBits(records, (0, 0)));
    c := Coding(sf2, sf3, _ => FrameCodec.Decoding(0, b2), _ => FrameCodec.Decoding(0, b3));
    var file := CaptureFile.Framed(records);
    m := Manifest(T, false, |file|, hash(file), 1, 1, 0);
    var codec := (toi: byte, f: seq<byte>) => NativeAnswer(c, toi, f);
    w := World(_ => Some(m), codec, CUSTOM_TYPE);
    begin := Packet(SESSION_START, T, 0, 0, 8, 0, 0, 0, 0, []);
    end := Packet(SESSION_END, T, 1, 0, 8, 0, 0, 0, 0, []);
    TimesAreConsecutive(start, 0);
    TimeFits(start);
    var t := TimeAfter(start, 0);
    ps := [Packet(FRAME, T, 0, 0, 8, t.week, t.intervalOfWeek, ByteOf(t.timeOfInterval), 0, SentFrame(c, records, start, 0))];
    assert IsPacketOf(ps[0], c, records, start, 0);
    assert b2[..|b2|] == b2 && b3[..|b3|] == b3;
    assert Recovers(c, records, start, 0);
  }

  lemma {:induction false} TimeFits(start: Time)
    requires ValidTime(start)
    ensures TimeAfter(start, 0).timeOfInterval < 256
  {
  }

  lemma {:induction false} BothCodes(sf2: LdpcEncoder.Code, sf3: LdpcEncoder.Code)
    requires LdpcEncoder.IsSf2(sf2) && LdpcEncoder.IsSf3(sf3)
    ensures FrameCodec.Codes(sf2, sf3)
  {
  }
}
