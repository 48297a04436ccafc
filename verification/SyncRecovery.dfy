/** Test D: damaged synchronisation patterns on the sender, re-synchronisation on the receiver. */
module SyncRecovery {
  import opened BitStrings
  import opened Results
  import opened BitPacking
  import opened PacketCodec
  import opened FrameReceiver
  import opened ErrorInjection
  import opened Synchronizer
  import opened Division
  import opened SortedKeys
  import LdpcEncoder
  import FrameCodec

  // ----- the sender -----

  datatype TestType = Normal | RandomErrors | BurstErrors | SyncDamage | UdpDrop

  /** The mode that ApplyFrameErrors chooses for a frame. */
  function FrameMode(t: TestType, index: nat, total: nat, interval: nat): Mode
    requires interval >= 1
  {
    match t
    case RandomErrors => Random
    case BurstErrors => Burst
    case SyncDamage => if index < total - 1 && index % interval == 0 then SyncLoss else NoErrors
    case _ => NoErrors
  }

  /** ApplyFrameErrors */
  method ApplyFrameErrors(frame: seq<byte>, t: TestType, errorCount: int, interval: nat, index: nat, total: nat, places: seq<nat>)
      returns (r: Result<seq<byte>>)
    requires interval >= 1
    requires var mode := FrameMode(t, index, total, interval);
      mode != NoErrors && 0 < errorCount <= To(mode) - From(mode, false) ==> Chosen(mode, false, errorCount, places)
    ensures var mode := FrameMode(t, index, total, interval);
      && (r.Ok? <==> |frame| == 750 && (mode == NoErrors || 0 <= errorCount <= To(mode) - From(mode, false)))
      && (r.Ok? ==> FlippedAt(frame, r.value, if mode == NoErrors || errorCount == 0 then [] else places))
  {
    hide FlippedAt;
    var mode := FrameMode(t, index, total, interval);
    r := Inject(frame, mode, false, if mode == NoErrors then 0 else errorCount, places);
  }

  /** What the five tests do to a frame: A and E send it as it is; B and C leave pattern and subframe 1 alone, C flipping one
      run of symbols; D flips pattern symbols only, in every interval-th frame but the last. */
  lemma {:induction false} ErrorsByTest(frame: seq<byte>, out: seq<byte>, t: TestType, count: nat, interval: nat, index: nat, total: nat, places: seq<nat>)
    requires interval >= 1 && count > 0 && |frame| == 750
    requires var mode := FrameMode(t, index, total, interval);
      (mode != NoErrors ==> Chosen(mode, false, count, places)) && FlippedAt(frame, out, if mode == NoErrors then [] else places)
    ensures t == Normal || t == UdpDrop ==> out == frame
    ensures t == RandomErrors || t == BurstErrors ==> |places| == count && forall p :: 0 <= p < 120 ==> StreamBit(out, p) == StreamBit(frame, p)
    ensures t == BurstErrors ==> FlippedRun(frame, out, places[0], count)
    ensures t == SyncDamage ==> (out == frame <==> index % interval != 0 || index + 1 >= total)
    ensures t == SyncDamage ==> forall p :: 68 <= p < 6000 ==> StreamBit(out, p) == StreamBit(frame, p)
  {
    hide StreamBit;
    var mode := FrameMode(t, index, total, interval);
    if mode == NoErrors {
      NothingFlipped(frame, out);
    } else {
      ErrorsStayInside(frame, out, mode, count, places);
      assert places[0] in places;
    }
  }

  /** The frames of a Test D session whose pattern is damaged. */
  predicate Damaged(index: nat, total: nat, interval: nat)
    requires interval >= 1
  {
    FrameMode(SyncDamage, index, total, interval) == SyncLoss
  }

  /** InjectedFrameCount after the first m of `total` frames. */
  function Injected(m: nat, total: nat, interval: nat): nat
    requires interval >= 1
  {
    if m == 0 then 0 else Injected(m - 1, total, interval) + if Damaged(m - 1, total, interval) then 1 else 0
  }

  /** ceil((m + 1) / d) exceeds ceil(m / d) exactly when d divides m. */
  lemma {:induction false} CeilingStep(m: nat, d: nat)
    requires d >= 1
    ensures (m + 1 + d - 1) / d == (m + d - 1) / d + if m % d == 0 then 1 else 0
  {
    var q, r := m / d, m % d;
    assert m == d * q + r;
    assert d * (q + 1) == d * q + d;
    DivisionUnique(m + d, d, q + 1, r);
    if r == 0 {
      DivisionUnique(m + d - 1, d, q, d - 1);
    } else {
      DivisionUnique(m + d - 1, d, q + 1, r - 1);
    }
  }

  lemma {:induction false} InjectedPrefix(m: nat, total: nat, interval: nat)
    requires interval >= 1 && m <= total - 1
    ensures Injected(m, total, interval) == (m + interval - 1) / interval
    decreases m
  {
    if m > 0 {
      InjectedPrefix(m - 1, total, interval);
      CeilingStep(m - 1, interval);
    } else {
      DivisionUnique(interval - 1, interval, 0, interval - 1);
    }
  }

  /** The number of damaged frames is ceil((total - 1) / interval). */
  lemma {:induction false} DamagedCount(total: nat, interval: nat)
    requires interval >= 1 && total >= 1
    ensures Injected(total, total, interval) == (total - 1 + interval - 1) / interval
  {
    InjectedPrefix(total - 1, total, interval);
  }

  // ----- the stream of Test D -----

  /** fs are the encoded frames, out what is sent: damaged frames have at least one pattern symbol flipped. */
  ghost predicate Sent(fs: seq<seq<byte>>, out: seq<seq<byte>>, interval: nat)
    requires interval >= 1
  {
    && |out| == |fs| && Frames(fs) && Frames(out)
    && (forall k :: 0 <= k < |fs| ==> SyncAt(fs[k], 0))
    && (forall k :: 0 <= k < |fs| && !Damaged(k, |fs|, interval) ==> out[k] == fs[k])
    && (forall k :: 0 <= k < |fs| && Damaged(k, |fs|, interval) ==> PatternDamaged(fs[k], out[k]))
  }

  ghost predicate PatternDamaged(frame: seq<byte>, out: seq<byte>) {
    exists places :: places != [] && (forall p :: p in places ==> p < 68) && FlippedAt(frame, out, places)
  }

  /** The Test D part of the loop of PrepareAsync: every frame through ApplyFrameErrors, counting those with flipped symbols. */
  method DamageFrames(fs: seq<seq<byte>>, errorCount: int, interval: nat, places: seq<seq<nat>>) returns (out: seq<seq<byte>>, injected: nat)
    requires interval >= 1 && 1 <= errorCount <= 68 && |places| == |fs|
    requires forall k :: 0 <= k < |fs| ==> |fs[k]| == 750 && SyncAt(fs[k], 0)
    requires forall k :: 0 <= k < |fs| && Damaged(k, |fs|, interval) ==> Chosen(SyncLoss, false, errorCount, places[k])
    ensures Sent(fs, out, interval) && injected == Injected(|fs|, |fs|, interval)
  {
    hide SyncAt, Chosen, FlippedAt, PatternDamaged;
    out, injected := [], 0;
    for k := 0 to |fs|
      invariant |out| == k && injected == Injected(k, |fs|, interval)
      invariant forall x :: 0 <= x < k ==> FrameSent(fs[x], out[x], Damaged(x, |fs|, interval))
    {
      var r := ApplyFrameErrors(fs[k], SyncDamage, errorCount, interval, k, |fs|, places[k]);
      if Damaged(k, |fs|, interval) {
        ChosenDamages(fs[k], r.value, errorCount, places[k]);
        injected := injected + 1;
      } else {
        NothingFlipped(fs[k], r.value);
      }
      out := out + [r.value];
    }
  }

  ghost predicate FrameSent(frame: seq<byte>, out: seq<byte>, damaged: bool) {
    |out| == 750 && if damaged then PatternDamaged(frame, out) else out == frame
  }

  lemma {:induction false} ChosenDamages(frame: seq<byte>, out: seq<byte>, errorCount: nat, places: seq<nat>)
    requires |frame| == 750 && errorCount >= 1 && Chosen(SyncLoss, false, errorCount, places) && FlippedAt(frame, out, places)
    ensures FrameSent(frame, out, true)
  {
    hide StreamBit;
    forall p | p in places
      ensures p < 68
    {
      var i :| 0 <= i < |places| && places[i] == p;
    }
  }

  lemma {:induction false} NothingFlipped(frame: seq<byte>, out: seq<byte>)
    requires |frame| == 750 && FlippedAt(frame, out, [])
    ensures out == frame
  {
    hide StreamBit;
    PackingUnique(out, frame);
  }

  /** One flipped symbol is enough to lose the pattern. */
  lemma {:induction false} DamageIsSeen(frame: seq<byte>, out: seq<byte>)
    requires |frame| == |out| == 750 && SyncAt(frame, 0) && PatternDamaged(frame, out)
    ensures !SyncAt(out, 0)
  {
    hide StreamBit;
    var places :| places != [] && (forall p :: p in places ==> p < 68) && FlippedAt(frame, out, places);
    var p := places[0];
    assert p in places;
    assert StreamBit(frame, 0 + p) == StreamBit(SYNC_BYTES, p) && StreamBit(out, 0 + p) != StreamBit(frame, 0 + p);
  }

  /** In the sent stream the frame boundaries where the pattern stands are exactly those of the undamaged frames, and
      the frame cut out there is the encoded frame. */
  lemma {:induction false} BoundariesFound(fs: seq<seq<byte>>, out: seq<seq<byte>>, interval: nat, k: nat)
    requires interval >= 1 && Sent(fs, out, interval) && k < |fs|
    ensures |Stream(out)| == 750 * |fs| && (SyncAt(Stream(out), 6000 * k) <==> !Damaged(k, |fs|, interval))
    ensures !Damaged(k, |fs|, interval) ==> Cut(Stream(out), 6000 * k) == fs[k]
  {
    hide Stream, SyncAt, Cut, PatternDamaged;
    SyncAtBoundary(out, k);
    CutAtBoundary(out, k);
    if Damaged(k, |fs|, interval) {
      DamageIsSeen(fs[k], out[k]);
    }
  }

  // ----- the receiver -----

  type Codec = (byte, seq<byte>) -> FrameCodec.DecodeResult

  /** The loop of RecoverSynchronizedAsync over the found offsets; false when an exception leaves it. */
  function Replay(codec: Codec, expectedType: int, tois: seq<byte>, stream: seq<byte>, offsets: seq<nat>, start: ReceiverState): (ReceiverState, bool)
  {
    if offsets == [] then (start, true)
    else
      var n := |offsets| - 1;
      var (s, returned) := Replay(codec, expectedType, tois, stream, offsets[..n], start);
      var index := offsets[n] / 6000;
      if !returned then (s, false)
      else if index >= |tois| then (s, true)
      else if offsets[n] + 6000 > 8 * |stream| then (s, false)
      else Receive(s, codec(tois[index], Cut(stream, offsets[n])), expectedType)
  }

  function Tois(frames: seq<Packet>): (t: seq<byte>)
    ensures |t| == |frames|
  {
    seq(|frames|, k requires 0 <= k < |frames| => frames[k].timeOfInterval)
  }

  function Payloads(frames: seq<Packet>): (p: seq<seq<byte>>)
    ensures |p| == |frames|
  {
    seq(|frames|, k requires 0 <= k < |frames| => frames[k].payload)
  }

  function SearchEnd(stream: seq<byte>): nat {
    if 8 * |stream| < 68 then 0 else 8 * |stream| - 67
  }

  /** RecoverSynchronizedAsync; offsets.Count becomes RecoveredSyncFrames. */
  method RecoverSynchronized(codec: Codec, frames: seq<Packet>, receiver: Receiver) returns (offsets: seq<nat>, returned: bool)
    modifies receiver, receiver.reassembler
    ensures frames == [] ==> offsets == [] && returned && receiver.State() == old(receiver.State())
    ensures frames != [] ==> ListsSyncs(Stream(Payloads(frames)), SearchEnd(Stream(Payloads(frames))), offsets)
    ensures frames != [] ==>
      (receiver.State(), returned) == Replay(codec, receiver.expectedType, Tois(frames), Stream(Payloads(frames)), offsets, old(receiver.State()))
  {
    hide Receive, Stream, Cut, SyncAt, ListsSyncs;
    if frames == [] { return [], true; }
    var stream := Stream(Payloads(frames));
    var found := FindSyncOffsets(stream, 8 * |stream|);
    offsets := found.value;
    for x := 0 to |offsets|
      invariant (receiver.State(), true) == Replay(codec, receiver.expectedType, Tois(frames), stream, offsets[..x], old(receiver.State()))
    {
      assert offsets[..x + 1][..x] == offsets[..x];
      var index := offsets[x] / 6000;
      if index >= |frames| { continue; }
      var cut := ExtractFrame(stream, offsets[x]);
      if cut.InvalidData? {
        ReplayStops(codec, receiver.expectedType, Tois(frames), stream, offsets, old(receiver.State()), x + 1);
        return offsets, false;
      }
      var ok := receiver.DecodeFrame(codec(frames[index].timeOfInterval, cut.value));
      if !ok {
        ReplayStops(codec, receiver.expectedType, Tois(frames), stream, offsets, old(receiver.State()), x + 1);
        return offsets, false;
      }
    }
    assert offsets[..|offsets|] == offsets;
    returned := true;
  }

  lemma {:induction false} ReplayStops(codec: Codec, expectedType: int, tois: seq<byte>, stream: seq<byte>, offsets: seq<nat>, start: ReceiverState, x: nat)
    requires x <= |offsets| && !Replay(codec, expectedType, tois, stream, offsets[..x], start).1
    ensures Replay(codec, expectedType, tois, stream, offsets, start) == Replay(codec, expectedType, tois, stream, offsets[..x], start)
    decreases |offsets| - x
  {
    hide Receive, Cut;
    if x < |offsets| {
      assert offsets[..x + 1][..x] == offsets[..x];
      ReplayStops(codec, expectedType, tois, stream, offsets, start, x + 1);
    } else {
      assert offsets[..x] == offsets;
    }
  }

  // ----- when recovery throws -----

  /** The frame at offset o can be cut out and passes the codec's argument check. */
  ghost predicate CutPasses(codec: Codec, tois: seq<byte>, stream: seq<byte>, o: nat) {
    o / 6000 < |tois| ==> o + 6000 <= 8 * |stream| && !codec(tois[o / 6000], Cut(stream, o)).BadArgument?
  }

  /** For every stream, whatever the lengths of the kept payloads: recovery returns exactly when every found offset that
      belongs to a kept frame leaves room for a frame, and the codec accepts its arguments. */
  lemma {:induction false} ThrowsExactly(codec: Codec, expectedType: int, tois: seq<byte>, stream: seq<byte>, offsets: seq<nat>, start: ReceiverState)
    requires WellShaped(start.records)
    ensures Replay(codec, expectedType, tois, stream, offsets, start).1 <==> forall o :: o in offsets ==> CutPasses(codec, tois, stream, o)
    ensures WellShaped(Replay(codec, expectedType, tois, stream, offsets, start).0.records)
    decreases |offsets|
  {
    hide Receive, WellShaped, Cut;
    if offsets != [] {
      var n := |offsets| - 1;
      ThrowsExactly(codec, expectedType, tois, stream, offsets[..n], start);
      var s := Replay(codec, expectedType, tois, stream, offsets[..n], start).0;
      var o := offsets[n];
      assert o in offsets && offsets == offsets[..n] + [o];
      if o / 6000 < |tois| && o + 6000 <= 8 * |stream| {
        ReceiveKeepsShape(s, codec(tois[o / 6000], Cut(stream, o)), expectedType);
      }
    }
  }

  /** The argument check of the native codec's wrapper, on frames of 750 bytes. */
  ghost predicate ChecksInterval(codec: Codec) {
    forall toi, f :: |f| == 750 ==> (codec(toi, f).BadArgument? <==> toi > 99)
  }

  /** A pattern too close to the end of a stream of n whole frames for a frame to be cut out. */
  predicate TooLate(o: nat, n: nat) {
    o > 6000 * (n - 1)
  }

  /** For whole frames: recovery returns exactly when no pattern stands past the start of the last frame, and no pattern
      stands in a frame whose interval is above 99. */
  lemma {:induction false} WholeFramesThrow(codec: Codec, expectedType: int, tois: seq<byte>, fs: seq<seq<byte>>, offsets: seq<nat>, start: ReceiverState)
    requires WellShaped(start.records) && ChecksInterval(codec) && Frames(fs) && |tois| == |fs|
    requires ListsSyncs(Stream(fs), SearchEnd(Stream(fs)), offsets)
    ensures Replay(codec, expectedType, tois, Stream(fs), offsets, start).1 <==>
      forall o :: 0 <= o && o + 68 <= 8 * |Stream(fs)| && SyncAt(Stream(fs), o) ==> !TooLate(o, |fs|) && o / 6000 < |tois| && tois[o / 6000] <= 99
  {
    hide SyncAt, Stream, Replay, Cut, WellShaped, Increasing;
    StreamLength(fs);
    ThrowsExactly(codec, expectedType, tois, Stream(fs), offsets, start);
    forall o | 0 <= o && o + 68 <= 8 * |Stream(fs)|
      ensures o in offsets <==> SyncAt(Stream(fs), o)
      ensures CutPasses(codec, tois, Stream(fs), o) <==> !TooLate(o, |fs|) && o / 6000 < |tois| && tois[o / 6000] <= 99
    {
    }
  }

  /** A frame whose payload holds the pattern at byte 100. */
  function SpuriousFrame(): (f: seq<byte>)
    ensures |f| == 750
  {
    seq(750, k requires 0 <= k < 750 => if k < 9 then SYNC_BYTES[k] else if 100 <= k < 109 then SYNC_BYTES[k - 100] else 0)
  }

  lemma {:induction false} SpuriousPatterns()
    ensures SyncAt(SpuriousFrame(), 0) && SyncAt(SpuriousFrame(), 800)
  {
    hide BitAt;
    var f := SpuriousFrame();
    forall i | 0 <= i < 68
      ensures StreamBit(f, 0 + i) == StreamBit(SYNC_BYTES, i) && StreamBit(f, 800 + i) == StreamBit(SYNC_BYTES, i)
    {
      assert (800 + i) / 8 == 100 + i / 8 && (800 + i) % 8 == i % 8;
    }
  }

  /** Such a frame as the last of a Test D session makes the receiver throw, whatever its interval. */
  lemma {:induction false} SpuriousPatternThrows(codec: Codec, expectedType: int, toi: byte, offsets: seq<nat>, start: ReceiverState)
    requires WellShaped(start.records)
    requires ListsSyncs(SpuriousFrame(), SearchEnd(SpuriousFrame()), offsets)
    ensures !Replay(codec, expectedType, [toi], SpuriousFrame(), offsets, start).1
  {
    hide Replay, WellShaped, Cut, SyncAt, Increasing, SpuriousFrame;
    SpuriousPatterns();
    assert 800 in offsets;
    ThrowsExactly(codec, expectedType, [toi], SpuriousFrame(), offsets, start);
  }

  /** One frame with interval 100 that begins with the pattern throws, although the pattern is in its place. */
  lemma {:induction false} IntervalAbove99Throws(codec: Codec, expectedType: int, f: seq<byte>, offsets: seq<nat>, start: ReceiverState)
    requires WellShaped(start.records) && ChecksInterval(codec) && |f| == 750 && SyncAt(f, 0)
    requires ListsSyncs(f, SearchEnd(f), offsets)
    ensures !Replay(codec, expectedType, [100], f, offsets, start).1
  {
    hide Replay, WellShaped, Cut, SyncAt, Increasing;
    assert 0 in offsets;
    ThrowsExactly(codec, expectedType, [100], f, offsets, start);
  }

  // ----- the verdict of Test D -----

  /** Every found pattern stands at a frame boundary: no payload or frame overlap imitates it. */
  ghost predicate Aligned(offsets: seq<nat>) {
    forall o :: o in offsets ==> o % 6000 == 0
  }

  ghost predicate NoImitation(stream: seq<byte>) {
    forall o :: 0 <= o && o + 68 <= 8 * |stream| && SyncAt(stream, o) ==> o % 6000 == 0
  }

  /** The boundaries of the first m frames that begin with the pattern. */
  ghost function Boundaries(out: seq<seq<byte>>, m: nat): seq<nat>
    requires Frames(out) && m <= |out|
    decreases m
  {
    if m == 0 then [] else Boundaries(out, m - 1) + if SyncAt(out[m - 1], 0) then [6000 * (m - 1)] else []
  }

  lemma {:induction false} BoundariesListed(out: seq<seq<byte>>, m: nat)
    requires Frames(out) && m <= |out|
    ensures Increasing(Boundaries(out, m)) && forall o :: o in Boundaries(out, m) ==> o < 6000 * m
    ensures forall o :: o in Boundaries(out, m) <==> 0 <= o && o % 6000 == 0 && o / 6000 < m && SyncAt(out[o / 6000], 0)
    decreases m
  {
    hide SyncAt;
    if m > 0 {
      BoundariesListed(out, m - 1);
      var front := Boundaries(out, m - 1);
      forall i | 0 <= i < |front|
        ensures front[i] < 6000 * (m - 1)
      {
        assert front[i] in front;
      }
    }
  }

  /** Without imitations the search finds exactly the boundaries of the frames that begin with the pattern. */
  lemma {:induction false} SearchFindsBoundaries(out: seq<seq<byte>>, offsets: seq<nat>)
    requires Frames(out) && Aligned(offsets)
    requires ListsSyncs(Stream(out), SearchEnd(Stream(out)), offsets)
    ensures offsets == Boundaries(out, |out|)
  {
    hide SyncAt, Stream, Boundaries, Increasing;
    StreamLength(out);
    BoundariesListed(out, |out|);
    forall o
      ensures o in offsets <==> o in Boundaries(out, |out|)
    {
      if 0 <= o && o % 6000 == 0 && o / 6000 < |out| {
        SyncAtBoundary(out, o / 6000);
        assert 6000 * (o / 6000) == o;
      }
    }
    IncreasingUnique(offsets, Boundaries(out, |out|));
  }

  /** With or without imitations the boundaries of the frames that begin with the pattern are among the findings. */
  lemma {:induction false} BoundariesAmongFound(out: seq<seq<byte>>, offsets: seq<nat>)
    requires Frames(out) && ListsSyncs(Stream(out), SearchEnd(Stream(out)), offsets)
    ensures |Boundaries(out, |out|)| <= |offsets|
    ensures |Boundaries(out, |out|)| == |offsets| <==> Aligned(offsets)
    ensures Aligned(offsets) <==> NoImitation(Stream(out))
  {
    hide SyncAt, Stream, Boundaries, Increasing;
    StreamLength(out);
    BoundariesListed(out, |out|);
    forall o | o in Boundaries(out, |out|)
      ensures o in offsets
    {
      SyncAtBoundary(out, o / 6000);
      assert 6000 * (o / 6000) == o;
    }
    IncreasingPart(Boundaries(out, |out|), offsets);
    if Aligned(offsets) {
      SearchFindsBoundaries(out, offsets);
    }
  }

  lemma {:induction false} BoundaryCount(fs: seq<seq<byte>>, out: seq<seq<byte>>, interval: nat, m: nat)
    requires interval >= 1 && Sent(fs, out, interval) && m <= |fs|
    ensures |Boundaries(out, m)| == m - Injected(m, |fs|, interval)
    decreases m
  {
    hide SyncAt, PatternDamaged, Damaged;
    if m > 0 {
      BoundaryCount(fs, out, interval, m - 1);
      if Damaged(m - 1, |fs|, interval) {
        DamageIsSeen(fs[m - 1], out[m - 1]);
      }
    }
  }

  /** The decoded counter gains one for every found offset exactly when the codec decodes every frame cut out. */
  lemma {:induction false} DecodedCounted(codec: Codec, expectedType: int, tois: seq<byte>, stream: seq<byte>, offsets: seq<nat>, start: ReceiverState)
    requires |stream| == 750 * |tois| && WellShaped(start.records) && forall o :: o in offsets ==> o + 6000 <= 8 * |stream|
    ensures var (s, returned) := Replay(codec, expectedType, tois, stream, offsets, start);
      var all := forall o :: o in offsets ==> codec(tois[o / 6000], Cut(stream, o)).Decoded?;
      && s.counters.decoded <= start.counters.decoded + |offsets|
      && (s.counters.decoded == start.counters.decoded + |offsets| <==> all)
      && (all ==> returned)
    decreases |offsets|
  {
    hide Receive, WellShaped, Cut;
    if offsets != [] {
      var n := |offsets| - 1;
      var o := offsets[n];
      assert o in offsets && offsets == offsets[..n] + [o] && forall x :: x in offsets[..n] ==> x in offsets;
      DecodedCounted(codec, expectedType, tois, stream, offsets[..n], start);
      ThrowsExactly(codec, expectedType, tois, stream, offsets[..n], start);
      var s := Replay(codec, expectedType, tois, stream, offsets[..n], start).0;
      ReceiveCounts(s, codec(tois[o / 6000], Cut(stream, o)), expectedType);
      ReceiveKeepsShape(s, codec(tois[o / 6000], Cut(stream, o)), expectedType);
    }
  }

  lemma {:induction false} ReceiveCounts(s: ReceiverState, d: FrameCodec.DecodeResult, expectedType: int)
    ensures Receive(s, d, expectedType).0.counters.decoded == s.counters.decoded + if d.Decoded? then 1 else 0
  {
    hide TakeBlocks;
  }

  /** The Test D line of CreateReceiverWireResult. */
  predicate Passed(received: nat, frameCount: int, injected: int, recovered: nat, decoded: nat) {
    received == frameCount && recovered == frameCount - injected && decoded == frameCount - injected
  }

  /** When all frames of a Test D session arrive, the counters agree with the manifest exactly when nothing in the stream
      imitates the pattern and the codec decodes every undamaged frame; recovery then has not thrown. */
  lemma {:induction false} TestDVerdict(codec: Codec, expectedType: int, tois: seq<byte>, fs: seq<seq<byte>>, out: seq<seq<byte>>, interval: nat, offsets: seq<nat>)
    requires interval >= 1 && Sent(fs, out, interval) && |tois| == |fs|
    requires ListsSyncs(Stream(out), SearchEnd(Stream(out)), offsets)
    ensures var (s, returned) := Replay(codec, expectedType, tois, Stream(out), offsets, INITIAL_STATE);
      var injected := Injected(|fs|, |fs|, interval);
      var passed := Passed(|fs|, |fs|, injected, |offsets|, s.counters.decoded);
      && (passed ==> returned)
      && (passed <==> NoImitation(Stream(out)) && forall k :: 0 <= k < |fs| && !Damaged(k, |fs|, interval) ==> codec(tois[k], fs[k]).Decoded?)
  {
    hide Stream, SyncAt, Cut, Boundaries, ListsSyncs, Damaged, Replay, PatternDamaged, Injected, NoImitation;
    StreamLength(out);
    BoundaryCount(fs, out, interval, |fs|);
    BoundariesAmongFound(out, offsets);
    if Aligned(offsets) {
      AlignedVerdict(codec, expectedType, tois, fs, out, interval, offsets);
    }
  }

  lemma {:induction false} AlignedVerdict(codec: Codec, expectedType: int, tois: seq<byte>, fs: seq<seq<byte>>, out: seq<seq<byte>>, interval: nat, offsets: seq<nat>)
    requires interval >= 1 && Sent(fs, out, interval) && |tois| == |fs|
    requires ListsSyncs(Stream(out), SearchEnd(Stream(out)), offsets) && Aligned(offsets)
    ensures var (s, returned) := Replay(codec, expectedType, tois, Stream(out), offsets, INITIAL_STATE);
      var all := forall k :: 0 <= k < |fs| && !Damaged(k, |fs|, interval) ==> codec(tois[k], fs[k]).Decoded?;
      (s.counters.decoded == |offsets| <==> all) && (all ==> returned)
  {
    hide Stream, SyncAt, Cut, Boundaries, ListsSyncs, Damaged, Replay, PatternDamaged;
    var stream := Stream(out);
    StreamLength(out);
    SearchFindsBoundaries(out, offsets);
    BoundariesListed(out, |out|);
    forall o | o in offsets
      ensures o + 6000 <= 8 * |stream| && o / 6000 < |fs| && o == 6000 * (o / 6000)
    {
    }
    DecodedCounted(codec, expectedType, tois, stream, offsets, INITIAL_STATE);
    forall k | 0 <= k < |fs|
      ensures 6000 * k in offsets <==> !Damaged(k, |fs|, interval)
      ensures !Damaged(k, |fs|, interval) ==> Cut(stream, 6000 * k) == fs[k]
    {
      BoundariesFound(fs, out, interval, k);
      SyncAtBoundary(out, k);
      assert 6000 * k % 6000 == 0 && 6000 * k / 6000 == k;
    }
    if forall o :: o in offsets ==> codec(tois[o / 6000], Cut(stream, o)).Decoded? {
      forall k | 0 <= k < |fs| && !Damaged(k, |fs|, interval)
        ensures codec(tois[k], fs[k]).Decoded?
      {
        assert 6000 * k in offsets && 6000 * k / 6000 == k;
      }
    }
    if forall k :: 0 <= k < |fs| && !Damaged(k, |fs|, interval) ==> codec(tois[k], fs[k]).Decoded? {
      forall o | o in offsets
        ensures codec(tois[o / 6000], Cut(stream, o)).Decoded?
      {
        var k := o / 6000;
        assert 6000 * k in offsets;
      }
    }
  }

  // ----- with the native codec -----

  lemma {:induction false} PatternInBits(f: seq<byte>)
    requires |f| == 750
    ensures SyncAt(f, 0) <==> BitsOf(f, 6000)[..68] == FrameCodec.SyncBits()
  {
    hide StreamBit;
    var a, b := BitsOf(f, 6000)[..68], FrameCodec.SyncBits();
    if a == b {
      forall i | 0 <= i < 68
        ensures StreamBit(f, 0 + i) == StreamBit(SYNC_BYTES, i)
      {
        assert a[i] == b[i];
      }
    }
    if SyncAt(f, 0) {
      forall i | 0 <= i < 68
        ensures a[i] == b[i]
      {
        assert StreamBit(f, 0 + i) == StreamBit(SYNC_BYTES, i);
      }
    }
  }

  /** Every encoded frame begins with the pattern. */
  lemma {:induction false} EncodedBeginsWithPattern(sf2: LdpcEncoder.Code, sf3: LdpcEncoder.Code, toi: nat, sb2: Bits, sb3: Bits, sb4: Bits)
    requires FrameCodec.Codes(sf2, sf3) && |sb2| == 1176 && |sb3| == |sb4| == 846
    ensures var f := PackBits(FrameCodec.FrameBits(sf2, sf3, toi, sb2, sb3, sb4)); |f| == 750 && SyncAt(f, 0)
  {
    hide FrameCodec.FrameBits, PackBits, BitsOf, FrameCodec.SyncBits, SyncAt;
    var bits := FrameCodec.FrameBits(sf2, sf3, toi, sb2, sb3, sb4);
    UnpackInvertsPack(bits);
    FrameCodec.BlocksRecovered(sf2, sf3, toi, sb2, sb3, sb4);
    PatternInBits(PackBits(bits));
  }

  /** The native decoder refuses every frame that does not begin with it, so a damaged frame is never decoded. */
  lemma {:induction false} NoPatternRefused(dec2: FrameCodec.Decoder, dec3: FrameCodec.Decoder, toi: nat, f: seq<byte>, buf2: Bits, buf3: Bits, buf4: Bits)
    requires FrameCodec.DecoderWidth(dec2, 1200) && FrameCodec.DecoderWidth(dec3, 870) && |f| == 750
    ensures FrameCodec.DecodeSpec(dec2, dec3, toi, BitsOf(f, 6000), buf2, buf3, buf4) == FrameCodec.SyncMismatch <==> !SyncAt(f, 0)
  {
    hide SyncAt, BitsOf, FrameCodec.SyncBits, FrameCodec.Sf1;
    PatternInBits(f);
  }
}
