/** ReceiveAsync as a whole: the loop, re-synchronisation in Test D, the reconstruction and the verdict. */
module ReceiveSession {
  import opened Results
  import opened BitStrings
  import opened BitPacking
  import opened BigEndian
  import opened PacketCodec
  import opened FragmentCodec
  import opened SortedKeys
  import opened AnyOrder
  import opened FramePreparation
  import opened Reassembly
  import opened FrameReceiver
  import opened ReceiveLoop
  import opened Delivery
  import opened Synchronizer
  import SyncRecovery
  import SyncSession
  import CaptureFile
  import FrameCodec

  /** How a session ends for the receiver: it waits for ever, an exception leaves it, or it reports. */
  datatype Report = Waiting | Threw | Reported(success: bool, passed: bool)

  /** Where the pattern stands in a stream. */
  ghost function Findings(stream: seq<byte>): seq<nat> {
    Syncs(stream, SyncRecovery.SearchEnd(stream))
  }

  /** The receiver's state after the loop and, in Test D, after re-synchronisation; whether that returned; and what it found. */
  ghost function AfterLoop(w: World, m: Manifest, s: Loop): (ReceiverState, bool, nat) {
    if !m.syncRecovery then (s.frames, true, 0)
    else
      var frames := SyncSession.InOrder(s.syncFrames);
      var stream := Stream(SyncRecovery.Payloads(frames));
      var offsets := Findings(stream);
      var (r, returned) := SyncRecovery.Replay(w.codec, w.expectedType, SyncRecovery.Tois(frames), stream, offsets, s.frames);
      (r, returned, |offsets|)
  }

  /** The verdict of CreateReceiverWireResult. */
  predicate Verdict(m: Manifest, received: nat, found: nat, decoded: nat, success: bool) {
    if m.syncRecovery then SyncRecovery.Passed(received, m.frameCount, m.injectedFrameCount, found, decoded) else success
  }

  /** What is reported once the loop is in state s. */
  ghost function ReportOf(w: World, hash: Hash, s: Loop): Report {
    if s.phase.Receiving? then Waiting
    else if s.phase.Failed? || s.manifest.None? then Threw
    else
      var m := s.manifest.value;
      var (r, returned, found) := AfterLoop(w, m, s);
      if !returned then Threw
      else
        var success := Success(r.records, m, hash);
        if success.InvalidData? then Threw
        else Reported(success.value, Verdict(m, |s.frameSequences|, found, r.counters.decoded, success.value))
  }

  /** ReceiveAsync on the datagrams that arrive. */
  method ReceiveAsync(w: World, arrivals: seq<seq<byte>>, hash: Hash) returns (r: Report)
    ensures r == ReportOf(w, hash, Run(w, arrivals, |arrivals|))
  {
    hide Run, Success, SyncRecovery.Replay, Syncs, Stream, SyncAt, SyncSession.InOrder, SyncRecovery.Payloads, SyncRecovery.Tois;
    var frames := new Receiver(w.expectedType);
    var loop := ReceiveAll(w, arrivals, frames);
    if loop.phase.Receiving? { return Waiting; }
    if loop.phase.Failed? || loop.manifest.None? { return Threw; }
    var m := loop.manifest.value;
    var found := 0;
    if m.syncRecovery {
      var kept := SyncSession.InOrder(loop.syncFrames);
      NoFrames(w, kept, frames.State());
      var offsets, returned := SyncRecovery.RecoverSynchronized(w.codec, kept, frames);
      if kept != [] {
        var stream := Stream(SyncRecovery.Payloads(kept));
        SyncsUnique(stream, SyncRecovery.SearchEnd(stream), offsets);
      }
      if !returned { return Threw; }
      found := |offsets|;
    }
    var success := Conclude(frames, m, hash);
    if success.InvalidData? { return Threw; }
    r := Reported(success.value, Verdict(m, |loop.frameSequences|, found, frames.counters.decoded, success.value));
  }

  lemma {:induction false} NoFrames(w: World, kept: seq<Packet>, start: ReceiverState)
    ensures kept == [] ==> var stream := Stream(SyncRecovery.Payloads(kept));
      Findings(stream) == [] && SyncRecovery.Replay(w.codec, w.expectedType, SyncRecovery.Tois(kept), stream, Findings(stream), start) == (start, true)
  {
  }

  /** Whatever arrives and whatever the codec answers: a report says success exactly when the receiver holds as many records as
      the manifest in force says, each complete with its stated length and checksum, and the file written from them has the
      length and hash of that manifest. */
  lemma {:induction false} ReportedSuccessMeans(w: World, arrivals: seq<seq<byte>>, hash: Hash, n: nat)
    requires n <= |arrivals| && ReportOf(w, hash, Run(w, arrivals, n)).Reported?
    ensures var s := Run(w, arrivals, n);
      s.datagrams <= n && s.manifest.Some? && s.manifest == InForce(w, arrivals, s.datagrams) && var m := s.manifest.value; var held := AfterLoop(w, m, s).0.records;
      && (ReportOf(w, hash, s).success <==>
          && (forall k :: k in held ==> IsComplete(held[k]) && Checked(held[k], Joined(Payloads(held[k]))))
          && |held.Keys| == m.recordCount
          && Reconstructed(held).Ok? && |Reconstructed(held).value| == m.sourceLength && hash(Reconstructed(held).value) == m.sourceHash)
  {
    hide Run, AfterLoop, Verdict, Success, Reconstructed, Checked, IsComplete, Joined, Payloads, InForce;
    var s := Run(w, arrivals, n);
    EndedWithManifest(w, arrivals, n);
    SuccessMeans(AfterLoop(w, s.manifest.value, s).0.records, s.manifest.value, hash);
  }

  /** CompleteRecords does not throw: every complete record has its stated length and checksum. */
  ghost predicate Readable(held: Records) {
    AscendingKeys(held.Keys);
    Complete(held, Ascending(held.Keys)).Ok?
  }

  /** How every run ends: it waits exactly when no SessionEnd was accepted and nothing failed; it reports exactly when a
      SessionEnd was accepted first, re-synchronisation returned, and every complete record can be read back; else it throws. */
  lemma {:induction false} ReportsExactly(w: World, arrivals: seq<seq<byte>>, hash: Hash, n: nat)
    requires n <= |arrivals|
    ensures var s := Run(w, arrivals, n); var r := ReportOf(w, hash, s);
      && (r.Waiting? <==> !OverBefore(w, arrivals, n))
      && (s.phase.Ended? <==> exists e :: 0 <= e < n && EndsAt(w, arrivals, e) && !OverBefore(w, arrivals, e))
      && (r.Reported? <==> s.phase.Ended? && s.manifest.Some? && AfterLoop(w, s.manifest.value, s).1 && Readable(AfterLoop(w, s.manifest.value, s).0.records))
      && (s.phase.Ended? ==> s.manifest.Some?)
  {
    hide Run, AfterLoop, Verdict, OverBefore, EndsAt, InForce, Complete, Incomplete, Ascending, CaptureFile.Framed;
    FailedExactly(w, arrivals, n);
    EndedExactly(w, arrivals, n);
    if Run(w, arrivals, n).phase.Ended? {
      EndedWithManifest(w, arrivals, n);
    }
  }

  // ----- sessions outside Test D -----

  /** Some SessionEnd of test T was accepted among the first n datagrams. */
  ghost predicate Closed(arrivals: seq<seq<byte>>, T: Guid, n: nat)
    requires n <= |arrivals|
  {
    exists e :: 0 <= e < n && EndAccepted(arrivals, T, e)
  }

  /** For every accepted capture file and every sequence of arriving datagrams of its session: the receiver reports exactly
      when a SessionEnd is accepted, and until then waits; it reports success exactly when, besides, the first copy of every
      frame arrives in time and decodes; and the reconstructed file is then the capture file, byte for byte. */
  lemma {:induction false} SessionDelivers(w: World, arrivals: seq<seq<byte>>, T: Guid, m: Manifest, file: seq<byte>, hash: Hash, n: nat)
    requires n <= |arrivals| && CaptureFile.Records(file).Ok? && |CaptureFile.Records(file).value| < 0x8000_0000
    requires (CaptureFile.AcceptedIsCapture(file);
      var records := CaptureFile.Records(file).value; Describes(m, file, records, hash) && SessionOf(w, arrivals, T, m, records))
    ensures var records, s := CaptureFile.Records(file).value, Run(w, arrivals, n); var r := ReportOf(w, hash, s);
      && (if Closed(arrivals, T, n) then r.Reported? else r.Waiting?)
      && (r == Reported(true, true) <==> Closed(arrivals, T, n) && forall j :: 0 <= j < FrameCount(records) ==> GotInTime(w, arrivals, T, n, j))
      && (r.Reported? ==> r.passed == r.success)
      && (r.Reported? && r.success ==> Reconstructed(s.frames.records) == Ok(file))
  {
    hide CaptureFile.Records, Success, Reconstructed, GotInTime, Describes, Capture, FrameCount, Run, FailsAt, EndAccepted, SessionOf;
    CaptureFile.AcceptedIsCapture(file);
    var records := CaptureFile.Records(file).value;
    StateDelivers(w, arrivals, T, m, file, hash, n);
    SessionCloses(w, arrivals, T, m, records, n);
  }

  lemma {:induction false} SessionCloses(w: World, arrivals: seq<seq<byte>>, T: Guid, m: Manifest, records: seq<seq<byte>>, n: nat)
    requires n <= |arrivals| && Capture(records) && SessionOf(w, arrivals, T, m, records)
    ensures var s := Run(w, arrivals, n);
      (if Closed(arrivals, T, n) then s.phase.Ended? && s.manifest == Some(m) else s.phase.Receiving?) && !m.syncRecovery
  {
    hide Run, FailsAt, EndAccepted, Honest, InForce, Decode, First;
    forall e | 0 <= e < n
      ensures OneSession(w, arrivals, T) && !FailsAt(w, arrivals, e)
    {
      SessionNeverFails(w, arrivals, T, m, records, e);
    }
    if n == 0 {
      NothingArrived(w, arrivals);
    } else {
      assert OneSession(w, arrivals, T) by { SessionNeverFails(w, arrivals, T, m, records, 0); }
      SessionEnds(w, arrivals, T, n);
      ManifestInForce(w, arrivals, m, n);
    }
  }

  lemma {:induction false} NothingArrived(w: World, arrivals: seq<seq<byte>>)
    ensures Run(w, arrivals, 0).phase.Receiving?
  {
  }

  lemma {:induction false} ManifestInForce(w: World, arrivals: seq<seq<byte>>, m: Manifest, n: nat)
    requires n <= |arrivals| && forall i :: 0 <= i < |arrivals| && StartAt(arrivals, i) ==> w.read(PacketAt(arrivals, i).payload) == Some(m)
    ensures Run(w, arrivals, n).phase.Ended? ==> Run(w, arrivals, n).manifest == Some(m)
  {
    hide Run, InForce, Decode;
    var s := Run(w, arrivals, n);
    if s.phase.Ended? {
      EndedWithManifest(w, arrivals, n);
      InForceIs(w, arrivals, m, s.datagrams);
    }
  }

  // ----- Test D -----

  lemma {:induction false} SyncSessionCloses(w: World, arrivals: seq<seq<byte>>, T: Guid, m: Manifest, tois: seq<byte>, out: seq<seq<byte>>, n: nat)
    requires n <= |arrivals| && SyncSession.SyncSessionOf(w, arrivals, T, m, tois, out)
    ensures var s := Run(w, arrivals, n);
      (if Closed(arrivals, T, n) then s.phase.Ended? && s.manifest == Some(m) else s.phase.Receiving?) && m.syncRecovery
  {
    hide Run, FailsAt, EndAccepted, InForce, Decode, First;
    forall e | 0 <= e < n
      ensures OneSession(w, arrivals, T) && !FailsAt(w, arrivals, e)
    {
      SyncSession.NeverFails(w, arrivals, T, m, tois, out, e);
    }
    if n == 0 {
      NothingArrived(w, arrivals);
    } else {
      assert OneSession(w, arrivals, T) by { SyncSession.NeverFails(w, arrivals, T, m, tois, out, 0); }
      SessionEnds(w, arrivals, T, n);
      ManifestInForce(w, arrivals, m, n);
    }
  }

  /** What a Test D session needs to pass, apart from its end: the first copy of every frame in time, nothing in the sent
      stream that imitates the pattern, and every undamaged frame decoded. */
  ghost predicate AllRecovered(w: World, arrivals: seq<seq<byte>>, T: Guid, tois: seq<byte>, fs: seq<seq<byte>>, out: seq<seq<byte>>, interval: nat, n: nat)
    requires n <= |arrivals| && interval >= 1 && |tois| == |fs|
  {
    && (forall j :: 0 <= j < |fs| ==> Came(arrivals, T, n, j))
    && SyncRecovery.NoImitation(Stream(out))
    && forall k :: 0 <= k < |fs| && !SyncRecovery.Damaged(k, |fs|, interval) ==> w.codec(tois[k], fs[k]).Decoded?
  }

  /** For every sequence of arriving datagrams of a Test D session: the receiver waits until a SessionEnd is accepted; it
      reports that the test passed if and only if one was, all frames were recovered, and CompleteRecords does not throw. */
  lemma {:induction false} TestDPassesExactly(w: World, arrivals: seq<seq<byte>>, T: Guid, m: Manifest, tois: seq<byte>,
      fs: seq<seq<byte>>, out: seq<seq<byte>>, interval: nat, hash: Hash, n: nat)
    requires n <= |arrivals| && SyncSession.SyncSessionOf(w, arrivals, T, m, tois, out)
    requires interval >= 1 && SyncRecovery.Sent(fs, out, interval)
    requires m.frameCount == |fs| && m.injectedFrameCount == SyncRecovery.Injected(|fs|, |fs|, interval)
    ensures var s := Run(w, arrivals, n); var r := ReportOf(w, hash, s);
      && (!Closed(arrivals, T, n) <==> r.Waiting?)
      && (r.Reported? && r.passed <==>
          Closed(arrivals, T, n) && AllRecovered(w, arrivals, T, tois, fs, out, interval, n) && Readable(AfterLoop(w, m, s).0.records))
  {
    hide Run, EndAccepted, Came, Complete, Incomplete, Ascending, CaptureFile.Framed, SyncRecovery.Replay, Syncs, Stream, SyncAt, SyncSession.InOrder,
      SyncRecovery.Payloads, SyncRecovery.Tois, SyncRecovery.Sent, SyncRecovery.Injected, SyncRecovery.Damaged, SyncRecovery.NoImitation, SyncSession.SyncSessionOf,
      ListsSyncs, Closed;
    var s := Run(w, arrivals, n);
    SyncSessionCloses(w, arrivals, T, m, tois, out, n);
    SessionSizes(w, arrivals, T, m, tois, out, fs, interval);
    var stream := Stream(SyncRecovery.Payloads(SyncSession.InOrder(s.syncFrames)));
    SyncsListed(stream, SyncRecovery.SearchEnd(stream));
    SyncSession.CountersAgree(w, arrivals, T, m, tois, fs, out, interval, n, Findings(stream));
  }

  lemma {:induction false} SessionSizes(w: World, arrivals: seq<seq<byte>>, T: Guid, m: Manifest, tois: seq<byte>, out: seq<seq<byte>>, fs: seq<seq<byte>>, interval: nat)
    requires SyncSession.SyncSessionOf(w, arrivals, T, m, tois, out) && interval >= 1 && SyncRecovery.Sent(fs, out, interval)
    ensures |tois| == |out| == |fs|
  {
  }

  // ----- Test D with an honest codec -----

  /** The decodings of the frames cut out at the offsets. */
  ghost function Cuts(w: World, tois: seq<byte>, stream: seq<byte>, offsets: seq<nat>): (ds: seq<FrameCodec.DecodeResult>)
    requires |stream| == 750 * |tois| && forall o :: o in offsets ==> o + 6000 <= 8 * |stream|
    ensures |ds| == |offsets|
  {
    seq(|offsets|, x requires 0 <= x < |offsets| => assert offsets[x] in offsets; w.codec(tois[offsets[x] / 6000], Cut(stream, offsets[x])))
  }

  /** Recovery that returns has given the receiver the cut-out frames in order. */
  lemma {:induction false} ReplayIsMany(w: World, tois: seq<byte>, stream: seq<byte>, offsets: seq<nat>)
    requires |stream| == 750 * |tois| && forall o :: o in offsets ==> o + 6000 <= 8 * |stream|
    requires SyncRecovery.Replay(w.codec, w.expectedType, tois, stream, offsets, INITIAL_STATE).1
    ensures SyncRecovery.Replay(w.codec, w.expectedType, tois, stream, offsets, INITIAL_STATE).0 == ReceiveMany(Cuts(w, tois, stream, offsets), w.expectedType)
    decreases |offsets|
  {
    hide Receive, Cut;
    if offsets != [] {
      var n := |offsets| - 1;
      assert offsets[n] in offsets && forall o :: o in offsets[..n] ==> o in offsets;
      ReplayIsMany(w, tois, stream, offsets[..n]);
      assert Cuts(w, tois, stream, offsets)[..n] == Cuts(w, tois, stream, offsets[..n]);
    }
  }

  /** With honest decodings CompleteRecords does not throw, whatever type the receiver expects. */
  lemma {:induction false} HonestIsReadable(records: seq<seq<byte>>, js: seq<nat>, ds: seq<FrameCodec.DecodeResult>, expectedType: int)
    requires Capture(records) && AllHonest(records, js, ds)
    ensures Readable(ReceiveMany(ds, expectedType).records)
  {
    hide ReceiveMany, AllHonest, Gathered, Complete, Ascending, DeliveredIds, Capture;
    if expectedType == CUSTOM_TYPE {
      AfterFrames(records, js, ds);
      DeliveredAreIds(records, js, ds);
      ReadsBackExactly(records, DeliveredIds(records, js, ds));
    } else {
      NothingTaken(records, js, ds, expectedType);
      NothingIsReadable();
    }
  }

  lemma {:induction false} NothingIsReadable()
    ensures Readable(map[])
  {
    var none: Records := map[];
    assert none.Keys == {};
  }

  /** The offsets of a stream without imitations are boundaries of undamaged frames. */
  lemma {:induction false} OffsetsOfUndamaged(fs: seq<seq<byte>>, out: seq<seq<byte>>, interval: nat, o: nat)
    requires interval >= 1 && SyncRecovery.Sent(fs, out, interval) && SyncRecovery.NoImitation(Stream(out)) && o in Findings(Stream(out))
    ensures |Stream(out)| == 750 * |fs| && o + 6000 <= 8 * |Stream(out)| && o / 6000 < |fs|
    ensures Cut(Stream(out), o) == fs[o / 6000]
  {
    hide Stream, SyncAt, Cut, SyncRecovery.Damaged, SyncRecovery.PatternDamaged, Increasing, Syncs;
    StreamLength(out);
    SyncsListed(Stream(out), SyncRecovery.SearchEnd(Stream(out)));
    var k := o / 6000;
    assert o == 6000 * k;
    SyncRecovery.BoundariesFound(fs, out, interval, k);
  }

  lemma {:induction false} CutsAreHonest(w: World, tois: seq<byte>, fs: seq<seq<byte>>, out: seq<seq<byte>>, interval: nat, records: seq<seq<byte>>) returns (js: seq<nat>)
    requires interval >= 1 && SyncRecovery.Sent(fs, out, interval) && SyncRecovery.NoImitation(Stream(out)) && |tois| == |fs|
    requires Capture(records) && forall k :: 0 <= k < |fs| ==> Honest(records, k, w.codec(tois[k], fs[k]))
    ensures var offsets := Findings(Stream(out));
      && |Stream(out)| == 750 * |tois| && (forall o :: o in offsets ==> o + 6000 <= 8 * |Stream(out)|)
      && AllHonest(records, js, Cuts(w, tois, Stream(out), offsets))
  {
    hide Stream, SyncRecovery.Sent, SyncRecovery.NoImitation, Findings, Cut, Honest, Capture;
    SentLength(fs, out, interval);
    var offsets := Findings(Stream(out));
    forall o | o in offsets
      ensures o + 6000 <= 8 * |Stream(out)| && o / 6000 < |fs| && Cut(Stream(out), o) == fs[o / 6000]
    {
      OffsetsOfUndamaged(fs, out, interval, o);
    }
    js := seq(|offsets|, x requires 0 <= x < |offsets| => offsets[x] / 6000);
    forall x | 0 <= x < |offsets|
      ensures Honest(records, js[x], Cuts(w, tois, Stream(out), offsets)[x])
    {
      assert offsets[x] in offsets;
    }
  }

  lemma {:induction false} SentLength(fs: seq<seq<byte>>, out: seq<seq<byte>>, interval: nat)
    requires interval >= 1 && SyncRecovery.Sent(fs, out, interval)
    ensures |out| == |fs| && |Stream(out)| == 750 * |fs|
  {
    hide Stream;
    StreamLength(out);
  }

  /** With an honest codec nothing else is needed: the test passes if and only if a SessionEnd was accepted and all frames
      were recovered. */
  lemma {:induction false} TestDPassesWhenRecovered(w: World, arrivals: seq<seq<byte>>, T: Guid, m: Manifest, tois: seq<byte>,
      fs: seq<seq<byte>>, out: seq<seq<byte>>, interval: nat, hash: Hash, n: nat, records: seq<seq<byte>>)
    requires n <= |arrivals| && SyncSession.SyncSessionOf(w, arrivals, T, m, tois, out)
    requires interval >= 1 && SyncRecovery.Sent(fs, out, interval) && |tois| == |fs|
    requires m.frameCount == |fs| && m.injectedFrameCount == SyncRecovery.Injected(|fs|, |fs|, interval)
    requires Capture(records) && forall k :: 0 <= k < |fs| ==> Honest(records, k, w.codec(tois[k], fs[k]))
    ensures var r := ReportOf(w, hash, Run(w, arrivals, n));
      r.Reported? && r.passed <==> Closed(arrivals, T, n) && AllRecovered(w, arrivals, T, tois, fs, out, interval, n)
  {
    hide Run, Came, SyncRecovery.Replay, Syncs, Stream, SyncSession.InOrder, ReportOf, Readable, Honest, Capture,
      SyncRecovery.Payloads, SyncRecovery.Tois, SyncRecovery.Sent, SyncRecovery.Injected, SyncRecovery.Damaged, SyncRecovery.NoImitation, SyncSession.SyncSessionOf,
      ListsSyncs, Closed, Cuts, AllHonest, ReceiveMany;
    var s := Run(w, arrivals, n);
    TestDPassesExactly(w, arrivals, T, m, tois, fs, out, interval, hash, n);
    if Closed(arrivals, T, n) && AllRecovered(w, arrivals, T, tois, fs, out, interval, n) {
      SyncSessionCloses(w, arrivals, T, m, tois, out, n);
      var stream := Stream(SyncRecovery.Payloads(SyncSession.InOrder(s.syncFrames)));
      SyncsListed(stream, SyncRecovery.SearchEnd(stream));
      SyncSession.CountersAgree(w, arrivals, T, m, tois, fs, out, interval, n, Findings(stream));
      var js := CutsAreHonest(w, tois, fs, out, interval, records);
      ReplayIsMany(w, tois, Stream(out), Findings(Stream(out)));
      HonestIsReadable(records, js, Cuts(w, tois, Stream(out), Findings(Stream(out))), w.expectedType);
    }
  }
}
