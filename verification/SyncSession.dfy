/** A whole Test D session: the receive loop, the kept frames in order, re-synchronisation and the verdict. */
module SyncSession {
  import opened Results
  import opened BitPacking
  import opened BigEndian
  import opened PacketCodec
  import opened SortedKeys
  import opened FrameReceiver
  import opened ReceiveLoop
  import opened Synchronizer
  import opened SyncRecovery
  import Delivery

  /** syncFrames.Values: the kept frames by ascending key. */
  function InOrder(kept: map<U32, Packet>): (frames: seq<Packet>)
    ensures |frames| == |kept| && forall p :: p in frames <==> p in kept.Values
  {
    AscendingKeys(kept.Keys);
    var keys := Ascending(kept.Keys);
    KeysHeld(kept, keys);
    var frames := seq(|keys|, x requires 0 <= x < |keys| => kept[keys[x]]);
    ValuesListed(kept, keys, frames);
    frames
  }

  lemma {:induction false} KeysHeld(kept: map<U32, Packet>, keys: seq<U32>)
    requires Lists(keys, kept.Keys)
    ensures forall x :: 0 <= x < |keys| ==> keys[x] in kept
  {
    assert forall x :: 0 <= x < |keys| ==> keys[x] in keys;
  }

  lemma {:induction false} ValuesListed(kept: map<U32, Packet>, keys: seq<U32>, frames: seq<Packet>)
    requires Lists(keys, kept.Keys) && |frames| == |keys| && forall x :: 0 <= x < |frames| ==> keys[x] in kept && frames[x] == kept[keys[x]]
    ensures |frames| == |kept| && forall p :: p in frames <==> p in kept.Values
  {
    forall p | p in kept.Values
      ensures p in frames
    {
      var q :| q in kept && kept[q] == p;
      var x :| 0 <= x < |keys| && keys[x] == q;
      assert frames[x] == p;
    }
  }

  /** In a dictionary keyed by sequence the values come out with strictly increasing sequences, each kept frame once. */
  lemma {:induction false} KeptInOrder(kept: map<U32, Packet>)
    requires forall q :: q in kept ==> kept[q].sequence == q
    ensures var frames := InOrder(kept);
      && (forall x, y :: 0 <= x < y < |frames| ==> frames[x].sequence < frames[y].sequence)
      && forall p :: p in frames <==> p.sequence in kept && kept[p.sequence] == p
  {
    hide Ascending;
    AscendingKeys(kept.Keys);
    var keys, frames := Ascending(kept.Keys), InOrder(kept);
    forall x | 0 <= x < |frames|
      ensures frames[x].sequence == keys[x]
    {
      assert keys[x] in keys;
    }
  }

  /** Every SessionStart carries manifest m of a Test D session T, and every frame of T is one of the sent frames. */
  ghost predicate SyncSessionOf(w: World, arrivals: seq<seq<byte>>, T: Guid, m: Manifest, tois: seq<byte>, out: seq<seq<byte>>) {
    && m.testId == T && m.syncRecovery && |tois| == |out| < 0x8000_0000
    && (forall i :: 0 <= i < |arrivals| && StartAt(arrivals, i) ==> w.read(PacketAt(arrivals, i).payload) == Some(m))
    && (forall i :: 0 <= i < |arrivals| && Delivery.FrameAt(arrivals, T, i) ==> IsSent(PacketAt(arrivals, i), tois, out))
  }

  ghost predicate IsSent(p: Packet, tois: seq<byte>, out: seq<seq<byte>>) {
    p.sequence < |out| == |tois| && p.payload == out[p.sequence] && p.timeOfInterval == tois[p.sequence]
  }

  /** Every kept frame is the sent frame of its key. */
  ghost predicate AllSent(kept: map<U32, Packet>, tois: seq<byte>, out: seq<seq<byte>>) {
    forall q :: q in kept ==> kept[q].sequence == q && IsSent(kept[q], tois, out)
  }

  lemma {:induction false} OneMoreSent(kept: map<U32, Packet>, p: Packet, tois: seq<byte>, out: seq<seq<byte>>)
    requires AllSent(kept, tois, out) && IsSent(p, tois, out)
    ensures AllSent(kept[p.sequence := p], tois, out)
  {
    hide IsSent;
  }

  lemma {:induction false} SentRange(kept: map<U32, Packet>, tois: seq<byte>, out: seq<seq<byte>>, q: U32)
    requires AllSent(kept, tois, out) && q in kept
    ensures q < |out|
  {
    assert IsSent(kept[q], tois, out);
  }

  lemma {:induction false} NeverFails(w: World, arrivals: seq<seq<byte>>, T: Guid, m: Manifest, tois: seq<byte>, out: seq<seq<byte>>, e: nat)
    requires SyncSessionOf(w, arrivals, T, m, tois, out) && e < |arrivals|
    ensures OneSession(w, arrivals, T) && !FailsAt(w, arrivals, e)
    ensures Due(w, arrivals, e) ==> Recovering(w, arrivals, e)
  {
    hide Decode, First, IsSent;
    forall i | 0 <= i < |arrivals| && Arrives(arrivals, i) && PacketAt(arrivals, i).kind == SESSION_START
      ensures w.read(PacketAt(arrivals, i).payload) == Some(m)
    {
      assert StartAt(arrivals, i);
    }
    Delivery.InForceIs(w, arrivals, m, e);
  }

  /** The processed frames, all of them kept for recovery. */
  lemma {:induction false} LogOfSyncSession(w: World, arrivals: seq<seq<byte>>, T: Guid, m: Manifest, tois: seq<byte>, out: seq<seq<byte>>, n: nat)
    requires n <= |arrivals| && SyncSessionOf(w, arrivals, T, m, tois, out)
    ensures var log := Run(w, arrivals, n).log;
      && Positions(arrivals, log)
      && (forall i :: i in log ==> i < n && Recovering(w, arrivals, i) && IsSent(PacketAt(arrivals, i), tois, out))
      && forall j :: Came(arrivals, T, n, j) <==> InLog(arrivals, log, j)
  {
    hide Run, Decode, First, StartBefore, EndAccepted, Recovering, FailsAt, Sound, IsSent, InForce;
    var log := Run(w, arrivals, n).log;
    EveryRunHolds(w, arrivals, n);
    Delivery.LogBelow(w, arrivals, n);
    forall e | 0 <= e < n
      ensures OneSession(w, arrivals, T) && !FailsAt(w, arrivals, e)
      ensures Due(w, arrivals, e) ==> Recovering(w, arrivals, e)
    {
      NeverFails(w, arrivals, T, m, tois, out, e);
    }
    forall i | 0 <= i < n
      ensures i in log ==> Recovering(w, arrivals, i) && Delivery.FrameAt(arrivals, T, i)
      ensures i in log <==>
        && FirstOf(arrivals, i, FRAME) && PacketAt(arrivals, i).testId == T
        && StartBefore(arrivals, i) && forall e :: 0 <= e < i ==> !EndAccepted(arrivals, T, e)
    {
      SessionFrames(w, arrivals, T, n, i);
      ProcessedExactly(w, arrivals, n, i);
    }
    forall j
      ensures Came(arrivals, T, n, j) <==> InLog(arrivals, log, j)
    {
      if Came(arrivals, T, n, j) {
        var i :| 0 <= i < n && CameAt(arrivals, T, j, i);
        assert i in log;
      }
      if InLog(arrivals, log, j) {
        var i :| i in log && PacketAt(arrivals, i).sequence == j;
        assert CameAt(arrivals, T, j, i);
      }
    }
  }

  /** Frames that are kept are not given to the codec during the loop, and each is the sent frame of its sequence. */
  lemma {:induction false} KeptFrames(w: World, arrivals: seq<seq<byte>>, tois: seq<byte>, out: seq<seq<byte>>, log: seq<nat>)
    requires Positions(arrivals, log)
    requires forall i :: i in log ==> Recovering(w, arrivals, i) && IsSent(PacketAt(arrivals, i), tois, out)
    ensures Fed(w, arrivals, log) == INITIAL_STATE
    ensures var kept := Kept(w, arrivals, log);
      && AllSent(kept, tois, out)
      && forall q :: q in kept <==> InLog(arrivals, log, q)
    decreases |log|
  {
    hide Recovering, IsSent, AllSent, Decode, Receive, InLog;
    if log == [] {
      NoLog(arrivals);
      NoneKept(tois, out);
    } else {
      var n := |log| - 1;
      assert log[n] in log && forall i :: i in log[..n] ==> i in log;
      Delivery.PositionsPrefix(arrivals, log, n);
      KeptFrames(w, arrivals, tois, out, log[..n]);
      var before, kept := Kept(w, arrivals, log[..n]), Kept(w, arrivals, log);
      var p := PacketAt(arrivals, log[n]);
      assert kept == before[p.sequence := p];
      OneMoreSent(before, p, tois, out);
      assert log == log[..n] + [log[n]];
      forall q
        ensures q in kept <==> InLog(arrivals, log, q)
      {
        InLogGrows(arrivals, log[..n], log[n], q);
      }
    }
  }

  lemma {:induction false} NoLog(arrivals: seq<seq<byte>>)
    ensures Positions(arrivals, []) && forall q :: !InLog(arrivals, [], q)
  {
  }

  lemma {:induction false} NoneKept(tois: seq<byte>, out: seq<seq<byte>>)
    ensures AllSent(map[], tois, out)
  {
  }

  /** When every frame is kept, the ordered frames are the sent ones. */
  lemma {:induction false} AllKept(kept: map<U32, Packet>, tois: seq<byte>, out: seq<seq<byte>>)
    requires |tois| == |out| < 0x8000_0000 && AllSent(kept, tois, out)
    requires forall j: U32 :: j in kept <==> j < |out|
    ensures Payloads(InOrder(kept)) == out && Tois(InOrder(kept)) == tois
  {
    hide Ascending;
    AscendingKeys(kept.Keys);
    var numbers: seq<U32> := seq(|out|, k requires 0 <= k < |out| => k);
    forall x
      ensures x in Ascending(kept.Keys) <==> x in numbers
    {
      if 0 <= x < |out| {
        assert numbers[x] == x;
      }
    }
    IncreasingUnique(Ascending(kept.Keys), numbers);
  }

  lemma {:induction false} AllOrFewer(sequences: set<U32>, n: nat)
    requires n < 0x8000_0000 && forall q :: q in sequences ==> q < n
    ensures |sequences| == n <==> forall j: U32 :: j < n ==> j in sequences
  {
    Delivery.SmallerSet(sequences, n);
    if forall j: U32 :: j < n ==> j in sequences {
      Delivery.FirstNumbers(sequences, n);
    }
  }

  /** After any number of datagrams of a Test D session the three counters would agree exactly when the first copy of every
      frame has arrived in time, nothing in the sent stream imitates the pattern, and the codec decodes every undamaged frame. */
  lemma {:induction false} CountersAgree(w: World, arrivals: seq<seq<byte>>, T: Guid, m: Manifest, tois: seq<byte>,
      fs: seq<seq<byte>>, out: seq<seq<byte>>, interval: nat, n: nat, offsets: seq<nat>)
    requires n <= |arrivals| && SyncSessionOf(w, arrivals, T, m, tois, out)
    requires interval >= 1 && Sent(fs, out, interval)
    requires var stream := Stream(Payloads(InOrder(Run(w, arrivals, n).syncFrames))); ListsSyncs(stream, SearchEnd(stream), offsets)
    ensures var s := Run(w, arrivals, n); var frames := InOrder(s.syncFrames);
      var (r, returned) := Replay(w.codec, w.expectedType, Tois(frames), Stream(Payloads(frames)), offsets, s.frames);
      var passed := Passed(|s.frameSequences|, |fs|, Injected(|fs|, |fs|, interval), |offsets|, r.counters.decoded);
      && (passed ==> returned && Payloads(frames) == out && Tois(frames) == tois && s.frames == INITIAL_STATE)
      && (passed <==>
          && (forall j :: 0 <= j < |fs| ==> Came(arrivals, T, n, j))
          && NoImitation(Stream(out))
          && forall k :: 0 <= k < |fs| && !Damaged(k, |fs|, interval) ==> w.codec(tois[k], fs[k]).Decoded?)
  {
    hide Run, Decode, Fed, Kept, Came, Positions, InLog, IsSent, AllSent, Recovering, Stream, ListsSyncs, Replay, Injected, Damaged, Payloads, Tois, InOrder, NoImitation;
    var s := Run(w, arrivals, n);
    EveryRunHolds(w, arrivals, n);
    LogOfSyncSession(w, arrivals, T, m, tois, out, n);
    KeptFrames(w, arrivals, tois, out, s.log);
    forall q | q in s.frameSequences
      ensures q < |out|
    {
      SentRange(s.syncFrames, tois, out, q);
    }
    forall q | q in s.syncFrames
      ensures q < |out|
    {
      SentRange(s.syncFrames, tois, out, q);
    }
    AllOrFewer(s.frameSequences, |out|);
    if forall j :: 0 <= j < |fs| ==> Came(arrivals, T, n, j) {
      AllKept(s.syncFrames, tois, out);
      TestDVerdict(w.codec, w.expectedType, tois, fs, out, interval, offsets);
    } else {
      var j :| 0 <= j < |fs| && !Came(arrivals, T, n, j);
      var q: U32 := j;
      assert q !in s.frameSequences;
    }
  }
}
