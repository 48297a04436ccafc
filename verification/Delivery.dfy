/** From the prepared frames to the integrity decision: what a session delivers, end to end. */
module Delivery {
  import opened BitStrings
  import opened Results
  import opened BitPacking
  import opened BigEndian
  import opened PacketCodec
  import opened FragmentCodec
  import opened SubframeBits
  import opened SortedKeys
  import opened Reassembly
  import opened AnyOrder
  import opened FramePreparation
  import opened FrameReceiver
  import opened ReceiveLoop
  import CaptureFile
  import LdpcEncoder
  import FrameCodec

  // ----- decoded frames -----

  ghost function SentBits(records: seq<seq<byte>>, id: Id): (b: Bits)
    requires Capture(records) && IsId(records, id)
    ensures |b| == 846
  {
    SbBits(BlockOfId(records, id), CUSTOM_TYPE)
  }

  predicate Delivered(d: FrameCodec.DecodeResult) {
    d.Decoded? && d.status.sb3Ok && d.status.sb4Ok
  }

  /** Frame j was decoded without inventing data: a block flagged valid is the block that was sent. */
  ghost predicate Honest(records: seq<seq<byte>>, j: nat, d: FrameCodec.DecodeResult)
    requires Capture(records)
  {
    && j < FrameCount(records) && !d.BadArgument?
    && (PairIds(records, j);
        var pair := FramePair(records, j);
        d.Decoded? ==> (d.status.sb3Ok ==> d.sb3 == SentBits(records, pair.0)) && (d.status.sb4Ok ==> d.sb4 == SentBits(records, pair.1)))
  }

  /** The receiver after a sequence of decoded frames. */
  function ReceiveMany(ds: seq<FrameCodec.DecodeResult>, expectedType: int): ReceiverState {
    if ds == [] then INITIAL_STATE else Receive(ReceiveMany(ds[..|ds| - 1], expectedType), ds[|ds| - 1], expectedType).0
  }

  ghost predicate AllHonest(records: seq<seq<byte>>, js: seq<nat>, ds: seq<FrameCodec.DecodeResult>)
    requires Capture(records)
  {
    |js| == |ds| && forall x :: 0 <= x < |ds| ==> Honest(records, js[x], ds[x])
  }

  /** The fragments of the frames that were delivered. */
  ghost function DeliveredIds(records: seq<seq<byte>>, js: seq<nat>, ds: seq<FrameCodec.DecodeResult>): set<Id>
    requires Capture(records) && AllHonest(records, js, ds)
  {
    if ds == [] then {}
    else
      var n := |ds| - 1;
      DeliveredIds(records, js[..n], ds[..n])
      + if Delivered(ds[n]) then {FramePair(records, js[n]).0, FramePair(records, js[n]).1} else {}
  }

  ghost predicate GotFrame(js: seq<nat>, ds: seq<FrameCodec.DecodeResult>, j: nat)
    requires |js| == |ds|
  {
    exists x :: 0 <= x < |ds| && js[x] == j && Delivered(ds[x])
  }

  lemma {:induction false} DeliveredMeaning(records: seq<seq<byte>>, js: seq<nat>, ds: seq<FrameCodec.DecodeResult>, id: Id)
    requires Capture(records) && AllHonest(records, js, ds)
    ensures id in DeliveredIds(records, js, ds) <==>
      exists x :: 0 <= x < |ds| && Delivered(ds[x]) && (FramePair(records, js[x]).0 == id || FramePair(records, js[x]).1 == id)
    decreases |ds|
  {
    hide Delivered, FramePair, FrameCount;
    if ds != [] {
      var n := |ds| - 1;
      DeliveredMeaning(records, js[..n], ds[..n], id);
    }
  }

  lemma {:induction false} DeliveredAreIds(records: seq<seq<byte>>, js: seq<nat>, ds: seq<FrameCodec.DecodeResult>)
    requires Capture(records) && AllHonest(records, js, ds)
    ensures AllIds(records, DeliveredIds(records, js, ds))
    decreases |ds|
  {
    hide Delivered, FramePair, Capture, IsId;
    if ds != [] {
      var n := |ds| - 1;
      DeliveredAreIds(records, js[..n], ds[..n]);
      assert Honest(records, js[n], ds[n]);
      PairIds(records, js[n]);
    }
  }

  // ----- what the receiver then holds -----

  /** A receiver that expects the sent type takes a sent block. */
  lemma {:induction false} TakeSent(records: seq<seq<byte>>, ids: set<Id>, id: Id)
    requires Capture(records) && AllIds(records, ids) && IsId(records, id)
    ensures TakeBlock(Gathered(records, ids), SentBits(records, id), CUSTOM_TYPE) == (Gathered(records, ids + {id}), Took)
  {
    hide FromSb, Raw, SbBits, DecodeBlock, AddTo, Gathered, FragmentOf, Block, Capture;
    var block := BlockOfId(records, id);
    SbRoundTrip(block, CUSTOM_TYPE, CUSTOM_TYPE);
    IsFragmentable(records, id);
    FragmentDecodes(id.0, records[id.0], id.1);
    AddGenuine(records, ids, id);
  }

  lemma {:induction false} IsFragmentable(records: seq<seq<byte>>, id: Id)
    requires Capture(records) && IsId(records, id)
    ensures id.0 < 0x1_0000_0000 && Fragmentable(records[id.0])
  {
  }

  /** A receiver that expects another type refuses it. */
  lemma {:induction false} OtherTypeRefused(records: seq<seq<byte>>, held: Records, id: Id, expectedType: int)
    requires Capture(records) && IsId(records, id) && expectedType != CUSTOM_TYPE
    ensures TakeBlock(held, SentBits(records, id), expectedType) == (held, Refused)
  {
    hide FromSb, Raw, SbBits, DecodeBlock, AddTo, BlockOf;
    SbRoundTrip(BlockOfId(records, id), CUSTOM_TYPE, expectedType);
  }

  lemma {:induction false} ReceiveHonest(records: seq<seq<byte>>, ids: set<Id>, s: ReceiverState, j: nat, d: FrameCodec.DecodeResult)
    requires Capture(records) && AllIds(records, ids) && Honest(records, j, d) && s.records == Gathered(records, ids)
    ensures var (s', returned) := Receive(s, d, CUSTOM_TYPE); var pair := FramePair(records, j);
      && returned
      && s'.records == Gathered(records, ids + if Delivered(d) then {pair.0, pair.1} else {})
      && s'.counters.corrupt == s.counters.corrupt + if Delivered(d) then 0 else 1
  {
    hide TakeBlock, Gathered, SentBits, Capture, IsId, FramePair;
    PairIds(records, j);
    var pair := FramePair(records, j);
    if Delivered(d) {
      TakeSent(records, ids, pair.0);
      TakeSent(records, ids + {pair.0}, pair.1);
      assert ids + {pair.0} + {pair.1} == ids + {pair.0, pair.1};
    } else {
      assert ids + {} == ids;
    }
  }

  ghost function Lost(ds: seq<FrameCodec.DecodeResult>): nat {
    if ds == [] then 0 else Lost(ds[..|ds| - 1]) + if Delivered(ds[|ds| - 1]) then 0 else 1
  }

  /** Whatever the order and the repeats: the fragments of the delivered frames, and one corrupt frame for each other one. */
  lemma {:induction false} AfterFrames(records: seq<seq<byte>>, js: seq<nat>, ds: seq<FrameCodec.DecodeResult>)
    requires Capture(records) && AllHonest(records, js, ds)
    ensures var s := ReceiveMany(ds, CUSTOM_TYPE);
      s.records == Gathered(records, DeliveredIds(records, js, ds)) && s.counters.corrupt == Lost(ds)
    decreases |ds|
  {
    hide Receive, Delivered, Capture, StateOf, FramePair, Honest, IsId;
    if ds == [] {
      NothingGathered(records);
    } else {
      var n := |ds| - 1;
      AfterFrames(records, js[..n], ds[..n]);
      DeliveredAreIds(records, js[..n], ds[..n]);
      ReceiveHonest(records, DeliveredIds(records, js[..n], ds[..n]), ReceiveMany(ds[..n], CUSTOM_TYPE), js[n], ds[n]);
    }
  }

  lemma {:induction false} NothingGathered(records: seq<seq<byte>>)
    requires Capture(records)
    ensures Gathered(records, {}) == map[]
  {
    hide StateOf;
  }

  // ----- the receiver's counters -----

  datatype Counter = Frames | Sb2Blocks | Sb3Blocks | Sb4Blocks | CorruptFrames

  /** Decoding x is one that the counter counts: a frame that is not corrupt is decoded, has both its blocks good, and the
      records held before it take both. */
  ghost predicate Counts(ds: seq<FrameCodec.DecodeResult>, expectedType: int, x: nat, counter: Counter)
    requires x < |ds|
  {
    var d := ds[x];
    match counter
    case Frames => d.Decoded?
    case Sb2Blocks => d.Decoded? && d.status.sb2Ok
    case Sb3Blocks => d.Decoded? && d.status.sb3Ok
    case Sb4Blocks => d.Decoded? && d.status.sb4Ok
    case CorruptFrames =>
      !d.BadArgument? && !(Delivered(d) && TakeBlocks(ReceiveMany(ds[..x], expectedType).records, d.sb3, d.sb4, expectedType).1 != Refused)
  }

  ghost function Counting(ds: seq<FrameCodec.DecodeResult>, expectedType: int, counter: Counter): set<nat> {
    set x | 0 <= x < |ds| && Counts(ds, expectedType, x, counter)
  }

  ghost function CorrectionsOf(ds: seq<FrameCodec.DecodeResult>): nat {
    if ds == [] then 0
    else
      var d := ds[|ds| - 1];
      CorrectionsOf(ds[..|ds| - 1])
      + if d.Decoded? then Corrections(d.status.sb2Corrections) + Corrections(d.status.sb3Corrections) + Corrections(d.status.sb4Corrections) else 0
  }

  lemma {:induction false} SameCount(ds: seq<FrameCodec.DecodeResult>, expectedType: int, x: nat, counter: Counter)
    requires x < |ds| - 1
    ensures Counts(ds[..|ds| - 1], expectedType, x, counter) == Counts(ds, expectedType, x, counter)
  {
    hide TakeBlocks, ReceiveMany, Delivered;
    assert ds[..|ds| - 1][..x] == ds[..x];
  }

  lemma {:induction false} CountingGrows(ds: seq<FrameCodec.DecodeResult>, expectedType: int, counter: Counter)
    requires ds != []
    ensures var n := |ds| - 1;
      |Counting(ds, expectedType, counter)| == |Counting(ds[..n], expectedType, counter)| + if Counts(ds, expectedType, n, counter) then 1 else 0
  {
    hide Counts;
    var n := |ds| - 1;
    var before, after := Counting(ds[..n], expectedType, counter), Counting(ds, expectedType, counter);
    forall x | 0 <= x < n
      ensures x in before <==> x in after
    {
      SameCount(ds, expectedType, x, counter);
    }
    OneMore(before, after, n, Counts(ds, expectedType, n, counter));
  }

  /** Over any sequence of decodings, good or bad. */
  lemma {:induction false} ReceiverCounts(ds: seq<FrameCodec.DecodeResult>, expectedType: int)
    ensures var c := ReceiveMany(ds, expectedType).counters;
      && c.decoded == |Counting(ds, expectedType, Frames)|
      && c.sb2Valid == |Counting(ds, expectedType, Sb2Blocks)|
      && c.sb3Valid == |Counting(ds, expectedType, Sb3Blocks)|
      && c.sb4Valid == |Counting(ds, expectedType, Sb4Blocks)|
      && c.corrupt == |Counting(ds, expectedType, CorruptFrames)|
      && c.corrected == CorrectionsOf(ds)
    decreases |ds|
  {
    hide TakeBlocks, Counting, Corrections;
    if ds == [] {
      assert forall counter :: Counting(ds, expectedType, counter) == {} by { NothingCounted(expectedType); }
    } else {
      var n := |ds| - 1;
      ReceiverCounts(ds[..n], expectedType);
      CountingGrows(ds, expectedType, Frames);
      CountingGrows(ds, expectedType, Sb2Blocks);
      CountingGrows(ds, expectedType, Sb3Blocks);
      CountingGrows(ds, expectedType, Sb4Blocks);
      CountingGrows(ds, expectedType, CorruptFrames);
    }
  }

  lemma {:induction false} NothingCounted(expectedType: int)
    ensures forall counter :: Counting([], expectedType, counter) == {}
  {
  }

  function OnlyDelivered(ds: seq<FrameCodec.DecodeResult>): seq<FrameCodec.DecodeResult> {
    if ds == [] then [] else OnlyDelivered(ds[..|ds| - 1]) + if Delivered(ds[|ds| - 1]) then [ds[|ds| - 1]] else []
  }

  /** The records held depend on the delivered frames alone: a frame with an invalid block leaves no trace in them. */
  lemma {:induction false} OnlyDeliveredMatter(ds: seq<FrameCodec.DecodeResult>, expectedType: int)
    ensures ReceiveMany(ds, expectedType).records == ReceiveMany(OnlyDelivered(ds), expectedType).records
    decreases |ds|
  {
    hide TakeBlocks, Counted;
    if ds != [] {
      var n := |ds| - 1;
      OnlyDeliveredMatter(ds[..n], expectedType);
      if Delivered(ds[n]) {
        assert OnlyDelivered(ds) == OnlyDelivered(ds[..n]) + [ds[n]];
        assert OnlyDelivered(ds)[..|OnlyDelivered(ds)| - 1] == OnlyDelivered(ds[..n]);
        SameRecords(ReceiveMany(ds[..n], expectedType), ReceiveMany(OnlyDelivered(ds[..n]), expectedType), ds[n], expectedType);
      } else {
        assert OnlyDelivered(ds) == OnlyDelivered(ds[..n]);
      }
    }
  }

  lemma {:induction false} SameRecords(s: ReceiverState, t: ReceiverState, d: FrameCodec.DecodeResult, expectedType: int)
    requires s.records == t.records
    ensures Receive(s, d, expectedType).0.records == Receive(t, d, expectedType).0.records
  {
    hide TakeBlocks, Counted;
  }

  // ----- the integrity decision -----

  type Hash = seq<byte> -> seq<byte>

  function Contents(pairs: seq<(U32, seq<byte>)>): (r: seq<seq<byte>>)
    ensures |r| == |pairs|
  {
    seq(|pairs|, k requires 0 <= k < |pairs| => pairs[k].1)
  }

  /** The file written from the complete records; InvalidData when CompleteRecords throws. */
  function Reconstructed(held: Records): Result<seq<byte>> {
    AscendingKeys(held.Keys);
    var complete := Complete(held, Ascending(held.Keys));
    if complete.InvalidData? then InvalidData else Ok(CaptureFile.Framed(Contents(complete.value)))
  }

  /** integrity.Success */
  function Success(held: Records, m: Manifest, hash: Hash): Result<bool> {
    AscendingKeys(held.Keys);
    var keys := Ascending(held.Keys);
    var complete := Complete(held, keys);
    if complete.InvalidData? then InvalidData
    else
      var file := CaptureFile.Framed(Contents(complete.value));
      Ok(hash(file) == m.sourceHash && |file| == m.sourceLength && |complete.value| == m.recordCount && |Incomplete(held, keys)| == 0)
  }

  /** ReceiveAsync after its loop, up to the integrity decision. */
  method Conclude(frames: Receiver, m: Manifest, hash: Hash) returns (r: Result<bool>)
    ensures r == Success(frames.State().records, m, hash)
  {
    hide Complete, Incomplete, Ascending, CaptureFile.Framed;
    var complete := frames.reassembler.CompleteRecords();
    if complete.InvalidData? { return InvalidData; }
    var file := CaptureFile.WriteReconstructed(complete.value);
    var incomplete := frames.reassembler.IncompleteRecords();
    r := Ok(hash(file) == m.sourceHash && |file| == m.sourceLength && |complete.value| == m.recordCount && |incomplete| == 0);
  }

  /** Whatever was decoded: success is reported exactly when every held record is complete and has its stated length and
      checksum, their number is the one of the manifest, and the reconstructed file has the length and hash of the manifest. */
  lemma {:induction false} SuccessMeans(held: Records, m: Manifest, hash: Hash)
    ensures Success(held, m, hash) == Ok(true) <==>
      && (forall k :: k in held ==> IsComplete(held[k]) && Checked(held[k], Joined(Payloads(held[k]))))
      && |held.Keys| == m.recordCount
      && Reconstructed(held).Ok? && |Reconstructed(held).value| == m.sourceLength && hash(Reconstructed(held).value) == m.sourceHash
  {
    hide CaptureFile.Framed, Joined, Payloads, Ascending, Complete, Incomplete, Contents, IsComplete;
    AscendingKeys(held.Keys);
    var keys := Ascending(held.Keys);
    CompleteExactly(held, keys);
    if Incomplete(held, keys) == [] {
      forall k | k in held
        ensures IsComplete(held[k])
      {
        assert k !in Incomplete(held, keys);
      }
    } else {
      var k := Incomplete(held, keys)[0];
      assert k in Incomplete(held, keys);
    }
  }

  /** What the sender's manifest says about its file. */
  ghost predicate Describes(m: Manifest, file: seq<byte>, records: seq<seq<byte>>, hash: Hash) {
    m.sourceLength == |file| && m.sourceHash == hash(file) && m.recordCount == |records|
  }

  ghost predicate AllFull(records: seq<seq<byte>>, ids: set<Id>) {
    forall k :: 0 <= k < |records| ==> Full(records, ids, k)
  }

  lemma {:induction false} SmallerSet(s: set<U32>, n: nat)
    requires n < 0x1_0000_0000 && forall x :: x in s ==> x < n
    ensures |s| <= n && (|s| == n ==> forall x: U32 :: x < n ==> x in s)
    decreases n
  {
    if n > 0 {
      var m: U32 := n - 1;
      SmallerSet(s - {m}, n - 1);
      if m in s {
        SplitOff(s, m);
      } else {
        assert s - {m} == s;
      }
    } else {
      assert s == {};
    }
  }

  lemma {:induction false} CountsAllOrFewer(records: seq<seq<byte>>, ids: set<Id>)
    requires Capture(records)
    ensures |FullKeys(records, ids)| == |records| <==> AllFull(records, ids)
  {
    hide Full;
    var full := FullKeys(records, ids);
    SmallerSet(full, |records|);
    if AllFull(records, ids) {
      FirstNumbers(full, |records|);
    } else {
      var k :| 0 <= k < |records| && !Full(records, ids, k);
      var x: U32 := k;
      assert x !in full;
    }
  }

  lemma {:induction false} FirstNumbers(s: set<U32>, n: nat)
    requires n < 0x1_0000_0000 && forall x: U32 :: x in s <==> x < n
    ensures |s| == n
    decreases n
  {
    if n > 0 {
      var m: U32 := n - 1;
      SplitOff(s, m);
      FirstNumbers(s - {m}, n - 1);
    } else {
      assert s == {};
    }
  }

  /** All fragments are there exactly when every frame was delivered. */
  lemma {:induction false} FullMeansEveryFrame(records: seq<seq<byte>>, js: seq<nat>, ds: seq<FrameCodec.DecodeResult>)
    requires Capture(records) && AllHonest(records, js, ds)
    ensures AllFull(records, DeliveredIds(records, js, ds)) <==> forall j :: 0 <= j < FrameCount(records) ==> GotFrame(js, ds, j)
  {
    hide Delivered, FramePair, FrameCount, DeliveredIds, Capture, Count;
    var ids := DeliveredIds(records, js, ds);
    if AllFull(records, ids) {
      forall j | 0 <= j < FrameCount(records)
        ensures GotFrame(js, ds, j)
      {
        PairIds(records, j);
        var id := FramePair(records, j).0;
        assert Full(records, ids, id.0) && id in ids;
        DeliveredMeaning(records, js, ds, id);
        var x :| 0 <= x < |ds| && Delivered(ds[x]) && (FramePair(records, js[x]).0 == id || FramePair(records, js[x]).1 == id);
        assert Honest(records, js[x], ds[x]);
        if js[x] != j {
          FramesDisjoint(records, js[x], j);
        }
      }
    }
    if forall j :: 0 <= j < FrameCount(records) ==> GotFrame(js, ds, j) {
      forall k, i | 0 <= k < |records| && 0 <= i < Count(|records[k]|)
        ensures (k, i) in ids
      {
        var j := FramesCover(records, (k, i));
        assert GotFrame(js, ds, j);
        DeliveredMeaning(records, js, ds, (k, i));
      }
    }
  }

  /** Listing 0 to n - 1 in order gives all the records. */
  lemma {:induction false} AllRecordsInOrder(records: seq<seq<byte>>, ids: set<Id>)
    requires Capture(records) && AllFull(records, ids)
    ensures (forall k :: k in Ascending(FullKeys(records, ids)) ==> k < |records|)
    ensures Contents(Pairs(records, Ascending(FullKeys(records, ids)))) == records
  {
    hide Full, Ascending;
    var full := FullKeys(records, ids);
    AscendingKeys(full);
    var numbers: seq<U32> := seq(|records|, k requires 0 <= k < |records| => k);
    forall x: U32
      ensures x in Ascending(full) <==> x in numbers
    {
      if x < |records| {
        assert numbers[x] == x;
      }
    }
    IncreasingUnique(Ascending(full), numbers);
  }

  lemma {:induction false} SuccessOfGathered(records: seq<seq<byte>>, ids: set<Id>, file: seq<byte>, m: Manifest, hash: Hash)
    requires Capture(records) && AllIds(records, ids) && CaptureFile.Framed(records) == file && Describes(m, file, records, hash)
    ensures Success(Gathered(records, ids), m, hash) == Ok(AllFull(records, ids))
    ensures AllFull(records, ids) ==> Reconstructed(Gathered(records, ids)) == Ok(file)
  {
    hide Gathered, Complete, Incomplete, Ascending, CaptureFile.Framed, FullKeys, PartialKeys, AllFull, Contents;
    ReadsBackExactly(records, ids);
    CountsAllOrFewer(records, ids);
    AscendingKeys(FullKeys(records, ids));
    if AllFull(records, ids) {
      AllRecordsInOrder(records, ids);
      NonePartial(records, ids);
    }
  }

  lemma {:induction false} NonePartial(records: seq<seq<byte>>, ids: set<Id>)
    requires Capture(records) && AllFull(records, ids)
    ensures Ascending(PartialKeys(records, ids)) == []
  {
    assert PartialKeys(records, ids) == {};
  }

  /** End to end, on every accepted capture file and every order, loss or repetition of its frames: nothing throws,
      and success is reported exactly when every frame was delivered; the reconstructed bytes are then the file.
      The hash is an arbitrary function. */
  lemma {:induction false} SuccessExactlyWhenDelivered(file: seq<byte>, m: Manifest, hash: Hash, js: seq<nat>, ds: seq<FrameCodec.DecodeResult>)
    requires CaptureFile.Records(file).Ok? && |CaptureFile.Records(file).value| < 0x8000_0000
    requires (CaptureFile.AcceptedIsCapture(file);
      var records := CaptureFile.Records(file).value; Describes(m, file, records, hash) && AllHonest(records, js, ds))
    ensures var records, held := CaptureFile.Records(file).value, ReceiveMany(ds, CUSTOM_TYPE).records;
      && (Success(held, m, hash) == Ok(true) <==> forall j :: 0 <= j < FrameCount(records) ==> GotFrame(js, ds, j))
      && Success(held, m, hash).Ok?
      && (Success(held, m, hash) == Ok(true) ==> Reconstructed(held) == Ok(file))
  {
    hide CaptureFile.Records, CaptureFile.Framed, Success, Reconstructed, GotFrame, Gathered, ReceiveMany, AllHonest, AllFull, Describes, Capture, FrameCount;
    var records := CaptureFile.Records(file).value;
    CaptureFile.AcceptedIsCapture(file);
    AfterFrames(records, js, ds);
    DeliveredAreIds(records, js, ds);
    FullMeansEveryFrame(records, js, ds);
    SuccessOfGathered(records, DeliveredIds(records, js, ds), file, m, hash);
  }

  /** A receiver set to another message type takes nothing, and reports failure however much arrives. */
  lemma {:induction false} OtherTypeNeverSucceeds(file: seq<byte>, m: Manifest, hash: Hash, js: seq<nat>, ds: seq<FrameCodec.DecodeResult>, expectedType: int)
    requires CaptureFile.Records(file).Ok? && |CaptureFile.Records(file).value| < 0x8000_0000 && expectedType != CUSTOM_TYPE
    requires (CaptureFile.AcceptedIsCapture(file);
      var records := CaptureFile.Records(file).value; Describes(m, file, records, hash) && AllHonest(records, js, ds))
    ensures ReceiveMany(ds, expectedType).records == map[] && ReceiveMany(ds, expectedType).counters.corrupt == |ds|
    ensures Success(ReceiveMany(ds, expectedType).records, m, hash) == Ok(false)
  {
    hide CaptureFile.Records, CaptureFile.Framed, ReceiveMany, Capture, Honest;
    CaptureFile.AcceptedIsCapture(file);
    NothingTaken(CaptureFile.Records(file).value, js, ds, expectedType);
  }

  lemma {:induction false} NothingTaken(records: seq<seq<byte>>, js: seq<nat>, ds: seq<FrameCodec.DecodeResult>, expectedType: int)
    requires Capture(records) && AllHonest(records, js, ds) && expectedType != CUSTOM_TYPE
    ensures var s := ReceiveMany(ds, expectedType); s.records == map[] && s.counters.corrupt == |ds|
    decreases |ds|
  {
    hide TakeBlock, Capture, IsId, SentBits, FramePair;
    if ds != [] {
      var n := |ds| - 1;
      NothingTaken(records, js[..n], ds[..n], expectedType);
      assert Honest(records, js[n], ds[n]);
      PairIds(records, js[n]);
      OtherTypeRefused(records, map[], FramePair(records, js[n]).0, expectedType);
    }
  }

  // ----- with the receive loop -----

  function DecodedAt(w: World, arrivals: seq<seq<byte>>, i: nat): FrameCodec.DecodeResult
    requires i < |arrivals| && Arrives(arrivals, i)
  {
    w.codec(PacketAt(arrivals, i).timeOfInterval, PacketAt(arrivals, i).payload)
  }

  /** A run of one session, not of Test D: the manifests describe the file, and every frame of the test is a frame of
      the capture, honestly decoded. */
  ghost predicate SessionOf(w: World, arrivals: seq<seq<byte>>, T: Guid, m: Manifest, records: seq<seq<byte>>)
    requires Capture(records)
  {
    && w.expectedType == CUSTOM_TYPE && m.testId == T && !m.syncRecovery
    && (forall i :: 0 <= i < |arrivals| && StartAt(arrivals, i) ==> w.read(PacketAt(arrivals, i).payload) == Some(m))
    && (forall i :: 0 <= i < |arrivals| && FrameAt(arrivals, T, i) ==> Honest(records, PacketAt(arrivals, i).sequence, DecodedAt(w, arrivals, i)))
  }

  ghost predicate FrameAt(arrivals: seq<seq<byte>>, T: Guid, i: nat)
    requires i < |arrivals|
  {
    Arrives(arrivals, i) && PacketAt(arrivals, i).kind == FRAME && PacketAt(arrivals, i).testId == T
  }

  /** The first copy of frame j, decoded with both blocks good, arrived between SessionStart and SessionEnd. */
  ghost predicate GotInTime(w: World, arrivals: seq<seq<byte>>, T: Guid, n: nat, j: nat)
    requires n <= |arrivals|
  {
    exists i :: 0 <= i < n && InTime(w, arrivals, T, j, i)
  }

  ghost predicate InTime(w: World, arrivals: seq<seq<byte>>, T: Guid, j: nat, i: nat)
    requires i < |arrivals|
  {
    CameAt(arrivals, T, j, i) && Delivered(DecodedAt(w, arrivals, i))
  }

  ghost function Sequences(arrivals: seq<seq<byte>>, log: seq<nat>): (js: seq<nat>)
    requires Positions(arrivals, log)
    ensures |js| == |log|
  {
    seq(|log|, x requires 0 <= x < |log| => assert log[x] in log; PacketAt(arrivals, log[x]).sequence)
  }

  ghost function Decodings(w: World, arrivals: seq<seq<byte>>, log: seq<nat>): (ds: seq<FrameCodec.DecodeResult>)
    requires Positions(arrivals, log)
    ensures |ds| == |log|
  {
    seq(|log|, x requires 0 <= x < |log| => assert log[x] in log; DecodedAt(w, arrivals, log[x]))
  }

  lemma {:induction false} PositionsPrefix(arrivals: seq<seq<byte>>, log: seq<nat>, n: nat)
    requires Positions(arrivals, log) && n <= |log|
    ensures Positions(arrivals, log[..n])
  {
    hide Decode;
    assert forall i :: i in log[..n] ==> i in log;
  }

  /** Outside Test D the receiver has been given the processed frames in the order of the log. */
  lemma {:induction false} FedIsMany(w: World, arrivals: seq<seq<byte>>, log: seq<nat>)
    requires Positions(arrivals, log) && forall i :: i in log ==> !Recovering(w, arrivals, i)
    ensures Fed(w, arrivals, log) == ReceiveMany(Decodings(w, arrivals, log), w.expectedType)
    decreases |log|
  {
    hide Receive, Recovering, Decode;
    if log != [] {
      var n := |log| - 1;
      PositionsPrefix(arrivals, log, n);
      assert forall i :: i in log[..n] ==> i in log;
      assert log[n] in log;
      FedIsMany(w, arrivals, log[..n]);
      assert Decodings(w, arrivals, log)[..n] == Decodings(w, arrivals, log[..n]);
    }
  }

  lemma {:induction false} SessionNeverFails(w: World, arrivals: seq<seq<byte>>, T: Guid, m: Manifest, records: seq<seq<byte>>, e: nat)
    requires Capture(records) && SessionOf(w, arrivals, T, m, records) && e < |arrivals|
    ensures OneSession(w, arrivals, T) && !FailsAt(w, arrivals, e) && !Recovering(w, arrivals, e)
  {
    hide Decode, Honest, First;
    forall i | 0 <= i < |arrivals| && Arrives(arrivals, i) && PacketAt(arrivals, i).kind == SESSION_START
      ensures w.read(PacketAt(arrivals, i).payload) == Some(m)
    {
      assert StartAt(arrivals, i);
    }
    InForceIs(w, arrivals, m, e);
    if FirstOf(arrivals, e, SESSION_START) {
      FirstArrives(arrivals, e);
      assert StartAt(arrivals, e);
    }
    if Due(w, arrivals, e) {
      FirstArrives(arrivals, e);
      assert FrameAt(arrivals, T, e);
      HonestIsNoBadArgument(records, PacketAt(arrivals, e).sequence, DecodedAt(w, arrivals, e));
    }
  }

  lemma {:induction false} HonestIsNoBadArgument(records: seq<seq<byte>>, j: nat, d: FrameCodec.DecodeResult)
    requires Capture(records) && Honest(records, j, d)
    ensures !d.BadArgument?
  {
  }

  lemma {:induction false} InForceIs(w: World, arrivals: seq<seq<byte>>, m: Manifest, n: nat)
    requires n <= |arrivals| && forall i :: 0 <= i < |arrivals| && StartAt(arrivals, i) ==> w.read(PacketAt(arrivals, i).payload) == Some(m)
    ensures InForce(w, arrivals, n).None? || InForce(w, arrivals, n) == Some(m)
    decreases n
  {
    hide Decode, First;
    if n > 0 {
      InForceIs(w, arrivals, m, n - 1);
      if FirstOf(arrivals, n - 1, SESSION_START) {
        FirstArrives(arrivals, n - 1);
        assert StartAt(arrivals, n - 1);
      }
    }
  }

  lemma {:induction false} LogOfSession(w: World, arrivals: seq<seq<byte>>, T: Guid, m: Manifest, records: seq<seq<byte>>, n: nat)
    requires n <= |arrivals| && Capture(records) && SessionOf(w, arrivals, T, m, records)
    ensures var log := Run(w, arrivals, n).log;
      && Positions(arrivals, log) && (forall i :: i in log ==> i < n && FrameAt(arrivals, T, i) && !Recovering(w, arrivals, i))
      && AllHonest(records, Sequences(arrivals, log), Decodings(w, arrivals, log))
      && forall j :: GotFrame(Sequences(arrivals, log), Decodings(w, arrivals, log), j) <==> GotInTime(w, arrivals, T, n, j)
  {
    hide Run, Decode, Honest, First, StartBefore, EndAccepted, Delivered, Recovering, FailsAt, Sound;
    var log := Run(w, arrivals, n).log;
    EveryRunHolds(w, arrivals, n);
    LogBelow(w, arrivals, n);
    forall e | 0 <= e < n
      ensures OneSession(w, arrivals, T) && !FailsAt(w, arrivals, e) && !Recovering(w, arrivals, e)
    {
      SessionNeverFails(w, arrivals, T, m, records, e);
    }
    forall i | 0 <= i < n
      ensures i in log ==> FrameAt(arrivals, T, i)
      ensures i in log <==>
        && FirstOf(arrivals, i, FRAME) && PacketAt(arrivals, i).testId == T
        && StartBefore(arrivals, i) && forall e :: 0 <= e < i ==> !EndAccepted(arrivals, T, e)
    {
      SessionFrames(w, arrivals, T, n, i);
    }
    var js, ds := Sequences(arrivals, log), Decodings(w, arrivals, log);
    forall x | 0 <= x < |log|
      ensures Honest(records, js[x], ds[x])
    {
      assert log[x] in log;
    }
    forall j
      ensures GotFrame(js, ds, j) <==> GotInTime(w, arrivals, T, n, j)
    {
      if GotFrame(js, ds, j) {
        var x :| 0 <= x < |ds| && js[x] == j && Delivered(ds[x]);
        assert log[x] in log;
        assert InTime(w, arrivals, T, j, log[x]);
      }
      if GotInTime(w, arrivals, T, n, j) {
        var i :| 0 <= i < n && InTime(w, arrivals, T, j, i);
        var x :| 0 <= x < |log| && log[x] == i;
        assert js[x] == j && ds[x] == DecodedAt(w, arrivals, i);
      }
    }
  }

  lemma {:induction false} LogBelow(w: World, arrivals: seq<seq<byte>>, n: nat)
    requires n <= |arrivals|
    ensures forall i :: i in Run(w, arrivals, n).log ==> i < n
  {
    hide Run, Due, EndsAt, FailsAt;
    EveryRunIsSound(w, arrivals, n);
  }

  /** After any number of datagrams of a session the integrity test on the receiver's state would hold exactly when the first
      copy of every frame has arrived in time and decoded, and the reconstructed file would then be the capture file. */
  lemma {:induction false} StateDelivers(w: World, arrivals: seq<seq<byte>>, T: Guid, m: Manifest, file: seq<byte>, hash: Hash, n: nat)
    requires n <= |arrivals| && CaptureFile.Records(file).Ok? && |CaptureFile.Records(file).value| < 0x8000_0000
    requires (CaptureFile.AcceptedIsCapture(file);
      var records := CaptureFile.Records(file).value; Describes(m, file, records, hash) && SessionOf(w, arrivals, T, m, records))
    ensures var records, held := CaptureFile.Records(file).value, Run(w, arrivals, n).frames.records;
      && (Success(held, m, hash) == Ok(true) <==> forall j :: 0 <= j < FrameCount(records) ==> GotInTime(w, arrivals, T, n, j))
      && Success(held, m, hash).Ok?
      && (Success(held, m, hash) == Ok(true) ==> Reconstructed(held) == Ok(file))
  {
    hide CaptureFile.Records, CaptureFile.Framed, Success, Reconstructed, GotFrame, GotInTime, ReceiveMany, AllHonest, Describes, Capture, FrameCount,
      Run, Fed, FrameAt, Recovering, Positions, Kept;
    CaptureFile.AcceptedIsCapture(file);
    var records, log := CaptureFile.Records(file).value, Run(w, arrivals, n).log;
    EveryRunHolds(w, arrivals, n);
    LogOfSession(w, arrivals, T, m, records, n);
    FedIsMany(w, arrivals, log);
    SuccessExactlyWhenDelivered(file, m, hash, Sequences(arrivals, log), Decodings(w, arrivals, log));
  }

  // ----- with the native codec -----

  /** A frame that arrives undamaged, with LDPC decoders that recover the systematic bits, is delivered honestly. */
  lemma {:induction false} UndamagedFrameDelivered(sf2: LdpcEncoder.Code, sf3: LdpcEncoder.Code, dec2: FrameCodec.Decoder, dec3: FrameCodec.Decoder,
      toi: nat, sb2: Bits, records: seq<seq<byte>>, j: nat, buf2: Bits, buf3: Bits, buf4: Bits)
    requires FrameCodec.Codes(sf2, sf3) && FrameCodec.DecoderWidth(dec2, 1200) && FrameCodec.DecoderWidth(dec3, 870) && |sb2| == 1176
    requires Capture(records) && j < FrameCount(records)
    requires (PairIds(records, j);
      var sb3, sb4 := SentBits(records, FramePair(records, j).0), SentBits(records, FramePair(records, j).1);
      && FrameCodec.Recovers(dec2(FrameCodec.Sf2Input(FrameCodec.Sf2Symbols(sf2, sb2))), FrameCodec.WithCrc(sb2))
      && FrameCodec.Recovers(dec3(FrameCodec.Sf3Input(FrameCodec.Sf3Symbols(sf3, sb3))), FrameCodec.WithCrc(sb3))
      && FrameCodec.Recovers(dec3(FrameCodec.Sf3Input(FrameCodec.Sf3Symbols(sf3, sb4))), FrameCodec.WithCrc(sb4)))
    ensures (PairIds(records, j);
      var sb3, sb4 := SentBits(records, FramePair(records, j).0), SentBits(records, FramePair(records, j).1);
      var frame := PackBits(FrameCodec.FrameBits(sf2, sf3, toi, sb2, sb3, sb4));
      && |frame| == 750
      && var d := FrameCodec.DecodeSpec(dec2, dec3, toi, BitsOf(frame, 6000), buf2, buf3, buf4);
        Honest(records, j, d) && Delivered(d))
  {
    hide FrameCodec.DecodeSpec, FrameCodec.FrameBits, PackBits, BitsOf, SentBits, Capture, FrameCount, FramePair, FrameCodec.Recovers, FrameCodec.Sf2Symbols, FrameCodec.Sf3Symbols;
    PairIds(records, j);
    FrameCodec.FrameRoundTrip(sf2, sf3, dec2, dec3, toi, sb2, SentBits(records, FramePair(records, j).0), SentBits(records, FramePair(records, j).1), buf2, buf3, buf4);
  }
}
