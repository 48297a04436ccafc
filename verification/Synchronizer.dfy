/** AfsFrameSynchronizer: finding the 68-symbol pattern at any bit position, and cutting frames out. */
module Synchronizer {
  import opened BitStrings
  import opened Results
  import opened BitPacking
  import FrameCodec
  import opened SortedKeys

  const SYNC_BYTES: seq<byte> := FrameCodec.SYNC_BYTES

  /** The 68 symbols from position o are the synchronisation pattern. */
  ghost predicate SyncAt(stream: seq<byte>, o: nat)
    requires o + 68 <= 8 * |stream|
  {
    forall i :: 0 <= i < 68 ==> StreamBit(stream, o + i) == StreamBit(SYNC_BYTES, i)
  }

  /** q lists, in increasing order, exactly the positions below `end` where the pattern stands. */
  ghost predicate ListsSyncs(stream: seq<byte>, end: nat, q: seq<nat>)
    requires end == 0 || end + 67 <= 8 * |stream|
  {
    Increasing(q) && (forall o :: o in q ==> o < end) && forall o :: 0 <= o < end ==> (o in q <==> SyncAt(stream, o))
  }

  method MatchesAt(stream: seq<byte>, o: nat) returns (matches: bool)
    requires o + 68 <= 8 * |stream|
    ensures matches == SyncAt(stream, o)
  {
    hide BitAt;
    matches := true;
    for i := 0 to 68
      invariant matches && forall x :: 0 <= x < i ==> StreamBit(stream, o + x) == StreamBit(SYNC_BYTES, x)
    {
      ShiftForm(stream[(o + i) / 8], (o + i) % 8);
      ShiftForm(SYNC_BYTES[i / 8], i % 8);
      var a := (stream[(o + i) / 8] >> (7 - (o + i) % 8)) & 1 == 1;
      var b := (SYNC_BYTES[i / 8] >> (7 - i % 8)) & 1 == 1;
      assert a == StreamBit(stream, o + i) && b == StreamBit(SYNC_BYTES, i);
      if a == b { continue; }
      matches := false;
      break;
    }
  }

  /** FindSyncOffsets */
  method FindSyncOffsets(stream: seq<byte>, symbolCount: int) returns (r: Result<seq<nat>>)
    ensures r.Ok? <==> 0 <= symbolCount <= 8 * |stream|
    ensures r.Ok? ==> ListsSyncs(stream, if symbolCount < 68 then 0 else symbolCount - 67, r.value)
  {
    hide SyncAt;
    if symbolCount < 0 || symbolCount > 8 * |stream| { return InvalidData; }
    var offsets: seq<nat> := [];
    var offset := 0;
    while offset <= symbolCount - 68
      invariant offset == 0 || offset <= symbolCount - 67
      invariant ListsSyncs(stream, offset, offsets)
    {
      var matches := MatchesAt(stream, offset);
      ListGrows(stream, offset, offsets);
      if matches { offsets := offsets + [offset]; }
      offset := offset + 1;
    }
    r := Ok(offsets);
  }

  lemma {:induction false} ListGrows(stream: seq<byte>, end: nat, q: seq<nat>)
    requires end + 68 <= 8 * |stream| && ListsSyncs(stream, end, q)
    ensures ListsSyncs(stream, end + 1, if SyncAt(stream, end) then q + [end] else q)
  {
    hide SyncAt;
    forall i | 0 <= i < |q|
      ensures q[i] < end
    {
      assert q[i] in q;
    }
  }

  /** ExtractFrame */
  method ExtractFrame(stream: seq<byte>, o: int) returns (r: Result<seq<byte>>)
    ensures r.Ok? <==> 0 <= o && o + 6000 <= 8 * |stream|
    ensures r.Ok? ==> r.value == Cut(stream, o)
  {
    hide StreamBit, PackBits;
    if o < 0 || o + 6000 > 8 * |stream| { return InvalidData; }
    var frame := new byte[750](_ => 0);
    ZeroStream(frame[..]);
    for i := 0 to 6000
      invariant forall p :: 0 <= p < 6000 ==> StreamBit(frame[..], p) == (p < i && StreamBit(stream, o + p))
    {
      OrInto(frame, i, StreamBit(stream, o + i));
    }
    PackBitsPacks(Symbols(stream, o));
    PackingUnique(frame[..], Cut(stream, o));
    r := Ok(frame[..]);
  }

  function Symbols(stream: seq<byte>, o: nat): (b: Bits)
    requires o + 6000 <= 8 * |stream|
    ensures |b| == 6000
  {
    seq(6000, i requires 0 <= i < 6000 => StreamBit(stream, o + i))
  }

  /** The 6000 symbols from position o as a frame of 750 bytes. */
  function Cut(stream: seq<byte>, o: nat): (f: seq<byte>)
    requires o + 6000 <= 8 * |stream|
    ensures |f| == 750
  {
    PackBits(Symbols(stream, o))
  }

  // ----- streams of whole frames -----

  ghost predicate Frames(fs: seq<seq<byte>>) {
    forall k :: 0 <= k < |fs| ==> |fs[k]| == 750
  }

  function Stream(fs: seq<seq<byte>>): seq<byte> {
    if fs == [] then [] else Stream(fs[..|fs| - 1]) + fs[|fs| - 1]
  }

  lemma {:induction false} StreamBytes(fs: seq<seq<byte>>, k: nat, x: nat)
    requires Frames(fs) && k < |fs| && x < 750
    ensures |Stream(fs)| == 750 * |fs| && Stream(fs)[750 * k + x] == fs[k][x]
    decreases |fs|
  {
    var n := |fs| - 1;
    StreamLength(fs[..n]);
    StreamLength(fs);
    if k < n {
      StreamBytes(fs[..n], k, x);
    }
  }

  lemma {:induction false} StreamLength(fs: seq<seq<byte>>)
    requires Frames(fs)
    ensures |Stream(fs)| == 750 * |fs|
    decreases |fs|
  {
    if fs != [] {
      StreamLength(fs[..|fs| - 1]);
    }
  }

  lemma {:induction false} StreamBits(fs: seq<seq<byte>>, k: nat, i: nat)
    requires Frames(fs) && k < |fs| && i < 6000
    ensures |Stream(fs)| == 750 * |fs| && StreamBit(Stream(fs), 6000 * k + i) == StreamBit(fs[k], i)
  {
    StreamBytes(fs, k, i / 8);
    Digits(k, i);
  }

  lemma {:induction false} Digits(k: nat, i: nat)
    requires i < 6000
    ensures (6000 * k + i) / 8 == 750 * k + i / 8 && (6000 * k + i) % 8 == i % 8
  {
  }

  /** At a frame boundary the pattern is found exactly when that frame begins with it. */
  lemma {:induction false} SyncAtBoundary(fs: seq<seq<byte>>, k: nat)
    requires Frames(fs) && k < |fs|
    ensures |Stream(fs)| == 750 * |fs| && (SyncAt(Stream(fs), 6000 * k) <==> SyncAt(fs[k], 0))
  {
    hide StreamBit, Stream;
    StreamLength(fs);
    forall i | 0 <= i < 68
      ensures StreamBit(Stream(fs), 6000 * k + i) == StreamBit(fs[k], i)
    {
      StreamBits(fs, k, i);
    }
    assert forall i :: 0 <= i < 68 ==> StreamBit(fs[k], 0 + i) == StreamBit(fs[k], i);
  }

  /** Cutting at a frame boundary gives that frame. */
  lemma {:induction false} CutAtBoundary(fs: seq<seq<byte>>, k: nat)
    requires Frames(fs) && k < |fs|
    ensures |Stream(fs)| == 750 * |fs| && Cut(Stream(fs), 6000 * k) == fs[k]
  {
    hide StreamBit, Stream, PackBits;
    StreamLength(fs);
    var bits := Symbols(Stream(fs), 6000 * k);
    forall i | 0 <= i < 6000
      ensures bits[i] == StreamBit(fs[k], i)
    {
      StreamBits(fs, k, i);
    }
    PackBitsPacks(bits);
    PackingUnique(Cut(Stream(fs), 6000 * k), fs[k]);
  }

  /** The positions below `end` where the pattern stands, in order. */
  ghost function Syncs(stream: seq<byte>, end: nat): (q: seq<nat>)
    requires end == 0 || end + 67 <= 8 * |stream|
    decreases end
  {
    if end == 0 then [] else Syncs(stream, end - 1) + if SyncAt(stream, end - 1) then [end - 1] else []
  }

  lemma {:induction false} SyncsListed(stream: seq<byte>, end: nat)
    requires end == 0 || end + 67 <= 8 * |stream|
    ensures ListsSyncs(stream, end, Syncs(stream, end))
    decreases end
  {
    hide SyncAt, ListsSyncs, Syncs;
    SyncsStep(stream, end);
    if end > 0 {
      SyncsListed(stream, end - 1);
      ListGrows(stream, end - 1, Syncs(stream, end - 1));
    } else {
      NoneListed(stream);
    }
  }

  lemma {:induction false} SyncsStep(stream: seq<byte>, end: nat)
    requires end == 0 || end + 67 <= 8 * |stream|
    ensures end == 0 ==> Syncs(stream, end) == []
    ensures end > 0 ==> Syncs(stream, end) == if SyncAt(stream, end - 1) then Syncs(stream, end - 1) + [end - 1] else Syncs(stream, end - 1)
  {
    hide SyncAt;
  }

  lemma {:induction false} NoneListed(stream: seq<byte>)
    ensures ListsSyncs(stream, 0, [])
  {
  }

  /** There is one such list. */
  lemma {:induction false} SyncsUnique(stream: seq<byte>, end: nat, q: seq<nat>)
    requires (end == 0 || end + 67 <= 8 * |stream|) && ListsSyncs(stream, end, q)
    ensures q == Syncs(stream, end)
  {
    hide SyncAt, Syncs, Increasing;
    SyncsListed(stream, end);
    IncreasingUnique(q, Syncs(stream, end));
  }
}
