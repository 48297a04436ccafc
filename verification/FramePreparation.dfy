/** PrepareAsync: the blocks of all records, two to a frame, each frame with its own time. */
module FramePreparation {
  import opened Results
  import opened BitPacking
  import opened BigEndian
  import opened FragmentCodec
  import opened SubframeBits
  import opened AnyOrder

  // ----- frame times -----

  datatype Time = Time(week: U16, intervalOfWeek: U16, timeOfInterval: nat)

  ghost predicate ValidTime(t: Time) {
    t.intervalOfWeek < 504 && t.timeOfInterval < 100
  }

  /** Advance, with the wrap-around of the byte and the two ushorts. */
  function Advance(t: Time): Time {
    var toi := (t.timeOfInterval + 1) % 256;
    if toi < 100 then t.(timeOfInterval := toi)
    else
      var interval := (t.intervalOfWeek + 1) % 0x1_0000;
      if interval < 504 then Time(t.week, interval, 0)
      else Time((t.week + 1) % 0x1_0000, 0, 0)
  }

  function TimeAfter(t: Time, n: nat): Time
    decreases n
  {
    if n == 0 then t else Advance(TimeAfter(t, n - 1))
  }

  /** Twelve-second frames since week 0. */
  function FrameNumber(t: Time): nat {
    50_400 * t.week + 100 * t.intervalOfWeek + t.timeOfInterval
  }

  const CYCLE: nat := 3_303_014_400

  /** Frame n after t is the frame n places later, in a cycle of 65536 weeks. */
  lemma {:induction false} TimesAreConsecutive(t: Time, n: nat)
    requires ValidTime(t)
    ensures ValidTime(TimeAfter(t, n)) && FrameNumber(TimeAfter(t, n)) == (FrameNumber(t) + n) % CYCLE
    decreases n
  {
    hide FrameNumber, Advance, CYCLE, ValidTime;
    if n > 0 {
      TimesAreConsecutive(t, n - 1);
      OneFrameLater(TimeAfter(t, n - 1));
      AddModulo(FrameNumber(t) + n - 1);
    } else {
      InCycle(t);
    }
  }

  lemma {:induction false} InCycle(t: Time)
    requires ValidTime(t)
    ensures FrameNumber(t) % CYCLE == FrameNumber(t) < CYCLE
  {
  }

  lemma {:induction false} OneFrameLater(t: Time)
    requires ValidTime(t)
    ensures ValidTime(Advance(t)) && FrameNumber(Advance(t)) == (FrameNumber(t) + 1) % CYCLE
  {
    hide Advance, FrameNumber, ValidTime, CYCLE;
    NextNumber(t);
    InCycle(t);
    WrapOnce(FrameNumber(t));
  }

  lemma {:induction false} NextNumber(t: Time)
    requires ValidTime(t)
    ensures ValidTime(Advance(t)) && FrameNumber(Advance(t)) == if FrameNumber(t) + 1 == CYCLE then 0 else FrameNumber(t) + 1
  {
    hide Advance;
    NoWrap(t);
  }

  /** On valid times only the week wraps. */
  lemma {:induction false} NoWrap(t: Time)
    requires ValidTime(t)
    ensures Advance(t) ==
      if t.timeOfInterval < 99 then t.(timeOfInterval := t.timeOfInterval + 1)
      else if t.intervalOfWeek < 503 then Time(t.week, t.intervalOfWeek + 1, 0)
      else if t.week < 0xFFFF then Time(t.week + 1, 0, 0)
      else Time(0, 0, 0)
  {
  }

  lemma {:induction false} WrapOnce(x: nat)
    requires x < CYCLE
    ensures (x + 1) % CYCLE == if x + 1 == CYCLE then 0 else x + 1
  {
  }

  lemma {:induction false} AddModulo(a: nat)
    ensures (a % CYCLE + 1) % CYCLE == (a + 1) % CYCLE
  {
  }

  // ----- the blocks in order -----

  ghost function RecordIds(records: seq<seq<byte>>, k: nat): (ids: seq<Id>)
    requires k < |records|
    ensures |ids| == Count(|records[k]|)
  {
    seq(Count(|records[k]|), i requires 0 <= i => (k, i))
  }

  /** The fragments of the first n records, in order. */
  ghost function BlockIds(records: seq<seq<byte>>, n: nat): seq<Id>
    requires n <= |records|
    decreases n
  {
    if n == 0 then [] else BlockIds(records, n - 1) + RecordIds(records, n - 1)
  }

  /** The list holds every fragment of those records, and nothing else. */
  lemma {:induction false} BlockIdsMembers(records: seq<seq<byte>>, n: nat, id: Id)
    requires n <= |records|
    ensures id in BlockIds(records, n) <==> id.0 < n && IsId(records, id)
    decreases n
  {
    if n > 0 {
      BlockIdsMembers(records, n - 1, id);
      var last := RecordIds(records, n - 1);
      if id.0 == n - 1 && id.1 < Count(|records[n - 1]|) {
        assert last[id.1] == id;
      }
    }
  }

  ghost predicate Precedes(a: Id, b: Id) {
    a.0 < b.0 || (a.0 == b.0 && a.1 < b.1)
  }

  /** The list is in strict order, so no fragment occurs twice. */
  lemma {:induction false} BlockIdsOrdered(records: seq<seq<byte>>, n: nat, p: nat, q: nat)
    requires n <= |records| && p < q < |BlockIds(records, n)|
    ensures Precedes(BlockIds(records, n)[p], BlockIds(records, n)[q])
    decreases n
  {
    if n > 0 {
      var front := BlockIds(records, n - 1);
      if q < |front| {
        BlockIdsOrdered(records, n - 1, p, q);
      } else if p < |front| {
        assert front[p] in front;
        BlockIdsMembers(records, n - 1, front[p]);
      }
    }
  }

  // ----- frames -----

  ghost function Ids(records: seq<seq<byte>>): seq<Id> {
    BlockIds(records, |records|)
  }

  ghost function FrameCount(records: seq<seq<byte>>): nat {
    (|Ids(records)| + 1) / 2
  }

  /** The two fragments of frame j; the last one stands twice when their number is odd. */
  ghost function FramePair(records: seq<seq<byte>>, j: nat): (Id, Id)
    requires j < FrameCount(records)
  {
    var ids := Ids(records);
    (ids[2 * j], if 2 * j + 1 < |ids| then ids[2 * j + 1] else ids[2 * j])
  }

  ghost function BlockOfId(records: seq<seq<byte>>, id: Id): (b: seq<byte>)
    requires Capture(records) && IsId(records, id)
    ensures |b| == 105
  {
    BlockOf(id.0, records[id.0], id.1)
  }

  /** What frame j carries: its time and the bits of subframes 3 and 4. */
  datatype FrameInput = FrameInput(time: Time, sb3: seq<int>, sb4: seq<int>)

  lemma {:induction false} PairIds(records: seq<seq<byte>>, j: nat)
    requires j < FrameCount(records)
    ensures IsId(records, FramePair(records, j).0) && IsId(records, FramePair(records, j).1)
  {
    var ids := Ids(records);
    var pair := FramePair(records, j);
    assert pair.0 in ids && pair.1 in ids;
    BlockIdsMembers(records, |records|, pair.0);
    BlockIdsMembers(records, |records|, pair.1);
  }

  ghost function Prepared(records: seq<seq<byte>>, start: Time, j: nat): FrameInput
    requires Capture(records) && j < FrameCount(records)
  {
    PairIds(records, j);
    var pair := FramePair(records, j);
    FrameInput(TimeAfter(start, j), Raw(SbBits(BlockOfId(records, pair.0), 63)), Raw(SbBits(BlockOfId(records, pair.1), 63)))
  }

  /** Two different frames share no fragment. */
  lemma {:induction false} FramesDisjoint(records: seq<seq<byte>>, a: nat, b: nat)
    requires a < FrameCount(records) && b < FrameCount(records) && a != b
    ensures var p, q := FramePair(records, a), FramePair(records, b); p.0 != q.0 && p.0 != q.1 && p.1 != q.0 && p.1 != q.1
  {
    hide BlockIds;
    var ids := Ids(records);
    var x, y := if a < b then a else b, if a < b then b else a;
    var x', y' := if 2 * x + 1 < |ids| then 2 * x + 1 else 2 * x, if 2 * y + 1 < |ids| then 2 * y + 1 else 2 * y;
    BlockIdsOrdered(records, |records|, 2 * x, 2 * y);
    BlockIdsOrdered(records, |records|, 2 * x, y');
    BlockIdsOrdered(records, |records|, x', 2 * y);
    BlockIdsOrdered(records, |records|, x', y');
  }

  /** Every fragment is in some frame. */
  lemma {:induction false} FramesCover(records: seq<seq<byte>>, id: Id) returns (j: nat)
    requires IsId(records, id)
    ensures j < FrameCount(records) && (FramePair(records, j).0 == id || FramePair(records, j).1 == id)
  {
    hide BlockIds;
    BlockIdsMembers(records, |records|, id);
    var ids := Ids(records);
    var p :| 0 <= p < |ids| && ids[p] == id;
    j := p / 2;
  }

  /** The frames carry the fragments in file order: within a frame the first comes before the second, except that the
      last frame repeats the last fragment when their number is odd, and all of a frame comes before all of a later one. */
  lemma {:induction false} FramesInOrder(records: seq<seq<byte>>, a: nat)
    requires a < FrameCount(records)
    ensures var pair := FramePair(records, a);
      && (if a + 1 == FrameCount(records) && |Ids(records)| % 2 == 1 then pair.0 == pair.1 else Precedes(pair.0, pair.1))
      && forall b :: a < b < FrameCount(records) ==> Precedes(pair.1, FramePair(records, b).0)
  {
    hide BlockIds, Precedes;
    var ids := Ids(records);
    if 2 * a + 1 < |ids| {
      BlockIdsOrdered(records, |records|, 2 * a, 2 * a + 1);
    }
    forall b | a < b < FrameCount(records)
      ensures Precedes(FramePair(records, a).1, FramePair(records, b).0)
    {
      BlockIdsOrdered(records, |records|, 2 * a + 1, 2 * b);
    }
  }

  // ----- the loops -----

  /** The SelectMany over Fragment. */
  method AllBlocks(records: seq<seq<byte>>) returns (r: Result<seq<seq<byte>>>)
    requires |records| < 0x8000_0000
    ensures r.Ok? <==> Capture(records)
    ensures r.Ok? ==> |r.value| == |Ids(records)| && forall p :: 0 <= p < |r.value| ==> IsId(records, Ids(records)[p]) && r.value[p] == BlockOfId(records, Ids(records)[p])
  {
    hide BlockOf;
    var blocks: seq<seq<byte>> := [];
    for k := 0 to |records|
      invariant forall x :: 0 <= x < k ==> Fragmentable(records[x])
      invariant |blocks| == |BlockIds(records, k)|
      invariant forall p :: 0 <= p < |blocks| ==> IsBlock(records, BlockIds(records, k)[p], blocks[p])
    {
      var f := Fragment(k, records[k]);
      if f.InvalidData? { return InvalidData; }
      blocks := blocks + f.value;
    }
    r := Ok(blocks);
  }

  ghost predicate IsBlock(records: seq<seq<byte>>, id: Id, block: seq<byte>) {
    IsId(records, id) && id.0 < 0x8000_0000 && Fragmentable(records[id.0]) && block == BlockOf(id.0, records[id.0], id.1)
  }

  /** PrepareAsync up to the codec: the pairing loop. A start outside the week or the interval throws. */
  method Prepare(records: seq<seq<byte>>, start: Time) returns (r: Result<seq<FrameInput>>)
    requires |records| < 0x8000_0000
    ensures r.Ok? <==> Capture(records) && (records == [] || ValidTime(start))
    ensures r.Ok? ==> |r.value| == FrameCount(records) && forall j :: 0 <= j < |r.value| ==> r.value[j] == Prepared(records, start, j)
  {
    hide BlockIds, SbBits, Raw, Advance, BlockOf;
    var b := AllBlocks(records);
    if b.InvalidData? { return InvalidData; }
    var blocks := b.value;
    BlocksExist(records);
    var time := start;
    var frames: seq<FrameInput> := [];
    var blockIndex := 0;
    while blockIndex < |blocks|
      invariant blockIndex == 2 * |frames| && |frames| <= (|blocks| + 1) / 2
      invariant time == TimeAfter(start, |frames|)
      invariant frames != [] ==> ValidTime(start)
      invariant forall j :: 0 <= j < |frames| ==> frames[j] == Prepared(records, start, j)
    {
      var second := if blockIndex + 1 < |blocks| then blocks[blockIndex + 1] else blocks[blockIndex];
      if time.intervalOfWeek >= 504 || time.timeOfInterval >= 100 {
        NeverLate(start, |frames|);
        return InvalidData;
      }
      var sb3 := ToSbBits(blocks[blockIndex], 63);
      var sb4 := ToSbBits(second, 63);
      frames := frames + [FrameInput(time, sb3.value, sb4.value)];
      time := Advance(time);
      blockIndex := blockIndex + 2;
    }
    r := Ok(frames);
  }

  lemma {:induction false} NeverLate(start: Time, n: nat)
    requires !ValidTime(TimeAfter(start, n))
    ensures !ValidTime(start)
  {
    if ValidTime(start) {
      TimesAreConsecutive(start, n);
    }
  }

  lemma {:induction false} BlocksExist(records: seq<seq<byte>>)
    requires Capture(records)
    ensures Ids(records) == [] <==> records == []
  {
    if records != [] {
      assert Fragmentable(records[0]);
      BlockIdsMembers(records, |records|, (0, 0));
    }
  }
}
