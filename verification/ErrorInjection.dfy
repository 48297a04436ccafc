/** AfsErrorInjector.Inject, with the random choice of places handed in. */
module ErrorInjection {
  import opened Results
  import opened BitPacking

  datatype Mode = NoErrors | Random | Burst | SyncLoss

  /** The first symbol a mode may touch, and the first it may not; all is IncludeSyncAndSb1, false in every session. */
  function From(mode: Mode, all: bool): nat {
    if mode == SyncLoss || all then 0 else 120
  }

  function To(mode: Mode): nat {
    if mode == SyncLoss then 68 else 6000
  }

  /** What RandomIndices, BurstIndices and SyncIndices return: `count` increasing places in range, consecutive for a burst. */
  ghost predicate Chosen(mode: Mode, all: bool, count: nat, places: seq<nat>) {
    && |places| == count
    && (forall i, j :: 0 <= i < j < |places| ==> places[i] < places[j])
    && (forall i :: 0 <= i < |places| ==> From(mode, all) <= places[i] < To(mode))
    && (mode == Burst ==> forall i :: 0 <= i < |places| ==> places[i] == places[0] + i)
  }

  /** out differs from frame exactly at the places. */
  ghost predicate FlippedAt(frame: seq<byte>, out: seq<byte>, places: seq<nat>) {
    && |out| == |frame|
    && forall p :: 0 <= p < 8 * |frame| ==> StreamBit(out, p) == (StreamBit(frame, p) != (p in places))
  }

  lemma {:induction false} FlipShift(b: byte, j: nat)
    requires j < 8
    ensures b ^ (1 << (7 - j)) == FlipBit(b, j)
  {
    ShiftForm(b, j);
  }

  lemma {:induction false} FlipStep(before: seq<byte>, after: seq<byte>, i: nat)
    requires i < 8 * |before| && after == before[i / 8 := before[i / 8] ^ (1 << (7 - i % 8))]
    ensures forall p :: 0 <= p < 8 * |before| ==> StreamBit(after, p) == (StreamBit(before, p) != (p == i))
  {
    hide BitAt, FlipBit;
    FlipShift(before[i / 8], i % 8);
    FlippedByte(before, before[i / 8 := FlipBit(before[i / 8], i % 8)], i);
  }

  lemma {:induction false} FlippedByte(before: seq<byte>, after: seq<byte>, i: nat)
    requires i < 8 * |before| && after == before[i / 8 := FlipBit(before[i / 8], i % 8)]
    ensures forall p :: 0 <= p < 8 * |before| ==> StreamBit(after, p) == (StreamBit(before, p) != (p == i))
  {
    hide BitAt, FlipBit;
    forall p | 0 <= p < 8 * |before|
      ensures StreamBit(after, p) == (StreamBit(before, p) != (p == i))
    {
      if p / 8 == i / 8 {
        FlipBitAt(before[i / 8], i % 8, p % 8);
      }
    }
  }

  /** frame[index >> 3] ^= 1 << (7 - (index & 7)) */
  method FlipInto(out: array<byte>, i: nat)
    requires i < 8 * out.Length
    modifies out
    ensures forall p :: 0 <= p < 8 * out.Length ==> StreamBit(out[..], p) == (old(StreamBit(out[..], p)) != (p == i))
  {
    ghost var before := out[..];
    out[i / 8] := out[i / 8] ^ (1 << (7 - i % 8));
    hide StreamBit;
    FlipStep(before, out[..], i);
  }

  /** AfsErrorInjector.Inject; `places` is what the index method of the mode returned. */
  method Inject(frame: seq<byte>, mode: Mode, all: bool, count: int, places: seq<nat>) returns (r: Result<seq<byte>>)
    requires mode != NoErrors && 0 < count <= To(mode) - From(mode, all) ==> Chosen(mode, all, count, places)
    ensures r.Ok? <==> |frame| == 750 && count >= 0 && (mode == NoErrors || count <= To(mode) - From(mode, all))
    ensures r.Ok? ==> FlippedAt(frame, r.value, if mode == NoErrors || count == 0 then [] else places)
  {
    hide StreamBit;
    if |frame| != 750 || count < 0 { return InvalidData; }
    if mode == NoErrors || count == 0 { return Ok(frame); }
    if count > To(mode) - From(mode, all) { return InvalidData; }
    var out := new byte[750](i requires 0 <= i < 750 => frame[i]);
    assert out[..] == frame;
    for i := 0 to |places|
      invariant forall p :: 0 <= p < 6000 ==> StreamBit(out[..], p) == (StreamBit(frame, p) != (p in places[..i]))
    {
      assert places[i] !in places[..i];
      assert places[..i + 1] == places[..i] + [places[i]];
      FlipInto(out, places[i]);
    }
    assert places[..|places|] == places;
    r := Ok(out[..]);
  }

  /** Injecting the same errors again restores the frame. */
  lemma {:induction false} TwiceRestores(frame: seq<byte>, out: seq<byte>, back: seq<byte>, places: seq<nat>)
    requires FlippedAt(frame, out, places) && FlippedAt(out, back, places)
    ensures back == frame
  {
    hide StreamBit;
    PackingUnique(back, frame);
  }

  /** out differs from frame exactly at the places first to first + count - 1. */
  ghost predicate FlippedRun(frame: seq<byte>, out: seq<byte>, first: nat, count: nat) {
    && |out| == |frame|
    && forall p :: 0 <= p < 8 * |frame| ==> (StreamBit(out, p) == StreamBit(frame, p) <==> !(first <= p < first + count))
  }

  /** Without the flag, random and burst errors leave pattern and subframe 1 alone; sync errors touch nothing but the pattern. */
  lemma {:induction false} ErrorsStayInside(frame: seq<byte>, out: seq<byte>, mode: Mode, count: nat, places: seq<nat>)
    requires |frame| == 750 && FlippedAt(frame, out, places) && Chosen(mode, false, count, places)
    ensures mode == Random || mode == Burst ==> forall p :: 0 <= p < 120 ==> StreamBit(out, p) == StreamBit(frame, p)
    ensures mode == SyncLoss ==> forall p :: 68 <= p < 6000 ==> StreamBit(out, p) == StreamBit(frame, p)
    ensures mode == Burst && count > 0 ==> FlippedRun(frame, out, places[0], count)
  {
    hide StreamBit;
    forall p | p in places
      ensures From(mode, false) <= p < To(mode)
    {
      var i :| 0 <= i < |places| && places[i] == p;
    }
    if mode == Burst && count > 0 {
      var first := places[0];
      forall p | 0 <= p < 6000
        ensures p in places <==> first <= p < first + count
      {
        if first <= p < first + count {
          assert places[p - first] == p;
        }
      }
    }
  }
}
