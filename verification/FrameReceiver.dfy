/** AfsFrameReceiver.DecodeAsync: decoded frames into the reassembler, with the block counters. */
module FrameReceiver {
  import opened BitStrings
  import opened BitPacking
  import opened BigEndian
  import opened FragmentCodec
  import opened SubframeBits
  import opened Reassembly
  import FrameCodec

  datatype Counters = Counters(decoded: nat, sb2Valid: nat, sb3Valid: nat, sb4Valid: nat, corrected: nat, corrupt: nat)

  datatype ReceiverState = ReceiverState(counters: Counters, records: Records)

  const INITIAL_STATE: ReceiverState := ReceiverState(Counters(0, 0, 0, 0, 0, 0), map[])

  /** How taking a block ends: added, refused with a caught exception, or with one that escapes. */
  datatype Taken = Took | Refused | Crashed

  /** FromSbBits, DecodeBlock and Add, in that order. */
  function TakeBlock(records: Records, bits: Bits, expectedType: int): (Records, Taken) {
    var block := FromSb(Raw(bits), expectedType);
    if block.InvalidData? then (records, Refused)
    else
      var f := DecodeBlock(block.value);
      if f.InvalidData? then (records, Refused)
      else
        var (records', outcome) := AddTo(records, f.value);
        (records', match outcome case Added => Took case Conflict => Refused case IndexOutOfRange => Crashed)
  }

  /** Both blocks, the second only after the first was added. */
  function TakeBlocks(records: Records, sb3: Bits, sb4: Bits, expectedType: int): (Records, Taken) {
    var (records', first) := TakeBlock(records, sb3, expectedType);
    if first != Took then (records', first) else TakeBlock(records', sb4, expectedType)
  }

  function Corrections(n: int): nat {
    if n > 0 then n else 0
  }

  function Counted(c: Counters, s: FrameCodec.Status): Counters {
    c.(decoded := c.decoded + 1,
       sb2Valid := c.sb2Valid + if s.sb2Ok then 1 else 0,
       sb3Valid := c.sb3Valid + if s.sb3Ok then 1 else 0,
       sb4Valid := c.sb4Valid + if s.sb4Ok then 1 else 0,
       corrected := c.corrected + Corrections(s.sb2Corrections) + Corrections(s.sb3Corrections) + Corrections(s.sb4Corrections))
  }

  function Spoiled(c: Counters): Counters {
    c.(corrupt := c.corrupt + 1)
  }

  /** One DecodeAsync call, given what the native decoder said; false when an exception escapes. */
  function Receive(s: ReceiverState, d: FrameCodec.DecodeResult, expectedType: int): (ReceiverState, bool) {
    match d
    case BadArgument => (s, false)
    case SyncMismatch => (s.(counters := Spoiled(s.counters)), true)
    case Sf1Mismatch => (s.(counters := Spoiled(s.counters)), true)
    case Decoded(_, status, _, sb3, sb4) =>
      var counters := Counted(s.counters, status);
      if !status.sb3Ok || !status.sb4Ok then (ReceiverState(Spoiled(counters), s.records), true)
      else
        var (records, taken) := TakeBlocks(s.records, sb3, sb4, expectedType);
        (ReceiverState(if taken == Refused then Spoiled(counters) else counters, records), taken != Crashed)
  }

  // ----- the dictionary keeps its shape -----

  ghost predicate WellShaped(records: Records) {
    forall k :: k in records ==> |records[k].fragments| == records[k].count
  }

  /** On such a dictionary the only exception that can escape is the codec's argument check. */
  lemma {:induction false} TakeKeepsShape(records: Records, bits: Bits, expectedType: int)
    requires WellShaped(records)
    ensures var (records', taken) := TakeBlock(records, bits, expectedType); WellShaped(records') && taken != Crashed
  {
    hide FromSb, DecodeBlock, Raw;
    var block := FromSb(Raw(bits), expectedType);
    if block.Ok? && DecodeBlock(block.value).Ok? {
      IndexInRange(block.value);
      AddKeepsShape(records, DecodeBlock(block.value).value);
    }
  }

  lemma {:induction false} IndexInRange(block: seq<byte>)
    requires DecodeBlock(block).Ok?
    ensures DecodeBlock(block).value.index < DecodeBlock(block).value.count
  {
    hide Read16, Read32, ByteValue;
  }

  lemma {:induction false} AddKeepsShape(records: Records, f: RawFragment)
    requires WellShaped(records) && f.index < f.count
    ensures WellShaped(AddTo(records, f).0) && AddTo(records, f).1 != IndexOutOfRange
  {
  }

  lemma {:induction false} ReceiveKeepsShape(s: ReceiverState, d: FrameCodec.DecodeResult, expectedType: int)
    requires WellShaped(s.records)
    ensures WellShaped(Receive(s, d, expectedType).0.records)
    ensures Receive(s, d, expectedType).1 <==> !d.BadArgument?
  {
    hide TakeBlock, Counted, Spoiled;
    if d.Decoded? {
      TakeKeepsShape(s.records, d.sb3, expectedType);
      TakeKeepsShape(TakeBlock(s.records, d.sb3, expectedType).0, d.sb4, expectedType);
    }
  }

  /** A second block is looked at only when the first was added, and refusing it takes nothing of the first back. */
  lemma {:induction false} BlocksInTurn(records: Records, sb3: Bits, sb4: Bits, other: Bits, expectedType: int)
    ensures var (first, taken) := TakeBlock(records, sb3, expectedType);
      if taken == Took then TakeBlocks(records, sb3, sb4, expectedType) == TakeBlock(first, sb4, expectedType)
      else TakeBlocks(records, sb3, sb4, expectedType) == TakeBlocks(records, sb3, other, expectedType) == (first, taken)
    ensures FromSb(Raw(sb4), expectedType).InvalidData? && TakeBlock(records, sb3, expectedType).1 == Took ==>
      TakeBlocks(records, sb3, sb4, expectedType) == (TakeBlock(records, sb3, expectedType).0, Refused)
  {
    hide FromSb, DecodeBlock, AddTo, Raw;
  }

  // ----- the object -----

  class Receiver {
    var counters: Counters
    const reassembler: Reassembler
    const expectedType: int

    ghost function State(): ReceiverState
      reads this, reassembler
    {
      ReceiverState(counters, reassembler.records)
    }

    constructor (expectedType: int)
      ensures State() == INITIAL_STATE && this.expectedType == expectedType && fresh(reassembler)
    {
      counters := Counters(0, 0, 0, 0, 0, 0);
      reassembler := new Reassembler();
      this.expectedType := expectedType;
    }

    method Take(bits: Bits) returns (taken: Taken)
      modifies reassembler
      ensures (reassembler.records, taken) == TakeBlock(old(reassembler.records), bits, expectedType)
    {
      hide FromSb, DecodeBlock, AddTo;
      var block := FromSbBits(Raw(bits), expectedType);
      if block.InvalidData? { return Refused; }
      var f := DecodeBlock(block.value);
      if f.InvalidData? { return Refused; }
      var outcome := reassembler.Add(f.value);
      taken := match outcome case Added => Took case Conflict => Refused case IndexOutOfRange => Crashed;
    }

    /** AfsFrameReceiver.DecodeAsync */
    method DecodeFrame(d: FrameCodec.DecodeResult) returns (returned: bool)
      modifies this, reassembler
      ensures (State(), returned) == Receive(old(State()), d, expectedType)
    {
      hide TakeBlock;
      match d
      case BadArgument => returned := false;
      case SyncMismatch =>
        counters := counters.(corrupt := counters.corrupt + 1);
        returned := true;
      case Sf1Mismatch =>
        counters := counters.(corrupt := counters.corrupt + 1);
        returned := true;
      case Decoded(_, status, _, sb3, sb4) =>
        counters := counters.(decoded := counters.decoded + 1);
        if status.sb2Ok { counters := counters.(sb2Valid := counters.sb2Valid + 1); }
        if status.sb3Ok { counters := counters.(sb3Valid := counters.sb3Valid + 1); }
        if status.sb4Ok { counters := counters.(sb4Valid := counters.sb4Valid + 1); }
        counters := counters.(corrected := counters.corrected + Corrections(status.sb2Corrections)
                                           + Corrections(status.sb3Corrections) + Corrections(status.sb4Corrections));
        if !status.sb3Ok || !status.sb4Ok {
          counters := counters.(corrupt := counters.corrupt + 1);
          return true;
        }
        var taken := Take(sb3);
        if taken == Took { taken := Take(sb4); }
        if taken == Refused { counters := counters.(corrupt := counters.corrupt + 1); }
        returned := taken != Crashed;
    }
  }
}
