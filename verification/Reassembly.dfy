/** AfsRawReassembler: fragments collected in any order, with repeats, back into records. */
module Reassembly {
  import opened Results
  import opened BitPacking
  import opened BigEndian
  import opened Crc32
  import opened FragmentCodec
  import opened SortedKeys

  /** RecordState: a null array element is None. */
  datatype RecordState = RecordState(count: U16, length: U32, crc: U32, fragments: seq<Option<seq<byte>>>)

  type Records = map<U32, RecordState>

  predicate IsComplete(s: RecordState) {
    forall i :: 0 <= i < |s.fragments| ==> s.fragments[i].Some?
  }

  /** How a call ends: it returns, or throws. */
  datatype Outcome = Added | Conflict | IndexOutOfRange

  function Fresh(f: RawFragment): RecordState {
    RecordState(f.count, f.recordLength, f.recordCrc, seq(f.count, _ => None))
  }

  /** RecordState.Add */
  function Put(s: RecordState, f: RawFragment): (RecordState, Outcome) {
    if f.count != s.count || f.recordLength != s.length || f.recordCrc != s.crc then (s, Conflict)
    else if f.index >= |s.fragments| then (s, IndexOutOfRange)
    else if s.fragments[f.index].Some? && s.fragments[f.index].value != f.payload then (s, Conflict)
    else (s.(fragments := s.fragments[f.index := Some(f.payload)]), Added)
  }

  /** AfsRawReassembler.Add: a new state stays in the dictionary even when adding to it throws. */
  function AddTo(records: Records, f: RawFragment): (Records, Outcome) {
    var (state, outcome) := Put(if f.recordSequence in records then records[f.recordSequence] else Fresh(f), f);
    (records[f.recordSequence := state], outcome)
  }

  // ----- reading the records back -----

  /** TryBuild on a complete state: joins and checks. */
  function Payloads(s: RecordState): (p: seq<seq<byte>>)
    requires IsComplete(s)
    ensures |p| == |s.fragments|
  {
    seq(|s.fragments|, i requires 0 <= i < |s.fragments| => s.fragments[i].value)
  }

  predicate Builds(s: RecordState) {
    IsComplete(s) ==> |Joined(Payloads(s))| == s.length && WordValue(Checksum(Joined(Payloads(s)))) == s.crc
  }

  /** The complete records among the given keys, or the exception of the first that does not check. */
  function Complete(records: Records, keys: seq<U32>): Result<seq<(U32, seq<byte>)>>
    requires forall k :: k in keys ==> k in records
  {
    if keys == [] then Ok([])
    else
      var n := |keys| - 1;
      var front := Complete(records, keys[..n]);
      var s := records[keys[n]];
      if front.InvalidData? || !Builds(s) then InvalidData
      else if !IsComplete(s) then front
      else Ok(front.value + [(keys[n], Joined(Payloads(s)))])
  }

  function Incomplete(records: Records, keys: seq<U32>): seq<U32>
    requires forall k :: k in keys ==> k in records
  {
    if keys == [] then []
    else
      var n := |keys| - 1;
      Incomplete(records, keys[..n]) + if IsComplete(records[keys[n]]) then [] else [keys[n]]
  }

  // ----- what adding does -----

  /** The fragment states the same metadata as the state, and its slot is empty or already holds its payload. */
  ghost predicate Fits(s: RecordState, f: RawFragment) {
    && f.count == s.count && f.recordLength == s.length && f.recordCrc == s.crc
    && f.index < |s.fragments| && s.fragments[f.index] in {None, Some(f.payload)}
  }

  /** Once a record is known its metadata never change and a filled slot keeps its payload; a refused fragment changes no
      slot; one that is added fills its own slot and no other. */
  lemma {:induction false} AddKeepsSlots(records: Records, f: RawFragment, key: U32, i: nat)
    requires key in records && i < |records[key].fragments|
    ensures var (records', outcome) := AddTo(records, f);
      && key in records' && var s, s' := records[key], records'[key];
      && s'.count == s.count && s'.length == s.length && s'.crc == s.crc && |s'.fragments| == |s.fragments|
      && (if key == f.recordSequence && i == f.index && outcome == Added
          then s.fragments[i] in {None, Some(f.payload)} && s'.fragments[i] == Some(f.payload)
          else s'.fragments[i] == s.fragments[i])
  {
  }

  /** A fragment of a known record is added exactly when it fits; one of a new record exactly when its index is below its
      count, and the record is then known with the metadata the fragment states. */
  lemma {:induction false} AddedExactly(records: Records, f: RawFragment)
    ensures var (records', outcome) := AddTo(records, f); var key := f.recordSequence;
      && records'.Keys == records.Keys + {key}
      && (outcome == Added <==> if key in records then Fits(records[key], f) else f.index < f.count)
      && (key !in records ==> records'[key].count == f.count && records'[key].length == f.recordLength && records'[key].crc == f.recordCrc)
  {
    var (records', outcome) := AddTo(records, f);
    assert records'.Keys == records.Keys + {f.recordSequence};
  }

  /** What CompleteRecords promises of one returned pair. */
  ghost predicate Checked(s: RecordState, data: seq<byte>) {
    IsComplete(s) && data == Joined(Payloads(s)) && |data| == s.length && WordValue(Checksum(data)) == s.crc
  }

  /** Reading back returns exactly when every complete record has its stated length and checksum; it then returns exactly
      the complete records, each with the join of its fragments, and the others are the incomplete ones. */
  lemma {:induction false} CompleteExactly(records: Records, keys: seq<U32>)
    requires forall k :: k in keys ==> k in records
    ensures Complete(records, keys).Ok? <==> forall k :: k in keys && IsComplete(records[k]) ==> Checked(records[k], Joined(Payloads(records[k])))
    ensures Complete(records, keys).Ok? ==> (var pairs := Complete(records, keys).value;
      && (forall p :: p in pairs ==> p.0 in keys && Checked(records[p.0], p.1))
      && (forall k :: k in keys && IsComplete(records[k]) ==> (k, Joined(Payloads(records[k]))) in pairs)
      && |pairs| + |Incomplete(records, keys)| == |keys|)
    ensures forall k :: k in Incomplete(records, keys) <==> k in keys && !IsComplete(records[k])
    decreases |keys|
  {
    hide Joined, Checksum, WordValue, Payloads, IsComplete;
    if keys != [] {
      var n := |keys| - 1;
      assert keys == keys[..n] + [keys[n]];
      CompleteExactly(records, keys[..n]);
    }
  }

  class Reassembler {
    var records: Records

    constructor ()
      ensures records == map[]
    {
      records := map[];
    }

    method Add(f: RawFragment) returns (outcome: Outcome)
      modifies this
      ensures (records, outcome) == AddTo(old(records), f)
    {
      var state;
      if f.recordSequence in records {
        state := records[f.recordSequence];
      } else {
        state := Fresh(f);
        records := records[f.recordSequence := state];
      }
      ghost var before := records;
      assert before == old(records)[f.recordSequence := state];
      if f.count != state.count || f.recordLength != state.length || f.recordCrc != state.crc { return Conflict; }
      if f.index >= |state.fragments| { return IndexOutOfRange; }
      var existing := state.fragments[f.index];
      if existing.Some? && existing.value != f.payload { return Conflict; }
      records := records[f.recordSequence := state.(fragments := state.fragments[f.index := Some(f.payload)])];
      outcome := Added;
      OverwrittenKey(old(records), f.recordSequence, state, records[f.recordSequence]);
    }

    method CompleteRecords() returns (r: Result<seq<(U32, seq<byte>)>>)
      ensures (AscendingKeys(records.Keys); r == Complete(records, Ascending(records.Keys)))
    {
      hide Joined, Checksum, WordValue, Ascending;
      AscendingKeys(records.Keys);
      var keys := Ascending(records.Keys);
      var result: seq<(U32, seq<byte>)> := [];
      for i := 0 to |keys|
        invariant Complete(records, keys[..i]) == Ok(result)
      {
        assert keys[..i + 1][..i] == keys[..i];
        var s := records[keys[i]];
        if IsComplete(s) {
          var joined := Joined(Payloads(s));
          if |joined| != s.length || WordValue(Checksum(joined)) != s.crc {
            FailureStays(records, keys, i + 1);
            return InvalidData;
          }
          result := result + [(keys[i], joined)];
        }
      }
      assert keys[..|keys|] == keys;
      r := Ok(result);
    }

    method IncompleteRecords() returns (r: seq<U32>)
      ensures (AscendingKeys(records.Keys); r == Incomplete(records, Ascending(records.Keys)))
    {
      hide Ascending;
      AscendingKeys(records.Keys);
      var keys := Ascending(records.Keys);
      r := [];
      for i := 0 to |keys|
        invariant r == Incomplete(records, keys[..i])
      {
        assert keys[..i + 1][..i] == keys[..i];
        if !IsComplete(records[keys[i]]) { r := r + [keys[i]]; }
      }
      assert keys[..|keys|] == keys;
    }
  }

  lemma {:induction false} OverwrittenKey(m: Records, k: U32, a: RecordState, b: RecordState)
    ensures m[k := a][k := b] == m[k := b]
  {
  }

  /** An exception raised on the way ends the enumeration. */
  lemma {:induction false} FailureStays(records: Records, keys: seq<U32>, n: nat)
    requires (forall k :: k in keys ==> k in records) && n <= |keys| && Complete(records, keys[..n]).InvalidData?
    ensures Complete(records, keys).InvalidData?
    decreases |keys| - n
  {
    if n < |keys| {
      assert keys[..n + 1][..n] == keys[..n];
      FailureStays(records, keys, n + 1);
    } else {
      assert keys[..n] == keys;
    }
  }

  /** A lone fragment that states another record length than it carries is taken, and CompleteRecords then throws. */
  lemma {:induction false} LyingLengthThrows(f: RawFragment)
    requires f.count == 1 && f.index == 0 && |f.payload| != f.recordLength
    ensures var (records, outcome) := AddTo(map[], f);
      outcome == Added && Complete(records, [f.recordSequence]).InvalidData?
  {
    hide Checksum, WordValue;
    var (records, _) := AddTo(map[], f);
    var s := records[f.recordSequence];
    assert s.fragments == [Some(f.payload)];
    assert IsComplete(s);
    assert Payloads(s) == [f.payload];
    assert Joined([f.payload]) == f.payload;
    assert [f.recordSequence][..0] == [];
  }
}
