/** What the reassembler holds after any fragments of a capture, in any order and with any repeats. */
module AnyOrder {
  import opened Results
  import opened BitPacking
  import opened BigEndian
  import opened Crc32
  import opened FragmentCodec
  import opened SortedKeys
  import opened Reassembly

  /** The records of a capture: each can be fragmented; a .NET list has fewer than 2^31 elements. */
  ghost predicate Capture(records: seq<seq<byte>>) {
    |records| < 0x8000_0000 && forall k :: 0 <= k < |records| ==> Fragmentable(records[k])
  }

  /** Record number and fragment index. */
  type Id = (nat, nat)

  ghost predicate IsId(records: seq<seq<byte>>, id: Id) {
    id.0 < |records| && id.1 < Count(|records[id.0]|)
  }

  ghost predicate AllIds(records: seq<seq<byte>>, ids: set<Id>) {
    forall id :: id in ids ==> IsId(records, id)
  }

  function Genuine(records: seq<seq<byte>>, id: Id): RawFragment
    requires Capture(records) && IsId(records, id)
  {
    FragmentOf(id.0, records[id.0], id.1)
  }

  // ----- the state after a set of fragments -----

  ghost predicate Touched(ids: set<Id>, k: nat) {
    exists i :: (k, i) in ids
  }

  ghost function Slots(record: seq<byte>, k: nat, ids: set<Id>): (s: seq<Option<seq<byte>>>)
    ensures |s| == Count(|record|)
  {
    seq(Count(|record|), i requires 0 <= i < Count(|record|) => if (k, i) in ids then Some(Slice(record, i)) else None)
  }

  ghost function StateOf(record: seq<byte>, k: nat, ids: set<Id>): RecordState
    requires Fragmentable(record)
  {
    RecordState(Count(|record|), |record|, WordValue(Checksum(record)), Slots(record, k, ids))
  }

  ghost function Gathered(records: seq<seq<byte>>, ids: set<Id>): Records
    requires Capture(records)
  {
    map k: U32 | 0 <= k < |records| && Touched(ids, k) :: StateOf(records[k], k, ids)
  }

  lemma {:induction false} SlotsStep(record: seq<byte>, k: nat, i: nat, ids: set<Id>)
    requires i < Count(|record|)
    ensures Slots(record, k, ids + {(k, i)}) == Slots(record, k, ids)[i := Some(Slice(record, i))]
    ensures (k, i) in ids ==> Slots(record, k, ids)[i] == Some(Slice(record, i))
    ensures (k, i) !in ids ==> Slots(record, k, ids)[i] == None
  {
    hide Slice;
  }

  lemma {:induction false} SlotsOther(record: seq<byte>, k: nat, id: Id, ids: set<Id>)
    requires k != id.0
    ensures Slots(record, k, ids + {id}) == Slots(record, k, ids)
  {
    hide Slice;
  }

  lemma {:induction false} SlotsFresh(record: seq<byte>, k: nat, ids: set<Id>)
    requires !Touched(ids, k)
    ensures Slots(record, k, ids) == seq(Count(|record|), _ => None)
  {
    hide Slice;
  }

  lemma {:induction false} TouchedStep(ids: set<Id>, id: Id, k: nat)
    ensures Touched(ids + {id}, k) <==> Touched(ids, k) || k == id.0
  {
    if k == id.0 {
      assert (k, id.1) in ids + {id};
    }
    if Touched(ids, k) {
      var i :| (k, i) in ids;
      assert (k, i) in ids + {id};
    }
  }

  /** A genuine fragment is always taken, and only its own slot changes. */
  lemma {:induction false} AddGenuine(records: seq<seq<byte>>, ids: set<Id>, id: Id)
    requires Capture(records) && AllIds(records, ids) && IsId(records, id)
    ensures AddTo(Gathered(records, ids), Genuine(records, id)) == (Gathered(records, ids + {id}), Added)
  {
    hide Slots, Slice, Touched, Checksum, WordValue, ByteOf, Flags, Count;
    var k, i := id.0, id.1;
    var record := records[k];
    var before, after := Gathered(records, ids), Gathered(records, ids + {id});
    SlotsStep(record, k, i, ids);
    TouchedStep(ids, id, k);
    if !Touched(ids, k) {
      SlotsFresh(record, k, ids);
    }
    assert Put(StateOf(record, k, ids), Genuine(records, id)) == (StateOf(record, k, ids + {id}), Added);
    forall x: U32
      ensures x in before[k := StateOf(record, k, ids + {id})] <==> x in after
      ensures x in after ==> before[k := StateOf(record, k, ids + {id})][x] == after[x]
    {
      TouchedStep(ids, id, x);
      if x != k && x < |records| {
        SlotsOther(records[x], x, id, ids);
      }
    }
    assert before[k := StateOf(record, k, ids + {id})] == after;
  }

  // ----- whole runs -----

  function AddAll(start: Records, fragments: seq<RawFragment>): (Records, seq<Outcome>) {
    if fragments == [] then (start, [])
    else
      var n := |fragments| - 1;
      var (records, outcomes) := AddAll(start, fragments[..n]);
      var (records', outcome) := AddTo(records, fragments[n]);
      (records', outcomes + [outcome])
  }

  ghost function Members(ids: seq<Id>): set<Id> {
    set id | id in ids
  }

  ghost function Arriving(records: seq<seq<byte>>, ids: seq<Id>): (f: seq<RawFragment>)
    requires Capture(records) && AllIds(records, Members(ids))
    ensures |f| == |ids|
  {
    seq(|ids|, j requires 0 <= j < |ids| => assert ids[j] in Members(ids); Genuine(records, ids[j]))
  }

  /** Nothing throws, and what is held depends only on which fragments arrived. */
  lemma {:induction false} OrderAndRepeatsIrrelevant(records: seq<seq<byte>>, ids: seq<Id>)
    requires Capture(records) && AllIds(records, Members(ids))
    ensures var (held, outcomes) := AddAll(map[], Arriving(records, ids));
      held == Gathered(records, Members(ids)) && |outcomes| == |ids| && forall o :: o in outcomes ==> o == Added
    decreases |ids|
  {
    hide AddTo, Genuine, Capture, IsId, StateOf;
    if ids == [] {
      assert Members(ids) == {};
      assert Gathered(records, {}) == map[];
    } else {
      var n := |ids| - 1;
      assert ids == ids[..n] + [ids[n]];
      assert Members(ids) == Members(ids[..n]) + {ids[n]};
      OrderAndRepeatsIrrelevant(records, ids[..n]);
      assert ids[n] in Members(ids);
      AddGenuine(records, Members(ids[..n]), ids[n]);
      assert Arriving(records, ids)[..n] == Arriving(records, ids[..n]);
    }
  }

  // ----- what is read back -----

  ghost predicate Full(records: seq<seq<byte>>, ids: set<Id>, k: nat)
    requires k < |records|
  {
    forall i :: 0 <= i < Count(|records[k]|) ==> (k, i) in ids
  }

  /** The records all of whose fragments are there. */
  ghost function FullKeys(records: seq<seq<byte>>, ids: set<Id>): set<U32>
    requires Capture(records)
  {
    set k: U32 | 0 <= k < |records| && Full(records, ids, k)
  }

  /** The records of which some fragments are there and some are not. */
  ghost function PartialKeys(records: seq<seq<byte>>, ids: set<Id>): set<U32>
    requires Capture(records)
  {
    set k: U32 | 0 <= k < |records| && Touched(ids, k) && !Full(records, ids, k)
  }

  ghost function Pairs(records: seq<seq<byte>>, keys: seq<U32>): (p: seq<(U32, seq<byte>)>)
    requires forall k :: k in keys ==> k < |records|
    ensures |p| == |keys|
  {
    seq(|keys|, j requires 0 <= j < |keys| => assert keys[j] in keys; (keys[j], records[keys[j]]))
  }

  lemma {:induction false} FullIsComplete(records: seq<seq<byte>>, ids: set<Id>, k: U32)
    requires Capture(records) && k < |records|
    ensures IsComplete(StateOf(records[k], k, ids)) <==> Full(records, ids, k)
  {
    hide Slice, Checksum, WordValue, Count;
    var s := StateOf(records[k], k, ids);
    if IsComplete(s) {
      forall i | 0 <= i < Count(|records[k]|)
        ensures (k, i) in ids
      {
        assert s.fragments[i].Some?;
      }
    }
  }

  /** A full record passes the length and checksum tests and is the original. */
  lemma {:induction false} FullBuilds(records: seq<seq<byte>>, ids: set<Id>, k: U32)
    requires Capture(records) && k < |records| && Full(records, ids, k)
    ensures var s := StateOf(records[k], k, ids); IsComplete(s) && Joined(Payloads(s)) == records[k] && Builds(s)
  {
    hide Slice, Checksum, WordValue, Count, Joined;
    FullIsComplete(records, ids, k);
    var s := StateOf(records[k], k, ids);
    assert Payloads(s) == Slices(records[k]);
    JoinedSlices(records[k]);
  }

  lemma {:induction false} ReadBack(records: seq<seq<byte>>, ids: set<Id>, keys: seq<U32>)
    requires Capture(records) && (forall k :: k in keys ==> k in Gathered(records, ids)) && Increasing(keys)
    ensures var full := Pick(keys, FullKeys(records, ids));
      (forall k :: k in full ==> k < |records|) && Complete(Gathered(records, ids), keys) == Ok(Pairs(records, full))
    ensures Incomplete(Gathered(records, ids), keys) == Pick(keys, PartialKeys(records, ids))
    decreases |keys|
  {
    hide StateOf, Full, Touched, IsComplete, Payloads, Joined, Builds;
    PickMembers(keys, FullKeys(records, ids));
    if keys != [] {
      var n := |keys| - 1;
      assert forall k :: k in keys[..n] ==> k in keys;
      ReadBack(records, ids, keys[..n]);
      var k := keys[n];
      assert k in keys;
      PickLast(keys, FullKeys(records, ids));
      PickLast(keys, PartialKeys(records, ids));
      FullIsComplete(records, ids, k);
      if Full(records, ids, k) {
        FullBuilds(records, ids, k);
        var front := Pick(keys[..n], FullKeys(records, ids));
        assert Pairs(records, front + [k]) == Pairs(records, front) + [(k, records[k])];
      } else {
        NotCompleteBuilds(StateOf(records[k], k, ids));
      }
    }
  }

  lemma {:induction false} NotCompleteBuilds(s: RecordState)
    requires !IsComplete(s)
    ensures Builds(s)
  {
  }

  /** CompleteRecords returns exactly the records all of whose fragments arrived, in ascending order and
      with their original contents; IncompleteRecords lists exactly the partly arrived ones. */
  lemma {:induction false} ReadsBackExactly(records: seq<seq<byte>>, ids: set<Id>)
    requires Capture(records) && AllIds(records, ids)
    ensures var held := Gathered(records, ids); var keys := Ascending(held.Keys);
      && (forall k :: k in keys ==> k in held)
      && (forall k :: k in Ascending(FullKeys(records, ids)) ==> k < |records|)
      && Complete(held, keys) == Ok(Pairs(records, Ascending(FullKeys(records, ids))))
      && Incomplete(held, keys) == Ascending(PartialKeys(records, ids))
  {
    hide StateOf, Full, Touched, Complete, Incomplete, Ascending, Pick;
    var held := Gathered(records, ids);
    var keys := Ascending(held.Keys);
    AscendingKeys(held.Keys);
    ReadBack(records, ids, keys);
    FullAreHeld(records, ids);
    PickSubset(held.Keys, FullKeys(records, ids));
    PickSubset(held.Keys, PartialKeys(records, ids));
  }

  lemma {:induction false} FullAreHeld(records: seq<seq<byte>>, ids: set<Id>)
    requires Capture(records)
    ensures FullKeys(records, ids) <= Gathered(records, ids).Keys && PartialKeys(records, ids) <= Gathered(records, ids).Keys
  {
    hide StateOf;
    forall k | k in FullKeys(records, ids)
      ensures k in Gathered(records, ids)
    {
      assert Fragmentable(records[k]);
      assert (k, 0) in ids;
    }
  }
}
