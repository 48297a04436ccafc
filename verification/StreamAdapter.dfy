/** CanonicalGnssStreamProtocolAdapter: the incremental parser and its pending bytes. */
module StreamAdapter {
  import opened Results
  import opened BitPacking
  import opened BigEndian
  import opened RecordPayloads
  import RecordCodec
  import CaptureFile

  const MAX_RECORD_LENGTH: nat := 1_048_642

  /** What scanning a buffer gives: the messages and the bytes left over, or an exception. */
  datatype Scan = Scanned(messages: seq<Message>, rest: seq<byte>) | Thrown

  function Before(front: seq<Message>, s: Scan): Scan {
    if s.Thrown? then Thrown else Scanned(front + s.messages, s.rest)
  }

  /** The length field is refused. */
  predicate BadLength(length: U32) {
    length == 0 || length > MAX_RECORD_LENGTH
  }

  /** One-shot parsing of a whole buffer. */
  function Parse(u: Utf8, b: seq<byte>): Scan
    decreases |b|
  {
    if |b| < 4 then Scanned([], b)
    else
      var length := Read32(b[..4]);
      if BadLength(length) then Thrown
      else if |b| - 4 < length then Scanned([], b)
      else
        var record := RecordCodec.Decode(u, b[4..4 + length]);
        if record.InvalidData? then Thrown else Before([record.value.message], Parse(u, b[4 + length..]))
  }

  /** No complete record, and no refused length, at the front. */
  predicate Partial(b: seq<byte>) {
    |b| < 4 || (!BadLength(Read32(b[..4])) && |b| - 4 < Read32(b[..4]))
  }

  // ----- one-shot parsing can be cut anywhere -----

  lemma {:induction false} BeforeBefore(a: seq<Message>, b: seq<Message>, s: Scan)
    ensures Before(a, Before(b, s)) == Before(a + b, s)
  {
    if s.Scanned? {
      assert a + (b + s.messages) == (a + b) + s.messages;
    }
  }

  lemma {:induction false} BeforeNothing(s: Scan)
    ensures Before([], s) == s
  {
    if s.Scanned? {
      assert [] + s.messages == s.messages;
    }
  }

  /** Parsing stops at a partial record. */
  lemma {:induction false} LeftoverIsPartial(u: Utf8, b: seq<byte>)
    requires Parse(u, b).Scanned?
    ensures Partial(Parse(u, b).rest)
    decreases |b|
  {
    hide Read32, RecordCodec.Decode;
    if |b| >= 4 && |b| - 4 >= Read32(b[..4]) {
      LeftoverIsPartial(u, b[4 + Read32(b[..4])..]);
    }
  }

  /** Parsing a + b is parsing a, then what it left over followed by b; an exception in a stays. */
  lemma {:induction false} ParseConcat(u: Utf8, a: seq<byte>, b: seq<byte>)
    ensures var p := Parse(u, a); Parse(u, a + b) == if p.Thrown? then Thrown else Before(p.messages, Parse(u, p.rest + b))
    decreases |a|
  {
    hide Read32, RecordCodec.Decode, Before;
    BeforeNothing(Parse(u, a + b));
    if |a| >= 4 {
      assert (a + b)[..4] == a[..4];
      var n := Read32(a[..4]);
      if !BadLength(n) && |a| - 4 >= n {
        assert (a + b)[4..4 + n] == a[4..4 + n] && (a + b)[4 + n..] == a[4 + n..] + b;
        var record := RecordCodec.Decode(u, a[4..4 + n]);
        if record.Ok? {
          ParseConcat(u, a[4 + n..], b);
          BeforeOfScan([record.value.message], Parse(u, a[4 + n..]));
          var inner := Parse(u, a[4 + n..]);
          if inner.Scanned? {
            BeforeBefore([record.value.message], inner.messages, Parse(u, inner.rest + b));
          }
        }
      }
    }
  }

  lemma {:induction false} BeforeOfScan(front: seq<Message>, s: Scan)
    ensures Before(front, s).Thrown? <==> s.Thrown?
    ensures s.Scanned? ==> Before(front, s) == Scanned(front + s.messages, s.rest)
    ensures Before(front, Thrown) == Thrown
  {
  }

  // ----- whole sequences of calls -----

  /** pending after a call, and what the call gave; a throwing call keeps all the bytes. */
  function PushOnce(u: Utf8, pending: seq<byte>, bytes: seq<byte>): (seq<byte>, Scan) {
    var s := Parse(u, pending + bytes);
    (if s.Thrown? then pending + bytes else s.rest, s)
  }

  /** The calls for a list of chunks; all is Thrown when some call throws. */
  function PushAll(u: Utf8, chunks: seq<seq<byte>>): (seq<byte>, Scan) {
    if chunks == [] then ([], Scanned([], []))
    else
      var n := |chunks| - 1;
      var (pending, sofar) := PushAll(u, chunks[..n]);
      var (pending', last) := PushOnce(u, pending, chunks[n]);
      (pending', if sofar.Thrown? then Thrown else Before(sofar.messages, last))
  }

  function Whole(chunks: seq<seq<byte>>): seq<byte> {
    if chunks == [] then [] else Whole(chunks[..|chunks| - 1]) + chunks[|chunks| - 1]
  }

  /** Every split of a stream into calls gives what one call on the whole stream gives: the same messages and the same
      pending bytes, or an exception; and between calls without one, pending never holds a complete record. */
  lemma {:induction false} ChunkIndependence(u: Utf8, chunks: seq<seq<byte>>)
    ensures var (pending, all) := PushAll(u, chunks);
      && all == Parse(u, Whole(chunks))
      && (all.Scanned? ==> pending == all.rest && Partial(pending))
    decreases |chunks|
  {
    hide Parse, Before, Partial;
    if chunks == [] {
      EmptyStream(u);
    } else {
      var n := |chunks| - 1;
      ChunkIndependence(u, chunks[..n]);
      var (pending, sofar) := PushAll(u, chunks[..n]);
      ParseConcat(u, Whole(chunks[..n]), chunks[n]);
      if sofar.Scanned? {
        BeforeOfScan(sofar.messages, Parse(u, pending + chunks[n]));
        if Parse(u, pending + chunks[n]).Scanned? {
          LeftoverIsPartial(u, pending + chunks[n]);
        }
      }
    }
  }

  lemma {:induction false} EmptyStream(u: Utf8)
    ensures Parse(u, []) == Scanned([], []) && Partial([])
  {
  }

  /** After an exception every further call throws. */
  lemma {:induction false} ThrowsForEver(u: Utf8, pending: seq<byte>, bytes: seq<byte>)
    requires Parse(u, pending).Thrown?
    ensures PushOnce(u, pending, bytes).1.Thrown? && Parse(u, PushOnce(u, pending, bytes).0).Thrown?
  {
    hide Parse;
    ParseConcat(u, pending, bytes);
  }

  // ----- what a scan says about the bytes -----

  /** The record can be framed and decoded. */
  ghost predicate Good(u: Utf8, record: seq<byte>) {
    1 <= |record| <= 1_048_642 && RecordCodec.Decode(u, record).Ok?
  }

  ghost function MessageIn(u: Utf8, record: seq<byte>): Message
    requires Good(u, record)
  {
    RecordCodec.Decode(u, record).value.message
  }

  ghost function Decoded(u: Utf8, records: seq<seq<byte>>): (ms: seq<Message>)
    requires forall k :: 0 <= k < |records| ==> Good(u, records[k])
    ensures |ms| == |records| && forall k :: 0 <= k < |records| ==> ms[k] == MessageIn(u, records[k])
  {
    seq(|records|, k requires 0 <= k < |records| => MessageIn(u, records[k]))
  }

  /** Nothing more can be parsed from the tail until further bytes come: its length field is missing, or lies from 1 to
      1,048,642 with fewer bytes behind it. */
  ghost predicate Waits(tail: seq<byte>) {
    |tail| < 4 || (1 <= Read32(tail[..4]) <= 1_048_642 && |tail| < 4 + Read32(tail[..4]))
  }

  /** The tail begins with a length outside those bounds, or with a whole record that cannot be decoded. */
  ghost predicate Refused(u: Utf8, tail: seq<byte>) {
    && |tail| >= 4
    && var n := Read32(tail[..4]);
      !(1 <= n <= 1_048_642) || (|tail| >= 4 + n && RecordCodec.Decode(u, tail[4..4 + n]).InvalidData?)
  }

  lemma {:induction false} FrontParses(u: Utf8, record: seq<byte>, more: seq<byte>)
    requires Good(u, record)
    ensures Parse(u, Be(|record|, 4) + record + more) == Before([MessageIn(u, record)], Parse(u, more))
  {
    hide Read32, Be, RecordCodec.Decode;
    var n := |record|;
    var b := Be(n, 4) + record + more;
    Field32(n);
    assert b[..4] == Be(n, 4) && b[4..4 + n] == record && b[4 + n..] == more;
  }

  /** Framed records followed by a tail: their messages and the tail when it waits, an exception when it is refused. */
  lemma {:induction false} ParseOf(u: Utf8, records: seq<seq<byte>>, tail: seq<byte>)
    requires forall k :: 0 <= k < |records| ==> Good(u, records[k])
    ensures Waits(tail) ==> Parse(u, CaptureFile.Framed(records) + tail) == Scanned(Decoded(u, records), tail)
    ensures Refused(u, tail) ==> Parse(u, CaptureFile.Framed(records) + tail) == Thrown
    decreases |records|
  {
    hide Read32, Be, RecordCodec.Decode, CaptureFile.Framed, Good;
    if records == [] {
      CaptureFile.FramedNone();
      assert [] + tail == tail;
    } else {
      CaptureFile.FramedFirst(records);
      var more := CaptureFile.Framed(records[1..]) + tail;
      assert CaptureFile.Framed(records) + tail == Be(|records[0]|, 4) + records[0] + more;
      FrontParses(u, records[0], more);
      ParseOf(u, records[1..], tail);
      assert Decoded(u, records) == [Decoded(u, records)[0]] + Decoded(u, records[1..]);
    }
  }

  /** Every stream is such records followed by a tail that waits or is refused, so the two cases above are all there are. */
  lemma {:induction false} StreamSplits(u: Utf8, b: seq<byte>) returns (records: seq<seq<byte>>, tail: seq<byte>)
    ensures (forall k :: 0 <= k < |records| ==> Good(u, records[k])) && b == CaptureFile.Framed(records) + tail
    ensures Waits(tail) <==> !Refused(u, tail)
    decreases |b|
  {
    hide Read32, Be, RecordCodec.Decode, CaptureFile.Framed;
    records, tail := [], b;
    CaptureFile.FramedNone();
    assert [] + b == b;
    if |b| >= 4 {
      var n := Read32(b[..4]);
      if 1 <= n <= 1_048_642 && |b| >= 4 + n && RecordCodec.Decode(u, b[4..4 + n]).Ok? {
        var more, rest := StreamSplits(u, b[4 + n..]);
        records, tail := [b[4..4 + n]] + more, rest;
        CaptureFile.FramedFirst(records);
        Field32Back(b[..4]);
        assert records[1..] == more;
        CaptureFile.ThreePieces(b, n);
        FrontJoins(b[..4], b[4..4 + n], CaptureFile.Framed(more), rest);
      }
    }
  }

  lemma {:induction false} FrontJoins(a: seq<byte>, b: seq<byte>, c: seq<byte>, d: seq<byte>)
    ensures a + b + (c + d) == (a + b + c) + d
  {
  }

  // ----- streams that were written -----

  ghost predicate Written(u: Utf8, es: seq<RecordCodec.Envelope>, records: seq<seq<byte>>) {
    && |es| == |records|
    && forall k :: 0 <= k < |es| ==> TextSurvives(u, es[k].message) && RecordCodec.Record(u, es[k]) == Ok(records[k])
  }

  function Messages(es: seq<RecordCodec.Envelope>): (ms: seq<Message>)
    ensures |ms| == |es|
  {
    seq(|es|, k requires 0 <= k < |es| => es[k].message)
  }

  /** A stream of encoded records, framed as in a capture file, is parsed into their messages with nothing left over. */
  lemma {:induction false} WrittenStreamParses(u: Utf8, es: seq<RecordCodec.Envelope>, records: seq<seq<byte>>)
    requires Written(u, es, records)
    ensures Parse(u, CaptureFile.Framed(records)) == Scanned(Messages(es), [])
    decreases |es|
  {
    hide Read32, Be, RecordCodec.Decode, CaptureFile.Framed, RecordCodec.Record, TextSurvives;
    if es == [] {
      CaptureFile.FramedNone();
      assert records == [];
    } else {
      var file, n := CaptureFile.Framed(records), |records[0]|;
      CaptureFile.FramedFirst(records);
      RecordCodec.EncodedFits(u, es[0]);
      RecordCodec.DecodeInvertsEncode(u, es[0]);
      Field32(n);
      assert file[..4] == Be(n, 4) && file[4..4 + n] == records[0] && file[4 + n..] == CaptureFile.Framed(records[1..]);
      WrittenStreamParses(u, es[1..], records[1..]);
      assert Messages(es) == [es[0].message] + Messages(es[1..]);
    }
  }

  // ----- the object -----

  class Adapter {
    var pending: seq<byte>

    constructor ()
      ensures pending == []
    {
      pending := [];
    }

    /** Push */
    method Push(u: Utf8, bytes: seq<byte>) returns (r: Result<seq<Message>>)
      modifies this
      ensures var (pending', s) := PushOnce(u, old(pending), bytes);
        pending == pending' && r == if s.Thrown? then InvalidData else Ok(s.messages)
    {
      hide Parse, Before, RecordCodec.Decode, Read32;
      if bytes != [] { pending := pending + bytes; }
      assert pending == old(pending) + bytes;
      var messages: seq<Message> := [];
      var offset := 0;
      assert pending[0..] == pending;
      BeforeNothing(Parse(u, pending));
      while |pending| - offset >= 4
        invariant offset <= |pending| && pending == old(pending) + bytes
        invariant Parse(u, pending) == Before(messages, Parse(u, pending[offset..]))
      {
        ParseAt(u, pending, offset, messages);
        var length := Read32(pending[offset..offset + 4]);
        if length <= 0 || length > MAX_RECORD_LENGTH { return InvalidData; }
        if |pending| - offset - 4 < length { break; }
        var record := RecordCodec.Decode(u, pending[offset + 4..offset + 4 + length]);
        if record.InvalidData? { return InvalidData; }
        messages := messages + [record.value.message];
        offset := offset + 4 + length;
      }
      StopAt(u, pending, offset, messages);
      if offset > 0 { pending := pending[offset..]; }
      r := Ok(messages);
    }

    method Reset()
      modifies this
      ensures pending == []
    {
      pending := [];
    }
  }

  /** One turn of the loop at an offset. */
  lemma {:induction false} ParseAt(u: Utf8, b: seq<byte>, at: nat, messages: seq<Message>)
    requires at + 4 <= |b|
    ensures var n := Read32(b[at..at + 4]);
      && (BadLength(n) ==> Before(messages, Parse(u, b[at..])) == Thrown)
      && (!BadLength(n) && |b| - at - 4 >= n ==>
          var record := RecordCodec.Decode(u, b[at + 4..at + 4 + n]);
          Before(messages, Parse(u, b[at..])) ==
          if record.InvalidData? then Thrown else Before(messages + [record.value.message], Parse(u, b[at + 4 + n..])))
  {
    hide Read32, RecordCodec.Decode, Before;
    var c := b[at..];
    var n := Read32(b[at..at + 4]);
    assert c[..4] == b[at..at + 4];
    BeforeOfScan(messages, Thrown);
    if !BadLength(n) && |c| - 4 >= n {
      assert c[4..4 + n] == b[at + 4..at + 4 + n] && c[4 + n..] == b[at + 4 + n..];
      var record := RecordCodec.Decode(u, c[4..4 + n]);
      if record.Ok? {
        BeforeBefore(messages, [record.value.message], Parse(u, c[4 + n..]));
      }
    }
  }

  lemma {:induction false} StopAt(u: Utf8, b: seq<byte>, at: nat, messages: seq<Message>)
    requires at <= |b| && (|b| - at < 4 || (!BadLength(Read32(b[at..at + 4])) && |b| - at - 4 < Read32(b[at..at + 4])))
    ensures Before(messages, Parse(u, b[at..])) == Scanned(messages, b[at..])
    ensures at == 0 ==> b[at..] == b
  {
    hide Read32, RecordCodec.Decode;
    var c := b[at..];
    if |c| >= 4 {
      assert c[..4] == b[at..at + 4];
    }
    assert messages + [] == messages;
  }
}
