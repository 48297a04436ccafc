/** The capture.graw framing: four length bytes, then the record, repeated. */
module CaptureFile {
  import opened Results
  import opened BitPacking
  import opened BigEndian
  import opened FragmentCodec
  import AnyOrder

  const MAX_RECORD: nat := 1_048_704

  predicate Storable(record: seq<byte>) {
    0 < |record| <= MAX_RECORD
  }

  /** What WriteReconstructedAsync and the capture service write. */
  function Framed(records: seq<seq<byte>>): seq<byte> {
    if records == [] then [] else Framed(records[..|records| - 1]) + Be(|records[|records| - 1]|, 4) + records[|records| - 1]
  }

  /** The records from the front of a file; InvalidData stands for any of the exceptions. */
  function Parse(file: seq<byte>): Result<seq<seq<byte>>>
    decreases |file|
  {
    if file == [] then Ok([])
    else if |file| < 4 then InvalidData
    else
      var length := Read32(file[..4]);
      if length == 0 || length > MAX_RECORD || |file| - 4 < length then InvalidData
      else
        var rest := Parse(file[4 + length..]);
        if rest.InvalidData? then InvalidData else Ok([file[4..4 + length]] + rest.value)
  }

  /** ReadRecordsAsync as a value: an empty file is refused. */
  function Records(file: seq<byte>): Result<seq<seq<byte>>> {
    if file == [] then InvalidData else Parse(file)
  }

  // ----- both directions -----

  lemma {:induction false} FramedFirst(records: seq<seq<byte>>)
    requires records != []
    ensures Framed(records) == Be(|records[0]|, 4) + records[0] + Framed(records[1..])
    decreases |records|
  {
    hide Be;
    var n := |records| - 1;
    if n > 0 {
      FramedFirst(records[..n]);
      assert records[..n][1..] == records[1..][..n - 1];
      var a, b, c := Be(|records[0]|, 4) + records[0], Framed(records[1..][..n - 1]), Be(|records[n]|, 4) + records[n];
      assert (a + b) + c == a + (b + c);
      assert Framed(records[1..]) == b + c;
      assert Framed(records) == (a + b) + c;
    } else {
      assert records[..0] == [] && records[1..] == [];
    }
  }

  /** Reading back what was written. */
  lemma {:induction false} ReadInvertsWrite(records: seq<seq<byte>>)
    requires forall k :: 0 <= k < |records| ==> Storable(records[k])
    ensures Parse(Framed(records)) == Ok(records)
    decreases |records|
  {
    hide Be, Read32, Framed;
    if records == [] {
      FramedNone();
    } else {
      var file, n := Framed(records), |records[0]|;
      FramedFirst(records);
      Field32(n);
      assert file[..4] == Be(n, 4) && file[4..4 + n] == records[0] && file[4 + n..] == Framed(records[1..]);
      ReadInvertsWrite(records[1..]);
      assert records == [records[0]] + records[1..];
    }
  }

  lemma {:induction false} FramedNone()
    ensures Framed([]) == []
  {
  }

  /** A file that is accepted is the framing of the records read from it. */
  lemma {:induction false} WriteInvertsRead(file: seq<byte>)
    requires Parse(file).Ok?
    ensures var records := Parse(file).value; (forall k :: 0 <= k < |records| ==> Storable(records[k])) && Framed(records) == file
    decreases |file|
  {
    hide Be, Read32, Framed;
    if file == [] {
      FramedNone();
    } else {
      var n := Read32(file[..4]);
      WriteInvertsRead(file[4 + n..]);
      Field32Back(file[..4]);
      FramedFirst([file[4..4 + n]] + Parse(file[4 + n..]).value);
      ThreePieces(file, n);
    }
  }

  lemma {:induction false} ThreePieces(file: seq<byte>, n: nat)
    requires 4 + n <= |file|
    ensures file == file[..4] + file[4..4 + n] + file[4 + n..]
  {
  }

  /** The records of an accepted file are never empty in number and can all be fragmented. */
  lemma {:induction false} AcceptedIsCapture(file: seq<byte>)
    requires Records(file).Ok? && |Records(file).value| < 0x8000_0000
    ensures AnyOrder.Capture(Records(file).value) && Records(file).value != [] && Framed(Records(file).value) == file
  {
    WriteInvertsRead(file);
    var records := Records(file).value;
    forall k | 0 <= k < |records|
      ensures Fragmentable(records[k])
    {
      assert Storable(records[k]);
    }
  }

  // ----- the loops -----

  function Prepended(front: seq<seq<byte>>, rest: Result<seq<seq<byte>>>): Result<seq<seq<byte>>> {
    if rest.InvalidData? then InvalidData else Ok(front + rest.value)
  }

  lemma {:induction false} PrependedNone(rest: Result<seq<seq<byte>>>)
    ensures Prepended([], rest) == rest
  {
    if rest.Ok? {
      assert [] + rest.value == rest.value;
    }
  }

  lemma {:induction false} PrependedOne(front: seq<seq<byte>>, record: seq<byte>, rest: Result<seq<seq<byte>>>)
    ensures Prepended(front, Prepended([record], rest)) == Prepended(front + [record], rest)
  {
    if rest.Ok? {
      assert front + ([record] + rest.value) == (front + [record]) + rest.value;
    }
  }

  /** One turn of the reader at a position. */
  lemma {:induction false} ParseAt(file: seq<byte>, at: nat)
    requires at < |file|
    ensures |file| - at < 4 ==> Parse(file[at..]).InvalidData?
    ensures |file| - at >= 4 ==>
      var n := Read32(file[at..at + 4]);
      Parse(file[at..]) ==
      if n == 0 || n > MAX_RECORD || |file| - at - 4 < n then InvalidData
      else Prepended([file[at + 4..at + 4 + n]], Parse(file[at + 4 + n..]))
  {
    hide Read32;
    var rest := file[at..];
    if |rest| >= 4 {
      assert rest[..4] == file[at..at + 4];
      var n := Read32(rest[..4]);
      if 4 + n <= |rest| {
        assert rest[4..4 + n] == file[at + 4..at + 4 + n] && rest[4 + n..] == file[at + 4 + n..];
      }
    }
  }

  lemma {:induction false} ParseEnds(file: seq<byte>, records: seq<seq<byte>>)
    ensures Parse([]) == Ok([]) && Prepended(records, Parse([])) == Ok(records) && Prepended(records, InvalidData) == InvalidData
    ensures file[0..] == file && file[|file|..] == []
  {
    assert records + [] == records;
  }

  /** ReadRecordsAsync */
  method ReadRecords(file: seq<byte>) returns (r: Result<seq<seq<byte>>>)
    ensures r == Records(file)
  {
    hide Read32, Parse, Prepended;
    var records: seq<seq<byte>> := [];
    var position := 0;
    ParseEnds(file, records);
    PrependedNone(Parse(file));
    while position < |file|
      invariant position <= |file| && Parse(file) == Prepended(records, Parse(file[position..]))
      invariant position > 0 <==> records != []
    {
      ParseAt(file, position);
      ParseEnds(file, records);
      if |file| - position < 4 { return InvalidData; }
      var length := Read32(file[position..position + 4]);
      if length <= 0 || length > MAX_RECORD { return InvalidData; }
      if |file| - position - 4 < length { return InvalidData; }
      var record := file[position + 4..position + 4 + length];
      PrependedOne(records, record, Parse(file[position + 4 + length..]));
      records := records + [record];
      position := position + 4 + length;
    }
    ParseEnds(file, records);
    if records == [] { return InvalidData; }
    r := Ok(records);
  }

  /** WriteReconstructedAsync */
  method WriteReconstructed(pairs: seq<(U32, seq<byte>)>) returns (file: seq<byte>)
    ensures var records := seq(|pairs|, k requires 0 <= k < |pairs| => pairs[k].1); file == Framed(records)
  {
    hide Be;
    ghost var records := seq(|pairs|, k requires 0 <= k < |pairs| => pairs[k].1);
    file := [];
    for i := 0 to |pairs|
      invariant file == Framed(records[..i])
    {
      assert records[..i + 1][..i] == records[..i];
      file := file + Be(|pairs[i].1|, 4) + pairs[i].1;
    }
    assert records[..|pairs|] == records;
  }
}
