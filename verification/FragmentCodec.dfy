/** AfsRawFragmentCodec.cs: records cut into 105-byte blocks, and blocks as SB3/SB4 bits. */
module FragmentCodec {
  import opened Results
  import opened BitPacking
  import opened BigEndian
  import opened Crc32

  const BLOCK_BYTES: nat := 105
  const PAYLOAD_BYTES: nat := 86
  const CUSTOM_TYPE: nat := 63

  // ----- fragments -----

  datatype RawFragment = RawFragment(
    version: byte, flags: byte, recordSequence: U32, index: U16, count: U16,
    recordLength: U32, payloadLength: byte, recordCrc: U32, payload: seq<byte>)

  /** The number of blocks a record of n bytes needs. */
  function Count(n: nat): nat {
    (n + 85) / 86
  }

  /** Records the codec accepts; their length is an Int32. */
  predicate Fragmentable(record: seq<byte>) {
    0 < |record| && Count(|record|) <= 0xFFFF
  }

  function Slice(record: seq<byte>, i: nat): (s: seq<byte>)
    requires i < Count(|record|)
    ensures 0 < |s| <= 86
  {
    record[86 * i..if 86 * (i + 1) <= |record| then 86 * (i + 1) else |record|]
  }

  function Flags(i: nat, count: nat): byte {
    if i == 0 then (if i == count - 1 then 3 else 1) else if i == count - 1 then 2 else 0
  }

  /** The i-th fragment of a record. */
  function FragmentOf(sequence: U32, record: seq<byte>, i: nat): (f: RawFragment)
    requires Fragmentable(record) && i < Count(|record|)
  {
    var s := Slice(record, i);
    RawFragment(1, Flags(i, Count(|record|)), sequence, i, Count(|record|), |record|, ByteOf(|s|), WordValue(Checksum(record)), s)
  }

  /** The 19 header bytes of a fragment. */
  function BlockHeader(f: RawFragment): (h: seq<byte>)
    ensures |h| == 19
  {
    [f.version] + [f.flags] + Be(f.recordSequence, 4) + Be(f.index, 2) + Be(f.count, 2) + Be(f.recordLength, 4) + [f.payloadLength] + Be(f.recordCrc, 4)
  }

  function Padding(n: nat): (s: seq<byte>)
    ensures |s| == n
  {
    seq(n, _ => 0)
  }

  function Block(f: RawFragment): (b: seq<byte>)
    requires |f.payload| <= 86
    ensures |b| == 105
  {
    BlockHeader(f) + f.payload + Padding(86 - |f.payload|)
  }

  /** AfsRawFragmentCodec.DecodeBlock */
  function DecodeBlock(block: seq<byte>): Result<RawFragment> {
    if |block| != BLOCK_BYTES || block[0] != 1 then InvalidData
    else if ByteValue(block[14]) > PAYLOAD_BYTES then InvalidData
    else
      var length, count, index := ByteValue(block[14]), Read16(block[8..10]), Read16(block[6..8]);
      if count == 0 || index >= count then InvalidData
      else Ok(RawFragment(block[0], block[1], Read32(block[2..6]), index, count, Read32(block[10..14]), block[14],
                          Read32(block[15..19]), block[19..19 + length]))
  }

  /** The fragments DecodeBlock can return. */
  predicate Decodable(f: RawFragment) {
    f.version == 1 && f.index < f.count && |f.payload| <= 86 && ByteValue(f.payloadLength) == |f.payload|
  }

  lemma {:induction false} BlockHeaderFields(f: RawFragment, h: seq<byte>)
    requires |h| == 19
    ensures h == BlockHeader(f) <==>
      (h[0] == f.version && h[1] == f.flags && h[2..6] == Be(f.recordSequence, 4) && h[6..8] == Be(f.index, 2) && h[8..10] == Be(f.count, 2)
       && h[10..14] == Be(f.recordLength, 4) && h[14] == f.payloadLength && h[15..19] == Be(f.recordCrc, 4))
  {
    hide Be;
    assert h == [h[0]] + [h[1]] + h[2..6] + h[6..8] + h[8..10] + h[10..14] + [h[14]] + h[15..19];
  }

  lemma {:induction false} BlockParts(f: RawFragment)
    requires |f.payload| <= 86
    ensures var b, h := Block(f), BlockHeader(f);
      && b[..19] == h && b[19..19 + |f.payload|] == f.payload
      && (forall i :: 0 <= i < 19 ==> b[i] == h[i]) && (forall i, j :: 0 <= i <= j <= 19 ==> b[i..j] == h[i..j])
  {
    hide BlockHeader;
  }

  lemma {:induction false} DecodeBlockInvertsBlock(f: RawFragment)
    requires Decodable(f)
    ensures DecodeBlock(Block(f)) == Ok(f)
  {
    hide Be, BlockHeader, Block, Read16, Read32, ByteValue;
    BlockParts(f);
    BlockHeaderFields(f, BlockHeader(f));
    Field32(f.recordSequence);
    Field16(f.index);
    Field16(f.count);
    Field32(f.recordLength);
    Field32(f.recordCrc);
  }

  /** Decoding a block of Fragment gives the fragment of that index. */
  lemma {:induction false} FragmentDecodes(sequence: U32, record: seq<byte>, i: nat)
    requires Fragmentable(record) && i < Count(|record|)
    ensures var f := FragmentOf(sequence, record, i); |f.payload| <= 86 && DecodeBlock(Block(f)) == Ok(f)
  {
    hide Block, DecodeBlock, ByteOf, ByteValue, Slice;
    ValueOfByte(|Slice(record, i)|);
    DecodeBlockInvertsBlock(FragmentOf(sequence, record, i));
  }

  /** Every accepted block is, up to its padding, the block of the fragment it decodes to. */
  lemma {:induction false} AcceptedBlock(block: seq<byte>)
    requires DecodeBlock(block).Ok?
    ensures var f := DecodeBlock(block).value;
      Decodable(f) && Block(f)[..19 + |f.payload|] == block[..19 + |f.payload|]
  {
    hide Be, BlockHeader, Read16, Read32, ByteValue;
    var f := DecodeBlock(block).value;
    var h := block[..19];
    Field32Back(block[2..6]);
    Field16Back(block[6..8]);
    Field16Back(block[8..10]);
    Field32Back(block[10..14]);
    Field32Back(block[15..19]);
    HeaderSlices(block, h);
    BlockHeaderFields(f, h);
    assert block[..19 + |f.payload|] == h + f.payload;
    assert Block(f)[..19 + |f.payload|] == h + f.payload;
  }

  lemma {:induction false} HeaderSlices(b: seq<byte>, h: seq<byte>)
    requires |b| == 105 && h == b[..19]
    ensures (forall i :: 0 <= i < 19 ==> b[i] == h[i]) && (forall i, j :: 0 <= i <= j <= 19 ==> b[i..j] == h[i..j])
  {
  }

  // ----- a record from its slices -----

  /** The slices joined in order. */
  function Joined(slices: seq<seq<byte>>): seq<byte> {
    if slices == [] then [] else Joined(slices[..|slices| - 1]) + slices[|slices| - 1]
  }

  function Slices(record: seq<byte>): (s: seq<seq<byte>>)
    ensures |s| == Count(|record|)
  {
    seq(Count(|record|), i requires 0 <= i < Count(|record|) => Slice(record, i))
  }

  lemma {:induction false} JoinedPrefix(record: seq<byte>, n: nat)
    requires n <= Count(|record|)
    ensures Joined(Slices(record)[..n]) == record[..if 86 * n <= |record| then 86 * n else |record|]
    decreases n
  {
    if n > 0 {
      JoinedPrefix(record, n - 1);
      assert Slices(record)[..n][..n - 1] == Slices(record)[..n - 1];
    }
  }

  /** Joining the slices of a record gives the record. */
  lemma {:induction false} JoinedSlices(record: seq<byte>)
    ensures Joined(Slices(record)) == record
  {
    hide Joined, Slices;
    JoinedPrefix(record, Count(|record|));
    assert Slices(record)[..Count(|record|)] == Slices(record);
    assert record[..|record|] == record;
  }

  // ----- the loop of Fragment -----

  function BlockOf(sequence: U32, record: seq<byte>, i: nat): (b: seq<byte>)
    requires Fragmentable(record) && i < Count(|record|)
    ensures |b| == 105
  {
    Block(FragmentOf(sequence, record, i))
  }

  /** AfsRawFragmentCodec.Fragment */
  method Fragment(sequence: U32, record: seq<byte>) returns (r: Result<seq<seq<byte>>>)
    ensures r.Ok? <==> Fragmentable(record)
    ensures r.Ok? ==> |r.value| == Count(|record|) && forall i :: 0 <= i < Count(|record|) ==> r.value[i] == BlockOf(sequence, record, i)
  {
    hide Be, Checksum, WordValue, ByteOf, BlockHeader;
    if record == [] { return InvalidData; }
    var count := (|record| + 85) / 86;
    if count > 0xFFFF { return InvalidData; }
    var crc := ComputeCrc32(record);
    var result: seq<seq<byte>> := [];
    for i := 0 to count
      invariant |result| == i && forall x :: 0 <= x < i ==> result[x] == BlockOf(sequence, record, x)
    {
      var block := FillBlock(sequence, record, i, crc);
      result := result + [block];
    }
    r := Ok(result);
  }

  method FillHeader(block: array<byte>, f: RawFragment)
    requires block.Length == 105
    modifies block
    ensures block[..19] == BlockHeader(f) && block[19..] == old(block[19..])
  {
    hide Be;
    assert block[..0] == [];
    Append(block, 0, [f.version]);
    Append(block, 1, [f.flags]);
    Append(block, 2, Be(f.recordSequence, 4));
    Append(block, 6, Be(f.index, 2));
    Append(block, 8, Be(f.count, 2));
    Append(block, 10, Be(f.recordLength, 4));
    Append(block, 14, [f.payloadLength]);
    Append(block, 15, Be(f.recordCrc, 4));
  }

  method FillBlock(sequence: U32, record: seq<byte>, i: nat, crc: bv32) returns (b: seq<byte>)
    requires Fragmentable(record) && i < Count(|record|) && crc == Checksum(record)
    ensures b == BlockOf(sequence, record, i)
  {
    hide Be, Checksum, WordValue, ByteOf, BlockHeader;
    var count := Count(|record|);
    var offset := i * 86;
    var length := if 86 <= |record| - offset then 86 else |record| - offset;
    var block := new byte[105](_ => 0);
    var flags := (if i == 0 then 1 else 0) | (if i == count - 1 then 2 else 0);
    var payload := record[offset..offset + length];
    ghost var rest := block[19..];
    assert rest[length..] == Padding(86 - length);
    ghost var f := FragmentOf(sequence, record, i);
    assert payload == Slice(record, i) && flags == Flags(i, count);
    FillHeader(block, RawFragment(1, flags, sequence, i, count, |record|, ByteOf(length), WordValue(crc), payload));
    assert block[..19] == BlockHeader(f);
    assert block[19 + length..] == rest[length..];
    Append(block, 19, payload);
    b := block[..];
    assert b == b[..19 + length] + b[19 + length..];
    assert b[..19 + length] == BlockHeader(f) + f.payload;
    assert b[19 + length..] == Padding(86 - length);
  }

  // ----- what the fragments of a record are -----

  /** Bit 0 marks the first fragment, bit 1 the last, and no other bit is set. */
  lemma {:induction false} FlagsMark(i: nat, count: nat)
    requires i < count
    ensures (Flags(i, count) & 1 != 0 <==> i == 0) && (Flags(i, count) & 2 != 0 <==> i + 1 == count) && Flags(i, count) & 0xFC == 0
  {
  }

  /** There are just enough fragments; all but the last carry 86 bytes, and fragment i begins at byte 86 i. */
  lemma {:induction false} SliceSizes(record: seq<byte>, i: nat)
    requires i < Count(|record|)
    ensures 86 * (Count(|record|) - 1) < |record| <= 86 * Count(|record|)
    ensures |Slice(record, i)| == if i + 1 < Count(|record|) then 86 else |record| - 86 * i
    ensures forall x :: 0 <= x < |Slice(record, i)| ==> Slice(record, i)[x] == record[86 * i + x]
  {
  }
}
