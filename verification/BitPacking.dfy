/** Bits inside bytes, most significant bit first: the packing used by the native codec, the
    fragment codec, the frame synchroniser and the error injector. */
module BitPacking {
  import opened BitStrings

  type byte = bv8

  /** 1 << (7 - j), by cases. */
  function Mask(j: nat): byte
    requires j < 8
  {
    match j
    case 0 => 0x80
    case 1 => 0x40
    case 2 => 0x20
    case 3 => 0x10
    case 4 => 0x08
    case 5 => 0x04
    case 6 => 0x02
    case 7 => 0x01
  }

  predicate BitAt(b: byte, j: nat)
    requires j < 8
  {
    b & Mask(j) != 0
  }

  /** The mask and the test are the shifts that the sources write. */
  lemma {:induction false} ShiftForm(b: byte, j: nat)
    requires j < 8
    ensures Mask(j) == 1 << (7 - j)
    ensures BitAt(b, j) == ((b >> (7 - j)) & 1 == 1)
  {
    if j == 0 {} else if j == 1 {} else if j == 2 {} else if j == 3 {}
    else if j == 4 {} else if j == 5 {} else if j == 6 {} else {}
  }

  function OrBit(b: byte, j: nat, v: bool): byte
    requires j < 8
  {
    if v then b | Mask(j) else b
  }

  function FlipBit(b: byte, j: nat): byte
    requires j < 8
  {
    b ^ Mask(j)
  }

  lemma {:induction false} MaskDistributes(m: byte, n: byte, b: byte)
    ensures (b | m) & n == (b & n) | (m & n) && (b ^ m) & n == (b & n) ^ (m & n)
  {
  }

  lemma {:induction false} MaskSelects(j: nat, k: nat)
    requires j < 8 && k < 8
    ensures Mask(j) & Mask(k) == if j == k then Mask(k) else 0
  {
  }

  lemma {:induction false} OrBitAt(b: byte, j: nat, v: bool, k: nat)
    requires j < 8 && k < 8
    ensures BitAt(OrBit(b, j, v), k) == if k == j then BitAt(b, j) || v else BitAt(b, k)
  {
    MaskSelects(j, k);
    MaskDistributes(Mask(j), Mask(k), b);
  }

  lemma {:induction false} FlipBitAt(b: byte, j: nat, k: nat)
    requires j < 8 && k < 8
    ensures BitAt(FlipBit(b, j), k) == (BitAt(b, k) != (k == j))
  {
    MaskSelects(j, k);
    MaskDistributes(Mask(j), Mask(k), b);
  }

  lemma {:induction false} ByteExtensional(a: byte, b: byte)
    requires forall j :: 0 <= j < 8 ==> BitAt(a, j) == BitAt(b, j)
    ensures a == b
  {
    assert BitAt(a, 0) == BitAt(b, 0) && BitAt(a, 1) == BitAt(b, 1) && BitAt(a, 2) == BitAt(b, 2);
    assert BitAt(a, 3) == BitAt(b, 3) && BitAt(a, 4) == BitAt(b, 4) && BitAt(a, 5) == BitAt(b, 5);
    assert BitAt(a, 6) == BitAt(b, 6) && BitAt(a, 7) == BitAt(b, 7);
  }

  lemma {:induction false} ZeroByte(j: nat)
    requires j < 8
    ensures !BitAt(0, j)
  {
  }

  // ----- byte streams as bit streams -----

  predicate StreamBit(bytes: seq<byte>, p: nat)
    requires p < 8 * |bytes|
  {
    BitAt(bytes[p / 8], p % 8)
  }

  /** The first n bits of a byte string. */
  function BitsOf(bytes: seq<byte>, n: nat): (bits: Bits)
    requires n <= 8 * |bytes|
    ensures |bits| == n && forall p :: 0 <= p < n ==> bits[p] == StreamBit(bytes, p)
  {
    seq(n, p requires 0 <= p < n => StreamBit(bytes, p))
  }

  /** bytes hold exactly `bits`, padded with zeros to a whole number of bytes. */
  ghost predicate Packs(bytes: seq<byte>, bits: Bits) {
    && |bytes| == (|bits| + 7) / 8
    && forall p :: 0 <= p < 8 * |bytes| ==> StreamBit(bytes, p) == (p < |bits| && bits[p])
  }

  lemma {:induction false} PackingUnique(a: seq<byte>, b: seq<byte>)
    requires |a| == |b|
    requires forall p :: 0 <= p < 8 * |a| ==> StreamBit(a, p) == StreamBit(b, p)
    ensures a == b
  {
    forall k | 0 <= k < |a|
      ensures a[k] == b[k]
    {
      forall j | 0 <= j < 8
        ensures BitAt(a[k], j) == BitAt(b[k], j)
      {
        assert StreamBit(a, 8 * k + j) == StreamBit(b, 8 * k + j);
      }
      ByteExtensional(a[k], b[k]);
    }
  }

  function Padded(bits: Bits, p: nat): bool {
    p < |bits| && bits[p]
  }

  function PackedByte(bits: Bits, k: nat): byte {
    OrBit(OrBit(OrBit(OrBit(OrBit(OrBit(OrBit(OrBit(0,
      0, Padded(bits, 8 * k)), 1, Padded(bits, 8 * k + 1)), 2, Padded(bits, 8 * k + 2)), 3, Padded(bits, 8 * k + 3)),
      4, Padded(bits, 8 * k + 4)), 5, Padded(bits, 8 * k + 5)), 6, Padded(bits, 8 * k + 6)), 7, Padded(bits, 8 * k + 7))
  }

  lemma {:induction false} PackedByteBit(bits: Bits, k: nat, j: nat)
    requires j < 8
    ensures BitAt(PackedByte(bits, k), j) == Padded(bits, 8 * k + j)
  {
    hide BitAt, OrBit, Padded;
    var b0 := OrBit(0, 0, Padded(bits, 8 * k));
    var b1 := OrBit(b0, 1, Padded(bits, 8 * k + 1));
    var b2 := OrBit(b1, 2, Padded(bits, 8 * k + 2));
    var b3 := OrBit(b2, 3, Padded(bits, 8 * k + 3));
    var b4 := OrBit(b3, 4, Padded(bits, 8 * k + 4));
    var b5 := OrBit(b4, 5, Padded(bits, 8 * k + 5));
    var b6 := OrBit(b5, 6, Padded(bits, 8 * k + 6));
    ZeroByte(j);
    OrBitAt(0, 0, Padded(bits, 8 * k), j);
    OrBitAt(b0, 1, Padded(bits, 8 * k + 1), j);
    OrBitAt(b1, 2, Padded(bits, 8 * k + 2), j);
    OrBitAt(b2, 3, Padded(bits, 8 * k + 3), j);
    OrBitAt(b3, 4, Padded(bits, 8 * k + 4), j);
    OrBitAt(b4, 5, Padded(bits, 8 * k + 5), j);
    OrBitAt(b5, 6, Padded(bits, 8 * k + 6), j);
    OrBitAt(b6, 7, Padded(bits, 8 * k + 7), j);
  }

  function PackBits(bits: Bits): (bytes: seq<byte>)
    ensures |bytes| == (|bits| + 7) / 8
  {
    seq((|bits| + 7) / 8, k requires 0 <= k => PackedByte(bits, k))
  }

  lemma {:induction false} PackBitsPacks(bits: Bits)
    ensures Packs(PackBits(bits), bits)
  {
    hide PackedByte, BitAt;
    var bytes := PackBits(bits);
    forall p | 0 <= p < 8 * |bytes|
      ensures StreamBit(bytes, p) == (p < |bits| && bits[p])
    {
      PackedByteBit(bits, p / 8, p % 8);
    }
  }

  lemma {:induction false} UnpackInvertsPack(bits: Bits)
    ensures BitsOf(PackBits(bits), |bits|) == bits
  {
    hide PackBits;
    PackBitsPacks(bits);
  }

  lemma {:induction false} PackInvertsUnpack(bytes: seq<byte>)
    ensures PackBits(BitsOf(bytes, 8 * |bytes|)) == bytes
  {
    hide PackBits, BitAt;
    var bits := BitsOf(bytes, 8 * |bytes|);
    PackBitsPacks(bits);
    PackingUnique(PackBits(bits), bytes);
  }

  // ----- the loops of lnis_afs_codec.c -----

  /** unpack: one array element per bit. */
  method Unpack(bytes: seq<byte>, bitCount: nat) returns (bits: Bits)
    requires bitCount <= 8 * |bytes|
    ensures bits == BitsOf(bytes, bitCount)
  {
    var out := new bool[bitCount];
    for i := 0 to bitCount
      invariant forall p :: 0 <= p < i ==> out[p] == StreamBit(bytes, p)
    {
      ShiftForm(bytes[i / 8], i % 8);
      out[i] := (bytes[i / 8] >> (7 - i % 8)) & 1 == 1;
    }
    bits := out[..];
  }

  /** buff[i >> 3] |= v << (7 - (i & 7)) */
  method OrInto(out: array<byte>, i: nat, v: bool)
    requires i < 8 * out.Length
    modifies out
    ensures forall p :: 0 <= p < 8 * out.Length ==>
      StreamBit(out[..], p) == if p == i then old(StreamBit(out[..], p)) || v else old(StreamBit(out[..], p))
  {
    ghost var before := out[..];
    var one: byte := if v then 1 else 0;
    out[i / 8] := out[i / 8] | (one << (7 - i % 8));
    hide StreamBit;
    OrStep(before, out[..], i, v);
  }

  lemma {:induction false} ZeroStream(bytes: seq<byte>)
    requires forall k :: 0 <= k < |bytes| ==> bytes[k] == 0
    ensures forall p :: 0 <= p < 8 * |bytes| ==> !StreamBit(bytes, p)
  {
    forall p | 0 <= p < 8 * |bytes|
      ensures !StreamBit(bytes, p)
    {
      ZeroByte(p % 8);
    }
  }

  /** pack: zero the buffer, then or every bit into its byte. */
  method Pack(bits: Bits) returns (bytes: seq<byte>)
    ensures bytes == PackBits(bits)
  {
    hide StreamBit, PackBits;
    var n := (|bits| + 7) / 8;
    var out := new byte[n](_ => 0);
    ZeroStream(out[..]);
    for i := 0 to |bits|
      invariant forall p :: 0 <= p < 8 * n ==> StreamBit(out[..], p) == (p < i && bits[p])
    {
      OrInto(out, i, bits[i]);
    }
    PackBitsPacks(bits);
    PackingUnique(out[..], PackBits(bits));
    bytes := out[..];
  }

  lemma {:induction false} OrShift(b: byte, j: nat, v: bool)
    requires j < 8
    ensures b | ((if v then 1 else 0) << (7 - j)) == OrBit(b, j, v)
  {
    ShiftForm(b, j);
    if v {
      assert b | (1 << (7 - j)) == b | Mask(j);
    } else {
      ShiftZero(j);
      assert b | 0 == b;
    }
  }

  lemma {:induction false} ShiftZero(j: nat)
    requires j < 8
    ensures (0 as byte) << (7 - j) == 0
  {
  }

  lemma {:induction false} OrStep(before: seq<byte>, after: seq<byte>, i: nat, v: bool)
    requires i < 8 * |before|
    requires after == before[i / 8 := before[i / 8] | ((if v then 1 else 0) << (7 - i % 8))]
    ensures |after| == |before|
    ensures forall p :: 0 <= p < 8 * |before| ==>
      StreamBit(after, p) == if p == i then StreamBit(before, p) || v else StreamBit(before, p)
  {
    hide BitAt, OrBit;
    OrShift(before[i / 8], i % 8, v);
    forall p | 0 <= p < 8 * |before|
      ensures StreamBit(after, p) == if p == i then StreamBit(before, p) || v else StreamBit(before, p)
    {
      if p / 8 == i / 8 {
        OrBitAt(before[i / 8], i % 8, v, p % 8);
      }
    }
  }
}
