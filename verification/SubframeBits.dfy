/** ToSbBits and FromSbBits: a 105-byte block behind a six-bit message type, one array element a bit. */
module SubframeBits {
  import opened BitStrings
  import opened Results
  import opened BitPacking
  import opened FrameCodec
  import opened Division

  function Raw(bits: Bits): (raw: seq<int>)
    ensures |raw| == |bits|
  {
    seq(|bits|, i requires 0 <= i < |bits| => if bits[i] then 1 else 0)
  }

  lemma {:induction false} RawBits(bits: Bits)
    ensures ValidBits(Raw(bits)) && ToBits(Raw(bits)) == bits
  {
  }

  lemma {:induction false} BitsRaw(raw: seq<int>)
    requires ValidBits(raw)
    ensures Raw(ToBits(raw)) == raw
  {
  }

  function BitsValue(bits: Bits): nat
    decreases |bits|
  {
    if bits == [] then 0 else 2 * BitsValue(bits[..|bits| - 1]) + if bits[|bits| - 1] then 1 else 0
  }

  lemma {:induction false} ValueOfBits(n: nat, k: nat)
    requires n < Power(k)
    ensures BitsValue(ValueBits(n, k)) == n
    decreases k
  {
    if k > 0 {
      ValueOfBits(n / 2, k - 1);
      assert ValueBits(n, k)[..k - 1] == ValueBits(n / 2, k - 1);
    }
  }

  lemma {:induction false} BitsOfValue(bits: Bits)
    ensures BitsValue(bits) < Power(|bits|) && ValueBits(BitsValue(bits), |bits|) == bits
    decreases |bits|
  {
    if bits != [] {
      var k := |bits| - 1;
      BitsOfValue(bits[..k]);
      assert BitsValue(bits) / 2 == BitsValue(bits[..k]);
      assert bits == bits[..k] + [bits[k]];
    }
  }

  /** n >> k */
  function ShiftRight(n: nat, k: nat): nat
    decreases k
  {
    if k == 0 then n else ShiftRight(n / 2, k - 1)
  }

  lemma {:induction false} ShiftedBit(n: nat, k: nat, i: nat)
    requires i < k
    ensures ValueBits(n, k)[i] == (ShiftRight(n, k - 1 - i) % 2 == 1)
    decreases k
  {
    if i < k - 1 {
      ShiftedBit(n / 2, k - 1, i);
    }
  }

  function SbBits(block: seq<byte>, messageType: nat): (bits: Bits)
    requires |block| == 105
    ensures |bits| == 846
  {
    ValueBits(messageType, 6) + BitsOf(block, 840)
  }

  /** FromSbBits as a value. */
  function FromSb(raw: seq<int>, expectedType: int): Result<seq<byte>> {
    if |raw| != 846 || !ValidBits(raw) then InvalidData
    else if BitsValue(ToBits(raw)[..6]) != expectedType then InvalidData
    else Ok(PackBits(ToBits(raw)[6..]))
  }

  /** A block comes back exactly when the receiver expects the type it was sent with. */
  lemma {:induction false} SbRoundTrip(block: seq<byte>, messageType: nat, expectedType: int)
    requires |block| == 105 && messageType <= 63
    ensures FromSb(Raw(SbBits(block, messageType)), expectedType) == if messageType == expectedType then Ok(block) else InvalidData
  {
    hide PackBits, BitsOf, ValueBits, ToBits, Raw, BitsValue, ValidBits;
    var bits := SbBits(block, messageType);
    RawBits(bits);
    assert Power(6) == 64;
    ValueOfBits(messageType, 6);
    assert bits[..6] == ValueBits(messageType, 6) && bits[6..] == BitsOf(block, 840);
    PackInvertsUnpack(block);
  }

  /** Every accepted bit array is the one of the block it gives. */
  lemma {:induction false} SbCanonical(raw: seq<int>, expectedType: int)
    requires FromSb(raw, expectedType).Ok?
    ensures var block := FromSb(raw, expectedType).value;
      |block| == 105 && 0 <= expectedType <= 63 && raw == Raw(SbBits(block, expectedType))
  {
    hide PackBits, BitsOf, ValueBits, ToBits, Raw, BitsValue, ValidBits;
    var bits := ToBits(raw);
    assert Power(6) == 64;
    BitsOfValue(bits[..6]);
    UnpackInvertsPack(bits[6..]);
    assert bits == bits[..6] + bits[6..];
    BitsRaw(raw);
  }

  // ----- the loops -----

  /** AfsRawFragmentCodec.ToSbBits */
  method ToSbBits(block: seq<byte>, messageType: int) returns (r: Result<seq<int>>)
    ensures r.Ok? <==> |block| == 105 && 0 <= messageType <= 63
    ensures r.Ok? ==> r.value == Raw(SbBits(block, messageType))
  {
    hide ValueBits;
    if |block| != 105 || messageType < 0 || messageType > 63 { return InvalidData; }
    var bits := new int[846](_ => 0);
    for i := 0 to 6
      invariant forall x :: 0 <= x < i ==> bits[x] == if ValueBits(messageType, 6)[x] then 1 else 0
    {
      ShiftedBit(messageType, 6, i);
      bits[i] := ShiftRight(messageType, 5 - i) % 2;
    }
    for i := 0 to 840
      invariant forall x :: 0 <= x < 6 ==> bits[x] == if ValueBits(messageType, 6)[x] then 1 else 0
      invariant forall x :: 0 <= x < i ==> bits[6 + x] == if StreamBit(block, x) then 1 else 0
    {
      ShiftForm(block[i / 8], i % 8);
      bits[6 + i] := if (block[i / 8] >> (7 - i % 8)) & 1 == 1 then 1 else 0;
    }
    assert bits[..] == Raw(SbBits(block, messageType));
    r := Ok(bits[..]);
  }

  /** AfsRawFragmentCodec.FromSbBits */
  method FromSbBits(raw: seq<int>, expectedType: int) returns (r: Result<seq<byte>>)
    requires forall i :: 0 <= i < |raw| ==> 0 <= raw[i] < 256
    ensures r == FromSb(raw, expectedType)
  {
    hide StreamBit, PackBits;
    if |raw| != 846 { return InvalidData; }
    var bits := ToBits(raw);
    var messageType := 0;
    for i := 0 to 6
      invariant forall x :: 0 <= x < i ==> raw[x] <= 1
      invariant messageType == BitsValue(bits[..i])
    {
      if raw[i] > 1 { return InvalidData; }
      assert bits[..i + 1][..i] == bits[..i];
      messageType := 2 * messageType + raw[i];
    }
    if messageType != expectedType { return InvalidData; }
    var block := new byte[105](_ => 0);
    ZeroStream(block[..]);
    for i := 0 to 840
      invariant forall x :: 0 <= x < 6 + i ==> raw[x] <= 1
      invariant forall p :: 0 <= p < 840 ==> StreamBit(block[..], p) == (p < i && bits[6 + p])
    {
      if raw[6 + i] > 1 { return InvalidData; }
      OrInto(block, i, raw[6 + i] == 1);
    }
    PackBitsPacks(bits[6..]);
    PackingUnique(block[..], PackBits(bits[6..]));
    r := Ok(block[..]);
  }

  lemma {:induction false} PowerPositive(k: nat)
    ensures Power(k) > 0
  {
    if k > 0 {
      PowerPositive(k - 1);
    }
  }

  /** Shifting right by k divides by 2^k. */
  lemma {:induction false} ShiftIsDivision(n: nat, k: nat)
    ensures Power(k) > 0 && ShiftRight(n, k) == n / Power(k)
    decreases k
  {
    PowerPositive(k);
    if k > 0 {
      ShiftIsDivision(n / 2, k - 1);
      HalveFirst(n, Power(k - 1));
    }
  }

  lemma {:induction false} HalveFirst(n: nat, p: nat)
    requires p > 0
    ensures n / 2 / p == n / (2 * p)
  {
    var q, r := n / 2, n % 2;
    var x, y := q / p, q % p;
    assert n == 2 * q + r && q == p * x + y;
    assert 2 * (p * x) == (2 * p) * x;
    assert n == (2 * p) * x + (2 * y + r);
    DivisionUnique(n, 2 * p, x, 2 * y + r);
  }

  /** Bit i of the k low bits of n is digit k - 1 - i of n in base 2: the first is the most significant. */
  lemma {:induction false} BitOfNumber(n: nat, k: nat, i: nat)
    requires i < k
    ensures Power(k - 1 - i) > 0 && ValueBits(n, k)[i] == (n / Power(k - 1 - i) % 2 == 1)
  {
    hide Power;
    ShiftedBit(n, k, i);
    ShiftIsDivision(n, k - 1 - i);
  }

  /** The six bits of the type, most significant first, then the bits of the block from its first byte on. */
  lemma {:induction false} SbBitAt(block: seq<byte>, messageType: nat, p: nat)
    requires |block| == 105 && p < 846
    ensures Power(if p < 6 then 5 - p else 0) > 0
    ensures SbBits(block, messageType)[p] ==
      if p < 6 then messageType / Power(5 - p) % 2 == 1 else StreamBit(block, p - 6)
  {
    hide ValueBits, Power, StreamBit;
    PowerPositive(if p < 6 then 5 - p else 0);
    if p < 6 {
      BitOfNumber(messageType, 6, p);
    }
  }
}
