/** AfsSb2Builder.BuildValidationPattern: subframe 2 with the week and the interval in front of reproducible noise. */
module Sb2Pattern {
  import opened Results
  import opened BitStrings
  import opened BigEndian
  import opened SubframeBits
  import opened FrameCodec

  /** One turn of the 32-bit xorshift generator. */
  function XorShift(s: bv32): bv32 {
    var a := s ^ (s << 13);
    var b := a ^ (a >> 17);
    b ^ (b << 5)
  }

  function Seed(week: U16, interval: U16): bv32 {
    0x6D2B79F5 ^ ((week as bv32) << 9) ^ (interval as bv32)
  }

  function StateAfter(s: bv32, n: nat): bv32 {
    if n == 0 then s else XorShift(StateAfter(s, n - 1))
  }

  /** Bit i of the noise is the low bit after turn i + 1. */
  function NoiseBit(s: bv32, i: nat): bool {
    StateAfter(s, i + 1) & 1 == 1
  }

  function Noise(s: bv32, n: nat): (b: Bits)
    ensures |b| == n && forall i :: 0 <= i < n ==> b[i] == NoiseBit(s, i)
  {
    seq(n, i requires 0 <= i => NoiseBit(s, i))
  }

  function Pattern(week: U16, interval: U16): (b: Bits)
    ensures |b| == 1176
  {
    ValueBits(week, 13) + ValueBits(interval, 9) + Noise(Seed(week, interval), 1176)[22..]
  }

  /** The first two turns of the published 32-bit xorshift generator with shifts 13, 17 and 5, started from 1; the noise is
      the lowest bit of each state. */
  lemma {:induction false} KnownTurns()
    ensures StateAfter(1, 1) == 270_369 && StateAfter(1, 2) == 67_634_689
    ensures NoiseBit(1, 0) && NoiseBit(1, 1) && !NoiseBit(2, 0)
  {
    assert XorShift(1) == 270_369;
    assert XorShift(270_369) == 67_634_689;
    assert StateAfter(1, 1) == XorShift(StateAfter(1, 0));
    assert StateAfter(1, 2) == XorShift(StateAfter(1, 1));
    assert XorShift(2) == 540_738;
    assert StateAfter(2, 1) == XorShift(StateAfter(2, 0));
  }

  /** The week enters the seed nine places above the interval. */
  lemma {:induction false} KnownSeeds()
    ensures Seed(0, 0) == 0x6D2B79F5 && Seed(1, 2) == 0x6D2B7BF7
  {
  }

  /** A week below 8192 and an interval below 512 can be read back. */
  lemma {:induction false} FieldsReadBack(week: U16, interval: U16)
    requires week < 8192 && interval < 512
    ensures BitsValue(Pattern(week, interval)[..13]) == week && BitsValue(Pattern(week, interval)[13..22]) == interval
  {
    hide ValueBits, BitsValue, Noise, Seed;
    assert Power(9) == 512;
    assert Power(10) == 1024 && Power(11) == 2048 && Power(12) == 4096;
    assert Power(13) == 8192;
    ValueOfBits(week, 13);
    ValueOfBits(interval, 9);
    assert Pattern(week, interval)[..13] == ValueBits(week, 13) && Pattern(week, interval)[13..22] == ValueBits(interval, 9);
  }

  /** Write: the low `length` bits of a value, most significant first, from `offset` on. */
  method Write(bits: array<int>, offset: nat, length: nat, value: nat)
    requires offset + length <= bits.Length
    modifies bits
    ensures forall i :: 0 <= i < length ==> bits[offset + i] == if ValueBits(value, length)[i] then 1 else 0
    ensures forall p :: 0 <= p < bits.Length && !(offset <= p < offset + length) ==> bits[p] == old(bits[p])
  {
    hide ValueBits;
    for i := 0 to length
      invariant forall x :: 0 <= x < i ==> bits[offset + x] == if ValueBits(value, length)[x] then 1 else 0
      invariant forall p :: 0 <= p < bits.Length && !(offset <= p < offset + i) ==> bits[p] == old(bits[p])
    {
      ShiftedBit(value, length, i);
      bits[offset + i] := ShiftRight(value, length - i - 1) % 2;
    }
  }

  /** BuildValidationPattern */
  method BuildValidationPattern(week: U16, interval: U16) returns (r: Result<seq<int>>)
    ensures r.Ok? <==> interval < 504
    ensures r.Ok? ==> r.value == Raw(Pattern(week, interval))
  {
    hide ValueBits, XorShift, Seed;
    if interval >= 504 { return InvalidData; }
    var bits := new int[1176](_ => 0);
    var seed := Seed(week, interval);
    var state := seed;
    for i := 0 to 1176
      invariant state == StateAfter(seed, i)
      invariant forall x :: 0 <= x < i ==> bits[x] == if NoiseBit(seed, x) then 1 else 0
    {
      state := XorShift(state);
      bits[i] := if state & 1 == 1 then 1 else 0;
    }
    Write(bits, 0, 13, week);
    Write(bits, 13, 9, interval);
    assert bits[..] == Raw(Pattern(week, interval));
    r := Ok(bits[..]);
  }
}
