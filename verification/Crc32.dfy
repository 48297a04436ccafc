/** The CRC-32 of Hashing.cs, and what a change of at most four consecutive bytes does to it. */
module Crc32 {
  import opened BitStrings
  import opened PolynomialCode
  import opened BitPacking

  /** The bits of a byte, least significant first, as the reflected register takes them. */
  function LsbBits(b: byte): (s: Bits)
    ensures |s| == 8
  {
    [BitAt(b, 7), BitAt(b, 6), BitAt(b, 5), BitAt(b, 4), BitAt(b, 3), BitAt(b, 2), BitAt(b, 1), BitAt(b, 0)]
  }

  function LsbStream(data: seq<byte>): (s: Bits)
    ensures |s| == 8 * |data|
  {
    if data == [] then [] else LsbStream(data[..|data| - 1]) + LsbBits(data[|data| - 1])
  }

  /** The reflected generator 0xEDB88320, least significant bit first. */
  const GENERATOR: Bits := LsbBits(0x20) + LsbBits(0x83) + LsbBits(0xB8) + LsbBits(0xED)

  /** s lists the bits of x, least significant first. */
  predicate Holds(x: bv32, s: Bits) {
    && |s| == 32
    && s[0] == (x & 0x1 != 0) && s[1] == (x & 0x2 != 0) && s[2] == (x & 0x4 != 0) && s[3] == (x & 0x8 != 0)
    && s[4] == (x & 0x10 != 0) && s[5] == (x & 0x20 != 0) && s[6] == (x & 0x40 != 0) && s[7] == (x & 0x80 != 0)
    && s[8] == (x & 0x100 != 0) && s[9] == (x & 0x200 != 0) && s[10] == (x & 0x400 != 0) && s[11] == (x & 0x800 != 0)
    && s[12] == (x & 0x1000 != 0) && s[13] == (x & 0x2000 != 0) && s[14] == (x & 0x4000 != 0) && s[15] == (x & 0x8000 != 0)
    && s[16] == (x & 0x10000 != 0) && s[17] == (x & 0x20000 != 0) && s[18] == (x & 0x40000 != 0) && s[19] == (x & 0x80000 != 0)
    && s[20] == (x & 0x100000 != 0) && s[21] == (x & 0x200000 != 0) && s[22] == (x & 0x400000 != 0) && s[23] == (x & 0x800000 != 0)
    && s[24] == (x & 0x1000000 != 0) && s[25] == (x & 0x2000000 != 0) && s[26] == (x & 0x4000000 != 0) && s[27] == (x & 0x8000000 != 0)
    && s[28] == (x & 0x10000000 != 0) && s[29] == (x & 0x20000000 != 0) && s[30] == (x & 0x40000000 != 0) && s[31] == (x & 0x80000000 != 0)
  }

  lemma {:induction false} XorWordBits(x: bv32, y: bv32)
    ensures ((x ^ y) & 0x1 != 0) == ((x & 0x1 != 0) != (y & 0x1 != 0))
    ensures ((x ^ y) & 0x2 != 0) == ((x & 0x2 != 0) != (y & 0x2 != 0))
    ensures ((x ^ y) & 0x4 != 0) == ((x & 0x4 != 0) != (y & 0x4 != 0))
    ensures ((x ^ y) & 0x8 != 0) == ((x & 0x8 != 0) != (y & 0x8 != 0))
    ensures ((x ^ y) & 0x10 != 0) == ((x & 0x10 != 0) != (y & 0x10 != 0))
    ensures ((x ^ y) & 0x20 != 0) == ((x & 0x20 != 0) != (y & 0x20 != 0))
    ensures ((x ^ y) & 0x40 != 0) == ((x & 0x40 != 0) != (y & 0x40 != 0))
    ensures ((x ^ y) & 0x80 != 0) == ((x & 0x80 != 0) != (y & 0x80 != 0))
    ensures ((x ^ y) & 0x100 != 0) == ((x & 0x100 != 0) != (y & 0x100 != 0))
    ensures ((x ^ y) & 0x200 != 0) == ((x & 0x200 != 0) != (y & 0x200 != 0))
    ensures ((x ^ y) & 0x400 != 0) == ((x & 0x400 != 0) != (y & 0x400 != 0))
    ensures ((x ^ y) & 0x800 != 0) == ((x & 0x800 != 0) != (y & 0x800 != 0))
    ensures ((x ^ y) & 0x1000 != 0) == ((x & 0x1000 != 0) != (y & 0x1000 != 0))
    ensures ((x ^ y) & 0x2000 != 0) == ((x & 0x2000 != 0) != (y & 0x2000 != 0))
    ensures ((x ^ y) & 0x4000 != 0) == ((x & 0x4000 != 0) != (y & 0x4000 != 0))
    ensures ((x ^ y) & 0x8000 != 0) == ((x & 0x8000 != 0) != (y & 0x8000 != 0))
    ensures ((x ^ y) & 0x10000 != 0) == ((x & 0x10000 != 0) != (y & 0x10000 != 0))
    ensures ((x ^ y) & 0x20000 != 0) == ((x & 0x20000 != 0) != (y & 0x20000 != 0))
    ensures ((x ^ y) & 0x40000 != 0) == ((x & 0x40000 != 0) != (y & 0x40000 != 0))
    ensures ((x ^ y) & 0x80000 != 0) == ((x & 0x80000 != 0) != (y & 0x80000 != 0))
    ensures ((x ^ y) & 0x100000 != 0) == ((x & 0x100000 != 0) != (y & 0x100000 != 0))
    ensures ((x ^ y) & 0x200000 != 0) == ((x & 0x200000 != 0) != (y & 0x200000 != 0))
    ensures ((x ^ y) & 0x400000 != 0) == ((x & 0x400000 != 0) != (y & 0x400000 != 0))
    ensures ((x ^ y) & 0x800000 != 0) == ((x & 0x800000 != 0) != (y & 0x800000 != 0))
    ensures ((x ^ y) & 0x1000000 != 0) == ((x & 0x1000000 != 0) != (y & 0x1000000 != 0))
    ensures ((x ^ y) & 0x2000000 != 0) == ((x & 0x2000000 != 0) != (y & 0x2000000 != 0))
    ensures ((x ^ y) & 0x4000000 != 0) == ((x & 0x4000000 != 0) != (y & 0x4000000 != 0))
    ensures ((x ^ y) & 0x8000000 != 0) == ((x & 0x8000000 != 0) != (y & 0x8000000 != 0))
    ensures ((x ^ y) & 0x10000000 != 0) == ((x & 0x10000000 != 0) != (y & 0x10000000 != 0))
    ensures ((x ^ y) & 0x20000000 != 0) == ((x & 0x20000000 != 0) != (y & 0x20000000 != 0))
    ensures ((x ^ y) & 0x40000000 != 0) == ((x & 0x40000000 != 0) != (y & 0x40000000 != 0))
    ensures ((x ^ y) & 0x80000000 != 0) == ((x & 0x80000000 != 0) != (y & 0x80000000 != 0))
  {
  }

  lemma {:induction false} ShiftWordBits(c: bv32)
    ensures (c >> 1) & 0x80000000 == 0
    ensures ((c >> 1) & 0x1 != 0) == (c & 0x2 != 0)
    ensures ((c >> 1) & 0x2 != 0) == (c & 0x4 != 0)
    ensures ((c >> 1) & 0x4 != 0) == (c & 0x8 != 0)
    ensures ((c >> 1) & 0x8 != 0) == (c & 0x10 != 0)
    ensures ((c >> 1) & 0x10 != 0) == (c & 0x20 != 0)
    ensures ((c >> 1) & 0x20 != 0) == (c & 0x40 != 0)
    ensures ((c >> 1) & 0x40 != 0) == (c & 0x80 != 0)
    ensures ((c >> 1) & 0x80 != 0) == (c & 0x100 != 0)
    ensures ((c >> 1) & 0x100 != 0) == (c & 0x200 != 0)
    ensures ((c >> 1) & 0x200 != 0) == (c & 0x400 != 0)
    ensures ((c >> 1) & 0x400 != 0) == (c & 0x800 != 0)
    ensures ((c >> 1) & 0x800 != 0) == (c & 0x1000 != 0)
    ensures ((c >> 1) & 0x1000 != 0) == (c & 0x2000 != 0)
    ensures ((c >> 1) & 0x2000 != 0) == (c & 0x4000 != 0)
    ensures ((c >> 1) & 0x4000 != 0) == (c & 0x8000 != 0)
    ensures ((c >> 1) & 0x8000 != 0) == (c & 0x10000 != 0)
    ensures ((c >> 1) & 0x10000 != 0) == (c & 0x20000 != 0)
    ensures ((c >> 1) & 0x20000 != 0) == (c & 0x40000 != 0)
    ensures ((c >> 1) & 0x40000 != 0) == (c & 0x80000 != 0)
    ensures ((c >> 1) & 0x80000 != 0) == (c & 0x100000 != 0)
    ensures ((c >> 1) & 0x100000 != 0) == (c & 0x200000 != 0)
    ensures ((c >> 1) & 0x200000 != 0) == (c & 0x400000 != 0)
    ensures ((c >> 1) & 0x400000 != 0) == (c & 0x800000 != 0)
    ensures ((c >> 1) & 0x800000 != 0) == (c & 0x1000000 != 0)
    ensures ((c >> 1) & 0x1000000 != 0) == (c & 0x2000000 != 0)
    ensures ((c >> 1) & 0x2000000 != 0) == (c & 0x4000000 != 0)
    ensures ((c >> 1) & 0x4000000 != 0) == (c & 0x8000000 != 0)
    ensures ((c >> 1) & 0x8000000 != 0) == (c & 0x10000000 != 0)
    ensures ((c >> 1) & 0x10000000 != 0) == (c & 0x20000000 != 0)
    ensures ((c >> 1) & 0x20000000 != 0) == (c & 0x40000000 != 0)
    ensures ((c >> 1) & 0x40000000 != 0) == (c & 0x80000000 != 0)
  {
  }

  lemma {:induction false} ByteWordBits(b: byte)
    ensures ((b as bv32) & 0x1 != 0) == BitAt(b, 7)
    ensures ((b as bv32) & 0x2 != 0) == BitAt(b, 6)
    ensures ((b as bv32) & 0x4 != 0) == BitAt(b, 5)
    ensures ((b as bv32) & 0x8 != 0) == BitAt(b, 4)
    ensures ((b as bv32) & 0x10 != 0) == BitAt(b, 3)
    ensures ((b as bv32) & 0x20 != 0) == BitAt(b, 2)
    ensures ((b as bv32) & 0x40 != 0) == BitAt(b, 1)
    ensures ((b as bv32) & 0x80 != 0) == BitAt(b, 0)
    ensures (b as bv32) & 0x100 == 0 && (b as bv32) & 0x200 == 0 && (b as bv32) & 0x400 == 0 && (b as bv32) & 0x800 == 0
    ensures (b as bv32) & 0x1000 == 0 && (b as bv32) & 0x2000 == 0 && (b as bv32) & 0x4000 == 0 && (b as bv32) & 0x8000 == 0
    ensures (b as bv32) & 0x10000 == 0 && (b as bv32) & 0x20000 == 0 && (b as bv32) & 0x40000 == 0 && (b as bv32) & 0x80000 == 0
    ensures (b as bv32) & 0x100000 == 0 && (b as bv32) & 0x200000 == 0 && (b as bv32) & 0x400000 == 0 && (b as bv32) & 0x800000 == 0
    ensures (b as bv32) & 0x1000000 == 0 && (b as bv32) & 0x2000000 == 0 && (b as bv32) & 0x4000000 == 0 && (b as bv32) & 0x8000000 == 0
    ensures (b as bv32) & 0x10000000 == 0 && (b as bv32) & 0x20000000 == 0 && (b as bv32) & 0x40000000 == 0 && (b as bv32) & 0x80000000 == 0
  {
  }

  lemma {:induction false} HoldsXor(x: bv32, y: bv32, s: Bits, t: Bits)
    requires Holds(x, s) && Holds(y, t)
    ensures Holds(x ^ y, Xor(s, t))
  {
    hide Xor;
    XorIndex(s, t);
    XorWordBits(x, y);
  }

  lemma {:induction false} HoldsShift(c: bv32, s: Bits)
    requires Holds(c, s)
    ensures Holds(c >> 1, s[1..] + [false])
  {
    ShiftWordBits(c);
  }

  lemma {:induction false} HoldsByte(b: byte)
    ensures Holds(b as bv32, LsbBits(b) + Zeros(24))
  {
    ByteWordBits(b);
  }

  lemma {:induction false} HoldsUniqueLow(x: bv32, s: Bits, t: Bits, i: int)
    requires Holds(x, s) && Holds(x, t) && 0 <= i < 16
    ensures s[i] == t[i]
  {
    if i == 0 {} else if i == 1 {} else if i == 2 {} else if i == 3 {} else if i == 4 {} else if i == 5 {} else if i == 6 {} else if i == 7 {} else if i == 8 {} else if i == 9 {} else if i == 10 {} else if i == 11 {} else if i == 12 {} else if i == 13 {} else if i == 14 {} else {}
  }

  lemma {:induction false} HoldsUniqueHigh(x: bv32, s: Bits, t: Bits, i: int)
    requires Holds(x, s) && Holds(x, t) && 16 <= i < 32
    ensures s[i] == t[i]
  {
    if i == 16 {} else if i == 17 {} else if i == 18 {} else if i == 19 {} else if i == 20 {} else if i == 21 {} else if i == 22 {} else if i == 23 {} else if i == 24 {} else if i == 25 {} else if i == 26 {} else if i == 27 {} else if i == 28 {} else if i == 29 {} else if i == 30 {} else {}
  }

  lemma {:induction false} HoldsUnique(x: bv32, s: Bits, t: Bits)
    requires Holds(x, s) && Holds(x, t)
    ensures s == t
  {
    assert |s| == |t| == 32;
    forall i | 0 <= i < 32
      ensures s[i] == t[i]
    {
      if i < 16 { HoldsUniqueLow(x, s, t, i); } else { HoldsUniqueHigh(x, s, t, i); }
    }
  }

  // ----- the register -----

  /** One turn of the inner loop: crc = (crc >> 1) ^ (0xEDB88320 & -(crc & 1)). */
  function Step(c: bv32): bv32 {
    if c & 1 != 0 then (c >> 1) ^ 0xEDB88320 else c >> 1
  }

  function Steps(c: bv32, k: nat): bv32
    decreases k
  {
    if k == 0 then c else Step(Steps(c, k - 1))
  }

  /** The register after a byte string. */
  function State(data: seq<byte>): bv32
    decreases |data|
  {
    if data == [] then 0xFFFFFFFF else Steps(State(data[..|data| - 1]) ^ (data[|data| - 1] as bv32), 8)
  }

  /** Hashing.Crc32 */
  function Checksum(data: seq<byte>): bv32 {
    Complement(State(data))
  }

  function Complement(x: bv32): bv32 {
    !x
  }

  /** The two loops of Hashing.Crc32. */
  method ComputeCrc32(data: seq<byte>) returns (crc: bv32)
    ensures crc == Checksum(data)
  {
    hide Steps, Complement;
    crc := 0xFFFFFFFF;
    for n := 0 to |data|
      invariant crc == State(data[..n])
    {
      StateSnoc(data, n);
      crc := EightTurns(crc ^ (data[n] as bv32));
    }
    assert data[..|data|] == data;
    crc := Complement(crc);
  }

  lemma {:induction false} StateSnoc(data: seq<byte>, n: nat)
    requires n < |data|
    ensures State(data[..n + 1]) == Steps(State(data[..n]) ^ (data[n] as bv32), 8)
  {
    hide Steps;
    assert data[..n + 1][..n] == data[..n];
  }

  /** The inner loop. */
  method EightTurns(start: bv32) returns (crc: bv32)
    ensures crc == Steps(start, 8)
  {
    hide Step;
    crc := start;
    for i := 0 to 8
      invariant crc == Steps(start, i)
    {
      MaskForm(crc);
      crc := (crc >> 1) ^ (0xEDB88320 & (0 - (crc & 1)));
    }
  }

  lemma {:induction false} MaskForm(c: bv32)
    ensures (c >> 1) ^ (0xEDB88320 & (0 - (c & 1))) == Step(c)
  {
    LowBit(c);
    if c & 1 != 0 {
      assert 0 - (1 as bv32) == 0xFFFFFFFF;
      assert (0xEDB88320 as bv32) & 0xFFFFFFFF == 0xEDB88320;
    } else {
      assert (0xEDB88320 as bv32) & 0 == 0;
      XorNothing(c >> 1);
    }
  }

  lemma {:induction false} LowBit(c: bv32)
    ensures c & 1 == 0 || c & 1 == 1
  {
  }

  lemma {:induction false} XorNothing(x: bv32)
    ensures x ^ 0 == x
  {
  }

  lemma {:induction false} GeneratorWord()
    ensures |GENERATOR| == 32 && GENERATOR[31] && Holds(0xEDB88320, GENERATOR)
  {
  }

  lemma {:induction false} HoldsStep(c: bv32, s: Bits)
    requires Holds(c, s)
    ensures |s| == |GENERATOR| == 32 && Holds(Step(c), Clock(GENERATOR, s, false))
  {
    StepCases(c, s, c >> 1);
  }

  lemma {:induction false} StepCases(c: bv32, s: Bits, shifted: bv32)
    requires Holds(c, s) && shifted == c >> 1
    ensures |s| == |GENERATOR| == 32
    ensures Holds(if c & 1 != 0 then shifted ^ 0xEDB88320 else shifted, Clock(GENERATOR, s, false))
  {
    hide Xor, GENERATOR;
    HoldsShift(c, s);
    GeneratorWord();
    FirstBit(c, s);
    if s[0] {
      HoldsXor(shifted, 0xEDB88320, s[1..] + [false], GENERATOR);
    } else {
      XorZero(s[1..] + [false]);
    }
  }

  lemma {:induction false} FirstBit(c: bv32, s: Bits)
    requires Holds(c, s)
    ensures |s| == 32 && s[0] == (c & 1 != 0)
  {
  }

  lemma {:induction false} HoldsSteps(c: bv32, s: Bits, k: nat)
    requires Holds(c, s)
    ensures |s| == |GENERATOR| == 32 && Holds(Steps(c, k), Feed(GENERATOR, s, Zeros(k)))
    decreases k
  {
    hide Holds, Clock, Step, GENERATOR;
    GeneratorWord();
    FirstBit(c, s);
    if k > 0 {
      HoldsSteps(c, s, k - 1);
      HoldsStep(Steps(c, k - 1), Feed(GENERATOR, s, Zeros(k - 1)));
      ZerosSucc(k - 1);
    }
  }

  /** Xoring a byte into the register and eight turns feed the byte's bits. */
  lemma {:induction false} HoldsByteStep(c: bv32, s: Bits, b: byte)
    requires Holds(c, s)
    ensures |s| == |GENERATOR| == 32 && Holds(Steps(c ^ (b as bv32), 8), Feed(GENERATOR, s, LsbBits(b)))
  {
    hide Holds, Steps, GENERATOR, Feed, LsbBits, Zeros, Xor;
    GeneratorWord();
    FirstBit(c, s);
    HoldsByte(b);
    HoldsXor(c, b as bv32, s, LsbBits(b) + Zeros(24));
    HoldsSteps(c ^ (b as bv32), Xor(s, LsbBits(b) + Zeros(24)), 8);
    InjectUpFront(GENERATOR, s, LsbBits(b));
  }

  const INITIAL: Bits := seq(32, _ => true)

  lemma {:induction false} InitialWord()
    ensures |INITIAL| == 32 && Holds(0xFFFFFFFF, INITIAL)
  {
  }

  /** The register holds the remainder of the message, started from all ones. */
  lemma {:induction false} HoldsState(data: seq<byte>)
    ensures |GENERATOR| == |INITIAL| == 32 && Holds(State(data), Feed(GENERATOR, INITIAL, LsbStream(data)))
    decreases |data|
  {
    hide Holds, Steps, GENERATOR, INITIAL, LsbBits, Clock;
    GeneratorWord();
    InitialWord();
    if data != [] {
      var n := |data| - 1;
      HoldsState(data[..n]);
      HoldsByteStep(State(data[..n]), Feed(GENERATOR, INITIAL, LsbStream(data[..n])), data[n]);
      FeedConcat(GENERATOR, INITIAL, LsbStream(data[..n]), LsbBits(data[n]));
    }
  }

  // ----- changes within four bytes -----

  lemma {:induction false} StreamConcat(a: seq<byte>, b: seq<byte>)
    ensures LsbStream(a + b) == LsbStream(a) + LsbStream(b)
    decreases |b|
  {
    if b == [] {
      assert a + b == a;
    } else {
      var n := |b| - 1;
      assert (a + b)[..|a| + n] == a + b[..n];
      StreamConcat(a, b[..n]);
    }
  }

  lemma {:induction false} LsbInjective(a: byte, b: byte)
    requires LsbBits(a) == LsbBits(b)
    ensures a == b
  {
    forall j | 0 <= j < 8
      ensures BitAt(a, j) == BitAt(b, j)
    {
      assert LsbBits(a)[7 - j] == LsbBits(b)[7 - j];
    }
    ByteExtensional(a, b);
  }

  lemma {:induction false} StreamInjective(a: seq<byte>, b: seq<byte>)
    requires |a| == |b| && LsbStream(a) == LsbStream(b)
    ensures a == b
    decreases |a|
  {
    hide LsbBits;
    if a != [] {
      var n := |a| - 1;
      var s, t := LsbStream(a), LsbStream(b);
      assert s[..8 * n] == LsbStream(a[..n]) && t[..8 * n] == LsbStream(b[..n]);
      assert s[8 * n..] == LsbBits(a[n]) && t[8 * n..] == LsbBits(b[n]);
      StreamInjective(a[..n], b[..n]);
      LsbInjective(a[n], b[n]);
      assert a == a[..n] + [a[n]] && b == b[..n] + [b[n]];
    }
  }

  lemma {:induction false} NonZeroXor(a: Bits, b: Bits)
    requires |a| == |b| && a != b
    ensures !IsZero(Xor(a, b))
  {
    XorIndex(a, b);
    var i :| 0 <= i < |a| && a[i] != b[i];
    assert Xor(a, b)[i];
  }

  /** A non-zero difference of at most 32 bits leaves a non-zero register. */
  lemma {:induction false} DifferenceSurvives(before: nat, w: Bits, after: nat)
    requires |w| <= 32 && !IsZero(w)
    ensures |GENERATOR| == 32 && !IsZero(Feed(GENERATOR, Zeros(32), Zeros(before) + w + Zeros(after)))
  {
    hide GENERATOR, Feed, Remainder, Zeros, IsZero;
    GeneratorWord();
    var e := Zeros(before) + w + Zeros(after);
    FeedIsDivision(GENERATOR, e);
    PadInTwo(Zeros(before) + w, after, 32);
    WindowDetected(GENERATOR, before, w, after + 32);
  }

  /** Strings that share a prefix and a suffix and differ in at most four bytes between have
      different checksums. */
  lemma {:induction false} WindowChangesCrc(prefix: seq<byte>, a: seq<byte>, b: seq<byte>, suffix: seq<byte>)
    requires |a| == |b| <= 4 && a != b
    ensures Checksum(prefix + a + suffix) != Checksum(prefix + b + suffix)
  {
    hide GENERATOR, INITIAL, Feed, LsbStream, Holds, State, Xor, Zeros, IsZero, Complement;
    var x, y := prefix + a + suffix, prefix + b + suffix;
    var p, s, wa, wb := LsbStream(prefix), LsbStream(suffix), LsbStream(a), LsbStream(b);
    StreamConcat(prefix + a, suffix);
    StreamConcat(prefix, a);
    StreamConcat(prefix + b, suffix);
    StreamConcat(prefix, b);
    HoldsState(x);
    HoldsState(y);
    GeneratorWord();
    var fx, fy := Feed(GENERATOR, INITIAL, LsbStream(x)), Feed(GENERATOR, INITIAL, LsbStream(y));
    if wa == wb {
      StreamInjective(a, b);
    }
    NonZeroXor(wa, wb);
    FeedLinear(GENERATOR, INITIAL, INITIAL, LsbStream(x), LsbStream(y));
    XorSelf(INITIAL);
    XorConcat(p + wa, s, p + wb, s);
    XorConcat(p, wa, p, wb);
    XorSelf(p);
    XorSelf(s);
    DifferenceSurvives(|p|, Xor(wa, wb), |s|);
    if State(x) == State(y) {
      HoldsUnique(State(x), fx, fy);
      XorSelf(fx);
      ZerosAreZero(32);
    }
    ComplementInjective(State(x), State(y));
  }

  lemma {:induction false} ZerosAreZero(n: nat)
    ensures IsZero(Zeros(n))
  {
  }

  lemma {:induction false} ComplementInjective(x: bv32, y: bv32)
    requires x != y
    ensures Complement(x) != Complement(y)
  {
    hide Complement;
    ComplementTwice(x);
    ComplementTwice(y);
  }

  lemma {:induction false} ComplementTwice(x: bv32)
    ensures Complement(Complement(x)) == x
  {
  }

  // ----- the checksum itself -----

  function Negated(s: Bits): (t: Bits)
    ensures |t| == |s| && forall i :: 0 <= i < |s| ==> t[i] == !s[i]
  {
    seq(|s|, i requires 0 <= i < |s| => !s[i])
  }

  lemma {:induction false} NotWordBits(x: bv32)
    ensures (!x & 0x1 != 0) == (x & 0x1 == 0)
    ensures (!x & 0x2 != 0) == (x & 0x2 == 0)
    ensures (!x & 0x4 != 0) == (x & 0x4 == 0)
    ensures (!x & 0x8 != 0) == (x & 0x8 == 0)
    ensures (!x & 0x10 != 0) == (x & 0x10 == 0)
    ensures (!x & 0x20 != 0) == (x & 0x20 == 0)
    ensures (!x & 0x40 != 0) == (x & 0x40 == 0)
    ensures (!x & 0x80 != 0) == (x & 0x80 == 0)
    ensures (!x & 0x100 != 0) == (x & 0x100 == 0)
    ensures (!x & 0x200 != 0) == (x & 0x200 == 0)
    ensures (!x & 0x400 != 0) == (x & 0x400 == 0)
    ensures (!x & 0x800 != 0) == (x & 0x800 == 0)
    ensures (!x & 0x1000 != 0) == (x & 0x1000 == 0)
    ensures (!x & 0x2000 != 0) == (x & 0x2000 == 0)
    ensures (!x & 0x4000 != 0) == (x & 0x4000 == 0)
    ensures (!x & 0x8000 != 0) == (x & 0x8000 == 0)
    ensures (!x & 0x10000 != 0) == (x & 0x10000 == 0)
    ensures (!x & 0x20000 != 0) == (x & 0x20000 == 0)
    ensures (!x & 0x40000 != 0) == (x & 0x40000 == 0)
    ensures (!x & 0x80000 != 0) == (x & 0x80000 == 0)
    ensures (!x & 0x100000 != 0) == (x & 0x100000 == 0)
    ensures (!x & 0x200000 != 0) == (x & 0x200000 == 0)
    ensures (!x & 0x400000 != 0) == (x & 0x400000 == 0)
    ensures (!x & 0x800000 != 0) == (x & 0x800000 == 0)
    ensures (!x & 0x1000000 != 0) == (x & 0x1000000 == 0)
    ensures (!x & 0x2000000 != 0) == (x & 0x2000000 == 0)
    ensures (!x & 0x4000000 != 0) == (x & 0x4000000 == 0)
    ensures (!x & 0x8000000 != 0) == (x & 0x8000000 == 0)
    ensures (!x & 0x10000000 != 0) == (x & 0x10000000 == 0)
    ensures (!x & 0x20000000 != 0) == (x & 0x20000000 == 0)
    ensures (!x & 0x40000000 != 0) == (x & 0x40000000 == 0)
    ensures (!x & 0x80000000 != 0) == (x & 0x80000000 == 0)
  {
  }

  lemma {:induction false} HoldsNot(x: bv32, s: Bits)
    requires Holds(x, s)
    ensures Holds(!x, Negated(s))
  {
    NotWordBits(x);
  }

  /** The checksum holds the inverted bits of the remainder of the message, started from all ones. */
  lemma {:induction false} ChecksumBits(data: seq<byte>)
    ensures |GENERATOR| == |INITIAL| == 32 && Holds(Checksum(data), Negated(Feed(GENERATOR, INITIAL, LsbStream(data))))
  {
    hide Holds, Feed, GENERATOR, INITIAL, State, LsbStream, Negated;
    HoldsState(data);
    HoldsNot(State(data), Feed(GENERATOR, INITIAL, LsbStream(data)));
  }

  predicate SameBits(x: bv32, y: bv32) {
    && (x & 0x1 != 0) == (y & 0x1 != 0) && (x & 0x2 != 0) == (y & 0x2 != 0) && (x & 0x4 != 0) == (y & 0x4 != 0) && (x & 0x8 != 0) == (y & 0x8 != 0)
    && (x & 0x10 != 0) == (y & 0x10 != 0) && (x & 0x20 != 0) == (y & 0x20 != 0) && (x & 0x40 != 0) == (y & 0x40 != 0) && (x & 0x80 != 0) == (y & 0x80 != 0)
    && (x & 0x100 != 0) == (y & 0x100 != 0) && (x & 0x200 != 0) == (y & 0x200 != 0) && (x & 0x400 != 0) == (y & 0x400 != 0) && (x & 0x800 != 0) == (y & 0x800 != 0)
    && (x & 0x1000 != 0) == (y & 0x1000 != 0) && (x & 0x2000 != 0) == (y & 0x2000 != 0) && (x & 0x4000 != 0) == (y & 0x4000 != 0) && (x & 0x8000 != 0) == (y & 0x8000 != 0)
    && (x & 0x10000 != 0) == (y & 0x10000 != 0) && (x & 0x20000 != 0) == (y & 0x20000 != 0) && (x & 0x40000 != 0) == (y & 0x40000 != 0) && (x & 0x80000 != 0) == (y & 0x80000 != 0)
    && (x & 0x100000 != 0) == (y & 0x100000 != 0) && (x & 0x200000 != 0) == (y & 0x200000 != 0) && (x & 0x400000 != 0) == (y & 0x400000 != 0) && (x & 0x800000 != 0) == (y & 0x800000 != 0)
    && (x & 0x1000000 != 0) == (y & 0x1000000 != 0) && (x & 0x2000000 != 0) == (y & 0x2000000 != 0) && (x & 0x4000000 != 0) == (y & 0x4000000 != 0) && (x & 0x8000000 != 0) == (y & 0x8000000 != 0)
    && (x & 0x10000000 != 0) == (y & 0x10000000 != 0) && (x & 0x20000000 != 0) == (y & 0x20000000 != 0) && (x & 0x40000000 != 0) == (y & 0x40000000 != 0) && (x & 0x80000000 != 0) == (y & 0x80000000 != 0)
  }

  lemma {:induction false} WordOfMasks(x: bv32, y: bv32)
    requires SameBits(x, y)
    ensures x == y
  {
  }

  lemma {:induction false} SharedBits(x: bv32, y: bv32, s: Bits)
    requires Holds(x, s) && Holds(y, s)
    ensures SameBits(x, y)
  {
  }

  /** A word is determined by its bits. */
  lemma {:induction false} WordUnique(x: bv32, y: bv32, s: Bits)
    requires Holds(x, s) && Holds(y, s)
    ensures x == y
  {
    hide Holds, SameBits;
    SharedBits(x, y, s);
    WordOfMasks(x, y);
  }

  /** The four bytes of a word, least significant first. */
  function LittleEndian(x: bv32): (s: seq<byte>)
    ensures |s| == 4
  {
    [(x & 0xFF) as byte, ((x >> 8) & 0xFF) as byte, ((x >> 16) & 0xFF) as byte, ((x >> 24) & 0xFF) as byte]
  }

  lemma {:induction false} ByteOfWord0(x: bv32)
    ensures BitAt(((x >> 0) & 0xFF) as byte, 7) == (x & 0x1 != 0)
    ensures BitAt(((x >> 0) & 0xFF) as byte, 6) == (x & 0x2 != 0)
    ensures BitAt(((x >> 0) & 0xFF) as byte, 5) == (x & 0x4 != 0)
    ensures BitAt(((x >> 0) & 0xFF) as byte, 4) == (x & 0x8 != 0)
    ensures BitAt(((x >> 0) & 0xFF) as byte, 3) == (x & 0x10 != 0)
    ensures BitAt(((x >> 0) & 0xFF) as byte, 2) == (x & 0x20 != 0)
    ensures BitAt(((x >> 0) & 0xFF) as byte, 1) == (x & 0x40 != 0)
    ensures BitAt(((x >> 0) & 0xFF) as byte, 0) == (x & 0x80 != 0)
  {
  }

  lemma {:induction false} ByteOfWord1(x: bv32)
    ensures BitAt(((x >> 8) & 0xFF) as byte, 7) == (x & 0x100 != 0)
    ensures BitAt(((x >> 8) & 0xFF) as byte, 6) == (x & 0x200 != 0)
    ensures BitAt(((x >> 8) & 0xFF) as byte, 5) == (x & 0x400 != 0)
    ensures BitAt(((x >> 8) & 0xFF) as byte, 4) == (x & 0x800 != 0)
    ensures BitAt(((x >> 8) & 0xFF) as byte, 3) == (x & 0x1000 != 0)
    ensures BitAt(((x >> 8) & 0xFF) as byte, 2) == (x & 0x2000 != 0)
    ensures BitAt(((x >> 8) & 0xFF) as byte, 1) == (x & 0x4000 != 0)
    ensures BitAt(((x >> 8) & 0xFF) as byte, 0) == (x & 0x8000 != 0)
  {
  }

  lemma {:induction false} ByteOfWord2(x: bv32)
    ensures BitAt(((x >> 16) & 0xFF) as byte, 7) == (x & 0x10000 != 0)
    ensures BitAt(((x >> 16) & 0xFF) as byte, 6) == (x & 0x20000 != 0)
    ensures BitAt(((x >> 16) & 0xFF) as byte, 5) == (x & 0x40000 != 0)
    ensures BitAt(((x >> 16) & 0xFF) as byte, 4) == (x & 0x80000 != 0)
    ensures BitAt(((x >> 16) & 0xFF) as byte, 3) == (x & 0x100000 != 0)
    ensures BitAt(((x >> 16) & 0xFF) as byte, 2) == (x & 0x200000 != 0)
    ensures BitAt(((x >> 16) & 0xFF) as byte, 1) == (x & 0x400000 != 0)
    ensures BitAt(((x >> 16) & 0xFF) as byte, 0) == (x & 0x800000 != 0)
  {
  }

  lemma {:induction false} ByteOfWord3(x: bv32)
    ensures BitAt(((x >> 24) & 0xFF) as byte, 7) == (x & 0x1000000 != 0)
    ensures BitAt(((x >> 24) & 0xFF) as byte, 6) == (x & 0x2000000 != 0)
    ensures BitAt(((x >> 24) & 0xFF) as byte, 5) == (x & 0x4000000 != 0)
    ensures BitAt(((x >> 24) & 0xFF) as byte, 4) == (x & 0x8000000 != 0)
    ensures BitAt(((x >> 24) & 0xFF) as byte, 3) == (x & 0x10000000 != 0)
    ensures BitAt(((x >> 24) & 0xFF) as byte, 2) == (x & 0x20000000 != 0)
    ensures BitAt(((x >> 24) & 0xFF) as byte, 1) == (x & 0x40000000 != 0)
    ensures BitAt(((x >> 24) & 0xFF) as byte, 0) == (x & 0x80000000 != 0)
  {
  }

  predicate Octet0(x: bv32, p: Bits) {
    && |p| == 8
    && p[0] == (x & 0x1 != 0) && p[1] == (x & 0x2 != 0) && p[2] == (x & 0x4 != 0) && p[3] == (x & 0x8 != 0)
    && p[4] == (x & 0x10 != 0) && p[5] == (x & 0x20 != 0) && p[6] == (x & 0x40 != 0) && p[7] == (x & 0x80 != 0)
  }

  lemma {:induction false} OctetBits0(x: bv32)
    ensures Octet0(x, LsbBits(LittleEndian(x)[0]))
  {
    hide BitAt;
    NoShift(x);
    ByteOfWord0(x);
  }

  predicate Octet1(x: bv32, p: Bits) {
    && |p| == 8
    && p[0] == (x & 0x100 != 0) && p[1] == (x & 0x200 != 0) && p[2] == (x & 0x400 != 0) && p[3] == (x & 0x800 != 0)
    && p[4] == (x & 0x1000 != 0) && p[5] == (x & 0x2000 != 0) && p[6] == (x & 0x4000 != 0) && p[7] == (x & 0x8000 != 0)
  }

  lemma {:induction false} OctetBits1(x: bv32)
    ensures Octet1(x, LsbBits(LittleEndian(x)[1]))
  {
    hide BitAt;
    ByteOfWord1(x);
  }

  predicate Octet2(x: bv32, p: Bits) {
    && |p| == 8
    && p[0] == (x & 0x10000 != 0) && p[1] == (x & 0x20000 != 0) && p[2] == (x & 0x40000 != 0) && p[3] == (x & 0x80000 != 0)
    && p[4] == (x & 0x100000 != 0) && p[5] == (x & 0x200000 != 0) && p[6] == (x & 0x400000 != 0) && p[7] == (x & 0x800000 != 0)
  }

  lemma {:induction false} OctetBits2(x: bv32)
    ensures Octet2(x, LsbBits(LittleEndian(x)[2]))
  {
    hide BitAt;
    ByteOfWord2(x);
  }

  predicate Octet3(x: bv32, p: Bits) {
    && |p| == 8
    && p[0] == (x & 0x1000000 != 0) && p[1] == (x & 0x2000000 != 0) && p[2] == (x & 0x4000000 != 0) && p[3] == (x & 0x8000000 != 0)
    && p[4] == (x & 0x10000000 != 0) && p[5] == (x & 0x20000000 != 0) && p[6] == (x & 0x40000000 != 0) && p[7] == (x & 0x80000000 != 0)
  }

  lemma {:induction false} OctetBits3(x: bv32)
    ensures Octet3(x, LsbBits(LittleEndian(x)[3]))
  {
    hide BitAt;
    ByteOfWord3(x);
  }

  lemma {:induction false} NoShift(x: bv32)
    ensures x >> 0 == x
  {
  }

  lemma {:induction false} HoldsOctets(x: bv32, p: Bits, q: Bits, r: Bits, t: Bits)
    requires Octet0(x, p) && Octet1(x, q) && Octet2(x, r) && Octet3(x, t)
    ensures Holds(x, p + q + r + t)
  {
  }

  lemma {:induction false} HoldsLittleEndian(x: bv32)
    ensures Holds(x, LsbBits(LittleEndian(x)[0]) + LsbBits(LittleEndian(x)[1]) + LsbBits(LittleEndian(x)[2]) + LsbBits(LittleEndian(x)[3]))
  {
    hide Octet0, Octet1, Octet2, Octet3, Holds, LsbBits, LittleEndian;
    OctetBits0(x);
    OctetBits1(x);
    OctetBits2(x);
    OctetBits3(x);
    HoldsOctets(x, LsbBits(LittleEndian(x)[0]), LsbBits(LittleEndian(x)[1]), LsbBits(LittleEndian(x)[2]), LsbBits(LittleEndian(x)[3]));
  }

  lemma {:induction false} FourBytesStream(s: seq<byte>)
    requires |s| == 4
    ensures LsbStream(s) == LsbBits(s[0]) + LsbBits(s[1]) + LsbBits(s[2]) + LsbBits(s[3])
  {
    hide LsbBits;
    assert s[..3][..2] == s[..2] && s[..2][..1] == s[..1] && s[..1][..0] == [];
    assert LsbStream(s[..1]) == LsbBits(s[0]);
    assert LsbStream(s[..2]) == LsbStream(s[..1]) + LsbBits(s[1]);
    assert LsbStream(s[..3]) == LsbStream(s[..2]) + LsbBits(s[2]);
  }

  lemma {:induction false} WithNegation(r: Bits)
    requires |r| == 32
    ensures Xor(r, Negated(r) + Zeros(0)) == INITIAL
  {
  }

  lemma {:induction false} ThirtyTwoSteps()
    ensures Steps(0xFFFFFFFF, 32) == 0xDEBB20E3
  {
    assert Steps(0xFFFFFFFF, 8) == 0x2DFD1072;
    assert Steps(0xFFFFFFFF, 16) == 0xBE26ED00;
    assert Steps(0xFFFFFFFF, 24) == 0x00BE26ED;
    assert Steps(0xFFFFFFFF, 32) == 0xDEBB20E3;
  }

  /** The residue: after a message and its checksum, least significant byte first, the register is the same constant always. */
  lemma {:induction false} ResidueIsConstant(data: seq<byte>)
    ensures State(data + LittleEndian(Checksum(data))) == 0xDEBB20E3
  {
    hide Holds, Feed, GENERATOR, INITIAL, State, LsbStream, Negated, LittleEndian, LsbBits, Steps, Xor, Checksum;
    var c, tail := Checksum(data), LittleEndian(Checksum(data));
    GeneratorWord();
    InitialWord();
    HoldsState(data);
    HoldsState(data + tail);
    ChecksumBits(data);
    var r := Feed(GENERATOR, INITIAL, LsbStream(data));
    FourBytesStream(tail);
    HoldsLittleEndian(c);
    HoldsUnique(c, LsbStream(tail), Negated(r));
    StreamConcat(data, tail);
    FeedConcat(GENERATOR, INITIAL, LsbStream(data), LsbStream(tail));
    InjectUpFront(GENERATOR, r, LsbStream(tail));
    WithNegation(r);
    HoldsSteps(0xFFFFFFFF, INITIAL, 32);
    ThirtyTwoSteps();
    WordUnique(State(data + tail), 0xDEBB20E3, Feed(GENERATOR, INITIAL, Zeros(32)));
  }

  lemma {:induction false} KnownSteps()
    ensures Steps(0xFFFFFFFF ^ ((0x31 as byte) as bv32), 8) == 0x7C231048
    ensures Steps(0x7C231048 ^ ((0x32 as byte) as bv32), 8) == 0xB0ACBB32
    ensures Steps(0xB0ACBB32 ^ ((0x33 as byte) as bv32), 8) == 0x77B79C2D
    ensures Steps(0x77B79C2D ^ ((0x34 as byte) as bv32), 8) == 0x641C1F5C
    ensures Steps(0x641C1F5C ^ ((0x35 as byte) as bv32), 8) == 0x340AC5E3
    ensures Steps(0x340AC5E3 ^ ((0x36 as byte) as bv32), 8) == 0xF68D2C9E
    ensures Steps(0xF68D2C9E ^ ((0x37 as byte) as bv32), 8) == 0xAFFC9660
    ensures Steps(0xAFFC9660 ^ ((0x38 as byte) as bv32), 8) == 0x651F2550
    ensures Steps(0x651F2550 ^ ((0x39 as byte) as bv32), 8) == 0x340BC6D9
  {
  }

  /** The check value of the algorithm: the checksum of the nine digits 1 to 9; and that of nothing. */
  lemma {:induction false} KnownVector()
    ensures Checksum([0x31, 0x32, 0x33, 0x34, 0x35, 0x36, 0x37, 0x38, 0x39]) == 0xCBF43926 && Checksum([]) == 0
  {
    hide Steps;
    var d: seq<byte> := [0x31, 0x32, 0x33, 0x34, 0x35, 0x36, 0x37, 0x38, 0x39];
    KnownSteps();
    assert d[..0] == [];
    StateSnoc(d, 0);
    assert State(d[..1]) == 0x7C231048;
    StateSnoc(d, 1);
    assert State(d[..2]) == 0xB0ACBB32;
    StateSnoc(d, 2);
    assert State(d[..3]) == 0x77B79C2D;
    StateSnoc(d, 3);
    assert State(d[..4]) == 0x641C1F5C;
    StateSnoc(d, 4);
    assert State(d[..5]) == 0x340AC5E3;
    StateSnoc(d, 5);
    assert State(d[..6]) == 0xF68D2C9E;
    StateSnoc(d, 6);
    assert State(d[..7]) == 0xAFFC9660;
    StateSnoc(d, 7);
    assert State(d[..8]) == 0x651F2550;
    StateSnoc(d, 8);
    assert State(d[..9]) == 0x340BC6D9;
    assert d[..9] == d;
  }
}
