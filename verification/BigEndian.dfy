/** Big-endian integers, as BinaryPrimitives writes and reads them, and the .NET integer ranges. */
module BigEndian {
  import opened BitPacking
  import opened Division

  type U16 = n: nat | n < 0x1_0000
  type U32 = n: nat | n < 0x1_0000_0000
  type U64 = n: nat | n < 0x1_0000_0000_0000_0000
  type I64 = n: int | -0x8000_0000_0000_0000 <= n < 0x8000_0000_0000_0000
  type I32 = n: int | -0x8000_0000 <= n < 0x8000_0000
  /** A Guid, as the sixteen bytes TryWriteBytes(bigEndian: true) gives. */
  type Guid = s: seq<byte> | |s| == 16 witness seq(16, _ => 0)

  function ByteValue(b: byte): (n: nat)
    ensures n < 256
  {
    b as nat
  }

  /** The byte with value n, counted up from zero. */
  function ByteOf(n: nat): byte
    requires n < 256
  {
    if n == 0 then 0 else ByteOf(n - 1) + 1
  }

  lemma {:induction false} NextByte(b: byte)
    requires b as int != 255
    ensures (b + 1) as int == b as int + 1
  {
  }

  lemma {:induction false} ValueOfByte(n: nat)
    requires n < 256
    ensures ByteValue(ByteOf(n)) == n
  {
    if n > 0 {
      ValueOfByte(n - 1);
      NextByte(ByteOf(n - 1));
    }
  }

  lemma {:induction false} BackToByte(b: byte)
    ensures (b as int) as bv8 == b
  {
  }

  lemma {:induction false} ByteOfValue(b: byte)
    ensures ByteOf(ByteValue(b)) == b
  {
    ValueOfByte(ByteValue(b));
    BackToByte(b);
    BackToByte(ByteOf(ByteValue(b)));
  }

  function Pow256(k: nat): (p: nat)
    ensures p > 0
  {
    if k == 0 then 1 else 256 * Pow256(k - 1)
  }

  lemma {:induction false} Widths()
    ensures Pow256(1) == 256 && Pow256(2) == 0x1_0000 && Pow256(4) == 0x1_0000_0000 && Pow256(8) == 0x1_0000_0000_0000_0000
  {
    assert Pow256(3) == 0x100_0000;
    assert Pow256(5) == 0x100_0000_0000;
    assert Pow256(6) == 0x1_0000_0000_0000;
    assert Pow256(7) == 0x100_0000_0000_0000;
  }

  /** The low k bytes of n, most significant first. */
  function Be(n: nat, k: nat): (s: seq<byte>)
    ensures |s| == k
    decreases k
  {
    if k == 0 then [] else Be(n / 256, k - 1) + [ByteOf(n % 256)]
  }

  function Value(s: seq<byte>): nat
    decreases |s|
  {
    if s == [] then 0 else 256 * Value(s[..|s| - 1]) + ByteValue(s[|s| - 1])
  }

  lemma {:induction false} ValueBound(s: seq<byte>)
    ensures Value(s) < Pow256(|s|)
    decreases |s|
  {
    hide ByteValue;
    if s != [] {
      ValueBound(s[..|s| - 1]);
    }
  }

  lemma {:induction false} ValueOfBe(n: nat, k: nat)
    requires n < Pow256(k)
    ensures Value(Be(n, k)) == n
    decreases k
  {
    hide ByteValue, ByteOf;
    if k > 0 {
      ValueOfBe(n / 256, k - 1);
      ValueOfByte(n % 256);
      assert Be(n, k)[..k - 1] == Be(n / 256, k - 1);
    }
  }

  lemma {:induction false} BeOfValue(s: seq<byte>)
    ensures Be(Value(s), |s|) == s
    decreases |s|
  {
    hide ByteValue, ByteOf;
    if s != [] {
      var k := |s| - 1;
      BeOfValue(s[..k]);
      ByteOfValue(s[k]);
      assert Value(s) / 256 == Value(s[..k]) && Value(s) % 256 == ByteValue(s[k]);
      assert s == s[..k] + [s[k]];
    }
  }

  // ----- what the places mean -----

  lemma {:induction false} PowerSum(a: nat, b: nat)
    ensures Pow256(a + b) == Pow256(a) * Pow256(b)
    decreases a
  {
    if a > 0 {
      PowerSum(a - 1, b);
      assert Pow256(a + b) == 256 * Pow256(a - 1 + b);
      Regroup(Pow256(a - 1), Pow256(b));
    }
  }

  lemma {:induction false} Regroup(x: int, y: int)
    ensures 256 * (x * y) == (256 * x) * y
  {
  }

  /** Earlier bytes are more significant. */
  lemma {:induction false} ValueOfConcat(a: seq<byte>, b: seq<byte>)
    ensures Value(a + b) == Value(a) * Pow256(|b|) + Value(b)
    decreases |b|
  {
    hide ByteValue;
    if b == [] {
      assert a + b == a;
    } else {
      var n := |b| - 1;
      ValueOfConcat(a, b[..n]);
      assert (a + b)[..|a| + n] == a + b[..n] && (a + b)[|a| + n] == b[n];
      Regroup2(Value(a), Pow256(n), Value(b[..n]));
    }
  }

  lemma {:induction false} Regroup2(x: int, p: int, y: int)
    ensures 256 * (x * p + y) == x * (256 * p) + 256 * y
  {
  }

  /** The byte that i places stand before counts Pow256(|s| - 1 - i) times its value. */
  function Weighted(s: seq<byte>, i: nat): nat
    requires i < |s|
  {
    ByteValue(s[i]) * Pow256(|s| - 1 - i)
  }

  function WeightedSum(s: seq<byte>, n: nat): nat
    requires n <= |s|
  {
    if n == 0 then 0 else WeightedSum(s, n - 1) + Weighted(s, n - 1)
  }

  lemma {:induction false} PrefixSum(s: seq<byte>, n: nat)
    requires n <= |s|
    ensures WeightedSum(s, n) == Value(s[..n]) * Pow256(|s| - n)
    decreases n
  {
    hide ByteValue;
    if n > 0 {
      PrefixSum(s, n - 1);
      assert s[..n] == s[..n - 1] + [s[n - 1]];
      assert s[..n][..n - 1] == s[..n - 1];
      var p := Pow256(|s| - n);
      assert Pow256(|s| - (n - 1)) == 256 * p;
      Distribute(Value(s[..n - 1]), ByteValue(s[n - 1]), p);
    }
  }

  lemma {:induction false} Distribute(x: int, y: int, p: int)
    ensures x * (256 * p) + y * p == (256 * x + y) * p
  {
  }

  /** The value of a byte string is the sum of its bytes with their place values, the first byte having the largest. */
  lemma {:induction false} ValueIsPlaceSum(s: seq<byte>)
    ensures Value(s) == WeightedSum(s, |s|)
  {
    hide Value;
    PrefixSum(s, |s|);
    assert s[..|s|] == s;
  }

  /** Byte i of k is digit k - 1 - i in base 256: the first byte is the most significant. */
  lemma {:induction false} ByteOfNumber(n: nat, k: nat, i: nat)
    requires i < k
    ensures ByteValue(Be(n, k)[i]) == n / Pow256(k - 1 - i) % 256
    decreases k
  {
    hide ByteValue, ByteOf;
    if i == k - 1 {
      ValueOfByte(n % 256);
      assert Pow256(0) == 1;
    } else {
      ByteOfNumber(n / 256, k - 1, i);
      DivideTwice(n, Pow256(k - 2 - i));
    }
  }

  lemma {:induction false} DivideTwice(n: nat, p: nat)
    requires p > 0
    ensures n / 256 / p == n / (256 * p)
  {
    var q, r := n / 256, n % 256;
    var x, y := q / p, q % p;
    assert n == 256 * q + r && q == p * x + y;
    assert 256 * (p * x) == (256 * p) * x;
    assert n == (256 * p) * x + (256 * y + r);
    assert 0 <= 256 * y + r < 256 * p;
    DivisionUnique(n, 256 * p, x, 256 * y + r);
  }

  // ----- two's complement -----

  function ToUnsigned(n: I64): U64 {
    if n >= 0 then n else n + 0x1_0000_0000_0000_0000
  }

  function ToSigned(n: U64): I64 {
    if n < 0x8000_0000_0000_0000 then n else n - 0x1_0000_0000_0000_0000
  }

  function ToUnsigned32(n: I32): U32 {
    if n >= 0 then n else n + 0x1_0000_0000
  }

  function ToSigned32(n: U32): I32 {
    if n < 0x8000_0000 then n else n - 0x1_0000_0000
  }

  /** The unsigned form is the number modulo the width, and the signed form goes back. */
  lemma {:induction false} TwosComplement(n: I64, m: I32)
    ensures (ToUnsigned(n) - n) % 0x1_0000_0000_0000_0000 == 0 && ToSigned(ToUnsigned(n)) == n
    ensures (ToUnsigned32(m) - m) % 0x1_0000_0000 == 0 && ToSigned32(ToUnsigned32(m)) == m
  {
  }

  // ----- fields -----

  function Read16(s: seq<byte>): U16
    requires |s| == 2
  {
    Widths();
    ValueBound(s);
    Value(s)
  }

  function Read32(s: seq<byte>): U32
    requires |s| == 4
  {
    Widths();
    ValueBound(s);
    Value(s)
  }

  function Read64(s: seq<byte>): U64
    requires |s| == 8
  {
    Widths();
    ValueBound(s);
    Value(s)
  }

  lemma {:induction false} Field16(n: U16)
    ensures Read16(Be(n, 2)) == n
  {
    hide Be, Value;
    Widths();
    ValueOfBe(n, 2);
  }

  lemma {:induction false} Field32(n: U32)
    ensures Read32(Be(n, 4)) == n
  {
    hide Be, Value;
    Widths();
    ValueOfBe(n, 4);
  }

  lemma {:induction false} Field64(n: U64)
    ensures Read64(Be(n, 8)) == n
  {
    hide Be, Value;
    Widths();
    ValueOfBe(n, 8);
  }

  lemma {:induction false} Field16Back(s: seq<byte>)
    requires |s| == 2
    ensures Be(Read16(s), 2) == s
  {
    BeOfValue(s);
  }

  lemma {:induction false} Field32Back(s: seq<byte>)
    requires |s| == 4
    ensures Be(Read32(s), 4) == s
  {
    BeOfValue(s);
  }

  lemma {:induction false} Field64Back(s: seq<byte>)
    requires |s| == 8
    ensures Be(Read64(s), 8) == s
  {
    BeOfValue(s);
  }

  /** A 32-bit word as its value. */
  function WordValue(x: bv32): U32 {
    x as nat
  }

  lemma {:induction false} WordInjective(x: bv32, y: bv32)
    requires WordValue(x) == WordValue(y)
    ensures x == y
  {
    WordBack(x);
    WordBack(y);
  }

  lemma {:induction false} WordBack(x: bv32)
    ensures WordValue(x) as bv32 == x
  {
  }

  // ----- writing into a buffer -----

  /** span.CopyTo and the big-endian writes, at consecutive places of the buffer. */
  method Append(out: array<byte>, at: nat, s: seq<byte>)
    requires at + |s| <= out.Length
    modifies out
    ensures out[..at + |s|] == old(out[..at]) + s
    ensures forall k :: at + |s| <= k < out.Length ==> out[k] == old(out[k])
  {
    for i := 0 to |s|
      invariant out[..at] == old(out[..at]) && forall k :: at + |s| <= k < out.Length ==> out[k] == old(out[k])
      invariant forall j :: 0 <= j < i ==> out[at + j] == s[j]
    {
      out[at + i] := s[i];
    }
  }
}
