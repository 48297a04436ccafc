/** Bit strings: vectors over GF(2), polynomials and symbol blocks alike. */
module BitStrings {
  type Bits = seq<bool>

  function Zeros(n: nat): (z: Bits)
    ensures |z| == n
  {
    seq(n, _ => false)
  }

  predicate IsZero(a: Bits) {
    forall i :: 0 <= i < |a| ==> !a[i]
  }

  function Xor(a: Bits, b: Bits): (r: Bits)
    requires |a| == |b|
    ensures |r| == |a|
  {
    seq(|a|, i requires 0 <= i < |a| => a[i] != b[i])
  }

  lemma {:induction false} XorIndex(a: Bits, b: Bits)
    requires |a| == |b|
    ensures forall i :: 0 <= i < |a| ==> Xor(a, b)[i] == (a[i] != b[i])
  {
  }

  lemma {:induction false} XorZero(a: Bits)
    ensures Xor(a, Zeros(|a|)) == a == Xor(Zeros(|a|), a)
  {
  }

  lemma {:induction false} ZerosSucc(n: nat)
    ensures Zeros(n + 1)[..n] == Zeros(n)
    ensures [false] + Zeros(n) == Zeros(n + 1) == Zeros(n) + [false]
  {
  }

  lemma {:induction false} XorPrefix(a: Bits, b: Bits, m: nat)
    requires |a| == |b| && m <= |a|
    ensures Xor(a, b)[..m] == Xor(a[..m], b[..m])
  {
  }

  /** (a + b) + (c + d) = (a + c) + (b + d). */
  lemma {:induction false} XorExchange(a: Bits, b: Bits, c: Bits, d: Bits)
    requires |a| == |b| == |c| == |d|
    ensures Xor(Xor(a, b), Xor(c, d)) == Xor(Xor(a, c), Xor(b, d))
  {
    hide Xor;
    XorIndex(a, b);
    XorIndex(c, d);
    XorIndex(a, c);
    XorIndex(b, d);
    XorIndex(Xor(a, b), Xor(c, d));
    XorIndex(Xor(a, c), Xor(b, d));
    var x, y := Xor(Xor(a, b), Xor(c, d)), Xor(Xor(a, c), Xor(b, d));
    forall i | 0 <= i < |a|
      ensures x[i] == y[i]
    {
    }
  }

  lemma {:induction false} XorConcat(a: Bits, b: Bits, c: Bits, d: Bits)
    requires |a| == |c| && |b| == |d|
    ensures Xor(a + b, c + d) == Xor(a, c) + Xor(b, d)
  {
  }

  lemma {:induction false} XorSelf(a: Bits)
    ensures Xor(a, a) == Zeros(|a|)
  {
  }

  lemma {:induction false} ZerosSum(m: nat, n: nat)
    ensures Zeros(m) + Zeros(n) == Zeros(m + n)
  {
  }

  /** The constant polynomial 1 in n places. */
  function One(n: nat): (s: Bits)
    requires n > 0
    ensures |s| == n
  {
    Zeros(n - 1) + [true]
  }

  /** How many ones a string has. */
  function Weight(a: Bits): (w: nat)
    ensures w <= |a|
  {
    if a == [] then 0 else Weight(a[..|a| - 1]) + if a[|a| - 1] then 1 else 0
  }

  lemma {:induction false} WeightZero(a: Bits)
    ensures Weight(a) == 0 <==> IsZero(a)
    ensures Weight(a) == 0 ==> a == Zeros(|a|)
    decreases |a|
  {
    if a != [] {
      WeightZero(a[..|a| - 1]);
      assert a == a[..|a| - 1] + [a[|a| - 1]];
    }
  }

  /** A string with a single one. */
  lemma {:induction false} OneOne(a: Bits) returns (i: nat)
    requires Weight(a) == 1
    ensures i < |a| && a == Zeros(i) + [true] + Zeros(|a| - 1 - i)
    decreases |a|
  {
    var m := |a| - 1;
    assert a == a[..m] + [a[m]];
    if a[m] {
      i := m;
      WeightZero(a[..m]);
    } else {
      i := OneOne(a[..m]);
    }
  }

  /** A string with two ones. */
  lemma {:induction false} TwoOnes(a: Bits) returns (i: nat, j: nat)
    requires Weight(a) == 2
    ensures i < j < |a| && a == Zeros(i) + [true] + Zeros(j - i - 1) + [true] + Zeros(|a| - 1 - j)
    decreases |a|
  {
    var m := |a| - 1;
    assert a == a[..m] + [a[m]];
    if a[m] {
      i := OneOne(a[..m]);
      j := m;
    } else {
      i, j := TwoOnes(a[..m]);
    }
  }
}
