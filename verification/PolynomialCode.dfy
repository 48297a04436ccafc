/** Arithmetic of polynomials over GF(2), most significant coefficient first, and the two
    shift-register machines that every CRC of the system is built from.  A generator of degree n
    is written without its leading one, as the n coefficients `g`; the full generator is [true] + g. */
module PolynomialCode {
  import opened BitStrings

  function Tap(g: Bits, on: bool): (t: Bits)
    ensures |t| == |g|
  {
    if on then g else Zeros(|g|)
  }

  /** One step of long division: bring down the coefficient `b`, subtract the generator if the
      coefficient that leaves the register is one. */
  function Bring(g: Bits, r: Bits, b: bool): (r': Bits)
    requires |r| == |g| > 0
    ensures |r'| == |g|
  {
    Xor(r[1..] + [b], Tap(g, r[0]))
  }

  /** Long division of r + bits by [true] + g: the remainder ... */
  function Remainder(g: Bits, r: Bits, bits: Bits): (rem: Bits)
    requires |r| == |g| > 0
    ensures |rem| == |g|
    decreases |bits|
  {
    if bits == [] then r else
      Bring(g, Remainder(g, r, bits[..|bits| - 1]), bits[|bits| - 1])
  }

  /** ... and the quotient. */
  function Quotient(g: Bits, r: Bits, bits: Bits): (q: Bits)
    requires |r| == |g| > 0
    ensures |q| == |bits|
    decreases |bits|
  {
    if bits == [] then [] else
      var front := bits[..|bits| - 1];
      Quotient(g, r, front) + [Remainder(g, r, front)[0]]
  }

  /** The product of q and the full generator [true] + g, by the schoolbook method. */
  function Product(g: Bits, q: Bits): (p: Bits)
    ensures |p| == |q| + |g|
    decreases |q|
  {
    if q == [] then Zeros(|g|) else
      var front, last := q[..|q| - 1], q[|q| - 1];
      Xor(Product(g, front) + [false], Zeros(|front|) + Tap([true] + g, last))
  }

  /** A register step as hardware and the table code do it: the input bit is added to the
      coefficient that is about to leave. */
  function Clock(g: Bits, r: Bits, b: bool): (r': Bits)
    requires |r| == |g| > 0
    ensures |r'| == |g|
  {
    Xor(r[1..] + [false], Tap(g, r[0] != b))
  }

  function Feed(g: Bits, r: Bits, bits: Bits): (r': Bits)
    requires |r| == |g| > 0
    ensures |r'| == |g|
    decreases |bits|
  {
    if bits == [] then r else
      Clock(g, Feed(g, r, bits[..|bits| - 1]), bits[|bits| - 1])
  }

  // ----- division is division -----

  lemma {:induction false} DivisionStep(g: Bits, p: Bits, s: Bits, w: Bits, b: bool, m: nat)
    requires |s| == |g| > 0 && |p| == |w| == m + |g|
    requires Xor(p, Zeros(m) + s) == w
    ensures Xor(Xor(p + [false], Zeros(m) + Tap([true] + g, s[0])), Zeros(m + 1) + Bring(g, s, b)) == w + [b]
  {
    var q, t := Zeros(m) + Tap([true] + g, s[0]), Zeros(m + 1) + Bring(g, s, b);
    var lhs := Xor(Xor(p + [false], q), t);
    forall i | 0 <= i < m + 1 + |g|
      ensures lhs[i] == (w + [b])[i]
    {
      if i < m {
        assert w[i] == p[i] && lhs[i] == p[i];
      } else if i < m + |g| {
        assert w[i] == (p[i] != s[i - m]);
      }
    }
  }

  /** Dividend = quotient * generator + remainder. */
  lemma {:induction false} DivisionIdentity(g: Bits, r: Bits, bits: Bits)
    requires |r| == |g| > 0
    ensures Xor(Product(g, Quotient(g, r, bits)), Zeros(|bits|) + Remainder(g, r, bits)) == r + bits
    decreases |bits|
  {
    hide Bring, Xor, Tap, Zeros, Product, Quotient, Remainder;
    if bits == [] {
      DivisionOfNothing(g, r);
    } else {
      var m := |bits| - 1;
      var front, b := bits[..m], bits[m];
      DivisionIdentity(g, r, front);
      DivisionUnfolds(g, r, bits);
      DivisionStep(g, Product(g, Quotient(g, r, front)), Remainder(g, r, front), r + front, b, m);
      assert (r + front) + [b] == r + bits;
    }
  }

  lemma {:induction false} DivisionOfNothing(g: Bits, r: Bits)
    requires |r| == |g| > 0
    ensures Xor(Product(g, Quotient(g, r, [])), Zeros(0) + Remainder(g, r, [])) == r + []
  {
    hide Bring, Xor, Tap, Zeros;
    assert Zeros(0) + r == r && r + [] == r;
    XorZero(r);
  }

  /** The last step of a division. */
  lemma {:induction false} DivisionUnfolds(g: Bits, r: Bits, bits: Bits)
    requires |r| == |g| > 0 && bits != []
    ensures var m := |bits| - 1; var s := Remainder(g, r, bits[..m]);
      && Remainder(g, r, bits) == Bring(g, s, bits[m])
      && Product(g, Quotient(g, r, bits)) == Xor(Product(g, Quotient(g, r, bits[..m])) + [false], Zeros(m) + Tap([true] + g, s[0]))
  {
    hide Bring, Xor, Tap, Zeros;
    var m := |bits| - 1;
    var q := Quotient(g, r, bits[..m]);
    assert Quotient(g, r, bits)[..m] == q;
  }

  lemma {:induction false} ProductLinearStep(g: Bits, u: Bits, v: Bits, a: bool, b: bool, m: nat)
    requires |u| == |v| == m + |g|
    ensures Xor(Xor(u, v) + [false], Zeros(m) + Tap([true] + g, a != b))
         == Xor(Xor(u + [false], Zeros(m) + Tap([true] + g, a)), Xor(v + [false], Zeros(m) + Tap([true] + g, b)))
  {
  }

  lemma {:induction false} ProductLinear(g: Bits, p: Bits, q: Bits)
    requires |p| == |q|
    ensures Product(g, Xor(p, q)) == Xor(Product(g, p), Product(g, q))
    decreases |p|
  {
    hide Zeros, Tap;
    if p == [] {
      XorZero(Zeros(|g|));
    } else {
      var m := |p| - 1;
      ProductLinear(g, p[..m], q[..m]);
      ProductLinearStep(g, Product(g, p[..m]), Product(g, q[..m]), p[m], q[m], m);
      XorPrefix(p, q, m);
    }
  }

  /** The product with a monic generator keeps a non-zero coefficient among the first |q|. */
  lemma {:induction false} ProductLeading(g: Bits, q: Bits)
    requires IsZero(Product(g, q)[..|q|])
    ensures IsZero(q)
    decreases |q|
  {
    if q != [] {
      var m := |q| - 1;
      var front := q[..m];
      var p := Product(g, q);
      forall i | 0 <= i < m
        ensures !Product(g, front)[i]
      {
        assert !p[..|q|][i];
      }
      ProductLeading(g, front);
      ProductOfZero(g, front);
      assert !p[..|q|][m];
    }
  }

  lemma {:induction false} ProductOfZero(g: Bits, q: Bits)
    requires IsZero(q)
    ensures IsZero(Product(g, q))
    decreases |q|
  {
    if q != [] {
      ProductOfZero(g, q[..|q| - 1]);
    }
  }

  /** The remainder does not depend on how the quotient was found. */
  lemma {:induction false} RemainderUnique(g: Bits, q: Bits, r: Bits, p: Bits, w: Bits)
    requires |r| == |g| && |p| == |q| && |w| == |q| + |g|
    requires Xor(Product(g, q), Zeros(|q|) + r) == w == Product(g, p)
    ensures IsZero(r)
  {
    hide Product;
    ProductLinear(g, q, p);
    var d, e := Xor(q, p), Zeros(|q|) + r;
    assert Product(g, d) == e by {
      forall i | 0 <= i < |w|
        ensures Product(g, d)[i] == e[i]
      {
        assert Xor(Product(g, q), e)[i] == w[i] == Product(g, p)[i];
      }
    }
    ProductLeading(g, d);
    ProductOfZero(g, d);
    forall i | 0 <= i < |r|
      ensures !r[i]
    {
      assert e[|q| + i] == r[i];
    }
  }

  /** A word leaves remainder zero exactly when it is a multiple of the generator. */
  lemma {:induction false} RemainderZeroIffMultiple(g: Bits, w: Bits)
    requires |g| > 0
    ensures IsZero(Remainder(g, Zeros(|g|), w)) <==> exists q :: |q| == |w| && Product(g, q) == Zeros(|g|) + w
  {
    hide Product, Remainder, Quotient;
    var z := Zeros(|g|);
    var q0, r0 := Quotient(g, z, w), Remainder(g, z, w);
    DivisionIdentity(g, z, w);
    if IsZero(r0) {
      assert Product(g, q0) == z + w;
    }
    if q :| |q| == |w| && Product(g, q) == z + w {
      RemainderUnique(g, q0, r0, q, z + w);
    }
  }

  // ----- both machines are linear -----

  lemma {:induction false} BringLinear(g: Bits, r: Bits, s: Bits, a: bool, b: bool)
    requires |r| == |s| == |g| > 0
    ensures Bring(g, Xor(r, s), a != b) == Xor(Bring(g, r, a), Bring(g, s, b))
  {
    hide Xor, Tap;
    XorIndex(r, s);
    ShiftedSum(r, s, a, b);
    TapLinear(g, r[0], s[0]);
    XorExchange(r[1..] + [a], s[1..] + [b], Tap(g, r[0]), Tap(g, s[0]));
  }

  lemma {:induction false} ClockLinear(g: Bits, r: Bits, s: Bits, a: bool, b: bool)
    requires |r| == |s| == |g| > 0
    ensures Clock(g, Xor(r, s), a != b) == Xor(Clock(g, r, a), Clock(g, s, b))
  {
    hide Xor, Tap;
    XorIndex(r, s);
    ShiftedSum(r, s, false, false);
    TapLinear(g, r[0] != a, s[0] != b);
    XorExchange(r[1..] + [false], s[1..] + [false], Tap(g, r[0] != a), Tap(g, s[0] != b));
  }

  /** Shifting a sum is summing the shifted words. */
  lemma {:induction false} ShiftedSum(r: Bits, s: Bits, a: bool, b: bool)
    requires |r| == |s| > 0
    ensures Xor(r, s)[1..] + [a != b] == Xor(r[1..] + [a], s[1..] + [b])
  {
    hide Xor;
    var x, y, z := Xor(r, s), r[1..] + [a], s[1..] + [b];
    XorIndex(r, s);
    XorIndex(y, z);
    forall i | 0 <= i < |r|
      ensures (x[1..] + [a != b])[i] == Xor(y, z)[i]
    {
      if i < |r| - 1 {
        assert x[i + 1] == (r[i + 1] != s[i + 1]) && y[i] == r[i + 1] && z[i] == s[i + 1];
      }
    }
  }

  lemma {:induction false} TapLinear(g: Bits, a: bool, b: bool)
    ensures Tap(g, a != b) == Xor(Tap(g, a), Tap(g, b))
  {
    hide Xor;
    XorIndex(Tap(g, a), Tap(g, b));
    var x := Xor(Tap(g, a), Tap(g, b));
    forall i | 0 <= i < |g|
      ensures Tap(g, a != b)[i] == x[i]
    {
    }
  }

  lemma {:induction false} RemainderLinear(g: Bits, r: Bits, s: Bits, a: Bits, b: Bits)
    requires |r| == |s| == |g| > 0 && |a| == |b|
    ensures Remainder(g, Xor(r, s), Xor(a, b)) == Xor(Remainder(g, r, a), Remainder(g, s, b))
    decreases |a|
  {
    hide Bring;
    if a != [] {
      var m := |a| - 1;
      RemainderLinear(g, r, s, a[..m], b[..m]);
      XorPrefix(a, b, m);
      BringLinear(g, Remainder(g, r, a[..m]), Remainder(g, s, b[..m]), a[m], b[m]);
    }
  }

  lemma {:induction false} FeedLinear(g: Bits, r: Bits, s: Bits, a: Bits, b: Bits)
    requires |r| == |s| == |g| > 0 && |a| == |b|
    ensures Feed(g, Xor(r, s), Xor(a, b)) == Xor(Feed(g, r, a), Feed(g, s, b))
    decreases |a|
  {
    hide Clock;
    if a != [] {
      var m := |a| - 1;
      FeedLinear(g, r, s, a[..m], b[..m]);
      XorPrefix(a, b, m);
      ClockLinear(g, Feed(g, r, a[..m]), Feed(g, s, b[..m]), a[m], b[m]);
    }
  }

  lemma {:induction false} RemainderConcat(g: Bits, r: Bits, a: Bits, b: Bits)
    requires |r| == |g| > 0
    ensures Remainder(g, r, a + b) == Remainder(g, Remainder(g, r, a), b)
    decreases |b|
  {
    hide Bring;
    if b == [] {
      assert a + b == a;
    } else {
      var m := |b| - 1;
      assert (a + b)[..|a| + m] == a + b[..m];
      RemainderConcat(g, r, a, b[..m]);
    }
  }

  lemma {:induction false} FeedConcat(g: Bits, r: Bits, a: Bits, b: Bits)
    requires |r| == |g| > 0
    ensures Feed(g, r, a + b) == Feed(g, Feed(g, r, a), b)
    decreases |b|
  {
    hide Clock;
    if b == [] {
      assert a + b == a;
    } else {
      var m := |b| - 1;
      assert (a + b)[..|a| + m] == a + b[..m];
      FeedConcat(g, r, a, b[..m]);
    }
  }

  // ----- no feedback before the register is full -----

  lemma {:induction false} ShiftWithoutFeedback(g: Bits, w: Bits)
    requires 0 < |w| <= |g|
    ensures Bring(g, Zeros(|g| - |w| + 1) + w[..|w| - 1], w[|w| - 1]) == Zeros(|g| - |w|) + w
  {
    var r := Zeros(|g| - |w| + 1) + w[..|w| - 1];
    assert !r[0];
  }

  lemma {:induction false} RemainderShiftsIn(g: Bits, w: Bits)
    requires 0 < |g| && |w| <= |g|
    ensures Remainder(g, Zeros(|g|), w) == Zeros(|g| - |w|) + w
    decreases |w|
  {
    hide Zeros, Bring;
    if w == [] {
      assert Zeros(|g|) + w == Zeros(|g|);
    } else {
      var m := |w| - 1;
      RemainderShiftsIn(g, w[..m]);
      ShiftWithoutFeedback(g, w);
    }
  }

  lemma {:induction false} RemainderOfZeros(g: Bits, k: nat)
    requires 0 < |g|
    ensures Remainder(g, Zeros(|g|), Zeros(k)) == Zeros(|g|)
  {
    if k > 0 {
      ZerosSucc(k - 1);
      RemainderOfZeros(g, k - 1);
    }
  }

  /** Clocking in zeros is the same as bringing down zeros. */
  lemma {:induction false} FeedZerosIsRemainder(g: Bits, r: Bits, k: nat)
    requires |r| == |g| > 0
    ensures Feed(g, r, Zeros(k)) == Remainder(g, r, Zeros(k))
  {
    if k > 0 {
      ZerosSucc(k - 1);
      FeedZerosIsRemainder(g, r, k - 1);
    }
  }

  lemma {:induction false} LeadingOneLeaves(g: Bits, u: Bits)
    requires |u| == |g| > 0 && u[0] && IsZero(u[1..])
    ensures Bring(g, u, false) == g
  {
  }

  /** The remainder of x^n is the generator without its leading one. */
  lemma {:induction false} RemainderOfLeadingPower(g: Bits)
    requires 0 < |g|
    ensures Remainder(g, Zeros(|g|), [true] + Zeros(|g|)) == g
  {
    hide Remainder, Bring;
    var n, z := |g|, Zeros(|g|);
    var u := [true] + Zeros(n - 1);
    assert [true] + z == u + [false] by {
      ZerosSucc(n - 1);
    }
    RemainderConcat(g, z, u, [false]);
    RemainderShiftsIn(g, u);
    assert Zeros(0) + u == u;
    RemainderSingle(g, u, false);
    LeadingOneLeaves(g, u);
  }

  /** Bringing down one more coefficient b and n zeros: the contribution of b is the generator. */
  lemma {:induction false} RemainderOfOneMore(g: Bits, r: Bits, b: bool)
    requires |r| == |g| > 0
    ensures Remainder(g, r, [b] + Zeros(|g|)) == Clock(g, Remainder(g, r, Zeros(|g|)), b)
  {
    hide Remainder, Zeros, Bring, Clock, Xor, Tap;
    var z := Zeros(|g|);
    var s := Remainder(g, r, z);
    SplitOffTail(g, r, [b] + z);
    RemainderOfOnePower(g, b);
    assert Remainder(g, r, Zeros(|g| + 1)) == Bring(g, s, false) by {
      ZerosSucc(|g|);
      RemainderConcat(g, r, z, [false]);
      RemainderSingle(g, s, false);
    }
    ClockIsBring(g, s, b);
  }

  /** Superposition: the register's own contribution and that of the input. */
  lemma {:induction false} SplitOffTail(g: Bits, r: Bits, w: Bits)
    requires |r| == |g| > 0
    ensures Remainder(g, r, w) == Xor(Remainder(g, r, Zeros(|w|)), Remainder(g, Zeros(|g|), w))
  {
    hide Remainder, Xor, Zeros;
    RemainderLinear(g, r, Zeros(|g|), Zeros(|w|), w);
    XorZero(r);
    XorZero(w);
  }

  lemma {:induction false} RemainderOfOnePower(g: Bits, b: bool)
    requires 0 < |g|
    ensures Remainder(g, Zeros(|g|), [b] + Zeros(|g|)) == Tap(g, b)
  {
    hide Remainder;
    if b {
      RemainderOfLeadingPower(g);
    } else {
      ZerosSucc(|g|);
      RemainderOfZeros(g, |g| + 1);
    }
  }

  lemma {:induction false} ClockIsBring(g: Bits, s: Bits, b: bool)
    requires |s| == |g| > 0
    ensures Clock(g, s, b) == Xor(Bring(g, s, false), Tap(g, b))
  {
  }

  lemma {:induction false} RemainderSingle(g: Bits, r: Bits, b: bool)
    requires |r| == |g| > 0
    ensures Remainder(g, r, [b]) == Bring(g, r, b)
  {
    hide Bring;
    assert [b][..0] == [];
  }

  /** The register machine computes the remainder of the message followed by n zeros. */
  lemma {:induction false} FeedIsDivision(g: Bits, bits: Bits)
    requires 0 < |g|
    ensures Feed(g, Zeros(|g|), bits) == Remainder(g, Zeros(|g|), bits + Zeros(|g|))
    decreases |bits|
  {
    hide Remainder, Clock, Zeros;
    var n, z := |g|, Zeros(|g|);
    if bits == [] {
      assert bits + z == z;
      RemainderOfZeros(g, n);
    } else {
      var m := |bits| - 1;
      var front, b := bits[..m], bits[m];
      FeedIsDivision(g, front);
      assert bits + z == front + ([b] + z);
      RemainderConcat(g, z, front, [b] + z);
      RemainderConcat(g, z, front, z);
      RemainderOfOneMore(g, Remainder(g, z, front), b);
    }
  }

  /** Input bits may be added to the register up front and clocked through as zeros. */
  lemma {:induction false} InjectUpFront(g: Bits, r: Bits, w: Bits)
    requires |w| <= |r| == |g| && |g| > 0
    ensures Feed(g, r, w) == Feed(g, Xor(r, w + Zeros(|g| - |w|)), Zeros(|w|))
  {
    hide Feed, Zeros, Xor;
    var n, m := |g|, |w|;
    var w0 := w + Zeros(n - m);
    FeedLinear(g, r, Zeros(n), Zeros(m), w);
    XorZero(r);
    XorZero(w);
    FeedLinear(g, r, w0, Zeros(m), Zeros(m));
    XorZero(Zeros(m));
    FeedFromZero(g, w);
  }

  lemma {:induction false} PadInTwo(w: Bits, k: nat, m: nat)
    ensures w + Zeros(k + m) == (w + Zeros(k)) + Zeros(m)
  {
  }

  lemma {:induction false} FeedFromZero(g: Bits, w: Bits)
    requires |w| <= |g| && |g| > 0
    ensures Feed(g, Zeros(|g|), w) == Feed(g, w + Zeros(|g| - |w|), Zeros(|w|))
  {
    hide Feed, Zeros, Remainder;
    var n, m := |g|, |w|;
    var w0 := w + Zeros(n - m);
    FeedIsDivision(g, w);
    PadInTwo(w, n - m, m);
    RemainderConcat(g, Zeros(n), w0, Zeros(m));
    RemainderShiftsIn(g, w0);
    assert Zeros(0) + w0 == w0;
    FeedZerosIsRemainder(g, w0, m);
  }

  /** The part of the register below the top m places moves up m places unchanged. */
  lemma {:induction false} NoFeedback(g: Bits, low: Bits, m: nat)
    requires |g| > 0 && |low| + m == |g|
    ensures Remainder(g, Zeros(m) + low, Zeros(m)) == low + Zeros(m)
  {
    hide Remainder, Zeros;
    RemainderShiftsIn(g, low);
    RemainderConcat(g, Zeros(|g|), low, Zeros(m));
    RemainderShiftsIn(g, low + Zeros(m));
    assert Zeros(0) + (low + Zeros(m)) == low + Zeros(m);
  }

  // ----- what a CRC detects -----

  lemma {:induction false} ZerosKeepNonZero(g: Bits, r: Bits, k: nat)
    requires |r| == |g| > 0 && g[|g| - 1] && !IsZero(r)
    ensures !IsZero(Remainder(g, r, Zeros(k)))
  {
    if k > 0 {
      ZerosSucc(k - 1);
      ZerosKeepNonZero(g, r, k - 1);
      var s := Remainder(g, r, Zeros(k - 1));
      var t := Bring(g, s, false);
      var i :| 0 <= i < |s| && s[i];
      if s[0] {
        assert t[|g| - 1];
      } else {
        assert t[i - 1];
      }
    }
  }

  /** A non-zero error pattern confined to n consecutive positions leaves a non-zero remainder. */
  lemma {:induction false} WindowDetected(g: Bits, before: nat, w: Bits, after: nat)
    requires 0 < |g| && g[|g| - 1] && |w| <= |g| && !IsZero(w)
    ensures !IsZero(Remainder(g, Zeros(|g|), Zeros(before) + w + Zeros(after)))
  {
    hide Remainder, Zeros;
    var z := Zeros(|g|);
    RemainderConcat(g, z, Zeros(before) + w, Zeros(after));
    RemainderConcat(g, z, Zeros(before), w);
    RemainderOfZeros(g, before);
    RemainderShiftsIn(g, w);
    NonZeroSuffix(|g| - |w|, w);
    ZerosKeepNonZero(g, Zeros(|g| - |w|) + w, after);
  }

  /** Two ones at distance k leave a non-zero remainder unless x^k is one. */
  lemma {:induction false} DoubleDetected(g: Bits, before: nat, k: nat, after: nat)
    requires 0 < |g| && g[|g| - 1] && k > 0 && Remainder(g, One(|g|), Zeros(k)) != One(|g|)
    ensures !IsZero(Remainder(g, Zeros(|g|), Zeros(before) + [true] + Zeros(k - 1) + [true] + Zeros(after)))
  {
    hide Remainder, Zeros;
    var n, z := |g|, Zeros(|g|);
    var w := Zeros(k - 1) + [true];
    RemainderConcat(g, z, Zeros(before), [true]);
    RemainderOfZeros(g, before);
    RemainderShiftsIn(g, [true]);
    RemainderConcat(g, z, Zeros(before) + [true], w);
    RemainderConcat(g, z, Zeros(before) + [true] + w, Zeros(after));
    assert Zeros(before) + [true] + Zeros(k - 1) + [true] == Zeros(before) + [true] + w;
    RemainderLinear(g, One(n), z, Zeros(k), w);
    SumWithZero(One(n), w, k);
    RemainderConcat(g, z, Zeros(k - 1), [true]);
    RemainderOfZeros(g, k - 1);
    var x, y := Remainder(g, One(n), Zeros(k)), One(n);
    DifferentSum(x, y);
    ZerosKeepNonZero(g, Xor(x, y), after);
  }

  lemma {:induction false} SumWithZero(one: Bits, w: Bits, k: nat)
    requires |w| == k
    ensures Xor(one, Zeros(|one|)) == one && Xor(Zeros(k), w) == w
  {
    XorZero(one);
    XorZero(w);
  }

  lemma {:induction false} DifferentSum(x: Bits, y: Bits)
    requires |x| == |y| && x != y
    ensures !IsZero(Xor(x, y))
  {
    XorIndex(x, y);
    var i :| 0 <= i < |x| && x[i] != y[i];
    assert Xor(x, y)[i];
  }

  lemma {:induction false} NonZeroSuffix(k: nat, w: Bits)
    requires !IsZero(w)
    ensures !IsZero(Zeros(k) + w)
  {
    var i :| 0 <= i < |w| && w[i];
    assert (Zeros(k) + w)[k + i];
  }

  function Parity(a: Bits): bool {
    if a == [] then false else Parity(a[..|a| - 1]) != a[|a| - 1]
  }

  lemma {:induction false} ParityOfWeight(a: Bits)
    ensures Parity(a) <==> Weight(a) % 2 == 1
    decreases |a|
  {
    if a != [] {
      ParityOfWeight(a[..|a| - 1]);
    }
  }

  lemma {:induction false} ParityXor(a: Bits, b: Bits)
    requires |a| == |b|
    ensures Parity(Xor(a, b)) == (Parity(a) != Parity(b))
  {
    if a != [] {
      var m := |a| - 1;
      XorPrefix(a, b, m);
      ParityXor(a[..m], b[..m]);
    }
  }

  lemma {:induction false} ParityConcat(a: Bits, b: Bits)
    ensures Parity(a + b) == (Parity(a) != Parity(b))
    decreases |b|
  {
    if b == [] {
      assert a + b == a;
    } else {
      var m := |b| - 1;
      assert (a + b)[..|a| + m] == a + b[..m];
      ParityConcat(a, b[..m]);
    }
  }

  lemma {:induction false} ParityOfZeros(k: nat)
    ensures !Parity(Zeros(k))
  {
    if k > 0 {
      ZerosSucc(k - 1);
      ParityOfZeros(k - 1);
    }
  }

  /** When the full generator has an even number of ones, division preserves parity, so every
      error of odd weight is detected. */
  lemma {:induction false} OddWeightDetected(g: Bits, bits: Bits)
    requires 0 < |g| && Parity(g)
    ensures Parity(Remainder(g, Zeros(|g|), bits)) == Parity(bits)
    decreases |bits|
  {
    if bits == [] {
      ParityOfZeros(|g|);
    } else {
      var m := |bits| - 1;
      OddWeightDetected(g, bits[..m]);
      var s := Remainder(g, Zeros(|g|), bits[..m]);
      ParityXor(s[1..] + [bits[m]], Tap(g, s[0]));
      ParityOfZeros(|g|);
      ParityConcat(s[..1], s[1..]);
      assert s == s[..1] + s[1..];
      assert s[..1] == [s[0]];
      assert Parity(s[..1]) == s[0];
      ParityConcat(s[1..], [bits[m]]);
      assert Parity([bits[m]]) == bits[m];
    }
  }
}
